/** Exact points and segments. Doubles of the original are reals here, and every point is in one
    spatial reference system. */
module Geometry {
  import opened Basics

  datatype Vec = Vec(x: real, y: real, z: real)

  /** A georeferenced point: a position and its number of dimensions (2 or 3). */
  datatype GeoPoint = GeoPoint(at: Vec, dim: nat)

  type Part = seq<GeoPoint>

  /** Points of one dimension, and the 3D points clipping adds to them: a 2D part stays at height zero. */
  ghost predicate Coherent(part: Part, threeD: bool) {
    forall p :: p in part ==> if threeD then p.dim == 3 else p.at.z == 0.0
  }

  /** The square of the distance between two points. */
  function Distance2(a: Vec, b: Vec): real {
    (b.x - a.x) * (b.x - a.x) + (b.y - a.y) * (b.y - a.y) + (b.z - a.z) * (b.z - a.z)
  }

  function Mix(a: real, b: real, t: real): real {
    a + t * (b - a)
  }

  function Lerp(a: Vec, b: Vec, t: real): Vec {
    Vec(Mix(a.x, b.x, t), Mix(a.y, b.y, t), Mix(a.z, b.z, t))
  }

  ghost predicate OnSegment(a: Vec, b: Vec, q: Vec) {
    exists t: real :: 0.0 <= t <= 1.0 && q == Lerp(a, b, t)
  }

  /** The points of the closed segment from a to b. */
  ghost function Segment(a: Vec, b: Vec): iset<Vec> {
    iset q | OnSegment(a, b, q)
  }

  /** The points of a polyline: the union of its segments, so nothing for fewer than two vertices. */
  ghost function Polyline(points: seq<GeoPoint>): iset<Vec> {
    if |points| < 2 then iset{}
    else Polyline(points[..|points| - 1]) + Segment(points[|points| - 2].at, points[|points| - 1].at)
  }

  ghost function Polylines(parts: seq<seq<GeoPoint>>): iset<Vec> {
    if parts == [] then iset{} else Polylines(parts[..|parts| - 1]) + Polyline(parts[|parts| - 1])
  }

  lemma EmptyCover()
    ensures Polyline([]) == iset{} && Polylines([]) == iset{}
  {
  }

  lemma ShortPolyline(points: seq<GeoPoint>)
    ensures |points| < 2 ==> Polyline(points) == iset{}
  {
  }

  lemma PolylineExtend(points: seq<GeoPoint>, p: GeoPoint)
    ensures Polyline(points + [p]) ==
            if points == [] then iset{} else Polyline(points) + Segment(points[|points| - 1].at, p.at)
  {
    assert (points + [p])[..|points|] == points;
  }

  lemma PolylinesExtend(parts: seq<seq<GeoPoint>>, part: seq<GeoPoint>)
    ensures Polylines(parts + [part]) == Polylines(parts) + Polyline(part)
  {
    assert (parts + [part])[..|parts|] == parts;
  }

  lemma {:induction false} PolylinesConcat(a: seq<seq<GeoPoint>>, b: seq<seq<GeoPoint>>)
    ensures Polylines(a + b) == Polylines(a) + Polylines(b)
  {
    if b == [] {
      assert a + b == a;
    } else {
      assert a + b == (a + b[..|b| - 1]) + [b[|b| - 1]];
      PolylinesConcat(a, b[..|b| - 1]);
      PolylinesExtend(a + b[..|b| - 1], b[|b| - 1]);
    }
  }

  lemma LerpEnds(a: Vec, b: Vec)
    ensures Lerp(a, b, 0.0) == a && Lerp(a, b, 1.0) == b
  {
  }

  /** A segment between two points of a segment is the stretch of it between their parameters. */
  lemma SubSegment(a: Vec, b: Vec, u: real, v: real, q: Vec)
    requires 0.0 <= u <= v <= 1.0
    ensures OnSegment(Lerp(a, b, u), Lerp(a, b, v), q) <==> exists t :: u <= t <= v && q == Lerp(a, b, t)
  {
    if w :| 0.0 <= w <= 1.0 && q == Lerp(Lerp(a, b, u), Lerp(a, b, v), w) {
      var t := Outer(a, b, u, v, w);
    }
    if t :| u <= t <= v && q == Lerp(a, b, t) {
      var w := Inner(a, b, u, v, t);
    }
  }

  lemma Outer(a: Vec, b: Vec, u: real, v: real, w: real) returns (t: real)
    requires u <= v && 0.0 <= w <= 1.0
    ensures u <= t <= v && Lerp(Lerp(a, b, u), Lerp(a, b, v), w) == Lerp(a, b, t)
  {
    LerpLerp(a, b, u, v, w);
    Scale(v - u, w);
    t := u + w * (v - u);
  }

  lemma Inner(a: Vec, b: Vec, u: real, v: real, t: real) returns (w: real)
    requires u <= t <= v
    ensures 0.0 <= w <= 1.0 && Lerp(Lerp(a, b, u), Lerp(a, b, v), w) == Lerp(a, b, t)
  {
    w := Ratio(v - u, t - u);
    LerpLerp(a, b, u, v, w);
  }

  lemma Scale(d: real, w: real)
    requires 0.0 <= d && 0.0 <= w <= 1.0
    ensures 0.0 <= w * d <= d
  {
  }

  lemma ScaleTo(d: real, w: real)
    requires 0.0 <= w <= 1.0
    ensures if d >= 0.0 then 0.0 <= w * d <= d else d <= w * d <= 0.0
  {
    if d >= 0.0 {
      Scale(d, w);
    } else {
      Scale(-d, w);
      assert w * (-d) == -(w * d);
    }
  }

  lemma Ratio(d: real, n: real) returns (w: real)
    requires 0.0 <= n <= d
    ensures 0.0 <= w <= 1.0 && w * d == n
  {
    w := if d == 0.0 then 0.0 else n / d;
  }

  lemma LerpLerp(a: Vec, b: Vec, u: real, v: real, w: real)
    ensures Lerp(Lerp(a, b, u), Lerp(a, b, v), w) == Lerp(a, b, u + w * (v - u))
  {
    hide Mix;
    MixOfMixes(a.x, b.x, u, v, w);
    MixOfMixes(a.y, b.y, u, v, w);
    MixOfMixes(a.z, b.z, u, v, w);
  }

  lemma MixOfMixes(a: real, b: real, u: real, v: real, w: real)
    ensures Mix(Mix(a, b, u), Mix(a, b, v), w) == Mix(a, b, u + w * (v - u))
  {
    var d := b - a;
    var k := (v - u) * d;
    assert Mix(a, b, v) - Mix(a, b, u) == k;
    assert w * k == w * (v - u) * d;
    assert (u + w * (v - u)) * d == u * d + w * (v - u) * d;
  }
}
