/** The clipping primitives of CropFilter.cpp and its line clipper. */
module CropLine {
  import opened Basics
  import opened Geometry

  /** A bounding rectangle (GeoExtent): its south-west and north-east corners. */
  datatype Extent = Extent(xmin: real, ymin: real, xmax: real, ymax: real) {
    predicate HasArea() { xmin < xmax && ymin < ymax }

    predicate Holds(p: Vec) { xmin <= p.x <= xmax && ymin <= p.y <= ymax }

    predicate HoldsInside(p: Vec) { xmin < p.x < xmax && ymin < p.y < ymax }

    function Sw(): Vec { Vec(xmin, ymin, 0.0) }
    function Se(): Vec { Vec(xmax, ymin, 0.0) }
    function Ne(): Vec { Vec(xmax, ymax, 0.0) }
    function Nw(): Vec { Vec(xmin, ymax, 0.0) }

    /** The four boundary lines in the order the clippers visit them. */
    function Edge(stage: nat): (Vec, Vec)
      requires stage < 4
    {
      match stage
      case 0 => (Sw(), Se())
      case 1 => (Se(), Ne())
      case 2 => (Ne(), Nw())
      case 3 => (Nw(), Sw())
    }
  }

  /** The z component of (s2 - s1) ^ (p - s1). */
  function Side(p: Vec, s1: Vec, s2: Vec): real {
    (s2.x - s1.x) * (p.y - s1.y) - (s2.y - s1.y) * (p.x - s1.x)
  }

  predicate PointInsideOrOnLine(p: Vec, s1: Vec, s2: Vec) {
    Side(p, s1, s2) >= 0.0
  }

  function IsectDenominator(p1: Vec, p2: Vec, p3: Vec, p4: Vec): real {
    (p4.y - p3.y) * (p2.x - p1.x) - (p4.x - p3.x) * (p2.y - p1.y)
  }

  function IsectNumerator(p1: Vec, p3: Vec, p4: Vec): real {
    (p4.x - p3.x) * (p1.y - p3.y) - (p4.y - p3.y) * (p1.x - p3.x)
  }

  function GetIsectPoint(p1: GeoPoint, p2: GeoPoint, p3: Vec, p4: Vec): Option<GeoPoint> {
    var denom := IsectDenominator(p1.at, p2.at, p3, p4);
    if denom == 0.0 then None
    else
      var ua := IsectNumerator(p1.at, p3, p4) / denom;
      if ua < 0.0 || ua > 1.0 then None
      else
        var x := p1.at.x + ua * (p2.at.x - p1.at.x);
        var y := p1.at.y + ua * (p2.at.y - p1.at.y);
        var z := if p1.dim > 2 then p1.at.z + ua * (p2.at.z - p1.at.z) else 0.0;
        Some(GeoPoint(Vec(x, y, z), 3))
  }

  ghost predicate AllCoherent(parts: seq<Part>, threeD: bool) {
    forall part :: part in parts ==> Coherent(part, threeD)
  }

  // ----- one segment against one line

  ghost function HalfPlane(s1: Vec, s2: Vec): iset<Vec> {
    iset q | PointInsideOrOnLine(q, s1, s2)
  }

  /** The side changes linearly along a segment; d is its total change. */
  lemma SideOfLerp(a: Vec, b: Vec, d: real, t: real, s1: Vec, s2: Vec)
    requires d == Side(b, s1, s2) - Side(a, s1, s2)
    ensures Side(Lerp(a, b, t), s1, s2) == Side(a, s1, s2) + t * d
  {
    var dx, dy := s2.x - s1.x, s2.y - s1.y;
    var ex, ey := b.x - a.x, b.y - a.y;
    var ax, ay := a.x - s1.x, a.y - s1.y;
    assert d == dx * ey - dy * ex;
    calc {
      Side(Lerp(a, b, t), s1, s2);
      dx * (ay + t * ey) - dy * (ax + t * ex);
      dx * ay + dx * (t * ey) - dy * ax - dy * (t * ex);
      { assert dx * (t * ey) == t * (dx * ey) && dy * (t * ex) == t * (dy * ex); }
      Side(a, s1, s2) + t * (dx * ey) - t * (dy * ex);
      Side(a, s1, s2) + t * d;
    }
  }

  /** A segment that changes sides crosses the line in a point of the segment: the failure branches
      of the intersection are never taken there. */
  lemma CrossingExists(p1: GeoPoint, p2: GeoPoint, s1: Vec, s2: Vec) returns (t: real)
    requires PointInsideOrOnLine(p1.at, s1, s2) != PointInsideOrOnLine(p2.at, s1, s2)
    ensures GetIsectPoint(p1, p2, s1, s2).Some?
    ensures var x, q := GetIsectPoint(p1, p2, s1, s2).value, Lerp(p1.at, p2.at, t);
            && 0.0 <= t <= 1.0
            && x.at.x == q.x && x.at.y == q.y && x.at.z == (if p1.dim > 2 then q.z else 0.0) && x.dim == 3
            && Side(x.at, s1, s2) == 0.0
  {
    var f1, f2 := Side(p1.at, s1, s2), Side(p2.at, s1, s2);
    assert IsectNumerator(p1.at, s1, s2) == f1;
    DenominatorIsDrop(p1.at, p2.at, s1, s2);
    var d := f2 - f1;
    t := f1 / (-d);
    FractionInUnit(f1, d);
    SideOfLerp(p1.at, p2.at, d, t, s1, s2);
  }

  lemma CoherentCrossing(p1: GeoPoint, p2: GeoPoint, s1: Vec, s2: Vec, threeD: bool) returns (t: real)
    requires PointInsideOrOnLine(p1.at, s1, s2) != PointInsideOrOnLine(p2.at, s1, s2)
    requires Coherent([p1, p2], threeD)
    ensures GetIsectPoint(p1, p2, s1, s2).Some?
    ensures var x := GetIsectPoint(p1, p2, s1, s2).value;
            && 0.0 <= t <= 1.0 && x.at == Lerp(p1.at, p2.at, t)
            && Side(x.at, s1, s2) == 0.0
            && Coherent([x], threeD)
  {
    hide Side, GetIsectPoint, PointInsideOrOnLine;
    t := CrossingExists(p1, p2, s1, s2);
    assert p1 in [p1, p2] && p2 in [p1, p2];
  }

  lemma DenominatorIsDrop(p1: Vec, p2: Vec, s1: Vec, s2: Vec)
    ensures IsectDenominator(p1, p2, s1, s2) == Side(p1, s1, s2) - Side(p2, s1, s2)
  {
  }

  lemma FractionInUnit(f1: real, d: real)
    requires f1 >= 0.0 > f1 + d || f1 + d >= 0.0 > f1
    ensures 0.0 <= f1 / (-d) <= 1.0
    ensures f1 + f1 / (-d) * d == 0.0
  {
  }

  lemma SideOrder(f1: real, d: real, t: real, r: real)
    requires f1 + t * d == 0.0
    ensures d < 0.0 ==> (f1 + r * d >= 0.0 <==> r <= t)
    ensures d > 0.0 ==> (f1 + r * d >= 0.0 <==> t <= r)
  {
    var k := r - t;
    assert f1 + r * d == k * d;
  }

  /** Cutting a segment that leaves the half-plane at its crossing point keeps exactly what is inside. */
  lemma ClipLeaving(a: Vec, b: Vec, t: real, s1: Vec, s2: Vec)
    requires 0.0 <= t <= 1.0 && Side(Lerp(a, b, t), s1, s2) == 0.0
    requires PointInsideOrOnLine(a, s1, s2) && !PointInsideOrOnLine(b, s1, s2)
    ensures Segment(a, Lerp(a, b, t)) == Segment(a, b) * HalfPlane(s1, s2)
  {
    LerpEnds(a, b);
    forall q: Vec
      ensures q in Segment(a, Lerp(a, b, t)) <==> q in Segment(a, b) && q in HalfPlane(s1, s2)
    {
      SubSegment(a, b, 0.0, t, q);
      forall r: real | q == Lerp(a, b, r)
        ensures q in HalfPlane(s1, s2) <==> r <= t
      {
        InsideUpTo(a, b, t, r, s1, s2);
      }
    }
  }

  lemma ClipEntering(a: Vec, b: Vec, t: real, s1: Vec, s2: Vec)
    requires 0.0 <= t <= 1.0 && Side(Lerp(a, b, t), s1, s2) == 0.0
    requires !PointInsideOrOnLine(a, s1, s2) && PointInsideOrOnLine(b, s1, s2)
    ensures Segment(Lerp(a, b, t), b) == Segment(a, b) * HalfPlane(s1, s2)
  {
    LerpEnds(a, b);
    forall q: Vec
      ensures q in Segment(Lerp(a, b, t), b) <==> q in Segment(a, b) && q in HalfPlane(s1, s2)
    {
      SubSegment(a, b, t, 1.0, q);
      forall r: real | q == Lerp(a, b, r)
        ensures q in HalfPlane(s1, s2) <==> t <= r
      {
        InsideUpTo(a, b, t, r, s1, s2);
      }
    }
  }

  lemma InsideUpTo(a: Vec, b: Vec, t: real, r: real, s1: Vec, s2: Vec)
    requires Side(Lerp(a, b, t), s1, s2) == 0.0
    ensures Side(b, s1, s2) < Side(a, s1, s2) ==> (PointInsideOrOnLine(Lerp(a, b, r), s1, s2) <==> r <= t)
    ensures Side(a, s1, s2) < Side(b, s1, s2) ==> (PointInsideOrOnLine(Lerp(a, b, r), s1, s2) <==> t <= r)
  {
    var d := Side(b, s1, s2) - Side(a, s1, s2);
    SideOfLerp(a, b, d, t, s1, s2);
    SideOfLerp(a, b, d, r, s1, s2);
    SideOrder(Side(a, s1, s2), d, t, r);
  }

  /** A half-plane and its complement are convex. */
  lemma Convex(a: Vec, b: Vec, t: real, s1: Vec, s2: Vec)
    requires 0.0 <= t <= 1.0
    requires PointInsideOrOnLine(a, s1, s2) == PointInsideOrOnLine(b, s1, s2)
    ensures PointInsideOrOnLine(Lerp(a, b, t), s1, s2) == PointInsideOrOnLine(a, s1, s2)
  {
    hide Side, Lerp;
    var d := Side(b, s1, s2) - Side(a, s1, s2);
    SideOfLerp(a, b, d, t, s1, s2);
    ScaleTo(d, t);
  }

  lemma SameSide(a: Vec, b: Vec, s1: Vec, s2: Vec)
    requires PointInsideOrOnLine(a, s1, s2) == PointInsideOrOnLine(b, s1, s2)
    ensures Segment(a, b) * HalfPlane(s1, s2) == if PointInsideOrOnLine(a, s1, s2) then Segment(a, b) else iset{}
  {
    forall t: real | 0.0 <= t <= 1.0
      ensures PointInsideOrOnLine(Lerp(a, b, t), s1, s2) == PointInsideOrOnLine(a, s1, s2)
    {
      Convex(a, b, t, s1, s2);
    }
  }

  // ----- a polyline against one line

  /** The pieces so far and the part in the making cover the walked points that lie inside. */
  ghost predicate Covered(pieces: seq<Part>, current: Part, walked: Part, s1: Vec, s2: Vec) {
    Polylines(pieces) + Polyline(current) == Polyline(walked) * HalfPlane(s1, s2)
  }

  ghost predicate EndsAt(points: Part, last: GeoPoint) {
    points != [] && points[|points| - 1] == last
  }

  /** What walking on from the last point to p adds inside the half-plane. */
  lemma Advance(walked: Part, last: GeoPoint, p: GeoPoint, s1: Vec, s2: Vec)
    requires EndsAt(walked, last)
    ensures Polyline(walked + [p]) * HalfPlane(s1, s2) ==
            Polyline(walked) * HalfPlane(s1, s2) + Segment(last.at, p.at) * HalfPlane(s1, s2)
  {
    PolylineExtend(walked, p);
  }

  lemma Start(p: GeoPoint, s1: Vec, s2: Vec)
    ensures Covered([], [], [p], s1, s2) && Covered([], [p], [p], s1, s2)
  {
    assert Polyline([p]) == iset{};
  }

  lemma Stay(pieces: seq<Part>, current: Part, walked: Part, last: GeoPoint, p: GeoPoint, s1: Vec, s2: Vec)
    requires Covered(pieces, current, walked, s1, s2) && EndsAt(walked, last)
    requires PointInsideOrOnLine(last.at, s1, s2) == PointInsideOrOnLine(p.at, s1, s2)
    requires PointInsideOrOnLine(p.at, s1, s2) ==> EndsAt(current, last)
    ensures Covered(pieces, if PointInsideOrOnLine(p.at, s1, s2) then current + [p] else current, walked + [p], s1, s2)
  {
    Advance(walked, last, p, s1, s2);
    SameSide(last.at, p.at, s1, s2);
    PolylineExtend(current, p);
  }

  lemma Leave(pieces: seq<Part>, current: Part, walked: Part, last: GeoPoint, p: GeoPoint, s1: Vec, s2: Vec,
              threeD: bool)
    requires Covered(pieces, current, walked, s1, s2) && EndsAt(walked, last) && EndsAt(current, last)
    requires Coherent([last, p], threeD)
    requires PointInsideOrOnLine(last.at, s1, s2) && !PointInsideOrOnLine(p.at, s1, s2)
    ensures GetIsectPoint(last, p, s1, s2).Some?
    ensures var x := GetIsectPoint(last, p, s1, s2).value;
            Covered(pieces + [current + [x]], [], walked + [p], s1, s2) && Coherent([x], threeD)
  {
    var t := CoherentCrossing(last, p, s1, s2, threeD);
    var x := GetIsectPoint(last, p, s1, s2).value;
    ClipLeaving(last.at, p.at, t, s1, s2);
    PolylineExtend(current, x);
    PolylinesExtend(pieces, current + [x]);
    Advance(walked, last, p, s1, s2);
  }

  lemma Enter(pieces: seq<Part>, walked: Part, last: GeoPoint, p: GeoPoint, s1: Vec, s2: Vec, threeD: bool)
    requires Covered(pieces, [], walked, s1, s2) && EndsAt(walked, last)
    requires Coherent([last, p], threeD)
    requires !PointInsideOrOnLine(last.at, s1, s2) && PointInsideOrOnLine(p.at, s1, s2)
    ensures GetIsectPoint(last, p, s1, s2).Some?
    ensures var x := GetIsectPoint(last, p, s1, s2).value;
            Covered(pieces, [x] + [p], walked + [p], s1, s2) && Coherent([x], threeD)
  {
    var t := CoherentCrossing(last, p, s1, s2, threeD);
    var x := GetIsectPoint(last, p, s1, s2).value;
    ClipEntering(last.at, p.at, t, s1, s2);
    PolylineExtend([x], p);
    assert Polyline([x]) == iset{};
    Advance(walked, last, p, s1, s2);
  }

  lemma Finish(pieces: seq<Part>, current: Part, part: Part, s1: Vec, s2: Vec)
    requires Covered(pieces, current, part, s1, s2)
    ensures Polylines(if |current| > 1 then pieces + [current] else pieces) == Polyline(part) * HalfPlane(s1, s2)
  {
    PolylinesExtend(pieces, current);
  }

  // ----- the order of what is left

  /** The points of a list that are inside, in their order. */
  function InsideOnly(points: Part, s1: Vec, s2: Vec): Part {
    if points == [] then []
    else
      var p := points[|points| - 1];
      InsideOnly(points[..|points| - 1], s1, s2) + if PointInsideOrOnLine(p.at, s1, s2) then [p] else []
  }

  /** The points inside along a part, with the crossings of the line between them, in the order of the part. */
  function Trace(part: Part, s1: Vec, s2: Vec): Part {
    if |part| < 2 then InsideOnly(part, s1, s2)
    else
      var (p, q) := (part[|part| - 2], part[|part| - 1]);
      var (was, now) := (PointInsideOrOnLine(p.at, s1, s2), PointInsideOrOnLine(q.at, s1, s2));
      var x := GetIsectPoint(p, q, s1, s2);
      Trace(part[..|part| - 1], s1, s2)
      + (if was != now && x.Some? then [x.value] else []) + (if now then [q] else [])
  }

  function Joined(parts: seq<Part>): Part {
    if parts == [] then [] else Joined(parts[..|parts| - 1]) + parts[|parts| - 1]
  }

  lemma JoinedExtend(parts: seq<Part>, last: Part)
    ensures Joined(parts + [last]) == Joined(parts) + last
  {
    assert (parts + [last])[..|parts|] == parts;
  }

  lemma {:induction false} JoinedConcat(a: seq<Part>, b: seq<Part>)
    ensures Joined(a + b) == Joined(a) + Joined(b)
  {
    if b == [] {
      assert a + b == a;
    } else {
      var n := |b| - 1;
      JoinedConcat(a, b[..n]);
      assert a + b == (a + b[..n]) + [b[n]];
      JoinedExtend(a + b[..n], b[n]);
    }
  }

  /** The points of a are among those of b, in the same order. */
  predicate InOrder(a: Part, b: Part) {
    if a == [] then true
    else if b == [] then false
    else if a[|a| - 1] == b[|b| - 1] then InOrder(a[..|a| - 1], b[..|b| - 1])
    else InOrder(a, b[..|b| - 1])
  }

  lemma {:induction false} InOrderItself(a: Part)
    ensures InOrder(a, a)
  {
    if a != [] {
      InOrderItself(a[..|a| - 1]);
    }
  }

  lemma {:induction false} InOrderMore(a: Part, b: Part, q: GeoPoint)
    requires InOrder(a, b)
    ensures InOrder(a, b + [q])
    decreases |a| + |b|, 1
  {
    assert (b + [q])[..|b|] == b;
    if a != [] && a[|a| - 1] == q {
      InOrderLess(a, b);
    }
  }

  /** A list without its last point is still in order. */
  lemma {:induction false} InOrderLess(a: Part, b: Part)
    requires a != [] && InOrder(a, b)
    ensures InOrder(a[..|a| - 1], b)
    decreases |a| + |b|, 0
  {
    var (c, d) := (a[..|a| - 1], b[..|b| - 1]);
    assert b == d + [b[|b| - 1]];
    if a[|a| - 1] != b[|b| - 1] {
      InOrderLess(a, d);
    }
    InOrderMore(c, d, b[|b| - 1]);
  }

  lemma {:induction false} InOrderBoth(a: Part, b: Part, q: GeoPoint)
    requires InOrder(a, b)
    ensures InOrder(a + [q], b + [q])
  {
    assert (a + [q])[..|a|] == a && (b + [q])[..|b|] == b;
  }

  lemma {:induction false} InOrderConcat(a: Part, b: Part, c: Part, d: Part)
    requires InOrder(a, b) && InOrder(c, d)
    ensures InOrder(a + c, b + d)
  {
    if d == [] {
      assert a + c == a && b + d == b;
    } else {
      var (n, q) := (|d| - 1, d[|d| - 1]);
      assert b + d == (b + d[..n]) + [q];
      if c != [] && c[|c| - 1] == q {
        InOrderConcat(a, b, c[..|c| - 1], d[..n]);
        InOrderBoth(a + c[..|c| - 1], b + d[..n], q);
        assert a + c == (a + c[..|c| - 1]) + [q];
      } else {
        InOrderConcat(a, b, c, d[..n]);
        InOrderMore(a + c, b + d[..n], q);
      }
    }
  }

  lemma {:induction false} InOrderThrough(a: Part, b: Part, c: Part)
    requires InOrder(a, b) && InOrder(b, c)
    ensures InOrder(a, c)
    decreases |c|
  {
    if a != [] && b != [] {
      if b[|b| - 1] == c[|c| - 1] {
        if a[|a| - 1] == b[|b| - 1] {
          InOrderThrough(a[..|a| - 1], b[..|b| - 1], c[..|c| - 1]);
        } else {
          InOrderThrough(a, b[..|b| - 1], c[..|c| - 1]);
        }
      } else {
        InOrderThrough(a, b, c[..|c| - 1]);
        if a[|a| - 1] == c[|c| - 1] {
          InOrderLess(a, c[..|c| - 1]);
        }
      }
    }
  }

  /** Leaving out the points outside keeps the order. */
  lemma {:induction false} InOrderInside(a: Part, b: Part, s1: Vec, s2: Vec)
    requires InOrder(a, b)
    ensures InOrder(InsideOnly(a, s1, s2), InsideOnly(b, s1, s2))
  {
    hide Side;
    if a != [] {
      var (d, q) := (b[..|b| - 1], b[|b| - 1]);
      if a[|a| - 1] == q {
        InOrderInside(a[..|a| - 1], d, s1, s2);
        InOrderBoth(InsideOnly(a[..|a| - 1], s1, s2), InsideOnly(d, s1, s2), q);
        assert InsideOnly(d, s1, s2) + [] == InsideOnly(d, s1, s2);
        assert InsideOnly(a[..|a| - 1], s1, s2) + [] == InsideOnly(a[..|a| - 1], s1, s2);
      } else {
        InOrderInside(a, d, s1, s2);
        InOrderMore(InsideOnly(a, s1, s2), InsideOnly(d, s1, s2), q);
        assert InsideOnly(d, s1, s2) + [] == InsideOnly(d, s1, s2);
      }
    }
  }

  lemma {:induction false} InsideOnlyConcat(a: Part, b: Part, s1: Vec, s2: Vec)
    ensures InsideOnly(a + b, s1, s2) == InsideOnly(a, s1, s2) + InsideOnly(b, s1, s2)
  {
    hide Side;
    if b == [] {
      assert a + b == a;
    } else {
      InsideOnlyConcat(a, b[..|b| - 1], s1, s2);
      assert (a + b)[..|a + b| - 1] == a + b[..|b| - 1];
    }
  }

  /** A part's points inside come out in its order. */
  lemma {:induction false} TraceHolds(part: Part, s1: Vec, s2: Vec)
    ensures InOrder(InsideOnly(part, s1, s2), Trace(part, s1, s2))
  {
    hide Side, GetIsectPoint;
    if |part| < 2 {
      InOrderItself(InsideOnly(part, s1, s2));
    } else {
      var (rest, p, q) := (part[..|part| - 1], part[|part| - 2], part[|part| - 1]);
      var (was, now) := (PointInsideOrOnLine(p.at, s1, s2), PointInsideOrOnLine(q.at, s1, s2));
      var x := GetIsectPoint(p, q, s1, s2);
      TraceHolds(rest, s1, s2);
      var (kept, trace) := (InsideOnly(rest, s1, s2), Trace(rest, s1, s2));
      if was != now && x.Some? {
        InOrderMore(kept, trace, x.value);
        trace := trace + [x.value];
      } else {
        assert trace + [] == trace;
      }
      if now {
        InOrderBoth(kept, trace, q);
      } else {
        assert kept + [] == kept && trace + [] == trace;
      }
    }
  }

  /** What has been cut so far are the points inside and the crossings, in order. */
  ghost predicate Traced(pieces: seq<Part>, current: Part, walked: Part, s1: Vec, s2: Vec) {
    Joined(pieces) + current == Trace(walked, s1, s2)
  }

  lemma TraceStart(p: GeoPoint, s1: Vec, s2: Vec)
    ensures Traced([], if PointInsideOrOnLine(p.at, s1, s2) then [p] else [], [p], s1, s2)
  {
    assert [p][..0] == [];
    assert InsideOnly([], s1, s2) == [];
  }

  /** What the next point adds. */
  lemma TraceNext(walked: Part, last: GeoPoint, p: GeoPoint, s1: Vec, s2: Vec)
    requires EndsAt(walked, last)
    ensures var x := GetIsectPoint(last, p, s1, s2);
            var (was, now) := (PointInsideOrOnLine(last.at, s1, s2), PointInsideOrOnLine(p.at, s1, s2));
            Trace(walked + [p], s1, s2) ==
            Trace(walked, s1, s2) + ((if was != now && x.Some? then [x.value] else []) + if now then [p] else [])
  {
    hide Side, GetIsectPoint;
    assert (walked + [p])[..|walked|] == walked;
  }

  lemma TraceStay(pieces: seq<Part>, current: Part, walked: Part, last: GeoPoint, p: GeoPoint, s1: Vec, s2: Vec)
    requires Traced(pieces, current, walked, s1, s2) && EndsAt(walked, last)
    requires PointInsideOrOnLine(last.at, s1, s2) == PointInsideOrOnLine(p.at, s1, s2)
    ensures Traced(pieces, if PointInsideOrOnLine(p.at, s1, s2) then current + [p] else current, walked + [p], s1, s2)
  {
    hide Side, GetIsectPoint, Trace;
    TraceNext(walked, last, p, s1, s2);
  }

  lemma TraceTurn(pieces: seq<Part>, current: Part, walked: Part, last: GeoPoint, p: GeoPoint, x: GeoPoint, s1: Vec,
                  s2: Vec)
    requires Traced(pieces, current, walked, s1, s2) && EndsAt(walked, last)
    requires GetIsectPoint(last, p, s1, s2) == Some(x)
    requires PointInsideOrOnLine(last.at, s1, s2) != PointInsideOrOnLine(p.at, s1, s2)
    ensures PointInsideOrOnLine(p.at, s1, s2) && current == [] ==> Traced(pieces, [x] + [p], walked + [p], s1, s2)
    ensures !PointInsideOrOnLine(p.at, s1, s2) ==> Traced(pieces + [current + [x]], [], walked + [p], s1, s2)
  {
    hide Side, GetIsectPoint, Trace;
    TraceNext(walked, last, p, s1, s2);
    JoinedExtend(pieces, current + [x]);
  }

  lemma TraceEnd(pieces: seq<Part>, current: Part, part: Part, s1: Vec, s2: Vec)
    requires Traced(pieces, current, part, s1, s2) && |current| != 1
    ensures Joined(if |current| > 1 then pieces + [current] else pieces) == Trace(part, s1, s2)
  {
    JoinedExtend(pieces, current);
  }

  /** Cuts one part against one boundary line, splitting it where it leaves the inside. */
  method CropPartAgainstLine(part: Part, s1: Vec, s2: Vec, ghost threeD: bool) returns (pieces: seq<Part>)
    requires Coherent(part, threeD)
    ensures Polylines(pieces) == Polyline(part) * HalfPlane(s1, s2)
    ensures forall k :: 0 <= k < |pieces| ==> |pieces[k]| >= 2
    ensures AllCoherent(pieces, threeD)
    ensures |part| >= 2 ==> Joined(pieces) == Trace(part, s1, s2)
  {
    hide Side, GetIsectPoint, Covered, Traced, Joined, Trace;
    pieces := [];
    var inside := true;
    var currentPart: Part := [];
    for i := 0 to |part|
      invariant i > 0 ==> Covered(pieces, currentPart, part[..i], s1, s2)
      invariant i == 0 ==> pieces == []
      invariant inside <==> i == 0 || PointInsideOrOnLine(part[i - 1].at, s1, s2)
      invariant currentPart != [] <==> inside && i > 0
      invariant currentPart != [] ==> EndsAt(currentPart, part[i - 1])
      invariant forall k :: 0 <= k < |pieces| ==> |pieces[k]| >= 2
      invariant AllCoherent(pieces, threeD) && Coherent(currentPart, threeD)
      invariant i > 0 ==> Traced(pieces, currentPart, part[..i], s1, s2)
      invariant |currentPart| == 1 ==> i == 1
    {
      var p := part[i];
      assert part[..i + 1] == part[..i] + [p];
      if i == 0 {
        Start(p, s1, s2);
        TraceStart(p, s1, s2);
        assert part[..i + 1] == [p] && currentPart + [p] == [p];
      } else if inside == PointInsideOrOnLine(p.at, s1, s2) {
        Stay(pieces, currentPart, part[..i], part[i - 1], p, s1, s2);
        TraceStay(pieces, currentPart, part[..i], part[i - 1], p, s1, s2);
      }
      if PointInsideOrOnLine(p.at, s1, s2) {
        if inside {
          currentPart := currentPart + [p];
        } else if i > 0 {
          Enter(pieces, part[..i], part[i - 1], p, s1, s2, threeD);
          var isect := GetIsectPoint(part[i - 1], p, s1, s2);
          if isect.Some? {
            TraceTurn(pieces, currentPart, part[..i], part[i - 1], p, isect.value, s1, s2);
            assert currentPart + [isect.value] == [isect.value];
            currentPart := currentPart + [isect.value] + [p];
          }
        }
        inside := true;
      } else {
        if inside && i > 0 {
          Leave(pieces, currentPart, part[..i], part[i - 1], p, s1, s2, threeD);
          var isect := GetIsectPoint(part[i - 1], p, s1, s2);
          if isect.Some? {
            TraceTurn(pieces, currentPart, part[..i], part[i - 1], p, isect.value, s1, s2);
            currentPart := currentPart + [isect.value];
            if |currentPart| > 1 {
              pieces := pieces + [currentPart];
            }
            currentPart := [];
          }
        }
        inside := false;
      }
    }
    assert part[..|part|] == part;
    if part == [] {
      EmptyCover();
    } else {
      Finish(pieces, currentPart, part, s1, s2);
      if |part| >= 2 {
        TraceEnd(pieces, currentPart, part, s1, s2);
      }
    }
    if |currentPart| > 1 {
      pieces := pieces + [currentPart];
    }
  }

  // ----- a polyline against the window

  predicate InsideEdge(q: Vec, e: Extent, s: nat)
    requires s < 4
  {
    PointInsideOrOnLine(q, e.Edge(s).0, e.Edge(s).1)
  }

  /** The points of a set inside the first k boundary lines. */
  ghost function ClippedBy(points: iset<Vec>, e: Extent, k: nat): iset<Vec>
    requires k <= 4
  {
    if k == 0 then points
    else ClippedBy(points, e, k - 1) * HalfPlane(e.Edge(k - 1).0, e.Edge(k - 1).1)
  }

  /** Inside all four boundary lines. */
  predicate InsideEdges(q: Vec, e: Extent) {
    InsideEdge(q, e, 0) && InsideEdge(q, e, 1) && InsideEdge(q, e, 2) && InsideEdge(q, e, 3)
  }

  /** The four boundary lines of an extent with area bound exactly its rectangle. */
  lemma EdgesBoundExtent(e: Extent, q: Vec)
    requires e.HasArea()
    ensures e.Holds(q) <==> InsideEdges(q, e)
  {
    var w, h := e.xmax - e.xmin, e.ymax - e.ymin;
    var south, east, north, west := q.y - e.ymin, e.xmax - q.x, e.ymax - q.y, q.x - e.xmin;
    SidesOfEdges(e, q, w, h, south, east, north, west);
    Signs(w, south, w * south);
    Signs(h, east, h * east);
    Signs(w, north, w * north);
    Signs(h, west, h * west);
  }

  lemma SidesOfEdges(e: Extent, q: Vec, w: real, h: real, south: real, east: real, north: real, west: real)
    requires w == e.xmax - e.xmin && h == e.ymax - e.ymin
    requires south == q.y - e.ymin && east == e.xmax - q.x && north == e.ymax - q.y && west == q.x - e.xmin
    ensures Side(q, e.Edge(0).0, e.Edge(0).1) == w * south && Side(q, e.Edge(1).0, e.Edge(1).1) == h * east
    ensures Side(q, e.Edge(2).0, e.Edge(2).1) == w * north && Side(q, e.Edge(3).0, e.Edge(3).1) == h * west
  {
    assert Side(q, e.Edge(1).0, e.Edge(1).1) == -(h * (-east));
    assert Side(q, e.Edge(2).0, e.Edge(2).1) == (-w) * (-north);
    assert Side(q, e.Edge(3).0, e.Edge(3).1) == -((-h) * west);
  }

  /** For a valid extent the clipping lines describe its rectangle exactly when it has area: a window
      of no width (or no height) lets everything along that direction through. */
  lemma ExactExactlyWithArea(e: Extent)
    requires e.xmin <= e.xmax && e.ymin <= e.ymax
    ensures e.HasArea() <==> forall q: Vec :: e.Holds(q) <==> InsideEdges(q, e)
  {
    if e.HasArea() {
      forall q: Vec { EdgesBoundExtent(e, q); }
    } else {
      var q := if e.xmin == e.xmax then Vec(e.xmin, e.ymax + 1.0, 0.0) else Vec(e.xmax + 1.0, e.ymin, 0.0);
      var w, h := e.xmax - e.xmin, e.ymax - e.ymin;
      SidesOfEdges(e, q, w, h, q.y - e.ymin, e.xmax - q.x, e.ymax - q.y, q.x - e.xmin);
      assert !e.Holds(q) && InsideEdges(q, e);
    }
  }

  lemma ClippedByWindow(points: iset<Vec>, e: Extent)
    ensures ClippedBy(points, e, 4) == iset q | q in points && InsideEdges(q, e)
    ensures e.HasArea() ==> ClippedBy(points, e, 4) == iset q | q in points && e.Holds(q)
  {
    var h0, h1 := HalfPlane(e.Edge(0).0, e.Edge(0).1), HalfPlane(e.Edge(1).0, e.Edge(1).1);
    var h2, h3 := HalfPlane(e.Edge(2).0, e.Edge(2).1), HalfPlane(e.Edge(3).0, e.Edge(3).1);
    assert ClippedBy(points, e, 1) == ClippedBy(points, e, 0) * h0;
    assert ClippedBy(points, e, 2) == ClippedBy(points, e, 1) * h1;
    assert ClippedBy(points, e, 3) == ClippedBy(points, e, 2) * h2;
    assert ClippedBy(points, e, 4) == ClippedBy(points, e, 3) * h3;
    if e.HasArea() {
      forall q: Vec { EdgesBoundExtent(e, q); }
    }
  }

  lemma NothingInOrder(s1: Vec, s2: Vec)
    ensures InOrder(InsideOnly(Joined([]), s1, s2), Joined([]))
  {
  }

  lemma MoreInOrder(before: seq<Part>, part: Part, parts: seq<Part>, pieces: seq<Part>, s1: Vec, s2: Vec)
    requires Joined(pieces) == Trace(part, s1, s2)
    ensures InOrder(InsideOnly(Joined(before), s1, s2), Joined(parts)) ==>
              InOrder(InsideOnly(Joined(before + [part]), s1, s2), Joined(parts + pieces))
  {
    hide Side, InsideOnly, InOrder, Trace;
    JoinedExtend(before, part);
    JoinedConcat(parts, pieces);
    InsideOnlyConcat(Joined(before), part, s1, s2);
    TraceHolds(part, s1, s2);
    if InOrder(InsideOnly(Joined(before), s1, s2), Joined(parts)) {
      InOrderConcat(InsideOnly(Joined(before), s1, s2), Joined(parts), InsideOnly(part, s1, s2), Trace(part, s1, s2));
    }
  }

  /** The points of a list inside the first k boundary lines, in their order. */
  function Surviving(points: Part, e: Extent, k: nat): Part
    requires k <= 4
  {
    if k == 0 then points else InsideOnly(Surviving(points, e, k - 1), e.Edge(k - 1).0, e.Edge(k - 1).1)
  }

  lemma SurvivingNext(points: Part, e: Extent, k: nat, before: seq<Part>, after: seq<Part>)
    requires k < 4 && InOrder(Surviving(points, e, k), Joined(before))
    requires InOrder(InsideOnly(Joined(before), e.Edge(k).0, e.Edge(k).1), Joined(after))
    ensures InOrder(Surviving(points, e, k + 1), Joined(after))
  {
    hide Side, InsideOnly, InOrder, Joined;
    var (s1, s2) := e.Edge(k);
    InOrderInside(Surviving(points, e, k), Joined(before), s1, s2);
    InOrderThrough(Surviving(points, e, k + 1), InsideOnly(Joined(before), s1, s2), Joined(after));
  }

  lemma {:induction false} InsideOnlyHas(points: Part, s1: Vec, s2: Vec, p: GeoPoint)
    ensures p in InsideOnly(points, s1, s2) <==> p in points && PointInsideOrOnLine(p.at, s1, s2)
  {
    hide Side;
    if points != [] {
      InsideOnlyHas(points[..|points| - 1], s1, s2, p);
      assert points == points[..|points| - 1] + [points[|points| - 1]];
    }
  }

  /** These are the points inside all the lines. */
  lemma SurvivingHas(points: Part, e: Extent, p: GeoPoint)
    ensures p in Surviving(points, e, 4) <==> p in points && InsideEdges(p.at, e)
  {
    hide Side, InsideOnly;
    assert Surviving(points, e, 0) == points;
    InsideOnlyHas(Surviving(points, e, 0), e.Edge(0).0, e.Edge(0).1, p);
    InsideOnlyHas(Surviving(points, e, 1), e.Edge(1).0, e.Edge(1).1, p);
    InsideOnlyHas(Surviving(points, e, 2), e.Edge(2).0, e.Edge(2).1, p);
    InsideOnlyHas(Surviving(points, e, 3), e.Edge(3).0, e.Edge(3).1, p);
  }

  /** One pass of the clipper: every working part against one line. */
  method CropStage(workingParts: seq<Part>, s1: Vec, s2: Vec, ghost threeD: bool) returns (newParts: seq<Part>)
    requires AllCoherent(workingParts, threeD)
    ensures Polylines(newParts) == Polylines(workingParts) * HalfPlane(s1, s2)
    ensures forall k :: 0 <= k < |newParts| ==> |newParts[k]| >= 2
    ensures AllCoherent(newParts, threeD)
    ensures (forall k :: 0 <= k < |workingParts| ==> |workingParts[k]| >= 2) ==>
              InOrder(InsideOnly(Joined(workingParts), s1, s2), Joined(newParts))
  {
    hide Side, Joined, InsideOnly, InOrder, Trace;
    newParts := [];
    NothingInOrder(s1, s2);
    for k := 0 to |workingParts|
      invariant (forall i :: 0 <= i < |workingParts| ==> |workingParts[i]| >= 2) ==>
                  InOrder(InsideOnly(Joined(workingParts[..k]), s1, s2), Joined(newParts))
      invariant Polylines(newParts) == Polylines(workingParts[..k]) * HalfPlane(s1, s2)
      invariant forall k :: 0 <= k < |newParts| ==> |newParts[k]| >= 2
      invariant AllCoherent(newParts, threeD)
    {
      var pieces := CropPartAgainstLine(workingParts[k], s1, s2, threeD);
      assert workingParts[..k + 1] == workingParts[..k] + [workingParts[k]];
      PolylinesExtend(workingParts[..k], workingParts[k]);
      PolylinesConcat(newParts, pieces);
      if |workingParts[k]| >= 2 {
        MoreInOrder(workingParts[..k], workingParts[k], newParts, pieces, s1, s2);
      }
      newParts := newParts + pieces;
    }
    assert workingParts[..|workingParts|] == workingParts;
  }

  lemma JustOne(part: Part)
    ensures InOrder(part, Joined([part]))
  {
    InOrderItself(part);
    JoinedExtend([], part);
    assert [] + [part] == [part] && [] + part == part;
  }

  /** The line clipper. Its output covers exactly the points of the input line inside the four boundary
      lines, which for a window with area is the window itself, and no output part is a lone point. The vertices inside
      come out in their order. */
  method CropLinePart(part: Part, extent: Extent, ghost threeD: bool) returns (output: seq<Part>)
    requires Coherent(part, threeD)
    ensures Polylines(output) == iset q | q in Polyline(part) && InsideEdges(q, extent)
    ensures extent.HasArea() ==> Polylines(output) == iset q | q in Polyline(part) && extent.Holds(q)
    ensures forall k :: 0 <= k < |output| ==> |output[k]| >= 2
    ensures AllCoherent(output, threeD)
    ensures |part| >= 2 ==> InOrder(Surviving(part, extent, 4), Joined(output))
  {
    hide InOrder, Joined, InsideOnly;
    var workingParts := [part];
    JustOne(part);
    PolylinesExtend([], part);
    for s := 0 to 4
      invariant Polylines(workingParts) == ClippedBy(Polyline(part), extent, s)
      invariant s > 0 || |part| >= 2 ==> forall k :: 0 <= k < |workingParts| ==> |workingParts[k]| >= 2
      invariant AllCoherent(workingParts, threeD)
      invariant |part| >= 2 ==> InOrder(Surviving(part, extent, s), Joined(workingParts))
    {
      var (s1, s2) := extent.Edge(s);
      ghost var before := workingParts;
      workingParts := CropStage(workingParts, s1, s2, threeD);
      if |part| >= 2 {
        SurvivingNext(part, extent, s, before, workingParts);
      }
    }
    output := workingParts;
    ClippedByWindow(Polyline(part), extent);
  }
}
