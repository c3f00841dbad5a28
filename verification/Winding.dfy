/** Polygon area and orientation (Utils.cpp) and the winding of the shapes a filter graph reads (FilterGraph.cpp). */
module Winding {
  import opened Basics
  import opened Geometry
  import opened ConvexCrop
  import CH = ConvexHull

  function Cross(p: Vec, q: Vec): real { p.x * q.y - q.x * p.y }

  /** The shoelace sum along a list of points, without the step back to the first. */
  function Chain(s: Part): real {
    if |s| < 2 then 0.0 else Chain(s[..|s| - 1]) + Cross(s[|s| - 2].at, s[|s| - 1].at)
  }

  /** The shoelace sum round a ring: twice its signed area. */
  function Shoelace(s: Part): real {
    if s == [] then 0.0 else Chain(s) + Cross(s[|s| - 1].at, s[0].at)
  }

  lemma {:induction false} ChainConcat(a: Part, b: Part)
    requires a != [] && b != []
    ensures Chain(a + b) == Chain(a) + Cross(a[|a| - 1].at, b[0].at) + Chain(b)
  {
    var n := |b| - 1;
    if n == 0 {
      assert (a + b)[..|a|] == a;
    } else {
      ChainConcat(a, b[..n]);
      assert (a + b)[..|a| + n] == a + b[..n];
    }
  }

  /** The shoelace sum does not depend on where the ring begins. */
  lemma ShoelaceRotates(a: Part, b: Part)
    ensures Shoelace(a + b) == Shoelace(b + a)
  {
    if a == [] {
      assert a + b == b && b + a == b;
    } else if b == [] {
      assert a + b == a && b + a == a;
    } else {
      ChainConcat(a, b);
      ChainConcat(b, a);
    }
  }

  lemma CrossFlips(p: Vec, q: Vec)
    ensures Cross(p, q) == -Cross(q, p) && Cross(p, p) == 0.0
  {
  }

  lemma {:induction false} ChainReverses(s: Part)
    ensures Chain(Reversed(s)) == -Chain(s)
  {
    hide Cross;
    if |s| >= 2 {
      var n := |s| - 1;
      ChainReverses(s[..n]);
      ChainConcat([s[n]], Reversed(s[..n]));
      CrossFlips(s[n].at, s[n - 1].at);
      assert Chain([s[n]]) == 0.0;
    }
  }

  /** Walking the ring the other way turns the sum round. */
  lemma ShoelaceReverses(s: Part)
    ensures Shoelace(Reversed(s)) == -Shoelace(s)
  {
    hide Cross;
    if s != [] {
      ChainReverses(s);
      CrossFlips(s[0].at, s[|s| - 1].at);
    }
  }

  // ----- what the sum is of

  /** Twice the signed areas of the triangles of a fan from the first point. */
  function Fan(s: Part): real {
    if |s| < 3 then 0.0
    else Fan(s[..|s| - 1]) + CH.Cross(s[0].at, s[|s| - 2].at, s[|s| - 1].at)
  }

  lemma Triangle(a: Vec, b: Vec, c: Vec)
    ensures CH.Cross(a, b, c) == Cross(a, b) + Cross(b, c) + Cross(c, a)
  {
  }

  /** The shoelace sum is twice the area of the triangles, those that turn right counted negative. */
  lemma {:induction false} ShoelaceIsFan(s: Part)
    ensures Shoelace(s) == Fan(s)
  {
    hide Cross, CH.Cross;
    var n := |s| - 1;
    if n == 1 {
      assert Chain(s[..1]) == 0.0;
      CrossFlips(s[0].at, s[1].at);
    } else if n >= 2 {
      ShoelaceIsFan(s[..n]);
      Triangle(s[0].at, s[n - 1].at, s[n].at);
      CrossFlips(s[0].at, s[n - 1].at);
    } else if n == 0 {
      CrossFlips(s[0].at, s[0].at);
    }
  }

  /** In a convex ring the triangle of three points takes no more than the fan from the first of them to the last. */
  lemma {:induction false} FanHoldsTriangle(s: Part, i: nat, k: nat)
    requires IsConvex(s) && i <= k < |s|
    ensures Fan(s[..k + 1]) >= Fan(s[..i + 1]) + CH.Cross(s[0].at, s[i].at, s[k].at)
    ensures CH.Cross(s[0].at, s[i].at, s[k].at) >= 0.0
  {
    hide CH.Cross, IsConvex;
    TurnAt(s, 0, i, k);
    if i == k {
      CH.NoTurn(s[0].at, s[i].at);
      CH.Turns(s[0].at, s[i].at, s[i].at);
    } else {
      FanHoldsTriangle(s, i, k - 1);
      TurnAt(s, i, k - 1, k);
      ThroughPoint(s[0].at, s[i].at, s[k - 1].at, s[k].at);
      FanNext(s, k);
    }
  }

  lemma FanNext(s: Part, k: nat)
    requires 1 <= k < |s|
    ensures Fan(s[..k + 1]) == Fan(s[..k]) + CH.Cross(s[0].at, s[k - 1].at, s[k].at)
  {
    assert s[..k + 1][..k] == s[..k];
    if k == 1 {
      CH.Turns(s[0].at, s[0].at, s[1].at);
    }
  }

  /** No triangle in a convex ring given counter-clockwise has more area than the ring. */
  lemma TrianglesFit(s: Part, i: nat, j: nat, k: nat)
    requires IsConvex(s) && i <= j <= k < |s|
    ensures 0.0 <= CH.Cross(s[i].at, s[j].at, s[k].at) <= Shoelace(s)
  {
    hide CH.Cross, IsConvex, Shoelace;
    var n := |s| - 1;
    TurnAt(s, i, j, k);
    FanHoldsTriangle(s, 0, i);
    FanHoldsTriangle(s, i, j);
    FanHoldsTriangle(s, j, k);
    FanHoldsTriangle(s, i, k);
    FanHoldsTriangle(s, k, n);
    ThroughPoint(s[0].at, s[i].at, s[j].at, s[k].at);
    assert s[..n + 1] == s && Fan(s[..1]) == 0.0;
    ShoelaceIsFan(s);
  }

  // ----- opening a ring

  function Opened(s: Part): (r: Part)
    ensures r <= s
  {
    if |s| > 3 && s[0] == s[|s| - 1] then Opened(s[..|s| - 1]) else s
  }

  method OpenPolygon(polygon: Part) returns (r: Part)
    ensures r == Opened(polygon)
  {
    r := polygon;
    while |r| > 3 && r[0] == r[|r| - 1]
      invariant Opened(r) == Opened(polygon)
    {
      r := r[..|r| - 1];
    }
  }

  /** Opening drops copies of the first point and nothing else, and leaves a ring that is open or a triangle. */
  lemma {:induction false} OpenedDropsCopies(s: Part)
    ensures var r := Opened(s);
            && |r| >= (if |s| < 3 then |s| else 3) && (|r| > 3 ==> r[0] != r[|r| - 1])
            && forall k :: |r| <= k < |s| ==> s[k] == s[0]
  {
    if |s| > 3 && s[0] == s[|s| - 1] {
      OpenedDropsCopies(s[..|s| - 1]);
    }
  }

  /** The closing point adds nothing to the sum. */
  lemma {:induction false} ShoelaceOpens(s: Part)
    ensures Shoelace(Opened(s)) == Shoelace(s)
  {
    hide Cross;
    if |s| > 3 && s[0] == s[|s| - 1] {
      ShoelaceOpens(s[..|s| - 1]);
      CrossFlips(s[0].at, s[0].at);
    }
  }

  // ----- area and orientation

  function Area2D(polygon: Part): real { 0.5 * Shoelace(Opened(polygon)) }

  method GetPolygonArea2D(polygon: Part) returns (area: real)
    ensures area == Area2D(polygon)
  {
    hide Cross;
    var temp := OpenPolygon(polygon);
    var sum := 0.0;
    for i := 0 to |temp|
      invariant sum == if i < |temp| then Chain(temp[..i + 1]) else Shoelace(temp)
    {
      var p0 := temp[i];
      var p1 := if i != |temp| - 1 then temp[i + 1] else temp[0];
      ChainNext(temp, i);
      sum := sum + Cross(p0.at, p1.at);
    }
    area := 0.5 * sum;
  }

  lemma ChainNext(s: Part, i: nat)
    requires i < |s|
    ensures if i + 1 < |s| then Chain(s[..i + 2]) == Chain(s[..i + 1]) + Cross(s[i].at, s[i + 1].at)
            else Shoelace(s) == Chain(s[..i + 1]) + Cross(s[i].at, s[0].at)
  {
    if i + 1 < |s| {
      assert s[..i + 2][..i + 1] == s[..i + 1];
    } else {
      assert s[..i + 1] == s;
    }
  }

  predicate IsPolygonCCW(polygon: Part) { Area2D(polygon) >= 0.0 }

  function Magnitude(x: real): real { if x < 0.0 then -x else x }

  // ----- winding

  /** A ring opened and turned counter-clockwise. */
  function Wound(part: Part): Part {
    var open := Opened(part);
    if IsPolygonCCW(open) then open else Reversed(open)
  }

  /** Winding gives a counter-clockwise ring of the same absolute area: the points of the opened ring, in their
      cyclic order or the opposite one. */
  lemma WoundIsCounterClockwise(part: Part)
    ensures IsPolygonCCW(Wound(part)) && Magnitude(Area2D(Wound(part))) == Magnitude(Area2D(part))
    ensures Wound(part) == Opened(part) || Wound(part) == Reversed(Opened(part))
    ensures multiset(Wound(part)) == multiset(Opened(part))
  {
    hide Shoelace, Reversed, Opened;
    var open := Opened(part);
    OpenedDropsCopies(part);
    OpenedTwice(open);
    ShoelaceOpens(part);
    ShoelaceReverses(open);
    ReversedHasSame(open);
    if !IsPolygonCCW(open) {
      OpenedTwice(Reversed(open));
    }
  }

  lemma OpenedTwice(s: Part)
    requires |s| > 3 ==> s[0] != s[|s| - 1]
    ensures Opened(s) == s
  {
  }

  lemma {:induction false} ReversedHasSame(s: Part)
    ensures multiset(Reversed(s)) == multiset(s)
  {
    if s != [] {
      ReversedHasSame(s[..|s| - 1]);
      assert s == s[..|s| - 1] + [s[|s| - 1]];
    }
  }

  /** The area of a rectangle is its width times its height. */
  lemma RectangleArea(a: GeoPoint, b: GeoPoint, c: GeoPoint, d: GeoPoint, w: real, h: real)
    requires b.at.x == c.at.x == a.at.x + w && a.at.x == d.at.x
    requires c.at.y == d.at.y == a.at.y + h && a.at.y == b.at.y
    ensures Area2D([a, b, c, d]) == w * h
  {
    hide CH.Cross, Cross, Shoelace, Opened;
    var s := [a, b, c, d];
    RightTriangles(a.at, b.at, c.at, d.at, w, h);
    ShoelaceOpens(s);
    ShoelaceIsFan(s);
    assert s[..3] == [a, b, c];
    assert Fan([a, b, c]) == CH.Cross(a.at, b.at, c.at) by { assert [a, b, c][..2] == [a, b]; }
  }

  lemma RightTriangles(a: Vec, b: Vec, c: Vec, d: Vec, w: real, h: real)
    requires b.x == c.x == a.x + w && a.x == d.x && c.y == d.y == a.y + h && a.y == b.y
    ensures CH.Cross(a, b, c) == w * h && CH.Cross(a, c, d) == w * h
  {
  }

  /** A convex ring with area given counter-clockwise has a positive area and stays as it is, opened; one given
      clockwise has a negative area and is turned round. */
  lemma ConvexIsWound(part: Part)
    requires IsConvex(part) && HasArea(part)
    ensures Area2D(part) > 0.0 && WoundParts([part]) == [Opened(part)]
    ensures part[0] != part[|part| - 1] ==> Area2D(Reversed(part)) < 0.0 && WoundParts([Reversed(part)]) == [part]
  {
    hide CH.Cross, IsConvex, Shoelace, Opened, Reversed;
    AtLeastThree(part);
    var i: nat, j: nat, k: nat :| i < j < k < |part| && Bends(part, i, j, k);
    TrianglesFit(part, i, j, k);
    ShoelaceOpens(part);
    ShoelaceOpens(Opened(part));
    ShoelaceReverses(part);
    if part[0] != part[|part| - 1] {
      ReversedEnds(part);
      OpenedTwice(part);
      OpenedTwice(Reversed(part));
      assert Reversed(Reversed(part)) == part;
    }
  }

  lemma ReversedEnds(s: Part)
    requires s != []
    ensures |Reversed(s)| == |s| && Reversed(s)[0] == s[|s| - 1] && Reversed(s)[|s| - 1] == s[0]
  {
  }

  class GeoShape {
    var parts: seq<Part>

    constructor (parts: seq<Part>)
      ensures this.parts == parts
    {
      this.parts := parts;
    }
  }

  /** A shape after winding: its part, if it has just one, wound. */
  function WoundParts(parts: seq<Part>): seq<Part> {
    if |parts| == 1 then [Wound(parts[0])] else parts
  }

  lemma WoundTwice(part: Part)
    ensures Wound(Wound(part)) == Wound(part)
  {
    WoundIsCounterClockwise(part);
    OpenedDropsCopies(part);
    OpenedTwice(Wound(part));
  }

  method Wind(isPolygon: bool, shapes: seq<GeoShape>)
    requires forall i, j :: 0 <= i < j < |shapes| ==> shapes[i] != shapes[j]
    modifies shapes
    ensures forall i :: 0 <= i < |shapes| ==>
              shapes[i].parts == if isPolygon then WoundParts(old(shapes[i].parts)) else old(shapes[i].parts)
    ensures forall i :: 0 <= i < |shapes| && |old(shapes[i].parts)| != 1 ==> shapes[i].parts == old(shapes[i].parts)
  {
    hide Wound;
    if isPolygon {
      for k := 0 to |shapes|
        invariant forall i :: 0 <= i < k ==> shapes[i].parts == WoundParts(old(shapes[i].parts))
        invariant forall i :: k <= i < |shapes| ==> shapes[i].parts == old(shapes[i].parts)
      {
        WindShape(shapes[k]);
      }
    }
  }

  method WindShape(shape: GeoShape)
    modifies shape
    ensures shape.parts == WoundParts(old(shape.parts))
    ensures |old(shape.parts)| != 1 ==> shape.parts == old(shape.parts)
  {
    if |shape.parts| == 1 {
      var part := OpenPolygon(shape.parts[0]);
      var area := GetPolygonArea2D(part);
      if !(area >= 0.0) {
        part := Reversed(part);
      }
      shape.parts := [part];
    }
  }
}
