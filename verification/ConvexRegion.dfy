/** What cropping does to the region of a convex polygon given counter-clockwise (cropPolygonPart in CropFilter.cpp):
    the region of what comes out is the region of what went in, cut by the four lines of the window. */
module ConvexRegion {
  import opened Basics
  import opened Geometry
  import opened CropLine
  import opened PolygonWalk
  import opened PolygonStages
  import opened ConvexCrop
  import CH = ConvexHull
  import CP = CropPolygon

  // ----- the region of a ring

  ghost predicate LeftOfEdge(t: Part, i: nat, q: Vec)
    requires i + 1 < |t|
  {
    CH.Cross(t[i].at, t[i + 1].at, q) >= 0.0
  }

  ghost predicate LeftOfEdges(t: Part, q: Vec) {
    forall i: nat :: i + 1 < |t| ==> LeftOfEdge(t, i, q)
  }

  /** q is on or left of every edge of the polygon. */
  ghost predicate InRegion(s: Part, q: Vec) {
    s != [] && LeftOfEdges(s + [s[0]], q)
  }

  lemma EdgesGrow(t: Part, x: GeoPoint, q: Vec)
    requires t != []
    ensures LeftOfEdges(t + [x], q) <==> LeftOfEdges(t, q) && CH.Cross(t[|t| - 1].at, x.at, q) >= 0.0
  {
    hide CH.Cross;
    var r, n := t + [x], |t|;
    assert r[n - 1] == t[n - 1] && r[n] == x;
    if LeftOfEdges(r, q) {
      assert LeftOfEdge(r, n - 1, q);
      forall i: nat | i + 1 < n
        ensures LeftOfEdge(t, i, q)
      {
        assert LeftOfEdge(r, i, q);
      }
    }
    if LeftOfEdges(t, q) && CH.Cross(t[n - 1].at, x.at, q) >= 0.0 {
      forall i: nat | i + 1 < |r|
        ensures LeftOfEdge(r, i, q)
      {
        assert i + 1 < n ==> LeftOfEdge(t, i, q);
      }
    }
  }

  lemma RegionEdges(s: Part, q: Vec)
    requires InRegion(s, q)
    ensures forall i: nat :: i + 1 < |s| ==> CH.Cross(s[i].at, s[i + 1].at, q) >= 0.0
    ensures CH.Cross(s[|s| - 1].at, s[0].at, q) >= 0.0
  {
    hide CH.Cross;
    EdgesGrow(s, s[0], q);
    forall i: nat | i + 1 < |s|
      ensures CH.Cross(s[i].at, s[i + 1].at, q) >= 0.0
    {
      assert LeftOfEdge(s, i, q);
    }
  }

  // ----- a half-plane that holds the corners holds the region

  /** The turns of a triangle and a point tell how an affine function of points is at the point from what it is at the
      corners. */
  lemma Barycentric(a: Vec, b: Vec, c: Vec, q: Vec, s1: Vec, s2: Vec)
    ensures CH.Cross(a, b, c) * CH.Cross(s1, s2, q)
            == CH.Cross(b, c, q) * CH.Cross(s1, s2, a) + CH.Cross(c, a, q) * CH.Cross(s1, s2, b)
               + CH.Cross(a, b, q) * CH.Cross(s1, s2, c)
  {
    var (dx, dy) := (s2.x - s1.x, s2.y - s1.y);
    var (ax, ay, bx, b_y, cx, cy) := (a.x - q.x, a.y - q.y, b.x - q.x, b.y - q.y, c.x - q.x, c.y - q.y);
    CH.FourVectors(dx, dy, ax, ay, bx, b_y, cx, cy);
    ThroughPoint(q, a, b, c);
    CH.Turns(a, b, q); CH.Turns(b, c, q); CH.Turns(c, a, q); CH.Turns(q, c, a);
    SideFrom(s1, s2, q, a); SideFrom(s1, s2, q, b); SideFrom(s1, s2, q, c);
    Gathered(ax * b_y - ay * bx, bx * cy - b_y * cx, cx * ay - cy * ax, dx * ay - dy * ax, dx * b_y - dy * bx,
             dx * cy - dy * cx, CH.Cross(s1, s2, q), CH.Cross(a, b, c));
  }

  lemma SideFrom(s1: Vec, s2: Vec, q: Vec, a: Vec)
    ensures CH.Cross(s1, s2, a) == CH.Cross(s1, s2, q) + ((s2.x - s1.x) * (a.y - q.y) - (s2.y - s1.y) * (a.x - q.x))
  {
    MoreOrLess(s2.x - s1.x, a.y, q.y, s1.y);
    MoreOrLess(s2.y - s1.y, a.x, q.x, s1.x);
  }

  lemma MoreOrLess(k: real, a: real, q: real, s: real)
    ensures k * (a - s) == k * (q - s) + k * (a - q)
  {
  }

  lemma Gathered(ab: real, bc: real, ca: real, da: real, db: real, dc: real, s: real, area: real)
    requires da * bc - db * (-ca) + dc * ab == 0.0 && area == ab + bc + ca
    ensures area * s == bc * (s + da) + ca * (s + db) + ab * (s + dc)
  {
  }

  /** A point of the region, if it is not at the first corner, is in a triangle of that corner and an edge. */
  lemma InTriangle(s: Part, q: Vec) returns (j: nat)
    requires IsConvex(s) && HasArea(s) && InRegion(s, q) && !SamePlace(s[0].at, q)
    ensures 1 <= j && j + 1 < |s|
    ensures var (a, b, c) := (s[0].at, s[j].at, s[j + 1].at);
            CH.Cross(a, b, q) >= 0.0 && CH.Cross(b, c, q) >= 0.0 && CH.Cross(c, a, q) >= 0.0 && CH.Cross(a, b, c) > 0.0
  {
    hide CH.Cross, IsConvex, HasArea, SamePlace, InRegion;
    AtLeastThree(s);
    var (a, n) := (s[0].at, |s|);
    RegionEdges(s, q);
    CH.Turns(a, s[n - 1].at, q);
    j := 1;
    while j + 1 < n && !(CH.Cross(a, s[j].at, q) >= 0.0 >= CH.Cross(a, s[j + 1].at, q)
                         && CH.Cross(a, s[j].at, q) != CH.Cross(a, s[j + 1].at, q))
      invariant 1 <= j < n
      invariant CH.Cross(a, s[j].at, q) > 0.0 || forall i :: 1 <= i <= j ==> CH.Cross(a, s[i].at, q) == 0.0
    {
      j := j + 1;
    }
    if j + 1 == n {
      CH.Turns(a, a, q);
      FlatRing(s, a, q);
      assert false;
    }
    CH.Turns(a, s[j + 1].at, q);
    ThroughPoint(q, a, s[j].at, s[j + 1].at);
    CH.Turns(a, s[j].at, q);
    CH.Turns(s[j].at, s[j + 1].at, q);
  }

  lemma HalfPlane(s: Part, q: Vec, s1: Vec, s2: Vec)
    requires IsConvex(s) && HasArea(s) && InRegion(s, q) && forall p :: p in s ==> CH.Cross(s1, s2, p.at) >= 0.0
    ensures CH.Cross(s1, s2, q) >= 0.0
  {
    hide CH.Cross, IsConvex, HasArea, InRegion, SamePlace;
    assert s != [] by { AtLeastThree(s); }
    if SamePlace(s[0].at, q) {
      CrossInPlace(s[0].at, q, s1, s2);
      CH.Turns(s1, s2, q);
      CH.Turns(s1, s2, s[0].at);
    } else {
      var j := InTriangle(s, q);
      var (a, b, c) := (s[0].at, s[j].at, s[j + 1].at);
      Barycentric(a, b, c, q, s1, s2);
      Signs(CH.Cross(b, c, q), CH.Cross(s1, s2, a), CH.Cross(b, c, q) * CH.Cross(s1, s2, a));
      Signs(CH.Cross(c, a, q), CH.Cross(s1, s2, b), CH.Cross(c, a, q) * CH.Cross(s1, s2, b));
      Signs(CH.Cross(a, b, q), CH.Cross(s1, s2, c), CH.Cross(a, b, q) * CH.Cross(s1, s2, c));
      Signs(CH.Cross(a, b, c), CH.Cross(s1, s2, q), CH.Cross(a, b, c) * CH.Cross(s1, s2, q));
    }
  }

  lemma SideIsCross(q: Vec, s1: Vec, s2: Vec)
    ensures Side(q, s1, s2) == CH.Cross(s1, s2, q)
  {
  }

  /** On whichever side of a line the corners are, there is the region. */
  lemma RegionOnSide(s: Part, q: Vec, s1: Vec, s2: Vec)
    requires IsConvex(s) && HasArea(s) && InRegion(s, q)
    ensures (forall p :: p in s ==> Side(p.at, s1, s2) >= 0.0) ==> Side(q, s1, s2) >= 0.0
    ensures (forall p :: p in s ==> Side(p.at, s1, s2) <= 0.0) ==> Side(q, s1, s2) <= 0.0
  {
    hide CH.Cross, IsConvex, HasArea, InRegion, Side;
    forall p: Vec
      ensures Side(p, s1, s2) == CH.Cross(s1, s2, p) == -CH.Cross(s2, s1, p)
    {
      SideReversed(p, s1, s2);
      SideIsCross(p, s1, s2);
      SideIsCross(p, s2, s1);
    }
    if forall p :: p in s ==> Side(p.at, s1, s2) >= 0.0 {
      HalfPlane(s, q, s1, s2);
    }
    if forall p :: p in s ==> Side(p.at, s1, s2) <= 0.0 {
      HalfPlane(s, q, s2, s1);
    }
  }

  // ----- what one stage does to the region

  /** Closing copies of the first point make no difference to the region. */
  lemma {:induction false} ScrubbedRegion(input: Part, q: Vec)
    requires Scrubbed(input).Some?
    ensures InRegion(Scrubbed(input).value, q) <==> InRegion(input, q)
  {
    hide CH.Cross;
    var n := |input| - 1;
    if input[0] == input[n] {
      ScrubbedRegion(input[..n], q);
      assert input[..n] != [] && input[..n] + [input[0]] == input;
      EdgesGrow(input, input[0], q);
      CH.Turns(input[0].at, input[0].at, q);
    }
  }

  /** Nor do the crossings put in. */
  lemma {:induction false} WalkKeepsEdges(ring: Part, s1: Vec, s2: Vec, q: Vec)
    requires ring != []
    ensures var w := Walk(ring, s1, s2).working;
            w != [] && w[|w| - 1] == ring[|ring| - 1] && (LeftOfEdges(w, q) <==> LeftOfEdges(ring, q))
  {
    hide CH.Cross, GetIsectPoint, Inside, LeftOfEdges;
    var n := |ring|;
    if n == 1 {
      WalkOne(ring, s1, s2);
    } else {
      var (w, p, r) := (Walk(ring[..n - 1], s1, s2).working, ring[n - 2], ring[n - 1]);
      WalkKeepsEdges(ring[..n - 1], s1, s2, q);
      assert ring == ring[..n - 1] + [r];
      EdgesGrow(ring[..n - 1], r, q);
      EdgesGrow(w, r, q);
      if Inside(p, s1, s2) != Inside(r, s1, s2) {
        var t := CrossesAt(p, r, s1, s2);
        var x := GetIsectPoint(p, r, s1, s2).value;
        EdgesGrow(w, x, q);
        EdgesGrow(w + [x], r, q);
        EdgeCut(p.at, r.at, x.at, t, q);
      }
    }
  }

  /** A point is on the left of an edge when it is so for both parts of it. */
  lemma EdgeCut(a: Vec, b: Vec, x: Vec, t: real, q: Vec)
    requires 0.0 <= t <= 1.0 && SamePlace(x, Lerp(a, b, t))
    ensures CH.Cross(a, b, q) >= 0.0 <==> CH.Cross(a, x, q) >= 0.0 && CH.Cross(x, b, q) >= 0.0
  {
    hide CH.Cross, SamePlace, Lerp;
    var m := CH.Cross(a, b, q);
    CrossAlong(a, b, x, t, q, a);
    CrossAlong(a, b, x, t, b, q);
    CH.Turns(x, q, a); CH.Turns(b, q, a); CH.Turns(a, a, q); CH.Turns(b, b, q); CH.Turns(a, q, a);
    Signs(t, m, t * m);
    Signs(1.0 - t, m, (1.0 - t) * m);
    assert m == t * m + (1.0 - t) * m;
  }

  /** The edge that closes a cut part lies along the line, inside on its left. */
  lemma ClosingEdge(window: Extent, stage: nat, a: GeoPoint, b: GeoPoint, v: Vec, q: Vec)
    requires stage < 4 && IsValid(window) && Rank(stage, a) < Rank(stage, b)
    requires var (s1, s2) := window.Edge(stage);
             Side(a.at, s1, s2) == 0.0 && Side(b.at, s1, s2) == 0.0 && Side(v, s1, s2) > 0.0
    ensures CH.Cross(b.at, a.at, q) >= 0.0 <==> Side(q, window.Edge(stage).0, window.Edge(stage).1) >= 0.0
  {
    hide Side, Depth, Rank, CH.Cross;
    OnLine(window, stage, a.at);
    OnLine(window, stage, b.at);
    OnLine(window, stage, v);
    OnLine(window, stage, q);
    TurnOverLine(window, stage, a, q, b);
    CH.Turns(a.at, q, b.at);
    Signs(Depth(window, stage, q), Rank(stage, b) - Rank(stage, a),
          Depth(window, stage, q) * (Rank(stage, b) - Rank(stage, a)));
  }

  lemma StretchEdges(w: Part, a: nat, b: nat, q: Vec)
    requires a < |w| && b < |w| && w[0] == w[|w| - 1] && LeftOfEdges(w, q)
    ensures LeftOfEdges(if a <= b then w[a..b + 1] else w[a..] + w[..b + 1], q)
  {
    hide CH.Cross;
    var r := if a <= b then w[a..b + 1] else w[a..] + w[..b + 1];
    CH.Turns(w[0].at, w[0].at, q);
    forall i: nat | i + 1 < |r|
      ensures LeftOfEdge(r, i, q)
    {
      if a + i + 1 < |w| {
        assert LeftOfEdge(w, a + i, q);
      } else if a + i + 1 > |w| {
        assert LeftOfEdge(w, a + i - |w|, q);
      }
    }
  }

  /** The edges of a convex ring have the region of a part of its points on their left. */
  lemma EdgesOfWhole(w: Part, part: Part, q: Vec)
    requires IsConvex(w) && IsConvex(part) && HasArea(part) && InRegion(part, q) && forall p :: p in part ==> p in w
    ensures LeftOfEdges(w, q)
  {
    hide CH.Cross, IsConvex, HasArea, InRegion;
    forall i: nat | i + 1 < |w|
      ensures LeftOfEdge(w, i, q)
    {
      forall p | p in part
        ensures CH.Cross(w[i].at, w[i + 1].at, p.at) >= 0.0
      {
        var m :| 0 <= m < |w| && w[m] == p;
        TurnAt(w, i, i + 1, m);
      }
      HalfPlane(part, q, w[i].at, w[i + 1].at);
    }
  }

  /** The entry and the exit of a convex ring. */
  lemma EntryAndExit(c: CP.CutRing, window: Extent, stage: nat, j: nat) returns (a: nat, b: nat)
    requires stage < 4 && CutConvex(c, window, stage)
    requires j < |c.working| && Side(c.working[j].at, window.Edge(stage).0, window.Edge(stage).1) > 0.0
    ensures c.Valid() && |c.trav| == 2 && |c.spatial| == 2 && c.spatial[0] in c.trav
    ensures a < |c.working| && b < |c.working| && CutTo(c) == CP.Stretch(c.working, a, b)
    ensures Rank(stage, c.working[a]) < Rank(stage, c.working[b])
    ensures var (s1, s2) := window.Edge(stage);
            Side(c.working[a].at, s1, s2) == 0.0 && Side(c.working[b].at, s1, s2) == 0.0
  {
    hide Side, IsConvex, HasArea, Rank, SamePlace, Alternating, InSpatialOrder, CP.Stretch;
    ConvexStartsWithEntry(c, window, stage, j);
    var k :| 0 <= k < 2 && Exits(c, window, stage, k) && c.spatial[0] == c.trav[1 - k];
    ExitBeyondEntry(c, window, stage, k, j);
    CrossingFacts(c, window, stage, 0);
    CrossingFacts(c, window, stage, 1);
    a, b := c.trav[1 - k], c.trav[k];
  }

  /** What is cut from a convex ring is its region inside the line. */
  lemma CutRegion(c: CP.CutRing, window: Extent, stage: nat, j: nat, q: Vec)
    requires stage < 4 && CutConvex(c, window, stage)
    requires j < |c.working| && Side(c.working[j].at, window.Edge(stage).0, window.Edge(stage).1) > 0.0
    ensures c.Valid() && |c.trav| == 2 && |c.spatial| == 2 && c.spatial[0] in c.trav
    ensures InRegion(CutTo(c), q) <==>
            LeftOfEdges(c.working, q) && Side(q, window.Edge(stage).0, window.Edge(stage).1) >= 0.0
  {
    hide Side, IsConvex, HasArea, Rank, CH.Cross, LeftOfEdges, InRegion, Alternating, InSpatialOrder, CP.Stretch, CutTo;
    var a, b := EntryAndExit(c, window, stage, j);
    CutToIsConvex(c, window, stage, j);
    StretchRegion(c.working, a, b, q);
    ClosingEdge(window, stage, c.working[a], c.working[b], c.working[j].at, q);
  }

  /** The region of a stretch of a closed convex ring is its region on the left of the edge that closes the stretch. */
  lemma StretchRegion(w: Part, a: nat, b: nat, q: Vec)
    requires a < |w| && b < |w| && w[0] == w[|w| - 1] && IsConvex(w)
    requires IsConvex(CP.Stretch(w, a, b)) && HasArea(CP.Stretch(w, a, b))
    ensures InRegion(CP.Stretch(w, a, b), q) <==> LeftOfEdges(w, q) && CH.Cross(w[b].at, w[a].at, q) >= 0.0
  {
    hide IsConvex, HasArea, CH.Cross, LeftOfEdges, CP.Stretch;
    var part := CP.Stretch(w, a, b);
    StretchIs(w, a, b);
    assert part[0] == w[a] && part[|part| - 1] == w[b];
    EdgesGrow(part, w[a], q);
    if LeftOfEdges(w, q) {
      StretchEdges(w, a, b, q);
    }
    if InRegion(part, q) {
      EdgesOfWhole(w, part, q);
    }
  }

  /** A stage that drops a part has it beyond one of the lines of the window. */
  lemma DroppedIsBeyond(input: Part, window: Extent, stage: nat) returns (line: nat)
    requires stage < 4 && window.HasArea() && IsConvex(input) && HasArea(input)
    requires Prepare(input, window, stage).Dropped?
    ensures line < 4 && Scrubbed(input).Some?
    ensures forall p :: p in Scrubbed(input).value ==> Side(p.at, window.Edge(line).0, window.Edge(line).1) <= 0.0
  {
    hide Side, RingOf, IsConvex, HasArea, Bounds;
    ScrubbedHasArea(input);
    ScrubDefined(input);
    var part := Scrubbed(input).value;
    ExtentDecides(part, window, stage);
    var b := Bounds(part);
    if Intersects(window, b) {
      line := stage;
    } else {
      BoundsAreTight(part);
      var first := part[0];
      assert b.Holds(first.at);
      line := if window.xmax < b.xmin then 1
              else if window.xmin > b.xmax then 3
              else if window.ymax < b.ymin then 2
              else 0;
      forall p | p in part
        ensures Side(p.at, window.Edge(line).0, window.Edge(line).1) <= 0.0
      {
        assert b.Holds(p.at);
        OnLine(window, line, p.at);
      }
    }
  }

  /** One stage: the region of what is left is the region inside the line; where nothing is, none of it is inside the
      window. */
  lemma StageRegion(input: Part, window: Extent, stage: nat, q: Vec)
    requires stage < 4 && IsConvex(input) && HasArea(input)
    ensures var r := StagePart(input, window, stage);
            && r.Some? && |r.value| <= 1
            && (r.value != [] ==> (InRegion(r.value[0], q) <==> InRegion(input, q) && InsideEdge(q, window, stage)))
            && (r.value == [] ==> InRegion(input, q) ==> !window.HoldsInside(q))
  {
    hide IsConvex, HasArea, Side, RingOf, Bounds, CP.Parts, CP.Rendered, CP.Walked, CutConvex, InRegion;
    var (s1, s2) := window.Edge(stage);
    PrepareDecides(input, window, stage);
    ScrubbedHasArea(input);
    ScrubbedRegion(input, q);
    var part := Scrubbed(input).value;
    match Prepare(input, window, stage) {
      case Dropped =>
        if InRegion(input, q) && window.HoldsInside(q) {
          var line := DroppedIsBeyond(input, window, stage);
          RegionOnSide(part, q, window.Edge(line).0, window.Edge(line).1);
          InsideAllLines(window, q, line);
        }
      case Kept(same) =>
        if InRegion(part, q) {
          RegionOnSide(part, q, s1, s2);
        }
      case Cut(c) =>
        RingRegion(input, window, stage, q);
    }
  }

  lemma RingRegion(input: Part, window: Extent, stage: nat, q: Vec)
    requires stage < 4 && IsConvex(input) && HasArea(input) && Prepare(input, window, stage).Cut?
    ensures var r := StagePart(input, window, stage);
            && r.Some? && |r.value| == 1
            && (InRegion(r.value[0], q) <==> InRegion(input, q) && InsideEdge(q, window, stage))
  {
    hide IsConvex, HasArea, Side, RingOf, Bounds, CP.Parts, CP.Rendered, CP.Walked, CutConvex, LeftOfEdges;
    var (s1, s2) := window.Edge(stage);
    PrepareDecides(input, window, stage);
    ScrubbedHasArea(input);
    ScrubbedRegion(input, q);
    CutMeans(input, window, stage);
    var (part, c) := (Scrubbed(input).value, Prepare(input, window, stage).ring);
    RingIsConvex(part, window, stage);
    ExtentDecides(part, window, stage);
    var p :| p in part && Side(p.at, s1, s2) > 0.0;
    var j :| 0 <= j < |c.working| && c.working[j] == p;
    CutRegion(c, window, stage, j, q);
    CutToIs(c);
    WorkingIsWalk(part, s1, s2, stage);
    WalkKeepsEdges(part + [part[0]], s1, s2, q);
  }

  lemma WorkingIsWalk(part: Part, s1: Vec, s2: Vec, stage: nat)
    requires stage < 4 && part != []
    ensures RingOf(part, s1, s2, stage).working == Walk(part + [part[0]], s1, s2).working
  {
    hide Walk;
  }

  // ----- the whole clipper

  ghost predicate InsideFirst(q: Vec, window: Extent, k: nat)
    requires k <= 4
  {
    forall stage: nat :: stage < k ==> InsideEdge(q, window, stage)
  }

  lemma {:induction false} StagesRegion(part: Part, window: Extent, k: nat, q: Vec)
    requires k <= 4 && IsConvex(part) && HasArea(part)
    ensures Stages(part, window, k).Some? && ConvexParts(Stages(part, window, k).value)
    ensures var parts := Stages(part, window, k).value;
            && (parts != [] ==> (InRegion(parts[0], q) <==> InRegion(part, q) && InsideFirst(q, window, k)))
            && (parts == [] ==> InRegion(part, q) ==> !window.HoldsInside(q))
  {
    hide IsConvex, HasArea, StagePart, AlwaysEntering, InRegion, InsideEdge;
    StagesKeepConvex(part, window, k);
    if k > 0 {
      StagesRegion(part, window, k - 1, q);
      var before := Stages(part, window, k - 1).value;
      if before == [] {
        NoneLead(window, k - 1);
      } else {
        assert before == [before[0]] && before[0] in before;
        StageRegion(before[0], window, k - 1, q);
        StageOne(before[0], window, k - 1, StagePart(before[0], window, k - 1).value);
        assert InsideFirst(q, window, k) <==> InsideFirst(q, window, k - 1) && InsideEdge(q, window, k - 1);
        if window.HoldsInside(q) {
          InsideAllFirst(q, window, k - 1);
        }
      }
    }
  }

  lemma InsideAllFirst(q: Vec, window: Extent, k: nat)
    requires k <= 4 && window.HoldsInside(q)
    ensures InsideFirst(q, window, k)
  {
    hide Side;
    forall stage: nat | stage < k
      ensures InsideEdge(q, window, stage)
    {
      InsideAllLines(window, q, stage);
    }
  }

  /** Cropping a convex part with area, given counter-clockwise, to any window that does not hold it already: the
      region of the part that comes out is exactly the region of the input inside the four lines. If none comes out, no
      point of the region is inside the window. */
  lemma ConvexIsClipped(part: Part, window: Extent, q: Vec)
    requires IsConvex(part) && HasArea(part) && !Contains(window, part)
    ensures Crop(part, window).Cropped? && ConvexParts(Crop(part, window).parts)
    ensures var parts := Crop(part, window).parts;
            && (parts != [] ==> (InRegion(parts[0], q) <==> InRegion(part, q) && InsideEdges(q, window)))
            && (parts == [] ==> InRegion(part, q) ==> !window.HoldsInside(q))
  {
    hide IsConvex, HasArea, Stages, InRegion, InsideEdge;
    AtLeastThree(part);
    StagesRegion(part, window, 4, q);
    assert InsideFirst(q, window, 4) <==> InsideEdges(q, window);
  }

  // ----- when a part comes out

  function Middle(a: Vec, b: Vec, c: Vec): Vec {
    Vec((a.x + b.x + c.x) / 3.0, (a.y + b.y + c.y) / 3.0, 0.0)
  }

  lemma CrossOfMiddle(s1: Vec, s2: Vec, a: Vec, b: Vec, c: Vec)
    ensures CH.Cross(s1, s2, Middle(a, b, c)) ==
            (CH.Cross(s1, s2, a) + CH.Cross(s1, s2, b) + CH.Cross(s1, s2, c)) / 3.0
  {
    var (m, dx, dy) := (Middle(a, b, c), s2.x - s1.x, s2.y - s1.y);
    Thirds(dx, a.y - s1.y, b.y - s1.y, c.y - s1.y, m.y - s1.y);
    Thirds(dy, a.x - s1.x, b.x - s1.x, c.x - s1.x, m.x - s1.x);
  }

  lemma Thirds(k: real, a: real, b: real, c: real, m: real)
    requires m == (a + b + c) / 3.0
    ensures k * m == (k * a + k * b + k * c) / 3.0
  {
    assert k * (a + b + c) == k * a + k * b + k * c;
    assert k * (3.0 * m) == 3.0 * (k * m);
  }

  lemma CornerInRegion(s: Part, m: nat)
    requires IsConvex(s) && m < |s|
    ensures LeftOfEdges(s + [s[0]], s[m].at)
  {
    hide CH.Cross, IsConvex;
    var r := s + [s[0]];
    ConvexClosed(s);
    forall i: nat | i + 1 < |r|
      ensures LeftOfEdge(r, i, s[m].at)
    {
      TurnAt(r, i, i + 1, m);
    }
  }

  /** A polygon with area in a window has points strictly inside. */
  lemma SomethingInside(s: Part, window: Extent) returns (q: Vec)
    requires IsConvex(s) && HasArea(s) && window.HasArea() && forall p :: p in s ==> window.Holds(p.at)
    ensures InRegion(s, q) && window.HoldsInside(q)
  {
    hide CH.Cross, IsConvex;
    var i: nat, j: nat, k: nat :| i < j < k < |s| && Bends(s, i, j, k);
    var (a, b, c) := (s[i].at, s[j].at, s[k].at);
    q := Middle(a, b, c);
    assert window.Holds(a) && window.Holds(b) && window.Holds(c) by { assert s[i] in s && s[j] in s && s[k] in s; }
    NotUpright(a, b, c);
    CornerInRegion(s, i); CornerInRegion(s, j); CornerInRegion(s, k);
    var r := s + [s[0]];
    forall e: nat | e + 1 < |r|
      ensures LeftOfEdge(r, e, q)
    {
      assert LeftOfEdge(r, e, a) && LeftOfEdge(r, e, b) && LeftOfEdge(r, e, c);
      CrossOfMiddle(r[e].at, r[e + 1].at, a, b, c);
    }
  }

  lemma NotUpright(a: Vec, b: Vec, c: Vec)
    requires CH.Cross(a, b, c) != 0.0
    ensures !(a.x == b.x == c.x) && !(a.y == b.y == c.y)
  {
  }

  /** A part comes out exactly when some point of the region is strictly inside the window. */
  lemma ComesOutExactly(part: Part, window: Extent)
    requires IsConvex(part) && HasArea(part) && !Contains(window, part) && window.HasArea()
    ensures Crop(part, window).Cropped?
    ensures Crop(part, window).parts != [] <==> exists q :: InRegion(part, q) && window.HoldsInside(q)
  {
    hide IsConvex, HasArea, InRegion, Stages, InsideEdges;
    ConvexStaysInWindow(part, window);
    var parts := Crop(part, window).parts;
    if parts == [] {
      forall q | InRegion(part, q)
        ensures !window.HoldsInside(q)
      {
        ConvexIsClipped(part, window, q);
      }
    } else {
      assert parts[0] in parts;
      forall p: GeoPoint | p in parts[0]
        ensures window.Holds(p.at)
      {
        EdgesBoundExtent(window, p.at);
      }
      var q := SomethingInside(parts[0], window);
      ConvexIsClipped(part, window, q);
    }
  }
}
