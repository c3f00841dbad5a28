/** Cropping a convex polygon given counter-clockwise (cropPolygonPart in CropFilter.cpp): the assumption the clipper
    makes about its crossings holds at every stage, so all that comes out lies in the window. */
module ConvexCrop {
  import opened Basics
  import opened Geometry
  import opened CropLine
  import opened PolygonWalk
  import opened PolygonStages
  import CH = ConvexHull
  import CP = CropPolygon

  // ----- convex rings

  ghost predicate LeftTurn(s: Part, i: nat, j: nat, k: nat)
    requires i < |s| && j < |s| && k < |s|
  {
    CH.Cross(s[i].at, s[j].at, s[k].at) >= 0.0
  }

  /** Any three points of the ring, in its order, turn left or not at all: a convex ring given counter-clockwise, once
      round. Points may repeat and lie in a line. */
  ghost predicate IsConvex(s: Part) {
    forall i: nat, j: nat, k: nat :: i <= j <= k < |s| ==> LeftTurn(s, i, j, k)
  }

  ghost predicate Bends(s: Part, i: nat, j: nat, k: nat)
    requires i < |s| && j < |s| && k < |s|
  {
    CH.Cross(s[i].at, s[j].at, s[k].at) != 0.0
  }

  /** Not all points are in a line. */
  ghost predicate HasArea(s: Part) {
    exists i: nat, j: nat, k: nat :: i < j < k < |s| && Bends(s, i, j, k)
  }

  predicate SamePlace(a: Vec, b: Vec) {
    a.x == b.x && a.y == b.y
  }

  /** The same for three positions in the order of the ring, wherever it begins. */
  predicate InTurn(i: nat, j: nat, k: nat) {
    i <= j <= k || j <= k <= i || k <= i <= j
  }

  lemma TurnAt(s: Part, i: nat, j: nat, k: nat)
    requires IsConvex(s) && i < |s| && j < |s| && k < |s| && InTurn(i, j, k)
    ensures CH.Cross(s[i].at, s[j].at, s[k].at) >= 0.0
  {
    hide CH.Cross;
    CH.Turns(s[i].at, s[j].at, s[k].at);
    if i <= j <= k {
      assert LeftTurn(s, i, j, k);
    } else if j <= k <= i {
      assert LeftTurn(s, j, k, i);
    } else {
      assert LeftTurn(s, k, i, j);
    }
  }

  lemma ConvexSlice(s: Part, a: nat, b: nat)
    requires IsConvex(s) && a <= b <= |s|
    ensures IsConvex(s[a..b])
  {
    hide CH.Cross;
    forall i: nat, j: nat, k: nat | i <= j <= k < b - a
      ensures LeftTurn(s[a..b], i, j, k)
    {
      assert LeftTurn(s, a + i, a + j, a + k);
    }
  }

  /** A ring read on from one position round to an earlier one. */
  lemma ConvexRound(s: Part, a: nat, b: nat)
    requires IsConvex(s) && b < a < |s|
    ensures IsConvex(s[a..] + s[..b + 1])
  {
    hide CH.Cross;
    var r, n := s[a..] + s[..b + 1], |s| - a;
    forall i: nat, j: nat, k: nat | i <= j <= k < |r|
      ensures LeftTurn(r, i, j, k)
    {
      TurnAt(s, if i < n then a + i else i - n, if j < n then a + j else j - n, if k < n then a + k else k - n);
    }
  }

  lemma ConvexClosed(s: Part)
    requires IsConvex(s) && s != []
    ensures IsConvex(s + [s[0]])
  {
    hide CH.Cross;
    var r, n := s + [s[0]], |s|;
    forall i: nat, j: nat, k: nat | i <= j <= k < |r|
      ensures LeftTurn(r, i, j, k)
    {
      if k < n {
        assert LeftTurn(s, i, j, k);
      } else if j < n {
        TurnAt(s, i, j, 0);
      } else {
        CH.NoTurn(r[i].at, s[0].at);
      }
    }
  }

  // ----- a crossing put in between two points

  lemma CrossAlong(a: Vec, b: Vec, x: Vec, t: real, c: Vec, d: Vec)
    requires SamePlace(x, Lerp(a, b, t))
    ensures CH.Cross(x, c, d) == (1.0 - t) * CH.Cross(a, c, d) + t * CH.Cross(b, c, d)
  {
    var (ex, ey, fx, fy) := (c.x - d.x, c.y - d.y, b.x - a.x, b.y - a.y);
    CrossFrom(a, c, d);
    CrossFrom(b, c, d);
    CrossFrom(x, c, d);
    var (ca, cb) := (CH.Cross(a, c, d), CH.Cross(b, c, d));
    assert cb - ca == fx * ey - fy * ex;
    assert CH.Cross(x, c, d) - ca == (t * fx) * ey - (t * fy) * ex;
    Associate(t, fx, ey);
    Associate(t, fy, ex);
    Mixed(t, ca, cb, fx * ey - fy * ex);
  }

  /** The turn from x to c and d is an affine function of x. */
  lemma CrossFrom(x: Vec, c: Vec, d: Vec)
    ensures CH.Cross(x, c, d) == x.x * (c.y - d.y) - x.y * (c.x - d.x) + (c.x * d.y - c.y * d.x)
  {
  }

  lemma Associate(t: real, f: real, e: real)
    ensures (t * f) * e == t * (f * e)
  {
  }

  lemma Mixed(t: real, ca: real, cb: real, m: real)
    requires cb - ca == m
    ensures ca + t * m == (1.0 - t) * ca + t * cb
  {
  }

  lemma CrossBetween(a: Vec, b: Vec, x: Vec, t: real, c: Vec, d: Vec)
    requires 0.0 <= t <= 1.0 && SamePlace(x, Lerp(a, b, t)) && CH.Cross(a, c, d) >= 0.0 && CH.Cross(b, c, d) >= 0.0
    ensures CH.Cross(x, c, d) >= 0.0
  {
    hide CH.Cross, Lerp, SamePlace;
    CrossAlong(a, b, x, t, c, d);
    Signs(1.0 - t, CH.Cross(a, c, d), (1.0 - t) * CH.Cross(a, c, d));
    Signs(t, CH.Cross(b, c, d), t * CH.Cross(b, c, d));
  }

  /** Where a position of the ring with a point put in at m was before; the new point counts as both its neighbours. */
  lemma ConvexInsert(s: Part, m: nat, x: GeoPoint, t: real)
    requires IsConvex(s) && 0 < m < |s| && 0.0 <= t <= 1.0 && SamePlace(x.at, Lerp(s[m - 1].at, s[m].at, t))
    ensures IsConvex(s[..m] + [x] + s[m..])
  {
    hide CH.Cross, Lerp, SamePlace;
    var r := s[..m] + [x] + s[m..];
    forall i: nat, j: nat, k: nat | i <= j <= k < |r|
      ensures LeftTurn(r, i, j, k)
    {
      var (u, v, w) := (if i <= m then i else i - 1, if j <= m then j else j - 1, if k <= m then k else k - 1);
      CH.Turns(r[i].at, r[j].at, r[k].at);
      if i == m {
        if j == m {
          CH.NoTurn(x.at, r[k].at);
          CH.Turns(x.at, x.at, r[k].at);
        } else {
          TurnAt(s, m - 1, v, w);
          TurnAt(s, m, v, w);
          CrossBetween(s[m - 1].at, s[m].at, x.at, t, r[j].at, r[k].at);
        }
      } else if j == m {
        if k == m {
          CH.NoTurn(r[i].at, x.at);
        } else {
          TurnAt(s, m - 1, w, u);
          TurnAt(s, m, w, u);
          CrossBetween(s[m - 1].at, s[m].at, x.at, t, r[k].at, r[i].at);
        }
      } else if k == m {
        TurnAt(s, m - 1, u, v);
        TurnAt(s, m, u, v);
        CrossBetween(s[m - 1].at, s[m].at, x.at, t, r[i].at, r[j].at);
      } else {
        TurnAt(s, u, v, w);
      }
    }
  }

  /** Walking a convex ring leaves it convex. */
  lemma {:induction false} WalkStaysConvex(ring: Part, n: nat, s1: Vec, s2: Vec)
    requires IsConvex(ring) && 1 <= n <= |ring|
    ensures var w := Walk(ring[..n], s1, s2).working;
            w != [] && w[|w| - 1] == ring[n - 1] && IsConvex(w + ring[n..])
  {
    hide IsConvex, GetIsectPoint, Inside, Side;
    if n == 1 {
      WalkOne(ring[..1], s1, s2);
      assert ring[..1] + ring[1..] == ring;
    } else {
      WalkStaysConvex(ring, n - 1, s1, s2);
      assert ring[..n][..n - 1] == ring[..n - 1];
      var (w, p, q) := (Walk(ring[..n - 1], s1, s2).working, ring[n - 2], ring[n - 1]);
      var s := w + ring[n - 1..];
      if Inside(p, s1, s2) != Inside(q, s1, s2) {
        var t := CrossesAt(p, q, s1, s2);
        var x := GetIsectPoint(p, q, s1, s2).value;
        ConvexInsert(s, |w|, x, t);
        assert s[..|w|] == w && s[|w|..] == ring[n - 1..];
        assert w + [x] + ring[n - 1..] == w + [x] + [q] + ring[n..];
      } else {
        assert s == w + [q] + ring[n..];
      }
    }
  }

  lemma CrossesAt(p: GeoPoint, q: GeoPoint, s1: Vec, s2: Vec) returns (t: real)
    requires Inside(p, s1, s2) != Inside(q, s1, s2)
    ensures GetIsectPoint(p, q, s1, s2).Some?
    ensures 0.0 <= t <= 1.0 && SamePlace(GetIsectPoint(p, q, s1, s2).value.at, Lerp(p.at, q.at, t))
  {
    hide GetIsectPoint, Lerp, Side;
    t := CrossingExists(p, q, s1, s2);
  }

  // ----- rings pinched in a point

  /** c is in a line with a and b if it is in a line with a and d, and so is b. */
  lemma InLine(a: Vec, b: Vec, c: Vec, d: Vec)
    requires !SamePlace(a, d) && CH.Cross(a, b, d) == 0.0 && CH.Cross(a, c, d) == 0.0
    ensures CH.Cross(a, b, c) == 0.0
  {
    var (bx, b_y, cx, cy, dx, dy) := (b.x - a.x, b.y - a.y, c.x - a.x, c.y - a.y, d.x - a.x, d.y - a.y);
    var (bc, bd, cd) := (CH.Cross(a, b, c), CH.Cross(a, b, d), CH.Cross(a, c, d));
    assert bc * dx == bd * cx - cd * bx;
    assert bc * dy == bd * cy - cd * b_y;
    if dx != 0.0 {
      Signs(bc, dx, bc * dx);
    } else {
      Signs(bc, dy, bc * dy);
    }
  }

  /** Points in a line with two distinct ones are all in one line. */
  lemma FlatRing(s: Part, a: Vec, d: Vec)
    requires !SamePlace(a, d) && forall p :: p in s ==> CH.Cross(a, p.at, d) == 0.0
    ensures !HasArea(s)
  {
    hide CH.Cross, SamePlace;
    forall i: nat, j: nat, k: nat | i < j < k < |s|
      ensures !Bends(s, i, j, k)
    {
      var (x, y, z) := (s[i].at, s[j].at, s[k].at);
      InLine(a, x, y, d);
      InLine(a, y, z, d);
      InLine(a, x, z, d);
      ThroughPoint(a, x, y, z);
    }
  }

  /** The turn of three points from the turns seen from a fourth. */
  lemma ThroughPoint(a: Vec, x: Vec, y: Vec, z: Vec)
    ensures CH.Cross(x, y, z) == CH.Cross(a, x, y) + CH.Cross(a, y, z) - CH.Cross(a, x, z)
  {
    CrossFrom(a, x, y);
    CrossFrom(a, y, z);
    CrossFrom(a, x, z);
    CrossFrom(x, y, z);
  }

  lemma CrossInPlace(a: Vec, b: Vec, c: Vec, d: Vec)
    requires SamePlace(a, b)
    ensures CH.Cross(a, c, d) == CH.Cross(b, c, d)
  {
  }

  /** In a convex ring that comes to one place twice, a point of the one loop and a point of the other are in a line
      with that place. */
  lemma Pinched(s: Part, i: nat, j: nat, r: nat, v: nat)
    requires IsConvex(s) && i < |s| && j < |s| && r < |s| && v < |s| && SamePlace(s[i].at, s[j].at)
    requires InTurn(i, r, v) && InTurn(r, j, v)
    ensures CH.Cross(s[i].at, s[r].at, s[v].at) == 0.0
  {
    hide CH.Cross, IsConvex;
    TurnAt(s, i, r, v);
    TurnAt(s, r, j, v);
    CH.Turns(s[r].at, s[j].at, s[v].at);
    CH.Turns(s[j].at, s[r].at, s[v].at);
    CrossInPlace(s[i].at, s[j].at, s[r].at, s[v].at);
  }

  /** So if both loops leave the place, the ring is flat. */
  lemma PinchedIsFlat(s: Part, i: nat, j: nat, r: nat, v: nat)
    requires IsConvex(s) && i < j < |s| && i <= r <= j && v < |s| && (v <= i || j <= v)
    requires SamePlace(s[i].at, s[j].at) && !SamePlace(s[i].at, s[r].at) && !SamePlace(s[i].at, s[v].at)
    ensures !HasArea(s)
  {
    hide CH.Cross, IsConvex, HasArea;
    var (q, d) := (s[i].at, s[v].at);
    Pinched(s, i, j, r, v);
    CH.Turns(q, s[r].at, d);
    forall p | p in s
      ensures CH.Cross(q, p.at, d) == 0.0
    {
      var k :| 0 <= k < |s| && s[k] == p;
      if i <= k <= j {
        Pinched(s, i, j, k, v);
      } else {
        Pinched(s, i, j, r, k);
        CH.Turns(q, s[r].at, s[k].at);
        CH.Turns(q, d, s[k].at);
        InLine(q, d, s[k].at, s[r].at);
      }
    }
    FlatRing(s, q, d);
  }

  // ----- crossings of a convex ring with the side of a window

  /** On the line of a stage, and beyond it. */
  lemma OnLine(e: Extent, stage: nat, q: Vec)
    requires stage < 4 && IsValid(e)
    ensures var side := Side(q, e.Edge(stage).0, e.Edge(stage).1);
            var (k, a) := (if stage % 2 == 0 then e.xmax - e.xmin else e.ymax - e.ymin, Depth(e, stage, q));
            side == k * a && (side < 0.0 ==> k > 0.0 && a < 0.0) && (side > 0.0 ==> k > 0.0 && a > 0.0)
            && (side == 0.0 && k > 0.0 ==> a == 0.0)
  {
    var (w, h) := (e.xmax - e.xmin, e.ymax - e.ymin);
    SidesOfEdges(e, q, w, h, q.y - e.ymin, e.xmax - q.x, e.ymax - q.y, q.x - e.xmin);
    var (k, a) := (if stage % 2 == 0 then w else h, Depth(e, stage, q));
    Signs(k, a, k * a);
  }

  /** How far inside the line of a stage a point is. */
  function Depth(e: Extent, stage: nat, q: Vec): real
    requires stage < 4
  {
    match stage
    case 0 => q.y - e.ymin
    case 1 => e.xmax - q.x
    case 2 => e.ymax - q.y
    case 3 => q.x - e.xmin
  }

  /** From one point of the line over a point v off it to another point of the line: the turn tells their order. */
  lemma TurnOverLine(e: Extent, stage: nat, a: GeoPoint, v: Vec, b: GeoPoint)
    requires stage < 4 && Depth(e, stage, a.at) == 0.0 && Depth(e, stage, b.at) == 0.0
    ensures CH.Cross(a.at, v, b.at) == Depth(e, stage, v) * (Rank(stage, b) - Rank(stage, a))
    ensures SamePlace(a.at, b.at) <==> Rank(stage, a) == Rank(stage, b)
  {
    var (vx, vy) := (v.x - a.at.x, v.y - a.at.y);
    var (bx, b_y) := (b.at.x - a.at.x, b.at.y - a.at.y);
    assert CH.Cross(a.at, v, b.at) == vx * b_y - vy * bx;
    match stage {
      case 0 => assert b_y == 0.0; Negated(vy, bx);
      case 1 => assert bx == 0.0; Negated(-vx, b_y);
      case 2 => assert b_y == 0.0; Negated(-vy, bx);
      case 3 => assert bx == 0.0; Negated(vx, b_y);
    }
  }

  lemma Negated(a: real, b: real)
    ensures a * (-b) == -(a * b) && (-a) * b == -(a * b)
  {
  }

  /** A walked ring of a stage, with the crossings it comes back to in spatial order. */
  ghost predicate CutConvex(c: CP.CutRing, window: Extent, stage: nat)
    requires stage < 4
  {
    && IsValid(window) && CP.Walked(c, window.Edge(stage).0, window.Edge(stage).1)
    && IsConvex(c.working) && HasArea(c.working) && InSpatialOrder(c.spatial, stage, c.working)
  }

  /** The k-th crossing of the ring leads outside. */
  ghost predicate Exits(c: CP.CutRing, window: Extent, stage: nat, k: nat)
    requires stage < 4 && k < |c.trav|
  {
    c.trav[k] + 1 < |c.working| && Side(c.working[c.trav[k] + 1].at, window.Edge(stage).0, window.Edge(stage).1) < 0.0
  }

  lemma CrossingFacts(c: CP.CutRing, window: Extent, stage: nat, k: nat)
    requires stage < 4 && CutConvex(c, window, stage) && k < |c.trav|
    ensures var (s1, s2) := window.Edge(stage);
            && 0 < c.trav[k] && c.trav[k] + 1 < |c.working|
            && (k + 1 < |c.trav| ==>
                  c.trav[k] + 1 < c.trav[k + 1] && Exits(c, window, stage, k + 1) == !Exits(c, window, stage, k))
            && Side(c.working[c.trav[k]].at, s1, s2) == 0.0
            && (Exits(c, window, stage, k) <==> !Enters(Trail(c.working, c.trav), k, s1, s2))
  {
    hide Alternating, Side, IsConvex, HasArea;
    var (s1, s2) := window.Edge(stage);
    var t := Trail(c.working, c.trav);
    CrossingAt(t, k, s1, s2);
    if k + 1 < |c.trav| {
      CrossingAt(t, k + 1, s1, s2);
      EntriesAlternate(t, k, s1, s2);
    }
  }

  /** No crossing is beyond an exit along the line. */
  lemma ExitIsLast(c: CP.CutRing, window: Extent, stage: nat, k: nat, m: nat)
    requires stage < 4 && CutConvex(c, window, stage) && k < |c.trav| && m < |c.trav| && Exits(c, window, stage, k)
    ensures c.trav[k] < |c.working| && c.trav[m] < |c.working|
    ensures Rank(stage, c.working[c.trav[m]]) <= Rank(stage, c.working[c.trav[k]])
    ensures SamePlace(c.working[c.trav[m]].at, c.working[c.trav[k]].at) <==>
            Rank(stage, c.working[c.trav[m]]) == Rank(stage, c.working[c.trav[k]])
  {
    hide Side, IsConvex, HasArea, Depth, Rank, SamePlace, CH.Cross, CP.Walked, InSpatialOrder;
    CrossingFacts(c, window, stage, k);
    CrossingFacts(c, window, stage, m);
    var (w, i, j) := (c.working, c.trav[k], c.trav[m]);
    OnLine(window, stage, w[i].at);
    OnLine(window, stage, w[j].at);
    OnLine(window, stage, w[i + 1].at);
    TurnOverLine(window, stage, w[i], w[i + 1].at, w[j]);
    CutIsWalked(c, window, stage);
    SpacedAt(c, k, m);
    SameIsSame(w[i].at, w[j].at);
    assert InTurn(i, i + 1, j);
    TurnAt(w, i, i + 1, j);
    Signs(Depth(window, stage, w[i + 1].at), Rank(stage, w[j]) - Rank(stage, w[i]),
             Depth(window, stage, w[i + 1].at) * (Rank(stage, w[j]) - Rank(stage, w[i])));
  }

  lemma CutIsWalked(c: CP.CutRing, window: Extent, stage: nat)
    requires stage < 4 && CutConvex(c, window, stage)
    ensures c.Valid()
  {
  }

  lemma SpacedAt(c: CP.CutRing, k: nat, m: nat)
    requires c.Valid() && k < |c.trav| && m < |c.trav|
    ensures k < m ==> c.trav[k] + 1 < c.trav[m]
    ensures k > m ==> c.trav[m] + 1 < c.trav[k]
  {
  }

  /** A point beyond the line is not a point on it. */
  lemma OffLine(window: Extent, stage: nat, q: Vec, p: Vec)
    requires stage < 4 && IsValid(window)
    requires var (s1, s2) := window.Edge(stage); Side(q, s1, s2) == 0.0 && Side(p, s1, s2) != 0.0
    ensures !SamePlace(q, p)
  {
  }

  /** A convex ring with area crosses a line twice. */
  lemma TwoCrossingsOnly(c: CP.CutRing, window: Extent, stage: nat)
    requires stage < 4 && CutConvex(c, window, stage)
    ensures |c.trav| == 2
  {
    hide Side, IsConvex, HasArea, Rank, SamePlace, CP.Walked, InSpatialOrder;
    if |c.trav| != 2 {
      assert |c.trav| >= 4 by { EvenCrossings(c, window, stage); }
      CrossingFacts(c, window, stage, 0);
      CrossingFacts(c, window, stage, 1);
      CrossingFacts(c, window, stage, 2);
      var k := if Exits(c, window, stage, 0) then 0 else 1;
      ExitIsLast(c, window, stage, k, k + 2);
      ExitIsLast(c, window, stage, k + 2, k);
      CrossingFacts(c, window, stage, k);
      CrossingFacts(c, window, stage, k + 1);
      CrossingFacts(c, window, stage, k + 2);
      var (w, i, j) := (c.working, c.trav[k], c.trav[k + 2]);
      OffLine(window, stage, w[i].at, w[i + 1].at);
      OffLine(window, stage, w[i].at, w[j + 1].at);
      SameIsSame(w[i].at, w[j].at);
      PinchedIsFlat(w, i, j, i + 1, j + 1);
    }
  }

  lemma SameIsSame(a: Vec, b: Vec)
    ensures SamePlace(a, b) <==> SamePlace(b, a)
  {
  }

  lemma EvenCrossings(c: CP.CutRing, window: Extent, stage: nat)
    requires stage < 4 && CutConvex(c, window, stage)
    ensures |c.trav| > 0 && |c.trav| % 2 == 0
  {
  }

  /** The exit of a ring that crosses the line twice and reaches inside is strictly beyond its entry. */
  lemma ExitBeyondEntry(c: CP.CutRing, window: Extent, stage: nat, k: nat, j: nat)
    requires stage < 4 && CutConvex(c, window, stage) && |c.trav| == 2 && k < 2 && Exits(c, window, stage, k)
    requires j < |c.working| && Side(c.working[j].at, window.Edge(stage).0, window.Edge(stage).1) > 0.0
    ensures c.trav[0] < |c.working| && c.trav[1] < |c.working|
    ensures Rank(stage, c.working[c.trav[1 - k]]) < Rank(stage, c.working[c.trav[k]])
    ensures if k == 0 then j < c.trav[0] || c.trav[1] < j else c.trav[0] < j < c.trav[1]
  {
    hide Side, IsConvex, HasArea, Rank, SamePlace, CP.Walked, InSpatialOrder;
    ExitIsLast(c, window, stage, k, 1 - k);
    CrossingFacts(c, window, stage, 0);
    CrossingFacts(c, window, stage, 1);
    InsideIsOnEntry(c, window, stage, k, j);
    var (w, a, b) := (c.working, c.trav[0], c.trav[1]);
    if SamePlace(w[c.trav[1 - k]].at, w[c.trav[k]].at) {
      OffLine(window, stage, w[a].at, w[j].at);
      OffLine(window, stage, w[a].at, w[c.trav[k] + 1].at);
      SameIsSame(w[a].at, w[b].at);
      if k == 0 {
        PinchedIsFlat(w, a, b, a + 1, j);
      } else {
        PinchedIsFlat(w, a, b, j, b + 1);
      }
    }
  }

  /** A point strictly inside is between the entry and the exit. */
  lemma InsideIsOnEntry(c: CP.CutRing, window: Extent, stage: nat, k: nat, j: nat)
    requires stage < 4 && CutConvex(c, window, stage) && |c.trav| == 2 && k < 2 && Exits(c, window, stage, k)
    requires j < |c.working| && Side(c.working[j].at, window.Edge(stage).0, window.Edge(stage).1) > 0.0
    ensures if k == 0 then j < c.trav[0] || c.trav[1] < j else c.trav[0] < j < c.trav[1]
  {
    hide Side, IsConvex, HasArea, Alternating, InSpatialOrder;
    var (s1, s2) := window.Edge(stage);
    var t := Trail(c.working, c.trav);
    CrossingFacts(c, window, stage, 0);
    CrossingFacts(c, window, stage, 1);
    if c.trav[0] < j < c.trav[1] {
      StretchOnOneSide(t, 0, j, s1, s2);
    } else if j < c.trav[0] {
      StartOnOneSide(t, j, s1, s2);
      ClosedWalkIsEven(t, s1, s2);
    } else if c.trav[1] < j {
      StretchOnOneSide(t, 1, j, s1, s2);
    }
  }

  /** The ring begins, in spatial order, with its entry. */
  lemma ConvexStartsWithEntry(c: CP.CutRing, window: Extent, stage: nat, j: nat)
    requires stage < 4 && CutConvex(c, window, stage)
    requires j < |c.working| && Side(c.working[j].at, window.Edge(stage).0, window.Edge(stage).1) > 0.0
    ensures c.Valid() && |c.trav| == 2 && |c.spatial| == 2
    ensures CP.StartsWithEntry(c, window.Edge(stage).0, window.Edge(stage).1)
    ensures exists k :: 0 <= k < 2 && Exits(c, window, stage, k) && c.spatial[0] == c.trav[1 - k]
  {
    hide Side, IsConvex, HasArea, Rank, Alternating;
    TwoCrossingsOnly(c, window, stage);
    CrossingFacts(c, window, stage, 0);
    CrossingFacts(c, window, stage, 1);
    var k := if Exits(c, window, stage, 0) then 0 else 1;
    ExitBeyondEntry(c, window, stage, k, j);
    c.FirstIsFirst();
    SpatialOfTwo(c);
    assert Exits(c, window, stage, k) && c.spatial[0] == c.trav[1 - k];
  }

  lemma SpatialOfTwo(c: CP.CutRing)
    requires c.Valid() && |c.trav| == 2
    ensures c.spatial == c.trav || c.spatial == [c.trav[1], c.trav[0]]
  {
    c.SpatialIsTrav();
    var (x, y) := (c.spatial[0], c.spatial[1]);
    assert c.spatial == [x, y] && c.trav == [c.trav[0], c.trav[1]];
    assert x in c.spatial && y in c.spatial;
    assert multiset([c.trav[0], c.trav[1]])[x] == 1;
    assert multiset([x, y])[x] == 1;
  }

  // ----- what a stage makes of a convex ring

  lemma {:induction false} StretchIs(w: Part, a: nat, b: nat)
    requires a < |w| && b < |w|
    ensures CP.Stretch(w, a, b) == if a <= b then w[a..b + 1] else w[a..] + w[..b + 1]
    decreases CP.Distance(a, b, |w|)
  {
    if a == b {
      assert w[a..b + 1] == [w[b]];
    } else {
      StretchIs(w, CP.Next(a, |w|), b);
      SlicesFrom(w, a, b);
    }
  }

  lemma SlicesFrom(w: Part, a: nat, b: nat)
    requires a < |w| && b < |w| && a != b
    ensures a < b ==> w[a..b + 1] == [w[a]] + w[a + 1..b + 1]
    ensures a + 1 < |w| ==> w[a..] + w[..b + 1] == [w[a]] + (w[a + 1..] + w[..b + 1])
    ensures a + 1 == |w| ==> w[a..] + w[..b + 1] == [w[a]] + w[0..b + 1]
  {
  }

  /** The one part that a convex ring is cut to: from its entry round to its exit. */
  function CutTo(c: CP.CutRing): Part
    requires c.Valid() && |c.trav| == 2 && |c.spatial| == 2 && c.spatial[0] in c.trav
  {
    if c.spatial[0] == c.trav[0] then CP.Stretch(c.working, c.trav[0], c.trav[1])
    else CP.Stretch(c.working, c.trav[1], c.trav[0])
  }

  lemma CutToIs(c: CP.CutRing)
    requires c.Valid() && |c.trav| == 2
    ensures |c.spatial| == 2 && c.spatial[0] in c.trav
    ensures CP.Rendered(c, CP.Parts(c)) == [CutTo(c)]
  {
    c.FirstIsFirst();
    TwoCrossings(c);
    RenderedOne(c, CP.Finished([0], None));
    FirstRun(c);
  }

  lemma FirstRun(c: CP.CutRing)
    requires c.Valid() && |c.trav| == 2 && |c.spatial| == 2 && c.spatial[0] in c.trav
    ensures CP.Points(c, CP.Finished([0], None)) == CutTo(c)
  {
    c.FirstIsFirst();
    assert c.At(0) == c.spatial[0];
    assert c.At(1) == if c.spatial[0] == c.trav[0] then c.trav[1] else c.trav[0];
    assert [0][..0] == [];
    assert CP.Runs(c, [0][..0]) == [];
    assert CP.Runs(c, [0]) == [] + CP.Run(c, 0);
  }

  /** The part cut from a convex ring is convex and has area. */
  lemma CutToIsConvex(c: CP.CutRing, window: Extent, stage: nat, j: nat)
    requires stage < 4 && CutConvex(c, window, stage)
    requires j < |c.working| && Side(c.working[j].at, window.Edge(stage).0, window.Edge(stage).1) > 0.0
    ensures c.Valid() && |c.trav| == 2 && |c.spatial| == 2 && c.spatial[0] in c.trav
    ensures IsConvex(CutTo(c)) && HasArea(CutTo(c)) && c.working[j] in CutTo(c)
  {
    hide Side, IsConvex, HasArea, Rank, CH.Cross;
    ConvexStartsWithEntry(c, window, stage, j);
    var k :| 0 <= k < 2 && Exits(c, window, stage, k) && c.spatial[0] == c.trav[1 - k];
    ExitBeyondEntry(c, window, stage, k, j);
    CrossingFacts(c, window, stage, 0);
    CrossingFacts(c, window, stage, 1);
    var (w, a, b) := (c.working, c.trav[1 - k], c.trav[k]);
    assert CutTo(c) == CP.Stretch(w, a, b);
    StretchIsConvex(w, a, j, b, window, stage);
  }

  lemma StretchIsConvex(w: Part, a: nat, j: nat, b: nat, window: Extent, stage: nat)
    requires stage < 4 && IsValid(window) && IsConvex(w) && a < |w| && j < |w| && b < |w|
    requires if a < b then a < j < b else b < a && (a < j || j < b)
    requires var (s1, s2) := window.Edge(stage);
             Side(w[a].at, s1, s2) == 0.0 && Side(w[b].at, s1, s2) == 0.0 && Side(w[j].at, s1, s2) > 0.0
    requires Rank(stage, w[a]) < Rank(stage, w[b])
    ensures IsConvex(CP.Stretch(w, a, b)) && HasArea(CP.Stretch(w, a, b)) && w[j] in CP.Stretch(w, a, b)
  {
    hide Side, IsConvex, HasArea, Rank, CP.Stretch;
    StretchIs(w, a, b);
    var part := CP.Stretch(w, a, b);
    var m := if j > a then j - a else |w| - a + j;
    assert part[m] == w[j];
    BendsBetween(w, a, j, b, part, m, window, stage);
    if a < b {
      ConvexSlice(w, a, b + 1);
    } else {
      ConvexRound(w, a, b);
    }
  }

  lemma BendsBetween(w: Part, a: nat, j: nat, b: nat, part: Part, m: nat, window: Extent, stage: nat)
    requires stage < 4 && IsValid(window) && a < |w| && j < |w| && b < |w|
    requires 0 < m && m + 1 < |part| && part[0] == w[a] && part[m] == w[j] && part[|part| - 1] == w[b]
    requires var (s1, s2) := window.Edge(stage);
             Side(w[a].at, s1, s2) == 0.0 && Side(w[b].at, s1, s2) == 0.0 && Side(w[j].at, s1, s2) > 0.0
    requires Rank(stage, w[a]) < Rank(stage, w[b])
    ensures HasArea(part)
  {
    hide Side, Depth, Rank, CH.Cross;
    OnLine(window, stage, w[a].at);
    OnLine(window, stage, w[j].at);
    OnLine(window, stage, w[b].at);
    TurnOverLine(window, stage, w[a], w[j].at, w[b]);
    Signs(Depth(window, stage, w[j].at), Rank(stage, w[b]) - Rank(stage, w[a]),
             Depth(window, stage, w[j].at) * (Rank(stage, w[b]) - Rank(stage, w[a])));
    assert Bends(part, 0, m, |part| - 1);
  }

  /** Taking closing copies of the first point off a ring leaves its area. */
  lemma ScrubbedHasArea(input: Part)
    requires IsConvex(input) && HasArea(input)
    ensures Scrubbed(input).Some? && IsConvex(Scrubbed(input).value) && HasArea(Scrubbed(input).value)
    ensures |Scrubbed(input).value| >= 3
  {
    hide CH.Cross, IsConvex;
    ScrubDefined(input);
    var i: nat, j: nat, k: nat :| i < j < k < |input| && Bends(input, i, j, k);
    CH.Turns(input[i].at, input[j].at, input[k].at);
    CH.Turns(input[i].at, input[k].at, input[j].at);
    assert input[i] != input[j];
    var part := Scrubbed(input).value;
    ConvexSlice(input, 0, |part|);
    assert input[0..|part|] == part;
    if k < |part| {
      assert Bends(part, i, j, k);
    } else {
      assert input[k] == input[0];
      assert j < |part|;
      assert i != 0;
      assert Bends(part, 0, i, j);
    }
  }

  lemma WalkKeepsArea(part: Part, w: Part, at: seq<nat>)
    requires HasArea(part) && |at| == |part| && (forall k :: 0 <= k < |at| ==> at[k] < |w| && w[at[k]] == part[k])
    requires forall i, j :: 0 <= i < j < |at| ==> at[i] < at[j]
    ensures HasArea(w)
  {
    hide CH.Cross;
    var i: nat, j: nat, k: nat :| i < j < k < |part| && Bends(part, i, j, k);
    assert Bends(w, at[i], at[j], at[k]);
  }

  /** Where the points of a ring are in its walk. */
  lemma {:induction false} WalkPlaces(ring: Part, s1: Vec, s2: Vec) returns (at: seq<nat>)
    ensures var w := Walk(ring, s1, s2).working;
            && |at| == |ring| && (forall k :: 0 <= k < |at| ==> at[k] < |w| && w[at[k]] == ring[k])
            && forall i, j :: 0 <= i < j < |at| ==> at[i] < at[j]
  {
    hide GetIsectPoint, Inside;
    if ring == [] {
      at := [];
    } else {
      var before := WalkPlaces(ring[..|ring| - 1], s1, s2);
      at := before + [|Walk(ring, s1, s2).working| - 1];
    }
  }

  /** A convex part that a stage cuts makes a convex ring. */
  lemma RingIsConvex(part: Part, window: Extent, stage: nat)
    requires stage < 4 && IsValid(window) && part != [] && IsConvex(part) && HasArea(part)
    requires var (s1, s2) := window.Edge(stage); CP.Walked(RingOf(part, s1, s2, stage), s1, s2)
    ensures var (s1, s2) := window.Edge(stage); CutConvex(RingOf(part, s1, s2, stage), window, stage)
    ensures var (s1, s2) := window.Edge(stage); forall p :: p in part ==> p in RingOf(part, s1, s2, stage).working
  {
    hide IsConvex, HasArea, Walk, Side, CP.Walked;
    var (s1, s2) := window.Edge(stage);
    var ring := part + [part[0]];
    var t := Walk(ring, s1, s2);
    ConvexClosed(part);
    WalkStaysConvex(ring, |ring|, s1, s2);
    assert ring[..|ring|] == ring && ring[|ring|..] == [] && t.working + [] == t.working;
    WalkInRange(ring, s1, s2);
    SpatialOrderSorts(t, |t.crossings|, stage);
    var at := WalkPlaces(ring, s1, s2);
    WalkKeepsArea(part, t.working, at[..|part|]);
    WalkKeepsPoints(ring, s1, s2);
  }

  /** A stage takes a convex part with area to at most one part, convex and with area, and none of the rings it cuts
      begins with an exit. */
  lemma StageKeepsConvex(input: Part, window: Extent, stage: nat)
    requires stage < 4 && IsConvex(input) && HasArea(input)
    ensures EntriesLead([input], window, stage)
    ensures var r := StagePart(input, window, stage);
            r.Some? && |r.value| <= 1 && forall out :: out in r.value ==> IsConvex(out) && HasArea(out)
  {
    hide IsConvex, HasArea, Side, RingOf, Bounds, CP.Parts, CP.Rendered, CP.Walked, CutConvex;
    var (s1, s2) := window.Edge(stage);
    PrepareDecides(input, window, stage);
    ScrubbedHasArea(input);
    if Prepare(input, window, stage).Cut? {
      var (part, c) := (Scrubbed(input).value, Prepare(input, window, stage).ring);
      CutMeans(input, window, stage);
      RingIsConvex(part, window, stage);
      ExtentDecides(part, window, stage);
      var p :| p in part && Side(p.at, s1, s2) > 0.0;
      var j :| 0 <= j < |c.working| && c.working[j] == p;
      ConvexStartsWithEntry(c, window, stage, j);
      CutToIsConvex(c, window, stage, j);
      CutToIs(c);
    }
  }

  lemma CutMeans(input: Part, window: Extent, stage: nat)
    requires stage < 4 && Prepare(input, window, stage).Cut?
    ensures var (s1, s2) := window.Edge(stage);
            && Scrubbed(input).Some? && Scrubbed(input).value != [] && IsValid(window)
            && !ExtentInsideOrOnLine(Bounds(Scrubbed(input).value), s2, s1)
  {
    hide Bounds, RingOf, Side;
    ScrubDefined(input);
  }

  // ----- nothing inside is lost

  lemma InsideAllLines(e: Extent, q: Vec, stage: nat)
    requires e.HoldsInside(q) && stage < 4
    ensures IsValid(e) && Side(q, e.Edge(stage).0, e.Edge(stage).1) > 0.0
  {
    hide Side;
    OnLine(e, stage, q);
    var k := if stage % 2 == 0 then e.xmax - e.xmin else e.ymax - e.ymin;
    Signs(k, Depth(e, stage, q), k * Depth(e, stage, q));
  }

  /** A stage keeps the vertices inside the window. */
  lemma StageKeepsInside(input: Part, window: Extent, stage: nat, p: GeoPoint)
    requires stage < 4 && IsConvex(input) && HasArea(input) && p in input && window.HoldsInside(p.at)
    ensures var r := StagePart(input, window, stage); r.Some? && |r.value| == 1 && p in r.value[0]
  {
    hide IsConvex, HasArea, Side, RingOf, Bounds, CP.Parts, CP.Rendered, CP.Walked, CutConvex;
    var (s1, s2) := window.Edge(stage);
    PrepareDecides(input, window, stage);
    ScrubbedHasArea(input);
    ScrubDefined(input);
    var part := Scrubbed(input).value;
    assert p in part;
    InsideAllLines(window, p.at, stage);
    ExtentDecides(part, window, stage);
    InsideMeetsBounds(part, window, p);
    if Prepare(input, window, stage).Cut? {
      var c := Prepare(input, window, stage).ring;
      RingIsConvex(part, window, stage);
      var j :| 0 <= j < |c.working| && c.working[j] == p;
      CutToIsConvex(c, window, stage, j);
      CutToIs(c);
    }
  }

  lemma InsideMeetsBounds(part: Part, window: Extent, p: GeoPoint)
    requires p in part && window.HoldsInside(p.at)
    ensures Intersects(window, Bounds(part))
  {
    hide Bounds;
    BoundsAreTight(part);
    assert Bounds(part).Holds(p.at);
  }

  // ----- the whole clipper

  ghost predicate ConvexParts(parts: seq<Part>) {
    |parts| <= 1 && forall part :: part in parts ==> IsConvex(part) && HasArea(part)
  }

  lemma {:induction false} StagesKeepConvex(part: Part, window: Extent, k: nat)
    requires k <= 4 && IsConvex(part) && HasArea(part)
    ensures Stages(part, window, k).Some? && ConvexParts(Stages(part, window, k).value)
    ensures AlwaysEntering(part, window, k)
  {
    hide IsConvex, HasArea, StagePart, EntriesLead;
    if k > 0 {
      StagesKeepConvex(part, window, k - 1);
      var parts := Stages(part, window, k - 1).value;
      if parts == [] {
        NoneLead(window, k - 1);
      } else {
        assert parts == [parts[0]] && parts[0] in parts;
        StageKeepsConvex(parts[0], window, k - 1);
        StageOne(parts[0], window, k - 1, StagePart(parts[0], window, k - 1).value);
      }
    }
  }

  lemma {:induction false} StagesKeepInside(part: Part, window: Extent, k: nat, p: GeoPoint)
    requires k <= 4 && IsConvex(part) && HasArea(part) && p in part && window.HoldsInside(p.at)
    ensures Stages(part, window, k).Some? && |Stages(part, window, k).value| == 1
    ensures p in Stages(part, window, k).value[0]
  {
    hide IsConvex, HasArea, StagePart, EntriesLead;
    if k > 0 {
      StagesKeepInside(part, window, k - 1, p);
      StagesKeepConvex(part, window, k - 1);
      var parts := Stages(part, window, k - 1).value;
      assert parts == [parts[0]] && parts[0] in parts;
      StageKeepsInside(parts[0], window, k - 1, p);
      StageOne(parts[0], window, k - 1, StagePart(parts[0], window, k - 1).value);
    }
  }

  lemma NoneLead(window: Extent, stage: nat)
    requires stage < 4
    ensures EntriesLead([], window, stage) && StageParts([], window, stage) == Some([])
  {
  }

  /** Cropping a convex part with area, given counter-clockwise, to any window puts out at most one part, again convex
      and with area, and all of it in the window; only a part that is in the window to within EPSILON comes out as it
      is. */
  lemma ConvexStaysInWindow(part: Part, window: Extent)
    requires IsConvex(part) && HasArea(part)
    ensures Crop(part, window).Cropped? && ConvexParts(Crop(part, window).parts)
    ensures forall out, p :: out in Crop(part, window).parts && p in out ==>
              if Contains(window, part) then ContainsPoint(window, p.at) else InsideEdges(p.at, window)
  {
    hide IsConvex, HasArea, Stages, AlwaysEntering, InsideEdge;
    AtLeastThree(part);
    StagesKeepConvex(part, window, 4);
    CropStaysInWindow(part, window);
  }

  /** And it puts out a part, with all the vertices inside the window, if there are any. */
  lemma ConvexKeepsInside(part: Part, window: Extent, p: GeoPoint)
    requires IsConvex(part) && HasArea(part) && p in part && window.HoldsInside(p.at)
    ensures Crop(part, window).Cropped? && |Crop(part, window).parts| == 1 && p in Crop(part, window).parts[0]
  {
    hide IsConvex, HasArea, Stages;
    AtLeastThree(part);
    StagesKeepInside(part, window, 4, p);
  }

  lemma AtLeastThree(part: Part)
    requires HasArea(part)
    ensures |part| >= 3
  {
  }
}
