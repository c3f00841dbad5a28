/** The first half of one stage of cropPolygonPart in CropFilter.cpp: opening a ring, walking it to insert its
    crossings with a boundary line, and ordering the crossings along that line. */
module PolygonWalk {
  import opened Basics
  import opened Geometry
  import opened CropLine

  predicate Inside(p: GeoPoint, s1: Vec, s2: Vec) {
    PointInsideOrOnLine(p.at, s1, s2)
  }

  // ----- scrubPart

  /** The part without its closing duplicates; None where the source goes on to read an emptied list. */
  function Scrubbed(part: Part): Option<Part> {
    if part == [] then None
    else if part[0] == part[|part| - 1] then Scrubbed(part[..|part| - 1])
    else Some(part)
  }

  method ScrubPart(part: Part) returns (r: Option<Part>)
    ensures r == Scrubbed(part)
  {
    var p := part;
    while p != [] && p[0] == p[|p| - 1]
      invariant Scrubbed(p) == Scrubbed(part)
    {
      p := p[..|p| - 1];
    }
    r := if p == [] then None else Some(p);
  }

  /** Scrubbing is defined exactly for a part with two distinct points. */
  lemma {:induction false} ScrubDefined(part: Part)
    ensures Scrubbed(part).Some? <==> exists i :: 0 <= i < |part| && part[i] != part[0]
    ensures Scrubbed(part).Some? ==>
              var s := Scrubbed(part).value;
              |s| >= 2 && s <= part && s[0] != s[|s| - 1] && forall i :: |s| <= i < |part| ==> part[i] == part[0]
  {
    if part != [] && part[0] == part[|part| - 1] {
      var rest := part[..|part| - 1];
      ScrubDefined(rest);
      if i :| 0 <= i < |part| && part[i] != part[0] {
        assert rest[i] != rest[0];
      }
    } else if part != [] {
      assert part[|part| - 1] != part[0];
    }
  }

  // ----- the walk round a closed part

  /** The ring with its crossings inserted, and where they are. */
  datatype Trail = Trail(working: Part, crossings: seq<nat>)

  function Walk(ring: Part, s1: Vec, s2: Vec): Trail {
    if ring == [] then Trail([], [])
    else
      var n := |ring|;
      var (before, p) := (Walk(ring[..n - 1], s1, s2), ring[n - 1]);
      if n > 1 && Inside(ring[n - 2], s1, s2) != Inside(p, s1, s2) then
        match GetIsectPoint(ring[n - 2], p, s1, s2)
        case Some(x) => Trail(before.working + [x] + [p], before.crossings + [|before.working|])
        case None => Trail(before.working + [p], before.crossings)
      else Trail(before.working + [p], before.crossings)
  }

  /** Increasing, with something between any two. */
  ghost predicate Spaced(s: seq<nat>) {
    forall i, j :: 0 <= i < j < |s| ==> s[i] + 1 < s[j]
  }

  /** A crossing lies on the line, between two vertices on different sides of it. */
  ghost predicate IsCrossing(w: Part, j: nat, s1: Vec, s2: Vec) {
    0 < j && j + 1 < |w| && Side(w[j].at, s1, s2) == 0.0 && Inside(w[j - 1], s1, s2) != Inside(w[j + 1], s1, s2)
  }

  /** The sides change at each crossing and nowhere else. */
  ghost predicate Alternating(t: Trail, s1: Vec, s2: Vec) {
    && Spaced(t.crossings)
    && (forall k :: 0 <= k < |t.crossings| ==> IsCrossing(t.working, t.crossings[k], s1, s2))
    && (forall j {:trigger t.working[j]} ::
          0 <= j && j + 1 < |t.working| && j !in t.crossings && j + 1 !in t.crossings ==>
          Inside(t.working[j], s1, s2) == Inside(t.working[j + 1], s1, s2))
  }

  lemma AlternatingPlain(t: Trail, p: GeoPoint, s1: Vec, s2: Vec)
    requires t.working != [] && Alternating(t, s1, s2)
    requires Inside(t.working[|t.working| - 1], s1, s2) == Inside(p, s1, s2)
    ensures Alternating(Trail(t.working + [p], t.crossings), s1, s2)
  {
    hide Side, Inside;
    var u := t.working + [p];
    forall k | 0 <= k < |t.crossings|
      ensures IsCrossing(u, t.crossings[k], s1, s2)
    {
      assert IsCrossing(t.working, t.crossings[k], s1, s2);
    }
  }

  lemma AlternatingCross(t: Trail, x: GeoPoint, p: GeoPoint, s1: Vec, s2: Vec)
    requires t.working != [] && Alternating(t, s1, s2) && Side(x.at, s1, s2) == 0.0
    requires Inside(t.working[|t.working| - 1], s1, s2) != Inside(p, s1, s2)
    ensures Alternating(Trail(t.working + [x] + [p], t.crossings + [|t.working|]), s1, s2)
  {
    hide Side, Inside;
    var n := |t.working|;
    var w, c := t.working + [x] + [p], t.crossings + [n];
    forall k | 0 <= k < |c|
      ensures IsCrossing(w, c[k], s1, s2) && (k < |t.crossings| ==> c[k] + 1 < n)
    {
      if k < |t.crossings| {
        assert IsCrossing(t.working, t.crossings[k], s1, s2);
      }
    }
  }

  /** Walking a part: the crossings alternate and the failure branch of the intersection is never taken. */
  lemma {:induction false} WalkAlternates(ring: Part, s1: Vec, s2: Vec)
    requires ring != []
    ensures var t := Walk(ring, s1, s2);
            && Alternating(t, s1, s2)
            && |t.working| == |ring| + |t.crossings|
            && t.working[0] == ring[0] && t.working[|t.working| - 1] == ring[|ring| - 1]
  {
    hide Side, GetIsectPoint, PointInsideOrOnLine, Alternating;
    var n := |ring|;
    if n == 1 {
      WalkOne(ring, s1, s2);
    } else {
      WalkAlternates(ring[..n - 1], s1, s2);
      var before, p := Walk(ring[..n - 1], s1, s2), ring[n - 1];
      if Inside(ring[n - 2], s1, s2) != Inside(p, s1, s2) {
        var t := CrossingExists(ring[n - 2], p, s1, s2);
        AlternatingCross(before, GetIsectPoint(ring[n - 2], p, s1, s2).value, p, s1, s2);
      } else {
        AlternatingPlain(before, p, s1, s2);
      }
    }
  }

  lemma WalkOne(ring: Part, s1: Vec, s2: Vec)
    requires |ring| == 1
    ensures Walk(ring, s1, s2) == Trail(ring, []) && Alternating(Walk(ring, s1, s2), s1, s2)
  {
    assert ring[..0] == [];
    assert Walk(ring[..0], s1, s2) == Trail([], []);
    assert [] + [ring[0]] == ring;
  }

  // ----- what alternation means for the stretches between crossings

  /** The end of the stretch after crossing k. */
  function NextAfter(t: Trail, k: nat): nat
    requires k < |t.crossings|
  {
    if k + 1 < |t.crossings| then t.crossings[k + 1] else |t.working|
  }

  /** Crossing k leads inside. */
  predicate Enters(t: Trail, k: nat, s1: Vec, s2: Vec)
    requires k < |t.crossings| && t.crossings[k] + 1 < |t.working|
  {
    Inside(t.working[t.crossings[k] + 1], s1, s2)
  }

  /** Every crossing has a vertex before it and one, before the next crossing, after it. */
  lemma CrossingAt(t: Trail, k: nat, s1: Vec, s2: Vec)
    requires Alternating(t, s1, s2) && k < |t.crossings|
    ensures var a := t.crossings[k];
            && 0 < a && a + 1 < NextAfter(t, k) <= |t.working|
            && Side(t.working[a].at, s1, s2) == 0.0
            && Inside(t.working[a - 1], s1, s2) != Enters(t, k, s1, s2)
            && (k > 0 ==> t.crossings[k - 1] + 1 < a)
  {
    hide Side, PointInsideOrOnLine;
    assert IsCrossing(t.working, t.crossings[k], s1, s2);
    if k + 1 < |t.crossings| {
      assert IsCrossing(t.working, t.crossings[k + 1], s1, s2);
    }
  }

  lemma StepWithinStretch(t: Trail, k: nat, j: nat, s1: Vec, s2: Vec)
    requires Alternating(t, s1, s2) && k < |t.crossings|
    requires t.crossings[k] < j && j + 1 < NextAfter(t, k) && j + 1 < |t.working|
    ensures Inside(t.working[j], s1, s2) == Inside(t.working[j + 1], s1, s2)
  {
    hide Side, Inside, IsCrossing;
    forall i | 0 <= i < |t.crossings|
      ensures t.crossings[i] != j && t.crossings[i] != j + 1
    {
      assert i < k ==> t.crossings[i] < t.crossings[k];
      assert i > k + 1 ==> t.crossings[k + 1] < t.crossings[i];
    }
  }

  /** After a crossing everything up to the next one is on the side it leads to. */
  lemma {:induction false} StretchOnOneSide(t: Trail, k: nat, j: nat, s1: Vec, s2: Vec)
    requires Alternating(t, s1, s2) && k < |t.crossings| && t.crossings[k] < j < NextAfter(t, k) && j < |t.working|
    ensures t.crossings[k] + 1 < |t.working| && Inside(t.working[j], s1, s2) == Enters(t, k, s1, s2)
    decreases j
  {
    hide Alternating, PointInsideOrOnLine;
    CrossingAt(t, k, s1, s2);
    if j > t.crossings[k] + 1 {
      StretchOnOneSide(t, k, j - 1, s1, s2);
      StepWithinStretch(t, k, j - 1, s1, s2);
    }
  }

  lemma StepWithinStart(t: Trail, j: nat, s1: Vec, s2: Vec)
    requires Alternating(t, s1, s2) && j + 1 < |t.working| && (t.crossings != [] ==> j + 1 < t.crossings[0])
    ensures Inside(t.working[j], s1, s2) == Inside(t.working[j + 1], s1, s2)
  {
    hide Side, Inside, IsCrossing;
    assert forall i :: 0 <= i < |t.crossings| ==> t.crossings[0] <= t.crossings[i];
  }

  lemma {:induction false} StartOnOneSide(t: Trail, j: nat, s1: Vec, s2: Vec)
    requires Alternating(t, s1, s2) && t.working != []
    requires j < |t.working| && (t.crossings != [] ==> j < t.crossings[0])
    ensures Inside(t.working[j], s1, s2) == Inside(t.working[0], s1, s2)
  {
    hide Alternating, PointInsideOrOnLine;
    if j > 0 {
      StartOnOneSide(t, j - 1, s1, s2);
      StepWithinStart(t, j - 1, s1, s2);
    }
  }

  /** A crossing is an entry exactly when the one before it is an exit. */
  lemma EntriesAlternate(t: Trail, k: nat, s1: Vec, s2: Vec)
    requires Alternating(t, s1, s2) && k + 1 < |t.crossings|
    ensures t.crossings[k] + 1 < t.crossings[k + 1] && t.crossings[k + 1] + 1 < |t.working|
    ensures Enters(t, k + 1, s1, s2) == !Enters(t, k, s1, s2)
  {
    hide Alternating, PointInsideOrOnLine;
    CrossingAt(t, k, s1, s2);
    CrossingAt(t, k + 1, s1, s2);
    StretchOnOneSide(t, k, t.crossings[k + 1] - 1, s1, s2);
  }

  lemma {:induction false} EntriesByParity(t: Trail, k: nat, s1: Vec, s2: Vec)
    requires Alternating(t, s1, s2) && k < |t.crossings|
    ensures t.crossings[0] + 1 < |t.working| && t.crossings[k] + 1 < |t.working|
    ensures Enters(t, k, s1, s2) == (Enters(t, 0, s1, s2) == (k % 2 == 0))
  {
    hide Alternating, Inside;
    CrossingAt(t, 0, s1, s2);
    if k > 0 {
      EntriesByParity(t, k - 1, s1, s2);
      EntriesAlternate(t, k - 1, s1, s2);
    }
  }

  /** The crossings of a closed walk are even in number. */
  lemma ClosedWalkIsEven(t: Trail, s1: Vec, s2: Vec)
    requires Alternating(t, s1, s2) && t.working != [] && t.crossings != []
    requires t.working[0] == t.working[|t.working| - 1]
    ensures |t.crossings| % 2 == 0
    ensures t.crossings[0] + 1 < |t.working| && Enters(t, 0, s1, s2) == !Inside(t.working[0], s1, s2)
  {
    hide Alternating, PointInsideOrOnLine;
    var n, len := |t.crossings|, |t.working|;
    CrossingAt(t, 0, s1, s2);
    CrossingAt(t, n - 1, s1, s2);
    StartOnOneSide(t, t.crossings[0] - 1, s1, s2);
    StretchOnOneSide(t, n - 1, len - 1, s1, s2);
    EntriesByParity(t, n - 1, s1, s2);
  }

  /** Inserting crossings keeps the points inside any line all the vertices are inside. */
  lemma {:induction false} WalkStaysInside(ring: Part, s1: Vec, s2: Vec, r1: Vec, r2: Vec)
    requires forall p :: p in ring ==> Inside(p, r1, r2)
    ensures forall p :: p in Walk(ring, s1, s2).working ==> Inside(p, r1, r2)
  {
    hide Side, GetIsectPoint, PointInsideOrOnLine;
    var n := |ring|;
    if n > 0 {
      WalkStaysInside(ring[..n - 1], s1, s2, r1, r2);
      assert Inside(ring[n - 1], r1, r2);
      if n > 1 && Inside(ring[n - 2], s1, s2) != Inside(ring[n - 1], s1, s2) {
        assert Inside(ring[n - 2], r1, r2);
        CrossingStaysInside(ring[n - 2], ring[n - 1], s1, s2, r1, r2);
      }
    }
  }

  lemma CrossingStaysInside(p: GeoPoint, q: GeoPoint, s1: Vec, s2: Vec, r1: Vec, r2: Vec)
    requires Inside(p, r1, r2) && Inside(q, r1, r2) && Inside(p, s1, s2) != Inside(q, s1, s2)
    ensures GetIsectPoint(p, q, s1, s2).Some? && Inside(GetIsectPoint(p, q, s1, s2).value, r1, r2)
  {
    hide Side, GetIsectPoint, PointInsideOrOnLine;
    var t := CrossingExists(p, q, s1, s2);
    Convex(p.at, q.at, t, r1, r2);
    SideIsPlanar(GetIsectPoint(p, q, s1, s2).value.at, Lerp(p.at, q.at, t), r1, r2);
  }

  lemma SideIsPlanar(p: Vec, q: Vec, s1: Vec, s2: Vec)
    requires p.x == q.x && p.y == q.y
    ensures PointInsideOrOnLine(p, s1, s2) == PointInsideOrOnLine(q, s1, s2)
  {
  }

  // ----- the order of the crossings along the boundary line

  /** a comes strictly before b in the spatial order of a stage. */
  predicate Before(stage: nat, a: GeoPoint, b: GeoPoint)
    requires stage < 4
  {
    match stage
    case 0 => b.at.x < a.at.x
    case 1 => b.at.y < a.at.y
    case 2 => b.at.x > a.at.x
    case 3 => b.at.y > a.at.y
  }

  predicate InRange(list: seq<nat>, points: Part) {
    forall i :: 0 <= i < |list| ==> list[i] < |points|
  }

  /** The first place at or after i whose element does not come strictly before the value. */
  function PlaceFrom(list: seq<nat>, value: nat, stage: nat, points: Part, i: nat): (r: nat)
    requires stage < 4 && value < |points| && i <= |list| && InRange(list, points)
    ensures i <= r <= |list|
    ensures forall k :: i <= k < r ==> Before(stage, points[list[k]], points[value])
    ensures r < |list| ==> !Before(stage, points[list[r]], points[value])
    decreases |list| - i
  {
    if i < |list| && Before(stage, points[list[i]], points[value]) then PlaceFrom(list, value, stage, points, i + 1)
    else i
  }

  function SpatialInserted(list: seq<nat>, value: nat, stage: nat, points: Part): (r: seq<nat>)
    requires stage < 4 && value < |points| && InRange(list, points)
    ensures InRange(r, points)
  {
    var place := PlaceFrom(list, value, stage, points, 0);
    list[..place] + [value] + list[place..]
  }

  method SpatialInsert(list: seq<nat>, value: nat, stage: nat, points: Part) returns (r: seq<nat>)
    requires stage < 4 && value < |points| && InRange(list, points)
    ensures r == SpatialInserted(list, value, stage, points)
  {
    hide Before;
    var i := 0;
    while i != |list| && Before(stage, points[list[i]], points[value])
      invariant 0 <= i <= |list|
      invariant PlaceFrom(list, value, stage, points, 0) == PlaceFrom(list, value, stage, points, i)
    {
      i := i + 1;
    }
    r := list[..i] + [value] + list[i..];
  }

  /** What the spatial order of a stage sorts by. */
  function Rank(stage: nat, p: GeoPoint): real
    requires stage < 4
  {
    match stage
    case 0 => -p.at.x
    case 1 => -p.at.y
    case 2 => p.at.x
    case 3 => p.at.y
  }

  lemma BeforeIsRank(stage: nat, a: GeoPoint, b: GeoPoint)
    requires stage < 4
    ensures Before(stage, a, b) <==> Rank(stage, a) < Rank(stage, b)
  {
  }

  ghost predicate InSpatialOrder(list: seq<nat>, stage: nat, points: Part)
    requires stage < 4
  {
    && InRange(list, points)
    && (forall i, j :: 0 <= i < j < |list| ==> Rank(stage, points[list[i]]) <= Rank(stage, points[list[j]]))
  }

  lemma SpatialInsertedKeepsOrder(list: seq<nat>, value: nat, stage: nat, points: Part)
    requires stage < 4 && value < |points| && InSpatialOrder(list, stage, points)
    ensures var r := SpatialInserted(list, value, stage, points);
            multiset(r) == multiset(list) + multiset{value} && InSpatialOrder(r, stage, points)
  {
    hide Before, Rank;
    var place := PlaceFrom(list, value, stage, points, 0);
    forall k | 0 <= k < |list|
      ensures if k < place then Rank(stage, points[list[k]]) <= Rank(stage, points[value])
              else Rank(stage, points[value]) <= Rank(stage, points[list[k]])
    {
      BeforeIsRank(stage, points[list[k]], points[value]);
      if k >= place {
        BeforeIsRank(stage, points[list[place]], points[value]);
      }
    }
    OrderSplice(list, value, stage, points, place);
    assert list == list[..place] + list[place..];
  }

  lemma OrderSplice(list: seq<nat>, value: nat, stage: nat, points: Part, place: nat)
    requires stage < 4 && value < |points| && InSpatialOrder(list, stage, points) && place <= |list|
    requires forall k :: 0 <= k < |list| ==>
               if k < place then Rank(stage, points[list[k]]) <= Rank(stage, points[value])
               else Rank(stage, points[value]) <= Rank(stage, points[list[k]])
    ensures InSpatialOrder(list[..place] + [value] + list[place..], stage, points)
  {
    hide Rank;
    var r := list[..place] + [value] + list[place..];
    forall i, j | 0 <= i < j < |r|
      ensures Rank(stage, points[r[i]]) <= Rank(stage, points[r[j]])
    {
      var a, b := if i < place then i else i - 1, if j < place then j else j - 1;
      assert i != place ==> r[i] == list[a];
      assert j != place ==> r[j] == list[b];
    }
  }

  /** The first k crossings of a trail in spatial order. */
  function SpatialOrder(t: Trail, k: nat, stage: nat): (r: seq<nat>)
    requires stage < 4 && k <= |t.crossings| && InRange(t.crossings, t.working)
    ensures InRange(r, t.working)
  {
    if k == 0 then [] else SpatialInserted(SpatialOrder(t, k - 1, stage), t.crossings[k - 1], stage, t.working)
  }

  lemma {:induction false} SpatialOrderSorts(t: Trail, k: nat, stage: nat)
    requires stage < 4 && k <= |t.crossings| && InRange(t.crossings, t.working)
    ensures var r := SpatialOrder(t, k, stage);
            multiset(r) == multiset(t.crossings[..k]) && InSpatialOrder(r, stage, t.working)
  {
    hide SpatialInserted;
    if k > 0 {
      SpatialOrderSorts(t, k - 1, stage);
      SpatialInsertedKeepsOrder(SpatialOrder(t, k - 1, stage), t.crossings[k - 1], stage, t.working);
      assert t.crossings[..k] == t.crossings[..k - 1] + [t.crossings[k - 1]];
    }
  }

  lemma {:induction false} PlaceFrame(list: seq<nat>, value: nat, stage: nat, points: Part, more: Part, i: nat)
    requires stage < 4 && value < |points| && InRange(list, points) && i <= |list| && points <= more
    ensures PlaceFrom(list, value, stage, points, i) == PlaceFrom(list, value, stage, more, i)
    decreases |list| - i
  {
    hide Before;
    if i < |list| {
      PlaceFrame(list, value, stage, points, more, i + 1);
    }
  }

  /** The order does not change as the walk goes on. */
  lemma {:induction false} SpatialOrderFrame(t: Trail, u: Trail, k: nat, stage: nat)
    requires stage < 4 && k <= |t.crossings| && InRange(t.crossings, t.working)
    requires t.working <= u.working && t.crossings <= u.crossings && InRange(u.crossings, u.working)
    ensures SpatialOrder(t, k, stage) == SpatialOrder(u, k, stage)
  {
    hide Before, PlaceFrom;
    if k > 0 {
      SpatialOrderFrame(t, u, k - 1, stage);
      PlaceFrame(SpatialOrder(t, k - 1, stage), t.crossings[k - 1], stage, t.working, u.working, 0);
    }
  }

  lemma {:induction false} WalkInRange(ring: Part, s1: Vec, s2: Vec)
    ensures InRange(Walk(ring, s1, s2).crossings, Walk(ring, s1, s2).working)
  {
    if ring != [] {
      WalkInRange(ring[..|ring| - 1], s1, s2);
    }
  }

  /** The walk and the order of its crossings after some of the ring. */
  ghost predicate Walked(working: Part, crossings: seq<nat>, spatial: seq<nat>, ring: Part, s1: Vec, s2: Vec,
                         stage: nat)
    requires stage < 4
  {
    && Trail(working, crossings) == Walk(ring, s1, s2) && InRange(crossings, working)
    && spatial == SpatialOrder(Trail(working, crossings), |crossings|, stage)
  }

  lemma WalkedOn(working: Part, crossings: seq<nat>, spatial: seq<nat>, ring: Part, p: GeoPoint, s1: Vec, s2: Vec,
                 stage: nat)
    requires stage < 4 && Walked(working, crossings, spatial, ring, s1, s2, stage)
    requires ring != [] ==> Inside(ring[|ring| - 1], s1, s2) == Inside(p, s1, s2)
    ensures Walked(working + [p], crossings, spatial, ring + [p], s1, s2, stage)
  {
    hide Inside, GetIsectPoint;
    assert (ring + [p])[..|ring|] == ring;
    SpatialOrderFrame(Trail(working, crossings), Trail(working + [p], crossings), |crossings|, stage);
  }

  lemma WalkedAcross(working: Part, crossings: seq<nat>, spatial: seq<nat>, ring: Part, x: GeoPoint, p: GeoPoint,
                     s1: Vec, s2: Vec, stage: nat)
    requires stage < 4 && ring != [] && Walked(working, crossings, spatial, ring, s1, s2, stage)
    requires Inside(ring[|ring| - 1], s1, s2) != Inside(p, s1, s2)
    requires GetIsectPoint(ring[|ring| - 1], p, s1, s2) == Some(x)
    ensures InRange(spatial, working)
    ensures Walked(working + [x] + [p], crossings + [|working|],
                   SpatialInserted(spatial, |working|, stage, working + [x]), ring + [p], s1, s2, stage)
  {
    hide Inside, GetIsectPoint, SpatialInserted;
    assert (ring + [p])[..|ring|] == ring;
    var t, u, v := Trail(working, crossings), Trail(working + [x], crossings + [|working|]),
                   Trail(working + [x] + [p], crossings + [|working|]);
    SpatialOrderFrame(t, u, |crossings|, stage);
    SpatialOrderFrame(u, v, |crossings| + 1, stage);
  }

  lemma WalkedNone(stage: nat, s1: Vec, s2: Vec)
    requires stage < 4
    ensures Walked([], [], [], [], s1, s2, stage)
  {
  }

  /** Steps 1a to 1c of cropPolygonPart. */
  method WalkRing(ring: Part, s1: Vec, s2: Vec, stage: nat) returns (trail: Trail, spatialOrder: seq<nat>)
    requires stage < 4
    ensures trail == Walk(ring, s1, s2) && InRange(trail.crossings, trail.working)
    ensures spatialOrder == SpatialOrder(trail, |trail.crossings|, stage)
  {
    hide Inside, GetIsectPoint, Walked, SpatialInserted;
    var working: Part, traversalOrder: seq<nat> := [], [];
    spatialOrder := [];
    var wasInside := true;
    WalkedNone(stage, s1, s2);
    for i := 0 to |ring|
      invariant Walked(working, traversalOrder, spatialOrder, ring[..i], s1, s2, stage)
      invariant i > 0 ==> wasInside == Inside(ring[i - 1], s1, s2)
    {
      var p := ring[i];
      assert ring[..i + 1] == ring[..i] + [p];
      var isInside := Inside(p, s1, s2);
      if i > 0 && wasInside != isInside {
        Crosses(ring[i - 1], p, s1, s2);
      }
      if i == 0 || wasInside == isInside {
        WalkedOn(working, traversalOrder, spatialOrder, ring[..i], p, s1, s2, stage);
      } else {
        WalkedAcross(working, traversalOrder, spatialOrder, ring[..i], GetIsectPoint(ring[i - 1], p, s1, s2).value, p,
                     s1, s2, stage);
      }
      if i > 0 {
        if wasInside != isInside {
          var isect := GetIsectPoint(ring[i - 1], p, s1, s2);
          if isect.Some? {
            working := working + [isect.value];
            traversalOrder := traversalOrder + [|working| - 1];
            spatialOrder := SpatialInsert(spatialOrder, |working| - 1, stage, working);
          }
        }
      }
      working := working + [p];
      wasInside := isInside;
    }
    assert ring[..|ring|] == ring;
    trail := Trail(working, traversalOrder);
    WalkedAll(working, traversalOrder, spatialOrder, ring, s1, s2, stage);
  }

  lemma Crosses(p: GeoPoint, q: GeoPoint, s1: Vec, s2: Vec)
    requires Inside(p, s1, s2) != Inside(q, s1, s2)
    ensures GetIsectPoint(p, q, s1, s2).Some?
  {
    hide GetIsectPoint;
    var t := CrossingExists(p, q, s1, s2);
  }

  lemma WalkedAll(working: Part, crossings: seq<nat>, spatial: seq<nat>, ring: Part, s1: Vec, s2: Vec, stage: nat)
    requires stage < 4 && Walked(working, crossings, spatial, ring, s1, s2, stage)
    ensures Trail(working, crossings) == Walk(ring, s1, s2) && InRange(crossings, working)
    ensures spatial == SpatialOrder(Trail(working, crossings), |crossings|, stage)
  {
  }
}
