/** What cropping keeps of any polygon, convex or not (cropPolygonPart in CropFilter.cpp): the vertices inside, and
    which runs of a ring are joined. */
module CropComplete {
  import opened Basics
  import opened Geometry
  import opened CropLine
  import opened PolygonWalk
  import opened CropPolygon
  import CP = CropPolygon
  import opened PolygonStages
  import CC = ConvexCrop

  // ----- a vertex inside is on a run

  lemma SomeStretch(t: Trail, j: nat) returns (k: nat)
    requires t.crossings != [] && Spaced(t.crossings) && j < |t.working|
    ensures k < |t.crossings| && OnStretch(t, k, j)
  {
    if j < t.crossings[0] {
      k := |t.crossings| - 1;
    } else {
      k := 0;
      while k + 1 < |t.crossings| && t.crossings[k + 1] <= j
        invariant k < |t.crossings| && t.crossings[k] <= j
      {
        k := k + 1;
      }
    }
  }

  /** Strictly inside only stretches after an entry. */
  lemma InsideIsAfterEntry(t: Trail, k: nat, j: nat, s1: Vec, s2: Vec)
    requires Alternating(t, s1, s2) && k < |t.crossings| && OnStretch(t, k, j) && InRange(t.crossings, t.working)
    requires t.working != [] && t.working[0] == t.working[|t.working| - 1]
    requires j < |t.working| && Side(t.working[j].at, s1, s2) > 0.0
    ensures t.crossings[k] + 1 < |t.working| && Enters(t, k, s1, s2)
  {
    hide Alternating, Side;
    CrossingAt(t, k, s1, s2);
    CrossingAt(t, 0, s1, s2);
    if k + 1 < |t.crossings| {
      CrossingAt(t, k + 1, s1, s2);
    }
    if t.crossings[k] < j < NextAfter(t, k) {
      StretchOnOneSide(t, k, j, s1, s2);
    } else {
      StartOnOneSide(t, j, s1, s2);
      StretchOnOneSide(t, k, |t.working| - 1, s1, s2);
    }
  }

  /** A stretch holds the points between its ends, going round. */
  lemma {:induction false} StretchHas(w: Part, a: nat, b: nat, j: nat)
    requires a < |w| && b < |w| && j < |w| && if a <= b then a <= j <= b else a <= j || j <= b
    ensures w[j] in Stretch(w, a, b)
    decreases Distance(a, b, |w|)
  {
    if a != b && j != a {
      StretchHas(w, Next(a, |w|), b, j);
    }
  }

  lemma {:induction false} StretchEnds(w: Part, a: nat, b: nat)
    requires a < |w| && b < |w|
    ensures var s := Stretch(w, a, b); s != [] && s[0] == w[a] && s[|s| - 1] == w[b]
    decreases Distance(a, b, |w|)
  {
    if a != b {
      StretchEnds(w, Next(a, |w|), b);
    }
  }

  /** Every vertex strictly inside the line is on a run, if the ring begins with an entry. */
  lemma InsideIsOnRun(c: CutRing, j: nat, s1: Vec, s2: Vec) returns (m: nat)
    requires CP.Walked(c, s1, s2) && StartsWithEntry(c, s1, s2)
    requires j < |c.working| && Side(c.working[j].at, s1, s2) > 0.0
    ensures 2 * m + 1 < |c.trav| && c.working[j] in Run(c, m)
  {
    hide Alternating, Side, IndexOf, Enters, StartsWithEntry, Stretch, c.Valid;
    WalkedFacts(c, s1, s2);
    c.FirstIsFirst();
    var (t, n, f) := (Trail(c.working, c.trav), |c.trav|, c.First());
    var k := SomeStretch(t, j);
    InsideIsAfterEntry(t, k, j, s1, s2);
    EntriesByParity(t, f, s1, s2);
    EntriesByParity(t, k, s1, s2);
    EntryFirst(c, s1, s2);
    m := RunAt(c, k);
    RunBounds(c, m, s1, s2);
    StretchHas(c.working, c.trav[k], c.trav[Next(k, n)], j);
  }

  lemma WalkedFacts(c: CutRing, s1: Vec, s2: Vec)
    requires CP.Walked(c, s1, s2)
    ensures c.Valid() && Spaced(c.trav) && InRange(c.trav, c.working) && c.trav != []
  {
  }

  /** The run that begins at a crossing an even number of places from the first. */
  lemma RunAt(c: CutRing, k: nat) returns (m: nat)
    requires c.Valid() && k < |c.trav| && c.First() < |c.trav| && k % 2 == c.First() % 2
    ensures 2 * m + 1 < |c.trav| && c.Place(2 * m) == k
  {
    c.FirstIsFirst();
    var (f, n) := (c.First(), |c.trav|);
    m := if k >= f then (k - f) / 2 else (k - f + n) / 2;
  }

  lemma EntryFirst(c: CutRing, s1: Vec, s2: Vec)
    requires CP.Walked(c, s1, s2) && StartsWithEntry(c, s1, s2)
    ensures c.First() < |c.trav| && c.trav[c.First()] + 1 < |c.working|
    ensures Enters(Trail(c.working, c.trav), c.First(), s1, s2)
  {
    c.FirstIsFirst();
  }

  // ----- a run is in some part

  /** The traversal ends outside: the part begun last was closed. */
  ghost predicate Finishes(c: CutRing)
    requires c.Valid()
  {
    Woven(c, |c.trav| / 2).outside
  }

  lemma {:induction false} CountedIsThere(parts: seq<Finished>, x: nat) returns (k: nat)
    requires FinishedCount(parts, x) > 0
    ensures k < |parts| && x in parts[k].runs
  {
    var n := |parts| - 1;
    if Count(parts[n].runs, x) > 0 {
      k := n;
    } else {
      k := CountedIsThere(parts[..n], x);
    }
  }

  lemma {:induction false} RunInRuns(c: CutRing, runs: seq<nat>, m: nat)
    requires c.Valid() && m in runs
    ensures forall p :: p in Run(c, m) ==> p in Runs(c, runs)
  {
    hide Run;
    var n := |runs| - 1;
    if runs[n] != m {
      assert m in runs[..n];
      RunInRuns(c, runs[..n], m);
    }
  }

  lemma {:induction false} PartInRendered(c: CutRing, parts: seq<Finished>, k: nat)
    requires c.Valid() && k < |parts|
    ensures |Rendered(c, parts)| == |parts| && Rendered(c, parts)[k] == Points(c, parts[k])
  {
    hide Points;
    var n := |parts| - 1;
    if k < n {
      PartInRendered(c, parts[..n], k);
    } else {
      RenderedSize(c, parts);
      RenderedSize(c, parts[..n]);
    }
  }

  lemma {:induction false} RenderedSize(c: CutRing, parts: seq<Finished>)
    requires c.Valid()
    ensures |Rendered(c, parts)| == |parts|
  {
    hide Points;
    if parts != [] {
      RenderedSize(c, parts[..|parts| - 1]);
    }
  }

  /** Of a ring that begins with an entry every vertex strictly inside the line comes out, if the traversal finishes. */
  lemma InsideComesOut(c: CutRing, j: nat, s1: Vec, s2: Vec)
    requires CP.Walked(c, s1, s2) && StartsWithEntry(c, s1, s2) && Finishes(c)
    requires j < |c.working| && Side(c.working[j].at, s1, s2) > 0.0
    ensures exists out :: out in Rendered(c, Parts(c)) && c.working[j] in out
  {
    hide Alternating, Side, IndexOf, StartsWithEntry, Run, Parts, Woven;
    var m := InsideIsOnRun(c, j, s1, s2);
    EveryRunUsedOnce(c, m);
    var k := CountedIsThere(Parts(c), m);
    RunInRuns(c, Parts(c)[k].runs, m);
    PartInRendered(c, Parts(c), k);
    assert c.working[j] in Points(c, Parts(c)[k]);
  }

  /** All runs come out exactly when the traversal finishes: otherwise the last one is dropped with the part in hand. */
  lemma RunsComeOutExactly(c: CutRing)
    requires c.Valid()
    ensures Finishes(c) <==> forall m: nat :: m < |c.trav| / 2 ==> FinishedCount(Parts(c), m) == 1
  {
    hide Woven, Weave, FinishedCount, Parts;
    var n := |c.trav| / 2;
    forall m: nat | m < n
      ensures Finishes(c) ==> FinishedCount(Parts(c), m) == 1
    {
      EveryRunUsedOnce(c, m);
    }
    EveryRunUsedOnce(c, n - 1);
    LastInHand(c, n - 1);
  }

  lemma LastInHand(c: CutRing, m: nat)
    requires c.Valid() && 2 * m + 2 == |c.trav|
    ensures !Woven(c, m + 1).outside ==> UnfinishedCount(Woven(c, m + 1), m) > 0
  {
    hide IndexOf, c.At;
    var st := Woven(c, m);
    c.ExitsAreNotFirst(2 * m + 1);
    assert Woven(c, m + 1) == Weave(c, st, m);
    CountAppend(CP.Enter(c, st, m).0.runs, m, m);
  }

  // ----- a stage, and the whole clipper

  /** A stage takes the part as a polygon: it has three points once closing copies are taken off, and if it is cut
      its ring begins with an entry and the traversal finishes. */
  ghost predicate TakenWell(part: Part, window: Extent, stage: nat)
    requires stage < 4
  {
    && Scrubbed(part).Some? && |Scrubbed(part).value| >= 3
    && (Prepare(part, window, stage).Cut? ==>
          var c := Prepare(part, window, stage).ring;
          c.Valid() && StartsWithEntry(c, window.Edge(stage).0, window.Edge(stage).1) && Finishes(c))
  }

  lemma RingHolds(part: Part, s1: Vec, s2: Vec, stage: nat, p: GeoPoint)
    requires stage < 4 && p in part
    ensures p in RingOf(part, s1, s2, stage).working
  {
    hide Walk;
    WalkKeepsPoints(part + [part[0]], s1, s2);
  }

  /** A stage keeps the vertices inside the window, of any part it takes well. */
  lemma StageKeepsVertex(part: Part, window: Extent, stage: nat, p: GeoPoint)
    requires stage < 4 && p in part && window.HoldsInside(p.at) && TakenWell(part, window, stage)
    ensures var r := StagePart(part, window, stage); r.Some? && exists out :: out in r.value && p in out
  {
    hide Side, RingOf, Bounds, Parts, Rendered, CP.Walked, StartsWithEntry, Finishes;
    var (s1, s2) := window.Edge(stage);
    PrepareDecides(part, window, stage);
    ScrubDefined(part);
    var open := Scrubbed(part).value;
    assert p in open;
    CC.InsideAllLines(window, p.at, stage);
    CC.InsideMeetsBounds(open, window, p);
    match Prepare(part, window, stage) {
      case Kept(same) =>
        assert same in [same];
      case Cut(c) =>
        RingHolds(open, s1, s2, stage, p);
        var j :| 0 <= j < |c.working| && c.working[j] == p;
        CutIsValid(c, s1, s2);
        InsideComesOut(c, j, s1, s2);
    }
  }

  ghost predicate AllTakenWell(parts: seq<Part>, window: Extent, stage: nat)
    requires stage < 4
  {
    forall part :: part in parts ==> TakenWell(part, window, stage)
  }

  ghost predicate Has(parts: seq<Part>, p: GeoPoint) {
    exists part :: part in parts && p in part
  }

  lemma TakenIsDefined(part: Part, window: Extent, stage: nat)
    requires stage < 4 && TakenWell(part, window, stage)
    ensures StagePart(part, window, stage).Some?
  {
    hide RingOf, Bounds, Rendered, Parts;
  }

  lemma {:induction false} StageKeeps(inputs: seq<Part>, window: Extent, stage: nat, p: GeoPoint)
    requires stage < 4 && AllTakenWell(inputs, window, stage) && window.HoldsInside(p.at)
    ensures StageParts(inputs, window, stage).Some?
    ensures Has(inputs, p) ==> Has(StageParts(inputs, window, stage).value, p)
  {
    hide TakenWell, StagePart;
    if inputs != [] {
      var (rest, last) := (inputs[..|inputs| - 1], inputs[|inputs| - 1]);
      assert last in inputs && forall part :: part in rest ==> part in inputs;
      StageKeeps(rest, window, stage, p);
      TakenIsDefined(last, window, stage);
      var (done, more) := (StageParts(rest, window, stage).value, StagePart(last, window, stage).value);
      if p in last {
        StageKeepsVertex(last, window, stage, p);
        var out :| out in more && p in out;
        assert out in done + more;
      } else if Has(inputs, p) {
        var part :| part in inputs && p in part;
        assert part in rest;
        var out :| out in done && p in out;
        assert out in done + more;
      }
    }
  }

  /** Every stage takes all it is given well. */
  ghost predicate AlwaysTakenWell(part: Part, window: Extent, k: nat)
    requires k <= 4
  {
    forall j: nat :: j < k && Stages(part, window, j).Some? ==> AllTakenWell(Stages(part, window, j).value, window, j)
  }

  lemma {:induction false} StagesKeep(part: Part, window: Extent, k: nat, p: GeoPoint)
    requires k <= 4 && AlwaysTakenWell(part, window, k) && p in part && window.HoldsInside(p.at)
    ensures Stages(part, window, k).Some? && Has(Stages(part, window, k).value, p)
  {
    hide AllTakenWell, StageParts;
    if k == 0 {
      assert part in [part];
    } else {
      StagesKeep(part, window, k - 1, p);
      StageKeeps(Stages(part, window, k - 1).value, window, k - 1, p);
    }
  }

  /** Cropping any polygon puts out every vertex inside the window, as long as each stage takes what it is given
      well. */
  lemma VerticesComeOut(part: Part, window: Extent, p: GeoPoint)
    requires |part| >= 3 && AlwaysTakenWell(part, window, 4) && p in part && window.HoldsInside(p.at)
    ensures Crop(part, window).Cropped? && Has(Crop(part, window).parts, p)
  {
    hide AlwaysTakenWell, Stages;
    StagesKeep(part, window, 4, p);
    assert part in [part];
  }
}
