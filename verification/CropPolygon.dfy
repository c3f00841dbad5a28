/** The second half of a stage of cropPolygonPart in CropFilter.cpp: joining the runs of a ring between its
    crossings into output parts, with a stack of parts put off. */
module CropPolygon {
  import opened Basics
  import opened Geometry
  import opened CropLine
  import opened PolygonWalk

  // ----- findIndexOf

  function IndexFrom(list: seq<nat>, value: nat, i: nat): nat
    requires i <= |list|
    decreases |list| - i
  {
    if i == |list| then 0 else if list[i] == value then i else IndexFrom(list, value, i + 1)
  }

  function IndexOf(list: seq<nat>, value: nat): nat {
    IndexFrom(list, value, 0)
  }

  method FindIndexOf(list: seq<nat>, value: nat) returns (k: nat)
    ensures k == IndexOf(list, value)
  {
    for i := 0 to |list|
      invariant IndexOf(list, value) == IndexFrom(list, value, i)
    {
      if list[i] == value {
        return i;
      }
    }
    return 0;
  }

  lemma {:induction false} IndexFromFinds(list: seq<nat>, value: nat, i: nat)
    requires i <= |list| && exists k :: i <= k < |list| && list[k] == value
    ensures i <= IndexFrom(list, value, i) < |list| && list[IndexFrom(list, value, i)] == value
    decreases |list| - i
  {
    if list[i] != value {
      IndexFromFinds(list, value, i + 1);
    }
  }

  lemma IndexFinds(list: seq<nat>, value: nat)
    requires value in list
    ensures IndexOf(list, value) < |list| && list[IndexOf(list, value)] == value
  {
    IndexFromFinds(list, value, 0);
  }

  // ----- a ring cut by a line

  /** A walked ring with its crossings in the order they are met and in their order along the line. */
  datatype CutRing = CutRing(working: Part, trav: seq<nat>, spatial: seq<nat>) {
    ghost predicate Valid() {
      && |trav| > 0 && |trav| % 2 == 0 && Spaced(trav) && InRange(trav, working)
      && multiset(spatial) == multiset(trav)
    }

    /** Where the traversal starts: at the first crossing in spatial order. */
    function First(): nat
      requires Valid()
    {
      SpatialIsTrav();
      IndexOf(trav, spatial[0])
    }

    lemma SpatialIsTrav()
      requires Valid()
      ensures |spatial| == |trav|
      ensures forall x :: x in spatial <==> x in trav
    {
      assert |multiset(spatial)| == |multiset(trav)|;
      forall x
        ensures x in spatial <==> x in trav
      {
        assert x in multiset(spatial) <==> x in multiset(trav);
      }
    }

    lemma FirstIsFirst()
      requires Valid()
      ensures |spatial| == |trav| && First() < |trav| && trav[First()] == spatial[0]
      ensures |trav| > 0 && |trav| % 2 == 0
    {
      SpatialIsTrav();
      assert spatial[0] in spatial;
      IndexFinds(trav, spatial[0]);
    }

    /** The place in the traversal order of the k-th crossing met. */
    function Place(k: nat): (q: nat)
      requires Valid() && k <= |trav|
      ensures q < |trav|
    {
      FirstIsFirst();
      if First() + k < |trav| then First() + k else First() + k - |trav|
    }

    /** The k-th crossing met. */
    function At(k: nat): (p: nat)
      requires Valid() && k <= |trav|
      ensures p in trav && p < |working|
    {
      trav[Place(k)]
    }

    /** The place of a crossing along the line. */
    function Order(p: nat): nat {
      IndexOf(spatial, p)
    }

    /** A crossing met an odd number of steps after the start is not the first along the line: the index
        next_exit_order - 1 never leaves the list. */
    lemma ExitsAreNotFirst(k: nat)
      requires Valid() && k < |trav| && k % 2 == 1
      ensures |spatial| == |trav| && 1 <= Order(At(k)) < |spatial|
    {
      hide IndexOf;
      FirstIsFirst();
      SpatialIsTrav();
      IndexFinds(spatial, At(k));
      assert Place(k) != First();
      assert trav[Place(k)] != trav[First()];
    }
  }

  function Distance(a: nat, b: nat, n: nat): nat
    requires a < n && b < n
  {
    if a <= b then b - a else b - a + n
  }

  function Next(a: nat, n: nat): nat
    requires a < n
  {
    if a + 1 == n then 0 else a + 1
  }

  /** The points of a closed list from position a round to position b, both included. */
  function Stretch(w: Part, a: nat, b: nat): Part
    requires a < |w| && b < |w|
    decreases Distance(a, b, |w|)
  {
    if a == b then [w[b]] else [w[a]] + Stretch(w, Next(a, |w|), b)
  }

  /** Run m: the points from one crossing the traversal takes as an entry to the exit after it. */
  function Run(c: CutRing, m: nat): Part
    requires c.Valid()
  {
    if 2 * m + 1 < |c.trav| then Stretch(c.working, c.At(2 * m), c.At(2 * m + 1)) else []
  }

  function Runs(c: CutRing, runs: seq<nat>): Part
    requires c.Valid()
  {
    if runs == [] then [] else Runs(c, runs[..|runs| - 1]) + Run(c, runs[|runs| - 1])
  }

  // ----- the traversal, run by run

  /** A part in the making: its runs, and the crossing it began at. */
  datatype Piece = Piece(runs: seq<nat>, start: nat)

  /** A part put off until the traversal enters at waitingOn. */
  datatype Deferred = Deferred(piece: Piece, waitingOn: nat)

  /** A finished part: its runs, and the crossing that closes it if it was still waiting at the end. */
  datatype Finished = Finished(runs: seq<nat>, closing: Option<nat>)

  datatype Loom = Loom(piece: Piece, stack: seq<Deferred>, outputs: seq<Finished>, outside: bool)

  /** Step 4: outside, the entry of run m starts a part or resumes the one on top of the stack; otherwise the
      part in hand goes on. */
  function Enter(c: CutRing, st: Loom, m: nat): (Piece, seq<Deferred>)
    requires c.Valid() && 2 * m + 1 < |c.trav|
  {
    var entry := c.At(2 * m);
    if !st.outside then (st.piece, st.stack)
    else if st.stack != [] && st.stack[|st.stack| - 1].waitingOn == entry then
      (st.stack[|st.stack| - 1].piece, st.stack[..|st.stack| - 1])
    else (Piece([], entry), st.stack)
  }

  /** Steps 4 to 7 for run m. */
  function Weave(c: CutRing, st: Loom, m: nat): Loom
    requires c.Valid() && 2 * m + 1 < |c.trav|
  {
    c.ExitsAreNotFirst(2 * m + 1);
    var exit := c.At(2 * m + 1);
    var (before, stack) := Enter(c, st, m);
    var piece := Piece(before.runs + [m], before.start);
    if c.Order(exit) == c.Order(piece.start) + 1 then
      Loom(piece, stack, st.outputs + [Finished(piece.runs, None)], true)
    else if 2 * m + 2 == |c.trav| || c.Order(exit) == c.Order(c.At(2 * m + 2)) + 1 then
      Loom(piece, stack, st.outputs, false)
    else
      Loom(Piece([], c.At(2 * m + 2)), stack + [Deferred(piece, c.spatial[c.Order(exit) - 1])], st.outputs, false)
  }

  function Woven(c: CutRing, m: nat): Loom
    requires c.Valid() && 2 * m <= |c.trav|
  {
    if m == 0 then Loom(Piece([], 0), [], [], true) else Weave(c, Woven(c, m - 1), m - 1)
  }

  /** The parts left on the stack are complete when the traversal ends. */
  function Popped(stack: seq<Deferred>): seq<Finished> {
    if stack == [] then []
    else
      var top := stack[|stack| - 1];
      [Finished(top.piece.runs, Some(top.waitingOn))] + Popped(stack[..|stack| - 1])
  }

  function Parts(c: CutRing): seq<Finished>
    requires c.Valid()
  {
    var last := Woven(c, |c.trav| / 2);
    last.outputs + Popped(last.stack)
  }

  function Points(c: CutRing, f: Finished): Part
    requires c.Valid()
  {
    Runs(c, f.runs) + if f.closing.Some? && f.closing.value < |c.working| then [c.working[f.closing.value]] else []
  }

  // ----- every run goes into one part

  function StackCount(stack: seq<Deferred>, x: nat): nat {
    if stack == [] then 0 else StackCount(stack[..|stack| - 1], x) + Count(stack[|stack| - 1].piece.runs, x)
  }

  function FinishedCount(parts: seq<Finished>, x: nat): nat {
    if parts == [] then 0 else FinishedCount(parts[..|parts| - 1], x) + Count(parts[|parts| - 1].runs, x)
  }

  /** The part begun last, if the traversal ends before it can be closed: it is dropped. */
  function UnfinishedCount(st: Loom, x: nat): nat {
    if st.outside then 0 else Count(st.piece.runs, x)
  }

  lemma {:induction false} WovenHoldsRuns(c: CutRing, m: nat, x: nat)
    requires c.Valid() && 2 * m <= |c.trav|
    ensures var st := Woven(c, m);
            FinishedCount(st.outputs, x) + StackCount(st.stack, x) + UnfinishedCount(st, x) == One(x < m)
  {
    hide Weave;
    if m > 0 {
      WovenHoldsRuns(c, m - 1, x);
      WeaveAddsRun(c, Woven(c, m - 1), m - 1, x);
    }
  }

  lemma StackTop(stack: seq<Deferred>, top: Deferred, x: nat)
    ensures StackCount(stack + [top], x) == StackCount(stack, x) + Count(top.piece.runs, x)
  {
    assert (stack + [top])[..|stack|] == stack;
  }

  lemma FinishedLast(parts: seq<Finished>, last: Finished, x: nat)
    ensures FinishedCount(parts + [last], x) == FinishedCount(parts, x) + Count(last.runs, x)
  {
    assert (parts + [last])[..|parts|] == parts;
  }

  lemma WeaveAddsRun(c: CutRing, st: Loom, m: nat, x: nat)
    requires c.Valid() && 2 * m + 1 < |c.trav|
    ensures var next := Weave(c, st, m);
            FinishedCount(next.outputs, x) + StackCount(next.stack, x) + UnfinishedCount(next, x) ==
            FinishedCount(st.outputs, x) + StackCount(st.stack, x) + UnfinishedCount(st, x) + One(x == m)
  {
    hide Count, StackCount, FinishedCount, IndexOf;
    c.ExitsAreNotFirst(2 * m + 1);
    var (before, rest) := Enter(c, st, m);
    if rest != st.stack {
      assert st.stack == rest + [st.stack[|st.stack| - 1]];
      StackTop(rest, st.stack[|st.stack| - 1], x);
    }
    CountAppend(before.runs, m, x);
    CountNone(x);
    var piece := Piece(before.runs + [m], before.start);
    FinishedLast(st.outputs, Finished(piece.runs, None), x);
    StackTop(rest, Deferred(piece, c.spatial[c.Order(c.At(2 * m + 1)) - 1]), x);
  }

  // ----- which side the runs are on

  /** The ring comes from a closed walk along the line. */
  ghost predicate Walked(c: CutRing, s1: Vec, s2: Vec) {
    && c.Valid() && c.working != [] && c.working[0] == c.working[|c.working| - 1]
    && Alternating(Trail(c.working, c.trav), s1, s2)
  }

  /** The first crossing in spatial order leads inside: what the traversal takes for granted. */
  ghost predicate StartsWithEntry(c: CutRing, s1: Vec, s2: Vec)
    requires c.Valid()
  {
    var p := c.spatial[0];
    p + 1 < |c.working| && Inside(c.working[p + 1], s1, s2)
  }

  /** Position j lies on the stretch from crossing k to the one after it, going round. */
  predicate OnStretch(t: Trail, k: nat, j: nat)
    requires k < |t.crossings|
  {
    if k + 1 < |t.crossings| then t.crossings[k] <= j <= t.crossings[k + 1]
    else t.crossings[k] <= j < |t.working| || j <= t.crossings[0]
  }

  lemma OnStretchSide(t: Trail, k: nat, j: nat, s1: Vec, s2: Vec)
    requires Alternating(t, s1, s2) && k < |t.crossings| && OnStretch(t, k, j)
    requires t.working != [] && t.working[0] == t.working[|t.working| - 1]
    ensures j < |t.working| && t.crossings[k] + 1 < |t.working|
    ensures Enters(t, k, s1, s2) ==> Inside(t.working[j], s1, s2)
  {
    hide Alternating, Side;
    CrossingAt(t, k, s1, s2);
    CrossingAt(t, 0, s1, s2);
    if k + 1 < |t.crossings| {
      CrossingAt(t, k + 1, s1, s2);
    }
    if t.crossings[k] < j < NextAfter(t, k) {
      StretchOnOneSide(t, k, j, s1, s2);
    } else if k + 1 == |t.crossings| && j < t.crossings[0] {
      StartOnOneSide(t, j, s1, s2);
      StretchOnOneSide(t, k, |t.working| - 1, s1, s2);
    }
  }

  /** Going on along a stretch stays on it. */
  lemma OnStretchNext(t: Trail, k: nat, j: nat, s1: Vec, s2: Vec)
    requires Alternating(t, s1, s2) && k < |t.crossings| && OnStretch(t, k, j) && j < |t.working|
    requires j != t.crossings[Next(k, |t.crossings|)]
    ensures OnStretch(t, k, Next(j, |t.working|))
  {
    hide Alternating;
    CrossingAt(t, k, s1, s2);
    CrossingAt(t, 0, s1, s2);
    if k + 1 < |t.crossings| {
      CrossingAt(t, k + 1, s1, s2);
    }
  }

  lemma {:induction false} StretchInside(t: Trail, k: nat, j: nat, s1: Vec, s2: Vec)
    requires Alternating(t, s1, s2) && k < |t.crossings| && OnStretch(t, k, j)
    requires t.working != [] && t.working[0] == t.working[|t.working| - 1]
    requires InRange(t.crossings, t.working) && j < |t.working|
    requires t.crossings[k] + 1 < |t.working| && Enters(t, k, s1, s2)
    ensures forall p :: p in Stretch(t.working, j, t.crossings[Next(k, |t.crossings|)]) ==> Inside(p, s1, s2)
    decreases Distance(j, t.crossings[Next(k, |t.crossings|)], |t.working|)
  {
    hide Alternating, Inside, OnStretch;
    OnStretchSide(t, k, j, s1, s2);
    if j != t.crossings[Next(k, |t.crossings|)] {
      OnStretchNext(t, k, j, s1, s2);
      StretchInside(t, k, Next(j, |t.working|), s1, s2);
    }
  }

  /** Every second crossing from the start is of the kind of the first. */
  lemma RunBounds(c: CutRing, m: nat, s1: Vec, s2: Vec)
    requires Walked(c, s1, s2) && 2 * m + 1 < |c.trav|
    ensures var t, k := Trail(c.working, c.trav), c.Place(2 * m);
            && c.At(2 * m) == c.trav[k] && c.At(2 * m + 1) == c.trav[Next(k, |c.trav|)]
            && c.trav[k] + 1 < |c.working|
            && (Enters(t, k, s1, s2) <==> StartsWithEntry(c, s1, s2))
  {
    hide Alternating, Inside, IndexOf;
    c.FirstIsFirst();
    var t, f, k := Trail(c.working, c.trav), c.First(), c.Place(2 * m);
    EntriesByParity(t, f, s1, s2);
    EntriesByParity(t, k, s1, s2);
    assert k % 2 == f % 2;
  }

  /** With an entry first in spatial order every run lies inside the line; with an exit first every run has a
      point outside it. */
  lemma RunSide(c: CutRing, m: nat, s1: Vec, s2: Vec)
    requires Walked(c, s1, s2) && 2 * m + 1 < |c.trav|
    ensures StartsWithEntry(c, s1, s2) ==> forall p :: p in Run(c, m) ==> Inside(p, s1, s2)
    ensures !StartsWithEntry(c, s1, s2) ==> exists p :: p in Run(c, m) && !Inside(p, s1, s2)
  {
    hide Alternating, Inside;
    RunBounds(c, m, s1, s2);
    var t, k := Trail(c.working, c.trav), c.Place(2 * m);
    CrossingAt(t, k, s1, s2);
    if StartsWithEntry(c, s1, s2) {
      StretchInside(t, k, c.trav[k], s1, s2);
    } else {
      var a, b := c.trav[k], c.trav[Next(k, |c.trav|)];
      assert b != a && b != a + 1 by { NextIsApart(t, k, s1, s2); }
      assert Stretch(c.working, a, b) == [c.working[a]] + Stretch(c.working, a + 1, b);
      assert Stretch(c.working, a + 1, b)[0] == c.working[a + 1];
      assert c.working[a + 1] in Run(c, m);
    }
  }

  lemma NextIsApart(t: Trail, k: nat, s1: Vec, s2: Vec)
    requires Alternating(t, s1, s2) && k < |t.crossings| && |t.crossings| >= 2
    ensures var b := t.crossings[Next(k, |t.crossings|)]; b != t.crossings[k] && b != t.crossings[k] + 1
  {
    hide IsCrossing;
  }

  // ----- which side the parts are on

  predicate SomeRuns(runs: seq<nat>, m: nat) {
    runs != [] && forall k :: 0 <= k < |runs| ==> runs[k] < m
  }

  /** Finished and deferred parts have runs, all of them woven already; a deferred part waits on a crossing. */
  ghost predicate Shaped(c: CutRing, st: Loom, m: nat) {
    && (forall f :: f in st.outputs ==> SomeRuns(f.runs, m) && f.closing == None)
    && (forall d :: d in st.stack ==> SomeRuns(d.piece.runs, m) && d.waitingOn in c.trav)
    && (!st.outside && st.piece.runs != [] ==> SomeRuns(st.piece.runs, m))
  }

  lemma {:induction false} WovenShaped(c: CutRing, m: nat)
    requires c.Valid() && 2 * m <= |c.trav|
    ensures Shaped(c, Woven(c, m), m)
  {
    hide Weave;
    if m > 0 {
      WovenShaped(c, m - 1);
      WeaveShaped(c, Woven(c, m - 1), m - 1);
    }
  }

  lemma WeaveShaped(c: CutRing, st: Loom, m: nat)
    requires c.Valid() && 2 * m + 1 < |c.trav| && Shaped(c, st, m)
    ensures Shaped(c, Weave(c, st, m), m + 1)
  {
    hide IndexOf, c.Place, c.At, c.First, c.Valid;
    c.ExitsAreNotFirst(2 * m + 1);
    c.SpatialIsTrav();
    var next := Weave(c, st, m);
    forall f | f in next.outputs
      ensures SomeRuns(f.runs, m + 1) && f.closing == None
    {
      assert f in st.outputs || f == next.outputs[|next.outputs| - 1];
    }
    forall d | d in next.stack
      ensures SomeRuns(d.piece.runs, m + 1) && d.waitingOn in c.trav
    {
      assert d in st.stack || d == next.stack[|next.stack| - 1];
    }
  }

  lemma {:induction false} PoppedShaped(c: CutRing, stack: seq<Deferred>, m: nat)
    requires forall d :: d in stack ==> SomeRuns(d.piece.runs, m) && d.waitingOn in c.trav
    ensures forall f :: f in Popped(stack) ==> SomeRuns(f.runs, m) && f.closing.Some? && f.closing.value in c.trav
  {
    if stack != [] {
      PoppedShaped(c, stack[..|stack| - 1], m);
    }
  }

  lemma PartsShaped(c: CutRing, f: Finished)
    requires c.Valid() && f in Parts(c)
    ensures SomeRuns(f.runs, |c.trav| / 2) && (f.closing.Some? ==> f.closing.value in c.trav)
  {
    hide Woven, Popped;
    var last := Woven(c, |c.trav| / 2);
    WovenShaped(c, |c.trav| / 2);
    PoppedShaped(c, last.stack, |c.trav| / 2);
  }

  lemma {:induction false} RunsInside(c: CutRing, runs: seq<nat>, s1: Vec, s2: Vec)
    requires Walked(c, s1, s2) && StartsWithEntry(c, s1, s2)
    ensures forall p :: p in Runs(c, runs) ==> Inside(p, s1, s2)
  {
    hide Inside, Run, Alternating;
    if runs != [] {
      RunsInside(c, runs[..|runs| - 1], s1, s2);
      RunSideOrEmpty(c, runs[|runs| - 1], s1, s2);
    }
  }

  lemma RunSideOrEmpty(c: CutRing, m: nat, s1: Vec, s2: Vec)
    requires Walked(c, s1, s2) && StartsWithEntry(c, s1, s2)
    ensures forall p :: p in Run(c, m) ==> Inside(p, s1, s2)
  {
    hide Inside, Alternating;
    if 2 * m + 1 < |c.trav| {
      RunSide(c, m, s1, s2);
    }
  }

  lemma {:induction false} StretchFromList(w: Part, a: nat, b: nat)
    requires a < |w| && b < |w|
    ensures forall p :: p in Stretch(w, a, b) ==> p in w
    decreases Distance(a, b, |w|)
  {
    if a != b {
      StretchFromList(w, Next(a, |w|), b);
    }
  }

  lemma {:induction false} RunsFromRing(c: CutRing, runs: seq<nat>)
    requires c.Valid()
    ensures forall p :: p in Runs(c, runs) ==> p in c.working
  {
    if runs != [] {
      RunsFromRing(c, runs[..|runs| - 1]);
      var m := runs[|runs| - 1];
      if 2 * m + 1 < |c.trav| {
        StretchFromList(c.working, c.At(2 * m), c.At(2 * m + 1));
      }
    }
  }

  lemma CrossingOnLine(c: CutRing, p: nat, s1: Vec, s2: Vec)
    requires Walked(c, s1, s2) && p in c.trav
    ensures p < |c.working| && Inside(c.working[p], s1, s2)
  {
    hide Alternating, Side;
    var k :| 0 <= k < |c.trav| && c.trav[k] == p;
    CrossingAt(Trail(c.working, c.trav), k, s1, s2);
  }

  /** Every vertex of every output part is inside the line exactly when the first crossing in spatial order is
      an entry, or there is no output at all: after an exit every part has a vertex outside. */
  lemma PartsInsideExactlyAfterEntry(c: CutRing, s1: Vec, s2: Vec)
    requires Walked(c, s1, s2)
    ensures (forall f, p :: f in Parts(c) && p in Points(c, f) ==> Inside(p, s1, s2))
            <==> StartsWithEntry(c, s1, s2) || Parts(c) == []
  {
    hide Alternating, Inside, Run, Parts, StartsWithEntry;
    if StartsWithEntry(c, s1, s2) {
      forall f, p | f in Parts(c) && p in Points(c, f)
        ensures Inside(p, s1, s2)
      {
        PartsShaped(c, f);
        RunsInside(c, f.runs, s1, s2);
        if f.closing.Some? {
          CrossingOnLine(c, f.closing.value, s1, s2);
        }
      }
    } else if Parts(c) != [] {
      var f := Parts(c)[0];
      PartsShaped(c, f);
      var m := f.runs[|f.runs| - 1];
      assert m < |c.trav| / 2;
      RunSide(c, m, s1, s2);
      var p :| p in Run(c, m) && !Inside(p, s1, s2);
      assert p in Runs(c, f.runs);
      assert p in Points(c, f);
    }
  }

  /** Each run goes into exactly one output part, but for those of a last part that could not be closed. */
  lemma EveryRunUsedOnce(c: CutRing, x: nat)
    requires c.Valid()
    ensures FinishedCount(Parts(c), x) + UnfinishedCount(Woven(c, |c.trav| / 2), x) == One(x < |c.trav| / 2)
  {
    var last := Woven(c, |c.trav| / 2);
    WovenHoldsRuns(c, |c.trav| / 2, x);
    PoppedCount(last.stack, x);
    FinishedConcat(last.outputs, Popped(last.stack), x);
  }

  lemma {:induction false} FinishedConcat(a: seq<Finished>, b: seq<Finished>, x: nat)
    ensures FinishedCount(a + b, x) == FinishedCount(a, x) + FinishedCount(b, x)
  {
    hide Count;
    if b == [] {
      assert a + b == a;
    } else {
      FinishedConcat(a, b[..|b| - 1], x);
      assert (a + b)[..|a + b| - 1] == a + b[..|b| - 1];
    }
  }

  lemma {:induction false} PoppedCount(stack: seq<Deferred>, x: nat)
    ensures FinishedCount(Popped(stack), x) == StackCount(stack, x)
  {
    hide Count;
    if stack != [] {
      var top := stack[|stack| - 1];
      var first := [Finished(top.piece.runs, Some(top.waitingOn))];
      PoppedCount(stack[..|stack| - 1], x);
      FinishedConcat(first, Popped(stack[..|stack| - 1]), x);
      FinishedLast([], first[0], x);
      assert [] + [first[0]] == first;
    }
  }

  // ----- the traversal as the source performs it

  /** A part put off, with its points. */
  datatype DeferredPart = DeferredPart(part: Part, partStartPtr: nat, waitingOnPtr: nat)

  function Rendered(c: CutRing, parts: seq<Finished>): seq<Part>
    requires c.Valid()
  {
    if parts == [] then [] else Rendered(c, parts[..|parts| - 1]) + [Points(c, parts[|parts| - 1])]
  }

  function RenderedStack(c: CutRing, stack: seq<Deferred>): seq<DeferredPart>
    requires c.Valid()
  {
    if stack == [] then []
    else
      var top := stack[|stack| - 1];
      RenderedStack(c, stack[..|stack| - 1])
      + [DeferredPart(Runs(c, top.piece.runs), top.piece.start, top.waitingOn)]
  }

  lemma {:induction false} RenderedStackTop(c: CutRing, stack: seq<Deferred>)
    requires c.Valid()
    ensures var r := RenderedStack(c, stack);
            && |r| == |stack|
            && (stack != [] ==>
                  var top := stack[|stack| - 1];
                  && r[..|r| - 1] == RenderedStack(c, stack[..|stack| - 1])
                  && r[|r| - 1] == DeferredPart(Runs(c, top.piece.runs), top.piece.start, top.waitingOn))
  {
    hide Runs;
    if stack != [] {
      RenderedStackTop(c, stack[..|stack| - 1]);
    }
  }

  lemma RenderedStackPush(c: CutRing, stack: seq<Deferred>, top: Deferred)
    requires c.Valid()
    ensures RenderedStack(c, stack + [top]) ==
            RenderedStack(c, stack) + [DeferredPart(Runs(c, top.piece.runs), top.piece.start, top.waitingOn)]
  {
    hide Runs;
    assert (stack + [top])[..|stack|] == stack;
  }

  lemma RenderedAppend(c: CutRing, parts: seq<Finished>, last: Finished)
    requires c.Valid()
    ensures Rendered(c, parts + [last]) == Rendered(c, parts) + [Points(c, last)]
  {
    hide Points;
    assert (parts + [last])[..|parts|] == parts;
  }

  lemma RunsNone(c: CutRing)
    requires c.Valid()
    ensures Runs(c, []) == []
  {
  }

  lemma RunsAppend(c: CutRing, runs: seq<nat>, m: nat)
    requires c.Valid()
    ensures Runs(c, runs + [m]) == Runs(c, runs) + Run(c, m)
  {
    hide Run;
    assert (runs + [m])[..|runs|] == runs;
  }

  /** Adds the points from one position round to another, the last one included. */
  method AddStretch(part: Part, working: Part, from: nat, to: nat) returns (r: Part)
    requires from < |working| && to < |working|
    ensures r == part + Stretch(working, from, to)
  {
    r := part;
    var shapePtr: nat := from;
    while shapePtr != to
      invariant shapePtr < |working|
      invariant r + Stretch(working, shapePtr, to) == part + Stretch(working, from, to)
      decreases Distance(shapePtr, to, |working|)
    {
      var next := OneOn(shapePtr, |working|);
      NextIsModulo(shapePtr, |working|);
      assert Stretch(working, shapePtr, to) == [working[shapePtr]] + Stretch(working, next, to);
      assert r + Stretch(working, shapePtr, to) == (r + [working[shapePtr]]) + Stretch(working, next, to);
      r := r + [working[shapePtr]];
      shapePtr := next;
    }
    r := r + [working[to]];
  }

  /** One position on in a closed list of n. */
  function OneOn(a: nat, n: nat): (r: nat)
    requires a < n
    ensures r < n
  {
    (a + 1) % n
  }

  lemma NextIsModulo(a: nat, n: nat)
    requires a < n
    ensures OneOn(a, n) == Next(a, n)
  {
  }

  /** The lists of the source stand for a state of the traversal. */
  ghost predicate Stands(c: CutRing, stack: seq<Deferred>, parts: seq<Finished>, partStack: seq<DeferredPart>,
                         outputs: seq<Part>)
    requires c.Valid()
  {
    partStack == RenderedStack(c, stack) && outputs == Rendered(c, parts)
  }

  /** The source has entered run m. */
  ghost predicate InRun(c: CutRing, m: nat, currentPart: Part, partStartPtr: nat, partStack: seq<DeferredPart>,
                        outputs: seq<Part>)
    requires c.Valid() && 2 * m + 1 < |c.trav|
  {
    var (before, stack) := Enter(c, Woven(c, m), m);
    && currentPart == Runs(c, before.runs) && partStartPtr == before.start
    && Stands(c, stack, Woven(c, m).outputs, partStack, outputs)
  }

  /** The source has left all runs before m and is outside, or has come to the end. */
  ghost predicate Between(c: CutRing, m: nat, partStack: seq<DeferredPart>, outputs: seq<Part>)
    requires c.Valid() && 2 * m <= |c.trav|
  {
    && Stands(c, Woven(c, m).stack, Woven(c, m).outputs, partStack, outputs)
    && (2 * m < |c.trav| ==> Woven(c, m).outside)
  }

  lemma EnterRun(c: CutRing, m: nat, partStack: seq<DeferredPart>, outputs: seq<Part>)
    requires c.Valid() && 2 * m + 1 < |c.trav| && Between(c, m, partStack, outputs)
    ensures if partStack != [] && partStack[|partStack| - 1].waitingOnPtr == c.At(2 * m) then
              var top := partStack[|partStack| - 1];
              InRun(c, m, top.part, top.partStartPtr, partStack[..|partStack| - 1], outputs)
            else InRun(c, m, [], c.At(2 * m), partStack, outputs)
  {
    hide Woven, Rendered;
    RenderedStackTop(c, Woven(c, m).stack);
    assert Runs(c, []) == [];
  }

  // The four ways a run can end.

  lemma LeaveClosed(c: CutRing, m: nat, part: Part, partStartPtr: nat, partStack: seq<DeferredPart>, outputs: seq<Part>)
    requires c.Valid() && 2 * m + 1 < |c.trav| && InRun(c, m, part, partStartPtr, partStack, outputs)
    requires c.Order(c.At(2 * m + 1)) == c.Order(partStartPtr) + 1
    ensures Between(c, m + 1, partStack, outputs + [part + Run(c, m)])
  {
    var (before, stack) := Enter(c, Woven(c, m), m);
    assert Woven(c, m + 1) == Weave(c, Woven(c, m), m);
    hide Woven, IndexOf, Run, c.Valid, Enter, RenderedStack;
    var piece := Piece(before.runs + [m], before.start);
    RunsAppend(c, before.runs, m);
    RenderedAppend(c, Woven(c, m).outputs, Finished(piece.runs, None));
    assert Points(c, Finished(piece.runs, None)) == Runs(c, piece.runs);
  }

  lemma LeaveLast(c: CutRing, m: nat, part: Part, partStartPtr: nat, partStack: seq<DeferredPart>, outputs: seq<Part>)
    requires c.Valid() && 2 * m + 2 == |c.trav| && InRun(c, m, part, partStartPtr, partStack, outputs)
    requires c.Order(c.At(2 * m + 1)) != c.Order(partStartPtr) + 1
    ensures Between(c, m + 1, partStack, outputs)
  {
    assert Woven(c, m + 1) == Weave(c, Woven(c, m), m);
    hide Woven, IndexOf, Run, c.Valid, Enter, RenderedStack, Rendered;
  }

  lemma LeaveOn(c: CutRing, m: nat, part: Part, partStartPtr: nat, partStack: seq<DeferredPart>, outputs: seq<Part>)
    requires c.Valid() && 2 * m + 3 < |c.trav| && InRun(c, m, part, partStartPtr, partStack, outputs)
    requires c.Order(c.At(2 * m + 1)) != c.Order(partStartPtr) + 1
    requires c.Order(c.At(2 * m + 1)) == c.Order(c.At(2 * m + 2)) + 1
    ensures InRun(c, m + 1, part + Run(c, m), partStartPtr, partStack, outputs)
  {
    hide Woven, IndexOf, Run, Runs, c.Valid, Enter, RenderedStack, Rendered, c.Order, c.At;
    var (before, stack) := Enter(c, Woven(c, m), m);
    WovenGoesOn(c, m, before, stack);
    RunsAppend(c, before.runs, m);
  }

  lemma WovenGoesOn(c: CutRing, m: nat, before: Piece, stack: seq<Deferred>)
    requires c.Valid() && 2 * m + 3 < |c.trav| && (before, stack) == Enter(c, Woven(c, m), m)
    requires c.Order(c.At(2 * m + 1)) != c.Order(before.start) + 1
    requires c.Order(c.At(2 * m + 1)) == c.Order(c.At(2 * m + 2)) + 1
    ensures Enter(c, Woven(c, m + 1), m + 1) == (Piece(before.runs + [m], before.start), stack)
    ensures Woven(c, m + 1).outputs == Woven(c, m).outputs
  {
    hide IndexOf, c.Valid;
    assert Woven(c, m + 1) == Weave(c, Woven(c, m), m);
    hide Woven;
  }

  lemma WovenDefers(c: CutRing, m: nat, before: Piece, stack: seq<Deferred>)
    requires c.Valid() && 2 * m + 3 < |c.trav| && (before, stack) == Enter(c, Woven(c, m), m)
    requires 1 <= c.Order(c.At(2 * m + 1)) < |c.spatial|
    requires c.Order(c.At(2 * m + 1)) != c.Order(before.start) + 1
    requires c.Order(c.At(2 * m + 1)) != c.Order(c.At(2 * m + 2)) + 1
    ensures var deferred := Deferred(Piece(before.runs + [m], before.start), c.spatial[c.Order(c.At(2 * m + 1)) - 1]);
            && Enter(c, Woven(c, m + 1), m + 1) == (Piece([], c.At(2 * m + 2)), stack + [deferred])
            && Woven(c, m + 1).outputs == Woven(c, m).outputs
  {
    hide IndexOf, c.Valid;
    assert Woven(c, m + 1) == Weave(c, Woven(c, m), m);
    hide Woven;
  }

  lemma LeaveDeferred(c: CutRing, m: nat, part: Part, partStartPtr: nat, partStack: seq<DeferredPart>,
                      outputs: seq<Part>)
    requires c.Valid() && 2 * m + 3 < |c.trav| && InRun(c, m, part, partStartPtr, partStack, outputs)
    requires 1 <= c.Order(c.At(2 * m + 1)) < |c.spatial|
    requires c.Order(c.At(2 * m + 1)) != c.Order(partStartPtr) + 1
    requires c.Order(c.At(2 * m + 1)) != c.Order(c.At(2 * m + 2)) + 1
    ensures var waitingOn := c.spatial[c.Order(c.At(2 * m + 1)) - 1];
            InRun(c, m + 1, [], c.At(2 * m + 2),
                  partStack + [DeferredPart(part + Run(c, m), partStartPtr, waitingOn)], outputs)
  {
    hide Woven, IndexOf, Run, c.Valid, Enter, Rendered, RenderedStack, Runs, c.Order, c.At;
    RunsNone(c);
    var (before, stack) := Enter(c, Woven(c, m), m);
    WovenDefers(c, m, before, stack);
    var piece := Piece(before.runs + [m], before.start);
    RunsAppend(c, before.runs, m);
    RenderedStackPush(c, stack, Deferred(piece, c.spatial[c.Order(c.At(2 * m + 1)) - 1]));
  }

  lemma PlaceNext(c: CutRing, k: nat)
    requires c.Valid() && k < |c.trav|
    ensures c.Place(k) < |c.trav| && OneOn(c.Place(k), |c.trav|) == c.Place(k + 1)
    ensures c.At(k) == c.trav[c.Place(k)] && c.At(k + 1) == c.trav[c.Place(k + 1)]
  {
    c.FirstIsFirst();
    NextIsModulo(c.Place(k), |c.trav|);
  }

  method TraverseParts(c: CutRing) returns (outputs: seq<Part>)
    requires c.Valid()
    ensures outputs == Rendered(c, Parts(c))
  {
    hide Between, InRun, Woven, Run, IndexOf, c.Valid, Stretch, Rendered, RenderedStack, Enter, c.Place, c.At,
         c.First, OneOn;
    c.FirstIsFirst();
    var n := |c.trav|;
    var travPtr: nat := FindIndexOf(c.trav, c.spatial[0]);
    var traversals := 0;
    var partStack: seq<DeferredPart> := [];
    outputs := [];
    ghost var m := 0;
    TraversalStarts(c);
    while traversals < n
      invariant 2 * m <= n && Between(c, m, partStack, outputs)
      invariant traversals == 2 * m || (traversals == n + 1 && 2 * m == n)
      invariant travPtr < n && (traversals < n ==> travPtr == c.Place(2 * m))
      decreases n - 2 * m, n + 1 - traversals
    {
      var shapePtr := c.trav[travPtr];
      PlaceNext(c, 2 * m);
      travPtr := OneOn(travPtr, n);
      traversals := traversals + 1;
      var partStartPtr := shapePtr;
      var currentPart: Part := [];
      EnterRun(c, m, partStack, outputs);
      if |partStack| > 0 && partStack[|partStack| - 1].waitingOnPtr == partStartPtr {
        var top := partStack[|partStack| - 1];
        currentPart := top.part;
        partStartPtr := top.partStartPtr;
        partStack := partStack[..|partStack| - 1];
      }
      ghost var entered := m;
      var partDone := false;
      while !partDone && traversals < n
        invariant entered <= m && 2 * m <= n && travPtr < n && (partDone ==> entered < m)
        invariant if partDone then traversals == 2 * m && travPtr == c.Place(2 * m) && Between(c, m, partStack, outputs)
                  else if traversals < n then
                    && traversals == 2 * m + 1 && travPtr == c.Place(2 * m + 1) && shapePtr == c.At(2 * m)
                    && InRun(c, m, currentPart, partStartPtr, partStack, outputs)
                  else traversals == n + 1 && 2 * m == n && Between(c, m, partStack, outputs)
        decreases n - 2 * m, !partDone
      {
        var nextExitPtr := c.trav[travPtr];
        PlaceNext(c, 2 * m + 1);
        travPtr := OneOn(travPtr, n);
        traversals := traversals + 1;
        c.ExitsAreNotFirst(2 * m + 1);
        ghost var before := currentPart;
        assert Run(c, m) == Stretch(c.working, shapePtr, nextExitPtr) by { RunIsStretch(c, m); }
        currentPart := AddStretch(currentPart, c.working, shapePtr, nextExitPtr);
        var partStartOrder := FindIndexOf(c.spatial, partStartPtr);
        var nextExitOrder := FindIndexOf(c.spatial, nextExitPtr);
        if nextExitOrder == partStartOrder + 1 {
          LeaveClosed(c, m, before, partStartPtr, partStack, outputs);
          outputs := outputs + [currentPart];
          partDone := true;
        } else {
          var nextEntryPtr := c.trav[travPtr];
          if traversals == n {
            travPtr := OneOn(travPtr, n);
          } else {
            PlaceNext(c, 2 * m + 2);
            travPtr := OneOn(travPtr, n);
          }
          traversals := traversals + 1;
          if traversals >= n {
            LeaveLast(c, m, before, partStartPtr, partStack, outputs);
            currentPart := currentPart + [c.working[nextEntryPtr]];
          } else {
            var nextEntryOrder := FindIndexOf(c.spatial, nextEntryPtr);
            if nextExitOrder == nextEntryOrder + 1 {
              LeaveOn(c, m, before, partStartPtr, partStack, outputs);
            } else {
              LeaveDeferred(c, m, before, partStartPtr, partStack, outputs);
              partStack := partStack + [DeferredPart(currentPart, partStartPtr, c.spatial[nextExitOrder - 1])];
              currentPart := [];
              partStartPtr := nextEntryPtr;
            }
            shapePtr := nextEntryPtr;
          }
        }
        m := m + 1;
      }
    }
    TraversalEnds(c, partStack, outputs);
    outputs := PopParts(c, partStack, outputs, Woven(c, n / 2).stack, Woven(c, n / 2).outputs);
  }

  lemma TraversalStarts(c: CutRing)
    requires c.Valid()
    ensures Between(c, 0, [], []) && |c.spatial| > 0 && c.Place(0) == IndexOf(c.trav, c.spatial[0])
  {
    hide IndexOf;
    c.FirstIsFirst();
  }

  lemma TraversalEnds(c: CutRing, partStack: seq<DeferredPart>, outputs: seq<Part>)
    requires c.Valid() && Between(c, |c.trav| / 2, partStack, outputs)
    ensures var last := Woven(c, |c.trav| / 2);
            && Stands(c, last.stack, last.outputs, partStack, outputs)
            && forall d :: d in last.stack ==> d.waitingOn in c.trav
  {
    hide Woven, RenderedStack, Rendered;
    WovenShaped(c, |c.trav| / 2);
  }

  lemma RunIsStretch(c: CutRing, m: nat)
    requires c.Valid() && 2 * m + 1 < |c.trav|
    ensures Run(c, m) == Stretch(c.working, c.At(2 * m), c.At(2 * m + 1))
  {
  }

  /** The parts left on the stack, from the top down, each closed with the crossing it waited on. */
  method PopParts(c: CutRing, partStack: seq<DeferredPart>, done: seq<Part>, ghost stack: seq<Deferred>,
                  ghost parts: seq<Finished>) returns (outputs: seq<Part>)
    requires c.Valid() && Stands(c, stack, parts, partStack, done)
    requires forall d :: d in stack ==> d.waitingOn in c.trav
    ensures outputs == Rendered(c, parts + Popped(stack))
  {
    outputs := done;
    var rest := partStack;
    ghost var left, finished := stack, parts;
    RenderedStackTop(c, left);
    while |rest| > 0
      invariant Stands(c, left, finished, rest, outputs) && |rest| == |left| && left <= stack
      invariant finished + Popped(left) == parts + Popped(stack)
      decreases |rest|
    {
      hide Rendered, RenderedStack, Runs, Points, Popped, c.Valid;
      var top := rest[|rest| - 1];
      ghost var last := left[|left| - 1];
      assert last in stack;
      PopOne(c, left, finished, rest, outputs);
      outputs := outputs + [top.part + [c.working[top.waitingOnPtr]]];
      rest := rest[..|rest| - 1];
      finished := finished + [Finished(last.piece.runs, Some(last.waitingOn))];
      left := left[..|left| - 1];
    }
    assert finished + Popped(left) == finished;
  }

  lemma PopOne(c: CutRing, stack: seq<Deferred>, parts: seq<Finished>, partStack: seq<DeferredPart>, outputs: seq<Part>)
    requires c.Valid() && stack != [] && |partStack| == |stack| && Stands(c, stack, parts, partStack, outputs)
    requires stack[|stack| - 1].waitingOn in c.trav
    ensures var last, top, n := stack[|stack| - 1], partStack[|partStack| - 1], |stack| - 1;
            var f := Finished(last.piece.runs, Some(last.waitingOn));
            && top.waitingOnPtr < |c.working|
            && Stands(c, stack[..n], parts + [f], partStack[..n], outputs + [top.part + [c.working[top.waitingOnPtr]]])
            && parts + Popped(stack) == (parts + [f]) + Popped(stack[..n])
            && |partStack[..n]| == |stack[..n]|
  {
    hide Rendered, Runs;
    RenderedStackTop(c, stack);
    var last := stack[|stack| - 1];
    RenderedAppend(c, parts, Finished(last.piece.runs, Some(last.waitingOn)));
  }
}
