/** Which runs of a ring the traversal of cropPolygonPart (CropFilter.cpp) joins: of rings whose crossings pair up
    without getting in each other's way, as those of an outline that does not cross itself do, exactly those that
    meet along the line. */
module NestedRings {
  import opened Basics
  import opened Geometry
  import opened PolygonWalk
  import opened CropPolygon
  import opened CropComplete
  import opened JoinedRuns

  // ----- runs that meet along the line

  /** Joins do not get in each other's way: what comes between a run and the later one it meets is joined up between
      them. */
  ghost predicate NonCrossing(next: seq<nat>) {
    forall a, b :: 0 <= a < |next| && 0 <= b < |next| && a < next[a] ==> (a < b < next[a] <==> a < next[b] < next[a])
  }

  /** next tells of each run the one it meets. */
  ghost predicate NestedBy(c: CutRing, next: seq<nat>) {
    && c.Valid() && |next| == |c.trav| / 2 && NonCrossing(next)
    && forall m :: 0 <= m < |next| ==> next[m] < |next| && Meets(c, m, next[m])
  }

  /** A run meets one run only, and is met by one only. */
  lemma MeetsOne(c: CutRing, a: nat, b: nat, x: nat, y: nat)
    requires c.Valid() && 2 * a + 1 < |c.trav| && 2 * b + 1 < |c.trav| && 2 * x + 1 < |c.trav| && 2 * y + 1 < |c.trav|
    requires Meets(c, a, b) && Meets(c, x, y)
    ensures a == x <==> b == y
  {
    hide c.Valid, c.At, c.Order;
    if a == x {
      SameOrder(c, 2 * b, 2 * y);
    }
    if b == y {
      SameOrder(c, 2 * a + 1, 2 * x + 1);
    }
  }

  lemma NextIsOwn(c: CutRing, next: seq<nat>, a: nat, b: nat)
    requires NestedBy(c, next) && a < |next| && b < |next| && next[a] == next[b]
    ensures a == b
  {
    hide Meets, c.Valid, NonCrossing;
    MeetsOne(c, a, next[a], b, next[b]);
  }

  /** The crossing a part waits on is the entry of the run it meets. */
  lemma WaitsOnNext(c: CutRing, next: seq<nat>, m: nat)
    requires NestedBy(c, next) && m < |next|
    ensures 1 <= c.Order(c.At(2 * m + 1)) < |c.spatial|
    ensures c.spatial[c.Order(c.At(2 * m + 1)) - 1] == c.At(2 * next[m])
  {
    hide c.Valid, c.At, c.Order, NonCrossing;
    c.ExitsAreNotFirst(2 * m + 1);
    OrderFinds(c, 2 * next[m]);
  }

  // ----- parts in the making

  /** Runs each of which meets the one after it, in the order of the traversal. */
  ghost predicate Chain(next: seq<nat>, runs: seq<nat>) {
    && runs != [] && (forall i :: 0 <= i < |runs| ==> runs[i] < |next|)
    && forall i :: 0 <= i < |runs| - 1 ==> next[runs[i]] == runs[i + 1] && runs[i] < runs[i + 1]
  }

  lemma {:induction false} ChainRises(next: seq<nat>, runs: seq<nat>, i: nat, j: nat)
    requires Chain(next, runs) && i <= j < |runs|
    ensures runs[i] <= runs[j] && (i < j ==> runs[i] < runs[j])
  {
    if i < j {
      ChainRises(next, runs, i, j - 1);
    }
  }

  function LastRun(p: Piece): nat
    requires p.runs != []
  {
    p.runs[|p.runs| - 1]
  }

  /** A part begun before run m that goes on at run m or later. */
  ghost predicate Open(c: CutRing, next: seq<nat>, p: Piece, m: nat)
    requires NestedBy(c, next)
  {
    && Chain(next, p.runs) && p.runs != [] && p.runs[0] <= LastRun(p) < |next| && LastRun(p) < m <= next[LastRun(p)]
    && p.start == c.At(2 * p.runs[0])
  }

  /** A complete part: the last run meets the first. */
  ghost predicate Complete(next: seq<nat>, f: Finished) {
    Chain(next, f.runs) && next[f.runs[|f.runs| - 1]] == f.runs[0] && f.closing == None
  }

  /** The parts put off are open, and nested: each lies between the last run of the one below and the run that one waits
      for. */
  ghost predicate StackGood(c: CutRing, next: seq<nat>, stack: seq<Deferred>, m: nat)
    requires NestedBy(c, next)
  {
    && (forall i :: 0 <= i < |stack| ==>
          Open(c, next, stack[i].piece, m) && stack[i].waitingOn == c.At(2 * next[LastRun(stack[i].piece)]))
    && forall i, j :: 0 <= i < j < |stack| ==>
         && LastRun(stack[i].piece) < stack[j].piece.runs[0]
         && next[LastRun(stack[j].piece)] < next[LastRun(stack[i].piece)]
  }

  /** All of them wait for a run after m, and were put off before run k. */
  ghost predicate Below(c: CutRing, next: seq<nat>, stack: seq<Deferred>, m: nat, k: nat)
    requires NestedBy(c, next)
  {
    StackGood(c, next, stack, m) &&
    forall i :: 0 <= i < |stack| ==> LastRun(stack[i].piece) < k && m < next[LastRun(stack[i].piece)]
  }

  /** The traversal before run m. */
  ghost predicate Good(c: CutRing, next: seq<nat>, st: Loom, m: nat)
    requires NestedBy(c, next)
  {
    && (forall f :: f in st.outputs ==> Complete(next, f) && f.runs[|f.runs| - 1] < m)
    && if st.outside then StackGood(c, next, st.stack, m)
       else
         && m < |next|
         && if st.piece.runs == [] then st.piece.start == c.At(2 * m) && Below(c, next, st.stack, m, m)
            else
              && Open(c, next, st.piece, m) && next[LastRun(st.piece)] == m
              && Below(c, next, st.stack, m, st.piece.runs[0])
  }

  /** In hand once run m is entered: nothing yet, or a part that meets run m. */
  ghost predicate InHand(c: CutRing, next: seq<nat>, p: Piece, m: nat)
    requires NestedBy(c, next) && m < |next|
  {
    if p.runs == [] then p.start == c.At(2 * m) else Open(c, next, p, m) && next[LastRun(p)] == m
  }

  function FirstRun(p: Piece, m: nat): nat { if p.runs == [] then m else p.runs[0] }

  lemma EnterGood(c: CutRing, next: seq<nat>, st: Loom, m: nat)
    requires NestedBy(c, next) && m < |next| && Good(c, next, st, m)
    ensures var (p, stack) := Enter(c, st, m);
            InHand(c, next, p, m) && Below(c, next, stack, m, FirstRun(p, m))
  {
    hide Meets, NonCrossing, Chain, c.At, c.Valid;
    if st.outside {
      var n := |st.stack| - 1;
      if n >= 0 {
        var top := st.stack[n];
        var q := next[LastRun(top.piece)];
        if q != m {
          PlaceIsOwn(c, 2 * m, 2 * q);
        }
        assert forall i :: 0 <= i < n ==> q < next[LastRun(st.stack[i].piece)];
      }
    }
  }

  /** The part in hand with run m. */
  lemma Extended(c: CutRing, next: seq<nat>, p: Piece, m: nat)
    requires NestedBy(c, next) && m < |next| && InHand(c, next, p, m)
    ensures var runs := p.runs + [m]; Chain(next, runs) && p.start == c.At(2 * runs[0]) && runs[0] == FirstRun(p, m)
    ensures FirstRun(p, m) <= m
  {
    hide Meets, NonCrossing, c.At, c.Valid;
  }

  // ----- where run m goes on to

  lemma {:induction false} StackedIsThere(stack: seq<Deferred>, x: nat) returns (k: nat)
    requires StackCount(stack, x) > 0
    ensures k < |stack| && x in stack[k].piece.runs
  {
    var n := |stack| - 1;
    if Count(stack[n].piece.runs, x) > 0 {
      k := n;
    } else {
      k := StackedIsThere(stack[..n], x);
    }
  }

  /** A run that is not the first of a chain is met by one of it. */
  lemma MetInChain(next: seq<nat>, runs: seq<nat>, q: nat) returns (x: nat)
    requires Chain(next, runs) && q in runs && q != runs[0]
    ensures x < |next| && next[x] == q && x in runs && x < q
  {
    var i :| 0 <= i < |runs| && runs[i] == q;
    x := runs[i - 1];
  }

  /** The run that run m meets comes after it, unless it is the first of the part in hand. */
  lemma GoesOnLater(c: CutRing, next: seq<nat>, st: Loom, m: nat)
    requires NestedBy(c, next) && m < |next| && Good(c, next, st, m) && st == Woven(c, m)
    ensures var (p, stack) := Enter(c, st, m); next[m] > m || next[m] == FirstRun(p, m)
  {
    hide Meets, c.At, c.Valid, Woven, Enter, StackCount, FinishedCount, Count, Good;
    EnterGood(c, next, st, m);
    var (p, stack) := Enter(c, st, m);
    Extended(c, next, p, m);
    var q := next[m];
    if q <= m && q != FirstRun(p, m) {
      if q in p.runs + [m] {
        var x := MetInChain(next, p.runs + [m], q);
        NextIsOwn(c, next, x, m);
      } else {
        WovenHoldsRuns(c, m, q);
        InSomeOutput(c, next, st, m, q);
        Elsewhere(c, st, m, q);
        var k := StackedIsThere(stack, q);
        var d := stack[k].piece;
        StaysAbove(c, next, stack, m, FirstRun(p, m), k);
        if q != d.runs[0] {
          var x := MetInChain(next, d.runs, q);
          NextIsOwn(c, next, x, m);
        }
      }
      assert false;
    }
  }

  /** Run m does not meet a run of the parts put off, nor one before them. */
  lemma StaysAbove(c: CutRing, next: seq<nat>, stack: seq<Deferred>, m: nat, f: nat, k: nat)
    requires NestedBy(c, next) && m < |next| && f <= m && Below(c, next, stack, m, f) && k < |stack|
    ensures stack[k].piece.runs != [] && LastRun(stack[k].piece) < |next|
    ensures stack[k].piece.runs[0] < next[m] < next[LastRun(stack[k].piece)]
  {
    hide c.At, c.Valid, Chain, Meets;
    var a := LastRun(stack[k].piece);
    assert Open(c, next, stack[k].piece, m);
    assert a < m < next[a];
  }

  /** Run q, that run m meets, is in no complete part: it would be met by a run of that part as well. */
  lemma InSomeOutput(c: CutRing, next: seq<nat>, st: Loom, m: nat, q: nat)
    requires NestedBy(c, next) && m < |next| && Good(c, next, st, m) && next[m] == q
    ensures FinishedCount(st.outputs, q) == 0
  {
    hide Meets, c.At, c.Valid, FinishedCount, Count, NonCrossing;
    if FinishedCount(st.outputs, q) > 0 {
      var k := CountedIsThere(st.outputs, q);
      var runs := st.outputs[k].runs;
      assert st.outputs[k] in st.outputs;
      var x := runs[|runs| - 1];
      if q != runs[0] {
        x := MetInChain(next, runs, q);
      }
      var i :| 0 <= i < |runs| && runs[i] == x;
      ChainRises(next, runs, i, |runs| - 1);
      NextIsOwn(c, next, x, m);
      assert false;
    }
  }

  /** A run that is in no complete part and not in hand is on the stack. */
  lemma Elsewhere(c: CutRing, st: Loom, m: nat, q: nat)
    requires c.Valid() && 2 * m + 1 < |c.trav| && q < m
    requires FinishedCount(st.outputs, q) + StackCount(st.stack, q) + UnfinishedCount(st, q) == 1
    requires FinishedCount(st.outputs, q) == 0
    ensures var (p, stack) := Enter(c, st, m); q !in p.runs ==> StackCount(stack, q) > 0
  {
    hide c.Valid, c.At, FinishedCount;
    var (p, stack) := Enter(c, st, m);
    if q !in p.runs && st.outside && stack != st.stack {
      StackTop(stack, st.stack[|st.stack| - 1], q);
      assert st.stack == stack + [st.stack[|st.stack| - 1]];
    }
  }

  // ----- the traversal of a nested ring

  lemma WeaveGood(c: CutRing, next: seq<nat>, st: Loom, m: nat)
    requires NestedBy(c, next) && m < |next| && Good(c, next, st, m) && st == Woven(c, m)
    ensures Good(c, next, Weave(c, st, m), m + 1)
  {
    hide c.At, c.Order, c.Valid, Woven, Enter, Chain, NonCrossing;
    EnterGood(c, next, st, m);
    GoesOnLater(c, next, st, m);
    var (p, stack) := Enter(c, st, m);
    Extended(c, next, p, m);
    var (runs, f) := (p.runs + [m], FirstRun(p, m));
    WaitsOnNext(c, next, m);
    assert Meets(c, m, next[m]);
    if next[m] == f {
      assert c.Order(c.At(2 * m + 1)) == c.Order(p.start) + 1;
      ClosesGood(c, next, st, m, p, stack);
    } else {
      if c.Order(c.At(2 * m + 1)) == c.Order(p.start) + 1 {
        SameOrder(c, 2 * f, 2 * next[m]);
      }
      if c.Order(c.At(2 * m + 1)) == c.Order(c.At(2 * m + 2)) + 1 {
        SameOrder(c, 2 * m + 2, 2 * next[m]);
      }
      if next[m] == m + 1 {
        GoesOnGood(c, next, st, m, p, stack);
      } else {
        DefersGood(c, next, st, m, p, stack);
      }
    }
  }

  lemma ClosesGood(c: CutRing, next: seq<nat>, st: Loom, m: nat, p: Piece, stack: seq<Deferred>)
    requires NestedBy(c, next) && m < |next| && Good(c, next, st, m)
    requires InHand(c, next, p, m) && Below(c, next, stack, m, FirstRun(p, m)) && next[m] == FirstRun(p, m)
    ensures var outputs := st.outputs + [Finished(p.runs + [m], None)];
            Good(c, next, Loom(Piece(p.runs + [m], p.start), stack, outputs, true), m + 1)
  {
    hide c.At, c.Valid, Chain, NonCrossing, Meets;
    Extended(c, next, p, m);
  }

  /** The part in hand goes on with the next run. */
  lemma GoesOnGood(c: CutRing, next: seq<nat>, st: Loom, m: nat, p: Piece, stack: seq<Deferred>)
    requires NestedBy(c, next) && m < |next| && Good(c, next, st, m) && next[m] == m + 1
    requires InHand(c, next, p, m) && Below(c, next, stack, m, FirstRun(p, m))
    ensures Good(c, next, Loom(Piece(p.runs + [m], p.start), stack, st.outputs, false), m + 1)
  {
    hide c.At, c.Valid, Chain, Meets, NonCrossing;
    Extended(c, next, p, m);
    AllWaitLonger(c, next, stack, m, FirstRun(p, m));
  }

  /** It is put off until the run that it meets, and the next run begins a part. */
  lemma DefersGood(c: CutRing, next: seq<nat>, st: Loom, m: nat, p: Piece, stack: seq<Deferred>)
    requires NestedBy(c, next) && m < |next| && Good(c, next, st, m) && next[m] > m + 1
    requires InHand(c, next, p, m) && Below(c, next, stack, m, FirstRun(p, m))
    ensures var d := Deferred(Piece(p.runs + [m], p.start), c.At(2 * next[m]));
            Good(c, next, Loom(Piece([], c.At(2 * m + 2)), stack + [d], st.outputs, false), m + 1)
  {
    hide c.At, c.Valid, Chain, Meets, NonCrossing;
    Extended(c, next, p, m);
    AllWaitLonger(c, next, stack, m, FirstRun(p, m));
    var d := Deferred(Piece(p.runs + [m], p.start), c.At(2 * next[m]));
    PutOnTop(c, next, stack, m + 1, d);
  }

  /** Those put off before wait for a run after the one that run m meets. */
  lemma AllWaitLonger(c: CutRing, next: seq<nat>, stack: seq<Deferred>, m: nat, f: nat)
    requires NestedBy(c, next) && m < |next| && f <= m && Below(c, next, stack, m, f)
    ensures Below(c, next, stack, m, m + 1)
    ensures forall i :: 0 <= i < |stack| ==>
              && stack[i].piece.runs != [] && LastRun(stack[i].piece) < |next| && LastRun(stack[i].piece) < f
              && next[m] < next[LastRun(stack[i].piece)]
  {
    hide c.At, c.Valid, Chain, Meets, NonCrossing;
    forall i | 0 <= i < |stack|
      ensures stack[i].piece.runs != [] && LastRun(stack[i].piece) < |next|
      ensures next[m] < next[LastRun(stack[i].piece)]
    {
      StaysAbove(c, next, stack, m, f, i);
    }
  }

  lemma PutOnTop(c: CutRing, next: seq<nat>, stack: seq<Deferred>, m: nat, d: Deferred)
    requires NestedBy(c, next) && Open(c, next, d.piece, m) && d.waitingOn == c.At(2 * next[LastRun(d.piece)])
    requires m < next[LastRun(d.piece)] && StackGood(c, next, stack, m - 1) && m > 0
    requires forall i :: 0 <= i < |stack| ==>
               && LastRun(stack[i].piece) < d.piece.runs[0]
               && next[LastRun(d.piece)] < next[LastRun(stack[i].piece)]
    ensures Below(c, next, stack + [d], m, m)
  {
    hide c.At, c.Valid, Chain, Meets, NonCrossing;
    var r := stack + [d];
    forall i | 0 <= i < |r|
      ensures Open(c, next, r[i].piece, m) && r[i].waitingOn == c.At(2 * next[LastRun(r[i].piece)])
      ensures m < next[LastRun(r[i].piece)]
    {
      if i < |stack| {
        assert Open(c, next, stack[i].piece, m - 1);
      }
    }
  }

  lemma {:induction false} WovenGood(c: CutRing, next: seq<nat>, m: nat)
    requires NestedBy(c, next) && m <= |next|
    ensures Good(c, next, Woven(c, m), m)
  {
    hide Weave, NestedBy, Good;
    if m == 0 {
      StartGood(c, next);
    } else {
      WovenGood(c, next, m - 1);
      RunThere(c, next, m - 1);
      WeaveGood(c, next, Woven(c, m - 1), m - 1);
    }
  }

  lemma RunThere(c: CutRing, next: seq<nat>, m: nat)
    requires NestedBy(c, next) && m < |next|
    ensures c.Valid() && 2 * m + 1 < |c.trav|
  {
  }

  lemma StartGood(c: CutRing, next: seq<nat>)
    requires NestedBy(c, next)
    ensures c.Valid() && Good(c, next, Woven(c, 0), 0)
  {
  }

  /** What is put off waits for a run to come. */
  lemma WaitsForRun(c: CutRing, next: seq<nat>, stack: seq<Deferred>, m: nat)
    requires NestedBy(c, next) && StackGood(c, next, stack, m)
    ensures stack != [] ==> m < |next|
  {
    hide c.At, c.Valid, Chain, Meets, NonCrossing;
    if stack != [] {
      assert Open(c, next, stack[0].piece, m);
    }
  }

  /** The traversal of a nested ring finishes, with no part put off: every part that comes out consists of runs each of
      which meets the next, and the last the first, along the line. */
  lemma NestedParts(c: CutRing, next: seq<nat>)
    requires NestedBy(c, next)
    ensures c.Valid() && Finishes(c) && Parts(c) == Woven(c, |c.trav| / 2).outputs
    ensures forall f :: f in Parts(c) ==> Complete(next, f)
    ensures forall x: nat :: FinishedCount(Parts(c), x) == One(x < |c.trav| / 2)
  {
    hide Woven, FinishedCount, NonCrossing, Meets, Chain;
    var n := |next|;
    WovenGood(c, next, n);
    var last := Woven(c, n);
    WaitsForRun(c, next, last.stack, n);
    assert Popped([]) == [];
    assert last.outputs + [] == last.outputs;
    forall x: nat
      ensures FinishedCount(Parts(c), x) == One(x < n)
    {
      EveryRunUsedOnce(c, x);
    }
  }

  /** A ring with two legs across the line and the space between them left out comes out in one part. */
  lemma TwoLegs(c: CutRing)
    requires c.Valid() && |c.trav| == 4 && c.spatial == [c.At(0), c.At(3), c.At(2), c.At(1)]
    ensures NestedBy(c, [1, 0]) && Parts(c) == [Finished([0, 1], None)]
  {
    hide IndexOf, c.At;
    OrdersOfFour(c);
    assert Meets(c, 0, 1) && Meets(c, 1, 0);
    hide c.Order, c.Valid;
    var start := Piece([], c.At(0));
    assert Enter(c, Woven(c, 0), 0) == (start, []);
    assert [] + [0] == [0] && [0] + [1] == [0, 1];
    assert Woven(c, 1) == Loom(Piece([0], c.At(0)), [], [], false);
    assert Woven(c, 2) == Loom(Piece([0, 1], c.At(0)), [], [Finished([0, 1], None)], true);
    NestedParts(c, [1, 0]);
  }

  lemma OrdersOfFour(c: CutRing)
    requires c.Valid() && |c.trav| == 4 && c.spatial == [c.At(0), c.At(3), c.At(2), c.At(1)]
    ensures c.Order(c.At(0)) == 0 && c.Order(c.At(1)) == 3 && c.Order(c.At(2)) == 2 && c.Order(c.At(3)) == 1
  {
    hide c.At, c.Order, c.Valid;
    OrderFinds(c, 0); OrderFinds(c, 1); OrderFinds(c, 2); OrderFinds(c, 3);
    PlaceIsOwn(c, 0, 1); PlaceIsOwn(c, 0, 2); PlaceIsOwn(c, 0, 3);
    PlaceIsOwn(c, 1, 2); PlaceIsOwn(c, 1, 3); PlaceIsOwn(c, 2, 3);
  }
}
