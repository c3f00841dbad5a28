/** How the traversal of cropPolygonPart (CropFilter.cpp) puts parts together from the runs of a ring, whatever the
    ring: the edges of what comes out. */
module JoinedRuns {
  import opened Basics
  import opened Geometry
  import opened PolygonWalk
  import opened CropPolygon
  import opened CropComplete

  // ----- runs that meet along the line

  /** The exit of run a is the neighbour beyond the entry of run b, along the line: between them the part a belongs to
      follows the line to run b. */
  ghost predicate Meets(c: CutRing, a: nat, b: nat)
    requires c.Valid() && 2 * a + 1 < |c.trav| && 2 * b + 1 < |c.trav|
  {
    c.Order(c.At(2 * a + 1)) == c.Order(c.At(2 * b)) + 1
  }

  lemma PlaceIsOwn(c: CutRing, j: nat, k: nat)
    requires c.Valid() && j < k < |c.trav|
    ensures c.Place(j) != c.Place(k) && c.At(j) != c.At(k)
  {
    c.FirstIsFirst();
    assert c.trav[c.Place(j)] != c.trav[c.Place(k)] by {
      if c.Place(j) < c.Place(k) {
        assert c.trav[c.Place(j)] + 1 < c.trav[c.Place(k)];
      } else {
        assert c.trav[c.Place(k)] + 1 < c.trav[c.Place(j)];
      }
    }
  }

  lemma OrderFinds(c: CutRing, k: nat)
    requires c.Valid() && k < |c.trav|
    ensures |c.spatial| == |c.trav| && c.Order(c.At(k)) < |c.spatial| && c.spatial[c.Order(c.At(k))] == c.At(k)
  {
    hide IndexOf;
    c.SpatialIsTrav();
    IndexFinds(c.spatial, c.At(k));
  }

  /** Crossings are told apart by their place along the line. */
  lemma SameOrder(c: CutRing, j: nat, k: nat)
    requires c.Valid() && j < |c.trav| && k < |c.trav| && c.Order(c.At(j)) == c.Order(c.At(k))
    ensures j == k
  {
    hide c.Valid, c.At, c.Order;
    OrderFinds(c, j);
    OrderFinds(c, k);
    if j < k {
      PlaceIsOwn(c, j, k);
    } else if k < j {
      PlaceIsOwn(c, k, j);
    }
  }

  lemma SpatialIsOwn(c: CutRing, j: nat)
    requires c.Valid() && j < |c.spatial|
    ensures c.Order(c.spatial[j]) == j
  {
    c.SpatialIsTrav();
    var x := c.spatial[j];
    IndexFinds(c.spatial, x);
    var k := c.Order(x);
    if k != j {
      Twice(c.spatial, j, k);
      var i :| 0 <= i < |c.trav| && c.trav[i] == x;
      Once(c.trav, i);
    }
  }

  lemma Twice(s: seq<nat>, j: nat, k: nat)
    requires j < |s| && k < |s| && j != k && s[j] == s[k]
    ensures multiset(s)[s[j]] >= 2
  {
    var (a, b) := if j < k then (j, k) else (k, j);
    assert s == s[..a] + [s[a]] + s[a + 1..b] + [s[b]] + s[b + 1..];
  }

  lemma Once(s: seq<nat>, i: nat)
    requires Spaced(s) && i < |s|
    ensures multiset(s)[s[i]] == 1
  {
    assert s == s[..i] + [s[i]] + s[i + 1..];
    assert s[i] !in s[..i] && s[i] !in s[i + 1..];
  }

  // ----- runs in a part

  ghost predicate IsRun(c: CutRing, m: nat) {
    2 * m + 1 < |c.trav|
  }

  /** Each run meets the one after it. */
  ghost predicate Linked(c: CutRing, runs: seq<nat>)
    requires c.Valid()
  {
    && runs != [] && (forall i :: 0 <= i < |runs| ==> IsRun(c, runs[i]))
    && forall i :: 0 <= i < |runs| - 1 ==> Meets(c, runs[i], runs[i + 1])
  }

  /** The place along the line of the exit the runs end at. */
  ghost function EndOrder(c: CutRing, runs: seq<nat>): nat
    requires c.Valid() && Linked(c, runs)
  {
    c.Order(c.At(2 * runs[|runs| - 1] + 1))
  }

  ghost predicate LinkedPiece(c: CutRing, p: Piece)
    requires c.Valid()
  {
    Linked(c, p.runs) && p.start == c.At(2 * p.runs[0])
  }

  /** A part whose last run meets its first. */
  ghost predicate Whole(c: CutRing, f: Finished)
    requires c.Valid()
  {
    Linked(c, f.runs) && f.closing == None && EndOrder(c, f.runs) == c.Order(c.At(2 * f.runs[0])) + 1
  }

  /** What the traversal has put together before run m. */
  ghost predicate LoomLinked(c: CutRing, st: Loom, m: nat)
    requires c.Valid()
  {
    && (forall f :: f in st.outputs ==> Whole(c, f))
    && (forall d :: d in st.stack ==> LinkedPiece(c, d.piece) && WaitsNext(c, d))
    && (!st.outside && IsRun(c, m) ==>
          if st.piece.runs == [] then st.piece.start == c.At(2 * m)
          else LinkedPiece(c, st.piece) && EndOrder(c, st.piece.runs) == c.Order(c.At(2 * m)) + 1)
  }

  /** A part put off waits on the crossing next to its exit. */
  ghost predicate WaitsNext(c: CutRing, d: Deferred)
    requires c.Valid() && Linked(c, d.piece.runs)
  {
    d.waitingOn in c.trav && EndOrder(c, d.piece.runs) == c.Order(d.waitingOn) + 1
  }

  lemma EnterLinked(c: CutRing, st: Loom, m: nat)
    requires c.Valid() && IsRun(c, m) && LoomLinked(c, st, m)
    ensures var (p, stack) := Enter(c, st, m);
            && (if p.runs == [] then p.start == c.At(2 * m)
                else LinkedPiece(c, p) && EndOrder(c, p.runs) == c.Order(c.At(2 * m)) + 1)
            && forall d :: d in stack ==> d in st.stack
  {
    hide c.Valid, c.At, c.Order, Meets;
    if st.outside && st.stack != [] {
      assert st.stack[|st.stack| - 1] in st.stack;
    }
  }

  lemma LinkedMore(c: CutRing, runs: seq<nat>, m: nat)
    requires c.Valid() && IsRun(c, m)
    requires runs == [] || (Linked(c, runs) && EndOrder(c, runs) == c.Order(c.At(2 * m)) + 1)
    ensures Linked(c, runs + [m]) && EndOrder(c, runs + [m]) == c.Order(c.At(2 * m + 1))
  {
    hide c.Valid, c.At, c.Order;
  }

  lemma WeaveLinked(c: CutRing, st: Loom, m: nat)
    requires c.Valid() && IsRun(c, m) && LoomLinked(c, st, m)
    ensures LoomLinked(c, Weave(c, st, m), m + 1)
  {
    hide c.Valid, c.At, c.Order, Meets, Enter, EndOrder;
    EnterLinked(c, st, m);
    var (before, stack) := Enter(c, st, m);
    LinkedMore(c, before.runs, m);
    c.ExitsAreNotFirst(2 * m + 1);
    var k := c.Order(c.At(2 * m + 1)) - 1;
    SpatialIsOwn(c, k);
    IsCrossed(c, k);
    var next := Weave(c, st, m);
    forall f | f in next.outputs
      ensures Whole(c, f)
    {
      if f !in st.outputs {
        assert f == next.outputs[|next.outputs| - 1];
      }
    }
  }

  lemma IsCrossed(c: CutRing, k: nat)
    requires c.Valid() && k < |c.spatial|
    ensures c.spatial[k] in c.trav
  {
    c.SpatialIsTrav();
    assert c.spatial[k] in c.spatial;
  }

  lemma {:induction false} WovenLinked(c: CutRing, m: nat)
    requires c.Valid() && 2 * m <= |c.trav|
    ensures LoomLinked(c, Woven(c, m), m)
  {
    hide Weave, LoomLinked, c.Valid;
    if m == 0 {
      StartLinked(c);
    } else {
      WovenLinked(c, m - 1);
      WeaveLinked(c, Woven(c, m - 1), m - 1);
    }
  }

  lemma StartLinked(c: CutRing)
    requires c.Valid()
    ensures LoomLinked(c, Woven(c, 0), 0)
  {
  }

  lemma {:induction false} PoppedLinked(c: CutRing, stack: seq<Deferred>, f: Finished)
    requires c.Valid() && f in Popped(stack) && forall d :: d in stack ==> LinkedPiece(c, d.piece) && WaitsNext(c, d)
    ensures Linked(c, f.runs) && f.closing.Some? && f.closing.value in c.trav
    ensures EndOrder(c, f.runs) == c.Order(f.closing.value) + 1
  {
    hide c.Valid, c.At, c.Order, Linked;
    var top := stack[|stack| - 1];
    assert top in stack;
    if f != Finished(top.piece.runs, Some(top.waitingOn)) {
      PoppedLinked(c, stack[..|stack| - 1], f);
    }
  }

  /** Every part that comes out consists of runs each of which meets the next along the line. The last one meets the
      first; or, of a part still put off at the end, its exit is next to the crossing that closes the part. */
  lemma PartsAreLinked(c: CutRing, f: Finished)
    requires c.Valid() && f in Parts(c)
    ensures Linked(c, f.runs)
    ensures match f.closing
            case None => Meets(c, f.runs[|f.runs| - 1], f.runs[0])
            case Some(p) => p in c.trav && EndOrder(c, f.runs) == c.Order(p) + 1
  {
    hide Woven, c.Valid, c.At, c.Order;
    var last := Woven(c, |c.trav| / 2);
    c.FirstIsFirst();
    WovenLinked(c, |c.trav| / 2);
    if f !in last.outputs {
      PoppedLinked(c, last.stack, f);
    }
  }

  // ----- the edges of what comes out

  ghost predicate RingEdge(c: CutRing, p: GeoPoint, q: GeoPoint) {
    exists j: nat :: j < |c.working| && p == c.working[j] && q == c.working[Next(j, |c.working|)]
  }

  /** From the exit of a run to the crossing next to it. */
  ghost predicate LineEdge(c: CutRing, p: GeoPoint, q: GeoPoint)
    requires c.Valid()
  {
    exists a: nat, x: nat :: IsRun(c, a) && x in c.trav && OnLine(c, a, x, p, q)
  }

  ghost predicate OnLine(c: CutRing, a: nat, x: nat, p: GeoPoint, q: GeoPoint)
    requires c.Valid() && IsRun(c, a) && x in c.trav
  {
    c.Order(c.At(2 * a + 1)) == c.Order(x) + 1 && p == c.working[c.At(2 * a + 1)] && q == c.working[x]
  }

  ghost predicate EdgesGood(c: CutRing, s: Part)
    requires c.Valid()
  {
    forall i :: 0 <= i < |s| - 1 ==> RingEdge(c, s[i], s[i + 1]) || LineEdge(c, s[i], s[i + 1])
  }

  lemma EdgesJoin(c: CutRing, a: Part, b: Part)
    requires c.Valid() && EdgesGood(c, a) && EdgesGood(c, b) && a != [] && b != []
    requires RingEdge(c, a[|a| - 1], b[0]) || LineEdge(c, a[|a| - 1], b[0])
    ensures EdgesGood(c, a + b)
  {
    hide c.Valid, RingEdge, LineEdge;
    var s := a + b;
    forall i | 0 <= i < |s| - 1
      ensures RingEdge(c, s[i], s[i + 1]) || LineEdge(c, s[i], s[i + 1])
    {
      if i < |a| - 1 {
        assert s[i] == a[i] && s[i + 1] == a[i + 1];
      } else if i >= |a| {
        assert s[i] == b[i - |a|] && s[i + 1] == b[i + 1 - |a|];
      }
    }
  }

  lemma {:induction false} StretchGood(c: CutRing, a: nat, b: nat)
    requires c.Valid() && a < |c.working| && b < |c.working|
    ensures EdgesGood(c, Stretch(c.working, a, b))
    decreases Distance(a, b, |c.working|)
  {
    hide c.Valid, EdgesGood;
    OnePoint(c, c.working[b]);
    if a != b {
      var n := Next(a, |c.working|);
      StretchGood(c, n, b);
      StretchEnds(c.working, n, b);
      OnePoint(c, c.working[a]);
      EdgesJoin(c, [c.working[a]], Stretch(c.working, n, b));
    }
  }

  lemma OnePoint(c: CutRing, p: GeoPoint)
    requires c.Valid()
    ensures EdgesGood(c, [p])
  {
  }

  lemma RunGood(c: CutRing, m: nat)
    requires c.Valid() && IsRun(c, m)
    ensures var s := Run(c, m);
            && s != [] && s[0] == c.working[c.At(2 * m)] && s[|s| - 1] == c.working[c.At(2 * m + 1)] && EdgesGood(c, s)
  {
    hide EdgesGood, Stretch;
    StretchGood(c, c.At(2 * m), c.At(2 * m + 1));
    StretchEnds(c.working, c.At(2 * m), c.At(2 * m + 1));
  }

  lemma MeetsOnLine(c: CutRing, a: nat, x: nat)
    requires c.Valid() && IsRun(c, a) && x in c.trav && c.Order(c.At(2 * a + 1)) == c.Order(x) + 1
    ensures x < |c.working| && LineEdge(c, c.working[c.At(2 * a + 1)], c.working[x])
  {
    assert OnLine(c, a, x, c.working[c.At(2 * a + 1)], c.working[x]);
  }

  lemma {:induction false} LinkedGood(c: CutRing, runs: seq<nat>)
    requires c.Valid() && Linked(c, runs)
    ensures var s := Runs(c, runs);
            && s != [] && s[0] == c.working[c.At(2 * runs[0])]
            && s[|s| - 1] == c.working[c.At(2 * runs[|runs| - 1] + 1)] && EdgesGood(c, s)
  {
    hide EdgesGood, Run, c.At, c.Valid, LineEdge, RingEdge;
    var n := |runs| - 1;
    RunGood(c, runs[n]);
    if n == 0 {
      assert Runs(c, runs[..0]) == [];
      assert [] + Run(c, runs[0]) == Run(c, runs[0]);
    } else {
      LinkedGood(c, runs[..n]);
      MeetsOnLine(c, runs[n - 1], c.At(2 * runs[n]));
      EdgesJoin(c, Runs(c, runs[..n]), Run(c, runs[n]));
    }
  }

  /** Every edge of a part that comes out is an edge of the ring or goes along the line from an exit to the crossing
      next to it; so does, but for parts still put off at the end, the edge that closes it. */
  lemma PartEdges(c: CutRing, f: Finished)
    requires c.Valid() && f in Parts(c)
    ensures var s := Points(c, f);
            && s != [] && EdgesGood(c, s)
            && (f.closing == None ==> LineEdge(c, s[|s| - 1], s[0]))
            && (f.closing.Some? ==> f.closing.value < |c.working| && s[|s| - 1] == c.working[f.closing.value])
  {
    hide EdgesGood, Runs, c.At, c.Valid, Parts, LineEdge, RingEdge;
    PartsAreLinked(c, f);
    LinkedGood(c, f.runs);
    var (s, a) := (Runs(c, f.runs), f.runs[|f.runs| - 1]);
    match f.closing {
      case None =>
        assert Points(c, f) == s;
        MeetsOnLine(c, a, c.At(2 * f.runs[0]));
      case Some(p) =>
        MeetsOnLine(c, a, p);
        OnePoint(c, c.working[p]);
        EdgesJoin(c, s, [c.working[p]]);
        assert Points(c, f) == s + [c.working[p]];
    }
  }
}
