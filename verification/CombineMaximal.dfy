/** When combining lines (CombineLinesFilter.cpp) is maximal: no two parts of the output share an end. */
module CombineMaximal {
  import opened Basics
  import opened Geometry
  import opened CombineLines

  /** Segment x has been visited before list position i, or comes from a merge: n segments came from the input. */
  ghost predicate Passed(st: State, i: nat, n: nat, x: nat)
    requires i <= |st.list|
  {
    x in st.list[..i] || x >= n
  }

  /** The index holds segment x at both its ends. */
  ghost predicate Indexed(st: State, x: nat)
    requires x < |st.table|
  {
    forall p :: EndsAt(p, st.table[x].points) ==> p in st.epMap && st.epMap[p] == x
  }

  /** The index holds active segments that have been passed, and all of these at both their ends. */
  ghost predicate AllIndexed(st: State, i: nat, n: nat) {
    && Ok(st) && i <= |st.list| && n <= |st.table|
    && (forall p :: p in st.epMap && st.table[st.epMap[p]].active ==> Passed(st, i, n, st.epMap[p]))
    && (forall x :: 0 <= x < |st.table| && st.table[x].active && Passed(st, i, n, x) ==> Indexed(st, x))
  }

  /** The visit joins a segment to another at its front while the index holds a third at its back, and so takes that one
      out of the index. */
  ghost predicate Hides(st: State, i: nat)
    requires Ok(st) && i < |st.list|
  {
    var id := st.list[i];
    var seg := st.table[id];
    var front, back := Partner(st, id, seg.points[0].at), Partner(st, id, seg.points[|seg.points| - 1].at);
    seg.active && front.Some? && back.Some? && front != back
  }

  lemma JoinEnds(seg: Part, other: Part, p: Vec)
    requires seg != [] && other != []
    ensures EndsAt(p, JoinFront(seg, other)) ==> p == seg[|seg| - 1].at || EndsAt(p, other)
    ensures EndsAt(p, JoinBack(seg, other)) ==> p == seg[0].at || EndsAt(p, other)
    ensures EndsAt(seg[|seg| - 1].at, JoinFront(seg, other)) || |seg| == 1
  {
    hide JoinFront, JoinBack;
    FrontEnds(seg, other);
    BackEnds(seg, other);
  }

  /** A merge leaves every active segment but the two indexed if none of them was indexed at the far end of seg. */
  lemma MergeKeepsIndexed(st: State, i: nat, n: nat, other: nat, key: Vec, far: Vec, joined: Part)
    requires AllIndexed(st, i, n) && CanMerge(st, i, other) && st.list[i] < n && joined != []
    requires key in st.epMap && st.epMap[key] == other
    requires forall p :: EndsAt(p, joined) ==> p == far || EndsAt(p, st.table[other].points)
    requires Partner(st, st.list[i], far).None? || Partner(st, st.list[i], far).value == other
    requires Ok(Merge(st, i, st.list[i], other, key, joined))
    ensures AllIndexed(Merge(st, i, st.list[i], other, key, joined), i, n)
  {
    hide Ok, Edges, AllEdges, Outputs;
    var next := Merge(st, i, st.list[i], other, key, joined);
    assert next.list[..i] == st.list[..i];
    assert Indexed(st, other);
    assert EndsAt(joined[0].at, joined) && EndsAt(joined[|joined| - 1].at, joined);
    forall x | 0 <= x < |next.table| && next.table[x].active && Passed(next, i, n, x)
      ensures Indexed(next, x)
    {
      if x < |st.table| {
        assert Passed(st, i, n, x) && Indexed(st, x);
      }
    }
  }

  /** A segment of which another is indexed at an end comes from the input. */
  lemma NotPassed(st: State, i: nat, n: nat, p: Vec)
    requires AllIndexed(st, i, n) && i < |st.list| && st.table[st.list[i]].active
    requires EndsAt(p, st.table[st.list[i]].points) && Partner(st, st.list[i], p).Some?
    ensures st.list[i] < n
  {
    var id := st.list[i];
    assert !Indexed(st, id);
  }

  /** A visit keeps every segment passed in the index if and only if it hides none. */
  lemma VisitKeepsIndexed(st: State, i: nat, n: nat)
    requires AllIndexed(st, i, n) && i < |st.list|
    ensures var (next, k) := Visit(st, i); AllIndexed(next, k, n) <==> !Hides(st, i)
    ensures Hides(st, i) ==> st.list[i] < n
  {
    hide Edges, AllEdges, Outputs, JoinFront, JoinBack;
    VisitKeeps(st, i);
    var (next, k) := Visit(st, i);
    var id := st.list[i];
    var seg := st.table[id];
    var front, back := seg.points[0].at, seg.points[|seg.points| - 1].at;
    if !seg.active {
      assert next.list[..i] == st.list[..i];
    } else if Partner(st, id, front).Some? {
      var other := Partner(st, id, front).value;
      NotPassed(st, i, n, front);
      forall p {
        JoinEnds(seg.points, st.table[other].points, p);
      }
      if !Hides(st, i) {
        MergeKeepsIndexed(st, i, n, other, front, back, JoinFront(seg.points, st.table[other].points));
      } else {
        HidingLosesOne(st, i, n);
      }
    } else if |seg.points| > 1 && Partner(st, id, back).Some? {
      var other := Partner(st, id, back).value;
      NotPassed(st, i, n, back);
      forall p {
        JoinEnds(seg.points, st.table[other].points, p);
      }
      MergeKeepsIndexed(st, i, n, other, back, front, JoinBack(seg.points, st.table[other].points));
    } else {
      LogKeepsIndexed(st, i, n);
    }
  }

  lemma LogKeepsIndexed(st: State, i: nat, n: nat)
    requires AllIndexed(st, i, n) && i < |st.list| && st.table[st.list[i]].active
    requires var (id, seg) := (st.list[i], st.table[st.list[i]]);
             Partner(st, id, seg.points[0].at).None? && Partner(st, id, seg.points[|seg.points| - 1].at).None?
    requires Ok(Visit(st, i).0)
    ensures AllIndexed(Visit(st, i).0, i + 1, n)
  {
    hide Ok, Edges, AllEdges, Outputs;
    var (next, k) := Visit(st, i);
    assert next.list[..i + 1] == st.list[..i] + [st.list[i]];
    forall x | 0 <= x < |next.table| && next.table[x].active && Passed(next, i + 1, n, x)
      ensures Indexed(next, x)
    {
      if x != st.list[i] {
        assert Passed(st, i, n, x) && Indexed(st, x);
      }
    }
  }

  lemma HidingLosesOne(st: State, i: nat, n: nat)
    requires AllIndexed(st, i, n) && i < |st.list| && Hides(st, i)
    ensures !AllIndexed(Visit(st, i).0, i, n)
  {
    hide Edges, AllEdges, Outputs, JoinFront, JoinBack;
    var id := st.list[i];
    var seg := st.table[id];
    var (front, back) := (seg.points[0].at, seg.points[|seg.points| - 1].at);
    var (other, hidden) := (Partner(st, id, front).value, Partner(st, id, back).value);
    var next := Visit(st, i).0;
    JoinEnds(seg.points, st.table[other].points, back);
    assert next.list[..i] == st.list[..i];
    assert Passed(st, i, n, hidden);
    assert next.table[hidden] == st.table[hidden];
    assert EndsAt(back, next.table[hidden].points);
    assert back in next.epMap ==> next.epMap[back] != hidden;
  }

  /** No visit from here to the end of the run hides a segment. */
  ghost predicate NeverHides(st: State, i: nat)
    requires Ok(st) && i <= |st.list|
    decreases st.numActive, |st.list| - i
  {
    if i == |st.list| then true
    else
      VisitKeeps(st, i);
      var (next, k) := Visit(st, i);
      !Hides(st, i) && NeverHides(next, k)
  }

  lemma {:induction false} RunKeepsIndexed(st: State, i: nat, n: nat)
    requires AllIndexed(st, i, n) && NeverHides(st, i)
    ensures var last := Run(st, i); AllIndexed(last, |last.list|, n)
    decreases st.numActive, |st.list| - i
  {
    hide Hides, Visit, Ok, Indexed, Passed;
    if i < |st.list| {
      VisitKeeps(st, i);
      VisitKeepsIndexed(st, i, n);
      var (next, k) := Visit(st, i);
      RunKeepsIndexed(next, k, n);
    }
  }

  ghost predicate ShareEnd(a: Part, b: Part) {
    exists p :: EndsAt(p, a) && EndsAt(p, b)
  }

  ghost predicate NoneShareEnds(parts: seq<Part>) {
    forall j, k :: 0 <= j < k < |parts| ==> !ShareEnd(parts[j], parts[k])
  }

  lemma {:induction false} IndexedShareNone(list: seq<nat>, st: State)
    requires InTable(list, st.table) && Distinct(list)
    requires forall x :: x in list && st.table[x].active ==> Indexed(st, x)
    ensures NoneShareEnds(Outputs(list, st.table))
    ensures forall part :: part in Outputs(list, st.table) ==>
              exists x :: x in list && st.table[x].active && st.table[x].points == part
  {
    hide Indexed;
    if list != [] {
      var before, x := list[..|list| - 1], list[|list| - 1];
      IndexedShareNone(before, st);
      var outputs := Outputs(before, st.table);
      if st.table[x].active {
        forall j | 0 <= j < |outputs|
          ensures !ShareEnd(outputs[j], st.table[x].points)
        {
          assert outputs[j] in outputs;
          var y :| y in before && st.table[y].active && st.table[y].points == outputs[j];
          IndexedApart(st, x, y);
        }
      }
    }
  }

  lemma IndexedApart(st: State, x: nat, y: nat)
    requires x < |st.table| && y < |st.table| && x != y && Indexed(st, x) && Indexed(st, y)
    ensures !ShareEnd(st.table[y].points, st.table[x].points)
  {
  }

  /** Combining is maximal wherever no visit hides a segment: no two output parts share an end. */
  lemma CombineIsMaximal(parts: seq<Part>)
    requires var st := Init(NonEmpty(parts)); Ok(st) && NeverHides(st, 0)
    ensures NoneShareEnds(Combine(parts))
  {
    hide Edges, AllEdges, Outputs, Run, NeverHides;
    var st := Init(NonEmpty(parts));
    InitIsOk(NonEmpty(parts));
    RunKeepsIndexed(st, 0, |st.table|);
    RunKeeps(st, 0);
    var last := Run(st, 0);
    assert last.list[..|last.list|] == last.list;
    IndexedShareNone(last.list, last);
  }

  /** The positions of the ends of the parts. */
  ghost function EndPositions(parts: seq<Part>): set<Vec> {
    if parts == [] then {}
    else
      var last := parts[|parts| - 1];
      EndPositions(parts[..|parts| - 1]) + if last != [] then {last[0].at, last[|last| - 1].at} else {}
  }

  /** The part goes from one of the positions to another. */
  ghost predicate Bridges(part: Part, positions: set<Vec>) {
    part != [] && part[0].at != part[|part| - 1].at && part[0].at in positions && part[|part| - 1].at in positions
  }

  /** No part goes between two ends of earlier parts. */
  ghost predicate NoneBridges(parts: seq<Part>) {
    forall k :: 0 <= k < |parts| ==> !Bridges(parts[k], EndPositions(parts[..k]))
  }

  lemma {:induction false} NonEmptyBridges(parts: seq<Part>)
    requires NoneBridges(parts)
    ensures NoneBridges(NonEmpty(parts)) && EndPositions(NonEmpty(parts)) == EndPositions(parts)
  {
    hide Bridges, NoneBridges;
    if parts != [] {
      var rest, last := parts[..|parts| - 1], parts[|parts| - 1];
      BridgesPrefix(parts);
      NonEmptyBridges(rest);
      if last != [] {
        BridgesAppend(NonEmpty(rest), last);
      } else {
        assert NonEmpty(parts) == NonEmpty(rest);
      }
    }
  }

  lemma BridgesPrefix(parts: seq<Part>)
    requires NoneBridges(parts) && parts != []
    ensures NoneBridges(parts[..|parts| - 1]) && !Bridges(parts[|parts| - 1], EndPositions(parts[..|parts| - 1]))
  {
    hide Bridges, EndPositions;
    var rest := parts[..|parts| - 1];
    assert forall k :: 0 <= k < |rest| ==> rest[..k] == parts[..k];
  }

  lemma BridgesAppend(parts: seq<Part>, last: Part)
    requires NoneBridges(parts) && !Bridges(last, EndPositions(parts)) && last != []
    ensures NoneBridges(parts + [last])
    ensures EndPositions(parts + [last]) == EndPositions(parts) + {last[0].at, last[|last| - 1].at}
  {
    hide Bridges;
    var all := parts + [last];
    assert all[..|parts|] == parts;
    forall k | 0 <= k < |all|
      ensures !Bridges(all[k], EndPositions(all[..k]))
    {
      assert k < |parts| ==> all[..k] == parts[..k];
    }
  }

  /** At list position i the parts from m on are still to be visited, in order and before all merged ones, and the index
      holds ends of the parts before them. */
  ghost predicate InOrder(st: State, i: nat, parts: seq<Part>, m: nat) {
    var n := |parts|;
    && AllIndexed(st, i, n) && m <= n && i + n - m <= |st.list|
    && (forall k :: i <= k < i + n - m ==> st.list[k] == m + k - i)
    && (forall k :: i + n - m <= k < |st.list| ==> st.list[k] >= n)
    && (forall x :: 0 <= x < n ==> st.table[x].points == parts[x])
    && (forall p :: p in st.epMap ==> p in EndPositions(parts[..m]))
  }

  lemma BridgesIfHides(st: State, i: nat, parts: seq<Part>, m: nat)
    requires InOrder(st, i, parts, m) && i < |st.list| && Hides(st, i)
    ensures m < |parts| && Bridges(parts[m], EndPositions(parts[..m]))
  {
    VisitKeepsIndexed(st, i, |parts|);
  }

  lemma EndPositionsNext(parts: seq<Part>, m: nat)
    requires m < |parts|
    ensures EndPositions(parts[..m]) <= EndPositions(parts[..m + 1])
    ensures forall p :: EndsAt(p, parts[m]) ==> p in EndPositions(parts[..m + 1])
  {
    assert parts[..m + 1][..m] == parts[..m];
  }

  /** A visit that hides nothing goes on in order. */
  lemma VisitInOrder(st: State, i: nat, parts: seq<Part>, m: nat)
    requires InOrder(st, i, parts, m) && i < |st.list| && !Hides(st, i)
    ensures var (next, k) := Visit(st, i); InOrder(next, k, parts, if m < |parts| then m + 1 else m)
  {
    hide Visit, AllIndexed, EndPositions, Bridges, EndsAt;
    assert AllIndexed(st, i, |parts|);
    OkIfIndexed(st, i, |parts|);
    var (next, k) := Visit(st, i);
    VisitKeepsIndexed(st, i, |parts|);
    VisitIndexes(st, i, |parts|);
    VisitLists(st, i);
    if m < |parts| {
      EndPositionsNext(parts, m);
    }
  }

  lemma OkIfIndexed(st: State, i: nat, n: nat)
    requires AllIndexed(st, i, n)
    ensures Ok(st) && i <= |st.list| && n <= |st.table|
  {
  }

  /** A visit leaves the list as it is, or takes the segment visited off it, and may add a merged one. */
  lemma VisitLists(st: State, i: nat)
    requires Ok(st) && i < |st.list|
    ensures var (next, k) := Visit(st, i);
            && (next.list, k) in {(st.list, i + 1), (Erase(st.list, i), i), (Erase(st.list + [|st.table|], i), i)}
  {
    hide JoinFront, JoinBack;
  }

  /** What a visit adds to the index are ends of the segment visited, or positions that are there. */
  lemma VisitIndexes(st: State, i: nat, n: nat)
    requires AllIndexed(st, i, n) && i < |st.list|
    ensures forall p :: p in Visit(st, i).0.epMap ==> p in st.epMap || EndsAt(p, st.table[st.list[i]].points)
    ensures st.list[i] >= n ==> Visit(st, i).0.epMap.Keys <= st.epMap.Keys
    ensures forall x :: 0 <= x < |st.table| ==> Visit(st, i).0.table[x].points == st.table[x].points
  {
    hide Edges, AllEdges, Outputs, JoinFront, JoinBack;
    var id := st.list[i];
    var seg := st.table[id];
    var front, back := seg.points[0].at, seg.points[|seg.points| - 1].at;
    if seg.active {
      if Partner(st, id, front).Some? {
        var other := Partner(st, id, front).value;
        var joined := JoinFront(seg.points, st.table[other].points);
        assert Indexed(st, other);
        JoinEnds(seg.points, st.table[other].points, joined[0].at);
        JoinEnds(seg.points, st.table[other].points, joined[|joined| - 1].at);
      } else if |seg.points| > 1 && Partner(st, id, back).Some? {
        var other := Partner(st, id, back).value;
        var joined := JoinBack(seg.points, st.table[other].points);
        assert Indexed(st, other);
        JoinEnds(seg.points, st.table[other].points, joined[0].at);
        JoinEnds(seg.points, st.table[other].points, joined[|joined| - 1].at);
      }
    }
  }

  lemma {:induction false} RunInOrder(st: State, i: nat, parts: seq<Part>, m: nat)
    requires InOrder(st, i, parts, m) && NoneBridges(parts)
    ensures NeverHides(st, i)
    decreases st.numActive, |st.list| - i
  {
    hide Hides, Visit, Ok, Indexed, Passed, Bridges, EndPositions;
    if i < |st.list| {
      VisitKeeps(st, i);
      if Hides(st, i) {
        BridgesIfHides(st, i, parts, m);
      }
      VisitInOrder(st, i, parts, m);
      var (next, k) := Visit(st, i);
      RunInOrder(next, k, parts, if m < |parts| then m + 1 else m);
    }
  }

  lemma InitInOrder(parts: seq<Part>)
    requires Ok(Init(parts))
    ensures InOrder(Init(parts), 0, parts, 0)
  {
    hide Ok, Edges, AllEdges, Outputs, Run, EndPositions;
  }

  /** It is enough that no part goes between two ends of earlier parts. */
  lemma MaximalUnlessBridged(parts: seq<Part>)
    requires NoneBridges(parts)
    ensures NoneShareEnds(Combine(parts))
  {
    hide Edges, AllEdges, Outputs, Run, NeverHides, Combine, InOrder, NoneBridges, NoneShareEnds, Ok, Init;
    InitIsOk(NonEmpty(parts));
    NonEmptyBridges(parts);
    InitInOrder(NonEmpty(parts));
    RunInOrder(Init(NonEmpty(parts)), 0, NonEmpty(parts), 0);
    CombineIsMaximal(parts);
  }

  // Three parts a-b, c-d, c-b in a row, and more after them: the states the worklist passes through. Visiting c-b joins
  // it to c-d and hides a-b.

  function Row(a: GeoPoint, b: GeoPoint, c: GeoPoint, d: GeoPoint): seq<Part> {
    [[a, b], [c, d], [c, b]]
  }

  ghost predicate Differ(a: GeoPoint, b: GeoPoint, c: GeoPoint, d: GeoPoint) {
    && a.at != b.at && a.at != c.at && a.at != d.at
    && b.at != c.at && b.at != d.at && c.at != d.at
  }

  lemma RunStep(st: State, i: nat, next: State, k: nat)
    requires Ok(st) && i < |st.list| && Visit(st, i) == (next, k)
    ensures Ok(next) && k <= |next.list| && Run(st, i) == Run(next, k)
    ensures NeverHides(st, i) <==> !Hides(st, i) && NeverHides(next, k)
  {
    hide Visit, Hides;
    VisitKeeps(st, i);
  }

  /** The segments of the row are a-b, c-d and c-b, the index is given, and all are on the list. */
  ghost predicate IsRow(st: State, a: GeoPoint, b: GeoPoint, c: GeoPoint, d: GeoPoint, index: map<Vec, nat>) {
    && |st.list| >= 3 && st.list[0] == 0 && st.list[1] == 1 && st.list[2] == 2 && |st.table| >= 3 && st.epMap == index
    && st.table[0] == Seg([a, b], true) && st.table[1] == Seg([c, d], true) && st.table[2] == Seg([c, b], true)
  }

  /** The row after the two first parts have been indexed and the third joined to the second. */
  function RowJoined(st: State, a: GeoPoint, b: GeoPoint, c: GeoPoint, d: GeoPoint): State
    requires |st.list| >= 3 && |st.table| >= 3
  {
    var n := |st.table|;
    State(st.list[..2] + st.list[3..] + [n],
          st.table[1 := Seg([c, d], false)][2 := Seg([c, b], false)] + [Seg([b, c, d], true)],
          map[a.at := 0, b.at := n, d.at := n], st.numActive - 1)
  }

  lemma RowVisits(st: State, a: GeoPoint, b: GeoPoint, c: GeoPoint, d: GeoPoint)
    requires Ok(st) && IsRow(st, a, b, c, d, map[]) && Differ(a, b, c, d)
    ensures var joined := RowJoined(st, a, b, c, d);
            Ok(joined) && Run(st, 0) == Run(joined, 2) && !NeverHides(st, 0)
  {
    hide Edges, AllEdges, Outputs, Ok, Merge, Visit, Run, NeverHides, Hides;
    VisitLogs(st, 0);
    var s1 := st.(epMap := map[][a.at := 0][b.at := 0]);
    RunStep(st, 0, s1, 1);
    VisitLogs(s1, 1);
    var s2 := s1.(epMap := map[][a.at := 0][b.at := 0][c.at := 1][d.at := 1]);
    RunStep(s1, 1, s2, 2);
    RowMerges(s2, a, b, c, d);
    RunStep(s2, 2, RowJoined(st, a, b, c, d), 2);
  }

  lemma RowMerges(st: State, a: GeoPoint, b: GeoPoint, c: GeoPoint, d: GeoPoint)
    requires Ok(st) && IsRow(st, a, b, c, d, map[][a.at := 0][b.at := 0][c.at := 1][d.at := 1]) && Differ(a, b, c, d)
    ensures Visit(st, 2) == (RowJoined(st, a, b, c, d), 2) && Hides(st, 2)
  {
    hide Ok, Edges, AllEdges, Outputs, Merge, RowJoined;
    assert JoinFront([c, b], [c, d]) == [b, c, d] by {
      assert Reversed([c, b][1..]) == [b];
    }
    assert Partner(st, 2, c.at) == Some(1) && Partner(st, 2, b.at) == Some(0);
    RowMerge(st, a, b, c, d);
  }

  lemma RowMerge(st: State, a: GeoPoint, b: GeoPoint, c: GeoPoint, d: GeoPoint)
    requires IsRow(st, a, b, c, d, map[][a.at := 0][b.at := 0][c.at := 1][d.at := 1]) && Differ(a, b, c, d)
    ensures Merge(st, 2, 2, 1, c.at, [b, c, d]) == RowJoined(st, a, b, c, d)
  {
    var n := |st.table|;
    assert Erase(st.list + [n], 2) == st.list[..2] + st.list[3..] + [n];
    assert (st.epMap - {c.at})[b.at := n][d.at := n] == map[a.at := 0, b.at := n, d.at := n];
  }

  /** Combining is not maximal for all parts: these come out as two that still share b. */
  lemma SharedEndpointLeft(a: GeoPoint, b: GeoPoint, c: GeoPoint, d: GeoPoint)
    requires Differ(a, b, c, d)
    ensures Combine(Row(a, b, c, d)) == [[a, b], [b, c, d]] && !NoneShareEnds(Combine(Row(a, b, c, d)))
  {
    hide Edges, AllEdges, Outputs, NonEmpty, Ok, Visit, Run, Hides, NeverHides, NoneShareEnds;
    var (parts, st) := (Row(a, b, c, d), Init(Row(a, b, c, d)));
    KeepsAll(parts);
    InitIsOk(parts);
    RowVisits(st, a, b, c, d);
    var s3 := RowJoined(st, a, b, c, d);
    VisitLogs(s3, 2);
    assert s3.epMap[b.at := 3][d.at := 3] == s3.epMap;
    RunStep(s3, 2, s3, 3);
    RunEnds(s3);
    assert s3.list == [0, 1, 3];
    RowOutputs(s3.table, a, b, [b, c, d]);
    SharesEnd([[a, b], [b, c, d]], b.at);
  }

  lemma RunEnds(st: State)
    requires Ok(st)
    ensures Run(st, |st.list|) == st
  {
  }

  lemma SharesEnd(parts: seq<Part>, p: Vec)
    requires |parts| == 2 && EndsAt(p, parts[0]) && EndsAt(p, parts[1])
    ensures !NoneShareEnds(parts)
  {
    assert ShareEnd(parts[0], parts[1]);
  }

  lemma RowOutputs(table: seq<Seg>, a: GeoPoint, b: GeoPoint, last: Part)
    requires |table| >= 3 && table[0] == Seg([a, b], true) && !table[1].active && table[|table| - 1] == Seg(last, true)
    ensures Outputs([0, 1, |table| - 1], table) == [[a, b], last]
  {
    hide Outputs;
    var n := |table| - 1;
    OutputsOfOne(0, table);
    OutputsOfOne(1, table);
    OutputsOfOne(n, table);
    OutputsConcat([0], [1], table);
    OutputsConcat([0, 1], [n], table);
    assert [0] + [1] == [0, 1] && [0, 1] + [n] == [0, 1, n];
  }

  /** That a visit hides a segment does not mean that ends are shared: a later part can take the shared end up. */
  lemma HiddenEndTakenUp(a: GeoPoint, b: GeoPoint, c: GeoPoint, d: GeoPoint, e: GeoPoint)
    requires Differ(a, b, c, d) && Differ(a, b, e, d)
    ensures var parts := Row(a, b, c, d) + [[b, e]];
            && Combine(parts) == [[a, b], [e, b, c, d]] && NoneShareEnds(Combine(parts))
            && Ok(Init(NonEmpty(parts))) && !NeverHides(Init(NonEmpty(parts)), 0)
  {
    hide Edges, AllEdges, Outputs, NonEmpty, Ok, Visit, Run, Hides, NeverHides, Merge;
    var parts := Row(a, b, c, d) + [[b, e]];
    var st := Init(parts);
    KeepsAll(parts);
    InitIsOk(parts);
    RowVisits(st, a, b, c, d);
    var s3 := RowJoined(st, a, b, c, d);
    assert s3.list == [0, 1, 3, 4];
    TakenUp(s3, a, b, c, d, e);
    var s4 := Merge(s3, 2, 3, 4, b.at, [e, b, c, d]);
    RunStep(s3, 2, s4, 2);
    TakenUpState(s3, a, b, c, d, e);
    var s5 := s4.(list := [0, 1, 5]);
    VisitDrops(s4, 2);
    assert Erase(s4.list, 2) == [0, 1, 5];
    RunStep(s4, 2, s5, 2);
    VisitLogs(s5, 2);
    assert s5.epMap[e.at := 5][d.at := 5] == s5.epMap;
    RunStep(s5, 2, s5, 3);
    RunEnds(s5);
    RowOutputs(s5.table, a, b, [e, b, c, d]);
    NoEndShared([a, b], [e, b, c, d]);
  }

  lemma VisitDrops(st: State, i: nat)
    requires Ok(st) && i < |st.list| && !st.table[st.list[i]].active
    ensures Visit(st, i) == (st.(list := Erase(st.list, i)), i)
  {
    hide Ok;
  }

  lemma NoEndShared(x: Part, y: Part)
    requires !ShareEnd(x, y)
    ensures NoneShareEnds([x, y])
  {
  }

  lemma TakenUp(st: State, a: GeoPoint, b: GeoPoint, c: GeoPoint, d: GeoPoint, e: GeoPoint)
    requires Ok(st) && st.list == [0, 1, 3, 4] && |st.table| == 5 && st.table[3] == Seg([b, e], true)
    requires st.table[4] == Seg([b, c, d], true) && st.epMap == map[a.at := 0, b.at := 4, d.at := 4]
    ensures Visit(st, 2) == (Merge(st, 2, 3, 4, b.at, [e, b, c, d]), 2)
  {
    hide Ok, Edges, AllEdges, Outputs, Merge;
    assert Partner(st, 3, b.at) == Some(4);
    assert Reversed([b, e][1..]) == [e];
    assert JoinFront([b, e], [b, c, d]) == [e, b, c, d];
  }

  lemma TakenUpState(st: State, a: GeoPoint, b: GeoPoint, c: GeoPoint, d: GeoPoint, e: GeoPoint)
    requires st.list == [0, 1, 3, 4] && |st.table| == 5 && Differ(a, b, e, d)
    requires st.epMap == map[a.at := 0, b.at := 4, d.at := 4]
    ensures var next := Merge(st, 2, 3, 4, b.at, [e, b, c, d]);
            && next.list == [0, 1, 4, 5] && next.epMap == map[a.at := 0, e.at := 5, d.at := 5]
            && |next.table| == 6 && next.table[..3] == st.table[..3] && !next.table[3].active && !next.table[4].active
            && next.table[5] == Seg([e, b, c, d], true)
  {
  }
}
