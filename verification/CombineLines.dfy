/** CombineLinesFilter.cpp: a worklist that joins line parts at shared endpoints. Its index orders points by position
    alone, the order of the vector class they derive from, while its joins compare them by operator ==, which looks at
    the dimension too. */
module CombineLines {
  import opened Basics
  import opened Geometry

  // ----- the edges of a part

  /** An undirected edge, as the set of its ends. */
  type Edge = set<GeoPoint>

  ghost function EdgeOf(a: GeoPoint, b: GeoPoint): Edge {
    {a, b}
  }

  lemma EdgeSymmetric(a: GeoPoint, b: GeoPoint)
    ensures EdgeOf(a, b) == EdgeOf(b, a)
  {
  }

  ghost function Edges(part: Part): multiset<Edge> {
    if |part| < 2 then multiset{}
    else multiset{EdgeOf(part[0], part[1])} + Edges(part[1..])
  }

  ghost function AllEdges(parts: seq<Part>): multiset<Edge> {
    if parts == [] then multiset{} else AllEdges(parts[..|parts| - 1]) + Edges(parts[|parts| - 1])
  }

  /** Two chains that meet in a point, written once. */
  lemma EdgesOfJoin(a: Part, b: Part)
    requires a != [] && b != [] && a[|a| - 1] == b[0]
    ensures Edges(a + b[1..]) == Edges(a) + Edges(b)
  {
    EdgesOfAppend(a, b[1..]);
    assert [a[|a| - 1]] + b[1..] == b;
  }

  lemma {:induction false} EdgesOfAppend(a: Part, tail: Part)
    requires a != []
    ensures Edges(a + tail) == Edges(a) + Edges([a[|a| - 1]] + tail)
  {
    if |a| == 1 {
      assert a == [a[0]];
      assert Edges(a) == multiset{};
    } else {
      var r, last := a[1..], [a[|a| - 1]];
      EdgesOfAppend(r, tail);
      StepOfAppend(a, tail);
      MultisetAssoc(multiset{EdgeOf(a[0], a[1])}, Edges(r), Edges(last + tail));
    }
  }

  lemma StepOfAppend(a: Part, tail: Part)
    requires |a| >= 2
    ensures Edges(a) == multiset{EdgeOf(a[0], a[1])} + Edges(a[1..])
    ensures Edges(a + tail) == multiset{EdgeOf(a[0], a[1])} + Edges(a[1..] + tail)
  {
    hide EdgeOf;
    assert (a + tail)[1..] == a[1..] + tail;
  }

  lemma MultisetAssoc<T>(x: multiset<T>, y: multiset<T>, z: multiset<T>)
    ensures x + y + z == x + (y + z)
  {
  }

  lemma EdgesOfPair(a: GeoPoint, b: GeoPoint)
    ensures Edges([a, b]) == multiset{EdgeOf(a, b)}
  {
    assert Edges([a, b][1..]) == multiset{};
  }

  lemma EdgesOfFirst(part: Part)
    requires |part| >= 2
    ensures Edges(part) == Edges(part[1..]) + multiset{EdgeOf(part[1], part[0])}
  {
    EdgeSymmetric(part[0], part[1]);
  }

  lemma {:induction false} EdgesOfReversed(part: Part)
    ensures Edges(Reversed(part)) == Edges(part)
  {
    hide EdgeOf;
    if |part| == 1 {
      assert Reversed(part) == part;
    } else if |part| >= 2 {
      EdgesOfReversed(part[1..]);
      var r, two := Reversed(part[1..]), [part[1], part[0]];
      assert Reversed(part) == r + two[1..];
      EdgesOfJoin(r, two);
      EdgesOfPair(part[1], part[0]);
      EdgesOfFirst(part);
    }
  }

  /** seg joined to other at seg's front point, which lies where an end of other does. */
  function JoinFront(seg: Part, other: Part): (r: Part)
    requires seg != [] && other != []
    ensures r != []
  {
    if seg[0] == other[0] then Reversed(seg[1..]) + other
    else other + seg[1..]
  }

  /** seg joined to other at seg's back point, which lies where an end of other does. */
  function JoinBack(seg: Part, other: Part): (r: Part)
    requires seg != [] && other != []
    ensures r != []
  {
    if seg[|seg| - 1] == other[0] then seg[..|seg| - 1] + other
    else other + Reversed(seg[..|seg| - 1])
  }

  predicate IsEnd(p: GeoPoint, part: Part) {
    part != [] && (p == part[0] || p == part[|part| - 1])
  }

  /** An end of the part lies at p, in whatever dimension. */
  predicate EndsAt(p: Vec, part: Part) {
    part != [] && (p == part[0].at || p == part[|part| - 1].at)
  }

  /** Joining other and then seg, without its first point, keeps the edges exactly when the two meet in a point, or
      seg has no edge. */
  lemma EdgesOfLink(other: Part, seg: Part)
    requires seg != [] && other != []
    ensures Edges(other + seg[1..]) == Edges(other) + Edges(seg) <==> |seg| == 1 || seg[0] == other[|other| - 1]
  {
    if |seg| == 1 {
      assert other + seg[1..] == other;
    } else {
      hide Edges, EdgeOf;
      var (last, e, f) := (other[|other| - 1], EdgeOf(other[|other| - 1], seg[1]), EdgeOf(seg[0], seg[1]));
      EdgesOfAppend(other, seg[1..]);
      EdgesOfFront(last, seg[1..]);
      EdgesOfFront(seg[0], seg[1..]);
      assert [seg[0]] + seg[1..] == seg;
      Exchange(Edges(other), Edges(seg[1..]), e, f);
      SameEdge(last, seg[0], seg[1]);
    }
  }

  lemma EdgesOfFront(a: GeoPoint, rest: Part)
    requires rest != []
    ensures Edges([a] + rest) == multiset{EdgeOf(a, rest[0])} + Edges(rest)
  {
    assert ([a] + rest)[1..] == rest;
  }

  lemma SameEdge(x: GeoPoint, q: GeoPoint, y: GeoPoint)
    ensures EdgeOf(x, y) == EdgeOf(q, y) <==> x == q
  {
    assert x in EdgeOf(x, y) && q in EdgeOf(q, y);
  }

  lemma Exchange<T>(a: multiset<T>, b: multiset<T>, e: T, f: T)
    ensures a + (multiset{e} + b) == a + (multiset{f} + b) <==> e == f
  {
    if e != f {
      assert (a + (multiset{e} + b))[e] == a[e] + 1 + b[e];
      assert (a + (multiset{f} + b))[e] == a[e] + b[e];
    }
  }

  /** Joining at the front keeps the undirected edges of both segments exactly when seg's front is an end of other, or
      seg has no edge. */
  lemma JoinFrontKeepsEdges(seg: Part, other: Part)
    requires seg != [] && other != []
    ensures Edges(JoinFront(seg, other)) == Edges(seg) + Edges(other) <==> |seg| == 1 || IsEnd(seg[0], other)
  {
    hide Edges;
    if seg[0] == other[0] {
      EdgesOfReversed(seg);
      EdgesOfJoin(Reversed(seg), other);
      assert Reversed(seg) + other[1..] == Reversed(seg[1..]) + other;
    } else {
      EdgesOfLink(other, seg);
    }
  }

  lemma JoinBackKeepsEdges(seg: Part, other: Part)
    requires seg != [] && other != []
    ensures Edges(JoinBack(seg, other)) == Edges(seg) + Edges(other) <==>
            |seg| == 1 || IsEnd(seg[|seg| - 1], other)
  {
    hide Edges;
    if seg[|seg| - 1] == other[0] {
      EdgesOfJoin(seg, other);
      assert seg + other[1..] == seg[..|seg| - 1] + other;
    } else {
      EdgesOfReversed(seg);
      EdgesOfLink(other, Reversed(seg));
      assert Reversed(seg)[1..] == Reversed(seg[..|seg| - 1]);
    }
  }

  /** A join keeps the other segment as it runs, at the front or at the end of the result. */
  lemma JoinsKeepOther(seg: Part, other: Part)
    requires seg != [] && other != []
    ensures var (f, b, n) := (JoinFront(seg, other), JoinBack(seg, other), |other|);
            && |f| == |seg| + n - 1 && (f[..n] == other || f[|f| - n..] == other)
            && |b| == |seg| + n - 1 && (b[..n] == other || b[|b| - n..] == other)
  {
  }

  /** Where the two run head to tail the join keeps seg as it runs, too. */
  lemma JoinsKeepDirection(seg: Part, other: Part)
    requires seg != [] && other != []
    ensures seg[0] == other[|other| - 1] && seg[0] != other[0] ==> JoinFront(seg, other)[|other| - 1..] == seg
    ensures seg[|seg| - 1] == other[0] ==> JoinBack(seg, other)[..|seg|] == seg
  {
  }

  // ----- one visit of the worklist

  /** What the filter knows of a segment. */
  datatype Seg = Seg(points: Part, active: bool)

  /** The worklist of segment ids, the segments by id, and the index of endpoints. */
  datatype State = State(list: seq<nat>, table: seq<Seg>, epMap: map<Vec, nat>, numActive: int)

  ghost predicate InTable(list: seq<nat>, table: seq<Seg>) {
    forall k :: 0 <= k < |list| ==> list[k] < |table|
  }

  /** The points of the active segments, in list order: what the filter puts out. */
  function Outputs(list: seq<nat>, table: seq<Seg>): seq<Part>
    requires InTable(list, table)
  {
    if list == [] then []
    else
      var seg := table[list[|list| - 1]];
      Outputs(list[..|list| - 1], table) + if seg.active then [seg.points] else []
  }

  /** The k-th segment of the list, if active, comes out where those active before it end. */
  lemma {:induction false} OutputAt(list: seq<nat>, table: seq<Seg>, k: nat)
    requires InTable(list, table) && k < |list| && table[list[k]].active
    ensures InTable(list[..k], table)
    ensures var at := |Outputs(list[..k], table)|;
            at < |Outputs(list, table)| && Outputs(list, table)[at] == table[list[k]].points
  {
    var n := |list| - 1;
    if k < n {
      OutputAt(list[..n], table, k);
      assert list[..n][..k] == list[..k];
    }
  }

  /** The invariant of the worklist. Every index entry, stale or not, is keyed by the position of an end
      of its segment; every active segment is still in the list. */
  ghost predicate Ok(st: State) {
    && InTable(st.list, st.table) && Distinct(st.list)
    && (forall x :: 0 <= x < |st.table| ==> st.table[x].points != [])
    && (forall x :: 0 <= x < |st.table| && st.table[x].active ==> x in st.list)
    && (forall p :: p in st.epMap ==> st.epMap[p] < |st.table| && EndsAt(p, st.table[st.epMap[p]].points))
    && st.numActive == |Outputs(st.list, st.table)|
  }

  function Erase(list: seq<nat>, i: nat): seq<nat>
    requires i < |list|
  {
    list[..i] + list[i + 1..]
  }

  /** The other active segment the index holds at a position. */
  function Partner(st: State, id: nat, p: Vec): Option<nat>
    requires forall q :: q in st.epMap ==> st.epMap[q] < |st.table|
  {
    if p in st.epMap && st.table[st.epMap[p]].active && st.epMap[p] != id then Some(st.epMap[p]) else None
  }

  function Merge(st: State, i: nat, id: nat, other: nat, key: Vec, joined: Part): State
    requires i < |st.list| && id < |st.table| && other < |st.table| && joined != []
  {
    var newId := |st.table|;
    State(
      Erase(st.list + [newId], i),
      st.table[id := st.table[id].(active := false)][other := st.table[other].(active := false)] + [Seg(joined, true)],
      (st.epMap - {key})[joined[0].at := newId][joined[|joined| - 1].at := newId],
      st.numActive - 1)
  }

  /** The effect of visiting list position i, and the position visited next. */
  function Visit(st: State, i: nat): (State, nat)
    requires Ok(st) && i < |st.list|
  {
    var id := st.list[i];
    var seg := st.table[id];
    var front, back := seg.points[0].at, seg.points[|seg.points| - 1].at;
    if !seg.active then (st.(list := Erase(st.list, i)), i)
    else if Partner(st, id, front).Some? then
      var other := Partner(st, id, front).value;
      (Merge(st, i, id, other, front, JoinFront(seg.points, st.table[other].points)), i)
    else if |seg.points| > 1 && Partner(st, id, back).Some? then
      var other := Partner(st, id, back).value;
      (Merge(st, i, id, other, back, JoinBack(seg.points, st.table[other].points)), i)
    else
      var m := st.epMap[front := id];
      (st.(epMap := if front != back then m[back := id] else m), i + 1)
  }

  /** A segment indexed nowhere else is indexed at both its ends. */
  lemma VisitLogs(st: State, i: nat)
    requires Ok(st) && i < |st.list| && st.table[st.list[i]].active
    requires var (id, points) := (st.list[i], st.table[st.list[i]].points);
             Partner(st, id, points[0].at).None? && Partner(st, id, points[|points| - 1].at).None?
    ensures var (id, points) := (st.list[i], st.table[st.list[i]].points);
            Visit(st, i) == (st.(epMap := st.epMap[points[0].at := id][points[|points| - 1].at := id]), i + 1)
  {
    hide Edges, AllEdges, Outputs;
    var (id, points) := (st.list[i], st.table[st.list[i]].points);
    assert points[0].at == points[|points| - 1].at ==>
        st.epMap[points[0].at := id][points[|points| - 1].at := id] == st.epMap[points[0].at := id];
  }

  // ----- what a visit keeps

  lemma {:induction false} AllEdgesConcat(a: seq<Part>, b: seq<Part>)
    ensures AllEdges(a + b) == AllEdges(a) + AllEdges(b)
  {
    hide Edges;
    if b == [] {
      assert a + b == a;
    } else {
      var c, last := b[..|b| - 1], b[|b| - 1];
      AllEdgesConcat(a, c);
      assert (a + b)[..|a + b| - 1] == a + c;
      MultisetAssoc(AllEdges(a), AllEdges(c), Edges(last));
    }
  }

  lemma {:induction false} OutputsFrame(list: seq<nat>, t: seq<Seg>, u: seq<Seg>)
    requires InTable(list, t) && InTable(list, u)
    requires forall k :: 0 <= k < |list| ==> t[list[k]] == u[list[k]]
    ensures Outputs(list, t) == Outputs(list, u)
  {
    if list != [] {
      OutputsFrame(list[..|list| - 1], t, u);
    }
  }

  lemma {:induction false} OutputsConcat(a: seq<nat>, b: seq<nat>, t: seq<Seg>)
    requires InTable(a, t) && InTable(b, t)
    ensures InTable(a + b, t) && Outputs(a + b, t) == Outputs(a, t) + Outputs(b, t)
  {
    if b == [] {
      assert a + b == a;
    } else {
      OutputsConcat(a, b[..|b| - 1], t);
      assert (a + b)[..|a + b| - 1] == a + b[..|b| - 1];
    }
  }

  function Deactivate(t: seq<Seg>, id: nat): (u: seq<Seg>)
    requires id < |t|
    ensures |u| == |t|
  {
    t[id := t[id].(active := false)]
  }

  lemma OutputsSplit(list: seq<nat>, t: seq<Seg>, k: nat)
    requires InTable(list, t) && k < |list|
    ensures InTable(list[..k], t) && InTable(list[k + 1..], t)
    ensures Outputs(list, t) ==
            Outputs(list[..k], t) + (if t[list[k]].active then [t[list[k]].points] else []) + Outputs(list[k + 1..], t)
  {
    var l1, l2, id := list[..k], list[k + 1..], list[k];
    assert list == l1 + [id] + l2;
    OutputsOfOne(id, t);
    hide Outputs;
    OutputsConcat(l1 + [id], l2, t);
    OutputsConcat(l1, [id], t);
  }

  /** Deactivating a segment of the list takes its points, and no others, out of the output. */
  lemma OutputsDeactivate(list: seq<nat>, t: seq<Seg>, k: nat)
    requires InTable(list, t) && Distinct(list) && k < |list| && t[list[k]].active
    ensures var u := Deactivate(t, list[k]);
            && |Outputs(list, t)| == |Outputs(list, u)| + 1
            && AllEdges(Outputs(list, t)) == AllEdges(Outputs(list, u)) + Edges(t[list[k]].points)
  {
    hide Edges, AllEdges, Outputs;
    var u := Deactivate(t, list[k]);
    OutputsSplit(list, t, k);
    OutputsSplit(list, u, k);
    OutputsFrame(list[..k], t, u);
    OutputsFrame(list[k + 1..], t, u);
    var a, b := Outputs(list[..k], t), Outputs(list[k + 1..], t);
    assert a + [] + b == a + b;
    TakeOut(a, t[list[k]].points, b);
  }

  lemma TakeOut(a: seq<Part>, part: Part, b: seq<Part>)
    ensures AllEdges(a + [part] + b) == AllEdges(a + b) + Edges(part)
  {
    hide Edges;
    AllEdgesConcat(a + [part], b);
    AllEdgesConcat(a, [part]);
    AllEdgesConcat(a, b);
    EdgesOfOne(part);
  }

  lemma OutputsOfOne(id: nat, t: seq<Seg>)
    requires id < |t|
    ensures Outputs([id], t) == if t[id].active then [t[id].points] else []
  {
    assert [id][..0] == [];
    assert Outputs([id][..0], t) == [];
  }

  lemma EdgesOfOne(part: Part)
    ensures AllEdges([part]) == Edges(part)
  {
    assert AllEdges([part][..0]) == multiset{};
  }

  lemma OutputsErase(list: seq<nat>, t: seq<Seg>, i: nat)
    requires InTable(list, t) && i < |list| && !t[list[i]].active
    ensures InTable(Erase(list, i), t) && Outputs(Erase(list, i), t) == Outputs(list, t)
  {
    hide Outputs;
    OutputsSplit(list, t, i);
    OutputsConcat(list[..i], list[i + 1..], t);
    assert Outputs(list[..i], t) + [] + Outputs(list[i + 1..], t) == Outputs(list[..i], t) + Outputs(list[i + 1..], t);
  }

  lemma EraseKeepsDistinct(list: seq<nat>, i: nat)
    requires Distinct(list) && i < |list|
    ensures Distinct(Erase(list, i))
    ensures forall x :: x in Erase(list, i) <==> x in list && x != list[i]
  {
    var e := Erase(list, i);
    forall x | x in list && x != list[i]
      ensures x in e
    {
      var k :| 0 <= k < |list| && list[k] == x;
      assert e[if k < i then k else k - 1] == x;
    }
  }

  /** The segment at list position i may be merged with other. */
  ghost predicate CanMerge(st: State, i: nat, other: nat) {
    && Ok(st) && i < |st.list| && other < |st.table| && other != st.list[i]
    && st.table[st.list[i]].active && st.table[other].active
  }

  /** A merge takes the edges of two segments off the output and puts those of joined there. */
  lemma MergeOutputs(st: State, i: nat, other: nat, key: Vec, joined: Part)
    requires CanMerge(st, i, other) && joined != []
    ensures var next := Merge(st, i, st.list[i], other, key, joined);
            && InTable(next.list, next.table)
            && next.numActive == |Outputs(next.list, next.table)|
            && (Edges(joined) == Edges(st.table[st.list[i]].points) + Edges(st.table[other].points) ==>
                  AllEdges(Outputs(next.list, next.table)) == AllEdges(Outputs(st.list, st.table)))
  {
    hide Edges, AllEdges, Outputs, Distinct;
    var id := st.list[i];
    var m :| 0 <= m < |st.list| && st.list[m] == other;
    var t1 := Deactivate(st.table, id);
    var t2 := Deactivate(t1, other);
    var t3 := t2 + [Seg(joined, true)];
    OutputsDeactivate(st.list, st.table, i);
    OutputsDeactivate(st.list, t1, m);
    OutputsFrame(st.list, t2, t3);
    AppendOutput(st.list, t3);
    OutputsErase(st.list + [|st.table|], t3, i);
    var left := Outputs(st.list, t2);
    AllEdgesConcat(left, [joined]);
    EdgesOfOne(joined);
    Swap(AllEdges(left), Edges(st.table[other].points), Edges(st.table[id].points));
  }

  lemma Swap<T>(x: multiset<T>, y: multiset<T>, z: multiset<T>)
    ensures x + y + z == x + (z + y)
  {
  }

  lemma MergeKeeps(st: State, i: nat, other: nat, key: Vec, joined: Part)
    requires CanMerge(st, i, other) && joined != []
    ensures var next := Merge(st, i, st.list[i], other, key, joined);
            && Ok(next) && next.numActive == st.numActive - 1 && |next.list| == |st.list|
            && (Edges(joined) == Edges(st.table[st.list[i]].points) + Edges(st.table[other].points) ==>
                  AllEdges(Outputs(next.list, next.table)) == AllEdges(Outputs(st.list, st.table)))
  {
    hide Edges, AllEdges, Outputs;
    MergeOutputs(st, i, other, key, joined);
    EraseKeepsDistinct(st.list + [|st.table|], i);
  }

  lemma AppendOutput(list: seq<nat>, t: seq<Seg>)
    requires t != [] && InTable(list, t) && t[|t| - 1].active
    ensures InTable(list + [|t| - 1], t)
    ensures Outputs(list + [|t| - 1], t) == Outputs(list, t) + [t[|t| - 1].points]
  {
    OutputsConcat(list, [|t| - 1], t);
    OutputsOfOne(|t| - 1, t);
  }

  /** Every visit keeps the invariant, and either leaves fewer active segments or brings the end of the list nearer. */
  lemma VisitKeeps(st: State, i: nat)
    requires Ok(st) && i < |st.list|
    ensures var (next, k) := Visit(st, i);
            && Ok(next) && k <= |next.list|
            && 0 <= next.numActive <= st.numActive
            && (next.numActive == st.numActive ==> |next.list| - k < |st.list| - i)
  {
    hide Edges, AllEdges, Outputs, JoinFront, JoinBack;
    var id := st.list[i];
    var seg := st.table[id];
    var front, back := seg.points[0].at, seg.points[|seg.points| - 1].at;
    if !seg.active {
      OutputsErase(st.list, st.table, i);
      EraseKeepsDistinct(st.list, i);
    } else if Partner(st, id, front).Some? {
      var other := Partner(st, id, front).value;
      MergeKeeps(st, i, other, front, JoinFront(seg.points, st.table[other].points));
    } else if |seg.points| > 1 && Partner(st, id, back).Some? {
      var other := Partner(st, id, back).value;
      MergeKeeps(st, i, other, back, JoinBack(seg.points, st.table[other].points));
    }
  }

  /** Points at one position have one dimension, so they are equal to operator == too. */
  ghost predicate OneDimension(ends: set<GeoPoint>) {
    forall p, q :: p in ends && q in ends && p.at == q.at ==> p.dim == q.dim
  }

  ghost predicate EndsIn(part: Part, ends: set<GeoPoint>) {
    part != [] ==> part[0] in ends && part[|part| - 1] in ends
  }

  ghost predicate SegmentsEndIn(st: State, ends: set<GeoPoint>) {
    forall x :: 0 <= x < |st.table| ==> EndsIn(st.table[x].points, ends)
  }

  /** The ends of what is joined at the front. */
  lemma FrontEnds(seg: Part, other: Part)
    requires seg != [] && other != []
    ensures var (r, far, single) := (JoinFront(seg, other), seg[|seg| - 1], |seg| == 1);
            if seg[0] == other[0] then r[0] == (if single then other[0] else far) && r[|r| - 1] == other[|other| - 1]
            else r[0] == other[0] && r[|r| - 1] == if single then other[|other| - 1] else far
  {
  }

  /** The ends of what is joined at the back. */
  lemma BackEnds(seg: Part, other: Part)
    requires seg != [] && other != []
    ensures var (r, far, single) := (JoinBack(seg, other), seg[0], |seg| == 1);
            if seg[|seg| - 1] == other[0] then
              r[0] == (if single then other[0] else far) && r[|r| - 1] == other[|other| - 1]
            else r[0] == other[0] && r[|r| - 1] == if single then other[|other| - 1] else far
  {
  }

  /** No join makes a new end. */
  lemma JoinsEndIn(seg: Part, other: Part, ends: set<GeoPoint>)
    requires seg != [] && other != [] && EndsIn(seg, ends) && EndsIn(other, ends)
    ensures EndsIn(JoinFront(seg, other), ends) && EndsIn(JoinBack(seg, other), ends)
  {
    hide JoinFront, JoinBack;
    FrontEnds(seg, other);
    BackEnds(seg, other);
  }

  /** While the ends at each position have one dimension, every visit keeps the edges of the active segments. */
  lemma VisitKeepsEdges(st: State, i: nat, ends: set<GeoPoint>)
    requires Ok(st) && i < |st.list| && SegmentsEndIn(st, ends) && OneDimension(ends)
    ensures var next := Visit(st, i).0;
            && Ok(next) && SegmentsEndIn(next, ends)
            && AllEdges(Outputs(next.list, next.table)) == AllEdges(Outputs(st.list, st.table))
  {
    hide Edges, AllEdges, Outputs, JoinFront, JoinBack;
    VisitKeeps(st, i);
    var id := st.list[i];
    var seg := st.table[id];
    var front, back := seg.points[0].at, seg.points[|seg.points| - 1].at;
    if !seg.active {
      OutputsErase(st.list, st.table, i);
    } else if Partner(st, id, front).Some? {
      var other := Partner(st, id, front).value;
      JoinFrontKeepsEdges(seg.points, st.table[other].points);
      JoinsEndIn(seg.points, st.table[other].points, ends);
      MergeKeeps(st, i, other, front, JoinFront(seg.points, st.table[other].points));
    } else if |seg.points| > 1 && Partner(st, id, back).Some? {
      var other := Partner(st, id, back).value;
      JoinBackKeepsEdges(seg.points, st.table[other].points);
      JoinsEndIn(seg.points, st.table[other].points, ends);
      MergeKeeps(st, i, other, back, JoinBack(seg.points, st.table[other].points));
    }
  }

  // ----- the whole run

  function Run(st: State, i: nat): State
    requires Ok(st) && i <= |st.list|
    decreases st.numActive, |st.list| - i
  {
    if i == |st.list| then st
    else
      VisitKeeps(st, i);
      var (next, k) := Visit(st, i);
      Run(next, k)
  }

  function Init(parts: seq<Part>): State {
    var table := seq(|parts|, k requires 0 <= k < |parts| => Seg(parts[k], true));
    State(seq(|parts|, k requires 0 <= k => k), table, map[], |parts|)
  }

  function NonEmpty(parts: seq<Part>): (r: seq<Part>)
    ensures forall k :: 0 <= k < |r| ==> r[k] != []
  {
    if parts == [] then []
    else NonEmpty(parts[..|parts| - 1]) + if parts[|parts| - 1] != [] then [parts[|parts| - 1]] else []
  }

  lemma {:induction false} InitialOutputs(parts: seq<Part>, k: nat)
    requires k <= |parts|
    ensures var st := Init(parts);
            InTable(st.list[..k], st.table) && Outputs(st.list[..k], st.table) == parts[..k]
  {
    var st := Init(parts);
    if k > 0 {
      InitialOutputs(parts, k - 1);
      assert st.list[..k][..k - 1] == st.list[..k - 1];
      assert parts[..k] == parts[..k - 1] + [parts[k - 1]];
    }
  }

  lemma InitIsOk(parts: seq<Part>)
    requires forall k :: 0 <= k < |parts| ==> parts[k] != []
    ensures Ok(Init(parts)) && Outputs(Init(parts).list, Init(parts).table) == parts
  {
    var st := Init(parts);
    InitialOutputs(parts, |parts|);
    assert st.list[..|parts|] == st.list && parts[..|parts|] == parts;
    forall x | 0 <= x < |st.table|
      ensures x in st.list
    {
      assert st.list[x] == x;
    }
  }

  /** What the filter makes of the parts of its input features. */
  function Combine(parts: seq<Part>): seq<Part> {
    InitIsOk(NonEmpty(parts));
    var last := Run(Init(NonEmpty(parts)), 0);
    RunKeeps(Init(NonEmpty(parts)), 0);
    Outputs(last.list, last.table)
  }

  lemma {:induction false} RunKeeps(st: State, i: nat)
    requires Ok(st) && i <= |st.list|
    ensures var last := Run(st, i); Ok(last) && 0 <= last.numActive <= st.numActive
    decreases st.numActive, |st.list| - i
  {
    hide Edges, AllEdges, Outputs, Visit;
    if i < |st.list| {
      VisitKeeps(st, i);
      var (next, k) := Visit(st, i);
      RunKeeps(next, k);
    }
  }

  lemma {:induction false} RunKeepsEdges(st: State, i: nat, ends: set<GeoPoint>)
    requires Ok(st) && i <= |st.list| && SegmentsEndIn(st, ends) && OneDimension(ends)
    ensures var last := Run(st, i);
            Ok(last) && AllEdges(Outputs(last.list, last.table)) == AllEdges(Outputs(st.list, st.table))
    decreases st.numActive, |st.list| - i
  {
    hide Edges, AllEdges, Outputs, Visit, SegmentsEndIn, OneDimension;
    if i < |st.list| {
      VisitKeeps(st, i);
      VisitKeepsEdges(st, i, ends);
      var (next, k) := Visit(st, i);
      RunKeepsEdges(next, k, ends);
    }
  }

  lemma {:induction false} NonEmptyKeepsEdges(parts: seq<Part>)
    ensures AllEdges(NonEmpty(parts)) == AllEdges(parts) && |NonEmpty(parts)| <= |parts|
    ensures forall part :: part in NonEmpty(parts) ==> part in parts
  {
    if parts != [] {
      var rest, last := parts[..|parts| - 1], parts[|parts| - 1];
      NonEmptyKeepsEdges(rest);
      if last != [] {
        assert NonEmpty(parts)[..|NonEmpty(parts)| - 1] == NonEmpty(rest);
      } else {
        assert NonEmpty(parts) == NonEmpty(rest);
      }
    }
  }

  /** Combining lines conserves geometry wherever the part ends at each position have one dimension: the undirected
      edges of the output, counted with multiplicity, are those of the input. */
  lemma CombineConserves(parts: seq<Part>, ends: set<GeoPoint>)
    requires (forall part :: part in parts ==> EndsIn(part, ends)) && OneDimension(ends)
    ensures AllEdges(Combine(parts)) == AllEdges(parts)
  {
    hide Edges, AllEdges, Outputs, Run, EndsIn, OneDimension;
    InitIsOk(NonEmpty(parts));
    NonEmptyKeepsEdges(parts);
    RunKeepsEdges(Init(NonEmpty(parts)), 0, ends);
  }

  /** For all parts the output has no more of them, none empty. */
  lemma CombineShrinks(parts: seq<Part>)
    ensures |Combine(parts)| <= |NonEmpty(parts)| <= |parts|
    ensures forall part :: part in Combine(parts) ==> part != []
  {
    InitIsOk(NonEmpty(parts));
    RunKeeps(Init(NonEmpty(parts)), 0);
    NonEmptyKeepsEdges(parts);
    var last := Run(Init(NonEmpty(parts)), 0);
    OutputsAreSegments(last.list, last.table);
  }

  lemma {:induction false} OutputsAreSegments(list: seq<nat>, t: seq<Seg>)
    requires InTable(list, t)
    ensures forall part :: part in Outputs(list, t) ==> exists x :: 0 <= x < |t| && t[x].points == part
  {
    if list != [] {
      OutputsAreSegments(list[..|list| - 1], t);
    }
  }

  lemma {:induction false} KeepsAll(parts: seq<Part>)
    requires forall k :: 0 <= k < |parts| ==> parts[k] != []
    ensures NonEmpty(parts) == parts
  {
    if parts != [] {
      KeepsAll(parts[..|parts| - 1]);
    }
  }

  // ----- the filter

  class Segment {
    const id: nat
    const points: Part
    var active: bool

    constructor (id: nat, points: Part)
      ensures this.id == id && this.points == points && active
    {
      this.id, this.points, active := id, points, true;
    }
  }

  /** The segment objects, the list of them and the index into them stand for st. */
  ghost predicate Represents(all: seq<Segment>, segments: seq<Segment>, epMap: map<Vec, Segment>, st: State)
    reads all
  {
    && |all| == |st.table|
    && (forall x :: 0 <= x < |all| ==> all[x].id == x)
    && (forall x :: 0 <= x < |all| ==> st.table[x] == Seg(all[x].points, all[x].active))
    && |segments| == |st.list|
    && (forall k :: 0 <= k < |segments| ==> st.list[k] < |all| && segments[k] == all[st.list[k]])
    && epMap.Keys == st.epMap.Keys
    && (forall p :: p in epMap ==> st.epMap[p] < |all| && epMap[p] == all[st.epMap[p]])
  }

  /** One segment for every part that has points. */
  method CollectParts(parts: seq<Part>) returns (segments: seq<Segment>)
    ensures forall x :: 0 <= x < |segments| ==> fresh(segments[x])
    ensures Represents(segments, segments, map[], Init(NonEmpty(parts)))
  {
    segments := [];
    var segId := 0;
    for k := 0 to |parts|
      invariant segId == |segments| == |NonEmpty(parts[..k])|
      invariant forall x :: 0 <= x < |segments| ==> fresh(segments[x])
      invariant forall x :: 0 <= x < |segments| ==>
                  segments[x].id == x && segments[x].points == NonEmpty(parts[..k])[x] && segments[x].active
    {
      assert parts[..k + 1][..k] == parts[..k];
      if |parts[k]| > 0 {
        var seg := new Segment(segId, parts[k]);
        segments := segments + [seg];
        segId := segId + 1;
      }
    }
    assert parts[..|parts|] == parts;
  }

  /** Puts the combined points on the list and in the index, and retires the two segments they came from. */
  method MergeSegments(segments: seq<Segment>, epMap: map<Vec, Segment>, i: nat, seg: Segment, other: Segment,
                       key: Vec, joined: Part, segId: nat, ghost all: seq<Segment>, ghost st: State)
    returns (newSeg: Segment, newSegments: seq<Segment>, newMap: map<Vec, Segment>)
    requires Represents(all, segments, epMap, st) && i < |segments| && seg == segments[i] && other in all
    requires joined != []
    requires segId == |st.table|
    modifies seg`active, other`active
    ensures fresh(newSeg)
    ensures var next := Merge(st, i, seg.id, other.id, key, joined);
            && Represents(all + [newSeg], newSegments, newMap, next)
            && |next.table| == |st.table| + 1 && next.numActive == st.numActive - 1
  {
    newSeg := new Segment(segId, joined);
    newSegments := segments + [newSeg];
    seg.active := false;
    other.active := false;
    newSegments := newSegments[..i] + newSegments[i + 1..];
    newMap := epMap - {key};
    newMap := newMap[newSeg.points[0].at := newSeg];
    newMap := newMap[newSeg.points[|newSeg.points| - 1].at := newSeg];
  }

  lemma EraseRepresents(all: seq<Segment>, segments: seq<Segment>, epMap: map<Vec, Segment>, st: State, i: nat)
    requires Represents(all, segments, epMap, st) && i < |segments|
    ensures Represents(all, segments[..i] + segments[i + 1..], epMap, st.(list := Erase(st.list, i)))
  {
  }

  lemma LogRepresents(all: seq<Segment>, segments: seq<Segment>, epMap: map<Vec, Segment>, st: State, i: nat, p: Vec)
    requires Represents(all, segments, epMap, st) && i < |segments|
    ensures Represents(all, segments, epMap[p := segments[i]], st.(epMap := st.epMap[p := segments[i].id]))
  {
  }

  lemma SegmentRepresents(all: seq<Segment>, segments: seq<Segment>, epMap: map<Vec, Segment>, st: State, i: nat)
    requires Represents(all, segments, epMap, st) && i < |segments|
    ensures |st.list| == |segments| && st.list[i] < |st.table| && segments[i].id == st.list[i] && segments[i] in all
    ensures st.table[st.list[i]] == Seg(segments[i].points, segments[i].active)
  {
  }

  lemma EntryRepresents(all: seq<Segment>, segments: seq<Segment>, epMap: map<Vec, Segment>, st: State, p: Vec)
    requires Represents(all, segments, epMap, st)
    ensures p in epMap <==> p in st.epMap
    ensures p in epMap ==> epMap[p] in all && st.epMap[p] < |st.table| && epMap[p].id == st.epMap[p]
                           && st.table[st.epMap[p]] == Seg(epMap[p].points, epMap[p].active)
  {
  }

  /** One pass of the worklist loop at position i. */
  method VisitSegment(segments: seq<Segment>, epMap: map<Vec, Segment>, i: nat, segId: nat,
                      ghost all: seq<Segment>, ghost st: State)
    returns (newSegments: seq<Segment>, newMap: map<Vec, Segment>, k: nat, found: bool, ghost newAll: seq<Segment>)
    requires Ok(st) && Represents(all, segments, epMap, st) && i < |segments| && segId == |st.table|
    modifies all
    ensures var (next, at) := Visit(st, i);
            && Represents(newAll, newSegments, newMap, next) && k == at
            && (if found then |next.table| == |st.table| + 1 && next.numActive == st.numActive - 1
                else |next.table| == |st.table| && next.numActive == st.numActive)
    ensures all <= newAll && forall x :: |all| <= x < |newAll| ==> fresh(newAll[x])
  {
    hide Merge, JoinFront, JoinBack, Outputs, Represents, Edges;
    SegmentRepresents(all, segments, epMap, st, i);
    var seg := segments[i];
    newSegments, newMap, found, newAll := segments, epMap, false, all;
    if !seg.active {
      newSegments := segments[..i] + segments[i + 1..];
      EraseRepresents(all, segments, epMap, st, i);
      return newSegments, newMap, i, found, all;
    }
    var front, back := seg.points[0].at, seg.points[|seg.points| - 1].at;
    EntryRepresents(all, segments, epMap, st, front);
    EntryRepresents(all, segments, epMap, st, back);
    if front in epMap && epMap[front].active && seg.id != epMap[front].id {
      found := true;
      var other := epMap[front];
      var newSeg;
      newSeg, newSegments, newMap := MergeSegments(segments, epMap, i, seg, other, front,
                                                   JoinFront(seg.points, other.points), segId, all, st);
      newAll, k := all + [newSeg], i;
    } else if |seg.points| > 1 && back in epMap && epMap[back].active && seg.id != epMap[back].id {
      found := true;
      var other := epMap[back];
      var newSeg;
      newSeg, newSegments, newMap := MergeSegments(segments, epMap, i, seg, other, back,
                                                   JoinBack(seg.points, other.points), segId, all, st);
      newAll, k := all + [newSeg], i;
    } else {
      LogRepresents(all, segments, epMap, st, i, front);
      newMap := newMap[front := seg];
      if front != back {
        LogRepresents(all, segments, newMap, st.(epMap := st.epMap[front := seg.id]), i, back);
        newMap := newMap[back := seg];
      }
      k := i + 1;
    }
  }

  /** CombineLinesFilter::process on the parts of the input features, in order. */
  method Process(parts: seq<Part>) returns (output: seq<Part>)
    ensures output == Combine(parts)
  {
    hide Visit, Outputs;
    var segments := CollectParts(parts);
    var segId, numActiveSegs := |segments|, |segments|;
    var epMap: map<Vec, Segment> := map[];
    ghost var all, st := segments, Init(NonEmpty(parts));
    InitIsOk(NonEmpty(parts));
    var i := 0;
    while i < |segments|
      invariant 0 <= i <= |segments| && forall x :: 0 <= x < |all| ==> fresh(all[x])
      invariant Ok(st) && Represents(all, segments, epMap, st)
      invariant numActiveSegs == st.numActive && segId == |st.table|
      invariant Run(st, i) == Run(Init(NonEmpty(parts)), 0)
      decreases numActiveSegs, |segments| - i
    {
      VisitKeeps(st, i);
      var found;
      ghost var next := Visit(st, i).0;
      segments, epMap, i, found, all := VisitSegment(segments, epMap, i, segId, all, st);
      if found {
        segId := segId + 1;
        numActiveSegs := numActiveSegs - 1;
      }
      st := next;
    }
    output := CollectOutput(segments, all, epMap, st);
  }

  method CollectOutput(segments: seq<Segment>, ghost all: seq<Segment>, ghost epMap: map<Vec, Segment>, ghost st: State)
    returns (output: seq<Part>)
    requires InTable(st.list, st.table) && Represents(all, segments, epMap, st)
    ensures output == Outputs(st.list, st.table)
  {
    output := [];
    for k := 0 to |segments|
      invariant InTable(st.list[..k], st.table) && output == Outputs(st.list[..k], st.table)
    {
      assert st.list[..k + 1][..k] == st.list[..k];
      if segments[k].active {
        output := output + [segments[k].points];
      }
    }
    assert st.list[..|segments|] == st.list;
  }
}
