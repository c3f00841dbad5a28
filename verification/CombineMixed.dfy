/** Where combining lines (CombineLinesFilter.cpp) loses edges: part ends at one position in different dimensions. */
module CombineMixed {
  import opened Basics
  import opened Geometry
  import opened CombineLines

  /** The four states of the worklist for two parts p-x and q-y with p and q at one position, where == finds p and q
      unequal and takes the other end of p-x for the one that matches. */
  function MixedState(p: GeoPoint, x: GeoPoint, q: GeoPoint, y: GeoPoint, index: map<Vec, nat>): State {
    State([0, 1], [Seg([p, x], true), Seg([q, y], true)], index, 2)
  }

  function MixedJoined(p: GeoPoint, x: GeoPoint, q: GeoPoint, y: GeoPoint, index: map<Vec, nat>): State {
    State([0, 2], [Seg([p, x], false), Seg([q, y], false), Seg([p, x, y], true)], index, 1)
  }

  lemma MixedMerges(p: GeoPoint, x: GeoPoint, q: GeoPoint, y: GeoPoint, index: map<Vec, nat>)
    requires p.at == q.at && p != q && index == map[p.at := 0][x.at := 0]
    requires Ok(MixedState(p, x, q, y, index))
    ensures Visit(MixedState(p, x, q, y, index), 1) ==
            (MixedJoined(p, x, q, y, (index - {q.at})[p.at := 2][y.at := 2]), 1)
  {
    hide Ok, Edges, AllEdges, Outputs, Run, Combine, Merge;
    var st := MixedState(p, x, q, y, index);
    assert Partner(st, 1, q.at) == Some(0);
    assert JoinFront([q, y], [p, x]) == [p, x, y];
    MixedMerge(p, x, q, y, index);
  }

  lemma MixedMerge(p: GeoPoint, x: GeoPoint, q: GeoPoint, y: GeoPoint, index: map<Vec, nat>)
    ensures Merge(MixedState(p, x, q, y, index), 1, 1, 0, q.at, [p, x, y]) ==
            MixedJoined(p, x, q, y, (index - {q.at})[p.at := 2][y.at := 2])
  {
    var st := MixedState(p, x, q, y, index);
    assert Erase(st.list + [2], 1) == [0, 2];
  }

  /** The join takes p-x-y for an edge that is not there: the edge q-y is lost, and x-y invented. */
  lemma MixedDimensionsMisjoin(p: GeoPoint, x: GeoPoint, q: GeoPoint, y: GeoPoint)
    requires p.at == q.at && p.dim != q.dim
    ensures Combine([[p, x], [q, y]]) == [[p, x, y]]
    ensures AllEdges([[p, x, y]]) == multiset{EdgeOf(p, x), EdgeOf(x, y)}
    ensures AllEdges([[p, x], [q, y]]) == multiset{EdgeOf(p, x), EdgeOf(q, y)}
    ensures AllEdges(Combine([[p, x], [q, y]])) == AllEdges([[p, x], [q, y]]) <==> x == q
  {
    hide Edges, AllEdges, Outputs, NonEmpty, Ok, Combine, JoinFront, JoinBack, Merge, EdgeOf;
    var parts, s0 := [[p, x], [q, y]], MixedState(p, x, q, y, map[]);
    MixedRun(p, x, q, y);
    EdgesOfPairs(p, x, q, y);
    EdgesOfThree(p, x, y);
    SameEdge(x, q, y);
    OneDiffers(EdgeOf(p, x), EdgeOf(x, y), EdgeOf(q, y));
  }

  lemma EdgesOfPairs(p: GeoPoint, x: GeoPoint, q: GeoPoint, y: GeoPoint)
    ensures AllEdges([[p, x], [q, y]]) == multiset{EdgeOf(p, x), EdgeOf(q, y)}
  {
    hide Edges, AllEdges, EdgeOf;
    EdgesOfPair(p, x);
    EdgesOfPair(q, y);
    EdgesOfTwo([p, x], [q, y]);
  }

  lemma EdgesOfThree(p: GeoPoint, x: GeoPoint, y: GeoPoint)
    ensures AllEdges([[p, x, y]]) == multiset{EdgeOf(p, x), EdgeOf(x, y)}
  {
    hide Edges, AllEdges, EdgeOf;
    EdgesOfPair(p, x);
    EdgesOfPair(x, y);
    EdgesOfOne([p, x, y]);
    EdgesOfAppend([p, x], [y]);
    assert [p, x] + [y] == [p, x, y] && [x] + [y] == [x, y];
  }

  lemma OneDiffers(a: Edge, b: Edge, c: Edge)
    ensures multiset{a, b} == multiset{a, c} <==> b == c
  {
    if b != c {
      assert multiset{a, b}[c] != multiset{a, c}[c];
    }
  }

  lemma EdgesOfTwo(a: Part, b: Part)
    ensures AllEdges([a, b]) == Edges(a) + Edges(b)
  {
    EdgesOfOne(a);
    assert [a, b][..1] == [a];
  }

  lemma MixedRun(p: GeoPoint, x: GeoPoint, q: GeoPoint, y: GeoPoint)
    requires p.at == q.at && p != q
    ensures Combine([[p, x], [q, y]]) == [[p, x, y]]
  {
    hide Edges, AllEdges, Outputs, NonEmpty, Ok, JoinFront, JoinBack, Merge, Visit;
    var parts, s0 := [[p, x], [q, y]], MixedState(p, x, q, y, map[]);
    KeepsAll(parts);
    InitIsOk(parts);
    assert Init(parts) == s0;
    VisitKeeps(s0, 0);
    VisitLogs(s0, 0);
    var index := map[p.at := 0][x.at := 0];
    var s1 := MixedState(p, x, q, y, index);
    VisitKeeps(s1, 1);
    MixedMerges(p, x, q, y, index);
    var joined := (index - {q.at})[p.at := 2][y.at := 2];
    var s2 := MixedJoined(p, x, q, y, joined);
    VisitKeeps(s2, 1);
    VisitLogs(s2, 1);
    var s3 := s2.(epMap := joined[p.at := 2][y.at := 2]);
    assert Run(s0, 0) == Run(s1, 1) == Run(s2, 1) == Run(s3, 2) == s3;
    MixedOutputs(p, x, q, y, s3.epMap);
  }

  lemma MixedOutputs(p: GeoPoint, x: GeoPoint, q: GeoPoint, y: GeoPoint, index: map<Vec, nat>)
    ensures var st := MixedJoined(p, x, q, y, index); Outputs(st.list, st.table) == [[p, x, y]]
  {
    var st := MixedJoined(p, x, q, y, index);
    OutputsOfOne(0, st.table);
    OutputsOfOne(2, st.table);
    OutputsConcat([0], [2], st.table);
    assert [0] + [2] == [0, 2];
  }

  /** The premise is exact: given where parts may end, combining keeps the edges of all parts that end there if and only
      if the ends at each position have one dimension. */
  lemma ConservesExactlyForOneDimension(ends: set<GeoPoint>)
    ensures (forall parts: seq<Part> :: (forall part :: part in parts ==> EndsIn(part, ends)) ==>
                                          AllEdges(Combine(parts)) == AllEdges(parts)) <==> OneDimension(ends)
  {
    hide Edges, AllEdges, Combine;
    if OneDimension(ends) {
      forall parts: seq<Part> | forall part :: part in parts ==> EndsIn(part, ends)
        ensures AllEdges(Combine(parts)) == AllEdges(parts)
      {
        CombineConserves(parts, ends);
      }
    } else {
      var p, q :| p in ends && q in ends && p.at == q.at && p.dim != q.dim;
      MixedDimensionsMisjoin(p, p, q, q);
      var parts := [[p, p], [q, q]];
      assert forall part :: part in parts ==> EndsIn(part, ends);
      assert AllEdges(Combine(parts)) != AllEdges(parts);
    }
  }

  /** Clipping gives the points it adds to a two-dimensional part three dimensions. Two parts that meet in such a point
      are joined wrongly: a line is drawn between two points no part connects, and one that was there is gone. */
  lemma ClippedPartsMisjoin()
    ensures var (o, x, y) := (Vec(0.0, 0.0, 0.0), GeoPoint(Vec(1.0, 0.0, 0.0), 2), GeoPoint(Vec(0.0, 1.0, 0.0), 2));
            var parts := [[GeoPoint(o, 3), x], [GeoPoint(o, 2), y]];
            && Combine(parts) == [[GeoPoint(o, 3), x, y]]
            && Vec(0.0, 0.5, 0.0) in Polylines(parts) && Vec(0.0, 0.5, 0.0) !in Polylines(Combine(parts))
            && Vec(0.5, 0.5, 0.0) !in Polylines(parts) && Vec(0.5, 0.5, 0.0) in Polylines(Combine(parts))
  {
    hide Combine, Polyline, Polylines, Geometry.Segment;
    var (o, x, y) := (Vec(0.0, 0.0, 0.0), Vec(1.0, 0.0, 0.0), Vec(0.0, 1.0, 0.0));
    var (p, q) := (GeoPoint(o, 3), GeoPoint(o, 2));
    MixedRun(p, GeoPoint(x, 2), q, GeoPoint(y, 2));
    PointsOfPair(p, GeoPoint(x, 2));
    PointsOfPair(q, GeoPoint(y, 2));
    PolylineExtend([p, GeoPoint(x, 2)], GeoPoint(y, 2));
    assert [p, GeoPoint(x, 2)] + [GeoPoint(y, 2)] == [p, GeoPoint(x, 2), GeoPoint(y, 2)];
    EmptyCover();
    PolylinesExtend([], [p, GeoPoint(x, 2)]);
    PolylinesExtend([[p, GeoPoint(x, 2)]], [q, GeoPoint(y, 2)]);
    PolylinesExtend([], [p, GeoPoint(x, 2), GeoPoint(y, 2)]);
    assert [] + [[p, GeoPoint(x, 2)]] == [[p, GeoPoint(x, 2)]];
    assert [] + [[p, GeoPoint(x, 2), GeoPoint(y, 2)]] == [[p, GeoPoint(x, 2), GeoPoint(y, 2)]];
    assert [[p, GeoPoint(x, 2)]] + [[q, GeoPoint(y, 2)]] == [[p, GeoPoint(x, 2)], [q, GeoPoint(y, 2)]];
    Triangle();
  }

  lemma Triangle()
    ensures var (o, x, y) := (Vec(0.0, 0.0, 0.0), Vec(1.0, 0.0, 0.0), Vec(0.0, 1.0, 0.0));
            var (left, slope) := (Vec(0.0, 0.5, 0.0), Vec(0.5, 0.5, 0.0));
            && left !in Geometry.Segment(o, x) && left in Geometry.Segment(o, y) && left !in Geometry.Segment(x, y)
            && slope !in Geometry.Segment(o, x) && slope !in Geometry.Segment(o, y) && slope in Geometry.Segment(x, y)
  {
    hide OnSegment;
    var (o, x, y) := (Vec(0.0, 0.0, 0.0), Vec(1.0, 0.0, 0.0), Vec(0.0, 1.0, 0.0));
    Halfway(o, y);
    Halfway(x, y);
    SidesOfTriangle(Vec(0.0, 0.5, 0.0));
    SidesOfTriangle(Vec(0.5, 0.5, 0.0));
  }

  lemma Halfway(a: Vec, b: Vec)
    ensures OnSegment(a, b, Vec((a.x + b.x) / 2.0, (a.y + b.y) / 2.0, (a.z + b.z) / 2.0))
  {
    assert Lerp(a, b, 0.5) == Vec((a.x + b.x) / 2.0, (a.y + b.y) / 2.0, (a.z + b.z) / 2.0);
  }

  lemma SidesOfTriangle(q: Vec)
    ensures OnSegment(Vec(0.0, 0.0, 0.0), Vec(1.0, 0.0, 0.0), q) ==> q.y == 0.0
    ensures OnSegment(Vec(0.0, 0.0, 0.0), Vec(0.0, 1.0, 0.0), q) ==> q.x == 0.0
    ensures OnSegment(Vec(1.0, 0.0, 0.0), Vec(0.0, 1.0, 0.0), q) ==> q.x + q.y == 1.0
  {
  }

  lemma PointsOfPair(a: GeoPoint, b: GeoPoint)
    ensures Polyline([a, b]) == Geometry.Segment(a.at, b.at)
  {
    ShortPolyline([a]);
    PolylineExtend([a], b);
    assert [a] + [b] == [a, b];
  }
}
