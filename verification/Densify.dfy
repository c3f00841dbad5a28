/** Filling the gaps of a part with extra points (DensifyFilter.cpp). The length of a vector is the square root of the
    sum of its squares, by a root function that is given. */
module Densify {
  import opened Basics
  import opened Geometry

  type Root = real -> real

  ghost predicate IsRoot(root: Root) {
    forall x: real :: x >= 0.0 ==> root(x) >= 0.0 && root(x) * root(x) == x
  }

  function Length(root: Root, a: Vec, b: Vec): real {
    root(Distance2(a, b))
  }

  /** The point a step of the threshold from a towards b. */
  function StepFrom(a: GeoPoint, b: GeoPoint, length: real, threshold: real): GeoPoint
    requires length > 0.0
  {
    var v := Vec(a.at.x + (b.at.x - a.at.x) / length * threshold, a.at.y + (b.at.y - a.at.y) / length * threshold,
                 a.at.z + (b.at.z - a.at.z) / length * threshold);
    if a.dim == 2 then GeoPoint(Vec(v.x, v.y, 0.0), 2) else GeoPoint(v, 3)
  }

  // ----- lengths

  lemma RootOfSquare(root: Root, y: real)
    requires IsRoot(root) && y >= 0.0
    ensures root(y * y) == y
  {
    var r := root(y * y);
    assert y * y >= 0.0;
    assert r * r == y * y;
    SameSquares(r, y);
  }

  lemma SameSquares(r: real, y: real)
    requires r >= 0.0 && y >= 0.0 && r * r == y * y
    ensures r == y
  {
    assert (r - y) * (r + y) == 0.0;
    if r + y == 0.0 {
    } else {
      NoZeroProduct(r - y, r + y);
    }
  }

  lemma NoZeroProduct(a: real, b: real)
    requires a * b == 0.0 && b > 0.0
    ensures a == 0.0
  {
  }

  lemma Squares(w: real, x: real, y: real, z: real, d: real)
    requires d == x * x + y * y + z * z
    ensures (w * x) * (w * x) + (w * y) * (w * y) + (w * z) * (w * z) == (w * w) * d
  {
    Square(w, x);
    Square(w, y);
    Square(w, z);
    assert (w * w) * d == (w * w) * (x * x) + (w * w) * (y * y) + (w * w) * (z * z);
  }

  lemma Square(w: real, x: real)
    ensures (w * x) * (w * x) == (w * w) * (x * x)
  {
  }

  lemma DistanceAlong(a: Vec, b: Vec, w: real)
    ensures Distance2(a, Lerp(a, b, w)) == (w * w) * Distance2(a, b)
    ensures Distance2(Lerp(a, b, w), b) == ((1.0 - w) * (1.0 - w)) * Distance2(a, b)
  {
    var (x, y, z, u) := (b.x - a.x, b.y - a.y, b.z - a.z, 1.0 - w);
    Squares(w, x, y, z, Distance2(a, b));
    Squares(u, x, y, z, Distance2(a, b));
    BackFrom(a.x, b.x, w);
    BackFrom(a.y, b.y, w);
    BackFrom(a.z, b.z, w);
    FromSquares(a, Lerp(a, b, w), w * x, w * y, w * z);
    FromSquares(Lerp(a, b, w), b, u * x, u * y, u * z);
  }

  lemma BackFrom(a: real, b: real, w: real)
    ensures b - (a + w * (b - a)) == (1.0 - w) * (b - a)
  {
  }

  lemma FromSquares(a: Vec, b: Vec, x: real, y: real, z: real)
    requires b.x - a.x == x && b.y - a.y == y && b.z - a.z == z
    ensures Distance2(a, b) == x * x + y * y + z * z
  {
  }

  lemma DistanceIsSquare(root: Root, a: Vec, b: Vec)
    requires IsRoot(root)
    ensures Length(root, a, b) >= 0.0 && Length(root, a, b) * Length(root, a, b) == Distance2(a, b)
  {
    Positive(b.x - a.x, b.y - a.y, b.z - a.z);
  }

  lemma Positive(x: real, y: real, z: real)
    ensures x * x + y * y + z * z >= 0.0
  {
    assert x * x >= 0.0 && y * y >= 0.0 && z * z >= 0.0;
  }

  /** A step of the threshold is on the segment, the threshold away, and so much nearer the end. */
  lemma StepLengths(root: Root, a: Vec, b: Vec, l: real, t: real, w: real)
    requires IsRoot(root) && l == Length(root, a, b) && 0.0 < t < l && w * l == t
    ensures 0.0 < w < 1.0
    ensures Length(root, a, Lerp(a, b, w)) == t && Length(root, Lerp(a, b, w), b) == l - t
  {
    hide Distance2, Lerp, IsRoot;
    DistanceIsSquare(root, a, b);
    DistanceAlong(a, b, w);
    Share(w, l, t);
    Remainder(w, l, t);
    ScaledRoot(root, w, l, Distance2(a, b), t, Distance2(a, Lerp(a, b, w)));
    ScaledRoot(root, 1.0 - w, l, Distance2(a, b), l - t, Distance2(Lerp(a, b, w), b));
  }

  lemma Remainder(w: real, l: real, t: real)
    requires w * l == t
    ensures (1.0 - w) * l == l - t
  {
  }

  lemma ScaledRoot(root: Root, w: real, l: real, d: real, y: real, e: real)
    requires IsRoot(root) && d == l * l && y == w * l && y >= 0.0 && e == (w * w) * d
    ensures root(e) == y
  {
    hide IsRoot;
    SameProduct(w * w, d, l * l);
    SquareOf(w, l, y);
    RootOfSquare(root, y);
    assert e == y * y;
  }

  lemma SquareOf(w: real, l: real, y: real)
    requires y == w * l
    ensures y * y == (w * w) * (l * l)
  {
    Square(w, l);
    SameProduct(y, y, w * l);
    SameProduct(w * l, y, w * l);
  }

  lemma SameProduct(k: real, a: real, b: real)
    requires a == b
    ensures k * a == k * b
  {
  }

  lemma Share(w: real, l: real, t: real)
    requires w * l == t && 0.0 < t < l
    ensures 0.0 < w < 1.0
  {
    Remainder(w, l, t);
    Signs(w, l, t);
    Signs(1.0 - w, l, l - t);
  }

  lemma StepIsLerp(a: GeoPoint, b: GeoPoint, l: real, t: real, w: real, threeD: bool)
    requires l > 0.0 && w == t / l && Coherent([a, b], threeD)
    ensures StepFrom(a, b, l, t).at == Lerp(a.at, b.at, w) && Coherent([StepFrom(a, b, l, t)], threeD)
  {
    assert a in [a, b] && b in [a, b];
    Ordered(b.at.x - a.at.x, l, t);
    Ordered(b.at.y - a.at.y, l, t);
    Ordered(b.at.z - a.at.z, l, t);
  }

  lemma Ordered(x: real, l: real, t: real)
    requires l > 0.0
    ensures x / l * t == t / l * x
  {
    var q := x / l;
    var w := t / l;
    assert q * l == x && w * l == t;
    assert (q * t) == q * (w * l);
    assert w * x == w * (q * l);
    assert q * (w * l) == w * (q * l);
  }

  // ----- one gap

  /** How many whole thresholds fit in a gap. */
  ghost function Steps(root: Root, a: GeoPoint, b: GeoPoint, threshold: real): nat
    requires IsRoot(root) && threshold > 0.0
  {
    DistanceIsSquare(root, a.at, b.at);
    Quotient(Length(root, a.at, b.at), threshold);
    (Length(root, a.at, b.at) / threshold).Floor
  }

  lemma Quotient(l: real, t: real)
    requires l >= 0.0 && t > 0.0
    ensures l / t >= 0.0 && (l - t) / t == l / t - 1.0
  {
    var q := l / t;
    assert q * t == l;
    Signs(q, t, l);
    var r := (l - t) / t;
    assert r * t == l - t;
    assert (r - (q - 1.0)) * t == 0.0;
    NoZeroProduct(r - (q - 1.0), t);
  }

  lemma StepDown(root: Root, a: GeoPoint, b: GeoPoint, threshold: real, threeD: bool)
    requires IsRoot(root) && threshold > 0.0 && Coherent([a, b], threeD) && Length(root, a.at, b.at) > threshold
    ensures var (l, w) := (Length(root, a.at, b.at), threshold / Length(root, a.at, b.at));
            var p := StepFrom(a, b, l, threshold);
            && 0.0 < w < 1.0 && p.at == Lerp(a.at, b.at, w) && Coherent([p, b], threeD)
            && Length(root, a.at, p.at) == threshold && Length(root, p.at, b.at) == l - threshold
            && Steps(root, p, b, threshold) < Steps(root, a, b, threshold)
  {
    hide IsRoot, Distance2, Lerp, StepFrom, Length;
    var l := Length(root, a.at, b.at);
    var w := threshold / l;
    assert w * l == threshold;
    DistanceOf(root, a, b);
    StepLengths(root, a.at, b.at, l, threshold, w);
    StepIsLerp(a, b, l, threshold, w, threeD);
    var p := StepFrom(a, b, l, threshold);
    assert p in [p] && b in [a, b];
    Quotient(l, threshold);
    DistanceOf(root, p, b);
  }

  lemma DistanceOf(root: Root, a: GeoPoint, b: GeoPoint)
    requires IsRoot(root)
    ensures Length(root, a.at, b.at) >= 0.0
  {
    DistanceIsSquare(root, a.at, b.at);
  }

  /** The points put in between two points. */
  ghost function Span(root: Root, a: GeoPoint, b: GeoPoint, threshold: real, threeD: bool): Part
    requires IsRoot(root) && threshold > 0.0 && Coherent([a, b], threeD)
    decreases Steps(root, a, b, threshold)
  {
    var l := Length(root, a.at, b.at);
    if l > threshold then
      StepDown(root, a, b, threshold, threeD);
      var p := StepFrom(a, b, l, threshold);
      [p] + Span(root, p, b, threshold, threeD)
    else []
  }

  /** Into a gap go just as many points as it takes: with n of them it has n + 1 steps, all but the last of the
      length of the threshold. */
  lemma {:induction false} SpanIsShort(root: Root, a: GeoPoint, b: GeoPoint, threshold: real, threeD: bool)
    requires IsRoot(root) && threshold > 0.0 && Coherent([a, b], threeD)
    ensures var (l, n) := (Length(root, a.at, b.at), |Span(root, a, b, threshold, threeD)|);
            if l <= 0.0 then n == 0 else n as real * threshold < l <= (n + 1) as real * threshold
    decreases Steps(root, a, b, threshold)
  {
    hide IsRoot, Length, StepFrom, Coherent, Steps;
    var l := Length(root, a.at, b.at);
    if l > threshold {
      StepDown(root, a, b, threshold, threeD);
      var p := StepFrom(a, b, l, threshold);
      SpanIsShort(root, p, b, threshold, threeD);
      var n := |Span(root, p, b, threshold, threeD)|;
      OneStep(n, threshold);
      OneStep(n + 1, threshold);
    }
  }

  lemma OneStep(n: nat, t: real)
    ensures (n + 1) as real * t == n as real * t + t
  {
  }

  /** No gap is longer than the threshold. */
  ghost predicate Close(root: Root, part: Part, threshold: real) {
    forall k :: 0 <= k < |part| - 1 ==> Length(root, part[k].at, part[k + 1].at) <= threshold
  }

  lemma CloseJoined(root: Root, a: Part, b: Part, threshold: real)
    requires a != [] && b != [] && a[|a| - 1] == b[0] && Close(root, a, threshold) && Close(root, b, threshold)
    ensures Close(root, a + b[1..], threshold)
  {
    hide Length;
  }

  lemma {:induction false} SpanIsClose(root: Root, a: GeoPoint, b: GeoPoint, threshold: real, threeD: bool)
    requires IsRoot(root) && threshold > 0.0 && Coherent([a, b], threeD)
    ensures Close(root, [a] + Span(root, a, b, threshold, threeD) + [b], threshold)
    ensures Coherent(Span(root, a, b, threshold, threeD), threeD)
    decreases Steps(root, a, b, threshold)
  {
    hide IsRoot, Length, StepFrom, Coherent, Steps;
    var l := Length(root, a.at, b.at);
    if l > threshold {
      StepDown(root, a, b, threshold, threeD);
      var p := StepFrom(a, b, l, threshold);
      SpanIsClose(root, p, b, threshold, threeD);
      var rest := [p] + Span(root, p, b, threshold, threeD) + [b];
      assert Close(root, [a, p], threshold);
      CloseJoined(root, [a, p], rest, threshold);
      assert [a] + Span(root, a, b, threshold, threeD) + [b] == [a, p] + rest[1..];
      CoherentCons(p, b, Span(root, p, b, threshold, threeD), threeD);
    } else {
      assert [a] + [] + [b] == [a, b];
      CoherentNone(a, b, threeD);
    }
  }

  lemma CoherentCons(p: GeoPoint, b: GeoPoint, rest: Part, threeD: bool)
    requires Coherent([p, b], threeD) && Coherent(rest, threeD)
    ensures Coherent([p] + rest, threeD)
  {
    assert p in [p, b];
  }

  lemma CoherentNone(a: GeoPoint, b: GeoPoint, threeD: bool)
    requires Coherent([a, b], threeD)
    ensures Coherent([], threeD)
  {
  }

  /** A point on a segment splits it in two. */
  lemma SegmentSplits(a: Vec, b: Vec, w: real)
    requires 0.0 < w < 1.0
    ensures Segment(a, b) == Segment(a, Lerp(a, b, w)) + Segment(Lerp(a, b, w), b)
  {
    LerpEnds(a, b);
    forall q
      ensures q in Segment(a, b) <==> q in Segment(a, Lerp(a, b, w)) + Segment(Lerp(a, b, w), b)
    {
      SubSegment(a, b, 0.0, w, q);
      SubSegment(a, b, w, 1.0, q);
      hide Lerp;
    }
  }

  lemma {:induction false} PolylineJoined(a: Part, b: Part)
    requires a != [] && b != [] && a[|a| - 1] == b[0]
    ensures Polyline(a + b[1..]) == Polyline(a) + Polyline(b)
  {
    hide Segment, Polyline;
    if |b| == 1 {
      ShortPolyline(b);
      assert a + b[1..] == a;
    } else {
      var (n, last) := (|b| - 1, b[|b| - 1]);
      PolylineJoined(a, b[..n]);
      assert a + b[1..] == (a + b[..n][1..]) + [last] && b == b[..n] + [last];
      PolylineExtend(a + b[..n][1..], last);
      PolylineExtend(b[..n], last);
    }
  }

  lemma TwoPoints(a: GeoPoint, b: GeoPoint)
    ensures Polyline([a, b]) == Segment(a.at, b.at)
  {
    assert [a, b][..1] == [a];
  }

  /** The points put in lie on the gap they fill: it stays the same set of points. */
  lemma {:induction false} SpanKeepsSegment(root: Root, a: GeoPoint, b: GeoPoint, threshold: real, threeD: bool)
    requires IsRoot(root) && threshold > 0.0 && Coherent([a, b], threeD)
    ensures Polyline([a] + Span(root, a, b, threshold, threeD) + [b]) == Segment(a.at, b.at)
    decreases Steps(root, a, b, threshold)
  {
    hide IsRoot, Length, StepFrom, Coherent, Steps, Segment, Polyline;
    var l := Length(root, a.at, b.at);
    if l > threshold {
      StepDown(root, a, b, threshold, threeD);
      var p := StepFrom(a, b, l, threshold);
      SpanKeepsSegment(root, p, b, threshold, threeD);
      var rest := [p] + Span(root, p, b, threshold, threeD) + [b];
      PolylineJoined([a, p], rest);
      assert [a] + Span(root, a, b, threshold, threeD) + [b] == [a, p] + rest[1..];
      TwoPoints(a, p);
      SegmentSplits(a.at, b.at, threshold / l);
    } else {
      assert [a] + [] + [b] == [a, b];
      TwoPoints(a, b);
    }
  }

  // ----- the whole part

  /** A part with its gaps filled. */
  ghost function Densified(root: Root, part: Part, threshold: real, threeD: bool): (r: Part)
    requires IsRoot(root) && threshold > 0.0 && Coherent(part, threeD)
    ensures |r| >= |part| && (part != [] ==> r[|r| - 1] == part[|part| - 1])
  {
    if |part| <= 1 then part
    else
      var n := |part| - 1;
      CoherentPair(part, n, threeD);
      Densified(root, part[..n], threshold, threeD) + Span(root, part[n - 1], part[n], threshold, threeD) + [part[n]]
  }

  lemma CoherentPair(part: Part, n: nat, threeD: bool)
    requires Coherent(part, threeD) && 0 < n < |part|
    ensures Coherent([part[n - 1], part[n]], threeD) && Coherent(part[..n], threeD)
  {
  }

  /** Each point of the part, in order, is among the points of the other. */
  predicate Subsequence(a: Part, b: Part) {
    a == [] || (b != [] && (if a[|a| - 1] == b[|b| - 1] then Subsequence(a[..|a| - 1], b[..|b| - 1])
                            else Subsequence(a, b[..|b| - 1])))
  }

  lemma {:induction false} SubsequencePadded(a: Part, b: Part, more: Part)
    requires Subsequence(a, b)
    ensures Subsequence(a, b + more)
    decreases |a| + |more|, |more|
  {
    if more == [] {
      assert b + more == b;
    } else if a != [] {
      var (n, last) := (|more| - 1, more[|more| - 1]);
      assert (b + more)[..|b + more| - 1] == b + more[..n];
      if a[|a| - 1] == last {
        SubsequenceShorter(a, b);
        SubsequencePadded(a[..|a| - 1], b, more[..n]);
      } else {
        SubsequencePadded(a, b, more[..n]);
      }
    }
  }

  lemma {:induction false} SubsequenceShorter(a: Part, b: Part)
    requires Subsequence(a, b) && a != []
    ensures Subsequence(a[..|a| - 1], b)
    decreases |b|
  {
    if a[|a| - 1] == b[|b| - 1] {
      assert b == b[..|b| - 1] + [b[|b| - 1]];
      SubsequenceLonger(a[..|a| - 1], b[..|b| - 1], b[|b| - 1]);
    } else {
      SubsequenceShorter(a, b[..|b| - 1]);
      assert b == b[..|b| - 1] + [b[|b| - 1]];
      SubsequenceLonger(a[..|a| - 1], b[..|b| - 1], b[|b| - 1]);
    }
  }

  lemma {:induction false} SubsequenceLonger(a: Part, b: Part, p: GeoPoint)
    requires Subsequence(a, b)
    ensures Subsequence(a, b + [p])
    decreases |b|
  {
    assert (b + [p])[..|b|] == b;
    if a != [] && a[|a| - 1] == p {
      if a[|a| - 1] == b[|b| - 1] {
        SubsequenceLonger(a[..|a| - 1], b[..|b| - 1], b[|b| - 1]);
        assert b == b[..|b| - 1] + [b[|b| - 1]];
      } else {
        SubsequenceShorter(a, b[..|b| - 1]);
        SubsequenceLonger(a[..|a| - 1], b[..|b| - 1], b[|b| - 1]);
        assert b == b[..|b| - 1] + [b[|b| - 1]];
      }
    }
  }

  lemma {:induction false} DensifiedIsClose(root: Root, part: Part, threshold: real, threeD: bool)
    requires IsRoot(root) && threshold > 0.0 && Coherent(part, threeD)
    ensures Close(root, Densified(root, part, threshold, threeD), threshold)
  {
    hide IsRoot, Length, Coherent, Span;
    if |part| > 1 {
      var n := |part| - 1;
      CoherentPair(part, n, threeD);
      DensifiedIsClose(root, part[..n], threshold, threeD);
      SpanIsClose(root, part[n - 1], part[n], threshold, threeD);
      var before := Densified(root, part[..n], threshold, threeD);
      var span := Span(root, part[n - 1], part[n], threshold, threeD);
      CloseJoined(root, before, [part[n - 1]] + span + [part[n]], threshold);
      assert ([part[n - 1]] + span + [part[n]])[1..] == span + [part[n]];
      assert before + (span + [part[n]]) == before + span + [part[n]];
    }
  }

  lemma {:induction false} DensifiedKeepsLine(root: Root, part: Part, threshold: real, threeD: bool)
    requires IsRoot(root) && threshold > 0.0 && Coherent(part, threeD)
    ensures Polyline(Densified(root, part, threshold, threeD)) == Polyline(part)
  {
    hide IsRoot, Length, Coherent, Span, Polyline, Segment;
    if |part| > 1 {
      var n := |part| - 1;
      CoherentPair(part, n, threeD);
      DensifiedKeepsLine(root, part[..n], threshold, threeD);
      SpanKeepsSegment(root, part[n - 1], part[n], threshold, threeD);
      var before := Densified(root, part[..n], threshold, threeD);
      var span := Span(root, part[n - 1], part[n], threshold, threeD);
      PolylineJoined(before, [part[n - 1]] + span + [part[n]]);
      assert ([part[n - 1]] + span + [part[n]])[1..] == span + [part[n]];
      assert before + (span + [part[n]]) == before + span + [part[n]];
      PolylineExtend(part[..n], part[n]);
      assert part == part[..n] + [part[n]];
    }
  }

  lemma {:induction false} DensifiedKeepsPoints(root: Root, part: Part, threshold: real, threeD: bool)
    requires IsRoot(root) && threshold > 0.0 && Coherent(part, threeD)
    ensures Subsequence(part, Densified(root, part, threshold, threeD))
  {
    hide IsRoot, Length, Coherent, Span;
    if |part| > 1 {
      var n := |part| - 1;
      CoherentPair(part, n, threeD);
      DensifiedKeepsPoints(root, part[..n], threshold, threeD);
      var before := Densified(root, part[..n], threshold, threeD);
      var span := Span(root, part[n - 1], part[n], threshold, threeD);
      SubsequencePadded(part[..n], before, span);
      assert (before + span + [part[n]])[..|before + span|] == before + span;
    } else if |part| == 1 {
      assert part[..0] == [];
    }
  }

  /** What densifying does for a part: no gap longer than the threshold is left, the original points are all there in
      their order, and the part covers the same points as before. */
  lemma DensifyFillsGaps(root: Root, part: Part, threshold: real, threeD: bool)
    requires IsRoot(root) && threshold > 0.0 && Coherent(part, threeD)
    ensures var r := Densified(root, part, threshold, threeD);
            Close(root, r, threshold) && Subsequence(part, r) && Polyline(r) == Polyline(part)
  {
    hide IsRoot, Length, Coherent, Close, Subsequence, Polyline;
    DensifiedIsClose(root, part, threshold, threeD);
    DensifiedKeepsPoints(root, part, threshold, threeD);
    DensifiedKeepsLine(root, part, threshold, threeD);
  }

  /** Up to position k the part is as it will be; the next original point is the m-th. */
  ghost predicate Filling(root: Root, input: Part, threshold: real, threeD: bool, part: Part, k: nat, m: nat)
    requires IsRoot(root) && threshold > 0.0 && Coherent(input, threeD)
  {
    && k < |part| && 1 <= m <= |input| && part[k + 1..] == input[m..]
    && if m < |input| then
         && Coherent([part[k], input[m]], threeD) && Coherent(input[..m + 1], threeD)
         && part[..k + 1] + Span(root, part[k], input[m], threshold, threeD) + [input[m]] ==
            Densified(root, input[..m + 1], threshold, threeD)
       else part[..k + 1] == Densified(root, input, threshold, threeD)
  }

  lemma DensifiedNext(root: Root, input: Part, threshold: real, threeD: bool, m: nat)
    requires IsRoot(root) && threshold > 0.0 && Coherent(input, threeD) && 0 < m < |input|
    ensures Coherent([input[m - 1], input[m]], threeD)
    ensures Coherent(input[..m + 1], threeD) && Coherent(input[..m], threeD)
    ensures Densified(root, input[..m + 1], threshold, threeD) ==
            Densified(root, input[..m], threshold, threeD)
            + Span(root, input[m - 1], input[m], threshold, threeD) + [input[m]]
  {
    hide IsRoot, Span;
    assert input[..m + 1][..m] == input[..m];
  }

  lemma Begun(root: Root, input: Part, threshold: real, threeD: bool)
    requires IsRoot(root) && threshold > 0.0 && Coherent(input, threeD) && input != []
    ensures Filling(root, input, threshold, threeD, input, 0, 1)
  {
    hide IsRoot, Span, Coherent;
    if |input| > 1 {
      DensifiedNext(root, input, threshold, threeD, 1);
      assert input[..1] == [input[0]];
    } else {
      assert input[..1] == input;
    }
  }

  lemma NextGap(root: Root, input: Part, threshold: real, threeD: bool, part: Part, k: nat, m: nat)
    requires IsRoot(root) && threshold > 0.0 && Coherent(input, threeD)
    requires Filling(root, input, threshold, threeD, part, k, m) && k != |part| - 1
    ensures m < |input| && k + 1 < |part| && part[k + 1] == input[m] && Coherent([part[k], part[k + 1]], threeD)
  {
    hide IsRoot, Span, Coherent, Densified;
    assert |part[k + 1..]| > 0 && part[k + 1..][0] == part[k + 1];
  }

  lemma Inserted(root: Root, input: Part, threshold: real, threeD: bool, part: Part, k: nat, m: nat, p: GeoPoint)
    requires IsRoot(root) && threshold > 0.0 && Coherent(input, threeD)
    requires Filling(root, input, threshold, threeD, part, k, m) && m < |input|
    requires Length(root, part[k].at, input[m].at) > threshold
    requires p == StepFrom(part[k], input[m], Length(root, part[k].at, input[m].at), threshold)
    ensures Filling(root, input, threshold, threeD, part[..k + 1] + [p] + part[k + 1..], k + 1, m)
  {
    hide IsRoot, Coherent, Densified, Length, StepFrom, Steps;
    StepDown(root, part[k], input[m], threshold, threeD);
    var next := part[..k + 1] + [p] + part[k + 1..];
    var rest := Span(root, p, input[m], threshold, threeD);
    assert Span(root, part[k], input[m], threshold, threeD) == [p] + rest;
    hide Span;
    assert next[k + 2..] == part[k + 1..] && next[..k + 2] == part[..k + 1] + [p] && next[k + 1] == p;
    assert part[..k + 1] + ([p] + rest) + [input[m]] == next[..k + 2] + rest + [input[m]];
  }

  lemma Passed(root: Root, input: Part, threshold: real, threeD: bool, part: Part, k: nat, m: nat)
    requires IsRoot(root) && threshold > 0.0 && Coherent(input, threeD)
    requires Filling(root, input, threshold, threeD, part, k, m) && m < |input| && k != |part| - 1
    requires Length(root, part[k].at, input[m].at) <= threshold
    ensures Filling(root, input, threshold, threeD, part, k + 1, m + 1)
  {
    hide IsRoot, Coherent, Densified, Length, StepFrom, Steps;
    NextGap(root, input, threshold, threeD, part, k, m);
    assert Span(root, part[k], input[m], threshold, threeD) == [];
    hide Span;
    assert part[..k + 2] == part[..k + 1] + [] + [input[m]];
    assert part[k + 2..] == part[k + 1..][1..] && input[m + 1..] == input[m..][1..];
    if m + 1 < |input| {
      DensifiedNext(root, input, threshold, threeD, m + 1);
    } else {
      assert input[..m + 1] == input;
    }
  }

  lemma Ended(root: Root, input: Part, threshold: real, threeD: bool, part: Part, k: nat, m: nat)
    requires IsRoot(root) && threshold > 0.0 && Coherent(input, threeD)
    requires Filling(root, input, threshold, threeD, part, k, m) && k == |part| - 1
    ensures part == Densified(root, input, threshold, threeD)
  {
    hide IsRoot, Coherent, Densified, Span;
    assert |input[m..]| == 0;
    assert part[..k + 1] == part;
  }

  /** Walking through a part and inserting a point where a gap is too long, as the source does. */
  method DensifyPart(root: Root, input: Part, threshold: real, ghost threeD: bool) returns (part: Part)
    requires IsRoot(root) && threshold > 0.0 && Coherent(input, threeD) && input != []
    ensures part == Densified(root, input, threshold, threeD)
  {
    hide IsRoot, Length, Coherent, StepFrom, Steps, Span, Densified;
    part := input;
    var k := 0;
    ghost var m := 1;
    Begun(root, input, threshold, threeD);
    while k != |part| - 1
      invariant Filling(root, input, threshold, threeD, part, k, m)
      decreases |input| - m, if k < |part| && m < |input| then Steps(root, part[k], input[m], threshold) else 0
    {
      var (a, b) := (part[k], part[k + 1]);
      NextGap(root, input, threshold, threeD, part, k, m);
      var length := Length(root, a.at, b.at);
      if length > threshold {
        StepDown(root, a, b, threshold, threeD);
        var p := StepFrom(a, b, length, threshold);
        Inserted(root, input, threshold, threeD, part, k, m, p);
        part := part[..k + 1] + [p] + part[k + 1..];
      } else {
        Passed(root, input, threshold, threeD, part, k, m);
        m := m + 1;
      }
      k := k + 1;
    }
    Ended(root, input, threshold, threeD, part, k, m);
  }
}
