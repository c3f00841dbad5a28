/** The convex hull (ConvexHullFilter.cpp) for every order std::sort may leave the points in: exactly when all of them
    give a hull that encloses the points. */
module HullOrders {
  import opened Basics
  import opened Geometry
  import opened ConvexHull

  // ----- the scan, one point at a time

  /** The chain after a point: what does not turn left towards it is dropped from the end. */
  function Push(h: seq<Vec>, c: Vec): (g: seq<Vec>)
    ensures |g| >= 1 && g[|g| - 1] == c
  {
    if |h| >= 2 && Cross(h[|h| - 2], h[|h| - 1], c) <= 0.0 then Push(h[..|h| - 1], c) else h + [c]
  }

  function PushAll(h: seq<Vec>, cs: seq<Vec>): seq<Vec>
    decreases cs
  {
    if cs == [] then h else PushAll(Push(h, cs[0]), cs[1..])
  }

  lemma {:induction false} PushAllConcat(h: seq<Vec>, a: seq<Vec>, b: seq<Vec>)
    ensures PushAll(h, a + b) == PushAll(PushAll(h, a), b)
    decreases a
  {
    hide Push;
    if a == [] {
      assert a + b == b;
    } else {
      PushAllConcat(Push(h, a[0]), a[1..], b);
      assert (a + b)[1..] == a[1..] + b;
    }
  }

  lemma PushFirst(h: seq<Vec>, c: Vec, cs: seq<Vec>)
    ensures PushAll(h, [c] + cs) == PushAll(Push(h, c), cs)
  {
    assert ([c] + cs)[1..] == cs;
  }

  lemma PushNone(h: seq<Vec>)
    ensures PushAll(h, []) == h
  {
  }

  /** The next point of the scan is pushed on the part kept so far. */
  lemma PushNext(h: seq<Vec>, i: nat)
    requires 1 <= i < |h|
    ensures PushAll(h[..i], h[i..]) == PushAll(Push(h[..i], h[i]), h[i + 1..])
    ensures if i >= 2 && Cross(h[i - 2], h[i - 1], h[i]) <= 0.0 then Push(h[..i], h[i]) == Push(h[..i - 1], h[i])
            else Push(h[..i], h[i]) == h[..i + 1]
  {
    hide Cross;
    assert h[i..] == [h[i]] + h[i + 1..];
    PushFirst(h[..i], h[i], h[i + 1..]);
    if i >= 2 && Cross(h[i - 2], h[i - 1], h[i]) <= 0.0 {
      assert h[..i][..i - 1] == h[..i - 1];
    } else {
      assert h[..i] + [h[i]] == h[..i + 1];
    }
  }

  lemma CutOut(h: seq<Vec>, i: nat)
    requires 1 <= i < |h|
    ensures var g := h[..i - 1] + h[i..];
            && |g| == |h| - 1 && g[..i - 1] == h[..i - 1] && g[i - 1..] == h[i..]
            && g[i - 1] == h[i] && g[i..] == h[i + 1..]
  {
  }

  lemma {:induction false} ScanIsPushes(h: seq<Vec>, i: nat)
    requires 1 <= i <= |h|
    ensures Scan(h, i) == PushAll(h[..i], h[i..])
    decreases 2 * |h| - i
  {
    hide Cross, Push, PushAll;
    if i == |h| {
      assert h[..i] == h && h[i..] == [];
      PushNone(h);
    } else {
      PushNext(h, i);
      if i >= 2 && Cross(h[i - 2], h[i - 1], h[i]) <= 0.0 {
        var g := h[..i - 1] + h[i..];
        ScanIsPushes(g, i - 1);
        PushNext(g, i - 1);
        CutOut(h, i);
      } else {
        ScanIsPushes(h, i + 1);
      }
    }
  }

  /** The scan of points sorted about a pivot, the pivot first and last. */
  function HullFrom(p: Vec, r: seq<Vec>): seq<Vec> {
    Scan([p] + r + [p], 2)
  }

  lemma HullIsPushes(p: Vec, r: seq<Vec>)
    ensures HullFrom(p, r) == PushAll([p], r + [p])
  {
    var h := [p] + r + [p];
    ScanIsPushes(h, 2);
    assert h[..2] == [p, (r + [p])[0]] && h[2..] == (r + [p])[1..];
    assert Push([p], (r + [p])[0]) == [p, (r + [p])[0]];
  }

  /** A hull of the points about p: a ring of three corners at least, with all the points on or left of its edges. */
  ghost predicate Encircles(h: seq<Vec>, p: Vec, points: seq<Vec>) {
    |h| >= 4 && Encloses(h, [p] + points)
  }

  // ----- points in one direction from the pivot

  /** n is on the ray from p through f, at t times its distance. */
  ghost predicate OnRay(p: Vec, f: Vec, n: Vec, t: real) {
    n.x - p.x == t * (f.x - p.x) && n.y - p.y == t * (f.y - p.y)
  }

  lemma SameDirection(p: Vec, a: Vec, b: Vec) returns (t: real)
    requires Beside(p, a) && Beside(p, b) && Cross(p, a, b) == 0.0
    ensures t > 0.0 && OnRay(p, a, b, t)
  {
    var (ax, ay, bx, b_y) := (a.x - p.x, a.y - p.y, b.x - p.x, b.y - p.y);
    t := bx / ax;
    assert t * ax == bx;
    assert ax * (t * ay) == ay * bx;
    assert ax * (b_y - t * ay) == 0.0;
    Signs(ax, b_y - t * ay, ax * (b_y - t * ay));
    Signs(t, ax, bx);
    Signs(t, ay, b_y);
  }

  lemma RayInverse(p: Vec, a: Vec, b: Vec, t: real)
    requires t > 0.0 && OnRay(p, a, b, t)
    ensures OnRay(p, b, a, 1.0 / t) && 1.0 / t > 0.0 && (t > 1.0 ==> 1.0 / t < 1.0)
  {
    var u := 1.0 / t;
    assert u * t == 1.0;
    Scaled(u, t, a.x - p.x);
    Scaled(u, t, a.y - p.y);
    Signs(u, t, 1.0);
    Signs(1.0 - u, t, (1.0 - u) * t);
  }

  lemma Scaled(u: real, t: real, x: real)
    requires u * t == 1.0
    ensures u * (t * x) == x
  {
    assert u * (t * x) == (u * t) * x;
  }

  /** The turns that involve a point on a ray, by those that involve the ray. */
  lemma TurnsOnRay(p: Vec, f: Vec, n: Vec, t: real, y: Vec, z: Vec)
    requires OnRay(p, f, n, t)
    ensures Cross(y, z, n) == (1.0 - t) * Cross(y, z, p) + t * Cross(y, z, f)
    ensures Cross(p, y, n) == t * Cross(p, y, f) && Cross(p, n, y) == t * Cross(p, f, y)
    ensures Cross(p, n, f) == 0.0
    ensures Cross(y, n, f) == (t - 1.0) * Cross(p, y, f) && Cross(y, f, n) == (1.0 - t) * Cross(p, y, f)
    ensures Cross(f, n, y) == (t - 1.0) * Cross(p, f, y)
  {
    var (fx, fy, yx, yy) := (f.x - p.x, f.y - p.y, y.x - p.x, y.y - p.y);
    var (px, py) := (p.x - y.x, p.y - y.y);
    var (zx, zy) := (z.x - y.x, z.y - y.y);
    Products(t, fx, fy, yx, yy);
    Products(t, fx, fy, zx, zy);
    var (a, b) := (yx * fy - yy * fx, zx * fy - zy * fx);
    assert Cross(p, y, f) == a && Cross(p, f, y) == -a;
    CrossFromPivot(p, f, n, t, y, a);
    CrossAlongRay(p, f, n, t, y, z, b);
  }

  lemma Products(t: real, fx: real, fy: real, x: real, y: real)
    ensures x * (t * fy) - y * (t * fx) == t * (x * fy - y * fx)
  {
  }

  lemma CrossFromPivot(p: Vec, f: Vec, n: Vec, t: real, y: Vec, a: real)
    requires OnRay(p, f, n, t) && a == (y.x - p.x) * (f.y - p.y) - (y.y - p.y) * (f.x - p.x)
    ensures Cross(p, y, n) == t * a && Cross(p, n, y) == -(t * a) && Cross(p, n, f) == 0.0
    ensures Cross(y, n, f) == (t - 1.0) * a && Cross(y, f, n) == (1.0 - t) * a && Cross(f, n, y) == -((t - 1.0) * a)
  {
  }

  lemma CrossAlongRay(p: Vec, f: Vec, n: Vec, t: real, y: Vec, z: Vec, b: real)
    requires OnRay(p, f, n, t) && b == (z.x - y.x) * (f.y - p.y) - (z.y - y.y) * (f.x - p.x)
    ensures Cross(y, z, n) == (1.0 - t) * Cross(y, z, p) + t * Cross(y, z, f)
  {
  }

  // ----- chains about the pivot

  ghost predicate Chain(p: Vec, h: seq<Vec>) {
    h != [] && h[0] == p && Fan(h)
  }

  /** The chain is below the direction of c. */
  ghost predicate Under(p: Vec, h: seq<Vec>, c: Vec) {
    forall i :: 1 <= i < |h| ==> Cross(p, h[i], c) > 0.0
  }

  /** Pushing a higher point drops some of the chain, but never its first point besides the pivot. */
  lemma {:induction false} PushChain(p: Vec, h: seq<Vec>, c: Vec) returns (m: nat)
    requires Chain(p, h) && Under(p, h, c)
    ensures 1 <= m <= |h| && (|h| >= 2 ==> m >= 2) && Push(h, c) == h[..m] + [c]
    ensures Chain(p, Push(h, c))
  {
    hide Cross;
    if |h| >= 2 && Cross(h[|h| - 2], h[|h| - 1], c) <= 0.0 {
      FanPrefix(h, |h| - 1);
      m := PushChain(p, h[..|h| - 1], c);
      assert h[..|h| - 1][..m] == h[..m];
    } else {
      m := |h|;
    }
  }

  /** The last two points of a chain have the pivot on or left of them. */
  lemma PivotIsLeft(p: Vec, h: seq<Vec>)
    requires Chain(p, h) && |h| >= 2
    ensures Cross(h[|h| - 2], h[|h| - 1], p) >= 0.0
  {
    hide Cross;
    Turns(p, h[|h| - 2], h[|h| - 1]);
    NoTurn(p, h[|h| - 1]);
  }

  /** A near point before a far one in its direction makes no difference. */
  lemma {:induction false} FarAfterNear(p: Vec, h: seq<Vec>, n: Vec, f: Vec, t: real)
    requires Chain(p, h) && Under(p, h, f) && 0.0 < t <= 1.0 && OnRay(p, f, n, t)
    ensures Push(Push(h, n), f) == Push(h, f)
    decreases |h|
  {
    hide Cross, OnRay;
    var a := h[|h| - 1];
    if |h| >= 2 && Cross(h[|h| - 2], a, n) <= 0.0 {
      var y := h[|h| - 2];
      PivotIsLeft(p, h);
      TurnsOnRay(p, f, n, t, y, a);
      MixIsNonpositive(t, Cross(y, a, p), Cross(y, a, f));
      FanPrefix(h, |h| - 1);
      FarAfterNear(p, h[..|h| - 1], n, f, t);
    } else {
      TurnsOnRay(p, f, n, t, a, a);
      if |h| >= 2 {
        Signs(t - 1.0, Cross(p, a, f), (t - 1.0) * Cross(p, a, f));
      }
      var g := h + [n];
      assert g[|g| - 2] == a && g[|g| - 1] == n && g[..|g| - 1] == h;
    }
  }

  lemma MixIsNonpositive(t: real, a: real, b: real)
    requires 0.0 < t <= 1.0 && a >= 0.0 && (1.0 - t) * a + t * b <= 0.0
    ensures b <= 0.0
  {
    Signs(1.0 - t, a, (1.0 - t) * a);
    Signs(t, b, t * b);
  }

  /** A near point after a far one in its direction is dropped by the next. */
  lemma NearAfterFar(p: Vec, g: seq<Vec>, n: Vec, t: real, c: Vec)
    requires |g| >= 2 && Cross(p, g[|g| - 2], g[|g| - 1]) > 0.0 && 0.0 < t < 1.0 && OnRay(p, g[|g| - 1], n, t)
    requires Cross(p, g[|g| - 1], c) >= 0.0
    ensures Push(Push(g, n), c) == Push(g, c)
  {
    hide Cross, OnRay;
    var (a, f) := (g[|g| - 2], g[|g| - 1]);
    TurnsOnRay(p, f, n, t, a, a);
    Signs(1.0 - t, Cross(p, a, f), (1.0 - t) * Cross(p, a, f));
    TurnsOnRay(p, f, n, t, c, c);
    Signs(t - 1.0, Cross(p, f, c), (t - 1.0) * Cross(p, f, c));
    assert Push(g, n) == g + [n];
    assert (g + [n])[..|g|] == g;
  }

  /** The chain left of a fan. */
  lemma {:induction false} StackOfFan(p: Vec, r: seq<Vec>)
    requires Fan([p] + r)
    ensures var h := PushAll([p], r);
            Chain(p, h) && |h| >= (if r == [] then 1 else 2) && forall i :: 1 <= i < |h| ==> h[i] in r
  {
    hide Cross, Push, PushAll;
    PushNone([p]);
    if r != [] {
      var n := |r| - 1;
      FanPrefix([p] + r, n + 1);
      assert ([p] + r)[..n + 1] == [p] + r[..n];
      StackOfFan(p, r[..n]);
      var h := PushAll([p], r[..n]);
      PushAllConcat([p], r[..n], [r[n]]);
      assert r == r[..n] + [r[n]];
      PushOne(h, r[n]);
      assert r[..n + 1] == r;
      FanUnder(p, r, n, h);
      var m := PushChain(p, h, r[n]);
    }
  }

  lemma PushOne(h: seq<Vec>, c: Vec)
    ensures PushAll(h, [c]) == Push(h, c)
  {
    assert [c][1..] == [];
  }

  lemma FanUnder(p: Vec, r: seq<Vec>, n: nat, h: seq<Vec>)
    requires n < |r| && Fan([p] + r[..n + 1]) && forall i :: 1 <= i < |h| ==> h[i] in r[..n]
    ensures Under(p, h, r[n])
  {
    hide Cross;
    var f := [p] + r[..n + 1];
    forall i | 1 <= i < |h|
      ensures Cross(p, h[i], r[n]) > 0.0
    {
      var j :| 0 <= j < n && r[j] == h[i];
      assert f[j + 1] == r[j] && f[n + 1] == r[n];
    }
  }

  // ----- points in rising order

  /** Points beside the pivot in the order of their angles, equal ones in any order. */
  ghost predicate Rising(p: Vec, r: seq<Vec>) {
    AllBeside(p, r) && forall i, j :: 0 <= i < j < |r| ==> Cross(p, r[i], r[j]) >= 0.0
  }

  lemma SortedRises(p: Vec, r: seq<Vec>)
    requires AllBeside(p, r)
    ensures SortedByAngle(p, r) <==> Rising(p, r)
  {
    hide Cross, LesserAngleWithP, Beside;
    forall i, j | 0 <= i < j < |r|
      ensures !LesserAngleWithP(p, r[j], r[i]) <==> Cross(p, r[i], r[j]) >= 0.0
    {
      LesserIsLeftTurn(p, r[j], r[i]);
      Turns(p, r[i], r[j]);
    }
  }

  lemma StrictTurn(p: Vec, a: Vec, b: Vec, c: Vec)
    requires Beside(p, a) && Beside(p, b) && Beside(p, c)
    requires Cross(p, a, b) >= 0.0 && Cross(p, b, c) > 0.0
    ensures Cross(p, a, c) > 0.0
  {
    var (ax, ay, bx, b_y, cx, cy) := (a.x - p.x, a.y - p.y, b.x - p.x, b.y - p.y, c.x - p.x, c.y - p.y);
    var (ab, bc, ac) := (Cross(p, a, b), Cross(p, b, c), Cross(p, a, c));
    assert b_y * ac == ay * bc + cy * ab;
    Signs(ay, bc, ay * bc);
    Signs(cy, ab, cy * ab);
    Signs(b_y, ac, b_y * ac);
    Signs(ay, bx, ay * bx);
    Signs(ax, cy, ax * cy);
    Signs(b_y, cx, b_y * cx);
  }

  /** The first place where two points in one direction follow each other; before it the order is strict. */
  lemma FirstRepeat(p: Vec, r: seq<Vec>) returns (i: nat)
    requires Rising(p, r) && r != []
    ensures i < |r| && Fan([p] + r[..i + 1]) && (i + 1 < |r| ==> Cross(p, r[i], r[i + 1]) == 0.0)
  {
    hide Cross, Beside;
    i := 0;
    while i + 1 < |r| && Cross(p, r[i], r[i + 1]) != 0.0
      invariant i < |r| && Fan([p] + r[..i + 1])
    {
      FanGrows(p, r, i);
      i := i + 1;
    }
  }

  lemma FanGrows(p: Vec, r: seq<Vec>, i: nat)
    requires Rising(p, r) && i + 1 < |r| && Fan([p] + r[..i + 1]) && Cross(p, r[i], r[i + 1]) != 0.0
    ensures Fan([p] + r[..i + 2])
  {
    hide Cross, Beside;
    var (f, g) := ([p] + r[..i + 1], [p] + r[..i + 2]);
    forall a, b | 1 <= a < b < |g|
      ensures Cross(g[0], g[a], g[b]) > 0.0
    {
      if b <= i + 1 {
        assert g[a] == f[a] && g[b] == f[b];
      } else {
        assert g[b] == r[i + 1] && g[a] == r[a - 1] && r[a - 1] in r && r[i] in r && r[i + 1] in r;
        if a - 1 < i {
          StrictTurn(p, r[a - 1], r[i], r[i + 1]);
        }
      }
    }
  }

  /** Of two points in one direction that follow each other the nearer can be left out: the hull is the same. The first
      two must be in one place. */
  lemma DropRepeat(p: Vec, r: seq<Vec>, i: nat) returns (m: nat, k: nat, t: real)
    requires Rising(p, r) && i + 1 < |r| && Fan([p] + r[..i + 1]) && Cross(p, r[i], r[i + 1]) == 0.0
    requires i == 0 ==> r[0].x == r[1].x && r[0].y == r[1].y
    ensures m < |r| && k < |r| && m != k && 0.0 < t <= 1.0 && OnRay(p, r[k], r[m], t)
    ensures HullFrom(p, r) == HullFrom(p, r[..m] + r[m + 1..])
  {
    hide Cross, OnRay, Push, Beside;
    var (u, v) := (r[i], r[i + 1]);
    assert u in r && v in r;
    t := SameDirection(p, u, v);
    if i > 0 && t < 1.0 {
      m, k := i + 1, i;
      NearIsLeftOut(p, r, i, t);
    } else {
      if i == 0 {
        SamePlaceOnRay(p, u, v, t);
      }
      RayInverse(p, u, v, t);
      t := 1.0 / t;
      m, k := i, i + 1;
      FarReplaces(p, r, i, t);
    }
  }

  lemma SamePlaceOnRay(p: Vec, u: Vec, v: Vec, t: real)
    requires Beside(p, u) && OnRay(p, u, v, t) && u.x == v.x && u.y == v.y
    ensures t == 1.0
  {
    var x := u.x - p.x;
    assert (t - 1.0) * x == 0.0;
    Signs(t - 1.0, x, (t - 1.0) * x);
  }

  lemma SplitAt(p: Vec, r: seq<Vec>, i: nat)
    requires i < |r|
    ensures HullFrom(p, r) == PushAll(PushAll([p], r[..i]), r[i..] + [p])
  {
    HullIsPushes(p, r);
    PushAllConcat([p], r[..i], r[i..] + [p]);
    assert r + [p] == r[..i] + (r[i..] + [p]);
  }

  lemma SlicesAt(p: Vec, r: seq<Vec>, i: nat)
    requires i + 1 < |r|
    ensures var (rest, q, o) := (r[i + 2..] + [p], r[..i] + r[i + 1..], r[..i + 1] + r[i + 2..]);
            && r[i..] + [p] == [r[i]] + ([r[i + 1]] + rest)
            && q[..i] == r[..i] && q[i..] + [p] == [r[i + 1]] + rest
            && o[..i] == r[..i] && o[i..] + [p] == [r[i]] + rest
  {
    assert r[i..] == [r[i]] + ([r[i + 1]] + r[i + 2..]);
    assert (r[..i] + r[i + 1..])[i..] == r[i + 1..] == [r[i + 1]] + r[i + 2..];
    assert (r[..i + 1] + r[i + 2..])[i..] == [r[i]] + r[i + 2..];
  }

  lemma FarReplaces(p: Vec, r: seq<Vec>, i: nat, t: real)
    requires i + 1 < |r| && Fan([p] + r[..i + 1]) && 0.0 < t <= 1.0 && OnRay(p, r[i + 1], r[i], t)
    ensures HullFrom(p, r) == HullFrom(p, r[..i] + r[i + 1..])
  {
    hide Cross, OnRay, Push;
    var (h, q, rest) := (PushAll([p], r[..i]), r[..i] + r[i + 1..], r[i + 2..] + [p]);
    var (u, v) := (r[i], r[i + 1]);
    FanPrefix([p] + r[..i + 1], i + 1);
    assert ([p] + r[..i + 1])[..i + 1] == [p] + r[..i];
    StackOfFan(p, r[..i]);
    FanUnder(p, r, i, h);
    UnderAlong(p, h, v, u, t);
    FarAfterNear(p, h, u, v, t);
    SplitAt(p, r, i);
    SplitAt(p, q, i);
    SlicesAt(p, r, i);
    PushFirst(h, u, [v] + rest);
    PushFirst(Push(h, u), v, rest);
    PushFirst(h, v, rest);
  }

  lemma UnderAlong(p: Vec, h: seq<Vec>, f: Vec, n: Vec, t: real)
    requires Under(p, h, n) && t > 0.0 && OnRay(p, f, n, t)
    ensures Under(p, h, f)
  {
    hide Cross, OnRay;
    forall i | 1 <= i < |h|
      ensures Cross(p, h[i], f) > 0.0
    {
      TurnsOnRay(p, f, n, t, h[i], h[i]);
      Signs(t, Cross(p, h[i], f), t * Cross(p, h[i], f));
    }
  }

  lemma NearIsLeftOut(p: Vec, r: seq<Vec>, i: nat, t: real)
    requires Rising(p, r) && 0 < i && i + 1 < |r| && Fan([p] + r[..i + 1]) && 0.0 < t < 1.0
    requires OnRay(p, r[i], r[i + 1], t)
    ensures HullFrom(p, r) == HullFrom(p, r[..i + 1] + r[i + 2..])
  {
    hide Cross, OnRay, Push;
    var (h, q, rest) := (PushAll([p], r[..i]), r[..i + 1] + r[i + 2..], r[i + 2..] + [p]);
    var (u, v, c) := (r[i], r[i + 1], rest[0]);
    FanPrefix([p] + r[..i + 1], i + 1);
    assert ([p] + r[..i + 1])[..i + 1] == [p] + r[..i];
    StackOfFan(p, r[..i]);
    FanUnder(p, r, i, h);
    var m := PushChain(p, h, u);
    var g := Push(h, u);
    assert g[|g| - 2] == h[m - 1] && Cross(p, h[m - 1], u) > 0.0;
    NoTurn(p, u);
    assert c == if i + 2 < |r| then r[i + 2] else p;
    NearAfterFar(p, g, v, t, c);
    SplitAt(p, r, i);
    SplitAt(p, q, i);
    SlicesAt(p, r, i);
    PushFirst(h, u, [v] + rest);
    PushFirst(g, v, rest);
    PushFirst(h, u, rest);
    assert rest == [c] + rest[1..];
  }

  // ----- when every order is good

  ghost predicate TwoDirections(p: Vec, s: seq<Vec>) {
    exists a, b :: a in s && b in s && Cross(p, a, b) != 0.0
  }

  /** In the lowest direction from p. */
  ghost predicate Lowest(p: Vec, s: seq<Vec>, a: Vec) {
    a in s && forall z :: z in s ==> Cross(p, a, z) >= 0.0
  }

  /** All points in the lowest direction are in one place. */
  ghost predicate LowestCoincide(p: Vec, s: seq<Vec>) {
    forall a, b :: Lowest(p, s, a) && Lowest(p, s, b) ==> a.x == b.x && a.y == b.y
  }

  lemma StrictFanIsGood(p: Vec, r: seq<Vec>)
    requires Fan([p] + r) && TwoDirections(p, r)
    ensures Encircles(HullFrom(p, r), p, r)
  {
    hide Cross, LeftChain, ErasedFrom, Scan;
    AtLeastTwo(p, r);
    var input := [p] + r + [p];
    assert input[..|input| - 1] == [p] + r;
    ScanMakesHull(input);
    EnclosesAmong(HullFrom(p, r), input, [p] + r);
  }

  lemma AtLeastTwo(p: Vec, s: seq<Vec>)
    requires TwoDirections(p, s)
    ensures |s| >= 2
  {
    hide Cross;
    var a, b :| a in s && b in s && Cross(p, a, b) != 0.0;
    NoTurn(p, a);
    assert a != b;
  }

  /** The hull encloses what is among the points it encloses. */
  lemma EnclosesAmong(h: seq<Vec>, points: seq<Vec>, some: seq<Vec>)
    requires Encloses(h, points) && forall q :: q in some ==> q in points
    ensures Encloses(h, some)
  {
    hide Cross;
    forall t | 0 <= t < |h| - 1
      ensures OnOrLeftOf(h[t], h[t + 1], some)
    {
      assert OnOrLeftOf(h[t], h[t + 1], points);
      forall k | 0 <= k < |some|
        ensures Cross(h[t], h[t + 1], some[k]) >= 0.0
      {
        assert some[k] in points;
        var m :| 0 <= m < |points| && points[m] == some[k];
      }
    }
  }

  /** And what lies between the pivot and such a point. */
  lemma EnclosesNear(h: seq<Vec>, p: Vec, r: seq<Vec>, m: nat, k: nat, t: real)
    requires m < |r| && k < |r| && m != k && 0.0 < t <= 1.0 && OnRay(p, r[k], r[m], t)
    requires Encloses(h, [p] + (r[..m] + r[m + 1..]))
    ensures Encloses(h, [p] + r)
  {
    hide Cross, OnRay;
    var (all, some) := ([p] + r, [p] + (r[..m] + r[m + 1..]));
    LeftOut(r, m);
    forall e | 0 <= e < |h| - 1
      ensures OnOrLeftOf(h[e], h[e + 1], all)
    {
      assert OnOrLeftOf(h[e], h[e + 1], some);
      forall j | 0 <= j < |all|
        ensures Cross(h[e], h[e + 1], all[j]) >= 0.0
      {
        if j == m + 1 {
          LeftAt(h[e], h[e + 1], some, p);
          LeftAt(h[e], h[e + 1], some, r[k]);
          TurnsOnRay(p, r[k], r[m], t, h[e], h[e + 1]);
          Signs(1.0 - t, Cross(h[e], h[e + 1], p), (1.0 - t) * Cross(h[e], h[e + 1], p));
          Signs(t, Cross(h[e], h[e + 1], r[k]), t * Cross(h[e], h[e + 1], r[k]));
        } else {
          LeftAt(h[e], h[e + 1], some, all[j]);
        }
      }
    }
  }

  lemma LeftAt(a: Vec, b: Vec, points: seq<Vec>, q: Vec)
    requires OnOrLeftOf(a, b, points) && q in points
    ensures Cross(a, b, q) >= 0.0
  {
    hide Cross;
    var m :| 0 <= m < |points| && points[m] == q;
  }

  /** All elements but one are still there when it is left out. */
  lemma LeftOut(r: seq<Vec>, m: nat)
    requires m < |r|
    ensures forall j :: 0 <= j < |r| && j != m ==> r[j] in r[..m] + r[m + 1..]
    ensures forall q :: q in r[..m] + r[m + 1..] ==> q in r
  {
    var s := r[..m] + r[m + 1..];
    forall j | 0 <= j < |r| && j != m
      ensures r[j] in s
    {
      assert s[if j < m then j else j - 1] == r[j];
    }
  }

  lemma RisingWithout(p: Vec, r: seq<Vec>, m: nat)
    requires Rising(p, r) && m < |r|
    ensures Rising(p, r[..m] + r[m + 1..])
  {
    hide Cross, Beside;
    var s := r[..m] + r[m + 1..];
    LeftOut(r, m);
    forall i, j | 0 <= i < j < |s|
      ensures Cross(p, s[i], s[j]) >= 0.0
    {
      StaysAt(r, m, i);
      StaysAt(r, m, j);
    }
  }

  lemma StaysAt(r: seq<Vec>, m: nat, i: nat)
    requires m < |r| && i < |r| - 1
    ensures (r[..m] + r[m + 1..])[i] == r[if i < m then i else i + 1]
  {
  }

  /** The conditions do not depend on a point with another in its direction. */
  lemma ConditionsWithout(p: Vec, r: seq<Vec>, m: nat, k: nat, t: real)
    requires TwoDirections(p, r) && LowestCoincide(p, r)
    requires m < |r| && k < |r| && m != k && t > 0.0 && OnRay(p, r[k], r[m], t)
    ensures TwoDirections(p, r[..m] + r[m + 1..]) && LowestCoincide(p, r[..m] + r[m + 1..])
  {
    hide Cross, OnRay;
    var s := r[..m] + r[m + 1..];
    LeftOut(r, m);
    var (x, w) := (r[m], r[k]);
    forall z
      ensures Cross(p, z, x) == t * Cross(p, z, w) && Cross(p, x, z) == t * Cross(p, w, z)
      ensures (Cross(p, z, w) >= 0.0 ==> Cross(p, z, x) >= 0.0) && (Cross(p, x, z) != 0.0 ==> Cross(p, w, z) != 0.0)
      ensures Cross(p, z, x) != 0.0 ==> Cross(p, z, w) != 0.0
    {
      TurnsOnRay(p, w, x, t, z, z);
      Signs(t, Cross(p, z, w), t * Cross(p, z, w));
    }
    var a, b :| a in r && b in r && Cross(p, a, b) != 0.0;
    var a' := if a in s then a else w;
    var b' := if b in s then b else w;
    MemberOrOut(r, m, a);
    MemberOrOut(r, m, b);
    assert a' in s && b' in s && Cross(p, a', b') != 0.0;
    forall c | Lowest(p, s, c)
      ensures Lowest(p, r, c)
    {
      forall z | z in r
        ensures Cross(p, c, z) >= 0.0
      {
        MemberOrOut(r, m, z);
      }
    }
  }

  lemma MemberOrOut(r: seq<Vec>, m: nat, z: Vec)
    requires m < |r| && z in r
    ensures z in r[..m] + r[m + 1..] || z == r[m]
  {
    LeftOut(r, m);
    var j :| 0 <= j < |r| && r[j] == z;
  }

  lemma FirstTwoCoincide(p: Vec, r: seq<Vec>)
    requires Rising(p, r) && LowestCoincide(p, r) && |r| >= 2 && Cross(p, r[0], r[1]) == 0.0
    ensures r[0].x == r[1].x && r[0].y == r[1].y
  {
    hide Cross, Beside;
    NoTurn(p, r[0]);
    NoTurn(p, r[1]);
    Turns(p, r[0], r[1]);
    Turns(p, r[0], r[0]); Turns(p, r[1], r[1]);
    assert Lowest(p, r, r[0]) && Lowest(p, r, r[1]);
  }

  /** Where the points in the lowest direction coincide, and not all are in one direction, the hull is good. */
  lemma {:induction false} RisingIsGood(p: Vec, r: seq<Vec>)
    requires Rising(p, r) && TwoDirections(p, r) && LowestCoincide(p, r)
    ensures Encircles(HullFrom(p, r), p, r)
    decreases |r|
  {
    hide Cross, OnRay, Beside, TwoDirections, LowestCoincide, HullFrom, Encloses, Rising;
    AtLeastTwo(p, r);
    var i := FirstRepeat(p, r);
    if i + 1 == |r| {
      assert r[..i + 1] == r;
      StrictFanIsGood(p, r);
    } else {
      if i == 0 {
        FirstTwoCoincide(p, r);
      }
      var m, k, t := DropRepeat(p, r, i);
      var s := r[..m] + r[m + 1..];
      RisingWithout(p, r, m);
      ConditionsWithout(p, r, m, k, t);
      RisingIsGood(p, s);
      EnclosesNear(HullFrom(p, r), p, r, m, k, t);
    }
  }

  // ----- when some order is not

  /** Points none of which turns left from the one before collapse to the last of them, and then to the pivot. */
  lemma {:induction false} Collapse(p: Vec, r: seq<Vec>)
    requires forall i :: 0 <= i < |r| - 1 ==> Cross(p, r[i], r[i + 1]) <= 0.0
    ensures PushAll([p], r) == if r == [] then [p] else [p, r[|r| - 1]]
  {
    hide Cross, PushAll;
    PushNone([p]);
    if r != [] {
      var n := |r| - 1;
      Collapse(p, r[..n]);
      PushAllConcat([p], r[..n], [r[n]]);
      assert r == r[..n] + [r[n]];
      PushOne(PushAll([p], r[..n]), r[n]);
      PushOnPair(p, if n == 0 then p else r[n - 1], r[n]);
    }
  }

  lemma PushOnPair(p: Vec, x: Vec, c: Vec)
    ensures Push([p], c) == [p, c]
    ensures Cross(p, x, c) <= 0.0 ==> Push([p, x], c) == [p, c]
  {
    assert [p, x][..1] == [p];
  }

  lemma CollapsesToPivot(p: Vec, r: seq<Vec>)
    requires forall i :: 0 <= i < |r| - 1 ==> Cross(p, r[i], r[i + 1]) <= 0.0
    ensures HullFrom(p, r) == [p, p]
  {
    hide Cross, PushAll, HullFrom;
    HullIsPushes(p, r);
    Collapse(p, r);
    PushAllConcat([p], r, [p]);
    PushOne(PushAll([p], r), p);
    var x := if r == [] then p else r[|r| - 1];
    NoTurn(p, x);
    PushOnPair(p, x, p);
  }

  /** The elements that are so, or those that are not, in their order. */
  function Those(r: seq<Vec>, so: Vec -> bool, want: bool): seq<Vec> {
    if r == [] then []
    else Those(r[..|r| - 1], so, want) + if so(r[|r| - 1]) == want then [r[|r| - 1]] else []
  }

  lemma {:induction false} ThoseAre(r: seq<Vec>, so: Vec -> bool, want: bool)
    ensures forall q :: q in Those(r, so, want) <==> q in r && so(q) == want
  {
    if r != [] {
      var n := |r| - 1;
      ThoseAre(r[..n], so, want);
      assert r == r[..n] + [r[n]];
    }
  }

  lemma {:induction false} ThoseSplit(r: seq<Vec>, so: Vec -> bool)
    ensures multiset(Those(r, so, true) + Those(r, so, false)) == multiset(r)
    ensures multiset(Those(r, so, false) + Those(r, so, true)) == multiset(r)
  {
    hide Those;
    ThoseNext(r, so, true);
    ThoseNext(r, so, false);
    if r != [] {
      var n := |r| - 1;
      ThoseSplit(r[..n], so);
      MultisetWith(Those(r[..n], so, true), Those(r[..n], so, false), r[..n], r[n]);
      assert r == r[..n] + [r[n]];
    }
  }

  lemma ThoseNext(r: seq<Vec>, so: Vec -> bool, want: bool)
    ensures r == [] ==> Those(r, so, want) == []
    ensures r != [] ==>
              var n := |r| - 1;
              Those(r, so, want) ==
              if so(r[n]) == want then Those(r[..n], so, want) + [r[n]] else Those(r[..n], so, want)
  {
  }

  lemma MultisetWith(a: seq<Vec>, b: seq<Vec>, r: seq<Vec>, q: Vec)
    requires multiset(a + b) == multiset(r)
    ensures multiset((a + [q]) + b) == multiset(r + [q]) && multiset(a + (b + [q])) == multiset(r + [q])
    ensures multiset((b + [q]) + a) == multiset(r + [q]) && multiset(b + (a + [q])) == multiset(r + [q])
  {
  }

  lemma {:induction false} ThoseSorted(p: Vec, r: seq<Vec>, so: Vec -> bool, want: bool)
    requires SortedByAngle(p, r)
    ensures SortedByAngle(p, Those(r, so, want))
  {
    hide LesserAngleWithP;
    if r != [] {
      var n := |r| - 1;
      ThoseSorted(p, r[..n], so, want);
      ThoseAre(r[..n], so, want);
      var s := Those(r, so, want);
      forall i, j | 0 <= i < j < |s|
        ensures !LesserAngleWithP(p, s[j], s[i])
      {
        if j == |Those(r[..n], so, want)| {
          assert s[i] in Those(r[..n], so, want);
          var k :| 0 <= k < n && r[k] == s[i];
        }
      }
    }
  }

  /** There is an order std::sort may leave the points in. */
  lemma {:induction false} SomeOrder(p: Vec, s: seq<Vec>) returns (r: seq<Vec>)
    requires StrictWeak(p, s)
    ensures multiset(r) == multiset(s) && SortedByAngle(p, r)
  {
    hide LesserAngleWithP, StrictWeak, SortedByAngle;
    if s == [] {
      r := [];
      NothingToSort(p);
    } else {
      var n := |s| - 1;
      assert s == s[..n] + [s[n]];
      StrictWeakAmong(p, s, s[..n]);
      var t := SomeOrder(p, s[..n]);
      SameMembers(t, s[..n]);
      StrictWeakAmong(p, s, t + [s[n]]);
      r := WithOneMore(p, t, s[n]);
    }
  }

  lemma NothingToSort(p: Vec)
    ensures SortedByAngle(p, [])
  {
  }

  lemma WithOneMore(p: Vec, t: seq<Vec>, q: Vec) returns (r: seq<Vec>)
    requires StrictWeak(p, t + [q]) && SortedByAngle(p, t)
    ensures multiset(r) == multiset(t + [q]) && SortedByAngle(p, r)
  {
    hide LesserAngleWithP, StrictWeak, SortedByAngle;
    var k := |t|;
    while k > 0 && LesserAngleWithP(p, q, t[k - 1])
      invariant 0 <= k <= |t|
      invariant forall i :: k <= i < |t| ==> LesserAngleWithP(p, q, t[i])
    {
      k := k - 1;
    }
    InsertedIsSorted(p, t, q, k);
    r := t[..k] + [q] + t[k..];
    assert t == t[..k] + t[k..];
  }

  lemma SameMembers(r: seq<Vec>, s: seq<Vec>)
    requires multiset(r) == multiset(s)
    ensures forall q :: q in r <==> q in s
  {
    forall q
      ensures q in r <==> q in s
    {
      assert q in r <==> q in multiset(r);
      assert q in s <==> q in multiset(s);
    }
  }

  /** Every order std::sort may leave the points s in gives a hull that encloses them. */
  ghost predicate GoodInEveryOrder(p: Vec, s: seq<Vec>) {
    forall r: seq<Vec> :: multiset(r) == multiset(s) && SortedByAngle(p, r) ==> Encircles(HullFrom(p, r), p, s)
  }

  lemma BadOrder(p: Vec, s: seq<Vec>, r: seq<Vec>)
    requires multiset(r) == multiset(s) && SortedByAngle(p, r) && !Encircles(HullFrom(p, r), p, s)
    ensures !GoodInEveryOrder(p, s)
  {
  }

  /** With a point on the pivot's vertical the others are in two lines from the pivot, and in the wrong order of these
      all points are lost. */
  lemma VerticalCollapses(p: Vec, s: seq<Vec>, v: Vec) returns (r: seq<Vec>)
    requires (forall q :: q in s ==> !Lower(q, p)) && StrictWeak(p, s) && v in s && v.x == p.x
    ensures multiset(r) == multiset(s) && SortedByAngle(p, r) && HullFrom(p, r) == [p, p]
  {
    hide Cross, LesserAngleWithP, StrictWeak, HullFrom, Encloses;
    StrictWeakExactly(p, s);
    var on := (q: Vec) => q.x == p.x;
    var (verticals, others) := (Those(s, on, true), Those(s, on, false));
    ThoseSplit(s, on);
    ThoseAre(s, on, true);
    ThoseAre(s, on, false);
    var right := exists o :: o in others && o.x > p.x;
    OneSide(p, others, right);
    r := if right then verticals + others else others + verticals;
    if right {
      DownInOrder(p, verticals, others, right);
    } else {
      DownInOrder(p, others, verticals, right);
    }
    CollapsesToPivot(p, r);
  }

  /** Two lists of points, with no turn to the left in them or from the first to the second. */
  lemma DownInOrder(p: Vec, first: seq<Vec>, second: seq<Vec>, right: bool)
    requires forall q :: q in first || q in second ==> !Lower(q, p) && if right then q.x >= p.x else q.x <= p.x
    requires forall a, b :: a in first + second && b in first + second && a.x != p.x && b.x != p.x ==>
               Cross(p, a, b) == 0.0
    requires forall q :: q in (if right then first else second) ==> q.x == p.x
    requires forall q :: q in (if right then second else first) ==> q.x != p.x
    ensures SortedByAngle(p, first + second)
    ensures var r := first + second; forall i :: 0 <= i < |r| - 1 ==> Cross(p, r[i], r[i + 1]) <= 0.0
  {
    hide Cross, LesserAngleWithP, Lower;
    var r := first + second;
    forall i, j | 0 <= i < j < |r|
      ensures Cross(p, r[i], r[j]) <= 0.0 && !LesserAngleWithP(p, r[j], r[i])
    {
      assert r[i] in r && r[j] in r;
      assert if i < |first| then r[i] in first else r[i] in second && r[j] in second;
      assert if j < |first| then r[j] in first else r[j] in second;
      VerticalTurns(p, r[i], r[j], right);
    }
  }

  lemma OneSide(p: Vec, others: seq<Vec>, right: bool)
    requires right == exists o :: o in others && o.x > p.x
    requires forall a, b :: a in others && b in others ==> Cross(p, a, b) == 0.0
    requires forall q :: q in others ==> Beside(p, q)
    ensures forall q :: q in others ==> if right then q.x > p.x else q.x < p.x
  {
    hide Cross, OnRay;
    if right {
      var o :| o in others && o.x > p.x;
      forall q | q in others
        ensures q.x > p.x
      {
        var t := SameDirection(p, o, q);
        AlongRay(p, o, q, t);
      }
    }
  }

  lemma AlongRay(p: Vec, o: Vec, q: Vec, t: real)
    requires OnRay(p, o, q, t) && t > 0.0 && o.x > p.x
    ensures q.x > p.x
  {
    Signs(t, o.x - p.x, t * (o.x - p.x));
  }

  lemma VerticalTurns(p: Vec, a: Vec, b: Vec, right: bool)
    requires !Lower(a, p) && !Lower(b, p)
    requires right ==> a.x >= p.x && b.x >= p.x && (a.x > p.x ==> b.x > p.x)
    requires !right ==> a.x <= p.x && b.x <= p.x && (b.x < p.x ==> a.x < p.x)
    requires a.x != p.x && b.x != p.x ==> Cross(p, a, b) == 0.0
    ensures Cross(p, a, b) <= 0.0 && !LesserAngleWithP(p, b, a)
  {
    if a.x == p.x || b.x == p.x {
      var (ax, ay, bx, b_y) := (a.x - p.x, a.y - p.y, b.x - p.x, b.y - p.y);
      Signs(ax, b_y, ax * b_y);
      Signs(ay, bx, ay * bx);
    } else {
      hide LesserAngleWithP;
      LesserIsLeftTurn(p, b, a);
      Turns(p, a, b);
    }
  }

  /** The chain keeps its first two points, and a third above them. */
  ghost predicate FirstTwo(p: Vec, b: Vec, h: seq<Vec>) {
    |h| >= 2 && h[0] == p && h[1] == b && (|h| >= 3 ==> Cross(p, b, h[2]) > 0.0)
  }

  lemma {:induction false} PushKeepsTwo(p: Vec, b: Vec, h: seq<Vec>, c: Vec)
    requires FirstTwo(p, b, h) && (Cross(p, b, c) > 0.0 || (c == p && |h| >= 3))
    ensures FirstTwo(p, b, Push(h, c)) && |Push(h, c)| >= 3
  {
    hide Cross;
    if |h| == 3 {
      Turns(p, b, h[2]);
    }
    if Cross(h[|h| - 2], h[|h| - 1], c) <= 0.0 {
      PushKeepsTwo(p, b, h[..|h| - 1], c);
    }
  }

  lemma {:induction false} PushAllKeepsTwo(p: Vec, b: Vec, h: seq<Vec>, cs: seq<Vec>)
    requires FirstTwo(p, b, h) && forall c :: c in cs ==> Cross(p, b, c) > 0.0
    ensures FirstTwo(p, b, PushAll(h, cs)) && (cs != [] ==> |PushAll(h, cs)| >= 3)
    decreases cs
  {
    hide Cross, Push, FirstTwo;
    if cs != [] {
      PushKeepsTwo(p, b, h, cs[0]);
      PushAllKeepsTwo(p, b, Push(h, cs[0]), cs[1..]);
      LongerStays(p, b, h, cs);
    }
  }

  lemma LongerStays(p: Vec, b: Vec, h: seq<Vec>, cs: seq<Vec>)
    requires cs != [] && FirstTwo(p, b, Push(h, cs[0])) && |Push(h, cs[0])| >= 3
    requires cs[1..] != [] ==> |PushAll(Push(h, cs[0]), cs[1..])| >= 3
    ensures |PushAll(h, cs)| >= 3
  {
    hide Cross, Push;
    if cs[1..] == [] {
      PushNone(Push(h, cs[0]));
    }
  }

  /** Of the points in the lowest direction the last one stays; a farther one is then outside. */
  lemma NearLastIsBad(p: Vec, s: seq<Vec>, low: seq<Vec>, high: seq<Vec>, a: Vec, b: Vec, t: real)
    requires low != [] && low[|low| - 1] == b && high != [] && a in s
    requires forall i :: 0 <= i < |low| - 1 ==> Cross(p, low[i], low[i + 1]) <= 0.0
    requires forall z :: z in high ==> Cross(p, b, z) > 0.0
    requires t > 1.0 && OnRay(p, b, a, t)
    ensures !Encircles(HullFrom(p, low + high), p, s)
  {
    hide Cross, OnRay, PushAll, Push;
    var h := HullFrom(p, low + high);
    HullIsPushes(p, low + high);
    Collapse(p, low);
    PushAllConcat([p], low, high + [p]);
    assert (low + high) + [p] == low + (high + [p]);
    PushAllConcat([p, b], high, [p]);
    PushAllKeepsTwo(p, b, [p, b], high);
    var g := PushAll([p, b], high);
    PushOne(g, p);
    PushKeepsTwo(p, b, g, p);
    assert h == Push(g, p);
    var x := h[2];
    TurnsOnRay(p, b, a, t, x, x);
    Signs(t - 1.0, Cross(p, b, x), (t - 1.0) * Cross(p, b, x));
    Turns(b, a, x);
    NotLeft(h, 1, [p] + s, a);
  }

  lemma NotLeft(h: seq<Vec>, e: nat, points: seq<Vec>, a: Vec)
    requires e + 1 < |h| && a in points && Cross(h[e], h[e + 1], a) < 0.0
    ensures !Encloses(h, points)
  {
    hide Cross;
    if Encloses(h, points) {
      LeftAt(h[e], h[e + 1], points, a);
    }
  }

  /** Two points in the lowest direction at different distances. */
  lemma LowestApartIsBad(p: Vec, s: seq<Vec>, a: Vec, b: Vec, t: real)
    requires AllBeside(p, s) && TwoDirections(p, s) && Lowest(p, s, a) && Lowest(p, s, b)
    requires t > 1.0 && OnRay(p, b, a, t)
    ensures !GoodInEveryOrder(p, s)
  {
    hide Cross, OnRay, Beside, LesserAngleWithP, StrictWeak, HullFrom, Encloses, TwoDirections;
    BesideIsStrictWeak(p, s);
    var r := SomeOrder(p, s);
    SameMembers(r, s);
    var flat := (q: Vec) => Cross(p, b, q) == 0.0;
    var (lows, high) := (Those(r, flat, true), Those(r, flat, false));
    ThoseSplit(r, flat);
    ThoseAre(r, flat, true);
    ThoseAre(r, flat, false);
    ThoseSorted(p, r, flat, false);
    NoTurn(p, b);
    SomeAbove(p, s, b);
    assert b in lows;
    var i :| 0 <= i < |lows| && lows[i] == b;
    var low := lows[..i] + lows[i + 1..] + [b];
    MovedLast(lows, i, high);
    LowThenHigh(p, s, b, low, high);
    NearLastIsBad(p, s, low, high, a, b, t);
    BadOrder(p, s, low + high);
  }

  lemma SomeAbove(p: Vec, s: seq<Vec>, b: Vec)
    requires AllBeside(p, s) && TwoDirections(p, s) && b in s
    ensures exists z :: z in s && Cross(p, b, z) != 0.0
  {
    hide Cross, OnRay, Beside;
    var c, d :| c in s && d in s && Cross(p, c, d) != 0.0;
    if Cross(p, b, c) == 0.0 && Cross(p, b, d) == 0.0 {
      var t := SameDirection(p, b, c);
      TurnsOnRay(p, b, c, t, d, d);
    }
  }

  lemma MovedLast(lows: seq<Vec>, i: nat, high: seq<Vec>)
    requires i < |lows|
    ensures var low := lows[..i] + lows[i + 1..] + [lows[i]];
            multiset(low + high) == multiset(lows + high) && forall q :: q in low <==> q in lows
  {
    var low := lows[..i] + lows[i + 1..] + [lows[i]];
    assert lows == lows[..i] + [lows[i]] + lows[i + 1..];
    assert multiset(low) == multiset(lows);
    SameMembers(low, lows);
  }

  lemma LowThenHigh(p: Vec, s: seq<Vec>, b: Vec, low: seq<Vec>, high: seq<Vec>)
    requires AllBeside(p, s) && Lowest(p, s, b) && SortedByAngle(p, high)
    requires forall q :: q in low || q in high ==> q in s
    requires (forall q :: q in low ==> Cross(p, b, q) == 0.0) && forall q :: q in high ==> Cross(p, b, q) != 0.0
    ensures SortedByAngle(p, low + high)
    ensures forall i :: 0 <= i < |low| - 1 ==> Cross(p, low[i], low[i + 1]) <= 0.0
    ensures forall z :: z in high ==> Cross(p, b, z) > 0.0
  {
    hide Cross, OnRay, Beside, LesserAngleWithP;
    forall q, z | q in low && z in s
      ensures Cross(p, q, z) >= 0.0 && (z in low ==> Cross(p, q, z) == 0.0)
    {
      var t := SameDirection(p, b, q);
      TurnsOnRay(p, b, q, t, z, z);
      Signs(t, Cross(p, b, z), t * Cross(p, b, z));
    }
    var r := low + high;
    forall i, j | 0 <= i < j < |r|
      ensures !LesserAngleWithP(p, r[j], r[i])
    {
      if i < |low| {
        assert r[i] in low && (if j < |low| then r[j] in low else r[j] in high);
        LesserIsLeftTurn(p, r[j], r[i]);
        Turns(p, r[i], r[j]);
      } else {
        assert r[i] == high[i - |low|] && r[j] == high[j - |low|];
      }
    }
    forall i | 0 <= i < |low| - 1
      ensures Cross(p, low[i], low[i + 1]) <= 0.0
    {
      assert low[i] in low && low[i + 1] in low;
    }
  }

  lemma FlatIsBad(p: Vec, s: seq<Vec>)
    requires AllBeside(p, s) && !TwoDirections(p, s)
    ensures !GoodInEveryOrder(p, s)
  {
    hide Cross, HullFrom, Encloses, Beside, LesserAngleWithP;
    forall i, j | 0 <= i < |s| && 0 <= j < |s|
      ensures Cross(p, s[i], s[j]) == 0.0
    {
      assert s[i] in s && s[j] in s;
    }
    SortedRises(p, s);
    CollapsesToPivot(p, s);
    BadOrder(p, s, s);
  }

  /** When the points s about their lowest point p have a hull that encloses them in whatever order std::sort may leave
      them: exactly when none is on the vertical through p, they are not all in one direction from it, and those in the
      lowest direction are in one place. */
  lemma HullExactly(p: Vec, s: seq<Vec>)
    requires (forall q :: q in s ==> !Lower(q, p)) && StrictWeak(p, s)
    ensures GoodInEveryOrder(p, s) <==>
              (forall q :: q in s ==> q.x != p.x) && TwoDirections(p, s) && LowestCoincide(p, s)
  {
    hide Cross, OnRay, HullFrom, Encloses, LesserAngleWithP, TwoDirections, StrictWeak, SortedByAngle;
    if v :| v in s && v.x == p.x {
      var r := VerticalCollapses(p, s, v);
      BadOrder(p, s, r);
    } else if !TwoDirections(p, s) {
      FlatIsBad(p, s);
    } else if LowestCoincide(p, s) {
      forall r: seq<Vec> | multiset(r) == multiset(s) && SortedByAngle(p, r)
        ensures Encircles(HullFrom(p, r), p, s)
      {
        OrderIsGood(p, s, r);
      }
    } else {
      var a, b :| Lowest(p, s, a) && Lowest(p, s, b) && !(a.x == b.x && a.y == b.y);
      ApartOnRay(p, s, a, b);
    }
  }

  lemma OrderIsGood(p: Vec, s: seq<Vec>, r: seq<Vec>)
    requires AllBeside(p, s) && TwoDirections(p, s) && LowestCoincide(p, s)
    requires multiset(r) == multiset(s) && SortedByAngle(p, r)
    ensures Encircles(HullFrom(p, r), p, s)
  {
    hide Cross, HullFrom, Encloses, Beside, LesserAngleWithP;
    SameMembers(r, s);
    assert TwoDirections(p, r) && (forall a :: Lowest(p, r, a) <==> Lowest(p, s, a));
    SortedRises(p, r);
    RisingIsGood(p, r);
    EnclosesAmong(HullFrom(p, r), [p] + r, [p] + s);
  }

  lemma ApartOnRay(p: Vec, s: seq<Vec>, a: Vec, b: Vec)
    requires AllBeside(p, s) && TwoDirections(p, s) && Lowest(p, s, a) && Lowest(p, s, b) && !(a.x == b.x && a.y == b.y)
    ensures !GoodInEveryOrder(p, s)
  {
    hide Cross, HullFrom, Encloses, Beside, TwoDirections, LesserAngleWithP;
    Turns(p, a, b);
    var t := SameDirection(p, b, a);
    if t > 1.0 {
      LowestApartIsBad(p, s, a, b, t);
    } else {
      RayInverse(p, b, a, t);
      assert t != 1.0;
      InverseIsMore(t);
      LowestApartIsBad(p, s, b, a, 1.0 / t);
    }
  }

  lemma InverseIsMore(t: real)
    requires 0.0 < t < 1.0
    ensures 1.0 / t > 1.0
  {
    var u := 1.0 / t;
    assert u * t == 1.0;
    Signs(u - 1.0, t, (u - 1.0) * t);
  }

  // ----- the filter

  /** No point but the pivot is on its vertical, the points are in two directions from it or more, and those in the
      lowest are in one place. */
  ghost predicate Hullable(points: seq<Vec>) {
    && ClearOfPivot(points)
    && forall k: nat :: IsPivot(k, points) ==>
         TwoDirections(points[k], Without(points, k)) && LowestCoincide(points[k], Without(points, k))
  }

  /** Exactly then std::sort gets an order, and whatever it makes of it the hull encloses all points. */
  lemma HullableExactly(points: seq<Vec>)
    ensures Hullable(points) <==>
              && Sortable(points)
              && forall k: nat :: IsPivot(k, points) ==> GoodInEveryOrder(points[k], Without(points, k))
  {
    hide Cross, Lower, StrictWeak, TwoDirections, LowestCoincide, GoodInEveryOrder;
    if ClearOfPivot(points) {
      ClearIsSortable(points);
    }
    if Sortable(points) {
      forall k: nat | IsPivot(k, points)
        ensures GoodInEveryOrder(points[k], Without(points, k)) <==>
                  && (forall q :: q in Without(points, k) ==> q.x != points[k].x)
                  && TwoDirections(points[k], Without(points, k)) && LowestCoincide(points[k], Without(points, k))
      {
        LeftOut(points, k);
        HullExactly(points[k], Without(points, k));
      }
    }
  }

  /** It is enough that no two points are in one direction from the pivot. */
  lemma DistinctAnglesSuffice(points: seq<Vec>)
    requires ClearOfPivot(points) && |points| >= 3
    requires forall k: nat :: IsPivot(k, points) ==>
               var rest := Without(points, k);
               forall i, j :: 0 <= i < j < |rest| ==> Cross(points[k], rest[i], rest[j]) != 0.0
    ensures Hullable(points)
  {
    hide Cross, Lower;
    forall k: nat | IsPivot(k, points)
      ensures TwoDirections(points[k], Without(points, k)) && LowestCoincide(points[k], Without(points, k))
    {
      var (p, rest) := (points[k], Without(points, k));
      assert rest[0] in rest && rest[1] in rest;
      forall a, b | Lowest(p, rest, a) && Lowest(p, rest, b)
        ensures a == b
      {
        Turns(p, a, b);
        assert Cross(p, a, b) == 0.0 && Cross(p, b, a) == 0.0;
        var i :| 0 <= i < |rest| && rest[i] == a;
        var j :| 0 <= j < |rest| && rest[j] == b;
        assert i == j;
      }
    }
  }

  function Closed(hull: seq<Vec>, closeLoop: bool): seq<Vec> {
    if closeLoop || hull == [] then hull else hull + [hull[0]]
  }

  /** The ring is the scan of the other points in an order r that std::sort may leave them in about the k-th. */
  ghost predicate ComesFrom(ring: seq<Vec>, points: seq<Vec>, k: nat, r: seq<Vec>) {
    && IsPivot(k, points) && multiset(r) == multiset(Without(points, k)) && SortedByAngle(points[k], r)
    && ring == HullFrom(points[k], r)
  }

  /** ConvexHullFilter::process on the collected points. The hull is the scan of an order std::sort may leave them in;
      its corners are input points and turn left. Where every order is good, the polygon through them has every input
      point on or left of each of its edges. */
  method Hull(points: seq<Vec>, closeLoop: bool) returns (hull: seq<Vec>)
    requires Sortable(points)
    ensures |points| == 0 ==> hull == []
    ensures |points| == 1 ==> hull == [points[0], points[0]]
    ensures |points| >= 2 ==>
              var ring := Closed(hull, closeLoop);
              && |ring| >= 2 && ring[|ring| - 1] == ring[0] && LeftChain(ring) && Among(ring, points)
              && (Hullable(points) ==> |ring| >= 4 && Encloses(ring, points))
              && exists k, r :: ComesFrom(ring, points, k, r)
  {
    hide Cross, LeftChain, SortedByAngle, ClosedFan, Encloses, ErasedFrom, Hullable, Lower, Sortable, HullFrom, Among,
         ComesFrom;
    var sorted;
    ghost var k;
    sorted, k := SortPoints(points);
    hull := BuildHull(sorted, closeLoop);
    if |points| >= 2 {
      ghost var r := sorted[1..|points|];
      HullOfOrder(points, k, r);
      Came(Closed(hull, closeLoop), points, k, r);
    }
  }

  lemma Came(ring: seq<Vec>, points: seq<Vec>, k: nat, r: seq<Vec>)
    requires IsPivot(k, points) && multiset(r) == multiset(Without(points, k)) && SortedByAngle(points[k], r)
    requires ring == HullFrom(points[k], r)
    ensures exists k, r :: ComesFrom(ring, points, k, r)
  {
    hide HullFrom, SortedByAngle;
    assert ComesFrom(ring, points, k, r);
  }

  lemma HullOfOrder(points: seq<Vec>, k: nat, r: seq<Vec>)
    requires |points| >= 2 && IsPivot(k, points) && multiset(r) == multiset(Without(points, k))
    requires SortedByAngle(points[k], r)
    ensures var (p, h) := (points[k], HullFrom(points[k], r));
            && h == Scan([p] + r + [p], 2) && |h| >= 2 && h[0] == p && h[|h| - 1] == p
            && LeftChain(h) && Among(h, points) && (Hullable(points) ==> |h| >= 4 && Encloses(h, points))
  {
    hide Cross, LeftChain, SortedByAngle, ClosedFan, Encloses, Hullable, Lower, Scan, Among;
    var (p, rest) := (points[k], Without(points, k));
    SameMembers(r, rest);
    LeftOut(points, k);
    var (h, input) := (HullFrom(p, r), [p] + r + [p]);
    ScanMakesHull(input);
    assert forall q :: q in input ==> q in points;
    AmongErased(h, input, points);
    if Hullable(points) {
      HullableIsGood(points, k, r);
    }
  }

  lemma HullableIsGood(points: seq<Vec>, k: nat, r: seq<Vec>)
    requires |points| >= 2 && IsPivot(k, points) && multiset(r) == multiset(Without(points, k))
    requires SortedByAngle(points[k], r) && Hullable(points)
    ensures Encircles(HullFrom(points[k], r), points[k], Without(points, k))
    ensures Encloses(HullFrom(points[k], r), points)
  {
    hide Cross, SortedByAngle, Encloses, Lower, HullFrom, TwoDirections, LowestCoincide;
    var (p, rest) := (points[k], Without(points, k));
    RestIsBeside(points, k);
    OrderIsGood(p, rest, r);
    forall q | q in points
      ensures q in [p] + rest
    {
      MemberOrOut(points, k, q);
    }
    EnclosesAmong(HullFrom(p, r), [p] + rest, points);
  }

  lemma AmongErased(h: seq<Vec>, input: seq<Vec>, points: seq<Vec>)
    requires ErasedFrom(h, input) && forall q :: q in input ==> q in points
    ensures Among(h, points)
  {
    var at :| KeptAt(h, input, at);
    forall t | 0 <= t < |h|
      ensures h[t] in points
    {
      assert input[at[t]] in input;
    }
  }

  // ----- a point on the pivot's vertical where there is no order

  lemma RightIsLesser(p: Vec, a: Vec, b: Vec)
    requires b.x < p.x < a.x
    ensures LesserAngleWithP(p, a, b)
  {
  }

  /** A point v on the vertical between a and b may be sorted first. The scan then drops it, and the hull encloses all
      points if and only if v is on or left of the edge from a to b. */
  lemma VerticalMayBeLost(p: Vec, v: Vec, a: Vec, b: Vec)
    requires v.x == p.x && v.y > p.y && Beside(p, a) && Beside(p, b) && b.x < p.x < a.x
    ensures SortedByAngle(p, [v, a, b]) && HullFrom(p, [v, a, b]) == [p, a, b, p]
    ensures Encircles([p, a, b, p], p, [v, a, b]) <==> Cross(a, b, v) >= 0.0
  {
    hide Cross, LesserAngleWithP, Push, PushAll, HullFrom, Encloses;
    VerticalIsEquivalent(p, v, a);
    VerticalIsEquivalent(p, v, b);
    RightIsLesser(p, a, b);
    LesserIsLeftTurn(p, a, b);
    LesserAsymmetric(p, a, b);
    TurnsAtVertical(p, v, a);
    TurnsAtVertical(p, v, b);
    Turns(p, a, b);
    PushesVertical(p, v, a, b);
    EnclosesTriangle(p, a, b, v);
    assert [p] + [v, a, b] == [p, v, a, b];
  }

  lemma PushesVertical(p: Vec, v: Vec, a: Vec, b: Vec)
    requires Cross(p, v, a) <= 0.0 && Cross(p, a, b) > 0.0
    ensures HullFrom(p, [v, a, b]) == [p, a, b, p]
  {
    hide Cross, Push, PushAll, HullFrom;
    HullIsPushes(p, [v, a, b]);
    assert [v, a, b] + [p] == [v] + ([a] + ([b] + [p]));
    PushFirst([p], v, [a] + ([b] + [p]));
    PushOnPair(p, a, v); PushOnPair(p, v, a);
    PushFirst([p, v], a, [b] + [p]);
    TriangleStays(p, a, b);
    PushFirst([p, a], b, [p]);
    PushOne([p, a, b], p);
  }

  lemma TriangleStays(p: Vec, a: Vec, b: Vec)
    requires Cross(p, a, b) > 0.0
    ensures Push([p, a], b) == [p, a, b] && Push([p, a, b], p) == [p, a, b, p]
  {
    hide Cross;
    Turns(p, a, b);
  }

  /** Signs of the turns between the pivot, a point v above it and a point q beside it. */
  lemma TurnsAtVertical(p: Vec, v: Vec, q: Vec)
    requires v.x == p.x && v.y > p.y
    ensures q.x > p.x ==> Cross(p, v, q) < 0.0 && Cross(p, q, v) > 0.0
    ensures q.x < p.x ==> Cross(p, v, q) > 0.0 && Cross(p, q, v) < 0.0
  {
    Turns(p, v, q);
    Signs(v.y - p.y, q.x - p.x, (v.y - p.y) * (q.x - p.x));
  }

  lemma EnclosesTriangle(p: Vec, a: Vec, b: Vec, v: Vec)
    requires Cross(p, a, b) > 0.0 && Cross(p, a, v) > 0.0 && Cross(p, v, b) > 0.0
    ensures Encloses([p, a, b, p], [p, v, a, b]) <==> Cross(a, b, v) >= 0.0
  {
    hide Cross;
    var (g, points) := ([p, a, b, p], [p, v, a, b]);
    Turns(p, a, b); Turns(p, v, b);
    NoTurn(p, a); NoTurn(a, b); NoTurn(b, p);
    assert points[0] == p && points[1] == v && points[2] == a && points[3] == b;
    assert OnOrLeftOf(p, a, points) && OnOrLeftOf(b, p, points);
    assert OnOrLeftOf(a, b, points) <==> Cross(a, b, v) >= 0.0;
    assert g[0] == p && g[1] == a && g[2] == b && g[3] == p;
  }
}
