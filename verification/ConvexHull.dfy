/** The Graham scan of ConvexHullFilter.cpp: sortPoints, then buildHull. */
module ConvexHull {
  import opened Basics
  import opened Geometry

  /** Twice the signed area of a, b, c: positive when the three turn left. */
  function Cross(a: Vec, b: Vec, c: Vec): real {
    (b.x - a.x) * (c.y - a.y) - (b.y - a.y) * (c.x - a.x)
  }

  predicate LesserAngleWithP(p: Vec, v0: Vec, v1: Vec) {
    var k0x, k0y, k1x, k1y := v0.x - p.x, v0.y - p.y, v1.x - p.x, v1.y - p.y;
    if k0x > 0.0 && k1x < 0.0 then true
    else if k1x > 0.0 && k0x < 0.0 then false
    else if k0x > 0.0 && k1x > 0.0 then k0y / k0x < k1y / k1x
    else if k0x < 0.0 && k1x < 0.0 then k0y / (-k0x) > k1y / (-k1x)
    else false
  }

  /** q may stand beside the pivot p: not lower, not at the same height to its left, not on its vertical. */
  predicate Beside(p: Vec, q: Vec) {
    && q.x != p.x
    && (q.y > p.y || (q.y == p.y && q.x > p.x))
  }

  // ----- signs of turns

  lemma Turns(a: Vec, b: Vec, c: Vec)
    ensures Cross(a, b, c) == Cross(b, c, a) == Cross(c, a, b)
    ensures Cross(a, c, b) == Cross(c, b, a) == Cross(b, a, c) == -Cross(a, b, c)
    ensures Cross(a, a, b) == Cross(a, b, b) == 0.0
  {
    TurnsOfVectors(b.x - a.x, b.y - a.y, c.x - a.x, c.y - a.y);
    TurnsOfVectors(c.x - a.x, c.y - a.y, b.x - a.x, b.y - a.y);
  }

  lemma NoTurn(a: Vec, b: Vec)
    ensures Cross(a, b, a) == 0.0 && Cross(a, b, b) == 0.0
  {
    Turns(a, b, b);
  }

  lemma TurnsOfVectors(ux: real, uy: real, vx: real, vy: real)
    ensures (vx - ux) * (-uy) - (vy - uy) * (-ux) == ux * vy - uy * vx
    ensures (-vx) * (uy - vy) - (-vy) * (ux - vx) == ux * vy - uy * vx
  {
  }

  /** The relation between the turns of four points as seen from a fifth. */
  lemma FivePoints(v: Vec, a: Vec, b: Vec, c: Vec, d: Vec)
    ensures Cross(v, a, b) * Cross(v, c, d) - Cross(v, a, c) * Cross(v, b, d)
            + Cross(v, a, d) * Cross(v, b, c) == 0.0
  {
    FourVectors(a.x - v.x, a.y - v.y, b.x - v.x, b.y - v.y, c.x - v.x, c.y - v.y, d.x - v.x, d.y - v.y);
  }

  lemma FourVectors(ax: real, ay: real, bx: real, b_y: real, cx: real, cy: real, dx: real, dy: real)
    ensures (ax * b_y - ay * bx) * (cx * dy - cy * dx) - (ax * cy - ay * cx) * (bx * dy - b_y * dx)
            + (ax * dy - ay * dx) * (bx * cy - b_y * cx) == 0.0
  {
  }

  /** A turn that stays left over two steps of a fan about p stays left over both. */
  lemma LeftThrough(p: Vec, u: Vec, v: Vec, w: Vec, c: Vec)
    requires Cross(u, v, w) > 0.0 && Cross(v, w, c) > 0.0
    requires Cross(p, u, v) >= 0.0 && Cross(p, v, w) > 0.0 && Cross(p, v, c) > 0.0
    ensures Cross(u, v, c) > 0.0
  {
    hide Cross;
    FivePoints(v, u, w, c, p);
    Turns(u, v, w); Turns(v, c, p); Turns(u, v, c); Turns(v, w, p); Turns(v, u, p);
    Balance(Cross(v, u, w), Cross(v, c, p), Cross(v, u, c), Cross(v, w, p), Cross(v, u, p), Cross(v, w, c));
  }

  lemma Balance(x1: real, y1: real, x2: real, y2: real, x3: real, y3: real)
    requires x1 * y1 - x2 * y2 + x3 * y3 == 0.0
    requires x1 < 0.0 && y1 > 0.0 && y2 > 0.0 && x3 <= 0.0 && y3 > 0.0
    ensures x2 < 0.0
  {
    var m1, m2, m3 := x1 * y1, x2 * y2, x3 * y3;
    Signs(x1, y1, m1);
    Signs(x2, y2, m2);
    Signs(x3, y3, m3);
  }

  /** Dropping b, which does not turn left from a to c, keeps a point that follows a in the fan on the left. */
  lemma DropKeepsLater(p: Vec, a: Vec, b: Vec, c: Vec, q: Vec)
    requires Cross(a, b, c) <= 0.0 && Cross(a, b, q) >= 0.0
    requires Cross(p, a, b) > 0.0 && Cross(p, a, c) > 0.0 && Cross(p, a, q) >= 0.0
    ensures Cross(a, c, q) >= 0.0
  {
    hide Cross;
    FivePoints(a, b, c, q, p);
    Turns(a, q, p); Turns(a, c, p); Turns(a, b, p);
    BalanceLater(Cross(a, b, c), Cross(a, q, p), Cross(a, b, q), Cross(a, c, p), Cross(a, b, p), Cross(a, c, q));
  }

  lemma BalanceLater(x1: real, y1: real, x2: real, y2: real, x3: real, y3: real)
    requires x1 * y1 - x2 * y2 + x3 * y3 == 0.0
    requires x1 <= 0.0 && y1 >= 0.0 && x2 >= 0.0 && y2 > 0.0 && x3 > 0.0
    ensures y3 >= 0.0
  {
    var m1, m2, m3 := x1 * y1, x2 * y2, x3 * y3;
    Signs(x1, y1, m1);
    Signs(x2, y2, m2);
    Signs(x3, y3, m3);
  }

  /** A left turn z, a, c keeps a point that precedes a in the fan, and is left of z, a, left of a, c. */
  lemma LeftKeepsEarlier(p: Vec, z: Vec, a: Vec, c: Vec, q: Vec)
    requires Cross(z, a, q) >= 0.0 && Cross(z, a, c) > 0.0
    requires Cross(p, z, a) > 0.0 && Cross(p, q, a) > 0.0 && Cross(p, a, c) > 0.0
    ensures Cross(a, c, q) >= 0.0
  {
    hide Cross;
    FivePoints(a, c, q, z, p);
    Turns(a, z, p); Turns(a, c, z); Turns(a, q, p); Turns(a, c, p); Turns(a, q, z);
    BalanceEarlier(Cross(a, c, q), Cross(a, z, p), Cross(a, c, z), Cross(a, q, p), Cross(a, c, p), Cross(a, q, z));
  }

  lemma BalanceEarlier(x1: real, y1: real, x2: real, y2: real, x3: real, y3: real)
    requires x1 * y1 - x2 * y2 + x3 * y3 == 0.0
    requires y1 < 0.0 && x2 > 0.0 && y2 < 0.0 && x3 > 0.0 && y3 >= 0.0
    ensures x1 >= 0.0
  {
    var m1, m2, m3 := x1 * y1, x2 * y2, x3 * y3;
    Signs(x1, y1, m1);
    Signs(x2, y2, m2);
    Signs(x3, y3, m3);
  }

  // ----- the scan

  ghost predicate LeftChain(h: seq<Vec>) {
    forall t {:trigger h[t]} :: 0 <= t && t + 2 < |h| ==> Cross(h[t], h[t + 1], h[t + 2]) > 0.0
  }

  /** The points start at the pivot and go round it strictly counter-clockwise. */
  ghost predicate Fan(s: seq<Vec>) {
    |s| >= 1 && forall i, j :: 1 <= i < j < |s| ==> Cross(s[0], s[i], s[j]) > 0.0
  }

  ghost predicate OnOrLeftOf(a: Vec, b: Vec, points: seq<Vec>) {
    forall k :: 0 <= k < |points| ==> Cross(a, b, points[k]) >= 0.0
  }

  ghost predicate Encloses(h: seq<Vec>, points: seq<Vec>) {
    forall t :: 0 <= t < |h| - 1 ==> OnOrLeftOf(h[t], h[t + 1], points)
  }

  ghost predicate Among(h: seq<Vec>, points: seq<Vec>) {
    forall t :: 0 <= t < |h| ==> h[t] in points
  }

  /** h is the part of the hull built from the points seen so far. */
  ghost predicate HullOf(h: seq<Vec>, seen: seq<Vec>) {
    && |h| >= 2 && |seen| >= 2 && h[0] == seen[0]
    && Among(h[1..], seen[1..]) && Fan(h) && LeftChain(h) && Encloses(h, seen)
  }

  /** Either the last hull point is the last point seen, or the point b beyond it was dropped for c. */
  ghost predicate Covers(h: seq<Vec>, seen: seq<Vec>, c: Vec, dropped: Option<Vec>)
    requires |h| >= 2 && |seen| >= 2
  {
    var a := h[|h| - 1];
    match dropped
    case None => a == seen[|seen| - 1]
    case Some(b) => Cross(a, b, c) <= 0.0 && Cross(h[0], a, b) > 0.0 && OnOrLeftOf(a, b, seen)
  }

  lemma {:induction false} NewPointLeftOfEdges(h: seq<Vec>, c: Vec, t: nat)
    requires t < |h| - 1 && LeftChain(h) && Fan(h + [c])
    requires |h| >= 2 && Cross(h[|h| - 2], h[|h| - 1], c) > 0.0
    ensures Cross(h[t], h[t + 1], c) > 0.0
    decreases |h| - t
  {
    if t + 2 < |h| {
      NewPointLeftOfEdges(h, c, t + 1);
      var f := h + [c];
      assert f[0] == h[0] && f[t] == h[t] && f[t + 1] == h[t + 1] && f[t + 2] == h[t + 2] && f[|h|] == c;
      Turns(h[0], h[0], h[t + 1]);
      LeftThrough(h[0], h[t], h[t + 1], h[t + 2], c);
    }
  }

  lemma FirstEdge(seen: seq<Vec>)
    requires |seen| == 2
    ensures HullOf(seen, seen)
  {
    Turns(seen[0], seen[0], seen[1]);
    assert seen[0] == seen[0];
    assert Cross(seen[0], seen[1], seen[0]) == 0.0 && Cross(seen[0], seen[1], seen[1]) == 0.0 by {
      Turns(seen[0], seen[1], seen[1]);
    }
  }

  lemma FanWith(h: seq<Vec>, seen: seq<Vec>, c: Vec)
    requires HullOf(h, seen) && Fan(seen + [c])
    ensures Fan(h + [c])
  {
    hide Cross;
    forall t | 1 <= t < |h|
      ensures Cross(h[0], h[t], c) > 0.0
    {
      var m := IndexIn(h, seen, t);
      var f := seen + [c];
      assert Cross(f[0], f[m], f[|seen|]) > 0.0;
    }
  }

  lemma IndexIn(h: seq<Vec>, seen: seq<Vec>, t: nat) returns (m: nat)
    requires |h| >= 2 && |seen| >= 2 && 1 <= t < |h| && Among(h[1..], seen[1..])
    ensures 1 <= m < |seen| && seen[m] == h[t]
  {
    assert h[1..][t - 1] in seen[1..];
    m :| 1 <= m < |seen| && seen[m] == h[t];
  }

  /** A point seen before the last hull point is left of the new edge. */
  lemma NewEdgeEarlier(h: seq<Vec>, seen: seq<Vec>, c: Vec, m: nat, k: nat)
    requires HullOf(h, seen) && Fan(seen + [c]) && Cross(h[|h| - 2], h[|h| - 1], c) > 0.0
    requires 1 <= k < m < |seen| && seen[m] == h[|h| - 1]
    ensures Cross(h[|h| - 1], c, seen[k]) >= 0.0
  {
    hide Cross, LeftChain, Among;
    var p, z, a, q, f := h[0], h[|h| - 2], h[|h| - 1], seen[k], seen + [c];
    assert Cross(p, a, c) > 0.0 by { assert Cross(f[0], f[m], f[|seen|]) > 0.0; }
    assert Cross(p, q, a) > 0.0 by { assert Cross(f[0], f[k], f[m]) > 0.0; }
    assert OnOrLeftOf(z, a, seen);
    assert Cross(z, a, q) >= 0.0;
    Turns(p, q, a);
    assert |h| >= 3;
    LeftKeepsEarlier(p, z, a, c, q);
  }

  /** A point seen after the last hull point is left of the new edge: there is one only if a point was dropped. */
  lemma NewEdgeLater(h: seq<Vec>, seen: seq<Vec>, c: Vec, dropped: Option<Vec>, m: nat, k: nat)
    requires HullOf(h, seen) && Covers(h, seen, c, dropped) && Fan(seen + [c])
    requires 1 <= m < k < |seen| && seen[m] == h[|h| - 1]
    ensures Cross(h[|h| - 1], c, seen[k]) >= 0.0
  {
    hide Cross, LeftChain, Among, Encloses;
    var p, a, q, f := h[0], h[|h| - 1], seen[k], seen + [c];
    assert Cross(p, a, q) > 0.0 by { assert Cross(f[0], f[m], f[k]) > 0.0; }
    assert Cross(p, a, c) > 0.0 by { assert Cross(f[0], f[m], f[|seen|]) > 0.0; }
    if dropped.None? {
      var last := |seen| - 1;
      assert m < last && Cross(f[0], f[m], f[last]) > 0.0;
      Turns(a, a, p);
      assert false;
    } else {
      DropKeepsLater(p, a, dropped.value, c, q);
    }
  }

  /** The closing edge of the new hull part has every point seen on or left of it. */
  lemma NewEdge(h: seq<Vec>, seen: seq<Vec>, c: Vec, dropped: Option<Vec>)
    requires HullOf(h, seen) && Covers(h, seen, c, dropped) && Fan(seen + [c])
    requires Cross(h[|h| - 2], h[|h| - 1], c) > 0.0
    ensures OnOrLeftOf(h[|h| - 1], c, seen)
  {
    hide Cross, LeftChain, Encloses, Covers;
    var p, a := h[0], h[|h| - 1];
    var m := IndexIn(h, seen, |h| - 1);
    assert Cross(p, a, c) > 0.0 by {
      var f := seen + [c];
      assert Cross(f[0], f[m], f[|seen|]) > 0.0;
    }
    Turns(p, a, c);
    Turns(a, a, c);
    forall k | 0 <= k < |seen|
      ensures Cross(a, c, seen[k]) >= 0.0
    {
      if 1 <= k < m {
        NewEdgeEarlier(h, seen, c, m, k);
      } else if m < k {
        NewEdgeLater(h, seen, c, dropped, m, k);
      }
    }
  }

  lemma Accept(h: seq<Vec>, seen: seq<Vec>, c: Vec, dropped: Option<Vec>)
    requires HullOf(h, seen) && Covers(h, seen, c, dropped) && Fan(seen + [c])
    requires Cross(h[|h| - 2], h[|h| - 1], c) > 0.0
    ensures HullOf(h + [c], seen + [c])
    ensures forall next :: Covers(h + [c], seen + [c], next, None)
  {
    hide Cross, LeftChain, OnOrLeftOf;
    FanWith(h, seen, c);
    NewEdge(h, seen, c, dropped);
    assert (h + [c])[1..] == h[1..] + [c] && (seen + [c])[1..] == seen[1..] + [c];
    LeftChainExtend(h, c);
    forall t | 0 <= t < |h + [c]| - 1
      ensures OnOrLeftOf((h + [c])[t], (h + [c])[t + 1], seen + [c])
    {
      if t < |h| - 1 {
        assert OnOrLeftOf(h[t], h[t + 1], seen);
        NewPointLeftOfEdges(h, c, t);
        LeftOfMore(h[t], h[t + 1], seen, c);
      } else {
        Turns(h[t], c, c);
        LeftOfMore(h[t], c, seen, c);
      }
    }
  }

  lemma LeftOfMore(a: Vec, b: Vec, seen: seq<Vec>, c: Vec)
    requires OnOrLeftOf(a, b, seen) && Cross(a, b, c) >= 0.0
    ensures OnOrLeftOf(a, b, seen + [c])
  {
    hide Cross;
  }

  lemma LeftChainExtend(h: seq<Vec>, c: Vec)
    requires |h| >= 2 && LeftChain(h) && Cross(h[|h| - 2], h[|h| - 1], c) > 0.0
    ensures LeftChain(h + [c])
  {
    hide Cross;
    var g := h + [c];
    forall t | 0 <= t && t + 2 < |g|
      ensures Cross(g[t], g[t + 1], g[t + 2]) > 0.0
    {
      if t + 2 < |h| {
        assert Cross(h[t], h[t + 1], h[t + 2]) > 0.0;
      }
    }
  }

  lemma Drop(h: seq<Vec>, seen: seq<Vec>, c: Vec)
    requires HullOf(h, seen) && Fan(seen + [c])
    requires Cross(h[|h| - 2], h[|h| - 1], c) <= 0.0
    ensures |h| >= 3
    ensures HullOf(h[..|h| - 1], seen) && Covers(h[..|h| - 1], seen, c, Some(h[|h| - 1]))
  {
    hide Cross, LeftChain;
    FanWith(h, seen, c);
    var f, n := h + [c], |h|;
    assert Cross(f[0], f[n - 1], f[n]) > 0.0;
    assert n >= 3;
    assert OnOrLeftOf(h[n - 2], h[n - 1], seen);
    assert Cross(h[0], h[n - 2], h[n - 1]) > 0.0;
    DropLast(h, seen);
  }

  lemma DropLast(h: seq<Vec>, seen: seq<Vec>)
    requires HullOf(h, seen) && |h| >= 3
    ensures HullOf(h[..|h| - 1], seen)
  {
    hide Cross, OnOrLeftOf;
    var g := h[..|h| - 1];
    assert g[1..] == h[1..][..|h| - 2];
    forall t | 0 <= t < |g| - 1
      ensures OnOrLeftOf(g[t], g[t + 1], seen)
    {
      assert OnOrLeftOf(h[t], h[t + 1], seen);
    }
  }

  /** The last hull point turns left to the pivot, and past it. */
  lemma CloseTurns(h: seq<Vec>, seen: seq<Vec>, c: Vec)
    requires HullOf(h, seen) && Covers(h, seen, c, None) && Fan(seen) && |seen| >= 3 && c == seen[0]
    ensures |h| >= 3 && Cross(h[|h| - 2], h[|h| - 1], c) > 0.0
  {
    hide Cross, LeftChain, Among;
    var a := h[|h| - 1];
    assert Cross(c, seen[1], a) > 0.0;
    Turns(c, seen[1], a);
    assert OnOrLeftOf(h[|h| - 2], h[|h| - 1], seen);
    assert Cross(h[|h| - 2], h[|h| - 1], seen[1]) >= 0.0;
    assert |h| >= 3;
    assert Cross(h[0], h[|h| - 2], h[|h| - 1]) > 0.0;
    Turns(h[0], h[|h| - 2], h[|h| - 1]);
  }

  /** The edge from the last point of a fan back to the pivot. */
  lemma CloseEdge(seen: seq<Vec>)
    requires Fan(seen) && |seen| >= 2
    ensures OnOrLeftOf(seen[|seen| - 1], seen[0], seen)
  {
    hide Cross;
    var c, a, last := seen[0], seen[|seen| - 1], |seen| - 1;
    forall k | 0 <= k < |seen|
      ensures Cross(a, c, seen[k]) >= 0.0
    {
      Turns(c, seen[k], a);
      Turns(c, c, a);
      Turns(c, a, a);
      if 0 < k < last {
        assert Cross(seen[0], seen[k], seen[last]) > 0.0;
      }
    }
  }

  lemma Close(h: seq<Vec>, seen: seq<Vec>, c: Vec)
    requires HullOf(h, seen) && Covers(h, seen, c, None) && Fan(seen) && |seen| >= 3 && c == seen[0]
    ensures |h| >= 3 && Cross(h[|h| - 2], h[|h| - 1], c) > 0.0
    ensures Encloses(h + [c], seen + [c])
  {
    hide Cross, LeftChain, Among, Fan, OnOrLeftOf;
    CloseTurns(h, seen, c);
    CloseEdge(seen);
    Turns(h[|h| - 1], c, c);
    LeftOfMore(h[|h| - 1], c, seen, c);
    forall t | 0 <= t < |h| - 1
      ensures OnOrLeftOf(h[t], h[t + 1], seen + [c])
    {
      assert OnOrLeftOf(h[t], h[t + 1], seen);
      LeftOfOne(h[t], h[t + 1], seen, 0);
      LeftOfMore(h[t], h[t + 1], seen, c);
    }
  }

  lemma LeftOfOne(a: Vec, b: Vec, seen: seq<Vec>, k: nat)
    requires OnOrLeftOf(a, b, seen) && k < |seen|
    ensures Cross(a, b, seen[k]) >= 0.0
  {
  }

  ghost predicate Increasing(at: seq<nat>, bound: nat) {
    && (forall t :: 0 <= t < |at| ==> at[t] < bound)
    && (forall t, u :: 0 <= t < u < |at| ==> at[t] < at[u])
  }

  /** h is what is left of s after erasing some elements; the others keep their order. */
  ghost predicate ErasedFrom(h: seq<Vec>, s: seq<Vec>) {
    exists at: seq<nat> :: KeptAt(h, s, at)
  }

  ghost predicate KeptAt(h: seq<Vec>, s: seq<Vec>, at: seq<nat>) {
    |at| == |h| && Increasing(at, |s|) && forall t :: 0 <= t < |h| ==> h[t] == s[at[t]]
  }

  /** A closed round trip of a fan with at least two points besides the pivot. */
  ghost predicate ClosedFan(s: seq<Vec>) {
    |s| >= 4 && Fan(s[..|s| - 1]) && s[|s| - 1] == s[0]
  }

  lemma FanPrefix(s: seq<Vec>, k: nat)
    requires Fan(s) && 1 <= k <= |s|
    ensures Fan(s[..k])
  {
    hide Cross;
    var r := s[..k];
    forall i, j | 1 <= i < j < |r|
      ensures Cross(r[0], r[i], r[j]) > 0.0
    {
      assert Cross(s[0], s[i], s[j]) > 0.0;
    }
  }

  /** What the scan knows at position i: the unread rest is that of the input, and what is kept of the
      part read is left turns, some of its points in order. */
  ghost predicate Reading(hull: seq<Vec>, i: nat, input: seq<Vec>, at: seq<nat>) {
    && 1 <= i <= |hull| <= |input|
    && hull[0] == input[0]
    && hull[i..] == input[|input| - |hull| + i..]
    && LeftChain(hull[..i])
    && KeptAt(hull[..i], input[..|input| - |hull| + i], at)
    && (i == |hull| ==> i >= 2 && hull[i - 1] == input[|input| - 1])
  }

  /** What it knows besides on a closed fan. */
  ghost predicate Scanning(hull: seq<Vec>, i: nat, input: seq<Vec>, dropped: Option<Vec>)
    requires 1 <= i <= |hull| <= |input|
  {
    var j := |input| - |hull| + i;
    if i == |hull| then |hull| >= 4 && Encloses(hull, input)
    else
      && i >= 2 && j >= 2 && HullOf(hull[..i], input[..j]) && Covers(hull[..i], input[..j], hull[i], dropped)
      && (i + 1 == |hull| ==> dropped == None)
  }

  lemma ReadStart(input: seq<Vec>)
    requires |input| >= 3
    ensures Reading(input, 2, input, [0, 1])
    ensures ClosedFan(input) ==> Scanning(input, 2, input, None)
  {
    if ClosedFan(input) {
      FirstEdge(input[..2]);
    }
  }

  lemma ReadKeep(hull: seq<Vec>, i: nat, input: seq<Vec>, at: seq<nat>)
    requires Reading(hull, i, input, at) && i < |hull|
    requires i >= 2 ==> Cross(hull[i - 2], hull[i - 1], hull[i]) > 0.0
    ensures |at| == i && Reading(hull, i + 1, input, at + [|input| - |hull| + i])
  {
    hide Cross;
    var j := |input| - |hull| + i;
    assert hull[i] == hull[i..][0] == input[j];
    assert hull[..i + 1] == hull[..i] + [hull[i]];
    if i >= 2 { LeftChainExtend(hull[..i], hull[i]); }
  }

  lemma ReadDrop(hull: seq<Vec>, i: nat, input: seq<Vec>, at: seq<nat>)
    requires Reading(hull, i, input, at) && 2 <= i < |hull|
    ensures |at| == i && Reading(hull[..i - 1] + hull[i..], i - 1, input, at[..i - 1])
  {
    hide Cross;
    var g := hull[..i - 1] + hull[i..];
    assert g[..i - 1] == hull[..i][..i - 1] && g[i - 1..] == hull[i..];
  }

  lemma BodyIsFan(input: seq<Vec>, j: nat)
    requires ClosedFan(input) && 2 <= j < |input|
    ensures Fan(input[..j]) && |input| >= 4 && input[|input| - 1] == input[0]
  {
    FanPrefix(input[..|input| - 1], j);
    assert input[..|input| - 1][..j] == input[..j];
  }

  lemma ScanKeep(hull: seq<Vec>, i: nat, input: seq<Vec>, at: seq<nat>, dropped: Option<Vec>)
    requires ClosedFan(input) && Reading(hull, i, input, at) && i < |hull| && Scanning(hull, i, input, dropped)
    ensures i >= 2
    ensures i + 1 == |hull| || Cross(hull[i - 2], hull[i - 1], hull[i]) > 0.0 ==>
              Cross(hull[i - 2], hull[i - 1], hull[i]) > 0.0 && Scanning(hull, i + 1, input, None)
  {
    hide Cross, HullOf, Covers, LeftChain, Fan, Encloses, KeptAt, ClosedFan;
    var j := |input| - |hull| + i;
    var h, seen, c := hull[..i], input[..j], hull[i];
    assert c == hull[i..][0] == input[j];
    assert input[..j + 1] == seen + [c] && hull[..i + 1] == h + [c];
    if i + 1 == |hull| {
      BodyIsFan(input, j);
      Close(h, seen, c);
      assert hull == h + [c] && input == seen + [c];
    } else if Cross(hull[i - 2], hull[i - 1], c) > 0.0 {
      BodyIsFan(input, j + 1);
      Accept(h, seen, c, dropped);
    }
  }

  lemma ScanDrop(hull: seq<Vec>, i: nat, input: seq<Vec>, at: seq<nat>, dropped: Option<Vec>)
    requires ClosedFan(input) && Reading(hull, i, input, at) && i < |hull| && Scanning(hull, i, input, dropped)
    requires i >= 2 && Cross(hull[i - 2], hull[i - 1], hull[i]) <= 0.0
    ensures Scanning(hull[..i - 1] + hull[i..], i - 1, input, Some(hull[i - 1]))
  {
    hide Cross, HullOf, Covers, LeftChain, Fan, Encloses, KeptAt, ClosedFan;
    ScanKeep(hull, i, input, at, dropped);
    var j := |input| - |hull| + i;
    var h, seen, c := hull[..i], input[..j], hull[i];
    assert c == hull[i..][0] == input[j];
    assert input[..j + 1] == seen + [c];
    BodyIsFan(input, j + 1);
    Drop(h, seen, c);
    var g := hull[..i - 1] + hull[i..];
    assert g[..i - 1] == h[..i - 1];
  }

  lemma ScanEnd(hull: seq<Vec>, input: seq<Vec>, dropped: Option<Vec>)
    requires 1 <= |hull| <= |input| && Scanning(hull, |hull|, input, dropped)
    ensures |hull| >= 4 && Encloses(hull, input)
  {
  }

  lemma ReadEnd(hull: seq<Vec>, input: seq<Vec>, at: seq<nat>)
    requires Reading(hull, |hull|, input, at)
    ensures |hull| >= 2 && hull[0] == input[0] && hull[|hull| - 1] == input[|input| - 1]
    ensures LeftChain(hull) && ErasedFrom(hull, input)
  {
    hide Cross;
    assert hull[..|hull|] == hull && input[..|input|] == input;
    assert KeptAt(hull, input, at);
  }

  /** The points left of h when the scan goes on at position i. */
  function Scan(h: seq<Vec>, i: nat): seq<Vec>
    requires 1 <= i <= |h|
    decreases 2 * |h| - i
  {
    if i == |h| then h
    else if i >= 2 && Cross(h[i - 2], h[i - 1], h[i]) <= 0.0 then Scan(h[..i - 1] + h[i..], i - 1)
    else Scan(h, i + 1)
  }

  /** What is left of the input at the end, whatever it is: points of it in order, with the same two ends, that turn
      left throughout; and for a closed fan a ring that has every point on or left of each of its edges. */
  ghost predicate IsHullOf(hull: seq<Vec>, input: seq<Vec>) {
    && LeftChain(hull) && ErasedFrom(hull, input)
    && |hull| >= 2 && |input| >= 1 && hull[0] == input[0] && hull[|hull| - 1] == input[|input| - 1]
    && (ClosedFan(input) ==> |hull| >= 4 && Encloses(hull, input))
  }

  lemma {:induction false} ScanGoesOn(hull: seq<Vec>, i: nat, input: seq<Vec>, at: seq<nat>, dropped: Option<Vec>)
    requires 1 <= i <= |hull| <= |input| && |at| == i && Reading(hull, i, input, at)
    requires ClosedFan(input) ==> Scanning(hull, i, input, dropped)
    ensures IsHullOf(Scan(hull, i), input)
    decreases 2 * |hull| - i
  {
    hide Cross, Reading, Scanning, ClosedFan, Encloses, ErasedFrom, LeftChain;
    if i == |hull| {
      ReadEnd(hull, input, at);
      if ClosedFan(input) {
        ScanEnd(hull, input, dropped);
      }
    } else {
      if ClosedFan(input) {
        ScanKeep(hull, i, input, at, dropped);
      }
      if i >= 2 && Cross(hull[i - 2], hull[i - 1], hull[i]) <= 0.0 {
        if ClosedFan(input) {
          ScanDrop(hull, i, input, at, dropped);
        }
        ReadDrop(hull, i, input, at);
        ScanGoesOn(hull[..i - 1] + hull[i..], i - 1, input, at[..i - 1], Some(hull[i - 1]));
      } else {
        ReadKeep(hull, i, input, at);
        ScanGoesOn(hull, i + 1, input, at + [|input| - |hull| + i], None);
      }
    }
  }

  /** The scan of any list of three points or more. */
  lemma ScanMakesHull(input: seq<Vec>)
    requires |input| >= 3
    ensures IsHullOf(Scan(input, 2), input)
  {
    ReadStart(input);
    ScanGoesOn(input, 2, input, [0, 1], None);
  }

  /** The scan in place, with its retreating position. */
  method BuildHull(input: seq<Vec>, closeLoop: bool) returns (hull: seq<Vec>)
    ensures |input| < 3 ==> hull == input
    ensures |input| >= 3 ==>
              && (if closeLoop then hull else hull + [input[|input| - 1]]) == Scan(input, 2)
              && IsHullOf(Scan(input, 2), input)
  {
    hide Cross, IsHullOf;
    hull := input;
    if |hull| >= 3 {
      var i := 2;
      while i != |hull|
        invariant 1 <= i <= |hull| && Scan(hull, i) == Scan(input, 2)
        decreases 2 * |hull| - i
      {
        if i >= 2 {
          var p2, p1, p0 := hull[i], hull[i - 1], hull[i - 2];
          var cross2d := Cross(p0, p1, p2);
          var isLeftTurn := cross2d > 0.0;
          if !isLeftTurn {
            hull := hull[..i - 1] + hull[i..];
            i := i - 1;
            i := i - 1;
          }
        }
        i := i + 1;
      }
      ScanMakesHull(input);
      if !closeLoop {
        EndsAtStart(hull, input);
        hull := hull[..|hull| - 1];
      }
    }
  }

  lemma EndsAtStart(hull: seq<Vec>, input: seq<Vec>)
    requires IsHullOf(hull, input)
    ensures |hull| >= 1 && |input| >= 1 && hull[..|hull| - 1] + [input[|input| - 1]] == hull
  {
  }

  // ----- sorting about the pivot

  /** Beside the pivot the source's comparator is the sign of the turn. */
  lemma LesserIsLeftTurn(p: Vec, a: Vec, b: Vec)
    requires Beside(p, a) && Beside(p, b)
    ensures LesserAngleWithP(p, a, b) <==> Cross(p, a, b) > 0.0
  {
    var ax, ay, bx, b_y := a.x - p.x, a.y - p.y, b.x - p.x, b.y - p.y;
    Signs(ax, b_y, ax * b_y);
    Signs(ay, bx, ay * bx);
    if ax > 0.0 && bx > 0.0 {
      SlopeOrder(ay, ax, b_y, bx);
    } else if ax < 0.0 && bx < 0.0 {
      SlopeOrder(b_y, -bx, ay, -ax);
      assert b_y * (-ax) == -(ax * b_y) && ay * (-bx) == -(ay * bx);
    }
  }

  lemma SlopeOrder(n: real, d: real, m: real, e: real)
    requires d > 0.0 && e > 0.0
    ensures n / d < m / e <==> n * e < m * d
  {
    var q, r := n / d, m / e;
    assert n == q * d && m == r * e;
    var f := d * e;
    Signs(d, e, f);
    assert n * e == q * f && m * d == r * f;
    if q < r { Signs(r - q, f, (r - q) * f); } else { Signs(q - r, f, (q - r) * f); }
  }

  /** The angular order of points beside the pivot is transitive. */
  lemma TurnTransitive(p: Vec, a: Vec, b: Vec, c: Vec)
    requires Beside(p, a) && Beside(p, b) && Beside(p, c)
    requires Cross(p, a, b) >= 0.0 && Cross(p, b, c) >= 0.0
    ensures Cross(p, a, c) >= 0.0
  {
    var ax, ay, bx, b_y, cx, cy := a.x - p.x, a.y - p.y, b.x - p.x, b.y - p.y, c.x - p.x, c.y - p.y;
    var ab, bc, ac := Cross(p, a, b), Cross(p, b, c), Cross(p, a, c);
    assert b_y * ac == ay * bc + cy * ab;
    Signs(ay, bc, ay * bc);
    Signs(cy, ab, cy * ab);
    Signs(b_y, ac, b_y * ac);
    if b_y == 0.0 {
      assert ab == -(ay * bx);
      Signs(ay, bx, ay * bx);
      Signs(ax, cy, ax * cy);
    }
  }

  ghost predicate AllBeside(p: Vec, s: seq<Vec>) {
    forall q :: q in s ==> Beside(p, q)
  }

  /** What std::sort asks of the comparator about p on s: a strict weak order. */
  ghost predicate StrictWeak(p: Vec, s: seq<Vec>) {
    && (forall a, b :: a in s && b in s && LesserAngleWithP(p, a, b) ==> !LesserAngleWithP(p, b, a))
    && (forall a, b, c :: a in s && b in s && c in s && LesserAngleWithP(p, a, c) ==>
          LesserAngleWithP(p, a, b) || LesserAngleWithP(p, b, c))
  }

  lemma StrictWeakAmong(p: Vec, s: seq<Vec>, r: seq<Vec>)
    requires StrictWeak(p, s) && forall q :: q in r ==> q in s
    ensures StrictWeak(p, r)
  {
    hide LesserAngleWithP;
  }

  /** What std::sort promises: no element is lesser than one before it. */
  ghost predicate SortedByAngle(p: Vec, s: seq<Vec>) {
    forall i, j :: 0 <= i < j < |s| ==> !LesserAngleWithP(p, s[j], s[i])
  }

  /** Inserting behind everything not greater keeps the order. */
  method InsertByAngle(p: Vec, s: seq<Vec>, q: Vec) returns (r: seq<Vec>)
    requires StrictWeak(p, s + [q]) && SortedByAngle(p, s)
    ensures multiset(r) == multiset(s + [q]) && SortedByAngle(p, r)
  {
    hide LesserAngleWithP, Cross;
    var k := |s|;
    while k > 0 && LesserAngleWithP(p, q, s[k - 1])
      invariant 0 <= k <= |s|
      invariant forall i :: k <= i < |s| ==> LesserAngleWithP(p, q, s[i])
    {
      k := k - 1;
    }
    r := s[..k] + [q] + s[k..];
    assert s == s[..k] + s[k..];
    InsertedIsSorted(p, s, q, k);
  }

  lemma InsertedIsSorted(p: Vec, s: seq<Vec>, q: Vec, k: nat)
    requires StrictWeak(p, s + [q]) && SortedByAngle(p, s) && k <= |s|
    requires forall i :: k <= i < |s| ==> LesserAngleWithP(p, q, s[i])
    requires k > 0 ==> !LesserAngleWithP(p, q, s[k - 1])
    ensures SortedByAngle(p, s[..k] + [q] + s[k..])
  {
    hide LesserAngleWithP;
    assert q in s + [q] && forall i :: 0 <= i < |s| ==> s[i] in s + [q];
    var r := s[..k] + [q] + s[k..];
    forall i, j | 0 <= i < j < |r|
      ensures !LesserAngleWithP(p, r[j], r[i])
    {
      var a, b := if i < k then i else i - 1, if j < k then j else j - 1;
      if i == k {
        assert r[j] == s[b];
      } else if j == k {
        assert r[i] == s[a];
        if a != k - 1 {
          assert !LesserAngleWithP(p, s[k - 1], s[a]);
        }
      } else {
        assert r[i] == s[a] && r[j] == s[b];
      }
    }
  }

  lemma NotLesserTransitive(p: Vec, a: Vec, b: Vec, c: Vec)
    requires Beside(p, a) && Beside(p, b) && Beside(p, c)
    requires !LesserAngleWithP(p, b, a) && !LesserAngleWithP(p, c, b)
    ensures !LesserAngleWithP(p, c, a)
  {
    hide LesserAngleWithP, Cross;
    LesserIsLeftTurn(p, b, a); LesserIsLeftTurn(p, c, b); LesserIsLeftTurn(p, c, a);
    Turns(p, a, b); Turns(p, b, c); Turns(p, a, c);
    TurnTransitive(p, a, b, c);
  }

  lemma LesserAsymmetric(p: Vec, a: Vec, b: Vec)
    requires Beside(p, a) && Beside(p, b)
    ensures LesserAngleWithP(p, a, b) ==> !LesserAngleWithP(p, b, a)
  {
    hide LesserAngleWithP, Cross;
    LesserIsLeftTurn(p, a, b); LesserIsLeftTurn(p, b, a);
    Turns(p, a, b);
  }

  lemma BesideIsStrictWeak(p: Vec, s: seq<Vec>)
    requires AllBeside(p, s)
    ensures StrictWeak(p, s)
  {
    hide LesserAngleWithP, Beside;
    forall a, b | a in s && b in s
      ensures LesserAngleWithP(p, a, b) ==> !LesserAngleWithP(p, b, a)
    {
      LesserAsymmetric(p, a, b);
    }
    forall a, b, c | a in s && b in s && c in s && LesserAngleWithP(p, a, c)
      ensures LesserAngleWithP(p, a, b) || LesserAngleWithP(p, b, c)
    {
      if !LesserAngleWithP(p, a, b) && !LesserAngleWithP(p, b, c) {
        NotLesserTransitive(p, c, b, a);
      }
    }
  }

  /** Points on the vertical through the pivot are equivalent to all others. */
  lemma VerticalIsEquivalent(p: Vec, v: Vec, q: Vec)
    requires v.x == p.x
    ensures !LesserAngleWithP(p, v, q) && !LesserAngleWithP(p, q, v)
  {
  }

  /** std::sort gets an order for the points about their pivot p exactly when none of them is on the vertical through p,
      or all that are not lie in one direction from it. */
  lemma StrictWeakExactly(p: Vec, s: seq<Vec>)
    requires forall q :: q in s ==> !Lower(q, p)
    ensures StrictWeak(p, s) <==>
            || (forall q :: q in s ==> q.x != p.x)
            || (forall a, b :: a in s && b in s && a.x != p.x && b.x != p.x ==> Cross(p, a, b) == 0.0)
  {
    hide LesserAngleWithP, Cross;
    if forall q :: q in s ==> q.x != p.x {
      BesideIsStrictWeak(p, s);
    } else {
      var v :| v in s && v.x == p.x;
      forall a, b | a in s && b in s
        ensures (a.x == p.x || b.x == p.x) ==> !LesserAngleWithP(p, a, b) && !LesserAngleWithP(p, b, a)
        ensures a.x != p.x && b.x != p.x ==>
                (Cross(p, a, b) == 0.0 <==> !LesserAngleWithP(p, a, b) && !LesserAngleWithP(p, b, a))
      {
        if a.x == p.x {
          VerticalIsEquivalent(p, a, b);
        } else if b.x == p.x {
          VerticalIsEquivalent(p, b, a);
        } else {
          LesserIsLeftTurn(p, a, b);
          LesserIsLeftTurn(p, b, a);
          Turns(p, a, b);
        }
      }
      if a, b :| a in s && b in s && LesserAngleWithP(p, a, b) {
        assert !LesserAngleWithP(p, a, v) && !LesserAngleWithP(p, v, b);
      }
    }
  }

  /** A point no lower than p is comparable to one of any two points beside p that differ in angle, exactly when it is
      not on p's vertical. */
  lemma ComparableExactlyOffVertical(p: Vec, v: Vec)
    requires !Lower(v, p)
    ensures v.x != p.x <==>
            forall a, b :: Beside(p, a) && Beside(p, b) && LesserAngleWithP(p, a, b) ==>
              LesserAngleWithP(p, a, v) || LesserAngleWithP(p, v, b)
  {
    if v.x != p.x {
      forall a, b | Beside(p, a) && Beside(p, b) && LesserAngleWithP(p, a, b)
        ensures LesserAngleWithP(p, a, v) || LesserAngleWithP(p, v, b)
      {
        hide LesserAngleWithP;
        if !LesserAngleWithP(p, a, v) && !LesserAngleWithP(p, v, b) {
          NotLesserTransitive(p, b, v, a);
        }
      }
    } else {
      var a, b := Vec(p.x + 1.0, p.y, 0.0), Vec(p.x - 1.0, p.y + 1.0, 0.0);
      assert Beside(p, a) && Beside(p, b) && LesserAngleWithP(p, a, b);
    }
  }

  /** Stands for std::sort with the comparator about p: some ordered rearrangement. */
  method StdSort(p: Vec, s: seq<Vec>) returns (r: seq<Vec>)
    requires StrictWeak(p, s)
    ensures multiset(r) == multiset(s) && SortedByAngle(p, r)
  {
    r := [];
    for k := 0 to |s|
      invariant multiset(r) == multiset(s[..k]) && SortedByAngle(p, r)
    {
      assert s[..k + 1] == s[..k] + [s[k]];
      forall q | q in r + [s[k]]
        ensures q in s
      {
        assert q == s[k] || q in multiset(s[..k]);
      }
      StrictWeakAmong(p, s, r + [s[k]]);
      r := InsertByAngle(p, r, s[k]);
    }
    assert s[..|s|] == s;
  }

  /** p comes before q in the search for the pivot. */
  predicate Lower(p: Vec, q: Vec) {
    p.y < q.y || (p.y == q.y && p.x < q.x)
  }

  ghost predicate IsPivot(k: nat, points: seq<Vec>) {
    k < |points| && forall j :: 0 <= j < |points| ==> !Lower(points[j], points[k])
  }

  function Without(points: seq<Vec>, k: nat): seq<Vec>
    requires k < |points|
  {
    points[..k] + points[k + 1..]
  }

  method FindPivot(points: seq<Vec>) returns (k: nat)
    requires points != []
    ensures IsPivot(k, points)
  {
    k := 0;
    for j := 1 to |points|
      invariant k < j
      invariant forall i :: 0 <= i < j ==> !Lower(points[i], points[k])
    {
      if Lower(points[j], points[k]) {
        k := j;
      }
    }
  }

  /** The comparator about the pivot orders the other points. */
  ghost predicate Sortable(points: seq<Vec>) {
    forall k: nat :: IsPivot(k, points) ==> StrictWeak(points[k], Without(points, k))
  }

  /** No other point is on the pivot's vertical. */
  ghost predicate ClearOfPivot(points: seq<Vec>) {
    forall k: nat :: IsPivot(k, points) ==> forall q :: q in Without(points, k) ==> q.x != points[k].x
  }

  lemma RestIsBeside(points: seq<Vec>, k: nat)
    requires IsPivot(k, points) && ClearOfPivot(points)
    ensures AllBeside(points[k], Without(points, k))
  {
    forall q | q in Without(points, k)
      ensures Beside(points[k], q)
    {
      var j :| 0 <= j < |points| && points[j] == q;
      assert !Lower(points[j], points[k]);
    }
  }

  /** The lowest point first and last, the others round it by angle. */
  method SortPoints(points: seq<Vec>) returns (sorted: seq<Vec>, ghost k: nat)
    requires Sortable(points)
    ensures points == [] ==> sorted == []
    ensures points != [] ==>
              && IsPivot(k, points) && |sorted| == |points| + 1
              && var rest := sorted[1..|points|];
                 && sorted == [points[k]] + rest + [points[k]]
                 && multiset(rest) == multiset(Without(points, k)) && SortedByAngle(points[k], rest)
  {
    hide LesserAngleWithP, Cross, StrictWeak, Lower, SortedByAngle;
    if points == [] {
      return [], 0;
    }
    var m := FindPivot(points);
    k := m;
    var p := points[m];
    var rest := StdSort(p, Without(points, m));
    sorted := [p] + rest + [p];
    assert |rest| == |multiset(rest)| == |multiset(Without(points, m))| == |Without(points, m)|;
    assert sorted[1..|points|] == rest;
  }

  lemma ClearIsSortable(points: seq<Vec>)
    requires ClearOfPivot(points)
    ensures Sortable(points)
  {
    forall k: nat | IsPivot(k, points)
      ensures StrictWeak(points[k], Without(points, k))
    {
      RestIsBeside(points, k);
      BesideIsStrictWeak(points[k], Without(points, k));
    }
  }
}
