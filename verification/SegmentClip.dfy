/** intersectAndClip of LineSegmentIntersector2.cpp: a 3D segment clipped in place to a box. */
module SegmentClip {
  import opened Basics
  import opened Geometry

  datatype Axis = X | Y | Z

  datatype Box = Box(min: Vec, max: Vec) {
    /** osg::BoundingBox::valid */
    predicate Valid() { min.x <= max.x && min.y <= max.y && min.z <= max.z }

    predicate Slab(axis: Axis, p: Vec) { Coord(min, axis) <= Coord(p, axis) <= Coord(max, axis) }

    predicate Holds(p: Vec) { Slab(X, p) && Slab(Y, p) && Slab(Z, p) }
  }

  function Coord(p: Vec, axis: Axis): real {
    match axis
    case X => p.x
    case Y => p.y
    case Z => p.z
  }

  /** s + (e - s) * k / d */
  function Toward(s: Vec, e: Vec, k: real, d: real): Vec
    requires d != 0.0
  {
    Vec(s.x + (e.x - s.x) * k / d, s.y + (e.y - s.y) * k / d, s.z + (e.z - s.z) * k / d)
  }

  lemma TowardIsLerp(s: Vec, e: Vec, k: real, d: real)
    requires d != 0.0
    ensures Toward(s, e, k, d) == Lerp(s, e, k / d)
  {
    MulDiv(e.x - s.x, k, d);
    MulDiv(e.y - s.y, k, d);
    MulDiv(e.z - s.z, k, d);
  }

  lemma MulDiv(a: real, k: real, d: real)
    requires d != 0.0
    ensures a * k / d == k / d * a
  {
  }

  lemma CoordOfLerp(s: Vec, e: Vec, axis: Axis, d: real, t: real)
    requires d == Coord(e, axis) - Coord(s, axis)
    ensures Coord(Lerp(s, e, t), axis) == Coord(s, axis) + t * d
  {
  }

  lemma Fraction(k: real, d: real)
    requires (0.0 <= k <= d && 0.0 < d) || (d <= k <= 0.0 && d < 0.0)
    ensures 0.0 <= k / d <= 1.0 && k / d * d == k
  {
  }

  /** Moving one end of a stretch of the segment to where it meets the plane of coordinate v. */
  lemma CutAt(s: Vec, e: Vec, t0: real, t1: real, axis: Axis, v: real) returns (t: real)
    requires t0 <= t1
    requires var a, b := Coord(Lerp(s, e, t0), axis), Coord(Lerp(s, e, t1), axis);
             a != b && (a <= v <= b || b <= v <= a)
    ensures var a, b := Lerp(s, e, t0), Lerp(s, e, t1);
            Toward(a, b, v - Coord(a, axis), Coord(b, axis) - Coord(a, axis)) == Lerp(s, e, t)
    ensures t0 <= t <= t1 && Coord(Lerp(s, e, t), axis) == v
  {
    hide Coord, Lerp, Toward;
    var a, b := Lerp(s, e, t0), Lerp(s, e, t1);
    var k, d := v - Coord(a, axis), Coord(b, axis) - Coord(a, axis);
    Fraction(k, d);
    TowardIsLerp(a, b, k, d);
    CoordOfLerp(a, b, axis, d, k / d);
    t := Outer(s, e, t0, t1, k / d);
  }

  /** The stretch [t0, t1] of the segment is what lies in one slab, when each end either is the segment's
      own end, inside, or lies on the face it crosses. */
  lemma StretchInSlab(s: Vec, e: Vec, axis: Axis, lo: real, hi: real, t0: real, t1: real, t: real)
    requires lo <= hi && 0.0 <= t <= 1.0
    requires var a, b := Coord(s, axis), Coord(e, axis);
             var a', b' := Coord(Lerp(s, e, t0), axis), Coord(Lerp(s, e, t1), axis);
             if a == b then lo <= a <= hi && t0 == 0.0 && t1 == 1.0
             else if a < b then (if a >= lo then t0 == 0.0 else a' == lo) && (if b <= hi then t1 == 1.0 else b' == hi)
             else (if a <= hi then t0 == 0.0 else a' == hi) && (if b >= lo then t1 == 1.0 else b' == lo)
    ensures lo <= Coord(Lerp(s, e, t), axis) <= hi <==> t0 <= t <= t1
  {
    hide Coord, Lerp;
    var a, d := Coord(s, axis), Coord(e, axis) - Coord(s, axis);
    CoordOfLerp(s, e, axis, d, t0);
    CoordOfLerp(s, e, axis, d, t1);
    CoordOfLerp(s, e, axis, d, t);
    StretchOfNumbers(a, d, lo, hi, t0, t1, t);
  }

  lemma StretchOfNumbers(a: real, d: real, lo: real, hi: real, t0: real, t1: real, t: real)
    requires 0.0 <= t <= 1.0
    requires if d == 0.0 then lo <= a <= hi && t0 == 0.0 && t1 == 1.0
             else if d > 0.0 then
               (if a >= lo then t0 == 0.0 else a + t0 * d == lo)
               && (if a + d <= hi then t1 == 1.0 else a + t1 * d == hi)
             else
               (if a <= hi then t0 == 0.0 else a + t0 * d == hi)
               && (if a + d >= lo then t1 == 1.0 else a + t1 * d == lo)
    ensures lo <= a + t * d <= hi <==> t0 <= t <= t1
  {
    var m0, m1, m := t0 * d, t1 * d, t * d;
    Monotone(d, t0, t, m0, m);
    Monotone(d, t, t1, m, m1);
    Monotone(d, 0.0, t, 0.0, m);
    Monotone(d, t, 1.0, m, d);
    StretchOfLine(a, d, lo, hi, t0, t1, t, m0, m1, m);
  }

  /** The same on one coordinate, with the products t * d as plain numbers. */
  lemma StretchOfLine(a: real, d: real, lo: real, hi: real, t0: real, t1: real, t: real, m0: real, m1: real, m: real)
    requires 0.0 <= t <= 1.0
    requires d > 0.0 ==> (m0 <= m <==> t0 <= t) && (m <= m1 <==> t <= t1) && 0.0 <= m <= d
    requires d < 0.0 ==> (m0 >= m <==> t0 <= t) && (m >= m1 <==> t <= t1) && 0.0 >= m >= d
    requires d == 0.0 ==> m == 0.0
    requires if d == 0.0 then lo <= a <= hi && t0 == 0.0 && t1 == 1.0
             else if d > 0.0 then
               (if a >= lo then t0 == 0.0 else a + m0 == lo) && (if a + d <= hi then t1 == 1.0 else a + m1 == hi)
             else (if a <= hi then t0 == 0.0 else a + m0 == hi) && (if a + d >= lo then t1 == 1.0 else a + m1 == lo)
    ensures lo <= a + m <= hi <==> t0 <= t <= t1
  {
  }

  lemma Monotone(d: real, t: real, u: real, m: real, n: real)
    requires m == t * d && n == u * d
    ensures d > 0.0 ==> (m <= n <==> t <= u)
    ensures d < 0.0 ==> (n <= m <==> t <= u)
    ensures d == 0.0 ==> m == n == 0.0
  {
    var k := u - t;
    assert n - m == k * d;
  }

  ghost function SlabSet(axis: Axis, lo: real, hi: real): iset<Vec> {
    iset q | lo <= Coord(q, axis) <= hi
  }

  /** s, e is a stretch of the segment s0, e0 in the same direction. */
  ghost predicate Along(s0: Vec, e0: Vec, s: Vec, e: Vec) {
    exists t0: real, t1: real ::
      0.0 <= t0 <= t1 <= 1.0 && s == Lerp(s0, e0, t0) && e == Lerp(s0, e0, t1)
  }

  lemma AlongTrans(s0: Vec, e0: Vec, s1: Vec, e1: Vec, s2: Vec, e2: Vec)
    requires Along(s0, e0, s1, e1) && Along(s1, e1, s2, e2)
    ensures Along(s0, e0, s2, e2)
  {
    var t0, t1 :| 0.0 <= t0 <= t1 <= 1.0 && s1 == Lerp(s0, e0, t0) && e1 == Lerp(s0, e0, t1);
    var u0, u1 :| 0.0 <= u0 <= u1 <= 1.0 && s2 == Lerp(s1, e1, u0) && e2 == Lerp(s1, e1, u1);
    hide Lerp;
    var r0, r1 := Nest(t0, t1, u0, u1);
    LerpLerp(s0, e0, t0, t1, u0);
    LerpLerp(s0, e0, t0, t1, u1);
  }

  lemma Nest(t0: real, t1: real, u0: real, u1: real) returns (r0: real, r1: real)
    requires 0.0 <= t0 <= t1 <= 1.0 && 0.0 <= u0 <= u1 <= 1.0
    ensures r0 == t0 + u0 * (t1 - t0) && r1 == t0 + u1 * (t1 - t0)
    ensures 0.0 <= r0 <= r1 <= 1.0
  {
    var d := t1 - t0;
    Nested(t0, t1, d, u0, u1, u0 * d, u1 * d);
    r0, r1 := t0 + u0 * d, t0 + u1 * d;
  }

  lemma Nested(t0: real, t1: real, d: real, u0: real, u1: real, m0: real, m1: real)
    requires 0.0 <= t0 <= t1 <= 1.0 && d == t1 - t0 && 0.0 <= u0 <= u1 <= 1.0
    requires m0 == u0 * d && m1 == u1 * d
    ensures 0.0 <= t0 + m0 <= t0 + m1 <= 1.0
  {
    Monotone(d, 0.0, u0, 0.0, m0);
    Monotone(d, u0, u1, m0, m1);
    Monotone(d, u1, 1.0, m1, d);
  }

  lemma StretchIsIntersection(s0: Vec, e0: Vec, t0: real, t1: real, axis: Axis, lo: real, hi: real)
    requires 0.0 <= t0 <= t1 <= 1.0
    requires forall t :: 0.0 <= t <= 1.0 ==> (lo <= Coord(Lerp(s0, e0, t), axis) <= hi <==> t0 <= t <= t1)
    ensures Segment(Lerp(s0, e0, t0), Lerp(s0, e0, t1)) == Segment(s0, e0) * SlabSet(axis, lo, hi)
    ensures Along(s0, e0, Lerp(s0, e0, t0), Lerp(s0, e0, t1))
  {
    forall q: Vec
      ensures q in Segment(Lerp(s0, e0, t0), Lerp(s0, e0, t1)) <==> q in Segment(s0, e0) * SlabSet(axis, lo, hi)
    {
      hide Coord, Lerp;
      SubSegment(s0, e0, t0, t1, q);
    }
  }

  /** One of the three blocks of intersectAndClip, the one for the given axis. */
  method ClipAxis(s0: Vec, e0: Vec, axis: Axis, lo: real, hi: real) returns (hit: bool, s: Vec, e: Vec)
    requires lo <= hi
    ensures !hit ==> Segment(s0, e0) * SlabSet(axis, lo, hi) == iset{}
    ensures hit ==> Segment(s, e) == Segment(s0, e0) * SlabSet(axis, lo, hi) && Along(s0, e0, s, e)
  {
    hide Coord, Lerp, Toward, Segment, SlabSet, Along;
    s, e, hit := s0, e0, true;
    ghost var t0, t1 := 0.0, 1.0;
    LerpEnds(s0, e0);
    if Coord(s, axis) <= Coord(e, axis) {
      if Coord(e, axis) < lo { hit := false; MissesSlab(s0, e0, axis, lo, hi); return; }
      if Coord(s, axis) > hi { hit := false; MissesSlab(s0, e0, axis, lo, hi); return; }
      if Coord(s, axis) < lo {
        t0 := CutAt(s0, e0, t0, t1, axis, lo);
        s := Toward(s, e, lo - Coord(s, axis), Coord(e, axis) - Coord(s, axis));
      }
      if Coord(e, axis) > hi {
        t1 := CutAt(s0, e0, t0, t1, axis, hi);
        e := Toward(s, e, hi - Coord(s, axis), Coord(e, axis) - Coord(s, axis));
      }
    } else {
      if Coord(s, axis) < lo { hit := false; MissesSlab(s0, e0, axis, lo, hi); return; }
      if Coord(e, axis) > hi { hit := false; MissesSlab(s0, e0, axis, lo, hi); return; }
      if Coord(e, axis) < lo {
        t1 := CutAt(s0, e0, t0, t1, axis, lo);
        e := Toward(s, e, lo - Coord(s, axis), Coord(e, axis) - Coord(s, axis));
      }
      if Coord(s, axis) > hi {
        t0 := CutAt(s0, e0, t0, t1, axis, hi);
        s := Toward(s, e, hi - Coord(s, axis), Coord(e, axis) - Coord(s, axis));
      }
    }
    forall t: real | 0.0 <= t <= 1.0
      ensures lo <= Coord(Lerp(s0, e0, t), axis) <= hi <==> t0 <= t <= t1
    {
      StretchInSlab(s0, e0, axis, lo, hi, t0, t1, t);
    }
    StretchIsIntersection(s0, e0, t0, t1, axis, lo, hi);
  }

  lemma MissesSlab(s: Vec, e: Vec, axis: Axis, lo: real, hi: real)
    requires var a, b := Coord(s, axis), Coord(e, axis); (a < lo && b < lo) || (a > hi && b > hi)
    ensures Segment(s, e) * SlabSet(axis, lo, hi) == iset{}
  {
    var d := Coord(e, axis) - Coord(s, axis);
    forall t: real | 0.0 <= t <= 1.0
      ensures !(lo <= Coord(Lerp(s, e, t), axis) <= hi)
    {
      CoordOfLerp(s, e, axis, d, t);
      ScaleTo(d, t);
    }
  }

  ghost function BoxSet(bb: Box): iset<Vec> {
    iset q | bb.Holds(q)
  }

  /** The box clip. It reports a miss exactly when no point of the segment is in the box; otherwise the
      new ends are those of the part of the segment inside, in the original direction. */
  method IntersectAndClip(s0: Vec, e0: Vec, bb: Box) returns (hit: bool, s: Vec, e: Vec)
    requires bb.Valid()
    ensures hit <==> Segment(s0, e0) * BoxSet(bb) != iset{}
    ensures hit ==> Segment(s, e) == Segment(s0, e0) * BoxSet(bb) && Along(s0, e0, s, e)
  {
    BoxIsSlabs(Segment(s0, e0), bb);
    hit, s, e := ClipAxis(s0, e0, X, bb.min.x, bb.max.x);
    if !hit { return; }
    ghost var s1, e1 := s, e;
    hit, s, e := ClipAxis(s, e, Y, bb.min.y, bb.max.y);
    if !hit { return; }
    AlongTrans(s0, e0, s1, e1, s, e);
    ghost var s2, e2 := s, e;
    hit, s, e := ClipAxis(s, e, Z, bb.min.z, bb.max.z);
    if !hit { return; }
    AlongTrans(s0, e0, s2, e2, s, e);
    StartIsOnSegment(s, e);
  }

  lemma BoxIsSlabs(points: iset<Vec>, bb: Box)
    ensures var sx, sy, sz :=
              SlabSet(X, bb.min.x, bb.max.x), SlabSet(Y, bb.min.y, bb.max.y), SlabSet(Z, bb.min.z, bb.max.z);
            && points * BoxSet(bb) == points * sx * sy * sz
            && (points * sx == iset{} ==> points * BoxSet(bb) == iset{})
            && (points * sx * sy == iset{} ==> points * BoxSet(bb) == iset{})
  {
  }

  lemma StartIsOnSegment(s: Vec, e: Vec)
    ensures s in Segment(s, e)
  {
    assert s == Lerp(s, e, 0.0);
  }
}
