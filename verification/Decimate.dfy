/** Thinning out a part (decimatePart in DecimateFilter.cpp). */
module Decimate {
  import opened Basics
  import opened Geometry

  lemma DistanceToSelf(p: GeoPoint)
    ensures Distance2(p.at, p.at) == 0.0
  {
  }

  /** The points kept: the first, and each farther from the last one kept than the threshold. */
  function Kept(s: Part, t2: real): (r: Part)
    ensures s != [] ==> r != []
    ensures |r| <= |s|
  {
    if |s| <= 1 then s
    else
      var (before, p) := (Kept(s[..|s| - 1], t2), s[|s| - 1]);
      if Distance2(p.at, before[|before| - 1].at) > t2 then before + [p] else before
  }

  ghost predicate Spread(s: Part, t2: real) {
    forall k :: 0 <= k < |s| - 1 ==> Distance2(s[k + 1].at, s[k].at) > t2
  }

  lemma {:induction false} KeptAreSpread(s: Part, t2: real)
    ensures Spread(Kept(s, t2), t2) && (s != [] ==> Kept(s, t2)[0] == s[0])
  {
    hide Distance2;
    if |s| > 1 {
      KeptAreSpread(s[..|s| - 1], t2);
    }
  }

  lemma {:induction false} SpreadAreKept(s: Part, t2: real)
    requires Spread(s, t2)
    ensures Kept(s, t2) == s
  {
    hide Distance2;
    var n := |s| - 1;
    if n > 0 {
      SpreadAreKept(s[..n], t2);
      assert s[..n][n - 1] == s[n - 1] && Distance2(s[n - 1 + 1].at, s[n - 1].at) > t2;
      assert s == s[..n] + [s[n]];
    }
  }

  /** Thinning out again changes nothing. */
  lemma KeptTwice(s: Part, t2: real)
    ensures Kept(Kept(s, t2), t2) == Kept(s, t2)
  {
    KeptAreSpread(s, t2);
    SpreadAreKept(Kept(s, t2), t2);
  }

  lemma {:induction false} KeptPrefix(s: Part, t2: real, k: nat)
    requires k <= |s|
    ensures Kept(s[..k], t2) <= Kept(s, t2)
  {
    hide Distance2;
    if k < |s| {
      if |s| > 1 {
        assert s[..|s| - 1][..k] == s[..k];
        KeptPrefix(s[..|s| - 1], t2, k);
      }
    } else {
      assert s[..k] == s;
    }
  }

  /** Every point is within the threshold of the last point kept up to it, and a dropped one of that before it. */
  lemma DroppedAreNear(s: Part, t2: real, k: nat)
    requires k < |s| && t2 >= 0.0
    ensures var kept := Kept(s[..k + 1], t2);
            && kept != [] && kept <= Kept(s, t2) && Distance2(s[k].at, kept[|kept| - 1].at) <= t2
            && (kept[|kept| - 1] != s[k] ==> k > 0 && kept == Kept(s[..k], t2))
  {
    KeptPrefix(s, t2, k + 1);
    DistanceToSelf(s[k]);
    assert s[..k + 1][..k] == s[..k];
    hide Distance2;
  }

  /** A part with enough points, and enough of them left, goes out thinned; any other goes out not at all. */
  method DecimatePart(input: Part, threshold: real, minPoints: nat, output: seq<Part>) returns (r: seq<Part>)
    ensures var kept := Kept(input, threshold * threshold);
            r == if |input| >= minPoints && |kept| >= minPoints then output + [kept] else output
  {
    r := output;
    var t2 := threshold * threshold;
    if |input| >= minPoints {
      var newPart: Part := [];
      var lastPoint := GeoPoint(Vec(0.0, 0.0, 0.0), 0);
      for i := 0 to |input|
        invariant newPart == Kept(input[..i], t2)
        invariant i > 0 ==> lastPoint == newPart[|newPart| - 1]
      {
        assert input[..i + 1][..i] == input[..i];
        if i == 0 {
          lastPoint := input[i];
          newPart := newPart + [input[i]];
        } else {
          var d2 := Distance2(input[i].at, lastPoint.at);
          if d2 > t2 {
            newPart := newPart + [input[i]];
            lastPoint := input[i];
          }
        }
      }
      assert input[..|input|] == input;
      if |newPart| >= minPoints {
        r := r + [newPart];
      }
    }
  }
}
