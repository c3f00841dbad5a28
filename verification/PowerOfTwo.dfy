/** The power-of-two rounding of ImageUtils.cpp, on unsigned words of any number of bits that wrap round. */
module PowerOfTwo {
  import opened Bits

  predicate IsPower(p: nat) {
    p == 1 || (p > 0 && p % 2 == 0 && IsPower(p / 2))
  }

  /** The number of words of so many bits. */
  function Words(bits: nat): nat { Pow2(bits) }

  lemma {:induction false} WordsIsPower(bits: nat)
    ensures IsPower(Words(bits))
  {
    if bits > 0 {
      WordsIsPower(bits - 1);
    }
  }

  /** The test x & (x - 1) finds exactly the powers of two, and zero. */
  lemma {:induction false} PowerTest(x: nat)
    requires x > 0
    ensures And(x, x - 1) == 0 <==> IsPower(x)
  {
    if x % 2 == 0 {
      PowerTest(x / 2);
      assert (x - 1) / 2 == x / 2 - 1;
    } else if x > 1 {
      AndSelf(x / 2);
      assert (x - 1) / 2 == x / 2;
    }
  }

  /** The least power of two not below a number. */
  function PowerAbove(x: nat): nat
    requires x > 0
  {
    if x == 1 then 1 else 2 * PowerAbove((x + 1) / 2)
  }

  lemma {:induction false} PowerAboveIsNear(x: nat)
    requires x > 0
    ensures IsPower(PowerAbove(x)) && x <= PowerAbove(x) < 2 * x
  {
    if x > 1 {
      PowerAboveIsNear((x + 1) / 2);
    }
  }

  /** Between a power of two and its double there is no other. */
  lemma {:induction false} PowersDouble(p: nat, q: nat)
    requires IsPower(p) && IsPower(q) && p < q
    ensures 2 * p <= q
  {
    if p > 1 {
      PowersDouble(p / 2, q / 2);
    }
  }

  lemma PowerAboveIsLeast(x: nat, q: nat)
    requires x > 0 && IsPower(q) && x <= q
    ensures PowerAbove(x) <= q
  {
    PowerAboveIsNear(x);
    if q < PowerAbove(x) {
      PowersDouble(q, PowerAbove(x));
    }
  }

  /** Setting the lowest clear bit goes up and stays below the power above. */
  lemma {:induction false} FillStep(x: nat, p: nat)
    requires IsPower(p) && x < p && And(x, x + 1) != 0
    ensures x < Or(x, x + 1) < p
  {
    var y := x / 2;
    if x % 2 == 0 {
      OrSelf(y);
      assert (x + 1) / 2 == y;
    } else {
      assert (x + 1) / 2 == y + 1;
      FillStep(y, p / 2);
    }
  }

  /** With no gap left below its highest bit, a number is one less than the power above. */
  lemma {:induction false} FillEnds(x: nat, p: nat)
    requires IsPower(p) && 0 < x < p <= 2 * x && And(x, x + 1) == 0
    ensures x + 1 == p
  {
    var y := x / 2;
    if x % 2 == 0 {
      AndSelf(y);
      assert (x + 1) / 2 == y;
    } else if x > 1 {
      assert (x + 1) / 2 == y + 1;
      FillEnds(y, p / 2);
    }
  }

  // ----- words that wrap round

  function Wrap(v: int, word: nat): (r: nat)
    requires word > 0
    ensures r < word
  {
    v % word
  }

  lemma WrapIn(v: int, word: nat)
    requires 0 <= v < word
    ensures Wrap(v, word) == v
  {
  }

  lemma WrapAt(word: nat)
    requires word > 0
    ensures Wrap(word, word) == 0
  {
  }

  /** The power above a word is itself a word, or the first number past the words, which wraps to zero. */
  lemma PowerAboveFits(bits: nat, x: nat)
    requires 0 < x < Words(bits)
    ensures IsPower(Words(bits)) && x <= PowerAbove(x) <= Words(bits)
    ensures IsPower(x) <==> PowerAbove(x) == x
  {
    hide IsPower, PowerAbove, Pow2;
    WordsIsPower(bits);
    PowerAboveIsLeast(x, Words(bits));
    PowerAboveIsNear(x);
    if IsPower(x) {
      PowerAboveIsLeast(x, x);
    }
  }

  function Larger(a: nat, b: nat): nat { if b > a then b else a }

  /** With no cap the result is the least power of two not below the argument, wrapped to zero where that is no word;
      a power of two is returned whatever the cap, and any other result is raised to the cap. */
  method RoundUpToPowerOf2(bits: nat, x0: nat, cap: nat) returns (r: nat)
    requires x0 < Words(bits) && cap < Words(bits)
    ensures r < Words(bits)
    ensures x0 == 0 || IsPower(x0) ==> r == x0
    ensures x0 > 0 && !IsPower(x0) ==>
              var up := if PowerAbove(x0) < Words(bits) then PowerAbove(x0) else 0;
              r == if cap == 0 then up else Larger(up, cap)
  {
    hide And, Or, IsPower, Wrap, PowerAbove, Pow2;
    var word := Words(bits);
    var x: nat := x0;
    if x0 > 0 {
      PowerTest(x0);
      PowerAboveFits(bits, x0);
      PowerAboveIsNear(x0);
      WrapIn(x0 - 1, word);
    } else {
      AndNone(Wrap(-1, word));
    }
    if And(x, Wrap(x - 1, word)) == 0 {
      return x;
    }
    ghost var p := PowerAbove(x0);
    while And(x, Wrap(x + 1, word)) != 0
      invariant x0 <= x < p <= word
      decreases p - x
    {
      NoGapAtEnd(x, word);
      FillStep(x, p);
      x := Or(x, Wrap(x + 1, word));
    }
    NoGapAtEnd(x, word);
    FillEnds(x, p);
    if p < word {
      WrapIn(p, word);
    } else {
      WrapAt(word);
    }
    r := if cap == 0 then Wrap(x + 1, word) else Larger(Wrap(x + 1, word), cap);
  }

  lemma AndNone(x: nat)
    ensures And(0, x) == 0 && And(x, 0) == 0
  {
  }

  /** The last word has no gap, wrapped or not. */
  lemma NoGapAtEnd(x: nat, word: nat)
    requires x < word && IsPower(word)
    ensures And(x, Wrap(x + 1, word)) == And(x, x + 1)
    ensures And(x, x + 1) != 0 ==> Wrap(x + 1, word) == x + 1
  {
    hide And, IsPower, Wrap;
    if x + 1 < word {
      WrapIn(x + 1, word);
    } else {
      WrapAt(word);
      AndNone(x);
      LastHasNoGap(x);
    }
  }

  lemma {:induction false} LastHasNoGap(x: nat)
    requires IsPower(x + 1)
    ensures And(x, x + 1) == 0
  {
    if x > 0 {
      assert x % 2 == 1 && (x + 1) / 2 == x / 2 + 1;
      LastHasNoGap(x / 2);
    }
  }

  function Distance(a: nat, b: nat): nat { if a >= b then a - b else b - a }

  /** The result is a power of two none is nearer than, wherever the power above is a word; else it is zero. */
  method RoundToNearestPowerOf2(bits: nat, x: nat) returns (r: nat)
    requires x < Words(bits)
    ensures x == 0 ==> r == 0
    ensures x > 0 && PowerAbove(x) < Words(bits) ==>
              IsPower(r) && forall q :: IsPower(q) ==> Distance(r, x) <= Distance(q, x)
    ensures x > 0 && PowerAbove(x) >= Words(bits) ==> r == 0
  {
    hide IsPower, PowerAbove, Wrap, Pow2;
    var word := Words(bits);
    var n1 := RoundUpToPowerOf2(bits, x, 0);
    var n0 := n1 / 2;
    r := if Wrap(n1 - x, word) <= Wrap(x - n0, word) then n1 else n0;
    if x > 0 {
      PowerAboveFits(bits, x);
      PowerAboveIsNear(x);
      if n1 > 0 {
        WrapIn(n1 - x, word);
        WrapIn(x - n0, word);
        forall q | IsPower(q) {
          NearestPower(x, n1, q);
        }
        NearestPower(x, n1, n1);
      }
    }
  }

  /** Of the power above and its half, the nearer is the nearest of all powers. */
  lemma NearestPower(x: nat, p: nat, q: nat)
    requires IsPower(p) && IsPower(q) && x <= p < 2 * x
    ensures var r := if p - x <= x - p / 2 then p else p / 2;
            IsPower(r) && Distance(r, x) <= Distance(q, x)
  {
    if q < p {
      PowersDouble(q, p);
    } else if p < q {
      PowersDouble(p, q);
    }
  }
}
