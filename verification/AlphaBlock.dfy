/** The alpha block of the DXT5 encoder in ImageUtils.cpp: eight bytes holding two limits and sixteen codes of three
    bits, decoded as section 18.4 of the Khronos Data Format Specification 1.3 says. */
module AlphaBlock {
  import opened Basics
  import opened Bits

  type Byte = x: int | 0 <= x < 256

  // ----- bytes and codes as one number, the first lowest

  function Word(bytes: seq<Byte>): nat {
    if bytes == [] then 0 else bytes[0] + 256 * Word(bytes[1..])
  }

  /** The n lowest bytes of a number. */
  function Bytes(w: nat, n: nat): (b: seq<Byte>)
    ensures |b| == n
  {
    if n == 0 then [] else [w % 256] + Bytes(w / 256, n - 1)
  }

  predicate Codes3(codes: seq<nat>) {
    forall k :: 0 <= k < |codes| ==> codes[k] < 8
  }

  /** Codes of three bits one after the other. */
  function Stream(codes: seq<nat>): nat {
    if codes == [] then 0 else codes[0] + 8 * Stream(codes[1..])
  }

  /** The k-th code of a stream. */
  function CodeAt(w: nat, k: nat): (c: nat)
    ensures c < 8
  {
    if k == 0 then w % 8 else CodeAt(w / 8, k - 1)
  }

  lemma FirstByte(b: Byte, w: nat)
    ensures (b + 256 * w) % 256 == b && (b + 256 * w) / 256 == w
  {
  }

  /** A word of eight bytes has no other bytes than those it was made of. */
  lemma {:induction false} WordHasItsBytes(bytes: seq<Byte>)
    ensures Bytes(Word(bytes), |bytes|) == bytes
  {
    if bytes != [] {
      WordHasItsBytes(bytes[1..]);
      BytesOfSum(bytes[0], Word(bytes[1..]), |bytes| - 1);
    }
  }

  lemma BytesOfSum(b: Byte, w: nat, n: nat)
    ensures Bytes(b + 256 * w, n + 1) == [b] + Bytes(w, n)
  {
    FirstByte(b, w);
    var sum := b + 256 * w;
    assert Bytes(sum, n + 1) == [sum % 256] + Bytes(sum / 256, n);
  }

  /** Any number of so many bits is made of its bytes. */
  lemma {:induction false} BytesMakeWord(w: nat, n: nat)
    requires w < Pow2(8 * n)
    ensures Word(Bytes(w, n)) == w
  {
    if n > 0 {
      ByteUp(8 * (n - 1));
      BytesMakeWord(w / 256, n - 1);
      assert Bytes(w, n)[1..] == Bytes(w / 256, n - 1);
    }
  }

  lemma ByteUp(n: nat)
    ensures Pow2(n + 8) == 256 * Pow2(n)
  {
    Pow2Sum(8, n);
    assert Pow2(8) == 256 by { assert Pow2(4) == 16; }
  }

  lemma CodeUp(n: nat)
    ensures Pow2(n + 3) == 8 * Pow2(n)
  {
    assert Pow2(n + 2) == 2 * Pow2(n + 1);
  }

  /** The stream of n codes takes up exactly its 3n bits. */
  lemma {:induction false} StreamFits(codes: seq<nat>)
    requires Codes3(codes)
    ensures Stream(codes) < Pow2(3 * |codes|)
  {
    if codes != [] {
      StreamFits(codes[1..]);
      CodeUp(3 * |codes[1..]|);
    }
  }

  /** Unpacking: each code comes out as it went in. */
  lemma {:induction false} StreamUnpacks(codes: seq<nat>, k: nat)
    requires k < |codes| && Codes3(codes)
    ensures CodeAt(Stream(codes), k) == codes[k]
  {
    if k > 0 {
      StreamUnpacks(codes[1..], k - 1);
    }
  }

  /** A further code goes in above the others. */
  lemma {:induction false} StreamAppend(codes: seq<nat>, code: nat, up: nat)
    requires up == code * Pow2(3 * |codes|)
    ensures Stream(codes + [code]) == Stream(codes) + up
  {
    if codes == [] {
      assert ([code])[1..] == [];
    } else {
      var n := 3 * |codes[1..]|;
      CodeUp(n);
      Regroup8(code, Pow2(n));
      StreamAppend(codes[1..], code, code * Pow2(n));
      assert (codes + [code])[1..] == codes[1..] + [code];
    }
  }

  lemma Regroup8(a: nat, p: nat)
    ensures a * (8 * p) == 8 * (a * p)
  {
  }

  lemma Regroup256(a: nat, p: nat)
    ensures a * (256 * p) == 256 * (a * p)
  {
  }

  // ----- storing a code

  predicate Room(bit: nat, n: nat) {
    bit / 8 < n && (bit % 8 > 5 ==> bit / 8 + 1 < n)
  }

  lemma {:induction false} OrBound(a: nat, b: nat, n: nat)
    requires a < Pow2(n) && b < Pow2(n)
    ensures Or(a, b) < Pow2(n)
  {
    if n > 0 {
      OrBound(a / 2, b / 2, n - 1);
    }
  }

  lemma OrByte(a: Byte, b: Byte)
    ensures Or(a, b) < 256
  {
    ByteUp(0);
    OrBound(a, b, 8);
  }

  /** The code shifted up inside a byte, the bits past its end lost. */
  function LowPart(b: Byte, code: nat, s: nat): Byte
    requires s < 8
  {
    OrByte(b, (code * Pow2(s)) % 256);
    Or(b, (code * Pow2(s)) % 256)
  }

  /** What of the code falls in the next byte. */
  function HighPart(b: Byte, code: nat, s: nat): Byte
    requires s < 8 && code < 8
  {
    ShiftedDown(code, Pow2(8 - s));
    OrByte(b, code / Pow2(8 - s));
    Or(b, code / Pow2(8 - s))
  }

  lemma ShiftedDown(code: nat, p: nat)
    requires code < 8 && p >= 1
    ensures 0 <= code / p < 8
  {
  }

  /** What the encoder does to the bytes for a code at a bit position. */
  function Stored(bytes: seq<Byte>, bit: nat, code: nat): (r: seq<Byte>)
    requires Room(bit, |bytes|) && code < 8
    ensures |r| == |bytes|
  {
    var (k, s) := (bit / 8, bit % 8);
    var r := bytes[k := LowPart(bytes[k], code, s)];
    if s > 5 then r[k + 1 := HighPart(r[k + 1], code, s)] else r
  }

  /** Splitting a number scaled by p at 256, where p and q make 256. */
  lemma SplitProduct(code: nat, p: nat, q: nat)
    requires p >= 1 && q >= 1 && p * q == 256
    ensures code * p == (code % q) * p + 256 * (code / q) && (code % q) * p < 256
  {
    var (d, m) := (code / q, code % q);
    assert code == d * q + m;
    Distribute(d, q, m, p);
    Below(m, q, p);
  }

  lemma Distribute(d: nat, q: nat, m: nat, p: nat)
    requires p * q == 256
    ensures (d * q + m) * p == m * p + 256 * d
  {
    assert (d * q) * p == d * (p * q);
  }

  lemma Below(m: nat, q: nat, p: nat)
    requires m < q && p >= 1
    ensures m * p < p * q
  {
    assert (m + 1) * p == m * p + p;
    ProductGrows(m + 1, q, p);
  }

  lemma {:induction false} ProductGrows(m: nat, q: nat, p: nat)
    requires m <= q
    ensures m * p <= q * p
  {
    if m < q {
      ProductGrows(m, q - 1, p);
      assert q * p == (q - 1) * p + p;
    }
  }

  lemma Remainder256(low: nat, high: nat)
    requires low < 256
    ensures (low + 256 * high) % 256 == low
  {
  }

  /** Splitting a shifted code at the end of a byte. */
  lemma SplitCode(code: nat, s: nat)
    requires code < 8 && s < 8
    ensures (code * Pow2(s)) % 256 == (code % Pow2(8 - s)) * Pow2(s)
    ensures code * Pow2(s) == (code % Pow2(8 - s)) * Pow2(s) + 256 * (code / Pow2(8 - s))
    ensures s <= 5 ==> code / Pow2(8 - s) == 0
  {
    hide Pow2;
    var (p, q) := (Pow2(s), Pow2(8 - s));
    PowersMakeByte(s);
    SplitProduct(code, p, q);
    Remainder256((code % q) * p, code / q);
    if s <= 5 {
      NoneAbove(code, q);
    }
  }

  lemma PowersMakeByte(s: nat)
    requires s < 8
    ensures Pow2(s) * Pow2(8 - s) == 256 && (s <= 5 ==> Pow2(8 - s) >= 8)
  {
    Pow2Sum(s, 8 - s);
    ByteUp(0);
    if s <= 5 {
      CodeUp(0);
      PowersGrow(3, 8 - s);
    }
  }

  lemma NoneAbove(code: nat, q: nat)
    requires code < 8 <= q
    ensures code / q == 0
  {
  }

  /** Storing a code above all the bits set so far adds it at its position: it meets none of them, and nothing of it
      is lost at the end of a byte. */
  lemma {:induction false} StoredAdds(bytes: seq<Byte>, bit: nat, code: nat, up: nat)
    requires Room(bit, |bytes|) && code < 8 && Word(bytes) < Pow2(bit) && up == code * Pow2(bit)
    ensures Word(Stored(bytes, bit, code)) == Word(bytes) + up
    decreases |bytes|
  {
    hide LowPart, HighPart, Or;
    if bit < 8 {
      StoredLow(bytes, bit, code, up);
    } else {
      ByteUp(bit - 8);
      Regroup256(code, Pow2(bit - 8));
      StoredHigh(bytes, bit, code);
      StoredAdds(bytes[1..], bit - 8, code, code * Pow2(bit - 8));
    }
  }

  lemma StoredHigh(bytes: seq<Byte>, bit: nat, code: nat)
    requires 8 <= bit && Room(bit, |bytes|) && code < 8
    ensures |bytes| > 0 && Room(bit - 8, |bytes| - 1)
    ensures Stored(bytes, bit, code)[0] == bytes[0]
    ensures Stored(bytes, bit, code)[1..] == Stored(bytes[1..], bit - 8, code)
  {
    hide LowPart, HighPart;
    assert bit / 8 == (bit - 8) / 8 + 1 && bit % 8 == (bit - 8) % 8;
  }

  lemma {:induction false} BelowByte(bit: nat)
    requires bit < 8
    ensures Pow2(bit) <= 128
  {
    assert Pow2(3) == 8 && Pow2(5) == 4 * Pow2(3) && Pow2(7) == 4 * Pow2(5);
    PowersGrow(bit, 7);
  }

  lemma {:induction false} PowersGrow(m: nat, n: nat)
    requires m <= n
    ensures Pow2(m) <= Pow2(n)
  {
    if m < n {
      PowersGrow(m, n - 1);
    }
  }

  /** The two parts of a code make it up, in a byte that is clear from its position on and the byte after. */
  lemma PartsMakeUp(b: Byte, code: nat, s: nat, up: nat)
    requires s < 8 && code < 8 && b < Pow2(s) && up == code * Pow2(s)
    ensures LowPart(b, code, s) + 256 * HighPart(0, code, s) == b + up
    ensures s <= 5 ==> HighPart(0, code, s) == 0
  {
    SplitCode(code, s);
    OrDisjoint(b, code % Pow2(8 - s), s);
  }

  lemma StoredLow(bytes: seq<Byte>, bit: nat, code: nat, up: nat)
    requires bit < 8 && Room(bit, |bytes|) && code < 8 && Word(bytes) < Pow2(bit) && up == code * Pow2(bit)
    ensures Word(Stored(bytes, bit, code)) == Word(bytes) + up
  {
    hide LowPart, HighPart, Pow2;
    BelowByte(bit);
    OneByte(bytes);
    PartsMakeUp(bytes[0], code, bit, up);
    StoredFirst(bytes, bit, code);
  }

  /** A number below 256 is in its first byte. */
  lemma OneByte(bytes: seq<Byte>)
    requires bytes != [] && Word(bytes) < 256
    ensures bytes[0] == Word(bytes) && (|bytes| > 1 ==> bytes[1] == 0)
  {
    if |bytes| > 1 {
      WordOfTwo(bytes);
    }
  }

  lemma StoredFirst(bytes: seq<Byte>, bit: nat, code: nat)
    requires bit < 8 && Room(bit, |bytes|) && code < 8 && Word(bytes) < 256
    ensures Word(Stored(bytes, bit, code)) ==
            LowPart(bytes[0], code, bit) + if bit > 5 then 256 * HighPart(0, code, bit) else 0
  {
    hide LowPart, HighPart, Word;
    OneByte(bytes);
    var r := Stored(bytes, bit, code);
    assert bit / 8 == 0 && bit % 8 == bit;
    assert r[0] == LowPart(bytes[0], code, bit);
    if bit > 5 {
      WordOfTwo(bytes);
      WordOfTwo(r);
      assert r[1] == HighPart(0, code, bit) && r[2..] == bytes[2..];
    } else {
      WordOfOne(bytes);
      WordOfOne(r);
      assert r[1..] == bytes[1..];
    }
  }

  lemma WordOfOne(bytes: seq<Byte>)
    requires |bytes| >= 1
    ensures Word(bytes) == bytes[0] + 256 * Word(bytes[1..])
  {
  }

  lemma WordOfTwo(bytes: seq<Byte>)
    requires |bytes| >= 2
    ensures Word(bytes) == bytes[0] + 256 * (bytes[1] + 256 * Word(bytes[2..]))
  {
    assert bytes[1..][1..] == bytes[2..];
  }

  // ----- quantising an alpha

  /** The place of an alpha between the limits, by truncation of an exact product. */
  function Value(a: int, a0: int, a1: int): int
    requires a0 > a1
  {
    ((a - a1) as real * (7.9999 / (a0 - a1) as real)).Floor
  }

  function Swizzle8(value: int): (c: nat)
    ensures c < 8
  {
    match value % 8
    case 0 => 1
    case 1 => 7
    case 2 => 6
    case 3 => 5
    case 4 => 4
    case 5 => 3
    case 6 => 2
    case _ => 0
  }

  /** The code for an alpha. With equal limits the scale is infinite and the product not a number; flat stands
      for what its conversion to an integer gives. */
  function CodeOf(a: int, a0: int, a1: int, flat: int): (c: nat)
    ensures c < 8
  {
    Swizzle8(if a0 > a1 then Value(a, a0, a1) else flat)
  }

  /** What a decoder makes of a code, before rounding. */
  function Decoded(c: nat, a0: int, a1: int): real
    requires c < 8
  {
    if c == 0 then a0 as real
    else if c == 1 then a1 as real
    else if a0 > a1 then ((8 - c) * a0 + (c - 1) * a1) as real / 7.0
    else if c == 6 then 0.0
    else if c == 7 then 255.0
    else ((6 - c) * a0 + (c - 1) * a1) as real / 5.0
  }

  lemma ValueBetween(a: int, a0: int, a1: int, d: real, m: real)
    requires a1 <= a <= a0 && a1 < a0 && d == (a0 - a1) as real && m == Value(a, a0, a1) as real * d
    ensures 0 <= Value(a, a0, a1) <= 7
    ensures m <= (a - a1) as real * 7.9999 < m + d
  {
    var v, x, q := Value(a, a0, a1), (a - a1) as real, 7.9999 / d;
    assert v as real <= x * q < v as real + 1.0;
    assert q * d == 7.9999;
    hide Value;
    Reorder(x, q, d);
    Stretch(v as real, x * q, d, m, (x * q) * d);
    ManyTimes(v, d, m);
  }

  lemma Reorder(x: real, q: real, d: real)
    requires q * d == 7.9999
    ensures (x * q) * d == x * 7.9999
  {
    assert (x * q) * d == x * (q * d);
  }

  lemma ManyTimes(v: int, d: real, m: real)
    requires d > 0.0 && m == v as real * d
    ensures v >= 8 ==> m >= 8.0 * d
    ensures v < 0 ==> m + d <= 0.0
  {
    if v >= 8 {
      Ordered(8.0, v as real, d);
    } else if v < 0 {
      Ordered(v as real, -1.0, d);
    }
  }

  lemma Ordered(a: real, b: real, d: real)
    requires a <= b && d > 0.0
    ensures a * d <= b * d
  {
  }

  lemma Stretch(lo: real, x: real, d: real, m: real, y: real)
    requires lo <= x < lo + 1.0 && d > 0.0 && m == lo * d && y == x * d
    ensures m <= y < m + d
  {
    var e := x - lo;
    var f := 1.0 - e;
    var (n, r) := (e * d, f * d);
    assert n == y - m && r == d - n;
    Signs(e, d, n);
    Signs(f, d, r);
  }

  /** The value v stands for the v-th of eight levels from one limit to the other. */
  lemma LevelOf(v: int, a0: int, a1: int, d: real, m: real)
    requires 0 <= v <= 7 && a0 > a1 && d == (a0 - a1) as real && m == v as real * d
    ensures Decoded(Swizzle8(v), a0, a1) * 7.0 == 7.0 * a1 as real + m
  {
    if v == 1 || v == 2 || v == 3 {
    } else if v == 4 || v == 5 || v == 6 {
    }
  }

  /** Coding and decoding an alpha with distinct limits: the limits come back exactly and any other alpha within
      a share of 7.9999 of their distance. */
  lemma QuantisesClosely(a: int, a0: int, a1: int, flat: int)
    requires a1 <= a <= a0 && a1 < a0
    ensures var r := Decoded(CodeOf(a, a0, a1, flat), a0, a1);
            && -((a0 - a1) as real) <= (r - a as real) * 7.9999 <= (a0 - a1) as real
            && (a == a0 || a == a1 ==> r == a as real)
  {
    var v, d := Value(a, a0, a1), (a0 - a1) as real;
    var m, r := v as real * d, Decoded(Swizzle8(v), a0, a1);
    assert r == Decoded(CodeOf(a, a0, a1, flat), a0, a1);
    hide Decoded, Swizzle8, Value, CodeOf;
    ValueBetween(a, a0, a1, d, m);
    LevelOf(v, a0, a1, d, m);
    CloseLevel(v, (a - a1) as real, d, m);
    FromLow(r, a as real, a0 as real, a1 as real, (a - a1) as real, d, m);
  }

  lemma FromLow(r: real, a: real, a0: real, a1: real, x: real, d: real, m: real)
    requires r * 7.0 == 7.0 * a1 + m && x == a - a1 && d == a0 - a1
    requires -d <= (m / 7.0 - x) * 7.9999 <= d && (x == 0.0 ==> m == 0.0) && (x == d ==> m == 7.0 * d)
    ensures -d <= (r - a) * 7.9999 <= d && (a == a0 || a == a1 ==> r == a)
  {
    assert r - a == m / 7.0 - x;
  }

  lemma CloseLevel(v: int, x: real, d: real, m: real)
    requires 0 <= v <= 7 && d > 0.0 && 0.0 <= x <= d && m == v as real * d
    requires m <= x * 7.9999 < m + d
    ensures -d <= (m / 7.0 - x) * 7.9999 <= d
    ensures x == 0.0 ==> m == 0.0
    ensures x == d ==> m == 7.0 * d
  {
    if v == 0 {
    } else if v == 1 {
    } else if v == 2 {
    } else if v == 3 {
    } else if v == 4 {
    } else if v == 5 {
    } else if v == 6 {
    } else {
    }
  }

  /** With equal limits a constant alpha comes back exactly when the conversion of not-a-number does not land on
      one of the two codes that decode to a fixed value, or that value is the alpha. */
  lemma ConstantAlphaSurvivesExactly(a: int, flat: int)
    ensures Decoded(CodeOf(a, a, a, flat), a, a) == a as real <==>
            (flat % 8 == 1 ==> a == 255) && (flat % 8 == 2 ==> a == 0)
  {
    var c := flat % 8;
    if c == 0 || c == 7 {
    } else if c == 1 || c == 2 {
    } else {
      assert (6 - CodeOf(a, a, a, flat)) * a + (CodeOf(a, a, a, flat) - 1) * a == 5 * a;
    }
  }

  // ----- the block

  const TEXELS := 16

  /** The alphas of a block of sixteen texels of four channels. */
  function Alphas(block: seq<Byte>): (r: seq<Byte>)
    requires |block| == 4 * TEXELS
    ensures |r| == TEXELS && forall k :: 0 <= k < TEXELS ==> r[k] == block[4 * k + 3]
  {
    seq(TEXELS, k requires 0 <= k < TEXELS => block[4 * k + 3])
  }

  function Highest(s: seq<Byte>): Byte
    requires s != []
  {
    if |s| == 1 then s[0]
    else
      var m := Highest(s[..|s| - 1]);
      if s[|s| - 1] > m then s[|s| - 1] else m
  }

  function Lowest(s: seq<Byte>): Byte
    requires s != []
  {
    if |s| == 1 then s[0]
    else
      var m := Lowest(s[..|s| - 1]);
      if s[|s| - 1] < m then s[|s| - 1] else m
  }

  /** The limits are alphas of the block, and all its alphas lie between them. */
  lemma {:induction false} LimitsAreTight(s: seq<Byte>)
    requires s != []
    ensures forall k :: 0 <= k < |s| ==> Lowest(s) <= s[k] <= Highest(s)
    ensures exists k :: 0 <= k < |s| && s[k] == Highest(s)
    ensures exists k :: 0 <= k < |s| && s[k] == Lowest(s)
  {
    var n := |s| - 1;
    if n > 0 {
      LimitsAreTight(s[..n]);
      var j :| 0 <= j < n && s[..n][j] == Highest(s[..n]);
      var k :| 0 <= k < n && s[..n][k] == Lowest(s[..n]);
      assert s[j] == Highest(s[..n]) && s[k] == Lowest(s[..n]);
      forall i | 0 <= i < n
        ensures Lowest(s[..n]) <= s[i] <= Highest(s[..n])
      {
        assert s[..n][i] == s[i];
      }
    }
  }

  function Codes(alphas: seq<Byte>, a0: int, a1: int, flat: int): (r: seq<nat>)
    ensures |r| == |alphas| && Codes3(r) && forall k :: 0 <= k < |r| ==> r[k] == CodeOf(alphas[k], a0, a1, flat)
  {
    seq(|alphas|, k requires 0 <= k < |alphas| => CodeOf(alphas[k], a0, a1, flat))
  }

  /** A block word: the limits in its lowest two bytes, the codes in the 48 bits above. */
  function Assembled(a0: Byte, a1: Byte, codes: nat): nat {
    a0 + 256 * (a1 + 256 * codes)
  }

  function EncodedWord(alphas: seq<Byte>, flat: int): nat
    requires |alphas| == TEXELS
  {
    Assembled(Highest(alphas), Lowest(alphas), Stream(Codes(alphas, Highest(alphas), Lowest(alphas), flat)))
  }

  function EncodedAlpha(block: seq<Byte>, flat: int): (b: seq<Byte>)
    requires |block| == 4 * TEXELS
    ensures |b| == 8
  {
    Bytes(EncodedWord(Alphas(block), flat), 8)
  }

  /** What a decoder makes of the k-th texel of an encoded block. */
  function DecodedTexel(bytes: seq<Byte>, k: nat): real
    requires |bytes| == 8
  {
    Decoded(CodeAt(Word(bytes) / 65536, k), bytes[0], bytes[1])
  }

  lemma AssembledFits(a0: Byte, a1: Byte, codes: nat, n: nat)
    requires codes < Pow2(n)
    ensures Assembled(a0, a1, codes) < Pow2(n + 16)
  {
    ByteUp(n);
    ByteUp(n + 8);
  }

  lemma Disassembled(a0: Byte, a1: Byte, codes: nat)
    ensures var w := Assembled(a0, a1, codes);
            w % 256 == a0 && w / 256 % 256 == a1 && w / 65536 == codes
  {
  }

  /** What the decoder sees in an encoded block: the limits, and each texel's code. */
  lemma BlockHoldsCodes(block: seq<Byte>, flat: int, k: nat)
    requires |block| == 4 * TEXELS && k < TEXELS
    ensures var (bytes, alphas) := (EncodedAlpha(block, flat), Alphas(block));
            var (a0, a1) := (Highest(alphas), Lowest(alphas));
            && bytes[0] == a0 && bytes[1] == a1
            && CodeAt(Word(bytes) / 65536, k) == CodeOf(alphas[k], a0, a1, flat)
  {
    hide Stream, CodeAt, CodeOf, Word, Highest, Lowest, Alphas, Pow2, Assembled, Codes;
    var alphas := Alphas(block);
    var (a0, a1) := (Highest(alphas), Lowest(alphas));
    var codes := Codes(alphas, a0, a1, flat);
    StreamFits(codes);
    StreamUnpacks(codes, k);
    AssembledFits(a0, a1, Stream(codes), 48);
    BytesMakeWord(EncodedWord(alphas, flat), 8);
    Disassembled(a0, a1, Stream(codes));
    FirstTwo(EncodedWord(alphas, flat));
  }

  lemma FirstTwo(w: nat)
    ensures Bytes(w, 8)[0] == w % 256 && Bytes(w, 8)[1] == w / 256 % 256
  {
    assert Bytes(w, 8) == [w % 256] + Bytes(w / 256, 7);
    assert Bytes(w / 256, 7) == [w / 256 % 256] + Bytes(w / 256 / 256, 6);
  }

  /** Decoding an encoded block whose alphas are not all the same: the highest and lowest come back exactly, every
      other within a share of 7.9999 of their distance. */
  lemma BlockDecodesClosely(block: seq<Byte>, flat: int, k: nat)
    requires |block| == 4 * TEXELS && k < TEXELS && Lowest(Alphas(block)) < Highest(Alphas(block))
    ensures var (a, a0, a1) := (Alphas(block)[k], Highest(Alphas(block)), Lowest(Alphas(block)));
            var r := DecodedTexel(EncodedAlpha(block, flat), k);
            && -((a0 - a1) as real) <= (r - a as real) * 7.9999 <= (a0 - a1) as real
            && (a == a0 || a == a1 ==> r == a as real)
  {
    hide Highest, Lowest, Alphas, CodeAt, Word, CodeOf, Decoded, EncodedAlpha;
    var alphas := Alphas(block);
    LimitsAreTight(alphas);
    BlockHoldsCodes(block, flat, k);
    QuantisesClosely(alphas[k], Highest(alphas), Lowest(alphas), flat);
  }

  // ----- the encoder as the source runs it

  method FindLimits(uncompressed: seq<Byte>) returns (a0: Byte, a1: Byte)
    requires |uncompressed| == 4 * TEXELS
    ensures a0 == Highest(Alphas(uncompressed)) && a1 == Lowest(Alphas(uncompressed))
  {
    hide Alphas;
    ghost var alphas := Alphas(uncompressed);
    a0, a1 := uncompressed[3], uncompressed[3];
    assert alphas[..1] == [alphas[0]] && alphas[..TEXELS] == alphas;
    for k := 1 to TEXELS
      invariant a0 == Highest(alphas[..k]) && a1 == Lowest(alphas[..k])
    {
      LimitsNext(alphas, k);
      var a := uncompressed[4 * k + 3];
      if a > a0 {
        a0 := a;
      } else if a < a1 {
        a1 := a;
      }
    }
  }

  lemma LimitsNext(s: seq<Byte>, k: nat)
    requires 0 < k < |s|
    ensures var (hi, lo) := (Highest(s[..k]), Lowest(s[..k]));
            && lo <= hi
            && Highest(s[..k + 1]) == (if s[k] > hi then s[k] else hi)
            && Lowest(s[..k + 1]) == if s[k] < lo then s[k] else lo
  {
    assert s[..k + 1][..k] == s[..k];
    LimitsAreTight(s[..k]);
    assert Lowest(s[..k]) <= s[..k][0] <= Highest(s[..k]);
  }

  /** The bytes hold the limits and the first n codes, and nothing above. */
  ghost predicate Holding(bytes: seq<Byte>, a0: Byte, a1: Byte, codes: seq<nat>, n: nat)
    requires n <= |codes|
  {
    Word(bytes) == Assembled(a0, a1, Stream(codes[..n]))
  }

  lemma HoldingNone(a0: Byte, a1: Byte, codes: seq<nat>)
    ensures Holding([a0, a1, 0, 0, 0, 0, 0, 0], a0, a1, codes, 0)
  {
    var b := [a0, a1, 0, 0, 0, 0, 0, 0];
    ZeroWord(6);
    WordOfTwo(b);
    assert b[2..] == seq(6, _ => 0);
  }

  lemma {:induction false} ZeroWord(n: nat)
    ensures Word(seq(n, _ => 0)) == 0
  {
    if n > 0 {
      ZeroWord(n - 1);
      assert seq(n, _ => 0)[1..] == seq(n - 1, _ => 0);
    }
  }

  lemma HoldingNext(bytes: seq<Byte>, a0: Byte, a1: Byte, codes: seq<nat>, n: nat)
    requires |bytes| == 8 && |codes| == TEXELS && n < TEXELS && Codes3(codes) && Holding(bytes, a0, a1, codes, n)
    ensures Room(16 + 3 * n, 8) && Holding(Stored(bytes, 16 + 3 * n, codes[n]), a0, a1, codes, n + 1)
  {
    hide Stored, Stream, Word, Pow2;
    var (before, p) := (codes[..n], Pow2(3 * n));
    var up := codes[n] * p;
    StreamFits(before);
    AssembledFits(a0, a1, Stream(before), 3 * n);
    ByteUp(3 * n);
    ByteUp(3 * n + 8);
    Regroup256(codes[n], p);
    Regroup256(codes[n], 256 * p);
    StoredAdds(bytes, 16 + 3 * n, codes[n], 65536 * up);
    StreamAppend(before, codes[n], up);
    assert codes[..n + 1] == before + [codes[n]];
  }

  /** compress_DDS_alpha_block. The bytes hold exactly the encoded word of the block. */
  method CompressAlphaBlock(uncompressed: seq<Byte>, flat: int, compressed: array<Byte>)
    requires |uncompressed| == 4 * TEXELS && compressed.Length == 8
    modifies compressed
    ensures compressed[..] == EncodedAlpha(uncompressed, flat)
  {
    hide Stored, Stream, Room, Word, Holding, Alphas, Highest, Lowest, Bytes, CodeOf, Codes, Assembled;
    ghost var alphas := Alphas(uncompressed);
    var a0, a1 := FindLimits(uncompressed);
    ghost var codes := Codes(alphas, a0, a1, flat);
    compressed[0], compressed[1] := a0, a1;
    compressed[2], compressed[3], compressed[4] := 0, 0, 0;
    compressed[5], compressed[6], compressed[7] := 0, 0, 0;
    var nextBit := 16;
    assert compressed[..] == [a0, a1, 0, 0, 0, 0, 0, 0];
    HoldingNone(a0, a1, codes);
    for k := 0 to TEXELS
      invariant nextBit == 16 + 3 * k && Holding(compressed[..], a0, a1, codes, k)
    {
      var i := 4 * k + 3;
      var svalue := CodeOf(uncompressed[i], a0, a1, flat);
      HoldingNext(compressed[..], a0, a1, codes, k);
      StoreCode(compressed, nextBit, svalue);
      nextBit := nextBit + 3;
    }
    HoldingAll(compressed[..], a0, a1, codes);
    WordHasItsBytes(compressed[..]);
  }

  lemma HoldingAll(bytes: seq<Byte>, a0: Byte, a1: Byte, codes: seq<nat>)
    requires |codes| == TEXELS && Holding(bytes, a0, a1, codes, TEXELS)
    ensures Word(bytes) == Assembled(a0, a1, Stream(codes))
  {
    assert codes[..TEXELS] == codes;
  }

  method StoreCode(compressed: array<Byte>, nextBit: nat, svalue: nat)
    requires Room(nextBit, compressed.Length) && svalue < 8
    modifies compressed
    ensures compressed[..] == Stored(old(compressed[..]), nextBit, svalue)
  {
    hide LowPart, HighPart;
    var k, s := nextBit / 8, nextBit % 8;
    compressed[k] := LowPart(compressed[k], svalue, s);
    if s > 5 {
      compressed[k + 1] := HighPart(compressed[k + 1], svalue, s);
    }
  }
}
