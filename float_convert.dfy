/** The binary32 conversions of `WideFloat` (src/float.rs: `isolate_mantissa`,
    `isolate_exponent`, `from_f32`, `as_f32_round`). A binary32 value is
    handled as its bit pattern (section 3.4 of IEEE 754-2008): sign bit 31,
    biased exponent in bits 23..30, fraction in bits 0..22. For a normal
    pattern with exponent field e and fraction m the value is
    ±(2^31 + 256·m) · 2^(e - 158). */
module FloatConvert {
  import opened Words
  import opened Value
  import opened FloatQuery
  import opened FloatArith
  import opened FloatShift
  import opened FloatMul

  const SIGN_BIT: nat := 0x8000_0000

  // ---------------------------------------------------------------------
  // Fields of the pattern
  // ---------------------------------------------------------------------

  /** `isolate_mantissa`: `bits & 0x7f_ffff`, the fraction field. */
  function IsolateMantissa(bits: u32): (r: nat)
    ensures r == bits % 0x80_0000
  {
    Pow2Word();
    AndLowMask(bits, 23);
    BitAnd(bits, 0x7f_ffff)
  }

  /** `isolate_exponent`: `(bits >> 23) & 0xff`, the biased exponent field. */
  function IsolateExponent(bits: u32): (r: nat)
    ensures r == (bits / 0x80_0000) % 0x100
  {
    Pow2Word();
    AndLowMask(WordShr(bits, 23), 8);
    BitAnd(WordShr(bits, 23), 0xff)
  }

  /** The pattern is the sign bit, the exponent field and the fraction field. */
  lemma F32Fields(bits: u32)
    ensures bits == (if bits >= SIGN_BIT then SIGN_BIT else 0)
                    + IsolateExponent(bits) * 0x80_0000 + IsolateMantissa(bits)
  {
    var q, m := bits / 0x80_0000, bits % 0x80_0000;
    assert bits == q * 0x80_0000 + m;
    var h := if bits >= SIGN_BIT then 1 else 0;
    DivModUnique(q, 0x100, h, q - 0x100 * h);
  }

  /** `value < 0.0` on a pattern that is not a NaN: the sign bit is set and
      the value is not a zero. */
  predicate IsNegative(bits: u32)
  {
    bits > SIGN_BIT
  }

  /** `-f` on a binary32 flips its sign bit. */
  function FlipSign(f: u32): u32
  {
    if f >= SIGN_BIT then f - SIGN_BIT else f + SIGN_BIT
  }

  /** `mantissa << 8 | 1 << 31`: the significand with its leading one at bit 31. */
  function Significand(bits: u32): (r: u32)
    ensures r == SIGN_BIT + IsolateMantissa(bits) * 0x100
  {
    var m := IsolateMantissa(bits);
    Pow2Word();
    ShlOne(31);
    DivModUnique(m * 0x100, BASE, 0, m * 0x100);
    OrDisjoint(WordShl(1, 31), WordShl(m, 8), 31);
    BitOr(WordShl(1, 31), WordShl(m, 8))
  }

  // ---------------------------------------------------------------------
  // from_f32
  // ---------------------------------------------------------------------

  /** The number a pattern with exponent field 1..158 stands for, in fixed
      point with n words: |value| · 2^(32·(n-1)), rounded down, is
      Significand · 2^(32n) / 2^(190 - e). */
  function F32Magnitude(bits: u32, n: nat): nat
    requires 0 < IsolateExponent(bits) <= 158
  {
    ScaledSignificand(Significand(bits), IsolateExponent(bits), n)
  }

  /** sig · 2^(32n) / 2^(190 - e), rounded down. */
  function ScaledSignificand(sig: nat, e: nat, n: nat): nat
    requires 0 < e <= 158
  {
    MulNonneg(sig, BPow(n));
    DivNonneg(sig * BPow(n), Pow2(190 - e));
    (sig * BPow(n)) / Pow2(190 - e)
  }

  lemma MagnitudeIs(bits: u32, n: nat)
    requires 0 < IsolateExponent(bits) <= 158
    ensures F32Magnitude(bits, n) == (Significand(bits) * BPow(n)) / Pow2(190 - IsolateExponent(bits))
  {
    ScaledIs(Significand(bits), IsolateExponent(bits), n);
  }

  lemma ScaledIs(sig: nat, e: nat, n: nat)
    requires 0 < e <= 158
    ensures ScaledSignificand(sig, e, n) == (sig * BPow(n)) / Pow2(190 - e)
  {
  }

  /** The exponent fields `from_f32` handles without a negative shift
      amount: up to 158, and 190, 222 and 254, for which the shift is a
      negative multiple of 32, the offset lies far past the buffer and no
      word is written. */
  predicate FromF32Defined(bits: u32)
  {
    var e := IsolateExponent(bits);
    e <= 158 || (e - 158) % 32 == 0
  }

  /** What `from_f32` computes: zero for a zero exponent field (zeros and
      subnormals), otherwise the truncated magnitude, negated for a negative
      value. */
  function F32Fixed(bits: u32, n: nat): (r: seq<u32>)
    requires FromF32Defined(bits)
    ensures |r| == n
  {
    var e := IsolateExponent(bits);
    if e == 0 then Zeros(n)
    else
      var mag := if e <= 158 then FromVal(n, F32Magnitude(bits, n)) else Zeros(n);
      if IsNegative(bits) then Negated(mag) else mag
  }

  /** The two words `from_f32` writes: the significand shifted right by
      s, and the bits shifted out, moved to the top of the next word. */
  function LeftWord(v: u32, s: nat): u32
    requires s < 32
  {
    WordShr(v, s)
  }

  function RightWord(v: u32, s: nat): u32
    requires s < 32
  {
    if s != 0 then WordShl(v, 32 - s) else 0
  }

  /** The two words together hold v · 2^(32 - s). */
  lemma PairValue(v: u32, s: nat)
    requires s < 32
    ensures RightWord(v, s) + BASE * LeftWord(v, s) == v * Pow2(32 - s)
  {
    if s == 0 {
      PairValueUnshifted(v);
    } else {
      PairValueShifted(v, s);
    }
  }

  lemma PairValueUnshifted(v: u32)
    ensures RightWord(v, 0) + BASE * LeftWord(v, 0) == v * Pow2(32)
  {
    assert Pow2(0) == 1;
    DivModUnique(v, 1, v, 0);
    assert LeftWord(v, 0) == v && RightWord(v, 0) == 0;
    assert Pow2(32) == BASE by { Pow2Word(); }
  }

  lemma PairValueShifted(v: u32, s: nat)
    requires 0 < s < 32
    ensures RightWord(v, s) + BASE * LeftWord(v, s) == v * Pow2(32 - s)
  {
    var p, q := Pow2(s), Pow2(32 - s);
    ShlMod(v, 32 - s);
    assert BASE == p * q by {
      Pow2Add(s, 32 - s);
      Pow2Word();
    }
    DivMod(v, p);
    assert RightWord(v, s) == (v % p) * q;
    assert LeftWord(v, s) == v / p;
    PairArith(v, p, q, v / p, v % p);
  }

  lemma PairArith(v: int, p: int, q: int, d: int, r: int)
    requires p > 0 && v == d * p + r && BASE == p * q
    ensures r * q + BASE * d == v * q
  {
  }

  /** `buffer.reverse()`. */
  function Reversed(s: seq<u32>): (r: seq<u32>)
    ensures |r| == |s| && forall j | 0 <= j < |s| :: r[j] == s[|s| - 1 - j]
  {
    seq(|s|, j requires 0 <= j < |s| => s[|s| - 1 - j])
  }

  /** Reversing the filled buffer puts the left word at index n-1-off and the
      right word just below it. */
  lemma ReversedFill(buf: seq<u32>, off: nat, left: u32, right: u32)
    requires forall j | 0 <= j < |buf| :: buf[j] == (if j == off then left else if j == off + 1 then right else 0)
    ensures off + 1 < |buf| ==> Reversed(buf) == Zeros(|buf| - 2 - off) + [right, left] + Zeros(off)
    ensures off + 1 == |buf| ==> Reversed(buf) == [left] + Zeros(off)
    ensures off >= |buf| ==> Reversed(buf) == Zeros(|buf|)
  {
  }

  lemma QuotientExact(num: int, den: int, q: int)
    requires den > 0 && num == q * den
    ensures num / den == q
  {
    DivModUnique(num, den, q, 0);
  }

  /** Pow2(shift + 32) in words and bits. */
  lemma ShiftWeight(shift: nat)
    ensures Pow2(shift + 32) == BPow(shift / 32 + 1) * Pow2(shift % 32)
  {
    var q, s := shift / 32, shift % 32;
    ShiftSplit(shift);
    Pow2Add(shift, 32);
    Pow2Word();
    assert BPow(q + 1) == BASE * BPow(q);
    WeightArith(Pow2(shift), BPow(q), Pow2(s), BPow(q + 1));
  }

  lemma WeightArith(p: int, bq: int, ps: int, bq1: int)
    requires p == bq * ps && bq1 == BASE * bq
    ensures p * BASE == bq1 * ps
  {
  }

  /** The buffer `from_f32` fills, reversed, when both words land inside it:
      the left word at index n-1-offset, the right word below it. */
  function PairLayout(v: u32, shift: nat, n: nat): (r: seq<u32>)
    requires shift / 32 + 1 < n
    ensures |r| == n
  {
    var off, s := shift / 32, shift % 32;
    Zeros(n - 2 - off) + [RightWord(v, s), LeftWord(v, s)] + Zeros(off)
  }

  /** Both words inside the buffer: the layout stands for the magnitude exactly. */
  lemma PlacedBoth(v: u32, shift: nat, n: nat)
    requires shift / 32 + 1 < n
    ensures Val(PairLayout(v, shift, n)) == (v * BPow(n)) / Pow2(shift + 32)
  {
    var off, s := shift / 32, shift % 32;
    PairLayoutValue(n - 2 - off, off, RightWord(v, s), LeftWord(v, s));
    PairValue(v, s);
    PlacedQuotient(v, shift, n);
  }

  lemma PairLayoutValue(k: nat, off: nat, right: u32, left: u32)
    ensures Val(Zeros(k) + [right, left] + Zeros(off)) == BPow(k) * (right + BASE * left)
  {
    ValAppendZeros(Zeros(k) + [right, left], off);
    ValPrependZeros(k, [right, left]);
    ValAppend([right], [left]);
    ValSingle(right);
    ValSingle(left);
    assert BPow(1) == BASE;
  }

  lemma PlacedQuotient(v: nat, shift: nat, n: nat)
    requires shift / 32 + 1 < n
    ensures (v * BPow(n)) / Pow2(shift + 32) == BPow(n - 2 - shift / 32) * (v * Pow2(32 - shift % 32))
  {
    BPowSplit(n, n - 2 - shift / 32, shift / 32 + 2);
    assert BPow(shift / 32 + 2) == BASE * BPow(shift / 32 + 1);
    Pow2Word();
    Pow2Split(32, shift % 32, 32 - shift % 32);
    ShiftWeight(shift);
    QuotientArith(v, BPow(n - 2 - shift / 32), BPow(shift / 32 + 1), BPow(shift / 32 + 2), Pow2(shift % 32),
                  Pow2(32 - shift % 32), BPow(n), Pow2(shift + 32));
  }

  lemma QuotientArith(v: int, bk: int, bo: int, b2: int, ps: int, pt: int, bn: int, pw: int)
    requires bn == bk * b2 && b2 == BASE * bo && Pow2(32) == BASE && Pow2(32) == ps * pt
    requires pw == bo * ps && pw > 0
    ensures (v * bn) / pw == bk * (v * pt)
  {
    assert v * bn == (bk * (v * pt)) * pw by {
      assert bk * (BASE * bo) == bk * bo * (ps * pt);
    }
    QuotientExact(v * bn, pw, bk * (v * pt));
  }

  /** Only the left word inside the buffer: the right word's bits are cut off. */
  lemma PlacedLeft(v: u32, shift: nat, n: nat)
    requires shift / 32 + 1 == n
    ensures Val([LeftWord(v, shift % 32)] + Zeros(shift / 32)) == (v * BPow(n)) / Pow2(shift + 32)
  {
    var s := shift % 32;
    var left := LeftWord(v, s);
    assert Val([left] + Zeros(shift / 32)) == left by {
      ValAppendZeros([left], shift / 32);
      ValSingle(left);
    }
    assert Pow2(shift + 32) == Pow2(s) * BPow(n) by { ShiftWeight(shift); }
    ModScale(v, BPow(n), Pow2(s));
  }

  /** Neither word inside the buffer: the magnitude is below one unit of the last word. */
  lemma PlacedNone(v: u32, shift: nat, n: nat)
    requires shift / 32 >= n
    ensures (v * BPow(n)) / Pow2(shift + 32) == 0
  {
    var off := shift / 32;
    ShiftWeight(shift);
    BPowMonotone(n + 1, off + 1);
    assert BPow(n + 1) == BASE * BPow(n);
    NoneArith(v, BPow(n), BPow(off + 1), Pow2(shift % 32), Pow2(shift + 32));
  }

  lemma NoneArith(v: nat, bn: nat, bo: nat, ps: nat, pw: nat)
    requires v < BASE && bn >= 1 && BASE * bn <= bo && pw == bo * ps && ps >= 1
    ensures (v * bn) / pw == 0
  {
    assert v * bn < BASE * bn by { MulMonotone(v + 1, BASE, bn); }
    assert bo <= pw by { MulMonotone(1, ps, bo); }
    MulNonneg(v, bn);
    DivModUnique(v * bn, pw, 0, v * bn);
  }

  /** Negating a pattern leaves its exponent and fraction fields alone. */
  lemma FlipSignFields(bits: u32)
    ensures IsolateExponent(FlipSign(bits)) == IsolateExponent(bits)
    ensures IsolateMantissa(FlipSign(bits)) == IsolateMantissa(bits)
  {
    var f := FlipSign(bits);
    var q, m := bits / 0x80_0000, bits % 0x80_0000;
    assert bits == q * 0x80_0000 + m;
    var d := if bits >= SIGN_BIT then -0x100 else 0x100;
    DivModUnique(f, 0x80_0000, q + d, m);
    DivMod(q, 0x100);
    DivModUnique(q + d, 0x100, q / 0x100 + (if bits >= SIGN_BIT then -1 else 1), q % 0x100);
  }

  /** For exponent fields up to 157 the magnitude leaves the sign bit of the
      buffer clear. */
  lemma MagnitudeBound(bits: u32, n: nat)
    requires n >= 1 && 0 < IsolateExponent(bits) <= 157
    ensures F32Magnitude(bits, n) < Half(n)
  {
    ExponentWeight(IsolateExponent(bits));
    BoundArith(Significand(bits), BPow(n), Pow2(190 - IsolateExponent(bits)), Half(n));
    MagnitudeIs(bits, n);
  }

  lemma ExponentWeight(e: nat)
    requires e <= 157
    ensures 2 * BASE <= Pow2(190 - e)
  {
    Pow2Monotone(33, 190 - e);
    Pow2Word();
    assert Pow2(33) == 2 * Pow2(32);
  }

  lemma BoundArith(sig: nat, bn: nat, d: nat, h: int)
    requires sig < BASE && 2 * BASE <= d && bn == h * 2 && bn >= 1
    ensures (sig * bn) / d < h
  {
    assert sig * bn < BASE * bn by { MulMonotone(sig + 1, BASE, bn); }
    assert (2 * BASE) * h <= d * h by { MulMonotone(2 * BASE, d, h); }
    DivLess(sig * bn, d, h);
  }

  /** `from_f32` on a normal pattern with exponent field up to 157 yields the
      value times 2^(32(n-1)), truncated toward zero: the magnitude with the
      pattern's sign. */
  lemma FixedValue(bits: u32, n: nat)
    requires n >= 1 && 0 < IsolateExponent(bits) <= 157
    ensures Signed(F32Fixed(bits, n))
            == if IsNegative(bits) then -(F32Magnitude(bits, n) as int) else F32Magnitude(bits, n)
  {
    var m := F32Magnitude(bits, n);
    MagnitudeBound(bits, n);
    var mag := FromVal(n, m);
    assert mag == Wrap(n, m) by { DivModUnique(m, BPow(n), 0, m); }
    SignedOfWrap(n, m);
    if IsNegative(bits) {
      NegatedSigned(mag);
    }
  }

  // ---------------------------------------------------------------------
  // as_f32_round
  // ---------------------------------------------------------------------

  /** `(1 << (31 - word_zeros)) ^ first_word`: the top word without its leading one. */
  function TopBitCleared(first: u32): (r: u32)
    requires first != 0
    ensures r + Pow2(31 - LeadingZeros(first)) == first
  {
    var p := 31 - LeadingZeros(first);
    ShlOne(p);
    XorTopBit(first, p);
    BitXor(WordShl(1, p), first)
  }

  /** The fraction field `as_f32_round` assembles from the top nonzero word
      and the word it takes as the next one (`shift = word_zeros - 8`). */
  function FractionBits(first: u32, second: u32): nat
    requires first != 0
  {
    var wz := LeadingZeros(first);
    var mantissa := TopBitCleared(first);
    if wz <= 8 then WordShr(mantissa, 8 - wz)
    else BitOr(WordShl(mantissa, wz - 8), WordShr(second, 40 - wz))
  }

  /** The fraction field holds the 23 bits below the leading one of the
      64-bit pair first:second, truncated. */
  lemma FractionBitsValue(first: u32, second: u32)
    requires first != 0
    ensures FractionBits(first, second) < 0x80_0000
    ensures FractionBits(first, second) + 0x80_0000
            == (first * BASE + second) / Pow2(40 - LeadingZeros(first))
  {
    if LeadingZeros(first) <= 8 {
      FractionWide(first, second);
    } else {
      FractionNarrow(first, second);
    }
  }

  /** At least 24 significant bits in the top word: the next word is not used. */
  lemma FractionWide(first: u32, second: u32)
    requires first != 0 && LeadingZeros(first) <= 8
    ensures FractionBits(first, second) < 0x80_0000
    ensures FractionBits(first, second) + 0x80_0000
            == (first * BASE + second) / Pow2(40 - LeadingZeros(first))
  {
    Pow2Word();
    Pow2Split(31 - LeadingZeros(first), 23, 8 - LeadingZeros(first));
    Pow2Split(32 - LeadingZeros(first), 1, 31 - LeadingZeros(first));
    Pow2Split(40 - LeadingZeros(first), 32, 8 - LeadingZeros(first));
    WideArith(first, second, TopBitCleared(first), Pow2(8 - LeadingZeros(first)),
              Pow2(31 - LeadingZeros(first)), Pow2(40 - LeadingZeros(first)));
  }

  lemma WideArith(first: int, second: int, mant: int, pk: int, p: int, d: int)
    requires pk > 0 && p == Pow2(23) * pk && d == Pow2(32) * pk
    requires Pow2(23) == 0x80_0000 && Pow2(32) == BASE
    requires first == mant + p && first < Pow2(1) * p
    requires 0 <= second < BASE && 0 <= mant
    ensures mant / pk < 0x80_0000
    ensures mant / pk + 0x80_0000 == (first * BASE + second) / d
  {
    assert p == 0x80_0000 * pk && d == BASE * pk && mant < p;
    DivMod(mant, pk);
    var q, r := mant / pk, mant % pk;
    if q >= 0x80_0000 {
      MulMonotone(0x80_0000, q, pk);
    }
    assert first * BASE + second == (q + 0x80_0000) * (BASE * pk) + (r * BASE + second);
    assert r * BASE + second < BASE * pk by { MulMonotone(r + 1, pk, BASE); }
    DivModUnique(first * BASE + second, d, q + 0x80_0000, r * BASE + second);
  }

  /** Fewer than 24 significant bits in the top word: the rest come from the
      top of the next word. */
  lemma FractionNarrow(first: u32, second: u32)
    requires first != 0 && LeadingZeros(first) > 8
    ensures FractionBits(first, second) < 0x80_0000
    ensures FractionBits(first, second) + 0x80_0000
            == (first * BASE + second) / Pow2(40 - LeadingZeros(first))
  {
    var wz := LeadingZeros(first);
    var t := wz - 8;
    var pt, pu := Pow2(t), Pow2(32 - t);
    var mant := TopBitCleared(first);
    assert Pow2(31 - wz) * pt == 0x80_0000 by {
      Pow2Add(31 - wz, t);
      Pow2Word();
    }
    assert BASE == pt * pu by {
      Pow2Add(t, 32 - t);
      Pow2Word();
    }
    LowBitsBelow(mant, Pow2(31 - wz), pt);
    var hi := mant * pt;
    assert WordShl(mant, t) == hi by {
      DivModUnique(hi, BASE, 0, hi);
    }
    var lo := WordShr(second, 32 - t);
    assert lo == second / pu;
    ShrOutBound(second, t);
    DivModUnique(hi, pt, mant, 0);
    OrDisjoint(hi, lo, t);
    assert FractionBits(first, second) == hi + lo;
    DivMod(second, pu);
    NarrowArith(first, second, mant, Pow2(31 - wz), pt, pu, lo, second % pu);
  }

  lemma LowBitsBelow(mant: int, p: int, pt: int)
    requires 0 <= mant < p && p * pt == 0x80_0000 && pt >= 1
    ensures 0 <= mant * pt && mant * pt + pt <= 0x80_0000
  {
    MulMonotone(mant + 1, p, pt);
    MulMonotone(0, mant, pt);
  }

  lemma NarrowArith(first: int, second: int, mant: int, p: int, pt: int, pu: int, lo: int, r: int)
    requires pu > 0 && BASE == pt * pu && first == mant + p && p * pt == 0x80_0000
    requires second == lo * pu + r && 0 <= r < pu && 0 <= lo < pt && mant * pt + pt <= 0x80_0000
    ensures mant * pt + lo < 0x80_0000
    ensures mant * pt + lo + 0x80_0000 == (first * BASE + second) / pu
  {
    assert first * BASE + second == (mant * pt + lo + 0x80_0000) * pu + r;
    DivModUnique(first * BASE + second, pu, mant * pt + lo + 0x80_0000, r);
  }

  /** A pattern's fields are the parts it was assembled from. */
  lemma FieldsOfParts(neg: bool, e: nat, m: nat)
    requires e < 0x100 && m < 0x80_0000
    ensures var b := (if neg then SIGN_BIT else 0) + e * 0x80_0000 + m;
            b < BASE && IsolateExponent(b) == e && IsolateMantissa(b) == m
  {
    var b := (if neg then SIGN_BIT else 0) + e * 0x80_0000 + m;
    var h := if neg then 1 else 0;
    DivModUnique(b, 0x80_0000, h * 0x100 + e, m);
    DivModUnique(h * 0x100 + e, 0x100, h, e);
  }

  /** `exponent << 23 | v` with the fraction below bit 23. */
  lemma ExponentPlaced(exponent: u32, frac: nat)
    requires exponent < 0x100 && frac < 0x80_0000
    ensures BitOr(WordShl(exponent, 23), frac) == exponent * 0x80_0000 + frac
  {
    Pow2Word();
    DivModUnique(exponent * 0x80_0000, BASE, 0, exponent * 0x80_0000);
    DivModUnique(exponent * 0x80_0000, 0x80_0000, exponent, 0);
    OrDisjoint(exponent * 0x80_0000, frac, 23);
  }

  /** The pattern `as_f32_round` assembles from the scan: exponent field
      0x7e - (word_zeros + 32 * zero_words) + 32, the fraction bits, and the
      sign bit flipped (`-f`) for a negative number. */
  function AssembleF32(first: u32, second: u32, zeroWords: nat, neg: bool): (r: u32)
    requires first != 0 && LeadingZeros(first) + 32 * zeroWords <= 0x7e
    ensures IsolateExponent(r) == 158 - LeadingZeros(first) - 32 * zeroWords
    ensures IsolateMantissa(r) == FractionBits(first, second)
    ensures r >= SIGN_BIT <==> neg
  {
    var exponent := 0x7e - (LeadingZeros(first) + 32 * zeroWords) + 32;
    var frac := FractionBits(first, second);
    FractionBitsValue(first, second);
    ExponentPlaced(exponent, frac);
    FieldsOfParts(neg, exponent, frac);
    var f := BitOr(WordShl(exponent, 23), frac);
    if neg then FlipSign(f) else f
  }

  /** `first_word`: the most significant nonzero word, 0 when there is none. */
  function TopWord(s: seq<u32>): u32
  {
    var t := LastNonzero(s);
    if t >= 0 then s[t] else 0
  }

  /** `second_word` as the scan leaves it: the word that was `first_word`
      when the top word was met, that is the next nonzero word below the top
      one, wherever it lies. */
  function NextNonzeroWord(s: seq<u32>): u32
  {
    var t := LastNonzero(s);
    if t >= 0 then TopWord(s[..t]) else 0
  }

  /** The word right below the top nonzero word. */
  function AdjacentWord(s: seq<u32>): u32
  {
    var t := LastNonzero(s);
    if t >= 1 then s[t - 1] else 0
  }

  /** `zero_words`: the zero words above the top nonzero word. */
  function ZerosAbove(s: seq<u32>): nat
  {
    |s| - 1 - LastNonzero(s)
  }

  /** One step of the scan: a nonzero word becomes `first_word`, pushes the
      old one into `second_word` and resets `zero_words`; a zero word only
      counts. */
  lemma ScanStep(s: seq<u32>, x: u32)
    ensures TopWord(s + [x]) == if x != 0 then x else TopWord(s)
    ensures NextNonzeroWord(s + [x]) == if x != 0 then TopWord(s) else NextNonzeroWord(s)
    ensures ZerosAbove(s + [x]) == if x != 0 then 0 else ZerosAbove(s) + 1
  {
    var t := s + [x];
    assert t[..|t| - 1] == s;
    if x == 0 {
      var l := LastNonzero(s);
      if l >= 0 {
        assert t[..l] == s[..l];
      }
    }
  }

  lemma NonzeroTop(s: seq<u32>)
    requires !AllZero(s)
    ensures TopWord(s) != 0
  {
  }

  /** A nonzero number has a nonzero magnitude. */
  lemma MagnitudeNonzero(w: seq<u32>)
    requires |w| >= 1 && !AllZero(w)
    ensures TopWord(Magnitude(w)) != 0
  {
    ValZero(w);
    ValBound(w);
    MagnitudeValue(w);
    ValZero(Magnitude(w));
    NonzeroTop(Magnitude(w));
  }

  /** The numbers `as_f32_round` handles: zero, or an exponent field
      0x7e - (word_zeros + 32 * zero_words) + 32 that does not underflow the
      `u32` subtraction. */
  predicate AsF32Defined(w: seq<u32>)
  {
    AllZero(w) ||
    (|w| >= 1 && LeadingZeros(TopWord(Magnitude(w))) + 32 * ZerosAbove(Magnitude(w)) <= 0x7e)
  }

  /** `as_f32_round` as written: the bits below the top word are taken from
      the next nonzero word. */
  function F32Round(w: seq<u32>): u32
    requires AsF32Defined(w)
  {
    if AllZero(w) then 0
    else
      MagnitudeNonzero(w);
      var mag := Magnitude(w);
      AssembleF32(TopWord(mag), NextNonzeroWord(mag), ZerosAbove(mag), PartialCompareI32(w, 0) == Less)
  }

  /** `as_f32_round` as evidently intended: the bits below the top word are
      taken from the word right below it. */
  function F32RoundCorrected(w: seq<u32>): u32
    requires AsF32Defined(w)
  {
    if AllZero(w) then 0
    else
      MagnitudeNonzero(w);
      var mag := Magnitude(w);
      AssembleF32(TopWord(mag), AdjacentWord(mag), ZerosAbove(mag), PartialCompareI32(w, 0) == Less)
  }

  // ---------------------------------------------------------------------
  // from_f32 followed by as_f32_round
  // ---------------------------------------------------------------------

  /** The buffer after the two guarded writes of `from_f32` (`get_mut`
      writes only inside the buffer). */
  lemma GuardedWrites(n: nat, off: nat, left: u32, right: u32, b1: seq<u32>, b2: seq<u32>)
    requires b1 == if off < n then Zeros(n)[off := left] else Zeros(n)
    requires b2 == if off + 1 < n then b1[off + 1 := right] else b1
    ensures |b2| == n
    ensures forall j | 0 <= j < n :: b2[j] == (if j == off then left else if j == off + 1 then right else 0)
  {
  }

  /** The buffer `from_f32` fills, reversed, is the canonical n-word form of
      the magnitude, whichever of the two writes land inside the buffer. */
  lemma FilledIsMagnitude(v: u32, e: nat, n: nat, buf: seq<u32>, m: nat)
    requires 0 < e <= 158 && |buf| == n && m == (v * BPow(n)) / Pow2(190 - e)
    requires forall j | 0 <= j < n :: buf[j] == (if j == (158 - e) / 32 then LeftWord(v, (158 - e) % 32)
                                                else if j == (158 - e) / 32 + 1 then RightWord(v, (158 - e) % 32)
                                                else 0)
    ensures Reversed(buf) == FromVal(n, m)
  {
    var shift := 158 - e;
    var off, s := shift / 32, shift % 32;
    ReversedFill(buf, off, LeftWord(v, s), RightWord(v, s));
    assert Pow2(shift + 32) == Pow2(190 - e);
    if off + 1 < n {
      LayoutCanonical(v, e, n, m);
    } else if off + 1 == n {
      var l := [LeftWord(v, s)] + Zeros(off);
      PlacedLeft(v, shift, n);
      ValBound(l);
      DivModUnique(m, BPow(n), 0, m);
      FromValCanonical(l, m);
    } else {
      PlacedNone(v, shift, n);
      ValZero(Zeros(n));
      FromValCanonical(Zeros(n), 0);
    }
  }

  /** `-value` for a negative value has the same fields and magnitude. */
  lemma AbsoluteFields(value: u32, bits: u32, n: nat)
    requires bits == if IsNegative(value) then FlipSign(value) else value
    ensures IsolateExponent(bits) == IsolateExponent(value) && Significand(bits) == Significand(value)
    ensures 0 < IsolateExponent(value) <= 158 ==> F32Magnitude(bits, n) == F32Magnitude(value, n)
  {
    FlipSignFields(value);
    if 0 < IsolateExponent(value) <= 158 {
      MagnitudeOfFields(bits, value, n);
    }
  }

  /** The magnitude depends on the exponent field and the significand only. */
  lemma MagnitudeOfFields(a: u32, b: u32, n: nat)
    requires 0 < IsolateExponent(a) <= 158 && IsolateExponent(a) == IsolateExponent(b)
    requires Significand(a) == Significand(b)
    ensures F32Magnitude(a, n) == F32Magnitude(b, n)
  {
  }

  /** FilledIsMagnitude for the words `from_f32` computes from a pattern. */
  lemma FilledIsFixed(bits: u32, n: nat, off: nat, left: u32, right: u32, buf: seq<u32>)
    requires 0 < IsolateExponent(bits) <= 158 && |buf| == n
    requires off == (158 - IsolateExponent(bits)) / 32
    requires left == LeftWord(Significand(bits), (158 - IsolateExponent(bits)) % 32)
    requires right == RightWord(Significand(bits), (158 - IsolateExponent(bits)) % 32)
    requires forall j | 0 <= j < n :: buf[j] == (if j == off then left else if j == off + 1 then right else 0)
    ensures Reversed(buf) == FromVal(n, F32Magnitude(bits, n))
  {
    MagnitudeIs(bits, n);
    FilledIsMagnitude(Significand(bits), IsolateExponent(bits), n, buf, F32Magnitude(bits, n));
  }

  /** The layout for exponent field e: the shift is 158 - e. */
  function F32Layout(v: u32, e: nat, n: nat): (r: seq<u32>)
    requires 0 < e <= 158 && (158 - e) / 32 + 1 < n
    ensures |r| == n
  {
    PairLayout(v, 158 - e, n)
  }

  /** The layout is the canonical n-word form of the magnitude. */
  lemma LayoutCanonical(v: u32, e: nat, n: nat, m: nat)
    requires 0 < e <= 158 && (158 - e) / 32 + 1 < n && m == (v * BPow(n)) / Pow2(190 - e)
    ensures FromVal(n, m) == F32Layout(v, e, n)
  {
    var l := F32Layout(v, e, n);
    PlacedBoth(v, 158 - e, n);
    ValBound(l);
    DivModUnique(m, BPow(n), 0, m);
    FromValCanonical(l, m);
  }

  /** A layout with the significand's leading one is not zero. */
  lemma LayoutNonzero(v: u32, e: nat, n: nat)
    requires SIGN_BIT <= v && 0 < e <= 158 && (158 - e) / 32 + 1 < n
    ensures !AllZero(F32Layout(v, e, n))
  {
    var off, s := (158 - e) / 32, (158 - e) % 32;
    LeftLeadingZeros(v, s);
    assert F32Layout(v, e, n)[n - 1 - off] == LeftWord(v, s);
  }

  lemma FixedLayoutIsMagnitude(bits: u32, n: nat)
    requires 0 < IsolateExponent(bits) <= 157 && (158 - IsolateExponent(bits)) / 32 + 1 < n
    ensures FromVal(n, F32Magnitude(bits, n)) == F32Layout(Significand(bits), IsolateExponent(bits), n)
  {
    MagnitudeIs(bits, n);
    LayoutCanonical(Significand(bits), IsolateExponent(bits), n, F32Magnitude(bits, n));
  }

  /** `self < &0` is a negative integer part. */
  lemma NegativeFlag(w: seq<u32>)
    requires |w| >= 1
    ensures PartialCompareI32(w, 0) == Less <==> Floor(w) < 0
  {
  }

  /** `from_f32` of a normal pattern reads back with the layout as its
      magnitude and the pattern's sign. */
  lemma FixedSign(bits: u32, n: nat)
    requires 0 < IsolateExponent(bits) <= 157 && (158 - IsolateExponent(bits)) / 32 + 1 < n
    ensures var w := F32Fixed(bits, n);
            !AllZero(w) && Magnitude(w) == F32Layout(Significand(bits), IsolateExponent(bits), n)
            && (PartialCompareI32(w, 0) == Less <==> IsNegative(bits))
  {
    var w := F32Fixed(bits, n);
    var l := F32Layout(Significand(bits), IsolateExponent(bits), n);
    var m := F32Magnitude(bits, n);
    FixedLayoutIsMagnitude(bits, n);
    LayoutNonzero(Significand(bits), IsolateExponent(bits), n);
    assert m != 0 by {
      ValFromVal(n, m);
      ValZero(l);
    }
    FixedValue(bits, n);
    ValZero(w);
    FloorSign(w);
    NegativeFlag(w);
    if IsNegative(bits) {
      NegatedInvolutive(l);
    }
  }

  /** The scan over the layout: the left word is the top word, the right
      word lies right below it, and `offset` zero words lie above. */
  lemma LayoutScan(n: nat, off: nat, right: u32, left: u32)
    requires left != 0 && off + 1 < n
    ensures var l := Zeros(n - 2 - off) + [right, left] + Zeros(off);
            LastNonzero(l) == n - 1 - off && TopWord(l) == left && ZerosAbove(l) == off
            && NextNonzeroWord(l) == right && AdjacentWord(l) == right
  {
    var k := n - 2 - off;
    var l := Zeros(k) + [right, left] + Zeros(off);
    var t := LastNonzero(l);
    assert l[k + 1] == left;
    assert t == k + 1;
    var below := l[..t];
    assert below == Zeros(k) + [right];
    if right == 0 {
      assert AllZero(below);
    } else {
      assert below[k] == right;
      assert LastNonzero(below) == k;
    }
  }

  /** `first_word.leading_zeros()` of the left word is the bit shift. */
  lemma LeftLeadingZeros(v: u32, s: nat)
    requires SIGN_BIT <= v && s < 32
    ensures LeftWord(v, s) != 0 && LeadingZeros(LeftWord(v, s)) == s
  {
    var left := LeftWord(v, s);
    var ps := Pow2(s);
    assert left == v / ps;
    DivMod(v, ps);
    Pow2Add(31 - s, s);
    Pow2Add(32 - s, s);
    Pow2Word();
    LeftBounds(v, ps, left, v % ps, Pow2(31 - s), Pow2(32 - s));
    LeadingZerosUnique(left, s);
  }

  lemma LeftBounds(v: int, ps: int, left: int, r: int, lo: int, hi: int)
    requires ps > 0 && v == left * ps + r && 0 <= r < ps
    requires lo * ps == SIGN_BIT && hi * ps == BASE && SIGN_BIT <= v < BASE
    ensures lo <= left < hi
  {
    if left < lo {
      MulMonotone(left + 1, lo, ps);
    }
    if left >= hi {
      MulMonotone(hi, left, ps);
    }
  }

  lemma LeadingZerosUnique(w: u32, k: nat)
    requires k < 32 && Pow2(31 - k) <= w < Pow2(32 - k)
    ensures LeadingZeros(w) == k
  {
    var r := LeadingZeros(w);
    if r < k {
      Pow2Monotone(32 - k, 31 - r);
    } else if r > k {
      Pow2Monotone(32 - r, 31 - k);
    }
  }

  /** The fraction bits `as_f32_round` reads off the two words `from_f32`
      wrote are the fraction field the significand came from. */
  lemma FractionOfPair(m: nat, s: nat)
    requires m < 0x80_0000 && s < 32
    ensures var v := SIGN_BIT + m * 0x100;
            LeftWord(v, s) != 0 && FractionBits(LeftWord(v, s), RightWord(v, s)) == m
  {
    var v := SIGN_BIT + m * 0x100;
    var left, right := LeftWord(v, s), RightWord(v, s);
    LeftLeadingZeros(v, s);
    FractionBitsValue(left, right);
    PairValue(v, s);
    assert Pow2(40 - s) == Pow2(8) * Pow2(32 - s) by { Pow2Add(8, 32 - s); }
    ModScale(v, Pow2(32 - s), Pow2(8));
    Pow2Word();
    DivModUnique(v, 0x100, 0x80_0000 + m, 0);
  }

  /** What the scan of `as_f32_round` reads off a layout. */
  lemma PairLayoutRead(v: u32, shift: nat, n: nat)
    requires SIGN_BIT <= v && shift / 32 + 1 < n
    ensures var l, s := PairLayout(v, shift, n), shift % 32;
            TopWord(l) == LeftWord(v, s) && TopWord(l) != 0
            && LeadingZeros(TopWord(l)) == s && ZerosAbove(l) == shift / 32
            && NextNonzeroWord(l) == RightWord(v, s) && AdjacentWord(l) == RightWord(v, s)
  {
    var off, s := shift / 32, shift % 32;
    LeftLeadingZeros(v, s);
    LayoutScan(n, off, RightWord(v, s), LeftWord(v, s));
  }

  lemma LayoutRead(v: u32, e: nat, n: nat)
    requires SIGN_BIT <= v && 0 < e <= 158 && (158 - e) / 32 + 1 < n
    ensures var l, s := F32Layout(v, e, n), (158 - e) % 32;
            TopWord(l) == LeftWord(v, s) && TopWord(l) != 0
            && LeadingZeros(TopWord(l)) + 32 * ZerosAbove(l) == 158 - e
            && NextNonzeroWord(l) == RightWord(v, s) && AdjacentWord(l) == RightWord(v, s)
  {
    PairLayoutRead(v, 158 - e, n);
  }

  /** A pattern is determined by its sign, exponent and fraction fields. */
  lemma FieldsDetermine(r: u32, bits: u32)
    requires IsolateExponent(r) == IsolateExponent(bits) && IsolateMantissa(r) == IsolateMantissa(bits)
    requires r >= SIGN_BIT <==> bits >= SIGN_BIT
    ensures r == bits
  {
    F32Fields(r);
    F32Fields(bits);
  }

  /** Assembling from the two words `from_f32` writes for exponent field e
      and fraction m gives the pattern with those fields. */
  lemma AssembleOfPair(v: u32, m: nat, e: nat, neg: bool, first: u32, second: u32, zeroWords: nat)
    requires m < 0x80_0000 && v == SIGN_BIT + m * 0x100 && 32 <= e <= 157
    requires first == LeftWord(v, (158 - e) % 32) && second == RightWord(v, (158 - e) % 32)
    requires first != 0 && LeadingZeros(first) + 32 * zeroWords == 158 - e
    ensures AssembleF32(first, second, zeroWords, neg) == (if neg then SIGN_BIT else 0) + e * 0x80_0000 + m
  {
    FractionOfPair(m, (158 - e) % 32);
    FieldsOfParts(neg, e, m);
    FieldsDetermine(AssembleF32(first, second, zeroWords, neg), (if neg then SIGN_BIT else 0) + e * 0x80_0000 + m);
  }

  /** Assembling a pattern from the layout of a normal pattern gives the
      pattern back, whichever of the two lower words is used. */
  lemma LayoutAssembles(bits: u32, n: nat)
    requires 32 <= IsolateExponent(bits) <= 157 && (158 - IsolateExponent(bits)) / 32 + 1 < n
    ensures var l := F32Layout(Significand(bits), IsolateExponent(bits), n);
            TopWord(l) != 0 && LeadingZeros(TopWord(l)) + 32 * ZerosAbove(l) <= 0x7e
            && AssembleF32(TopWord(l), NextNonzeroWord(l), ZerosAbove(l), IsNegative(bits)) == bits
            && AssembleF32(TopWord(l), AdjacentWord(l), ZerosAbove(l), IsNegative(bits)) == bits
  {
    var l := F32Layout(Significand(bits), IsolateExponent(bits), n);
    LayoutRead(Significand(bits), IsolateExponent(bits), n);
    AssembleOfPair(Significand(bits), IsolateMantissa(bits), IsolateExponent(bits), IsNegative(bits),
                   TopWord(l), NextNonzeroWord(l), ZerosAbove(l));
    AssembleOfPair(Significand(bits), IsolateMantissa(bits), IsolateExponent(bits), IsNegative(bits),
                   TopWord(l), AdjacentWord(l), ZerosAbove(l));
    F32Fields(bits);
  }

  /** `as_f32_round` reads back the pattern `from_f32` was given, for every
      normal pattern whose exponent field is 32..157 (magnitudes in
      [2^-95, 2^31)) when the buffer holds both words `from_f32` writes; the
      corrected reading agrees. */
  lemma F32RoundTrip(bits: u32, n: nat)
    requires 32 <= IsolateExponent(bits) <= 157 && (158 - IsolateExponent(bits)) / 32 + 1 < n
    ensures AsF32Defined(F32Fixed(bits, n))
    ensures F32Round(F32Fixed(bits, n)) == bits
    ensures F32RoundCorrected(F32Fixed(bits, n)) == bits
  {
    FixedSign(bits, n);
    LayoutAssembles(bits, n);
  }

  // ---------------------------------------------------------------------
  // Patterns that convert to zero
  // ---------------------------------------------------------------------

  /** Zero and the subnormals (exponent field 0) convert to zero, which
      reads back as the zero pattern. */
  lemma ZeroExponentRoundTrip(bits: u32, n: nat)
    requires IsolateExponent(bits) == 0
    ensures F32Fixed(bits, n) == Zeros(n)
    ensures AsF32Defined(F32Fixed(bits, n)) && F32Round(F32Fixed(bits, n)) == 0
  {
    ValZero(Zeros(n));
  }

  /** Exponent fields above 158 put the significand beyond the top word:
      nothing is written and, negated or not, the result is zero. */
  lemma LargeExponentIsZero(bits: u32, n: nat)
    requires FromF32Defined(bits) && IsolateExponent(bits) > 158
    ensures F32Fixed(bits, n) == Zeros(n)
  {
    var z := Zeros(n);
    ValZero(z);
    DivModUnique(0, BPow(n), 0, 0);
    assert -(Val(z) as int) % BPow(n) == 0;
    FromValCanonical(z, 0);
  }

  // ---------------------------------------------------------------------
  // The scan of `as_f32_round`
  // ---------------------------------------------------------------------

  /** After i words: `seen` holds the words the scan has produced (negated
      on the fly when `neg`), and the three scan variables describe it. */
  ghost predicate ScanState(a: seq<u32>, i: nat, neg: bool, carry: bool, seen: seq<u32>,
                            first: u32, second: u32, zeroWords: nat)
    requires i <= |a|
  {
    (neg ==> NegPrefix(seen, a, i, carry)) && (!neg ==> seen == a[..i])
    && first == TopWord(seen) && second == NextNonzeroWord(seen) && zeroWords == ZerosAbove(seen)
  }

  /** One iteration of the scan keeps ScanState. */
  lemma ScanAdvance(a: seq<u32>, i: nat, neg: bool, carry: bool, seen: seq<u32>,
                    first: u32, second: u32, zeroWords: nat)
    requires i < |a| && ScanState(a, i, neg, carry, seen, first, second, zeroWords)
    ensures var s := OverflowingAdd(WordNot(a[i]), if carry then 1 else 0);
            var word := if neg then s.0 else a[i];
            ScanState(a, i + 1, neg, if neg then s.1 else carry, seen + [word],
                      if word != 0 then word else first, if word != 0 then first else second,
                      if word != 0 then 0 else zeroWords + 1)
  {
    var s := OverflowingAdd(WordNot(a[i]), if carry then 1 else 0);
    var word := if neg then s.0 else a[i];
    assert a[..i + 1] == a[..i] + [a[i]];
    if neg {
      NegStep(seen, a, i, carry);
    }
    ScanStep(seen, word);
  }

  /** At the end of the scan, `seen` is the magnitude. */
  lemma ScanDone(a: seq<u32>, neg: bool, carry: bool, seen: seq<u32>, first: u32, second: u32, zeroWords: nat)
    requires |a| >= 1 && ScanState(a, |a|, neg, carry, seen, first, second, zeroWords)
    requires neg <==> PartialCompareI32(a, 0) == Less
    ensures seen == Magnitude(a)
  {
    NegativeFlag(a);
    if neg {
      NegPrefixIsNegated(seen, a, |a|, carry);
    }
    assert a[..|a|] == a;
  }

  // ---------------------------------------------------------------------
  // The corrected reading truncates
  // ---------------------------------------------------------------------

  /** The top word and the word right below it, at their weights, bound
      the value from below. */
  lemma ValTopTwo(mag: seq<u32>, t: nat)
    requires t < |mag|
    ensures Val(mag) * (BASE * BASE) >= (mag[t] * BASE + (if t >= 1 then mag[t - 1] else 0)) * BPow(t + 1)
  {
    ValSplit(mag, t + 1);
    MulNonneg(BPow(t + 1), Val(mag[t + 1..]));
    ValSnoc(mag, t);
    if t >= 1 {
      ValSnoc(mag, t - 1);
      TopTwoArith(Val(mag), Val(mag[..t - 1]), mag[t], mag[t - 1], BPow(t - 1), BPow(t), BPow(t + 1));
    } else {
      assert BPow(1) == BASE;
      TopOneArith(Val(mag), mag[0]);
    }
  }

  lemma TopTwoArith(v: nat, low: nat, hi: nat, lo: nat, b0: nat, b1: nat, b2: nat)
    requires b1 == BASE * b0 && b2 == BASE * b1 && v >= low + lo * b0 + hi * b1
    ensures v * (BASE * BASE) >= (hi * BASE + lo) * b2
  {
    MulMonotone(low + lo * b0 + hi * b1, v, BASE * BASE);
  }

  lemma TopOneArith(v: nat, hi: nat)
    requires v >= hi
    ensures v * (BASE * BASE) >= (hi * BASE + 0) * BASE
  {
    MulMonotone(hi, v, BASE * BASE);
  }

  /** Dropping the zero words above the top: the magnitude of the pattern
      in n words is the same as in t+1 words. */
  lemma ScaleDownWords(sig: nat, wz: nat, zw: nat, t: nat, n: nat)
    requires n == zw + t + 1
    ensures (sig * BPow(n)) / Pow2(32 + wz + 32 * zw) == (sig * BPow(t + 1)) / Pow2(32 + wz)
  {
    var bz, bt := BPow(zw), BPow(t + 1);
    assert Pow2(32 + wz + 32 * zw) == Pow2(32 + wz) * bz by {
      BPowIsPow2(zw);
      Pow2Add(32 + wz, 32 * zw);
    }
    assert BPow(n) == bt * bz by { BPowSplit(n, t + 1, zw); }
    ModScale(sig * bt, bz, Pow2(32 + wz));
    ScaleArith(sig, bt, bz, BPow(n));
  }

  lemma ScaleArith(sig: int, bt: int, bz: int, bn: int)
    requires bn == bt * bz
    ensures sig * bn == sig * bt * bz
  {
  }

  /** The same quotient with the leading-zero count moved to the numerator. */
  lemma ScaleDownBits(x: nat, wz: nat, bt: nat)
    requires wz < 32
    ensures (0x100 * x * bt) / Pow2(32 + wz) == (x * Pow2(40 - wz) * bt) / (BASE * BASE)
  {
    Pow2Word();
    Pow2Split(40 - wz, 8, 32 - wz);
    Pow2Split(64, 32 + wz, 32 - wz);
    Pow2Split(64, 32, 32);
    MulNonneg(0x100 * x, bt);
    ModScale(0x100 * x * bt, Pow2(32 - wz), Pow2(32 + wz));
    BitsArith(x, bt, Pow2(32 - wz), Pow2(40 - wz), Pow2(32 + wz), (0x100 * x * bt) / Pow2(32 + wz));
  }

  lemma BitsArith(x: int, bt: int, p: int, q: int, r: int, lhs: int)
    requires p > 0 && r > 0 && q == Pow2(8) * p && r * p == BASE * BASE && Pow2(8) == 0x100
    requires lhs == (0x100 * x * bt * p) / (r * p)
    ensures lhs == (x * q * bt) / (BASE * BASE)
  {
    assert 0x100 * x * bt * p == x * q * bt;
  }

  /** The magnitude of the assembled pattern is at most the value it was read from. */
  lemma TruncBound(sig: nat, x: nat, wz: nat, zw: nat, t: nat, n: nat, d: nat, top: nat, v: nat)
    requires wz < 32 && sig == 0x100 * x && n == zw + t + 1 && d == 32 + wz + 32 * zw
    requires x == top / Pow2(40 - wz) && v * (BASE * BASE) >= top * BPow(t + 1)
    ensures (sig * BPow(n)) / Pow2(d) <= v
  {
    var bt := BPow(t + 1);
    ScaleDownWords(sig, wz, zw, t, n);
    ScaleDownBits(x, wz, bt);
    DivBound(top, Pow2(40 - wz));
    MulMonotone(x * Pow2(40 - wz), top, bt);
    DivMonotone(x * Pow2(40 - wz) * bt, top * bt, BASE * BASE);
    DivMonotone(top * bt, v * (BASE * BASE), BASE * BASE);
    DivModUnique(v * (BASE * BASE), BASE * BASE, v, 0);
  }

  /** TruncBound with its premises in the shape the field lemmas state them. */
  lemma TruncOfFields(sig: nat, m: nat, first: nat, second: nat, wz: nat, zw: nat, t: nat, n: nat,
                      e: nat, v: nat, mag: nat)
    requires wz < 32 && n == zw + t + 1 && e == 158 - wz - 32 * zw
    requires sig == SIGN_BIT + m * 0x100
    requires m + 0x80_0000 == (first * BASE + second) / Pow2(40 - wz)
    requires TopTwoBelow(v, first, second, t)
    requires mag == (sig * BPow(n)) / Pow2(190 - e)
    ensures mag <= v
  {
    TruncBound(sig, m + 0x80_0000, wz, zw, t, n, 190 - e, first * BASE + second, v);
  }

  /** Two words `hi`, `lo` at weights t and t-1 make at most the value `v`. */
  ghost predicate TopTwoBelow(v: nat, hi: nat, lo: nat, t: nat)
  {
    v * (BASE * BASE) >= (hi * BASE + lo) * BPow(t + 1)
  }

  /** ValTopTwo in terms of the scan's `first_word` and its lower neighbour. */
  lemma ValTopAdjacent(mag: seq<u32>)
    requires LastNonzero(mag) >= 0
    ensures TopTwoBelow(Val(mag), TopWord(mag), AdjacentWord(mag), LastNonzero(mag))
  {
    ValTopTwo(mag, LastNonzero(mag));
  }

  /** The fields of the corrected reading of a nonzero number, from its magnitude's top words. */
  lemma CorrectedFields(w: seq<u32>)
    requires AsF32Defined(w) && !AllZero(w)
    ensures TopWord(Magnitude(w)) != 0 && LastNonzero(Magnitude(w)) >= 0
    ensures LeadingZeros(TopWord(Magnitude(w))) + 32 * ZerosAbove(Magnitude(w)) <= 0x7e
    ensures IsolateExponent(F32RoundCorrected(w))
            == 158 - LeadingZeros(TopWord(Magnitude(w))) - 32 * ZerosAbove(Magnitude(w))
    ensures IsolateMantissa(F32RoundCorrected(w)) == FractionBits(TopWord(Magnitude(w)), AdjacentWord(Magnitude(w)))
  {
    MagnitudeNonzero(w);
  }

  /** A pattern assembled from the top words `first`, `second` of a value `v`
      stands for a magnitude no larger than `v`. */
  lemma AssembledTruncates(r: u32, first: u32, second: u32, zw: nat, t: nat, n: nat, v: nat)
    requires first != 0 && n == zw + t + 1 && LeadingZeros(first) + 32 * zw <= 0x7e
    requires IsolateExponent(r) == 158 - LeadingZeros(first) - 32 * zw
    requires IsolateMantissa(r) == FractionBits(first, second)
    requires TopTwoBelow(v, first, second, t)
    ensures 32 <= IsolateExponent(r) <= 158
    ensures F32Magnitude(r, n) <= v
  {
    FractionBitsValue(first, second);
    MagnitudeIs(r, n);
    TruncOfFields(Significand(r), IsolateMantissa(r), first, second, LeadingZeros(first), zw, t, n,
                  IsolateExponent(r), v, F32Magnitude(r, n));
  }

  /** The top word and the word right below it, one unit of the lower word
      up, bound the value from above: the words further down make less than
      one unit of the lower word. */
  ghost predicate TopTwoAbove(v: nat, hi: nat, lo: nat, t: nat)
  {
    v * (BASE * BASE) < (hi * BASE + lo + 1) * BPow(t + 1)
  }

  lemma ValTopTwoAbove(mag: seq<u32>)
    requires LastNonzero(mag) >= 0
    ensures TopTwoAbove(Val(mag), TopWord(mag), AdjacentWord(mag), LastNonzero(mag))
  {
    var t: nat := LastNonzero(mag);
    ValTopTwoUpper(mag, t, Val(mag));
  }

  /** The words above the top nonzero one add nothing. */
  lemma ValZeroAbove(mag: seq<u32>, t: nat)
    requires t < |mag| && forall j | t < j < |mag| :: mag[j] == 0
    ensures Val(mag) == Val(mag[..t + 1])
  {
    ValSplit(mag, t + 1);
    assert AllZero(mag[t + 1..]);
    ValZero(mag[t + 1..]);
  }

  lemma ValTopTwoUpper(mag: seq<u32>, t: nat, v: nat)
    requires t < |mag| && forall j | t < j < |mag| :: mag[j] == 0
    requires v == Val(mag)
    ensures v * (BASE * BASE) < (mag[t] * BASE + (if t >= 1 then mag[t - 1] else 0) + 1) * BPow(t + 1)
  {
    ValZeroAbove(mag, t);
    ValSnoc(mag, t);
    if t >= 1 {
      ValSnoc(mag, t - 1);
      ValBound(mag[..t - 1]);
      TopTwoAboveArith(v, Val(mag[..t - 1]), mag[t], mag[t - 1], BPow(t - 1), BPow(t), BPow(t + 1));
    } else {
      assert BPow(1) == BASE;
      TopOneAboveArith(v, mag[0]);
    }
  }

  lemma TopTwoAboveArith(v: nat, low: nat, hi: nat, lo: nat, b0: nat, b1: nat, b2: nat)
    requires b1 == BASE * b0 && b2 == BASE * b1 && v == low + lo * b0 + hi * b1 && low < b0
    ensures v * (BASE * BASE) < (hi * BASE + lo + 1) * b2
  {
    assert v < (hi * BASE + lo + 1) * b0;
    MulStrict(v, (hi * BASE + lo + 1) * b0, BASE * BASE);
  }

  lemma TopOneAboveArith(v: nat, hi: nat)
    requires v == hi
    ensures v * (BASE * BASE) < (hi * BASE + 0 + 1) * BASE
  {
  }

  lemma MulStrict(a: int, b: int, c: int)
    requires a < b && c > 0
    ensures a * c < b * c
  {
    MulMonotone(a + 1, b, c);
  }

  /** One more unit in the last mantissa place of a pattern with exponent
      field `e` and significand `sig` stands for more than `v`, in units of
      2^-32(n-1). */
  ghost predicate NextPatternAbove(v: nat, e: nat, sig: nat, n: nat)
    requires e <= 190
  {
    v * Pow2(190 - e) < (sig + 0x100) * BPow(n)
  }

  /** The first pattern above the assembled one stands for more than the value. */
  lemma TruncAbove(sig: nat, x: nat, wz: nat, zw: nat, t: nat, n: nat, d: nat, top: nat, up: nat,
                    next: nat, v: nat)
    requires wz < 32 && sig == 0x100 * x && n == zw + t + 1 && d == 32 + wz + 32 * zw
    requires up == top + 1 && next == sig + 0x100
    requires x == top / Pow2(40 - wz) && v * (BASE * BASE) < up * BPow(t + 1)
    ensures v * Pow2(d) < next * BPow(n)
  {
    var bt, bz := BPow(t + 1), BPow(zw);
    var p, q, r := Pow2(40 - wz), Pow2(32 - wz), Pow2(32 + wz);
    AbovePowers(wz, zw, t, n, d);
    DivUpper(top, p, x);
    AboveArith(v, top, up, x, bt, p, q, r);
    MulStrict(v * r, 0x100 * (x + 1) * bt, bz);
    AboveScale(v, r, bz, Pow2(d), sig, next, x, bt, BPow(n));
  }

  /** The powers of two `TruncAbove` relates. */
  lemma AbovePowers(wz: nat, zw: nat, t: nat, n: nat, d: nat)
    requires wz < 32 && n == zw + t + 1 && d == 32 + wz + 32 * zw
    ensures Pow2(d) == Pow2(32 + wz) * BPow(zw)
    ensures BPow(n) == BPow(t + 1) * BPow(zw)
    ensures Pow2(40 - wz) == 0x100 * Pow2(32 - wz)
    ensures Pow2(32 + wz) * Pow2(32 - wz) == BASE * BASE
  {
    BPowIsPow2(zw);
    Pow2Split(d, 32 + wz, 32 * zw);
    BPowSplit(n, t + 1, zw);
    Pow2Word();
    Pow2Split(40 - wz, 8, 32 - wz);
    Pow2Split(64, 32 + wz, 32 - wz);
    Pow2Split(64, 32, 32);
  }

  /** The dividend lies below the next multiple of the divisor. */
  lemma DivUpper(a: nat, d: nat, x: nat)
    requires d > 0 && x == a / d
    ensures a < (x + 1) * d
  {
    DivMod(a, d);
  }

  lemma AboveArith(v: nat, top: nat, up: nat, x: nat, bt: nat, p: nat, q: nat, r: nat)
    requires q > 0 && p == 0x100 * q && r * q == BASE * BASE && up == top + 1
    requires top < (x + 1) * p && v * (BASE * BASE) < up * bt
    ensures v * r < 0x100 * (x + 1) * bt
  {
    MulMonotone(top + 1, (x + 1) * p, bt);
    assert v * r * q < 0x100 * (x + 1) * bt * q;
    MulCancel(v * r, 0x100 * (x + 1) * bt, q);
  }

  lemma AboveScale(v: int, r: int, bz: int, pd: int, sig: int, next: int, x: int, bt: int, bn: int)
    requires pd == r * bz && bn == bt * bz && sig == 0x100 * x && next == sig + 0x100
    requires v * r * bz < 0x100 * (x + 1) * bt * bz
    ensures v * pd < next * bn
  {
    assert v * pd == v * r * bz;
    assert next * bn == 0x100 * (x + 1) * bt * bz;
  }

  /** A pattern assembled from the top words `first`, `second` of a value `v`
      is the largest below it: one more unit in its last mantissa place
      stands for more than `v`. */
  lemma AssembledTight(r: u32, first: u32, second: u32, zw: nat, t: nat, n: nat, v: nat)
    requires first != 0 && n == zw + t + 1 && LeadingZeros(first) + 32 * zw <= 0x7e
    requires IsolateExponent(r) == 158 - LeadingZeros(first) - 32 * zw
    requires IsolateMantissa(r) == FractionBits(first, second)
    requires TopTwoAbove(v, first, second, t)
    ensures IsolateExponent(r) <= 158 && NextPatternAbove(v, IsolateExponent(r), Significand(r), n)
  {
    TightOfFields(Significand(r), IsolateMantissa(r), first, second, LeadingZeros(first), zw, t, n,
                  IsolateExponent(r), v);
  }

  /** TruncAbove with its premises in the shape the field lemmas state them. */
  lemma TightOfFields(sig: nat, m: nat, first: u32, second: u32, wz: nat, zw: nat, t: nat, n: nat,
                      e: nat, v: nat)
    requires first != 0 && wz == LeadingZeros(first) && n == zw + t + 1 && e == 158 - wz - 32 * zw
    requires sig == SIGN_BIT + m * 0x100 && m == FractionBits(first, second)
    requires TopTwoAbove(v, first, second, t)
    ensures NextPatternAbove(v, e, sig, n)
  {
    FractionBitsValue(first, second);
    TruncAbove(sig, m + 0x80_0000, wz, zw, t, n, 190 - e, first * BASE + second,
               first * BASE + second + 1, sig + 0x100, v);
  }

  /** The corrected `as_f32_round` truncates: the pattern it returns stands
      for a magnitude no larger than the number's, and the pattern one unit
      of its last mantissa place above it stands for a larger one. */
  lemma CorrectedTruncates(w: seq<u32>)
    requires AsF32Defined(w) && !AllZero(w)
    ensures 32 <= IsolateExponent(F32RoundCorrected(w)) <= 158
    ensures F32Magnitude(F32RoundCorrected(w), |w|) <= Val(Magnitude(w))
    ensures Val(Magnitude(w)) * Pow2(190 - IsolateExponent(F32RoundCorrected(w)))
            < (Significand(F32RoundCorrected(w)) + 0x100) * BPow(|w|)
  {
    CorrectedBelow(w);
    CorrectedAbove(w);
  }

  lemma CorrectedBelow(w: seq<u32>)
    requires AsF32Defined(w) && !AllZero(w)
    ensures 32 <= IsolateExponent(F32RoundCorrected(w)) <= 158
    ensures F32Magnitude(F32RoundCorrected(w), |w|) <= Val(Magnitude(w))
  {
    CorrectedFields(w);
    var mag := Magnitude(w);
    ValTopAdjacent(mag);
    AssembledTruncates(F32RoundCorrected(w), TopWord(mag), AdjacentWord(mag), ZerosAbove(mag),
                       LastNonzero(mag), |w|, Val(mag));
  }

  lemma CorrectedAbove(w: seq<u32>)
    requires AsF32Defined(w) && !AllZero(w)
    ensures IsolateExponent(F32RoundCorrected(w)) <= 158
    ensures NextPatternAbove(Val(Magnitude(w)), IsolateExponent(F32RoundCorrected(w)),
                             Significand(F32RoundCorrected(w)), |w|)
  {
    CorrectedFields(w);
    var mag := Magnitude(w);
    ValTopTwoAbove(mag);
    AssembledTight(F32RoundCorrected(w), TopWord(mag), AdjacentWord(mag), ZerosAbove(mag),
                   LastNonzero(mag), |w|, Val(mag));
  }

  // ---------------------------------------------------------------------
  // `second_word` as written: a counterexample
  // ---------------------------------------------------------------------

  /** 1 + 2^-33: the integer word 1, a zero word, then a word with its top bit set. */
  const SKIPPED_ZERO: seq<u32> := [0x8000_0000, 0, 1]

  lemma SkippedZeroShape()
    ensures !AllZero(SKIPPED_ZERO) && Magnitude(SKIPPED_ZERO) == SKIPPED_ZERO
    ensures LastNonzero(SKIPPED_ZERO) == 2 && TopWord(SKIPPED_ZERO) == 1 && ZerosAbove(SKIPPED_ZERO) == 0
    ensures NextNonzeroWord(SKIPPED_ZERO) == 0x8000_0000 && AdjacentWord(SKIPPED_ZERO) == 0
    ensures LeadingZeros(1) == 31 && AsF32Defined(SKIPPED_ZERO)
    ensures PartialCompareI32(SKIPPED_ZERO, 0) != Less
    ensures Val(SKIPPED_ZERO) == 0x1_0000_0000_8000_0000
  {
    var w := SKIPPED_ZERO;
    assert w[2] != 0;
    assert Floor(w) == 1;
    NegativeFlag(w);
    assert LastNonzero(w[..2]) == 0;
    assert BPow(2) == 0x1_0000_0000_0000_0000;
  }

  /** A pattern with exponent field 127 and mantissa field `m`, positive. */
  lemma PositivePattern(r: u32, m: nat, bits: u32)
    requires m < 0x80_0000 && bits == 127 * 0x80_0000 + m
    requires IsolateExponent(r) == 127 && IsolateMantissa(r) == m && r < SIGN_BIT
    ensures r == bits
  {
    FieldsOfParts(false, 127, m);
    FieldsDetermine(r, bits);
  }

  /** As written, the scan takes the word below the zero word as `second_word`
      and returns 1.5. */
  lemma SkippedZeroAsWritten()
    ensures AsF32Defined(SKIPPED_ZERO)
    ensures IsolateExponent(F32Round(SKIPPED_ZERO)) == 127 && IsolateMantissa(F32Round(SKIPPED_ZERO)) == 0x40_0000
    ensures F32Round(SKIPPED_ZERO) == 0x3FC0_0000
  {
    SkippedZeroShape();
    var w := SKIPPED_ZERO;
    FractionBitsValue(TopWord(w), NextNonzeroWord(w));
    assert Pow2(40 - LeadingZeros(TopWord(w))) == 512;
    assert TopWord(w) * BASE + NextNonzeroWord(w) == 0x1_8000_0000;
    DivModUnique(0x1_8000_0000, 512, 0xC0_0000, 0);
    PositivePattern(F32Round(w), 0x40_0000, 0x3FC0_0000);
  }

  /** Corrected, the word right below the top word is read and the result is 1.0. */
  lemma SkippedZeroCorrected()
    ensures AsF32Defined(SKIPPED_ZERO)
    ensures IsolateExponent(F32RoundCorrected(SKIPPED_ZERO)) == 127
    ensures IsolateMantissa(F32RoundCorrected(SKIPPED_ZERO)) == 0
    ensures F32RoundCorrected(SKIPPED_ZERO) == 0x3F80_0000
  {
    SkippedZeroShape();
    var w := SKIPPED_ZERO;
    FractionBitsValue(TopWord(w), AdjacentWord(w));
    assert Pow2(40 - LeadingZeros(TopWord(w))) == 512;
    assert TopWord(w) * BASE + AdjacentWord(w) == 0x1_0000_0000;
    DivModUnique(0x1_0000_0000, 512, 0x80_0000, 0);
    PositivePattern(F32RoundCorrected(w), 0, 0x3F80_0000);
  }

  /** In three words, a pattern with exponent field 127 stands for its
      significand shifted up by 33 bits. */
  lemma PatternMagnitude(r: u32, m: nat)
    requires IsolateExponent(r) == 127 && IsolateMantissa(r) == m
    ensures F32Magnitude(r, 3) == (SIGN_BIT + m * 0x100) * 0x2_0000_0000
  {
    MagnitudeIs(r, 3);
    ThreeWordScale(Significand(r));
  }

  lemma ThreeWordScale(sig: nat)
    ensures (sig * BPow(3)) / Pow2(63) == sig * 0x2_0000_0000
  {
    assert Pow2(63) == 0x8000_0000_0000_0000 by {
      Pow2Add(32, 31);
      Pow2Word();
    }
    assert BPow(3) == 0x1_0000_0000_0000_0000_0000_0000;
    DivModUnique(sig * BPow(3), Pow2(63), sig * 0x2_0000_0000, 0);
  }

  /** `as_f32_round` as written returns a float larger than the number it
      reads, 1.5 for 1 + 2^-33, while the corrected reading truncates to 1.0. */
  lemma NextNonzeroWordCounterexample()
    ensures AsF32Defined(SKIPPED_ZERO)
    ensures F32Round(SKIPPED_ZERO) == 0x3FC0_0000 && F32RoundCorrected(SKIPPED_ZERO) == 0x3F80_0000
    ensures F32Magnitude(F32Round(SKIPPED_ZERO), 3) > Val(Magnitude(SKIPPED_ZERO))
    ensures F32Magnitude(F32RoundCorrected(SKIPPED_ZERO), 3) <= Val(Magnitude(SKIPPED_ZERO))
  {
    SkippedZeroShape();
    SkippedZeroAsWritten();
    SkippedZeroCorrected();
    PatternMagnitude(F32Round(SKIPPED_ZERO), 0x40_0000);
    PatternMagnitude(F32RoundCorrected(SKIPPED_ZERO), 0);
  }
}
