/** `WideFloat` (src/float.rs): a two's-complement fixed-point number held
    in a vector of 32-bit words, least significant first, whose last word is
    the signed integer part. The arithmetic updates the words in place; each
    method is proved against the value-level function that specifies it. */
module Float {
  import opened Words
  import opened Value
  import opened FloatQuery
  import opened FloatArith
  import opened FloatShift
  import opened FloatMul
  import opened FloatConvert

  // ---------------------------------------------------------------------
  // min_positive as a value
  // ---------------------------------------------------------------------

  /** `min_positive(size, precision)`: one bit set, at bit `precision`. */
  function MinPositiveWords(size: nat, precision: nat): (r: seq<u32>)
    requires precision / 32 < size
    ensures |r| == size
  {
    Zeros(size)[precision / 32 := WordShl(1, precision % 32)]
  }

  lemma ValOneWord(n: nat, j: nat, x: u32)
    requires j < n
    ensures Val(Zeros(n)[j := x]) == x * BPow(j)
  {
    assert Zeros(n)[j := x] == Zeros(j) + ([x] + Zeros(n - j - 1));
    ValPrependZeros(j, [x] + Zeros(n - j - 1));
    ValAppendZeros([x], n - j - 1);
    ValSingle(x);
  }

  /** `min_positive(size, precision)` sets the single bit `precision`: its
      only nonzero word is word precision/32, equal to 2^(precision % 32),
      and the unsigned value of the buffer is 2^precision. Below the sign bit
      that is also the signed value, the smallest positive number with
      `precision` fractional bits; at the sign bit (`precision == 32 * size - 1`)
      the number is the most negative one. */
  lemma MinPositiveValue(size: nat, precision: nat)
    requires precision / 32 < size
    ensures var r := MinPositiveWords(size, precision);
            r[precision / 32] == Pow2(precision % 32) &&
            (forall j | 0 <= j < size && j != precision / 32 :: r[j] == 0) &&
            Val(r) == Pow2(precision)
    ensures precision < 32 * size - 1 ==> Signed(MinPositiveWords(size, precision)) == Pow2(precision)
    ensures precision == 32 * size - 1 ==> Signed(MinPositiveWords(size, precision)) + Pow2(precision) == 0
  {
    var idx, k := precision / 32, precision % 32;
    var r := MinPositiveWords(size, precision);
    ShlOne(k);
    ValOneWord(size, idx, WordShl(1, k));
    BPowIsPow2(idx);
    Pow2Add(32 * idx, k);
    Pow2Word();
    if idx < size - 1 {
      assert r[size - 1] == 0;
    } else if k < 31 {
      Pow2Monotone(k + 1, 31);
      assert r[size - 1] < 0x8000_0000;
    } else {
      BPowIsPow2(size);
      Pow2Split(32 * size, precision, 1);
    }
  }

  /** The sign bit is within reach of `min_positive`: for every size, asking
      for `32 * size - 1` fractional bits returns the most negative number. */
  lemma MinPositiveSignBitCounterexample(size: nat)
    requires size >= 1
    ensures MinPositiveWords(size, 32 * size - 1)[size - 1] == 0x8000_0000
    ensures Signed(MinPositiveWords(size, 32 * size - 1)) == -Half(size)
    ensures MinPositiveWords(1, 31) == [0x8000_0000] && Signed(MinPositiveWords(1, 31)) < 0
  {
    var p := 32 * size - 1;
    MinPositiveValue(size, p);
    MinPositiveValue(1, 31);
    Pow2Word();
    BPowIsPow2(size);
    Pow2Split(32 * size, p, 1);
  }

  /** `min_positive` as documented: the number exists only when the bit
      `precision` lies below the sign bit, and then it is positive, equal to
      2^precision units of the last place, and no positive number with
      `precision` fractional bits is smaller. */
  function MinPositiveChecked(size: nat, precision: nat): (r: Option<seq<u32>>)
    ensures r.Some? <==> precision < 32 * size - 1
    ensures r.Some? ==> |r.value| == size && Signed(r.value) == Pow2(precision) > 0
  {
    if precision < 32 * size - 1 then
      MinPositiveValue(size, precision);
      Some(MinPositiveWords(size, precision))
    else None
  }

  /** Every positive multiple of 2^precision is at least `MinPositiveChecked`. */
  lemma MinPositiveIsMinimal(size: nat, precision: nat, w: seq<u32>)
    requires precision < 32 * size - 1 && |w| == size
    requires Signed(w) > 0 && Signed(w) % Pow2(precision) == 0
    ensures Signed(MinPositiveChecked(size, precision).value) <= Signed(w)
  {
    MultipleAtLeast(Signed(w), Pow2(precision));
  }

  /** A positive multiple of p is at least p. */
  lemma MultipleAtLeast(x: int, p: int)
    requires p > 0 && x > 0 && x % p == 0
    ensures p <= x
  {
    DivMod(x, p);
    if x / p <= 0 {
      MulMonotone(x / p, 0, p);
    } else {
      MulMonotone(1, x / p, p);
    }
  }

  // ---------------------------------------------------------------------
  // The class
  // ---------------------------------------------------------------------

  class WideFloat {
    var words: seq<u32>

    /** The tuple constructor `WideFloat(buffer)`. */
    constructor (buffer: seq<u32>)
      ensures words == buffer
    {
      words := buffer;
    }

    /** `zero(size)`. */
    constructor Zero(size: nat)
      ensures words == Zeros(size)
    {
      words := Zeros(size);
    }

    /** `min_positive(size, precision)`; indexing panics when precision/32 >= size. */
    constructor MinPositive(size: nat, precision: nat)
      requires precision / 32 < size
      ensures words == MinPositiveWords(size, precision)
    {
      var buffer := Zeros(size);
      buffer := buffer[precision / 32 := WordShl(1, precision % 32)];
      words := buffer;
    }

    /** `from_i32(value, size)`; indexing panics when size is zero. */
    constructor FromI32(value: i32, size: nat)
      requires size >= 1
      ensures words == IntWords(value, size)
    {
      var buffer := Zeros(size);
      buffer := buffer[size - 1 := Words.FromI32(value)];
      words := buffer;
    }

    /** `from_f32(value, size)` on the bit pattern of `value`: the significand
        is split around a word boundary into the buffer counted from the
        top, the buffer is reversed, and a negative value is negated. The
        shift is negative only for exponent fields above 158; the source then
        writes nowhere, and it shifts by a negative amount (a panic) unless
        the shift is a multiple of 32. */
    constructor FromF32(value: u32, size: nat)
      requires FromF32Defined(value)
      ensures words == F32Fixed(value, size)
    {
      var neg := IsNegative(value);
      var bits := if neg then FlipSign(value) else value;
      AbsoluteFields(value, bits, size);
      var e := IsolateExponent(bits);
      if e == 0 {
        words := Zeros(size);
      } else {
        var v := Significand(bits);
        var buffer: seq<u32> := Zeros(size);
        if e <= 158 {
          var shift := 158 - e;
          var off := shift / 32;
          var left, right := LeftWord(v, shift % 32), RightWord(v, shift % 32);
          if off < size {
            buffer := buffer[off := left];
          }
          ghost var b1 := buffer;
          if off + 1 < size {
            buffer := buffer[off + 1 := right];
          }
          GuardedWrites(size, off, left, right, b1, buffer);
          FilledIsFixed(bits, size, off, left, right, buffer);
        } else {
          ReversedFill(buffer, size, 0, 0);
        }
        words := Reversed(buffer);
      }
      new;
      if neg && e != 0 {
        var r := Neg();
      }
    }

    /** `as_f32_round()`: the scan from the lowest word up keeps the top
        nonzero word, the nonzero word met before it and the count of zero
        words above it, negating a negative number on the fly; the float
        is assembled from those three. */
    method AsF32Round() returns (f: u32)
      requires AsF32Defined(words)
      ensures f == F32Round(words)
    {
      if AllZero(words) {
        return 0;
      }
      var neg := PartialCompareI32(words, 0) == Less;
      var zeroWords: nat := 0;
      var first: u32 := 0;
      var second: u32 := 0;
      var carry := true;
      ghost var seen: seq<u32> := [];
      var i := 0;
      while i < |words|
        invariant 0 <= i <= |words|
        invariant ScanState(words, i, neg, carry, seen, first, second, zeroWords)
      {
        ScanAdvance(words, i, neg, carry, seen, first, second, zeroWords);
        var word := words[i];
        if neg {
          var s := OverflowingAdd(WordNot(word), if carry then 1 else 0);
          word, carry := s.0, s.1;
        }
        if word != 0 {
          second := first;
          first := word;
          zeroWords := 0;
        } else {
          zeroWords := zeroWords + 1;
        }
        seen := seen + [word];
        i := i + 1;
      }
      ScanDone(words, neg, carry, seen, first, second, zeroWords);
      MagnitudeNonzero(words);
      f := AssembleF32(first, second, zeroWords, neg);
    }

    /** `clone()`. */
    method Clone() returns (r: WideFloat)
      ensures fresh(r) && r.words == words
    {
      r := new WideFloat(words);
    }

    // -------------------------------------------------------------------
    // change_precision
    // -------------------------------------------------------------------

    /** `change_precision(word_diff)`: insert zero words at the bottom, or
        remove the lowest words (`Vec::remove` panics on an empty vector). */
    method ChangePrecision(wordDiff: int)
      requires wordDiff > 0 || -wordDiff <= |words|
      modifies this
      ensures words == Resized(old(words), wordDiff)
    {
      ghost var w0 := words;
      if wordDiff > 0 {
        var i := 0;
        while i < wordDiff
          invariant 0 <= i <= wordDiff && words == Zeros(i) + w0
        {
          assert [0] + (Zeros(i) + w0) == Zeros(i + 1) + w0;
          words := [0] + words;
          i := i + 1;
        }
      } else {
        var i := 0;
        while i < -wordDiff
          invariant 0 <= i <= -wordDiff && words == w0[i..]
        {
          words := words[1..];
          i := i + 1;
        }
      }
    }

    // -------------------------------------------------------------------
    // Addition, subtraction, negation
    // -------------------------------------------------------------------

    /** `add_assign`: a ripple of `carrying_add` from the lowest word; the
        carry out of the top word is dropped. */
    method AddAssign(rhs: WideFloat)
      requires |words| == |rhs.words|
      modifies this
      ensures words == Sum(old(words), old(rhs.words))
    {
      var a, b := words, rhs.words;
      var carry := false;
      var i := 0;
      while i < |a|
        invariant 0 <= i <= |a| && |words| == |a|
        invariant words[i..] == a[i..]
        invariant AddPrefix(words[..i], a, b, i, carry)
      {
        assert words[i] == a[i];
        var s := CarryingAdd(words[i], b[i], carry);
        AddStep(words[..i], a, b, i, carry);
        assert words[i := s.0][..i + 1] == words[..i] + [s.0];
        words := words[i := s.0];
        carry := s.1;
        i := i + 1;
      }
      assert words[..i] == words;
      AddPrefixIsSum(words[..i], a, b, carry);
    }

    /** `add(mut self, rhs)`: the same ripple on the moved value, which is returned. */
    method Add(rhs: WideFloat) returns (r: WideFloat)
      requires |words| == |rhs.words|
      modifies this
      ensures r == this && words == Sum(old(words), old(rhs.words))
    {
      AddAssign(rhs);
      r := this;
    }

    /** `sub_assign`: a ripple of `borrowing_sub` from the lowest word; the
        borrow out of the top word is dropped. */
    method SubAssign(rhs: WideFloat)
      requires |words| == |rhs.words|
      modifies this
      ensures words == Difference(old(words), old(rhs.words))
    {
      var a, b := words, rhs.words;
      var borrow := false;
      var i := 0;
      while i < |a|
        invariant 0 <= i <= |a| && |words| == |a|
        invariant words[i..] == a[i..]
        invariant SubPrefix(words[..i], a, b, i, borrow)
      {
        assert words[i] == a[i];
        var s := BorrowingSub(words[i], b[i], borrow);
        SubStep(words[..i], a, b, i, borrow);
        assert words[i := s.0][..i + 1] == words[..i] + [s.0];
        words := words[i := s.0];
        borrow := s.1;
        i := i + 1;
      }
      assert words[..i] == words;
      SubPrefixIsDifference(words[..i], a, b, borrow);
    }

    /** `sub(mut self, rhs)`. */
    method Sub(rhs: WideFloat) returns (r: WideFloat)
      requires |words| == |rhs.words|
      modifies this
      ensures r == this && words == Difference(old(words), old(rhs.words))
    {
      SubAssign(rhs);
      r := this;
    }

    /** `neg(mut self)`: complement every word and add one, rippling the
        carry with `overflowing_add`. */
    method Neg() returns (r: WideFloat)
      modifies this
      ensures r == this && words == Negated(old(words))
    {
      var a := words;
      var carry := true;
      var i := 0;
      while i < |a|
        invariant 0 <= i <= |a| && |words| == |a|
        invariant words[i..] == a[i..]
        invariant NegPrefix(words[..i], a, i, carry)
      {
        assert words[i] == a[i];
        var s := OverflowingAdd(WordNot(words[i]), if carry then 1 else 0);
        NegStep(words[..i], a, i, carry);
        assert words[i := s.0][..i + 1] == words[..i] + [s.0];
        assert words[i := s.0][i + 1..] == a[i + 1..];
        words := words[i := s.0];
        carry := s.1;
        i := i + 1;
      }
      assert words[..i] == words;
      NegPrefixIsNegated(words[..i], a, i, carry);
      r := this;
    }

    // -------------------------------------------------------------------
    // Shifts
    // -------------------------------------------------------------------

    /** The word move of `shr_assign`: `copy_within(rotate.., 0)`, then the
        top `rotate` words are zeroed. */
    method MoveDown(rotate: nat)
      requires rotate <= |words|
      modifies this
      ensures words == ShrMoved(old(words), rotate)
    {
      var len := |words|;
      ghost var w0 := words;
      words := words[rotate..] + words[len - rotate..];
      var i := len - rotate;
      while i < len
        invariant len - rotate <= i <= len && |words| == len
        invariant words[..len - rotate] == w0[rotate..]
        invariant forall j | len - rotate <= j < i :: words[j] == 0
      {
        words := words[i := 0];
        i := i + 1;
      }
      assert words == w0[rotate..] + Zeros(rotate);
    }

    /** The bit sweep of `shr_assign`: from the top word down to word
        `rotate`, each word takes its own bits moved down by `shift` and the
        low bits of the word above (the carry). */
    method SweepDown(rotate: nat, shift: nat)
      requires rotate <= |words| && 0 < shift < 32
      modifies this
      ensures words == old(words)[..rotate] + ShrBits(old(words)[rotate..], shift)
    {
      var len := |words|;
      ghost var m := words;
      var carry: u32 := 0;
      var i := len;
      while i > rotate
        invariant rotate <= i <= len && |words| == len
        invariant words[..i] == m[..i]
        invariant forall j | i <= j < len :: words[j] == ShrWord(m[rotate..], j - rotate, shift)
        invariant carry == if i < len then WordShl(m[i], 32 - shift) else 0
      {
        var w := words[i - 1];
        assert w == m[i - 1];
        ShrShlDisjoint(w, if i < len then m[i] else 0, shift);
        var tmp := WordShr(w, shift) + carry;
        carry := WordShl(w, 32 - shift);
        words := words[i - 1 := tmp];
        i := i - 1;
      }
      assert words == m[..rotate] + ShrBits(m[rotate..], shift);
    }

    /** `shr_assign(rhs)`: the word move by rhs/32, then the bit sweep by
        rhs % 32 over the top len - rhs/32 words. Slicing panics when rhs/32
        exceeds the length. */
    method ShrAssign(rhs: nat)
      requires rhs / 32 <= |words|
      modifies this
      ensures words == ShrAsWritten(old(words), rhs)
    {
      var rotate := rhs / 32;
      MoveDown(rotate);
      var shift := rhs % 32;
      if shift != 0 {
        SweepDown(rotate, shift);
      }
    }

    /** The word move of `shl_assign`: `copy_within(..len - rotate, rotate)`,
        then the bottom `rotate` words are zeroed. */
    method MoveUp(rotate: nat)
      requires rotate <= |words|
      modifies this
      ensures words == ShlMoved(old(words), rotate)
    {
      var len := |words|;
      ghost var w0 := words;
      words := words[..rotate] + words[..len - rotate];
      var i := 0;
      while i < rotate
        invariant 0 <= i <= rotate && |words| == len
        invariant words[rotate..] == w0[..len - rotate]
        invariant forall j | 0 <= j < i :: words[j] == 0
      {
        words := words[i := 0];
        i := i + 1;
      }
      assert words == Zeros(rotate) + w0[..len - rotate];
    }

    /** The bit sweep of `shl_assign`: from word 0 up over the low `count`
        words, each word takes its own bits moved up by `shift` and the high
        bits of the word below (the carry); the carry out is dropped. */
    method SweepUp(count: nat, shift: nat)
      requires count <= |words| && 0 < shift < 32
      modifies this
      ensures words == ShlBits(old(words)[..count], shift, 0) + old(words)[count..]
    {
      ghost var m := words;
      var carry: u32 := 0;
      var i := 0;
      while i < count
        invariant 0 <= i <= count && |words| == |m|
        invariant words[i..] == m[i..]
        invariant forall j | 0 <= j < i :: words[j] == ShlWord(m[..count], j, shift, 0)
        invariant carry == if i == 0 then 0 else WordShr(m[i - 1], 32 - shift)
      {
        var w := words[i];
        assert w == m[i];
        if i == 0 {
          ShlCarryDisjoint(w, shift, 0);
        } else {
          ShrShlDisjoint(m[i - 1], w, 32 - shift);
        }
        var tmp := WordShl(w, shift) + carry;
        carry := WordShr(w, 32 - shift);
        words := words[i := tmp];
        i := i + 1;
      }
      assert words == ShlBits(m[..count], shift, 0) + m[count..];
    }

    /** `shl_assign(rhs)`: the word move by rhs/32, then the bit sweep by
        rhs % 32 over the low len - rhs/32 words. */
    method ShlAssign(rhs: nat)
      requires rhs / 32 <= |words|
      modifies this
      ensures words == ShlAsWritten(old(words), rhs)
    {
      var rotate := rhs / 32;
      MoveUp(rotate);
      var shift := rhs % 32;
      if shift != 0 {
        SweepUp(|words| - rotate, shift);
      }
    }

    // -------------------------------------------------------------------
    // Multiplication
    // -------------------------------------------------------------------

    /** The `carrying_mul` sweep of `mul`: every word times x plus the carry
        from the word below; the final carry is returned. */
    method ScaleBy(x: u32) returns (c: u32)
      modifies this
      ensures |words| == |old(words)|
      ensures Val(words) + c * BPow(|words|) == x * Val(old(words))
    {
      ghost var q := words;
      var len := |words|;
      c := 0;
      var j := 0;
      while j < len
        invariant 0 <= j <= len && |words| == len
        invariant words[j..] == q[j..]
        invariant MulWordPrefix(words[..j], q, x, j, c)
      {
        assert words[j] == q[j];
        var s := CarryingMul(x, words[j], c);
        MulWordStep(words[..j], q, x, j, c);
        assert words[j := s.0][..j + 1] == words[..j] + [s.0];
        words := words[j := s.0];
        c := s.1;
        j := j + 1;
      }
      assert words[..j] == words && q[..j] == q;
    }

    /** One partial product of `mul`: |rhs| times the word x of weight i,
        shifted down by len - i - 1 words, with the carry placed in word
        i + 1; it is the truncated (x·|rhs|) >> 32·(len - 1 - i). */
    static method PartialProduct(x: u32, rhs: WideFloat, rneg: bool, i: nat) returns (part: WideFloat)
      requires i < |rhs.words| && rneg == (FloatQuery.Floor(rhs.words) < 0)
      requires i + 1 < |rhs.words| || x * Val(Magnitude(rhs.words)) < BPow(|rhs.words|)
      ensures fresh(part) && |part.words| == |rhs.words|
      ensures Val(part.words) == PartialTerm(x, Val(Magnitude(rhs.words)), |rhs.words|, i)
    {
      var len := |rhs.words|;
      ghost var b := rhs.words;
      ghost var v := Val(Magnitude(b));
      part := rhs.Clone();
      if rneg {
        part := part.Neg();
      }
      assert Val(part.words) == v;
      var c := part.ScaleBy(x);
      ghost var pw := part.words;
      var shift := len - i - 1;
      part.ShrAssign(shift * 32);
      ShrWholeWords(pw, shift);
      ghost var m := part.words;
      if i == len - 1 {
        assert c == 0 by {
          MulNonneg(x, v);
          NoTopCarry(Val(pw), c, BPow(len), x * v);
        }
      }
      if c != 0 {
        part.words := part.words[i + 1 := c];
      }
      assert part.words == if c != 0 then m[i + 1 := c] else m;
      PlaceCarry(pw, c, x, v, i, part.words);
      assert rhs.words == b;
    }

    /** The body of the loop of `mul`: `result += &part` with the partial
        product of the word x of |self| at index i, which adds the next term
        of the sum of partial products. */
    static method AddPartialProduct(result: WideFloat, x: u32, rhs: WideFloat, rneg: bool, i: nat,
                                    ghost l: seq<u32>)
      requires i < |l| == |rhs.words| == |result.words| && l[i] == x && result != rhs
      requires rneg == (FloatQuery.Floor(rhs.words) < 0)
      requires i + 1 < |l| || x * Val(Magnitude(rhs.words)) < BPow(|l|)
      requires result.words == Wrap(|l|, PartialProducts(l, Val(Magnitude(rhs.words)), i))
      modifies result
      ensures result.words == Wrap(|l|, PartialProducts(l, Val(Magnitude(rhs.words)), i + 1))
    {
      var part := PartialProduct(x, rhs, rneg, i);
      AccumulateStep(result.words, part.words, l, Val(Magnitude(rhs.words)), i);
      result.AddAssign(part);
    }

    /** `mul(&self, rhs)`: for each word of |self| (negated on the fly when
        self is negative), add the partial product with |rhs|; negate when
        exactly one operand is negative. The source asserts equal lengths,
        reads the last word, and panics when the last partial product
        carries (`MulFits`). */
    method Mul(rhs: WideFloat) returns (r: WideFloat)
      requires |words| == |rhs.words| >= 1 && MulFits(words, rhs.words)
      ensures fresh(r) && r.words == Product(words, rhs.words)
    {
      var len := |words|;
      var a := words;
      var lneg := FloatQuery.Floor(a) < 0;
      var rneg := FloatQuery.Floor(rhs.words) < 0;
      ghost var l := Magnitude(a);
      ghost var v := Val(Magnitude(rhs.words));
      var result := new WideFloat.Zero(len);
      assert result.words == Wrap(len, PartialProducts(l, v, 0)) by {
        WrapOfVal(Zeros(len));
        ValZero(Zeros(len));
      }
      var carry := true;
      ghost var seen: seq<u32> := [];
      var i := 0;
      while i < len
        invariant 0 <= i <= len
        invariant fresh(result) && result.words == Wrap(len, PartialProducts(l, v, i))
        invariant lneg ==> NegPrefix(seen, a, i, carry)
      {
        var lw: u32;
        if lneg {
          var s := OverflowingAdd(WordNot(a[i]), if carry then 1 else 0);
          NegStep(seen, a, i, carry);
          lw, carry := s.0, s.1;
          seen := seen + [lw];
          NegPrefixIsNegated(seen, a, i + 1, carry);
          assert lw == l[i] by {
            assert seen[i] == lw;
          }
        } else {
          lw := a[i];
        }
        if i == len - 1 {
          assert lw * v < BPow(len);
        }
        AddPartialProduct(result, lw, rhs, rneg, i, l);
        i := i + 1;
      }
      if rneg != lneg {
        result := result.Neg();
      }
      r := result;
    }

    /** `mul_assign`: `*self = &*self * rhs`. */
    method MulAssign(rhs: WideFloat)
      requires |words| == |rhs.words| >= 1 && MulFits(words, rhs.words)
      modifies this
      ensures words == Product(old(words), old(rhs.words))
    {
      var p := Mul(rhs);
      words := p.words;
    }
  }
}
