/** The read-only queries on a `WideFloat` buffer (src/float.rs): `floor`,
    `is_int`, the total order `Ord::cmp`, the comparisons against an `i32`, and
    `precision_diff`. Each is stated against the two's-complement value
    `Signed(w)`, which is the number the buffer stands for scaled by
    2^(32·(n-1)). */
module FloatQuery {
  import opened Words
  import opened Value

  datatype Ordering = Less | Equal | Greater

  /** `Ord::cmp` on integers. */
  function CompareInt(a: int, b: int): Ordering
  {
    if a < b then Less else if a == b then Equal else Greater
  }

  // ---------------------------------------------------------------------
  // floor / is_int
  // ---------------------------------------------------------------------

  /** The integer word is the quotient, the fractional words the remainder,
      of the signed value by the weight of the integer word. */
  lemma FloorSplit(w: seq<u32>)
    requires |w| >= 1
    ensures AsI32(w[|w| - 1]) == Signed(w) / BPow(|w| - 1)
    ensures Val(w[..|w| - 1]) == Signed(w) % BPow(|w| - 1)
  {
    var n := |w|;
    SignedSplit(w);
    ValBound(w[..n - 1]);
    DivModUnique(Signed(w), BPow(n - 1), AsI32(w[n - 1]), Val(w[..n - 1]));
  }

  /** `floor`: the last word read as an `i32` is the mathematical floor of
      the number (the quotient rounds toward minus infinity). */
  function Floor(w: seq<u32>): (r: i32)
    requires |w| >= 1
    ensures r == Signed(w) / BPow(|w| - 1)
  {
    FloorSplit(w);
    AsI32(w[|w| - 1])
  }

  /** `is_int`: every fractional word is zero exactly when the number is a
      whole number. */
  function IsInt(w: seq<u32>): (b: bool)
    requires |w| >= 1
    ensures b <==> Signed(w) % BPow(|w| - 1) == 0
  {
    FloorSplit(w);
    ValZero(w[..|w| - 1]);
    AllZero(w[..|w| - 1])
  }

  // ---------------------------------------------------------------------
  // Ord
  // ---------------------------------------------------------------------

  /** Lexicographic comparison of the words below index k, most significant
      first (`Iterator::cmp` over the reversed fractional words). */
  function LexCompare(a: seq<u32>, b: seq<u32>, k: nat): Ordering
    requires k <= |a| && k <= |b|
  {
    if k == 0 then Equal
    else if a[k - 1] < b[k - 1] then Less
    else if a[k - 1] > b[k - 1] then Greater
    else LexCompare(a, b, k - 1)
  }

  /** `Ord::cmp`: compare the integer words as `i32`, then the fractional
      words from the top down. */
  function Compare(a: seq<u32>, b: seq<u32>): Ordering
    requires |a| == |b| >= 1
  {
    var whole := CompareInt(Floor(a), Floor(b));
    if whole != Equal then whole else LexCompare(a, b, |a| - 1)
  }

  /** A number with a smaller digit of weight d, and a remainder below d, is smaller. */
  lemma DigitOrder(x: int, y: int, r: int, s: int, d: int)
    requires 0 <= r < d && 0 <= s && x < y
    ensures x * d + r < y * d + s
  {
    MulMonotone(x + 1, y, d);
    assert (x + 1) * d == x * d + d;
  }

  /** Comparing words from the top down is comparing the numbers they form. */
  lemma {:induction false} LexCompareIsValueOrder(a: seq<u32>, b: seq<u32>, k: nat)
    requires k <= |a| && k <= |b|
    ensures LexCompare(a, b, k) == CompareInt(Val(a[..k]), Val(b[..k]))
  {
    if k > 0 {
      var i := k - 1;
      LexCompareIsValueOrder(a, b, i);
      ValSnoc(a, i);
      ValSnoc(b, i);
      ValBound(a[..i]);
      ValBound(b[..i]);
      assert a[..k][..i] == a[..i] && b[..k][..i] == b[..i];
      if a[i] < b[i] {
        DigitOrder(a[i], b[i], Val(a[..i]), Val(b[..i]), BPow(i));
      } else if a[i] > b[i] {
        DigitOrder(b[i], a[i], Val(b[..i]), Val(a[..i]), BPow(i));
      }
    }
  }

  /** `cmp` orders buffers by the numbers they stand for. */
  lemma CompareIsValueOrder(a: seq<u32>, b: seq<u32>)
    requires |a| == |b| >= 1
    ensures Compare(a, b) == CompareInt(Signed(a), Signed(b))
  {
    var n := |a|;
    var d := BPow(n - 1);
    var fa, fb := AsI32(a[n - 1]), AsI32(b[n - 1]);
    SignedSplit(a);
    SignedSplit(b);
    ValBound(a[..n - 1]);
    ValBound(b[..n - 1]);
    if fa < fb {
      DigitOrder(fa, fb, Val(a[..n - 1]), Val(b[..n - 1]), d);
    } else if fa > fb {
      DigitOrder(fb, fa, Val(b[..n - 1]), Val(a[..n - 1]), d);
    } else {
      LexCompareIsValueOrder(a, b, n - 1);
    }
  }

  /** `cmp` is consistent with the derived `PartialEq`: Equal exactly on
      identical buffers. */
  lemma CompareEqualIff(a: seq<u32>, b: seq<u32>)
    requires |a| == |b| >= 1
    ensures Compare(a, b) == Equal <==> a == b
  {
    CompareIsValueOrder(a, b);
    if Compare(a, b) == Equal {
      SignedInjective(a, b);
    }
  }

  /** `cmp` is antisymmetric. */
  lemma CompareAntisymmetric(a: seq<u32>, b: seq<u32>)
    requires |a| == |b| >= 1
    ensures Compare(a, b) == Less <==> Compare(b, a) == Greater
  {
    CompareIsValueOrder(a, b);
    CompareIsValueOrder(b, a);
  }

  /** `cmp` is transitive. */
  lemma CompareTransitive(a: seq<u32>, b: seq<u32>, c: seq<u32>)
    requires |a| == |b| == |c| >= 1
    requires Compare(a, b) != Greater && Compare(b, c) != Greater
    ensures Compare(a, c) != Greater
  {
    CompareIsValueOrder(a, b);
    CompareIsValueOrder(b, c);
    CompareIsValueOrder(a, c);
  }

  // ---------------------------------------------------------------------
  // Comparisons with an i32
  // ---------------------------------------------------------------------

  /** `PartialOrd<i32>::partial_cmp` (always `Some`): compare the floor, and
      a tie with fractional bits set counts as greater. */
  function PartialCompareI32(w: seq<u32>, k: i32): Ordering
    requires |w| >= 1
  {
    var ord := CompareInt(Floor(w), k);
    if ord == Equal && !IsInt(w) then Greater else ord
  }

  /** `PartialEq<i32>::eq`. */
  function EqualsI32(w: seq<u32>, k: i32): bool
    requires |w| >= 1
  {
    Floor(w) == k && IsInt(w)
  }

  /** The comparison with an integer k is the comparison of the number with k. */
  lemma PartialCompareI32IsValueOrder(w: seq<u32>, k: i32)
    requires |w| >= 1
    ensures PartialCompareI32(w, k) == CompareInt(Signed(w), k * BPow(|w| - 1))
  {
    var n := |w|;
    var d := BPow(n - 1);
    var f := AsI32(w[n - 1]);
    SignedSplit(w);
    ValBound(w[..n - 1]);
    ValZero(w[..n - 1]);
    if f < k {
      DigitOrder(f, k, Val(w[..n - 1]), 0, d);
    } else if f > k {
      DigitOrder(k, f, 0, Val(w[..n - 1]), d);
    }
  }

  /** Equality with an integer is equality of the numbers; it agrees with the
      comparison, and a number equals its own floor exactly when it is whole. */
  lemma EqualsI32IsValueEquality(w: seq<u32>, k: i32)
    requires |w| >= 1
    ensures EqualsI32(w, k) <==> Signed(w) == k * BPow(|w| - 1)
    ensures EqualsI32(w, k) <==> PartialCompareI32(w, k) == Equal
    ensures EqualsI32(w, Floor(w)) <==> IsInt(w)
  {
    PartialCompareI32IsValueOrder(w, k);
  }

  // ---------------------------------------------------------------------
  // precision_diff
  // ---------------------------------------------------------------------

  /** `precision_diff(extra_bits)`: how many words to add (positive) or
      trim (negative) so that at least `extra_bits` bits follow the leading
      set bit. `ls_word` in the source is the most significant nonzero word;
      it earns one more word when it does not reach the threshold bit. */
  function PrecisionDiff(w: seq<u32>, extraBits: nat): int
  {
    var extraWords := extraBits / 32 + 1;
    var threshold := if extraBits % 32 == 0 then 0 else WordShl(1, extraBits % 32 - 1);
    var top := LastNonzero(w);
    var words := top + 1;
    var lsWord := if top >= 0 then w[top] else 0;
    extraWords - words + (if lsWord <= threshold then 1 else 0)
  }

  /** Number of significant bits: from the leading set bit down to bit 0 of word 0. */
  function SignificantBits(w: seq<u32>): nat
  {
    var top := LastNonzero(w);
    if top < 0 then 0 else 32 * top + BitLength(w[top])
  }

  /** After changing the precision by d = precision_diff(extra_bits) words,
      the number has between extra_bits and extra_bits + 32 significant
      bits, counting the leading set bit (stated on the current buffer: its
      significant bits plus 32·d). */
  lemma PrecisionDiffBounds(w: seq<u32>, extraBits: nat)
    requires !AllZero(w)
    ensures var d := PrecisionDiff(w, extraBits);
            SignificantBits(w) + 32 * (d - 1) <= extraBits <= SignificantBits(w) + 32 * d
  {
    var top := LastNonzero(w);
    assert top >= 0;
    var x := w[top];
    BitLengthOfWord(x);
    var p := BitLength(x) - 1;
    var r := extraBits % 32;
    if r > 0 {
      ShlOne(r - 1);
      if x <= Pow2(r - 1) {
        if p > r - 1 {
          Pow2Monotone(r, p);
        }
      } else {
        if r - 1 >= p + 1 {
          Pow2Monotone(p + 1, r - 1);
        }
      }
    }
  }

  /** The source's unit test, as a fact about the model. */
  lemma PrecisionDiffExamples()
    ensures var w := [0x0801_4008, 0x0824_0816, 0x0000_A662, 0, 0, 0];
            PrecisionDiff(w, 10) == -2 && PrecisionDiff(w, 16) == -2 &&
            PrecisionDiff(w, 17) == -1 && PrecisionDiff(w, 32) == -1 &&
            PrecisionDiff(w, 64) == 0 && PrecisionDiff(w, 80) == 0 &&
            PrecisionDiff(w, 81) == 1 && PrecisionDiff(w, 96) == 1 &&
            PrecisionDiff(w, 112) == 1 && PrecisionDiff(w, 113) == 2
  {
    var w: seq<u32> := [0x0801_4008, 0x0824_0816, 0x0000_A662, 0, 0, 0];
    assert LastNonzero(w) == 2 by {
      assert w[2] != 0;
    }
    ShlOne(9);
    ShlOne(15);
    ShlOne(16);
    Pow2Word();
    assert Pow2(15) == 0x8000 && Pow2(16) == 0x1_0000 by {
      Pow2Add(8, 7);
      Pow2Add(8, 8);
      Pow2Add(8, 6);
      assert Pow2(7) == 128 && Pow2(6) == 64;
    }
    assert Pow2(9) == 0x200 by {
      Pow2Add(8, 1);
    }
  }
}
