/** The arithmetic of `WideFloat` (src/float.rs) as functions on word
    sequences: two's-complement negation (`Neg`), wrapping addition and
    subtraction (`Add`, `AddAssign`, `Sub`, `SubAssign`) and
    `change_precision`. The imperative methods in module Float are proved to
    compute these functions; this module proves what the functions mean. */
module FloatArith {
  import opened Words
  import opened Value
  import opened FloatQuery

  // ---------------------------------------------------------------------
  // Negation
  // ---------------------------------------------------------------------

  /** Two's-complement negation of the whole buffer, modulo 2^(32·n). */
  function Negated(w: seq<u32>): (r: seq<u32>)
    ensures |r| == |w|
  {
    Wrap(|w|, -(Val(w) as int))
  }

  /** Negation negates the number, except for the most negative one, which
      it leaves alone. */
  lemma NegatedSigned(w: seq<u32>)
    requires |w| >= 1
    ensures Signed(w) != -Half(|w|) ==> Signed(Negated(w)) == -Signed(w)
    ensures Signed(w) == -Half(|w|) ==> Negated(w) == w
  {
    var n := |w|;
    var va: int := Val(w);
    var sw := Signed(w);
    SignedRange(w);
    if w[n - 1] >= 0x8000_0000 {
      WrapCongruent(n, -va, -sw, -1);
    } else {
      WrapCongruent(n, -va, -sw, 0);
    }
    if sw != -Half(n) {
      SignedOfWrap(n, -sw);
    } else {
      WrapCongruent(n, -sw, sw, 1);
      WrapOfSigned(w);
    }
  }

  lemma NegatedInvolutive(w: seq<u32>)
    ensures Negated(Negated(w)) == w
  {
    var n := |w|;
    var va: int := Val(w);
    var k := WrapValue(n, -va);
    var v: int := Val(Negated(w));
    NegMul(k, BPow(n));
    WrapCongruent(n, -v, va, -k);
    WrapOfVal(w);
  }

  /** Words below index i of a wrapped value are the value wrapped to i words. */
  lemma WrapPrefix(n: nat, v: int, i: nat)
    requires i <= n
    ensures Wrap(n, v)[..i] == Wrap(i, v)
  {
    var w := Wrap(n, v);
    var p, q := BPow(i), BPow(n - i);
    ValPrefixSuffix(w, i);
    ValWrap(n, v);
    ValWrap(i, v);
    BPowAdd(i, n - i);
    ModMod(v, p, q);
    ValInjective(w[..i], Wrap(i, v));
  }

  /** The state of the negation ripple after i words: the words produced so
      far and the carry still to be added, against the first i input words. */
  predicate NegPrefix(p: seq<u32>, a: seq<u32>, i: nat, carry: bool)
    requires i <= |a|
  {
    |p| == i && Val(p) + (if carry then BPow(i) else 0) == BPow(i) - Val(a[..i])
  }

  /** The word equation of `(!a).overflowing_add(carry)`, scaled by the weight w. */
  lemma NegArith(x: int, carryOut: bool, a: int, carry: bool, w: int)
    requires x + (if carryOut then BASE else 0) == BASE - 1 - a + (if carry then 1 else 0)
    ensures w * x + (if carryOut then BASE * w else 0) == BASE * w - w - a * w + (if carry then w else 0)
  {
    var co, ci := if carryOut then 1 else 0, if carry then 1 else 0;
    assert (x + co * BASE) * w == (BASE - 1 - a + ci) * w;
  }

  /** The word equation of `carrying_add`, scaled by the weight w. */
  lemma AddArith(x: int, carryOut: bool, a: int, b: int, carry: bool, w: int)
    requires x + (if carryOut then BASE else 0) == a + b + (if carry then 1 else 0)
    ensures w * x + (if carryOut then BASE * w else 0) == a * w + b * w + (if carry then w else 0)
  {
    var co, ci := if carryOut then 1 else 0, if carry then 1 else 0;
    assert (x + co * BASE) * w == (a + b + ci) * w;
  }

  /** The word equation of `borrowing_sub`, scaled by the weight w. */
  lemma SubArith(x: int, borrowOut: bool, a: int, b: int, borrow: bool, w: int)
    requires x - (if borrowOut then BASE else 0) == a - b - (if borrow then 1 else 0)
    ensures w * x - (if borrowOut then BASE * w else 0) == a * w - b * w - (if borrow then w else 0)
  {
    var co, ci := if borrowOut then 1 else 0, if borrow then 1 else 0;
    assert (x - co * BASE) * w == (a - b - ci) * w;
  }

  /** One step `(!w).overflowing_add(carry)` keeps the ripple state. */
  lemma NegStep(p: seq<u32>, a: seq<u32>, i: nat, carry: bool)
    requires i < |a| && NegPrefix(p, a, i, carry)
    ensures var s := OverflowingAdd(WordNot(a[i]), if carry then 1 else 0);
            NegPrefix(p + [s.0], a, i + 1, s.1)
  {
    var s := OverflowingAdd(WordNot(a[i]), if carry then 1 else 0);
    var w := BPow(i);
    var x: int, ai: int := s.0, a[i];
    ValSnoc(a, i);
    ValAppend(p, [x]);
    ValSingle(x);
    assert BPow(i + 1) == BASE * w;
    NegArith(x, s.1, ai, carry, w);
  }

  /** The ripple produces the low words of the negation. */
  lemma NegPrefixIsNegated(p: seq<u32>, a: seq<u32>, i: nat, carry: bool)
    requires i <= |a| && NegPrefix(p, a, i, carry)
    ensures p == Negated(a)[..i]
  {
    var b := BPow(i);
    ValBound(p);
    ValSplit(a, i);
    var va: int, vi: int, vh: int := Val(a), Val(a[..i]), Val(a[i..]);
    if carry {
      DivModUnique(-vi, b, 0, Val(p));
    } else {
      DivModUnique(-vi, b, -1, Val(p));
    }
    ValWrap(i, -vi);
    ValInjective(p, Wrap(i, -vi));
    WrapPrefix(|a|, -va, i);
    NegMul(vh, b);
    WrapCongruent(i, -va, -vi, -vh);
  }

  // ---------------------------------------------------------------------
  // Addition and subtraction
  // ---------------------------------------------------------------------

  /** `a + b` with the carry out of the top word dropped. */
  function Sum(a: seq<u32>, b: seq<u32>): (r: seq<u32>)
    requires |a| == |b|
    ensures |r| == |a|
  {
    Wrap(|a|, Val(a) + Val(b))
  }

  /** `a - b` with the borrow out of the top word dropped. */
  function Difference(a: seq<u32>, b: seq<u32>): (r: seq<u32>)
    requires |a| == |b|
    ensures |r| == |a|
  {
    Wrap(|a|, Val(a) - Val(b))
  }

  /** Without overflow, the sum is the sum of the numbers. */
  lemma SumSigned(a: seq<u32>, b: seq<u32>)
    requires |a| == |b| >= 1
    requires -Half(|a|) <= Signed(a) + Signed(b) < Half(|a|)
    ensures Signed(Sum(a, b)) == Signed(a) + Signed(b)
  {
    var n := |a|;
    var ka := if a[n - 1] >= 0x8000_0000 then 1 else 0;
    var kb := if b[n - 1] >= 0x8000_0000 then 1 else 0;
    WrapCongruent(n, Val(a) + Val(b), Signed(a) + Signed(b), ka + kb);
    SignedOfWrap(n, Signed(a) + Signed(b));
  }

  /** Without overflow, the difference is the difference of the numbers. */
  lemma DifferenceSigned(a: seq<u32>, b: seq<u32>)
    requires |a| == |b| >= 1
    requires -Half(|a|) <= Signed(a) - Signed(b) < Half(|a|)
    ensures Signed(Difference(a, b)) == Signed(a) - Signed(b)
  {
    var n := |a|;
    var ka := if a[n - 1] >= 0x8000_0000 then 1 else 0;
    var kb := if b[n - 1] >= 0x8000_0000 then 1 else 0;
    WrapCongruent(n, Val(a) - Val(b), Signed(a) - Signed(b), ka - kb);
    SignedOfWrap(n, Signed(a) - Signed(b));
  }

  /** Wrapping addition is commutative: `a + b == b + a`. */
  lemma SumCommutative(a: seq<u32>, b: seq<u32>)
    requires |a| == |b|
    ensures Sum(a, b) == Sum(b, a)
  {
    assert Val(a) + Val(b) == Val(b) + Val(a);
  }

  /** Wrapping addition is associative: `(a + b) + c == a + (b + c)`. */
  lemma SumAssociative(a: seq<u32>, b: seq<u32>, c: seq<u32>)
    requires |a| == |b| == |c|
    ensures Sum(Sum(a, b), c) == Sum(a, Sum(b, c))
  {
    var n := |a|;
    var va: int, vb: int, vc: int := Val(a), Val(b), Val(c);
    var k1 := WrapValue(n, va + vb);
    var k2 := WrapValue(n, vb + vc);
    WrapCongruent(n, Val(Sum(a, b)) + vc, va + vb + vc, k1);
    WrapCongruent(n, va + Val(Sum(b, c)), va + vb + vc, k2);
  }

  /** Subtracting is adding the negation, and subtracting undoes adding. */
  lemma DifferenceIsSumNegated(a: seq<u32>, b: seq<u32>)
    requires |a| == |b|
    ensures Difference(a, b) == Sum(a, Negated(b))
    ensures Difference(Sum(a, b), b) == a
  {
    var n := |a|;
    var va: int, vb: int := Val(a), Val(b);
    var k1 := WrapValue(n, -vb);
    WrapCongruent(n, va + Val(Negated(b)), va - vb, k1);
    var k2 := WrapValue(n, va + vb);
    WrapCongruent(n, Val(Sum(a, b)) - vb, va, k2);
    WrapOfVal(a);
  }

  /** A number plus its negation is zero. */
  lemma SumNegatedIsZero(w: seq<u32>)
    ensures Sum(w, Negated(w)) == Zeros(|w|)
  {
    var n := |w|;
    DifferenceIsSumNegated(w, w);
    ValZero(Zeros(n));
    WrapOfVal(Zeros(n));
  }

  /** The state of the addition ripple after i words. */
  predicate AddPrefix(p: seq<u32>, a: seq<u32>, b: seq<u32>, i: nat, carry: bool)
    requires i <= |a| == |b|
  {
    |p| == i && Val(p) + (if carry then BPow(i) else 0) == Val(a[..i]) + Val(b[..i])
  }

  /** One step `carrying_add` keeps the ripple state. */
  lemma AddStep(p: seq<u32>, a: seq<u32>, b: seq<u32>, i: nat, carry: bool)
    requires i < |a| == |b| && AddPrefix(p, a, b, i, carry)
    ensures var s := CarryingAdd(a[i], b[i], carry);
            AddPrefix(p + [s.0], a, b, i + 1, s.1)
  {
    var s := CarryingAdd(a[i], b[i], carry);
    var w := BPow(i);
    var x: int, ai: int, bi: int := s.0, a[i], b[i];
    ValSnoc(a, i);
    ValSnoc(b, i);
    ValAppend(p, [x]);
    ValSingle(x);
    assert BPow(i + 1) == BASE * w;
    AddArith(x, s.1, ai, bi, carry, w);
  }

  /** After the last word the ripple has produced the sum. */
  lemma AddPrefixIsSum(p: seq<u32>, a: seq<u32>, b: seq<u32>, carry: bool)
    requires |a| == |b| && AddPrefix(p, a, b, |a|, carry)
    ensures p == Sum(a, b)
  {
    assert a[..|a|] == a && b[..|b|] == b;
    WrapOfVal(p);
    WrapCongruent(|a|, Val(a) + Val(b), Val(p), if carry then 1 else 0);
  }

  /** The state of the subtraction ripple after i words. */
  predicate SubPrefix(p: seq<u32>, a: seq<u32>, b: seq<u32>, i: nat, borrow: bool)
    requires i <= |a| == |b|
  {
    |p| == i && Val(p) - (if borrow then BPow(i) else 0) == Val(a[..i]) - Val(b[..i])
  }

  /** One step `borrowing_sub` keeps the ripple state. */
  lemma SubStep(p: seq<u32>, a: seq<u32>, b: seq<u32>, i: nat, borrow: bool)
    requires i < |a| == |b| && SubPrefix(p, a, b, i, borrow)
    ensures var s := BorrowingSub(a[i], b[i], borrow);
            SubPrefix(p + [s.0], a, b, i + 1, s.1)
  {
    var s := BorrowingSub(a[i], b[i], borrow);
    var w := BPow(i);
    var x: int, ai: int, bi: int := s.0, a[i], b[i];
    ValSnoc(a, i);
    ValSnoc(b, i);
    ValAppend(p, [x]);
    ValSingle(x);
    assert BPow(i + 1) == BASE * w;
    SubArith(x, s.1, ai, bi, borrow, w);
  }

  /** After the last word the ripple has produced the difference. */
  lemma SubPrefixIsDifference(p: seq<u32>, a: seq<u32>, b: seq<u32>, borrow: bool)
    requires |a| == |b| && SubPrefix(p, a, b, |a|, borrow)
    ensures p == Difference(a, b)
  {
    assert a[..|a|] == a && b[..|b|] == b;
    WrapOfVal(p);
    WrapCongruent(|a|, Val(a) - Val(b), Val(p), if borrow then -1 else 0);
  }

  // ---------------------------------------------------------------------
  // change_precision
  // ---------------------------------------------------------------------

  /** `change_precision(k)`: k > 0 inserts k zero words at the bottom,
      otherwise -k words are removed from the bottom (the source panics
      when there are fewer). */
  function Resized(w: seq<u32>, k: int): (r: seq<u32>)
    requires k > 0 || -k <= |w|
    ensures |r| == |w| + k
  {
    if k > 0 then Zeros(k) + w else w[-k..]
  }

  /** Adding words and then removing as many restores the number. */
  lemma ResizedRoundTrip(w: seq<u32>, k: nat)
    ensures Resized(Resized(w, k), -(k as int)) == w
  {
    if k > 0 {
      assert (Zeros(k) + w)[k..] == w;
    }
  }

  /** Removing only zero words and adding them back restores the number. */
  lemma ResizedRoundTripZeros(w: seq<u32>, k: nat)
    requires k <= |w| && AllZero(w[..k])
    ensures Resized(Resized(w, -(k as int)), k) == w
  {
    if k > 0 {
      assert Zeros(k) == w[..k];
      assert w[..k] + w[k..] == w;
    }
  }

  /** Adding k words keeps the number: the signed value gains k words of
      fraction, i.e. is scaled by 2^(32·k). */
  lemma ResizedGrowSigned(w: seq<u32>, k: nat)
    requires |w| >= 1 && k > 0
    ensures Signed(Resized(w, k)) == Signed(w) * BPow(k)
  {
    var r := Resized(w, k);
    assert r[..k] == Zeros(k) && r[k..] == w;
    ValZero(Zeros(k));
    SignedSplitAt(r, k);
  }

  /** Removing k words truncates the number toward minus infinity. */
  lemma ResizedShrinkSigned(w: seq<u32>, k: nat)
    requires k < |w|
    ensures Signed(Resized(w, -(k as int))) == Signed(w) / BPow(k)
  {
    SignedSplitAt(w, k);
    ValBound(w[..k]);
    DivModUnique(Signed(w), BPow(k), Signed(w[k..]), Val(w[..k]));
  }
}
