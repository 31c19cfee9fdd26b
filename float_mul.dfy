/** The truncating fixed-point product of `WideFloat` (src/float.rs,
    `impl Mul for &WideFloat`) and `from_i32`, as functions on word sequences. */
module FloatMul {
  import opened Words
  import opened Value
  import opened FloatQuery
  import opened FloatArith
  import opened FloatShift

  // ---------------------------------------------------------------------
  // Constructors as values
  // ---------------------------------------------------------------------

  /** `from_i32(v, n)`: the integer v in the last word, no fraction. */
  function IntWords(v: i32, n: nat): (r: seq<u32>)
    requires n >= 1
    ensures |r| == n
  {
    Zeros(n - 1) + [FromI32(v)]
  }

  /** The integer words stand for v: the signed value is v scaled by the
      weight of the integer word. */
  lemma IntWordsSigned(v: i32, n: nat)
    requires n >= 1
    ensures Signed(IntWords(v, n)) == v * BPow(n - 1)
    ensures Floor(IntWords(v, n)) == v && IsInt(IntWords(v, n))
  {
    var w := IntWords(v, n);
    assert w[..n - 1] == Zeros(n - 1);
    ValZero(Zeros(n - 1));
    SignedSplit(w);
    FloorSplit(w);
  }

  // ---------------------------------------------------------------------
  // Multiplication
  // ---------------------------------------------------------------------

  function Abs(x: int): nat
  {
    if x < 0 then -x else x
  }

  /** The floor is negative exactly when the number is. */
  lemma FloorSign(w: seq<u32>)
    requires |w| >= 1
    ensures Floor(w) < 0 <==> Signed(w) < 0
  {
    FloorSplit(w);
    SignedSplit(w);
    ValBound(w[..|w| - 1]);
    if AsI32(w[|w| - 1]) < 0 {
      MulMonotone(AsI32(w[|w| - 1]), -1, BPow(|w| - 1));
    } else {
      MulMonotone(0, AsI32(w[|w| - 1]), BPow(|w| - 1));
    }
  }

  /** The operand `mul` actually multiplies: negated when the floor is negative. */
  function Magnitude(w: seq<u32>): (r: seq<u32>)
    requires |w| >= 1
    ensures |r| == |w|
  {
    if Floor(w) < 0 then Negated(w) else w
  }

  /** The magnitude read unsigned is the absolute value of the number. */
  lemma MagnitudeValue(w: seq<u32>)
    requires |w| >= 1
    ensures Val(Magnitude(w)) == Abs(Signed(w))
  {
    var n := |w|;
    FloorSign(w);
    TopBit(w);
    if Signed(w) < 0 {
      var v: int := Val(w);
      ValWrap(n, -v);
      ValBound(w);
      DivModUnique(-v, BPow(n), -1, BPow(n) - v);
    }
  }

  /** Negating wrapped words is wrapping the negated integer. */
  lemma NegatedWrap(n: nat, v: int)
    ensures Negated(Wrap(n, v)) == Wrap(n, -v)
  {
    var k := WrapValue(n, v);
    NegMul(k, BPow(n));
    WrapCongruent(n, -(Val(Wrap(n, v)) as int), -v, -k);
  }

  /** Σ over the first k words l[j] of (l[j]·v) >> (32·(n-1-j)): the partial
      products `mul` accumulates, each shifted down and truncated on its own. */
  function PartialProducts(l: seq<u32>, v: nat, k: nat): nat
    requires k <= |l|
  {
    if k == 0 then 0
    else
      var x: nat := l[k - 1] * v;
      PartialProducts(l, v, k - 1) + x / BPow(|l| - k)
  }

  /** The sum of the partial products of the two magnitudes. */
  function MagnitudeProduct(a: seq<u32>, b: seq<u32>): nat
    requires |a| == |b| >= 1
  {
    PartialProducts(Magnitude(a), Val(Magnitude(b)), |a|)
  }

  /** The truncating fixed-point product (`impl Mul for &WideFloat`):
      multiply the magnitudes, then negate when exactly one operand is negative. */
  function Product(a: seq<u32>, b: seq<u32>): (r: seq<u32>)
    requires |a| == |b| >= 1
    ensures |r| == |a|
  {
    var p := MagnitudeProduct(a, b);
    if (Floor(a) < 0) != (Floor(b) < 0) then Negated(Wrap(|a|, p)) else Wrap(|a|, p)
  }

  /** What `mul` demands of its operands: the last partial product has no
      word to carry into (`part.0[l_idx + 1]` is out of bounds for the last
      word, so a carry there panics). */
  predicate MulFits(a: seq<u32>, b: seq<u32>)
    requires |a| == |b| >= 1
  {
    Magnitude(a)[|a| - 1] * Val(Magnitude(b)) < BPow(|a|)
  }

  /** One truncated term: t = x / d1 satisfies t·d1·d2 <= x·d2 < (t+1)·d1·d2. */
  lemma TermBounds(x: nat, d1: nat, d2: nat, t: int, d: int)
    requires d1 > 0 && d2 > 0 && t == x / d1 && d == d1 * d2
    ensures t * d <= x * d2 < (t + 1) * d
  {
    assert x == t * d1 + x % d1;
    assert x * d2 == t * d + (x % d1) * d2;
    MulMonotone(x % d1, d1 - 1, d2);
    assert (t + 1) * d == t * d + d1 * d2;
  }

  lemma BoundsCombine(p: int, t: int, k: int, d: int, x: int, y: int, q: int, m: int)
    requires p * d <= x <= (p + k) * d
    requires t * d <= y < (t + 1) * d
    requires q == p + t && m == k + 1
    ensures q * d <= x + y < (q + m) * d
  {
    assert (p + t) * d == p * d + t * d;
    assert (p + t + k + 1) * d == (p + k) * d + (t + 1) * d;
  }

  lemma SnocScaled(v: int, a: int, b: int, c: int, s: int)
    requires s == a + b * c
    ensures v * s == v * a + (b * v) * c
  {
  }

  /** Each partial product loses less than one unit of the last word, so
      the sum is within k units of the exact product of the first k words. */
  lemma {:induction false} PartialProductsBounds(l: seq<u32>, v: nat, k: nat)
    requires 1 <= |l| && k <= |l|
    ensures PartialProducts(l, v, k) * BPow(|l| - 1) <= v * Val(l[..k])
            <= (PartialProducts(l, v, k) + k) * BPow(|l| - 1)
    ensures k >= 1 ==> v * Val(l[..k]) < (PartialProducts(l, v, k) + k) * BPow(|l| - 1)
  {
    var n, d := |l|, BPow(|l| - 1);
    if k == 0 {
      assert l[..0] == [];
    } else {
      var j := k - 1;
      var p := PartialProducts(l, v, j);
      var x: nat := l[j] * v;
      var t := x / BPow(n - k);
      var q := PartialProducts(l, v, k);
      assert q == p + t;
      PartialProductsBounds(l, v, j);
      assert v * Val(l[..k]) == v * Val(l[..j]) + x * BPow(j) by {
        ValSnoc(l, j);
        SnocScaled(v, Val(l[..j]), l[j], BPow(j), Val(l[..k]));
      }
      assert BPow(n - k) * BPow(j) == d by {
        BPowAdd(n - k, j);
      }
      TermBounds(x, BPow(n - k), BPow(j), t, d);
      BoundsCombine(p, t, j, d, v * Val(l[..j]), x * BPow(j), q, k);
    }
  }

  lemma BoundsCommute(p: int, d: int, x: int, y: int, n: int)
    requires p * d <= y * x < (p + n) * d
    ensures p * d <= x * y < (p + n) * d
  {
  }

  /** `mul` computes the product of the magnitudes up to n units of the last
      word, truncated toward zero. */
  lemma MagnitudeProductBounds(a: seq<u32>, b: seq<u32>)
    requires |a| == |b| >= 1
    ensures var n, p := |a|, MagnitudeProduct(a, b);
            p * BPow(n - 1) <= Abs(Signed(a)) * Abs(Signed(b)) < (p + n) * BPow(n - 1)
  {
    var n, l := |a|, Magnitude(a);
    PartialProductsBounds(l, Val(Magnitude(b)), n);
    assert l[..n] == l;
    MagnitudeValue(a);
    MagnitudeValue(b);
    BoundsCommute(MagnitudeProduct(a, b), BPow(n - 1), Abs(Signed(a)), Abs(Signed(b)), n);
  }

  /** Without overflow the result is that magnitude with the sign of the
      product of the operands. */
  lemma ProductSigned(a: seq<u32>, b: seq<u32>)
    requires |a| == |b| >= 1 && MagnitudeProduct(a, b) < Half(|a|)
    ensures var p: int := MagnitudeProduct(a, b);
            Signed(Product(a, b)) == (if (Signed(a) < 0) != (Signed(b) < 0) then -p else p)
  {
    var n, p := |a|, MagnitudeProduct(a, b);
    FloorSign(a);
    FloorSign(b);
    SignedOfWrap(n, p);
    NegatedSigned(Wrap(n, p));
  }

  /** Zero words contribute nothing. */
  lemma {:induction false} PartialProductsOfZeros(l: seq<u32>, v: nat, k: nat)
    requires k <= |l| && forall j | 0 <= j < k :: l[j] == 0
    ensures PartialProducts(l, v, k) == 0
  {
    if k > 0 {
      PartialProductsOfZeros(l, v, k - 1);
      DivModUnique(0, BPow(|l| - k), 0, 0);
    }
  }

  /** Scaling by a·b and dividing by b leaves exactly the scaling by a. */
  lemma ExactTerm(x: nat, a: nat, b: nat, d: nat)
    requires b > 0 && d == a * b
    ensures (x * d) / b == x * a
  {
    assert x * d == (x * a) * b;
    DivModUnique(x * d, b, x * a, 0);
  }

  /** With v the value of one, each term is exact: the sum is the value of the words. */
  lemma {:induction false} PartialProductsByOne(l: seq<u32>, k: nat)
    requires 1 <= |l| && k <= |l|
    ensures PartialProducts(l, BPow(|l| - 1), k) == Val(l[..k])
  {
    var n := |l|;
    if k == 0 {
      assert l[..0] == [];
    } else {
      var j := k - 1;
      var d := BPow(n - 1);
      var x: nat := l[j] * d;
      assert PartialProducts(l, d, k) == PartialProducts(l, d, j) + x / BPow(n - k);
      PartialProductsByOne(l, j);
      ValSnoc(l, j);
      assert x / BPow(n - k) == l[j] * BPow(j) by {
        BPowAdd(j, n - k);
        ExactTerm(l[j], BPow(j), BPow(n - k), d);
      }
    }
  }

  /** A left operand that is a whole number: only its last word contributes, exactly. */
  lemma IntegerLeftOperand(l: seq<u32>, v: nat)
    requires 1 <= |l| && forall j | 0 <= j < |l| - 1 :: l[j] == 0
    ensures PartialProducts(l, v, |l|) == l[|l| - 1] * v
  {
    PartialProductsOfZeros(l, v, |l| - 1);
    DivModUnique(l[|l| - 1] * v, 1, l[|l| - 1] * v, 0);
  }

  /** Multiplying by one on the right gives the number back. */
  lemma MulOneRight(a: seq<u32>)
    requires |a| >= 1
    ensures Product(a, IntWords(1, |a|)) == a
  {
    var n := |a|;
    var one := IntWords(1, n);
    IntWordsSigned(1, n);
    MagnitudeValue(one);
    PartialProductsByOne(Magnitude(a), n);
    assert Magnitude(a)[..n] == Magnitude(a);
    WrapOfVal(Magnitude(a));
    NegatedInvolutive(a);
  }

  /** Multiplying by one on the left gives the number back. */
  lemma MulOneLeft(b: seq<u32>)
    requires |b| >= 1
    ensures Product(IntWords(1, |b|), b) == b
  {
    var n := |b|;
    var one := IntWords(1, n);
    IntWordsSigned(1, n);
    assert Magnitude(one) == one;
    IntegerLeftOperand(one, Val(Magnitude(b)));
    WrapOfVal(Magnitude(b));
    NegatedInvolutive(b);
  }

  /** Multiplying by zero gives zero. */
  lemma MulZero(a: seq<u32>)
    requires |a| >= 1
    ensures Product(a, Zeros(|a|)) == Zeros(|a|)
  {
    var n := |a|;
    var z := Zeros(n);
    ValZero(z);
    IntWordsSigned(0, n);
    assert IntWords(0, n) == z;
    PartialProductsOfZeros(Magnitude(a), 0, 0);
    assert forall k | 0 <= k <= n :: PartialProducts(Magnitude(a), 0, k) == 0 by {
      forall k | 0 <= k <= n ensures PartialProducts(Magnitude(a), 0, k) == 0 {
        ZeroFactor(Magnitude(a), k);
      }
    }
    WrapOfVal(z);
    NegatedWrap(n, 0);
  }

  lemma {:induction false} ZeroFactor(l: seq<u32>, k: nat)
    requires k <= |l|
    ensures PartialProducts(l, 0, k) == 0
  {
    if k > 0 {
      ZeroFactor(l, k - 1);
      DivModUnique(0, BPow(|l| - k), 0, 0);
    }
  }

  /** The magnitude of a whole number is its absolute value in the integer word. */
  lemma MagnitudeOfInt(x: i32, n: nat)
    requires n >= 1
    ensures Magnitude(IntWords(x, n)) == Zeros(n - 1) + [Abs(x)]
  {
    var a := IntWords(x, n);
    var l := Magnitude(a);
    var m := Zeros(n - 1) + [Abs(x)];
    var d := BPow(n - 1);
    assert Val(l) == Abs(x) * d by {
      IntWordsSigned(x, n);
      MagnitudeValue(a);
      AbsScaled(x, d);
    }
    ValTopWord(n, Abs(x));
    ValInjective(l, m);
  }

  lemma AbsScaled(x: int, d: nat)
    ensures Abs(x * d) == Abs(x) * d
  {
    if x < 0 {
      NegMul(x, d);
      assert x * d == -((-x) * d);
    }
  }

  /** The magnitudes of two whole numbers multiply exactly. */
  lemma MagnitudeProductOfInts(x: i32, y: i32, n: nat)
    requires n >= 1
    ensures MagnitudeProduct(IntWords(x, n), IntWords(y, n)) == Abs(x) * (Abs(y) * BPow(n - 1))
  {
    var l := Magnitude(IntWords(x, n));
    MagnitudeOfInt(x, n);
    IntWordsSigned(y, n);
    MagnitudeValue(IntWords(y, n));
    AbsScaled(y, BPow(n - 1));
    IntegerLeftOperand(l, Val(Magnitude(IntWords(y, n))));
  }

  lemma SignedProductOfInts(x: int, y: int, d: int)
    ensures (if (x < 0) != (y < 0) then -(Abs(x) * (Abs(y) * d)) else Abs(x) * (Abs(y) * d))
            == (x * y) * d
  {
  }

  /** Whole numbers multiply exactly while the product fits an i32. */
  lemma MulIntegers(x: i32, y: i32, n: nat)
    requires n >= 1 && -0x8000_0000 <= x * y < 0x8000_0000
    ensures Product(IntWords(x, n), IntWords(y, n)) == IntWords(x * y, n)
  {
    var a, b := IntWords(x, n), IntWords(y, n);
    var d := BPow(n - 1);
    var p := Abs(x) * (Abs(y) * d);
    IntWordsSigned(x, n);
    IntWordsSigned(y, n);
    IntWordsSigned(x * y, n);
    MagnitudeProductOfInts(x, y, n);
    SignedProductOfInts(x, y, d);
    if (x < 0) != (y < 0) {
      NegatedWrap(n, p);
    }
    WrapOfSigned(IntWords(x * y, n));
  }

  // ---------------------------------------------------------------------
  // The steps of the `mul` loop
  // ---------------------------------------------------------------------

  /** The state of the `carrying_mul` sweep of one partial product after i
      words: the low words written so far and the carry stand for x times
      the low i words of q. */
  predicate MulWordPrefix(p: seq<u32>, q: seq<u32>, x: nat, i: nat, c: nat)
    requires i <= |q|
  {
    |p| == i && Val(p) + c * BPow(i) == x * Val(q[..i])
  }

  lemma MulStepArith(vp: int, vq: int, s0: int, s1: int, x: int, qi: int, c: int, w: int, bw: int)
    requires s0 + s1 * BASE == x * qi + c && vp + c * w == x * vq && bw == BASE * w
    ensures (vp + w * s0) + s1 * bw == x * (vq + qi * w)
  {
    assert w * s0 + s1 * bw == (s0 + s1 * BASE) * w;
    assert (x * qi + c) * w == x * (qi * w) + c * w;
  }

  /** One `carrying_mul` keeps the sweep state. */
  lemma MulWordStep(p: seq<u32>, q: seq<u32>, x: u32, i: nat, c: u32)
    requires i < |q| && MulWordPrefix(p, q, x, i, c)
    ensures var s := CarryingMul(x, q[i], c);
            MulWordPrefix(p + [s.0], q, x, i + 1, s.1)
  {
    var s := CarryingMul(x, q[i], c);
    var s0: int, s1: int, qi: int := s.0, s.1, q[i];
    var w := BPow(i);
    var vp, vq := Val(p), Val(q[..i]);
    assert Val(q[..i + 1]) == vq + qi * w by {
      ValSnoc(q, i);
    }
    assert Val(p + [s.0]) == vp + w * s0 by {
      ValAppend(p, [s.0]);
      ValSingle(s.0);
    }
    assert BPow(i + 1) == BASE * w;
    MulStepArith(vp, vq, s0, s1, x, qi, c, w, BPow(i + 1));
  }

  /** A carry out of a product below b is zero. */
  lemma NoTopCarry(vp: nat, c: nat, b: nat, xv: nat)
    requires vp + c * b == xv < b
    ensures c == 0
  {
  }

  lemma CarryArith(a: nat, c: nat, bs: nat, bi: nat, bn: nat, xv: nat)
    requires bs > 0 && bn == bs * bi && xv == a + c * bn
    ensures xv / bs == a / bs + c * bi
  {
    assert xv == (a / bs + c * bi) * bs + a % bs;
    DivModUnique(xv, bs, a / bs + c * bi, a % bs);
  }

  /** The i-th partial product of `mul` with n-word operands: the word x
      times the magnitude v, shifted down by the n-1-i words below it. */
  function PartialTerm(x: nat, v: nat, n: nat, i: nat): nat
    requires i < n
  {
    MulNonneg(x, v);
    DivNonneg(x * v, BPow(n - 1 - i));
    (x * v) / BPow(n - 1 - i)
  }

  /** After the sweep, `part >>= shift * 32` and the carry written into word
      l_idx + 1 leave exactly the truncated partial product (x·v) >> 32·shift. */
  lemma PlaceCarry(pw: seq<u32>, c: u32, x: nat, v: nat, i: nat, r: seq<u32>)
    requires i < |pw| && Val(pw) + c * BPow(|pw|) == x * v
    requires i + 1 < |pw| || c == 0
    requires r == if c != 0 then ShrMoved(pw, |pw| - 1 - i)[i + 1 := c] else ShrMoved(pw, |pw| - 1 - i)
    ensures Val(r) == PartialTerm(x, v, |pw|, i)
  {
    MulNonneg(x, v);
    if c != 0 {
      CarryPlaced(pw, c, x * v, i);
    } else {
      ShrMovedValue(pw, |pw| - 1 - i);
    }
  }

  /** The carry written above the shifted words adds c · 2^(32(i+1)). */
  lemma CarryPlaced(pw: seq<u32>, c: u32, xv: nat, i: nat)
    requires i + 1 < |pw| && Val(pw) + c * BPow(|pw|) == xv
    ensures Val(ShrMoved(pw, |pw| - 1 - i)[i + 1 := c]) == xv / BPow(|pw| - 1 - i)
  {
    var n := |pw|;
    var shift := n - 1 - i;
    var m := ShrMoved(pw, shift);
    var hi := pw[shift..];
    assert m[i + 1 := c] == (hi + [c]) + Zeros(shift - 1);
    ValAppendZeros(hi + [c], shift - 1);
    ValAppend(hi, [c]);
    ValSingle(c);
    ValPrefixSuffix(pw, shift);
    BPowSplit(n, shift, i + 1);
    CarryArith(Val(pw), c, BPow(shift), BPow(i + 1), BPow(n), xv);
  }

  /** `result += &part` with the i-th partial product adds the next term of
      the sum, modulo 2^(32n). */
  lemma AccumulateStep(r: seq<u32>, part: seq<u32>, l: seq<u32>, v: nat, i: nat)
    requires i < |l| && |r| == |part| == |l|
    requires r == Wrap(|l|, PartialProducts(l, v, i))
    requires Val(part) == PartialTerm(l[i], v, |l|, i)
    ensures Sum(r, part) == Wrap(|l|, PartialProducts(l, v, i + 1))
  {
    ValWrap(|l|, PartialProducts(l, v, i));
    WrapMod(|l|, PartialProducts(l, v, i), Val(part));
  }
}
