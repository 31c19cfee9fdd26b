/** The number a word sequence stands for. A `WideFloat` of n words is the
    32·n-bit two's-complement integer whose least significant word is index 0,
    read as a fixed-point value with the radix point just below the last
    (integer) word. `Val` is the unsigned reading, `Signed` the two's-complement
    reading; `FromVal` is the inverse of `Val` modulo 2^(32·n). */
module Value {
  import opened Words

  /** A result that may be absent. */
  datatype Option<T> = None | Some(value: T)

  /** Weight of word i: 2^(32·i). */
  function BPow(i: nat): (r: nat)
    ensures r >= 1
  {
    if i == 0 then 1 else BASE * BPow(i - 1)
  }

  lemma {:induction false} BPowAdd(i: nat, j: nat)
    ensures BPow(i + j) == BPow(i) * BPow(j)
  {
    if i > 0 {
      BPowAdd(i - 1, j);
      assert BPow(i + j) == BASE * BPow(i - 1 + j);
    }
  }

  lemma BPowSplit(n: nat, i: nat, j: nat)
    requires i + j == n
    ensures BPow(n) == BPow(i) * BPow(j)
  {
    BPowAdd(i, j);
  }

  lemma {:induction false} BPowIsPow2(i: nat)
    ensures BPow(i) == Pow2(32 * i)
  {
    Pow2Word();
    if i > 0 {
      BPowIsPow2(i - 1);
      Pow2Add(32, 32 * (i - 1));
    }
  }

  lemma BPowMonotone(i: nat, j: nat)
    requires i <= j
    ensures BPow(i) <= BPow(j)
  {
    BPowAdd(i, j - i);
    MulMonotone(1, BPow(j - i), BPow(i));
  }

  // ---------------------------------------------------------------------
  // Unsigned value
  // ---------------------------------------------------------------------

  /** Σ w[i]·2^(32·i) */
  function Val(w: seq<u32>): nat
  {
    if w == [] then 0 else w[0] + BASE * Val(w[1..])
  }

  lemma {:induction false} ValBound(w: seq<u32>)
    ensures Val(w) < BPow(|w|)
  {
    if w != [] {
      ValBound(w[1..]);
      MulMonotone(Val(w[1..]), BPow(|w| - 1) - 1, BASE);
    }
  }

  lemma {:induction false} ValAppend(a: seq<u32>, b: seq<u32>)
    ensures Val(a + b) == Val(a) + BPow(|a|) * Val(b)
  {
    if a == [] {
      assert a + b == b;
    } else {
      assert (a + b)[1..] == a[1..] + b;
      ValAppend(a[1..], b);
      assert BPow(|a|) == BASE * BPow(|a| - 1);
    }
  }

  lemma ValSplit(w: seq<u32>, i: nat)
    requires i <= |w|
    ensures Val(w) == Val(w[..i]) + BPow(i) * Val(w[i..])
  {
    assert w == w[..i] + w[i..];
    ValAppend(w[..i], w[i..]);
  }

  lemma ValSingle(x: u32)
    ensures Val([x]) == x
  {
    assert [x][1..] == [];
  }

  lemma ValSnoc(w: seq<u32>, i: nat)
    requires i < |w|
    ensures Val(w[..i + 1]) == Val(w[..i]) + w[i] * BPow(i)
  {
    assert w[..i + 1] == w[..i] + [w[i]];
    ValAppend(w[..i], [w[i]]);
    ValSingle(w[i]);
  }

  lemma DivModSplit(a: int, d: int, q: int, r: int)
    requires d > 0 && 0 <= r < d && a == r + d * q
    ensures a / d == q && a % d == r
  {
    DivModUnique(a, d, q, r);
  }

  /** The low i words hold the value modulo 2^(32·i); the rest hold the quotient. */
  lemma ValPrefixSuffix(w: seq<u32>, i: nat)
    requires i <= |w|
    ensures Val(w[..i]) == Val(w) % BPow(i)
    ensures Val(w[i..]) == Val(w) / BPow(i)
  {
    ValSplit(w, i);
    ValBound(w[..i]);
    DivModSplit(Val(w), BPow(i), Val(w[i..]), Val(w[..i]));
  }

  // ---------------------------------------------------------------------
  // Zero words
  // ---------------------------------------------------------------------

  function Zeros(n: nat): (r: seq<u32>)
    ensures |r| == n && forall i | 0 <= i < n :: r[i] == 0
  {
    seq(n, _ => 0)
  }

  predicate AllZero(w: seq<u32>)
  {
    forall i | 0 <= i < |w| :: w[i] == 0
  }

  /** Zero words below the value scale it by their weight. */
  lemma ValPrependZeros(k: nat, w: seq<u32>)
    ensures Val(Zeros(k) + w) == BPow(k) * Val(w)
  {
    ValAppend(Zeros(k), w);
    ValZero(Zeros(k));
  }

  /** Appending zero words keeps the value. */
  lemma ValAppendZeros(w: seq<u32>, k: nat)
    ensures Val(w + Zeros(k)) == Val(w)
  {
    var z := Zeros(k);
    ValZero(z);
    ValAppend(w, z);
    assert Val(z) == 0;
    assert BPow(|w|) * Val(z) == BPow(|w|) * 0 == 0;
  }

  lemma {:induction false} ValZero(w: seq<u32>)
    ensures Val(w) == 0 <==> AllZero(w)
  {
    if w != [] {
      ValZero(w[1..]);
      assert AllZero(w) <==> w[0] == 0 && AllZero(w[1..]) by {
        if w[0] == 0 && AllZero(w[1..]) {
          forall i | 0 <= i < |w| ensures w[i] == 0 {
            if i > 0 { assert w[i] == w[1..][i - 1]; }
          }
        }
      }
    }
  }
  /** A single nonzero top word: the value is that word times its weight. */
  lemma ValTopWord(n: nat, x: u32)
    requires n >= 1
    ensures Val(Zeros(n - 1) + [x]) == x * BPow(n - 1)
  {
    ValAppend(Zeros(n - 1), [x]);
    ValZero(Zeros(n - 1));
    ValSingle(x);
  }


  // ---------------------------------------------------------------------
  // From a number back to words
  // ---------------------------------------------------------------------

  /** The n words of v modulo 2^(32·n). */
  function FromVal(n: nat, v: nat): (r: seq<u32>)
    ensures |r| == n
  {
    if n == 0 then [] else [v % BASE] + FromVal(n - 1, v / BASE)
  }

  lemma {:induction false} ValFromVal(n: nat, v: nat)
    ensures Val(FromVal(n, v)) == v % BPow(n)
  {
    if n > 0 {
      var r := FromVal(n, v);
      assert r[1..] == FromVal(n - 1, v / BASE);
      ValFromVal(n - 1, v / BASE);
      DivDiv(v, BASE, BPow(n - 1));
    }
  }

  lemma {:induction false} ValInjective(a: seq<u32>, b: seq<u32>)
    requires |a| == |b| && Val(a) == Val(b)
    ensures a == b
  {
    if a != [] {
      DivModUnique(Val(a), BASE, Val(a[1..]), a[0]);
      DivModUnique(Val(b), BASE, Val(b[1..]), b[0]);
      ValInjective(a[1..], b[1..]);
      assert a == [a[0]] + a[1..] && b == [b[0]] + b[1..];
    }
  }

  /** Words are determined by their length and their value modulo 2^(32·n). */
  lemma FromValCanonical(w: seq<u32>, v: nat)
    requires Val(w) == v % BPow(|w|)
    ensures w == FromVal(|w|, v)
  {
    ValFromVal(|w|, v);
    ValInjective(w, FromVal(|w|, v));
  }

  lemma FromValOfVal(w: seq<u32>)
    ensures FromVal(|w|, Val(w)) == w
  {
    ValBound(w);
    DivModUnique(Val(w), BPow(|w|), 0, Val(w));
    FromValCanonical(w, Val(w));
  }

  // ---------------------------------------------------------------------
  // Two's-complement value
  // ---------------------------------------------------------------------

  /** Two's-complement reading of the whole buffer: the top bit of the last word is the sign. */
  function Signed(w: seq<u32>): int
    requires |w| >= 1
  {
    Val(w) - (if w[|w| - 1] >= 0x8000_0000 then BPow(|w|) else 0)
  }

  /** A single word is read as an `i32`. */
  lemma SignedOne(x: u32)
    ensures Signed([x]) == AsI32(x)
  {
    ValSingle(x);
    assert BPow(1) == BASE;
  }

  lemma SplitArith(sw: int, sh: int, vw: int, bn: int, lo: int, vh: int, bk: int, bh: int, c: bool)
    requires sw == vw - (if c then bn else 0) && vw == lo + bk * vh && bn == bk * bh
    requires sh == vh - (if c then bh else 0)
    ensures sw == sh * bk + lo
  {
    if c {
      MulSubDistrib(vh, bh, bk);
    }
  }

  /** A suffix keeps the top word, hence the sign. */
  lemma SignedSuffix(w: seq<u32>, k: nat)
    requires k < |w|
    ensures Signed(w[k..]) == Val(w[k..]) - (if w[|w| - 1] >= 0x8000_0000 then BPow(|w| - k) else 0)
  {
    var hi := w[k..];
    assert hi[|hi| - 1] == w[|w| - 1];
  }

  /** Splitting at any word: the low words are unsigned, the high words carry the sign. */
  lemma SignedSplitAt(w: seq<u32>, k: nat)
    requires k < |w|
    ensures Signed(w) == Signed(w[k..]) * BPow(k) + Val(w[..k])
  {
    var n := |w|;
    SignedSuffix(w, k);
    ValSplit(w, k);
    BPowSplit(n, k, n - k);
    SplitArith(Signed(w), Signed(w[k..]), Val(w), BPow(n), Val(w[..k]), Val(w[k..]),
      BPow(k), BPow(n - k), w[n - 1] >= 0x8000_0000);
  }

  /** The signed value is the signed integer word followed by the fractional words. */
  lemma SignedSplit(w: seq<u32>)
    requires |w| >= 1
    ensures Signed(w) == AsI32(w[|w| - 1]) * BPow(|w| - 1) + Val(w[..|w| - 1])
  {
    var n := |w|;
    SignedSplitAt(w, n - 1);
    assert w[n - 1..] == [w[n - 1]];
    SignedOne(w[n - 1]);
  }

  lemma SignedInjective(a: seq<u32>, b: seq<u32>)
    requires |a| == |b| >= 1 && Signed(a) == Signed(b)
    ensures a == b
  {
    var n := |a|;
    SignedSplit(a);
    SignedSplit(b);
    ValBound(a[..n - 1]);
    ValBound(b[..n - 1]);
    DivModUnique(Signed(a), BPow(n - 1), AsI32(a[n - 1]), Val(a[..n - 1]));
    DivModUnique(Signed(b), BPow(n - 1), AsI32(b[n - 1]), Val(b[..n - 1]));
    ValInjective(a[..n - 1], b[..n - 1]);
    assert a == a[..n - 1] + [a[n - 1]] && b == b[..n - 1] + [b[n - 1]];
  }

  /** The sign bit is set exactly when the unsigned value reaches half the modulus. */
  lemma TopBit(w: seq<u32>)
    requires |w| >= 1
    ensures w[|w| - 1] >= 0x8000_0000 <==> Val(w) >= 0x8000_0000 * BPow(|w| - 1)
  {
    var n := |w|;
    SignedSplit(w);
    ValSplit(w, n - 1);
    assert w[n - 1..] == [w[n - 1]];
    ValSingle(w[n - 1]);
    ValBound(w[..n - 1]);
    if w[n - 1] >= 0x8000_0000 {
      MulMonotone(0x8000_0000, w[n - 1], BPow(n - 1));
    } else {
      MulMonotone(w[n - 1] + 1, 0x8000_0000, BPow(n - 1));
    }
  }

  /** Half the modulus: the signed values of n words lie in [-Half(n), Half(n)). */
  function Half(n: nat): (r: int)
    requires n >= 1
    ensures r * 2 == BPow(n)
  {
    BPowAdd(n - 1, 1);
    0x8000_0000 * BPow(n - 1)
  }

  lemma SignedRange(w: seq<u32>)
    requires |w| >= 1
    ensures -Half(|w|) <= Signed(w) < Half(|w|)
  {
    TopBit(w);
    ValBound(w);
  }

  // ---------------------------------------------------------------------
  // Wrapping arithmetic modulo 2^(32·n)
  // ---------------------------------------------------------------------

  /** The n words of any integer v, wrapped modulo 2^(32·n). */
  function Wrap(n: nat, v: int): (r: seq<u32>)
    ensures |r| == n
  {
    FromVal(n, v % BPow(n))
  }

  lemma ModAddMultiple(v: int, k: int, m: int)
    requires m > 0
    ensures (v + k * m) % m == v % m
  {
    DivModUnique(v + k * m, m, v / m + k, v % m);
  }

  lemma ModMod(v: int, p: int, q: int)
    requires p > 0 && q > 0
    ensures (v % (p * q)) % p == v % p
  {
    var k, r := v / (p * q), v % (p * q);
    assert v == k * (p * q) + r;
    assert k * (p * q) == (k * q) * p;
    ModAddMultiple(r, k * q, p);
  }

  lemma ModMulMod(x: int, k: int, m: int)
    requires m > 0
    ensures ((x % m) * k) % m == (x * k) % m
  {
    var q := x / m;
    assert x == q * m + x % m;
    assert x * k == (x % m) * k + (q * k) * m;
    ModAddMultiple((x % m) * k, q * k, m);
  }

  lemma ValWrap(n: nat, v: int)
    ensures Val(Wrap(n, v)) == v % BPow(n)
  {
    ValFromVal(n, v % BPow(n));
    DivModUnique(v % BPow(n), BPow(n), 0, v % BPow(n));
  }

  /** Wrapping subtracts some multiple of the modulus. */
  lemma WrapValue(n: nat, v: int) returns (k: int)
    ensures Val(Wrap(n, v)) == v + k * BPow(n)
  {
    ValWrap(n, v);
    k := -(v / BPow(n));
    assert v == (v / BPow(n)) * BPow(n) + v % BPow(n);
    NegMul(v / BPow(n), BPow(n));
  }

  /** Integers congruent modulo 2^(32·n) wrap to the same words. */
  lemma WrapCongruent(n: nat, u: int, v: int, k: int)
    requires u == v + k * BPow(n)
    ensures Wrap(n, u) == Wrap(n, v)
  {
    ModAddMultiple(v, k, BPow(n));
  }

  /** Wrapping an intermediate result early does not change the final words. */
  lemma WrapMod(n: nat, x: int, y: int)
    ensures Wrap(n, x % BPow(n) + y) == Wrap(n, x + y)
  {
    var m := BPow(n);
    assert x == (x / m) * m + x % m;
    WrapCongruent(n, x + y, x % m + y, x / m);
  }

  lemma WrapOfVal(w: seq<u32>)
    ensures Wrap(|w|, Val(w)) == w
  {
    ValBound(w);
    DivModUnique(Val(w), BPow(|w|), 0, Val(w));
    FromValOfVal(w);
  }

  lemma WrapOfSigned(w: seq<u32>)
    requires |w| >= 1
    ensures Wrap(|w|, Signed(w)) == w
  {
    WrapOfVal(w);
    if w[|w| - 1] >= 0x8000_0000 {
      WrapCongruent(|w|, Val(w), Signed(w), 1);
    }
  }

  /** Wrapping loses nothing for values inside the signed range. */
  lemma SignedOfWrap(n: nat, v: int)
    requires n >= 1 && -Half(n) <= v < Half(n)
    ensures Signed(Wrap(n, v)) == v
  {
    var w := Wrap(n, v);
    ValWrap(n, v);
    TopBit(w);
    if v >= 0 {
      DivModUnique(v, BPow(n), 0, v);
    } else {
      DivModUnique(v, BPow(n), -1, v + BPow(n));
    }
  }

  // ---------------------------------------------------------------------
  // Scanning for nonzero words
  // ---------------------------------------------------------------------

  /** Index of the most significant nonzero word, or -1 when every word is zero. */
  function LastNonzero(s: seq<u32>): (r: int)
    ensures -1 <= r < |s|
    ensures r >= 0 ==> s[r] != 0
    ensures forall j | r < j < |s| :: s[j] == 0
  {
    if s == [] then -1
    else if s[|s| - 1] != 0 then |s| - 1
    else LastNonzero(s[..|s| - 1])
  }

  lemma LastNonzeroPrefix(s: seq<u32>, i: nat)
    requires LastNonzero(s) < i <= |s|
    ensures LastNonzero(s[..i]) == LastNonzero(s)
    decreases |s|
  {
    if i < |s| {
      assert s[..|s| - 1][..i] == s[..i];
      LastNonzeroPrefix(s[..|s| - 1], i);
    } else {
      assert s[..i] == s;
    }
  }
}
