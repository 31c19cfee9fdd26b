/** Machine words of the wide fixed-point number and the word-level operations
    the arithmetic is built from: Rust's `u32`/`i32` operators, the nightly
    `carrying_add`, `borrowing_sub` and `carrying_mul` primitives, and the
    little-endian byte view of a word. Words are integers in [0, 2^32); every
    operator that wraps in Rust wraps explicitly here. */
module Words {

  const BASE: nat := 0x1_0000_0000

  /** An unsigned 32-bit word. */
  type u32 = x: int | 0 <= x < 0x1_0000_0000

  /** A signed 32-bit integer. */
  type i32 = x: int | -0x8000_0000 <= x < 0x8000_0000

  /** A byte. */
  type u8 = x: int | 0 <= x < 0x100

  // ---------------------------------------------------------------------
  // Powers of two
  // ---------------------------------------------------------------------

  function Pow2(k: nat): (r: nat)
    ensures r >= 1
  {
    if k == 0 then 1 else 2 * Pow2(k - 1)
  }

  lemma Pow2Word()
    ensures Pow2(8) == 0x100
    ensures Pow2(23) == 0x80_0000
    ensures Pow2(31) == 0x8000_0000
    ensures Pow2(32) == BASE
  {
    assert Pow2(4) == 16;
    assert Pow2(8) == 256;
    assert Pow2(12) == 4096;
    assert Pow2(16) == 65536;
    assert Pow2(20) == 0x10_0000;
    assert Pow2(24) == 0x100_0000;
    assert Pow2(28) == 0x1000_0000;
  }

  lemma {:induction false} Pow2Add(a: nat, b: nat)
    ensures Pow2(a + b) == Pow2(a) * Pow2(b)
  {
    if a > 0 {
      Pow2Add(a - 1, b);
      assert Pow2(a + b) == 2 * Pow2(a - 1 + b);
    }
  }

  /** Pow2Add with the sum named, so that callers match their own terms. */
  lemma Pow2Split(s: nat, a: nat, b: nat)
    requires s == a + b
    ensures Pow2(s) == Pow2(a) * Pow2(b)
  {
    Pow2Add(a, b);
  }

  lemma Pow2Monotone(a: nat, b: nat)
    requires a <= b
    ensures Pow2(a) <= Pow2(b)
  {
    Pow2Add(a, b - a);
  }

  // ---------------------------------------------------------------------
  // Division facts used throughout
  // ---------------------------------------------------------------------

  lemma DivMod(a: int, d: int)
    requires d > 0
    ensures a == (a / d) * d + a % d && 0 <= a % d < d
  {
  }

  lemma MulNonneg(a: nat, b: nat)
    ensures a * b >= 0
  {
    MulMonotone(0, a, b);
  }

  /** A quotient of naturals is natural; stated apart so that large contexts
      need not rediscover it. */
  lemma DivNonneg(x: nat, d: nat)
    requires d > 0
    ensures x / d >= 0
  {
  }

  lemma DivMonotone(a: int, b: int, d: int)
    requires d > 0 && a <= b
    ensures a / d <= b / d
  {
    DivMod(a, d);
    DivMod(b, d);
    if a / d > b / d {
      MulMonotone(b / d + 1, a / d, d);
    }
  }

  lemma MulMonotone(x: int, y: int, d: int)
    requires x <= y && d >= 0
    ensures x * d <= y * d
  {
  }

  lemma MulSubDistrib(a: int, b: int, c: int)
    ensures (a - b) * c == a * c - b * c
  {
  }

  lemma NegMul(k: int, m: int)
    ensures (-k) * m == -(m * k)
  {
  }

  lemma MulCancel(x: int, y: int, d: int)
    requires x * d < y * d && d > 0
    ensures x < y
  {
  }

  /** Quotient and remainder are determined by any decomposition a == q*d + r. */
  lemma DivModUnique(a: int, d: int, q: int, r: int)
    requires d > 0 && 0 <= r < d && a == q * d + r
    ensures a / d == q && a % d == r
  {
    var q', r' := a / d, a % d;
    assert a == q' * d + r';
    assert (q + 1) * d == q * d + d && (q' + 1) * d == q' * d + d;
    if q' > q {
      MulMonotone(q + 1, q', d);
    } else if q' < q {
      MulMonotone(q' + 1, q, d);
    }
  }

  /** Dividing in two steps is dividing by the product. */
  lemma DivDiv(a: nat, p: nat, q: nat)
    requires p > 0 && q > 0
    ensures a / p / q == a / (p * q)
    ensures a % (p * q) == a % p + p * ((a / p) % q)
  {
    var x, y := a / p, (a / p) / q;
    assert a == x * p + a % p;
    assert x == y * q + x % q;
    assert a == y * (p * q) + (a % p + p * (x % q));
    assert a % p + p * (x % q) <= (p - 1) + p * (q - 1) == p * q - 1;
    DivModUnique(a, p * q, y, a % p + p * (x % q));
  }

  /** Scaling by a factor scales quotient-free remainders. */
  lemma ModScale(b: nat, p: nat, q: nat)
    requires p > 0 && q > 0
    ensures (b * p) % (q * p) == (b % q) * p
    ensures (b * p) / (q * p) == b / q
  {
    assert b == (b / q) * q + b % q;
    assert b * p == (b / q) * (q * p) + (b % q) * p;
    assert (b % q) * p < q * p;
    DivModUnique(b * p, q * p, b / q, (b % q) * p);
  }

  lemma DivBound(a: nat, d: nat)
    requires d > 0
    ensures 0 <= a / d <= a
    ensures (a / d) * d <= a
  {
    assert a == (a / d) * d + a % d;
    MulMonotone(1, d, a / d);
  }

  // ---------------------------------------------------------------------
  // Bitwise operators on non-negative integers
  // ---------------------------------------------------------------------

  function BitAnd(a: nat, b: nat): nat
    decreases a
  {
    if a == 0 || b == 0 then 0
    else 2 * BitAnd(a / 2, b / 2) + (if a % 2 == 1 && b % 2 == 1 then 1 else 0)
  }

  function BitOr(a: nat, b: nat): nat
    decreases a
  {
    if a == 0 then b
    else if b == 0 then a
    else 2 * BitOr(a / 2, b / 2) + (if a % 2 == 1 || b % 2 == 1 then 1 else 0)
  }

  function BitXor(a: nat, b: nat): nat
    decreases a
  {
    if a == 0 then b
    else if b == 0 then a
    else 2 * BitXor(a / 2, b / 2) + (if a % 2 != b % 2 then 1 else 0)
  }

  /** `a & (2^k - 1)` keeps the low k bits. */
  lemma {:induction false} AndLowMask(a: nat, k: nat)
    ensures BitAnd(a, Pow2(k) - 1) == a % Pow2(k)
  {
    if k == 0 {
      assert Pow2(k) == 1;
      DivModUnique(a, 1, a, 0);
    } else if a == 0 {
      DivModUnique(0, Pow2(k), 0, 0);
    } else {
      var p := Pow2(k - 1);
      var m := Pow2(k) - 1;
      var low := BitAnd(a / 2, p - 1);
      assert BitAnd(a, m) == 2 * low + a % 2 by {
        assert m / 2 == p - 1 && m % 2 == 1 by {
          assert Pow2(k) == 2 * p;
          DivModUnique(m, 2, p - 1, 1);
        }
      }
      assert low == (a / 2) % p by {
        AndLowMask(a / 2, k - 1);
      }
      assert a % Pow2(k) == a % 2 + 2 * ((a / 2) % p) by {
        assert Pow2(k) == 2 * p;
        DivDiv(a, 2, p);
      }
    }
  }

  /** An OR of a value whose low k bits are clear with a value below 2^k is an addition. */
  lemma {:induction false} OrDisjoint(a: nat, b: nat, k: nat)
    requires a % Pow2(k) == 0 && b < Pow2(k)
    ensures BitOr(a, b) == a + b
  {
    if k > 0 && a != 0 && b != 0 {
      DivDiv(a, 2, Pow2(k - 1));
      OrDisjoint(a / 2, b / 2, k - 1);
    }
  }

  /** XOR with the highest set bit clears it. */
  lemma {:induction false} XorTopBit(x: nat, p: nat)
    requires Pow2(p) <= x < Pow2(p + 1)
    ensures BitXor(Pow2(p), x) == x - Pow2(p)
  {
    if p > 0 {
      XorTopBit(x / 2, p - 1);
    }
  }

  /** Number of significant bits: the position of the highest set bit plus one. */
  function BitLength(x: nat): nat
  {
    if x == 0 then 0 else 1 + BitLength(x / 2)
  }

  lemma {:induction false} BitLengthBelow(x: nat, k: nat)
    requires x < Pow2(k)
    ensures BitLength(x) <= k
  {
    if x > 0 {
      BitLengthBelow(x / 2, k - 1);
    }
  }

  lemma {:induction false} BitLengthBounds(x: nat)
    requires x > 0
    ensures Pow2(BitLength(x) - 1) <= x < Pow2(BitLength(x))
  {
    if x > 1 {
      BitLengthBounds(x / 2);
    }
  }

  lemma BitLengthOfWord(w: u32)
    ensures BitLength(w) <= 32
    ensures w > 0 ==> BitLength(w) >= 1 && Pow2(BitLength(w) - 1) <= w < Pow2(BitLength(w))
  {
    Pow2Word();
    BitLengthBelow(w, 32);
    if w > 0 { BitLengthBounds(w); }
  }

  lemma {:induction false} BitLengthOf(x: nat, p: nat)
    requires Pow2(p) <= x < Pow2(p + 1)
    ensures BitLength(x) == p + 1
  {
    if p > 0 {
      BitLengthOf(x / 2, p - 1);
    }
  }

  // ---------------------------------------------------------------------
  // Rust operators on u32 / i32
  // ---------------------------------------------------------------------

  /** `!w` */
  function WordNot(w: u32): (r: u32)
    ensures w + r == BASE - 1
  {
    BASE - 1 - w
  }

  /** `w << k` for a shift amount below the width; high bits are discarded. */
  function WordShl(w: u32, k: nat): u32
    requires k < 32
  {
    (w * Pow2(k)) % BASE
  }

  /** `1 << k` is the power of two. */
  lemma ShlOne(k: nat)
    requires k < 32
    ensures WordShl(1, k) == Pow2(k)
  {
    Pow2Monotone(k, 32);
    Pow2Word();
    if Pow2(k) == BASE {
      Pow2Add(k, 32 - k);
      assert false;
    }
    DivModUnique(Pow2(k), BASE, 0, Pow2(k));
  }

  /** `w >> k` for a shift amount below the width (logical). */
  function WordShr(w: u32, k: nat): (r: u32)
    requires k < 32
    ensures r * Pow2(k) <= w
  {
    DivBound(w, Pow2(k));
    w / Pow2(k)
  }

  /** `b << k` keeps the low 32-k bits of b, moved up by k. */
  lemma ShlMod(b: u32, k: nat)
    requires 0 < k < 32
    ensures WordShl(b, k) == (b % Pow2(32 - k)) * Pow2(k)
  {
    Pow2Add(32 - k, k);
    Pow2Word();
    ModScale(b, Pow2(k), Pow2(32 - k));
  }

  lemma DivLess(a: nat, s: nat, t: nat)
    requires s > 0 && a < s * t
    ensures a / s < t
  {
    DivBound(a, s);
    MulCancel(a / s, t, s);
  }

  /** The bits shifted out of the top of a word by `<< s` number s. */
  lemma ShrOutBound(a: u32, s: nat)
    requires 0 < s < 32
    ensures WordShr(a, 32 - s) < Pow2(s)
  {
    Pow2Add(32 - s, s);
    Pow2Word();
    DivLess(a, Pow2(32 - s), Pow2(s));
  }

  /** The bits of `a >> s` and of `b << (32 - s)` do not overlap: their sum is a word. */
  lemma ShrShlDisjoint(a: u32, b: u32, s: nat)
    requires 0 < s < 32
    ensures WordShr(a, s) + WordShl(b, 32 - s) < BASE
  {
    var p, q := Pow2(s), Pow2(32 - s);
    Pow2Add(s, 32 - s);
    Pow2Word();
    ShlMod(b, 32 - s);
    DivLess(a, p, q);
    MulMonotone(b % p, p - 1, q);
    MulSubDistrib(p, 1, q);
  }

  /** A carry below 2^s fits in the bits that `a << s` leaves clear. */
  lemma ShlCarryDisjoint(a: u32, s: nat, c: nat)
    requires 0 < s < 32 && c < Pow2(s)
    ensures WordShl(a, s) + c < BASE
  {
    var p, q := Pow2(s), Pow2(32 - s);
    Pow2Add(32 - s, s);
    Pow2Word();
    ShlMod(a, s);
    MulMonotone(a % q, q - 1, p);
    MulSubDistrib(q, 1, p);
  }

  /** `u32::leading_zeros` */
  function LeadingZeros(w: u32): (r: nat)
    ensures r <= 32
    ensures w > 0 ==> r < 32 && Pow2(31 - r) <= w < Pow2(32 - r)
  {
    BitLengthOfWord(w);
    32 - BitLength(w)
  }

  /** `i32::from_ne_bytes(w.to_ne_bytes())`: reinterpret a word as two's complement. */
  function AsI32(w: u32): (r: i32)
    ensures r == w || r == w - BASE
    ensures r < 0 <==> w >= 0x8000_0000
  {
    if w < 0x8000_0000 then w else w - BASE
  }

  /** `u32::from_ne_bytes(v.to_ne_bytes())` */
  function FromI32(v: i32): (r: u32)
    ensures AsI32(r) == v
  {
    if v >= 0 then v else v + BASE
  }

  // ---------------------------------------------------------------------
  // Word primitives with carry (nightly `bigint_helper_methods`)
  // ---------------------------------------------------------------------

  /** `u32::overflowing_add`: wrapped sum and whether it wrapped. */
  function OverflowingAdd(a: u32, b: u32): (r: (u32, bool))
    ensures r.0 + (if r.1 then BASE else 0) == a + b
  {
    if a + b < BASE then (a + b, false) else (a + b - BASE, true)
  }

  /** `u32::carrying_add`: a + b + carry as a word and a carry out. */
  function CarryingAdd(a: u32, b: u32, carry: bool): (r: (u32, bool))
    ensures r.0 + (if r.1 then BASE else 0) == a + b + (if carry then 1 else 0)
  {
    var s := a + b + (if carry then 1 else 0);
    if s < BASE then (s, false) else (s - BASE, true)
  }

  /** `u32::borrowing_sub`: a - b - borrow as a word and a borrow out. */
  function BorrowingSub(a: u32, b: u32, borrow: bool): (r: (u32, bool))
    ensures r.0 - (if r.1 then BASE else 0) == a - b - (if borrow then 1 else 0)
  {
    var d := a - b - (if borrow then 1 else 0);
    if d >= 0 then (d, false) else (d + BASE, true)
  }

  /** `u32::carrying_mul`: a * b + carry as a low word and a high word. */
  function CarryingMul(a: u32, b: u32, carry: u32): (r: (u32, u32))
    ensures r.0 + r.1 * BASE == a * b + carry
  {
    var p := a * b + carry;
    CarryingMulBound(a, b, carry);
    (p % BASE, p / BASE)
  }

  lemma CarryingMulBound(a: u32, b: u32, c: u32)
    ensures (a * b + c) / BASE < BASE
  {
    MulMonotone(a, BASE - 1, b);
    MulMonotone(b, BASE - 1, BASE - 1);
    assert a * b + c < (BASE - 1) * BASE + BASE;
    var p := a * b + c;
    var q := p / BASE;
    assert q * BASE <= p;
    MulCancel(q, BASE, BASE);
  }

  // ---------------------------------------------------------------------
  // Little-endian byte view (`bytemuck::cast::<u32, [u8; 4]>` on little-endian targets)
  // ---------------------------------------------------------------------

  function LeBytes(w: u32): (r: seq<u8>)
    ensures |r| == 4 && LeWord(r) == w
  {
    LeBytesSplit(w);
    [w % 0x100, (w / 0x100) % 0x100, (w / 0x1_0000) % 0x100, w / 0x100_0000]
  }

  lemma LeBytesSplit(w: u32)
    ensures w / 0x100_0000 < 0x100
    ensures w == w % 0x100 + 0x100 * ((w / 0x100) % 0x100) + 0x1_0000 * ((w / 0x1_0000) % 0x100)
                 + 0x100_0000 * (w / 0x100_0000)
  {
    DivDiv(w, 0x100, 0x100);
    DivDiv(w, 0x1_0000, 0x100);
    DivDiv(w, 0x100_0000, 0x100);
    assert w % 0x1_0000_0000 == w;
  }

  function LeWord(b: seq<u8>): u32
    requires |b| == 4
  {
    var b0: int, b1: int, b2: int, b3: int := b[0], b[1], b[2], b[3];
    b0 + 0x100 * b1 + 0x1_0000 * b2 + 0x100_0000 * b3
  }

  lemma LeBytesOfWord(b: seq<u8>)
    requires |b| == 4
    ensures LeBytes(LeWord(b)) == b
  {
    var b0: int, b1: int, b2: int, b3: int := b[0], b[1], b[2], b[3];
    var w := LeWord(b);
    DivModUnique(w, 0x100, b1 + 0x100 * b2 + 0x1_0000 * b3, b0);
    DivModUnique(w, 0x1_0000, b2 + 0x100 * b3, b0 + 0x100 * b1);
    DivModUnique(w, 0x100_0000, b3, b0 + 0x100 * b1 + 0x1_0000 * b2);
    DivModUnique(w / 0x100, 0x100, b2 + 0x100 * b3, b1);
    DivModUnique(w / 0x1_0000, 0x100, b3, b2);
  }
}
