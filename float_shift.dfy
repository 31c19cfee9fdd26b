/** The word shifts of `WideFloat` (src/float.rs, `ShrAssign` and
    `ShlAssign`) as functions on word sequences: the code as written, and
    the logical shift it evidently means, with the value of the latter proved
    and the two compared. */
module FloatShift {
  import opened Words
  import opened Value

  // ---------------------------------------------------------------------
  // Shifts
  // ---------------------------------------------------------------------

  /** Word j of the bit sweep of `shr_assign` (0 < s < 32): its own bits
      moved down by s, plus the low s bits of word j+1 moved to the top
      (nothing comes in above the last word). */
  function ShrWord(m: seq<u32>, j: nat, s: nat): u32
    requires j < |m| && 0 < s < 32
  {
    var next := if j + 1 < |m| then m[j + 1] else 0;
    ShrShlDisjoint(m[j], next, s);
    WordShr(m[j], s) + WordShl(next, 32 - s)
  }

  function ShrBits(m: seq<u32>, s: nat): (r: seq<u32>)
    requires 0 < s < 32
    ensures |r| == |m|
  {
    seq(|m|, j requires 0 <= j < |m| => ShrWord(m, j, s))
  }

  /** Word j of the bit sweep of `shl_assign` (0 < s < 32): its own bits
      moved up by s, plus the high s bits of word j-1 (c below word 0). */
  function ShlWord(m: seq<u32>, j: nat, s: nat, c: nat): u32
    requires j < |m| && 0 < s < 32 && c < Pow2(s)
  {
    if j == 0 then
      ShlCarryDisjoint(m[0], s, c);
      WordShl(m[0], s) + c
    else
      ShrShlDisjoint(m[j - 1], m[j], 32 - s);
      WordShl(m[j], s) + WordShr(m[j - 1], 32 - s)
  }

  function ShlBits(m: seq<u32>, s: nat, c: nat): (r: seq<u32>)
    requires 0 < s < 32 && c < Pow2(s)
    ensures |r| == |m|
  {
    seq(|m|, j requires 0 <= j < |m| => ShlWord(m, j, s, c))
  }

  /** The word move of `shr_assign`: `copy_within(rotate.., 0)` and zeroed top. */
  function ShrMoved(w: seq<u32>, rotate: nat): (r: seq<u32>)
    requires rotate <= |w|
    ensures |r| == |w|
  {
    w[rotate..] + Zeros(rotate)
  }

  /** The word move of `shl_assign`: `copy_within(..len - rotate, rotate)` and zeroed bottom. */
  function ShlMoved(w: seq<u32>, rotate: nat): (r: seq<u32>)
    requires rotate <= |w|
    ensures |r| == |w|
  {
    Zeros(rotate) + w[..|w| - rotate]
  }

  /** `shr_assign(rhs)` as written: after the word move, the bit sweep runs
      over the top len - rotate words only, so the low `rotate` words keep
      their unshifted bits. The source panics when rhs / 32 exceeds the length. */
  function ShrAsWritten(w: seq<u32>, rhs: nat): (r: seq<u32>)
    requires rhs / 32 <= |w|
    ensures |r| == |w|
  {
    var rotate, s := rhs / 32, rhs % 32;
    var m := ShrMoved(w, rotate);
    if s == 0 then m else m[..rotate] + ShrBits(m[rotate..], s)
  }

  /** `shl_assign(rhs)` as written: the bit sweep runs over the low
      len - rotate words only, so the top `rotate` words keep their unshifted
      bits and the carry out of the sweep is lost. */
  function ShlAsWritten(w: seq<u32>, rhs: nat): (r: seq<u32>)
    requires rhs / 32 <= |w|
    ensures |r| == |w|
  {
    var rotate, s := rhs / 32, rhs % 32;
    var m := ShlMoved(w, rotate);
    if s == 0 then m else ShlBits(m[..|w| - rotate], s, 0) + m[|w| - rotate..]
  }

  /** The intended logical right shift by rhs bits: the sweep covers every word. */
  function ShiftedRight(w: seq<u32>, rhs: nat): (r: seq<u32>)
    requires rhs / 32 <= |w|
    ensures |r| == |w|
  {
    var rotate, s := rhs / 32, rhs % 32;
    var m := ShrMoved(w, rotate);
    if s == 0 then m else ShrBits(m, s)
  }

  /** The intended left shift by rhs bits: the sweep covers every word. */
  function ShiftedLeft(w: seq<u32>, rhs: nat): (r: seq<u32>)
    requires rhs / 32 <= |w|
    ensures |r| == |w|
  {
    var rotate, s := rhs / 32, rhs % 32;
    var m := ShlMoved(w, rotate);
    if s == 0 then m else ShlBits(m, s, 0)
  }

  /** (m0 + 2^32·v1) / 2^s split into the word that stays and the words above. */
  lemma ShrArith(m0: nat, v1: nat, p: nat, q: nat)
    requires p > 0 && q > 0
    ensures (m0 + (p * q) * v1) / p == m0 / p + (v1 % p) * q + (p * q) * (v1 / p)
  {
    var a := m0 + (p * q) * v1;
    var hi := m0 / p + (v1 % p) * q + (p * q) * (v1 / p);
    assert m0 == (m0 / p) * p + m0 % p;
    assert v1 == (v1 / p) * p + v1 % p;
    assert (p * q) * v1 == (p * q) * (v1 / p) * p + (v1 % p) * q * p;
    assert a == hi * p + m0 % p;
    DivModUnique(a, p, hi, m0 % p);
  }

  lemma ShrCombine(vm: nat, vr: nat, m0: nat, v1: nat, r0: nat, vr1: nat, s: nat)
    requires 0 < s < 32
    requires vm == m0 + BASE * v1 && vr == r0 + BASE * vr1
    requires vr1 == v1 / Pow2(s) && r0 == m0 / Pow2(s) + (v1 % Pow2(s)) * Pow2(32 - s)
    ensures vr == vm / Pow2(s)
  {
    Pow2Add(s, 32 - s);
    Pow2Word();
    ShrArith(m0, v1, Pow2(s), Pow2(32 - s));
  }

  lemma Regroup(p: int, q: int, v: int)
    requires p * q == BASE
    ensures BASE * v == (q * v) * p
  {
    assert (p * q) * v == (q * v) * p;
  }

  /** Word m1 and the whole value above word 0 agree below bit s. */
  lemma LowBitsOfNext(v1: nat, m1: nat, v2: nat, s: nat)
    requires 0 < s < 32 && v1 == m1 + BASE * v2
    ensures m1 % Pow2(s) == v1 % Pow2(s)
  {
    var p, q := Pow2(s), Pow2(32 - s);
    assert p * q == BASE by {
      Pow2Add(s, 32 - s);
      Pow2Word();
    }
    Regroup(p, q, v2);
    ModAddMultiple(m1, q * v2, p);
  }

  lemma {:induction false} ShrBitsValue(m: seq<u32>, s: nat)
    requires 0 < s < 32
    ensures Val(ShrBits(m, s)) == Val(m) / Pow2(s)
  {
    var p, q := Pow2(s), Pow2(32 - s);
    if m == [] {
      DivModUnique(0, p, 0, 0);
    } else {
      var r := ShrBits(m, s);
      var v1 := Val(m[1..]);
      assert Val(r[1..]) == v1 / p by {
        assert r[1..] == ShrBits(m[1..], s);
        ShrBitsValue(m[1..], s);
      }
      assert r[0] == m[0] / p + (v1 % p) * q by {
        if |m| > 1 {
          ShlMod(m[1], 32 - s);
          assert m[1..][1..] == m[2..];
          LowBitsOfNext(v1, m[1], Val(m[2..]), s);
        }
      }
      ShrCombine(Val(m), Val(r), m[0], v1, r[0], Val(r[1..]), s);
    }
  }

  /** (m0·2^s + c) modulo the buffer, split into word 0 and the words above. */
  lemma ShlArith(m0: nat, v1: nat, c: nat, p: nat, q: nat, rest: nat)
    requires p > 0 && q > 0 && rest > 0 && c < p
    ensures ((m0 + (p * q) * v1) * p + c) % ((p * q) * rest)
         == (m0 % q) * p + c + (p * q) * ((v1 * p + m0 / q) % rest)
  {
    var b := p * q;
    var low := (m0 % q) * p + c;
    var y := v1 * p + m0 / q;
    assert m0 == (m0 / q) * q + m0 % q;
    assert m0 * p == (m0 / q) * b + (m0 % q) * p;
    assert (m0 + b * v1) * p + c == low + b * y;
    MulMonotone(m0 % q, q - 1, p);
    assert low < b;
    DivModUnique(low + b * y, b, y, low);
    DivDiv(low + b * y, b, rest);
  }

  lemma ShlCombine(vm: nat, vr: nat, m0: nat, v1: nat, r0: nat, vr1: nat, c: nat, s: nat, rest: nat)
    requires 0 < s < 32 && rest > 0 && c < Pow2(s)
    requires vm == m0 + BASE * v1 && vr == r0 + BASE * vr1
    requires vr1 == (v1 * Pow2(s) + m0 / Pow2(32 - s)) % rest
    requires r0 == (m0 % Pow2(32 - s)) * Pow2(s) + c
    ensures vr == (vm * Pow2(s) + c) % (BASE * rest)
  {
    Pow2Add(s, 32 - s);
    Pow2Word();
    ShlArith(m0, v1, c, Pow2(s), Pow2(32 - s), rest);
  }

  lemma {:induction false} ShlBitsValue(m: seq<u32>, s: nat, c: nat)
    requires 0 < s < 32 && c < Pow2(s)
    ensures Val(ShlBits(m, s, c)) == (Val(m) * Pow2(s) + c) % BPow(|m|)
  {
    var p, q := Pow2(s), Pow2(32 - s);
    if m == [] {
      DivModUnique(c, 1, c, 0);
    } else {
      var r := ShlBits(m, s, c);
      var c' := WordShr(m[0], 32 - s);
      ShrOutBound(m[0], s);
      assert Val(r[1..]) == (Val(m[1..]) * p + c') % BPow(|m| - 1) by {
        assert r[1..] == ShlBits(m[1..], s, c');
        ShlBitsValue(m[1..], s, c');
      }
      assert r[0] == (m[0] % q) * p + c by {
        ShlMod(m[0], s);
      }
      ShlCombine(Val(m), Val(r), m[0], Val(m[1..]), r[0], Val(r[1..]), c, s, BPow(|m| - 1));
    }
  }

  /** A shift by rhs bits splits into whole words and the bits left over. */
  lemma ShiftSplit(rhs: nat)
    ensures Pow2(rhs) == BPow(rhs / 32) * Pow2(rhs % 32)
    ensures rhs % 32 == 0 ==> Pow2(rhs) == BPow(rhs / 32)
  {
    var r, s := rhs / 32, rhs % 32;
    BPowIsPow2(r);
    Pow2Add(32 * r, s);
    assert 32 * r + s == rhs;
  }

  lemma DivBPowPow2(v: nat, rhs: nat)
    ensures v / BPow(rhs / 32) / Pow2(rhs % 32) == v / Pow2(rhs)
  {
    ShiftSplit(rhs);
    DivDiv(v, BPow(rhs / 32), Pow2(rhs % 32));
  }

  lemma MulPowArith(v: nat, br: nat, ps: nat, p: nat, m: nat)
    requires m > 0 && p == br * ps
    ensures ((v * br) % m * ps) % m == (v * p) % m
  {
    ModMulMod(v * br, ps, m);
    assert (v * br) * ps == v * p;
  }

  lemma MulBPowPow2(v: nat, rhs: nat, n: nat)
    ensures ((v * BPow(rhs / 32)) % BPow(n) * Pow2(rhs % 32)) % BPow(n) == (v * Pow2(rhs)) % BPow(n)
  {
    ShiftSplit(rhs);
    MulPowArith(v, BPow(rhs / 32), Pow2(rhs % 32), Pow2(rhs), BPow(n));
  }

  lemma ShrMovedValue(w: seq<u32>, r: nat)
    requires r <= |w|
    ensures Val(ShrMoved(w, r)) == Val(w) / BPow(r)
  {
    ValAppendZeros(w[r..], r);
    ValPrefixSuffix(w, r);
  }

  lemma ShlMovedArith(res: int, x: int, v: nat, lo: nat, hi: nat, all: int)
    requires lo > 0 && hi > 0
    requires res == lo * x && x == v % hi && all == hi * lo
    ensures res == (v * lo) % all
  {
    ModScale(v, lo, hi);
  }

  lemma ShlMovedValue(w: seq<u32>, r: nat)
    requires r <= |w|
    ensures Val(ShlMoved(w, r)) == (Val(w) * BPow(r)) % BPow(|w|)
  {
    var n := |w|;
    var lo := w[..n - r];
    assert ShlMoved(w, r) == Zeros(r) + lo;
    ValPrependZeros(r, lo);
    ValPrefixSuffix(w, n - r);
    BPowSplit(n, n - r, r);
    ShlMovedArith(Val(Zeros(r) + lo), Val(lo), Val(w), BPow(r), BPow(n - r), BPow(n));
  }

  /** The intended right shift divides the unsigned value by 2^rhs. */
  lemma ShiftedRightValue(w: seq<u32>, rhs: nat)
    requires rhs / 32 <= |w|
    ensures Val(ShiftedRight(w, rhs)) == Val(w) / Pow2(rhs)
  {
    var r, s := rhs / 32, rhs % 32;
    var m := ShrMoved(w, r);
    ShrMovedValue(w, r);
    if s == 0 {
      ShiftSplit(rhs);
    } else {
      ShrBitsValue(m, s);
      DivBPowPow2(Val(w), rhs);
    }
  }

  lemma ShlChain(res: int, vm: int, v: int, br: int, ps: int, p: int, bn: int)
    requires bn > 0
    requires res == (vm * ps + 0) % bn && vm == (v * br) % bn
    requires ((v * br) % bn * ps) % bn == (v * p) % bn
    ensures res == (v * p) % bn
  {
  }

  lemma ShiftedLeftBitsValue(w: seq<u32>, rhs: nat)
    requires rhs / 32 <= |w| && rhs % 32 != 0
    ensures Val(ShiftedLeft(w, rhs)) == (Val(w) * Pow2(rhs)) % BPow(|w|)
  {
    var r, s := rhs / 32, rhs % 32;
    var m := ShlMoved(w, r);
    ShlMovedValue(w, r);
    assert ShiftedLeft(w, rhs) == ShlBits(m, s, 0);
    ShlBitsValue(m, s, 0);
    MulBPowPow2(Val(w), rhs, |w|);
    ShlChain(Val(ShiftedLeft(w, rhs)), Val(m), Val(w), BPow(r), Pow2(s), Pow2(rhs), BPow(|w|));
  }

  /** The intended left shift multiplies the unsigned value by 2^rhs,
      dropping what overflows the buffer. */
  lemma ShiftedLeftValue(w: seq<u32>, rhs: nat)
    requires rhs / 32 <= |w|
    ensures Val(ShiftedLeft(w, rhs)) == (Val(w) * Pow2(rhs)) % BPow(|w|)
  {
    var r := rhs / 32;
    if rhs % 32 == 0 {
      ShlMovedValue(w, r);
      ShiftSplit(rhs);
    } else {
      ShiftedLeftBitsValue(w, rhs);
    }
  }

  /** The source's shifts are right when the shift stays within one word or
      moves whole words only. */
  lemma ShrAsWrittenMatches(w: seq<u32>, rhs: nat)
    requires rhs / 32 <= |w| && (rhs < 32 || rhs % 32 == 0)
    ensures ShrAsWritten(w, rhs) == ShiftedRight(w, rhs)
  {
    var m := ShrMoved(w, rhs / 32);
    if rhs % 32 != 0 {
      assert m[..0] + ShrBits(m[0..], rhs % 32) == ShrBits(m, rhs % 32) by {
        assert m[0..] == m;
      }
    }
  }

  lemma ShlAsWrittenMatches(w: seq<u32>, rhs: nat)
    requires rhs / 32 <= |w| && (rhs < 32 || rhs % 32 == 0)
    ensures ShlAsWritten(w, rhs) == ShiftedLeft(w, rhs)
  {
    var n := |w|;
    var m := ShlMoved(w, rhs / 32);
    if rhs % 32 != 0 {
      assert ShlBits(m[..n], rhs % 32, 0) + m[n..] == ShlBits(m, rhs % 32, 0) by {
        assert m[..n] == m;
      }
    }
  }

  /** A shift by whole words is the word move alone (as `mul` uses it). */
  lemma ShrWholeWords(w: seq<u32>, k: nat)
    requires k <= |w|
    ensures ShrAsWritten(w, k * 32) == ShrMoved(w, k)
  {
    DivModUnique(k * 32, 32, k, 0);
  }

  /** The one-bit word shifts the two counterexamples below need. */
  lemma ShiftByOne()
    ensures WordShr(0x8000_0000, 1) == 0x4000_0000 && WordShr(0, 1) == 0
    ensures WordShl(0, 31) == 0
    ensures WordShl(0, 1) == 0 && WordShl(1, 1) == 2
    ensures WordShr(0, 31) == 0 && WordShr(1, 31) == 0
  {
    assert Pow2(1) == 2;
    assert WordShr(0x8000_0000, 1) == 0x4000_0000 by {
      DivModUnique(0x8000_0000, 2, 0x4000_0000, 0);
    }
    assert WordShr(0, 1) == 0 && WordShl(0, 1) == 0 && WordShl(1, 1) == 2 by {
      DivModUnique(0, 2, 0, 0);
      DivModUnique(0, BASE, 0, 0);
      DivModUnique(2, BASE, 0, 2);
    }
    var p := Pow2(31);
    assert 1 < p by {
      Pow2Monotone(1, 31);
    }
    assert WordShl(0, 31) == 0 && WordShr(0, 31) == 0 && WordShr(1, 31) == 0 by {
      DivModUnique(0, BASE, 0, 0);
      DivModUnique(0, p, 0, 0);
      DivModUnique(1, p, 0, 1);
    }
  }

  /** `>>= 33` on [0, 0x8000_0000] (the value 2^63) leaves 2^31 instead of 2^30. */
  lemma ShrAsWrittenCounterexample()
    ensures ShrAsWritten([0, 0x8000_0000], 33) == [0x8000_0000, 0]
    ensures ShiftedRight([0, 0x8000_0000], 33) == [0x4000_0000, 0]
  {
    var w: seq<u32> := [0, 0x8000_0000];
    var m := ShrMoved(w, 1);
    assert m == [0x8000_0000, 0];
    assert m[1..] == [0];
    ShiftByOne();
    assert ShrWord(m[1..], 0, 1) == 0;
    assert ShrWord(m, 0, 1) == 0x4000_0000;
    assert ShrWord(m, 1, 1) == 0;
  }

  /** `<<= 33` on [1, 0] (the value 1) leaves 2^32 instead of 2^33. */
  lemma ShlAsWrittenCounterexample()
    ensures ShlAsWritten([1, 0], 33) == [0, 1]
    ensures ShiftedLeft([1, 0], 33) == [0, 2]
  {
    var w: seq<u32> := [1, 0];
    var m := ShlMoved(w, 1);
    assert m == [0, 1];
    assert m[..1] == [0] && m[1..] == [1];
    ShiftByOne();
    assert ShlWord(m[..1], 0, 1, 0) == 0;
    assert ShlWord(m, 0, 1, 0) == 0;
    assert ShlWord(m, 1, 1, 0) == 2;
  }
}
