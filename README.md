# Wide fixed-point numbers and the compute-pass parameter block

This project models the numeric core of a GPU Mandelbrot renderer in Dafny,
together with the host-side code that serialises the parameters for the
compute kernel.

`WideFloat` (src/float.rs) is a signed fixed-point number stored as a
`Vec<u32>` of `n` little-endian words. The top word is the two's-complement
integer part and the `n - 1` words below it are the fraction. In the model:

- a `WideFloat` is a class with a `words: seq<u32>` field;
- its value is `Signed(words) / 2^(32(n-1))`, where `Val` reads the words as
  an unsigned little-endian number and `Signed` is its two's-complement
  reading;
- each operation that updates the vector in place is a method, proved
  against a function on word sequences. `add`/`sub`/`neg` use carry loops,
  the shifts use `copy_within` plus a carry pass, `mul` accumulates partial
  products, `change_precision` inserts or removes words, `from_f32` fills a
  buffer and reverses it, and `as_f32_round` scans the words;
- the pure queries are functions whose meaning is proved as lemmas about
  `Signed`. These are `floor`, `is_int`, `cmp`, the `i32` comparisons and
  `precision_diff`.

Several Rust primitives are written out over integers, with their wrap-around
explicit:

- the word primitives `carrying_add`, `borrowing_sub`, `carrying_mul`,
  `overflowing_add`, `leading_zeros`, `!`, `<<`, `>>`, `&`, `|` and `^`;
- an `f32` as its bit pattern: `isolate_exponent`/`isolate_mantissa`, and
  `f32::from_bits` as field assembly.

In src/gpu/compute.rs the model covers:

- the byte layout of `ComputeParams::encode`: depth limit, reset flag,
  aligned width and height as little-endian `u32`s, then the words of `x`,
  `y` and `step`;
- `size_hint`;
- the 8-byte prefixes written by `write_iterate` and `write_iterate_reset`;
- the three buffer sizes chosen in `ComputeBindings::new`.

`ScaledDimensions` is reduced to its `aligned_width(64)` and `height`.
`Coordinates` is reduced to the three word buffers and the word count that
`size()` reports. The GPU kernel's reading of the block (`ReadParams`) is the
specification `encode` is proved against. `write_iterate_reset` stores
`[0, 0, 0, 1]` in the flag word, which reads as the `u32` `0x0100_0000`.
That is nonzero, but it is not the `true as u32` that `encode` writes, and
`IterateResetFlagWord` states the difference.

The queries `floor`, `is_int`, `precision_diff`, `cmp` and the `i32`
comparisons are the `FloatQuery` functions of the same meaning, applied to an
object's `words`; `word_count` is `|words|`. `Clone` is the derived `Clone`.

## Model

| member | source | states |
|---|---|---|
| Words.AndLowMask | src/float.rs:10 | masking with `2^k - 1` keeps the value modulo `2^k` (so `& 0x7f_ffff` is the mantissa field) |
| Words.OrDisjoint | src/float.rs:57-58 | OR of a multiple of `2^k` and a number below `2^k` is their sum (the implicit leading bit joined to the shifted mantissa) |
| Words.XorTopBit | src/float.rs:112 | XOR with the top set bit of `x` clears it: the result is `x - 2^p` |
| Words.LeadingZeros | src/float.rs:111 | for a nonzero word, `leading_zeros` is the `r` with `2^(31-r) <= w < 2^(32-r)` |
| Words.OverflowingAdd | src/float.rs:101 | the wrapped sum plus `2^32` on overflow equals the true sum |
| Words.CarryingAdd | src/float.rs:199 | sum word plus `2^32·carry-out` equals `a + b + carry-in` |
| Words.BorrowingSub | src/float.rs:224 | difference word minus `2^32·borrow-out` equals `a - b - borrow-in` |
| Words.CarryingMul | src/float.rs:273 | low word plus `2^32·high word` equals `a·b + carry` |
| Words.CarryingMulBound | src/float.rs:273 | the high word of `a·b + carry` fits in a word |
| Words.AsI32 | src/float.rs:131 | reinterpreting a word as `i32` subtracts `2^32` exactly when the top bit is set |
| Words.LeBytes | src/gpu/compute.rs:157-160 | the four little-endian bytes of a word read back as that word |
| Words.LeBytesOfWord | src/gpu/compute.rs:157-160 | every four bytes are the little-endian bytes of the word they read as |
| FloatQuery.Floor | src/float.rs:130-132 | `floor` is the value rounded toward minus infinity: `Signed(w) div 2^(32(n-1))` |
| FloatQuery.IsInt | src/float.rs:134-136 | `is_int` holds iff the value has no fractional part |
| FloatQuery.FloorSplit | src/float.rs:130-136 | the integer word is the floor and the fraction words are the remainder |
| FloatQuery.LexCompare | src/float.rs:361-365 | the words below index `k` compared as unsigned, most significant first, the first difference deciding (`Iterator::cmp` over the reversed fraction words); `LexCompareIsValueOrder` proves it orders by value |
| FloatQuery.Compare | src/float.rs:353-367 | `cmp`: the integer words compared as `i32`, and on a tie the fraction words by `LexCompare`; `CompareIsValueOrder` proves it orders by the signed value |
| FloatQuery.LexCompareIsValueOrder | src/float.rs:361-365 | comparing fraction words most significant first, as unsigned, orders them by value |
| FloatQuery.CompareIsValueOrder | src/float.rs:353-367 | `cmp` (integer word first, then fraction words) orders by the signed value |
| FloatQuery.CompareEqualIff | src/float.rs:353-367 | `cmp` is `Equal` iff the words are equal |
| FloatQuery.CompareAntisymmetric | src/float.rs:353-367 | `a < b` iff `b > a` |
| FloatQuery.CompareTransitive | src/float.rs:353-367 | `a <= b` and `b <= c` give `a <= c` |
| FloatQuery.PartialCompareI32 | src/float.rs:180-189 | `partial_cmp` with an `i32`: the floor compared with `k`, and a tie with fraction bits set is `Greater`; its meaning is `PartialCompareI32IsValueOrder` |
| FloatQuery.EqualsI32 | src/float.rs:174-178 | `eq` with an `i32`: floor equal to `k` and `is_int`; its meaning is `EqualsI32IsValueEquality` |
| FloatQuery.PartialCompareI32IsValueOrder | src/float.rs:180-189 | comparing with an `i32` compares the value with `k`; a non-integer with floor `k` is greater |
| FloatQuery.EqualsI32IsValueEquality | src/float.rs:174-178 | `x == k` iff the value is exactly `k`, iff the comparison says `Equal`; `x == floor(x)` iff `is_int` |
| FloatQuery.PrecisionDiff | src/float.rs:143-154 | `precision_diff`: `extra_bits / 32 + 1` words minus the words up to the top nonzero one, plus one when that word is at most `2^(extra_bits % 32 - 1)` (0 when the remainder is 0); `PrecisionDiffBounds` and `PrecisionDiffExamples` state what it achieves |
| FloatQuery.PrecisionDiffBounds | src/float.rs:144-154 | after adding `d = precision_diff(e)` words the number has between `e` and `e + 32` significant bits (its current ones plus `32·d`) |
| FloatQuery.PrecisionDiffExamples | src/float.rs:374-393 | the table of the unit test: 10→-2, 16→-2, 17→-1, 32→-1, 64→0, 80→0, 81→1, 96→1, 112→1, 113→2 |
| FloatArith.Negated | src/float.rs:335-345 | `neg` keeps the word count; `NegatedSigned` and `NegatedInvolutive` state its value |
| FloatArith.Sum | src/float.rs:191-214 | `add` and `add_assign` keep the word count; `SumSigned`, `SumCommutative` and `SumAssociative` state its value |
| FloatArith.Difference | src/float.rs:216-239 | `sub` and `sub_assign` keep the word count; `DifferenceSigned` and `DifferenceIsSumNegated` state its value |
| FloatArith.NegatedSigned | src/float.rs:335-345 | `neg` negates the value, except the most negative value, which it leaves unchanged |
| FloatArith.NegatedInvolutive | src/float.rs:335-345 | `-(-x) == x` for every `x` |
| FloatArith.NegPrefixIsNegated | src/float.rs:339-342 | the complement-plus-carry pass computes the negation word by word |
| FloatArith.SumSigned | src/float.rs:191-203 | without overflow, `add` adds the signed values |
| FloatArith.DifferenceSigned | src/float.rs:216-228 | without overflow, `sub` subtracts the signed values |
| FloatArith.SumCommutative | src/float.rs:191-203 | wrapping addition is commutative: `a + b == b + a` |
| FloatArith.SumAssociative | src/float.rs:191-203 | wrapping addition is associative |
| FloatArith.DifferenceIsSumNegated | src/float.rs:216-228 | `a - b == a + (-b)` and `(a + b) - b == a` |
| FloatArith.SumNegatedIsZero | src/float.rs:335-345 | `x + (-x)` is all zero words, including for the most negative `x` |
| FloatArith.AddPrefixIsSum | src/float.rs:197-200 | the carry loop produces the wrapped sum |
| FloatArith.SubPrefixIsDifference | src/float.rs:222-225 | the borrow loop produces the wrapped difference |
| FloatArith.Resized | src/float.rs:157-167 | `change_precision(k)` gives `|w| + k` words; the requires is the `remove(0)` panic on an empty vector; the value is stated by `ResizedGrowSigned` and `ResizedShrinkSigned` |
| FloatArith.ResizedRoundTrip | src/float.rs:157-167 | `change_precision(k)` then `change_precision(-k)` restores the words |
| FloatArith.ResizedRoundTripZeros | src/float.rs:157-167 | removing `k` zero words and inserting `k` back restores the words |
| FloatArith.ResizedGrowSigned | src/float.rs:158-161 | inserting `k` low words keeps the value (the raw number scales by `2^(32k)`) |
| FloatArith.ResizedShrinkSigned | src/float.rs:163-165 | removing `k` low words truncates the value toward minus infinity |
| FloatShift.ShrBitsValue | src/float.rs:303-311 | the bit pass of `shr_assign` divides the words it covers by `2^s` |
| FloatShift.ShlBitsValue | src/float.rs:323-331 | the bit pass of `shl_assign` multiplies the words it covers by `2^s`, modulo their width |
| FloatShift.ShrMovedValue | src/float.rs:299-301 | moving words down by `rotate` and zero-filling the top divides by `2^(32·rotate)` |
| FloatShift.ShlMovedValue | src/float.rs:319-321 | moving words up by `rotate` multiplies by `2^(32·rotate)`, modulo `2^(32n)` |
| FloatShift.ShrAsWritten | src/float.rs:295-313 | `shr_assign` as written keeps the word count; the requires is the `copy_within` panic; `ShrAsWrittenMatches` and `ShrAsWrittenCounterexample` say where it is and is not the logical shift |
| FloatShift.ShlAsWritten | src/float.rs:315-333 | `shl_assign` as written keeps the word count; the requires is the `copy_within` panic; `ShlAsWrittenMatches` and `ShlAsWrittenCounterexample` say where it is and is not the left shift |
| FloatShift.ShiftedRight | src/float.rs:295-313 | the intended right shift keeps the word count; `ShiftedRightValue` proves it divides by `2^rhs` |
| FloatShift.ShiftedLeft | src/float.rs:315-333 | the intended left shift keeps the word count; `ShiftedLeftValue` proves it multiplies by `2^rhs` modulo `2^(32n)` |
| FloatShift.ShrAsWrittenMatches | src/float.rs:295-313 | for `rhs < 32` or a whole number of words, `shr_assign` is the logical right shift |
| FloatShift.ShlAsWrittenMatches | src/float.rs:315-333 | for `rhs < 32` or a whole number of words, `shl_assign` is the left shift |
| FloatShift.ShrWholeWords | src/float.rs:299-301 | `>>= 32k` moves word `i + k` to `i` and zero-fills the top `k` words |
| FloatShift.ShiftedRightValue | src/float.rs:295-313 | the intended `>>= rhs` divides the unsigned value by `2^rhs` (logical: a negative value becomes non-negative) |
| FloatShift.ShiftedLeftValue | src/float.rs:315-333 | the intended `<<= rhs` multiplies by `2^rhs` modulo `2^(32n)` |
| FloatShift.ShrAsWrittenCounterexample | src/float.rs:306 | `[0, 0x8000_0000] >>= 33` gives `[0x8000_0000, 0]`, not `[0x4000_0000, 0]` |
| FloatShift.ShlAsWrittenCounterexample | src/float.rs:326 | `[1, 0] <<= 33` gives `[0, 1]`, not `[0, 2]` |
| FloatMul.IntWordsSigned | src/float.rs:40-44 | `from_i32(v, n)` has value `v`, `floor() == v` and `is_int()` |
| FloatMul.FloorSign | src/float.rs:248-249 | `floor() < 0` iff the value is negative |
| FloatMul.MagnitudeValue | src/float.rs:252-270 | the conditionally negated operands are the absolute values |
| FloatMul.PartialProducts | src/float.rs:252-281 | the sum over the first `k` words `l[j]` of `l[j]·v` shifted down by `32·(n-1-j)` bits and truncated, term by term, as the loop adds them; `PartialProductsBounds` bounds it against the exact product |
| FloatMul.MagnitudeProduct | src/float.rs:244-287 | the partial products of the two magnitudes; `MagnitudeProductBounds` proves it is the exact product truncated by fewer than `n` ulps |
| FloatMul.PartialProductsBounds | src/float.rs:252-281 | the accumulated truncated partial products lie within `k` units of the exact product |
| FloatMul.MagnitudeProductBounds | src/float.rs:252-281 | the magnitude product is the exact product of the absolute values truncated, by at most `n` units of the last place |
| FloatMul.Product | src/float.rs:241-293 | `mul` and `mul_assign` keep the word count; `ProductSigned`, `MulOneRight`, `MulOneLeft`, `MulZero` and `MulIntegers` state its value |
| FloatMul.MulFits | src/float.rs:277-279 | the condition under which `part.0[l_idx + 1]` stays in bounds: the top word of the left magnitude times the right magnitude does not reach `2^(32n)` |
| FloatMul.ProductSigned | src/float.rs:282-284 | the product is negated iff exactly one operand is negative |
| FloatMul.MulOneRight | src/float.rs:241-287 | `x * from_i32(1, n) == x` |
| FloatMul.MulOneLeft | src/float.rs:241-287 | `from_i32(1, n) * x == x` |
| FloatMul.MulZero | src/float.rs:241-287 | `x * zero(n) == zero(n)` |
| FloatMul.MulIntegers | src/float.rs:241-287 | integers multiply exactly when the product fits in `i32` |
| FloatMul.NegatedWrap | src/float.rs:282-284 | negating a wrapped value wraps the negated value |
| FloatMul.MulWordStep | src/float.rs:272-274 | each `carrying_mul` step keeps `partial + carry·2^(32i) == x · prefix` |
| FloatMul.PlaceCarry | src/float.rs:275-279 | shifting the row down and storing the carry in word `l_idx + 1` yields the truncated partial term |
| FloatMul.AccumulateStep | src/float.rs:280 | adding the partial term advances the accumulated sum by one operand word |
| FloatConvert.IsolateMantissa | src/float.rs:9-11 | the low 23 bits of the pattern |
| FloatConvert.IsolateExponent | src/float.rs:13-15 | bits 23..31 of the pattern |
| FloatConvert.F32Fields | src/float.rs:9-15 | sign, exponent and mantissa fields recompose the pattern |
| FloatConvert.Significand | src/float.rs:57-58 | the significand is `2^31 + mantissa·2^8` |
| FloatConvert.FlipSignFields | src/float.rs:47-51 | negating a float keeps its exponent and mantissa fields |
| FloatConvert.PairValue | src/float.rs:63-68 | the `left`/`right` words hold the significand shifted right by `shift % 32` across two words |
| FloatConvert.GuardedWrites | src/float.rs:72-77 | `get_mut` writes `left` at `offset` and `right` at `offset + 1` only where they fall inside the buffer |
| FloatConvert.FromF32Defined | src/float.rs:61-68 | the exponent fields for which `shift % 32` is not negative: at most 158, or 158 plus a multiple of 32 |
| FloatConvert.F32Fixed | src/float.rs:46-87 | `from_f32` gives `n` words: zero for a zero exponent field, otherwise the magnitude negated when the float is negative; `FixedValue`, `FixedSign` and `F32RoundTrip` state its value |
| FloatConvert.FilledIsFixed | src/float.rs:70-81 | the reversed buffer is the truncated magnitude `⌊sig·2^(32n) / 2^(190-e)⌋` |
| FloatConvert.MagnitudeBound | src/float.rs:46-87 | for exponent fields up to 157 the magnitude fits below the sign bit |
| FloatConvert.FixedValue | src/float.rs:46-87 | `from_f32` has the signed value `±` magnitude |
| FloatConvert.ZeroExponentRoundTrip | src/float.rs:53-56 | a zero exponent field (zeros, subnormals) gives `zero(n)`, which converts back to `0.0` |
| FloatConvert.LargeExponentIsZero | src/float.rs:60-77 | an exponent field above 158 whose offset falls past the buffer gives `zero(n)` |
| FloatConvert.TopBitCleared | src/float.rs:112 | clearing the top set bit subtracts `2^(31 - leading_zeros)` |
| FloatConvert.FractionBitsValue | src/float.rs:115-120 | the 23 fraction bits are the two-word window below the top set bit, truncated |
| FloatConvert.ExponentPlaced | src/float.rs:122 | OR-ing the shifted exponent with the fraction places both fields |
| FloatConvert.AssembleF32 | src/float.rs:111-127 | the result has exponent `158 - leading_zeros - 32·zero_words`, the fraction bits as mantissa, and the sign of the number |
| FloatConvert.ScanStep | src/float.rs:103-109 | each scanned word updates `first_word`, `second_word` and `zero_words` as the loop does |
| FloatConvert.ScanAdvance | src/float.rs:99-110 | one loop iteration keeps the scan state: the negated prefix so far and its top words |
| FloatConvert.ScanDone | src/float.rs:99-110 | after the loop the scanned words are the magnitude of the number |
| FloatConvert.FixedSign | src/float.rs:94 | a nonzero `from_f32` result is negative, by `self < &0`, iff the float was |
| FloatConvert.AsF32Defined | src/float.rs:111-113 | the numbers for which the exponent subtraction does not underflow: zero, or `leading_zeros + 32·zero_words <= 0x7e` for the magnitude |
| FloatConvert.F32Round | src/float.rs:90-128 | `as_f32_round` as written: zero for all-zero words, otherwise the fields assembled from the top word, the next nonzero word and the zero words above the top word; `F32RoundTrip` and `NextNonzeroWordCounterexample` state its value |
| FloatConvert.F32RoundCorrected | src/float.rs:90-128 | `as_f32_round` with the fraction bits taken from the word right below the top one; `CorrectedTruncates` proves it is the truncation of the magnitude |
| FloatConvert.F32RoundTrip | src/float.rs:46-128 | for exponent fields 32..157 (magnitudes in `[2^-95, 2^31)`) with both written words inside the buffer, `as_f32_round(from_f32(v, n)) == v`, as written and corrected |
| FloatConvert.CorrectedTruncates | src/float.rs:90-128 | reading the word directly below the top word, the result truncates: its exponent field lies in 32..158, the magnitude it stands for never exceeds the number's, and the pattern one unit of the last mantissa place above it stands for more than the number |
| FloatConvert.NextNonzeroWordCounterexample | src/float.rs:103-106 | for `1 + 2^-33` the loop as written returns `1.5`, above the number; the corrected reading returns `1.0` |
| Float.MinPositiveValue | src/float.rs:32-38 | `min_positive(n, p)` has one nonzero word, `2^(p % 32)` at index `p / 32`, and unsigned value `2^p`; for `p < 32n - 1` its signed value is `2^p` units of the last place, and for `p = 32n - 1` it is `-2^p` |
| Float.MinPositiveWords | src/float.rs:32-38 | `min_positive(size, precision)` gives `size` words; `MinPositiveValue` states which bit is set and the value |
| Float.MinPositiveSignBitCounterexample | src/float.rs:28-38 | with `precision == 32·size - 1` the single bit is the sign bit, and the result is the most negative number `-2^(32·size - 1)`, for example `min_positive(1, 31) == [0x8000_0000]`, which is negative |
| Float.MinPositiveChecked | src/float.rs:28-38 | `min_positive` as documented: defined exactly when the bit lies below the sign bit, and then its signed value is `2^precision`, which is positive |
| Float.MinPositiveIsMinimal | src/float.rs:28-31 | no positive number whose value is a multiple of `2^precision` ulps is smaller than `MinPositiveChecked` |
| Float.WideFloat.Zero | src/float.rs:24-26 | `zero(n)` is `n` zero words |
| Float.WideFloat.MinPositive | src/float.rs:32-38 | the buffer has the single bit at `precision`; `precision / 32 < size` is required (index panic otherwise) |
| Float.WideFloat.FromI32 | src/float.rs:40-44 | the top word holds `value`'s bits and the rest are zero |
| Float.WideFloat.FromF32 | src/float.rs:46-87 | the words are the truncated fixed-point value of the float, negated for a negative float |
| Float.WideFloat.AsF32Round | src/float.rs:90-128 | the scan loop returns the bit pattern `F32Round` specifies |
| Float.WideFloat.Clone | src/float.rs:6 | a fresh number with the same words |
| Float.WideFloat.ChangePrecision | src/float.rs:157-167 | inserts `word_diff` zero words at index 0, or removes `-word_diff` words from index 0 |
| Float.WideFloat.AddAssign | src/float.rs:205-214 | the words become the wrapped sum |
| Float.WideFloat.Add | src/float.rs:191-203 | returns the same object, holding the wrapped sum |
| Float.WideFloat.SubAssign | src/float.rs:230-239 | the words become the wrapped difference |
| Float.WideFloat.Sub | src/float.rs:216-228 | returns the same object, holding the wrapped difference |
| Float.WideFloat.Neg | src/float.rs:335-345 | the words become the two's-complement negation |
| Float.WideFloat.MoveDown | src/float.rs:300-301 | `copy_within(rotate.., 0)` and zero-filling the top `rotate` words |
| Float.WideFloat.SweepDown | src/float.rs:303-311 | the carry pass from the top over the top `len - rotate` words |
| Float.WideFloat.ShrAssign | src/float.rs:295-313 | the words become `ShrAsWritten` |
| Float.WideFloat.MoveUp | src/float.rs:320-321 | `copy_within(..len - rotate, rotate)` and zero-filling the low `rotate` words |
| Float.WideFloat.SweepUp | src/float.rs:323-331 | the carry pass from the bottom over the low `len - rotate` words |
| Float.WideFloat.ShlAssign | src/float.rs:315-333 | the words become `ShlAsWritten` |
| Float.WideFloat.ScaleBy | src/float.rs:271-274 | the row times `x`, with the final carry returned, equals `x` times the old row |
| Float.WideFloat.PartialProduct | src/float.rs:267-279 | the shifted row is the truncated partial term of operand word `l_idx` |
| Float.WideFloat.AddPartialProduct | src/float.rs:267-280 | adding one row advances the accumulated products by one word |
| Float.WideFloat.Mul | src/float.rs:241-287 | returns a fresh number holding `Product` |
| Float.WideFloat.MulAssign | src/float.rs:289-293 | the words become `Product` of the old words |
| Compute.AsBytes | src/float.rs:169-171 | the byte view is four bytes per word |
| Compute.AsBytesWord | src/float.rs:169-171 | word `i` occupies bytes `4i .. 4i+4` |
| Compute.WordsOfAsBytes | src/float.rs:169-171 | reading the byte view back gives the words |
| Compute.AsBytesOfWords | src/float.rs:169-171 | every whole-word byte buffer is the byte view of the words it reads as |
| Compute.FlagWord | src/gpu/compute.rs:158 | `reset as u32` is nonzero iff `reset` |
| Compute.NewParams | src/gpu/compute.rs:146-153 | `new` keeps its arguments and sets `reset` |
| Compute.NewEncodesReset | src/gpu/compute.rs:146-158 | a block from `new` has bytes 4..8 equal to `[1, 0, 0, 0]`, the `u32` 1 |
| Compute.Header | src/gpu/compute.rs:157-160 | the header is 16 bytes |
| Compute.ParamsBytes | src/gpu/compute.rs:155-165 | the block is `16 + 4·(|x| + |y| + |step|)` bytes |
| Compute.Encode | src/gpu/compute.rs:155-165 | appending the seven fields yields the block |
| Compute.ReadParams | src/gpu/compute.rs:155-165 | the kernel's reading of a block with `n`-word coordinates: defined exactly when the block has at least `16 + 12n` bytes, with three `n`-word buffers; `EncodeReadBack` proves it inverts `encode` |
| Compute.HeaderRead | src/gpu/compute.rs:157-160 | bytes 0, 4, 8 and 12 read as depth limit, reset flag, aligned width and height |
| Compute.CoordinatesPlaced | src/gpu/compute.rs:161-163 | after the header come the bytes of `x`, then `y`, then `step` |
| Compute.EncodeReadBack | src/gpu/compute.rs:155-165 | reading an encoded block returns every field and every coordinate word |
| Compute.SizeHint | src/gpu/compute.rs:168-170 | `size_hint(n) == 12n + 16` whenever that fits in a `u32`, and is always a multiple of 4 |
| Compute.EncodeFillsSizeHint | src/gpu/compute.rs:156 | with `size()` words in each coordinate, `encode` returns exactly `size_hint(size())` bytes |
| Compute.BindingSizes | src/gpu/compute.rs:64-86 | the params buffer is `size_hint(word_count)` bytes |
| Compute.BindingSizesRelated | src/gpu/compute.rs:73-86 | intermediate is `2·word_count` times result modulo `2^32`; without wrapping, result is `4·w·h` and intermediate `2·word_count·4·w·h` |
| Compute.WriteFront | src/gpu/compute.rs:124 | writing at offset 0 replaces the front bytes and keeps the rest |
| Compute.CopyFromSlice | src/gpu/compute.rs:122-123 | `copy_from_slice` replaces exactly the target range |
| Compute.WriteIterate | src/gpu/compute.rs:119-125 | the prefix is the depth limit followed by the `u32` 0 |
| Compute.WriteIterateReset | src/gpu/compute.rs:127-133 | the prefix is the depth limit followed by the bytes `[0, 0, 0, 1]` |
| Compute.IterateClearsReset | src/gpu/compute.rs:119-125 | writing the `write_iterate` prefix over a block gives the block with the new depth limit and `reset` cleared |
| Compute.IterateResetFlagWord | src/gpu/compute.rs:127-133 | the `write_iterate_reset` prefix does not give the block `encode` would write with `reset` set; its flag word is `0x0100_0000` |

## Left out

- Floating point as arithmetic is not modelled. An `f32` is its bit pattern, `-value` flips the sign bit, `f32::from_bits` assembles fields, and NaN, infinities and rounding modes do not arise.
- `FromFloatError` is never constructed (src/float.rs:17-21, 79). `from_f32` always succeeds, so the model returns the number rather than a `Result`.
- Float.WideFloat.FromF32: requires an exponent field of at most 158, or 190, 222 or 254. For the other fields above 158, `shift % 32` is negative and `v >> (shift % 32)` overflows the shift amount, which panics in a debug build. For the allowed fields no word is written and the result is zero.
- Float.WideFloat.AsF32Round: requires the exponent subtraction at src/float.rs:113 not to underflow, which panics in a debug build. This excludes numbers below `2^-95` (an exponent field below 32). A release build's wrapping `0x7e - X + 32` would still give the right field down to about `2^-126`.
- Float.WideFloat.AsF32Round: the `zero_words` counter is unbounded, so the model cannot overflow it.
- Float.WideFloat.Mul: requires `MulFits`, that is, no carry out of the integer-word partial product. Otherwise `part.0[l_idx + 1]` is out of bounds and the code panics (src/float.rs:277-279).
- Float.WideFloat.ShrAssign, Float.WideFloat.ShlAssign: require `rhs / 32 <= len`. Otherwise `copy_within` panics.
- Float.WideFloat.FromI32: requires `size >= 1`. `buffer[size - 1]` panics for size 0.
- Float.WideFloat.Mul: the iterator pipeline is split into helper methods (ScaleBy, PartialProduct, AddPartialProduct). The per-word operation order is kept.
- The `f64` conversions are absent from the source (src/float.rs:89).
- The derived `Debug`, `Hash` and `PartialEq` are not modelled. Structural equality is sequence equality.
- Compute.SizeHint, Compute.BindingSizes: `u32` arithmetic wraps as in a release build. A debug build panics on overflow instead. `word_count as u32` truncates.
- `ScaledDimensions::aligned_width` and `Coordinates` are not part of this model. Their values enter as fields.
- The wgpu calls (`create_buffer`, `create_bind_group`, `queue.write_buffer`), the bind-group layout and the UI are foreign library calls. Only the bytes and sizes handed to them are modelled.
- `UninitializedComputeBindings::write` and `ComputeBindings::write` only forward `encode` to the queue.

## Findings

| source | as written | input that shows it | evidently intended | confidence | as-written member | corrected member |
|---|---|---|---|---|---|---|
| src/float.rs:306 | the bit pass of `shr_assign` walks the top `len - rotate` words, which include the zero-filled ones, and skips the bottom `rotate` words | `[0, 0x8000_0000] >>= 33` gives `[0x8000_0000, 0]` | `[0x4000_0000, 0]`, the value divided by `2^33` | not executed | FloatShift.ShrAsWrittenCounterexample | FloatShift.ShiftedRightValue |
| src/float.rs:326 | the bit pass of `shl_assign` walks the low `len - rotate` words, which include the zero-filled ones, and skips the moved top words | `[1, 0] <<= 33` gives `[0, 1]` | `[0, 2]`, the value times `2^33` | not executed | FloatShift.ShlAsWrittenCounterexample | FloatShift.ShiftedLeftValue |
| src/float.rs:103-106 | `second_word` is the next nonzero word below the top word, not the word directly below it, so zero words in between are skipped | the 3-word number `1 + 2^-33` (`[0x8000_0000, 0, 1]`) converts to `1.5` | `1.0`, the fraction bits taken from the adjacent word so that the result truncates | not executed | FloatConvert.NextNonzeroWordCounterexample | FloatConvert.CorrectedTruncates |
| src/float.rs:32-38 | `min_positive` checks only that word `precision / 32` exists, so `precision = 32·size - 1` sets the sign bit, although the doc comment at src/float.rs:28-31 promises the minimal positive value and a panic when the precision does not fit | `min_positive(1, 31)` gives `[0x8000_0000]`, the number `-2^31` | no positive number has that precision in `size` words, so this case should be refused like an index out of range | not executed | Float.MinPositiveSignBitCounterexample | Float.MinPositiveChecked |
