/** The host side of the compute pass: the parameter block the GPU kernel reads,
    the 8-byte prefixes that rewrite its first two fields between passes, and
    the sizes of the three storage buffers. The wgpu calls that allocate the
    buffers and upload the bytes are outside the model: each operation here
    yields the bytes or the size that is handed to them. Words become bytes
    little-endian, as `bytemuck` casts them on the targets the program runs on. */
module Compute {
  import opened Words
  import opened Value

  /** `ScaledDimensions`, reduced to the two values the compute pass reads:
      `aligned_width(64)` and `height`. */
  datatype ScaledDimensions = ScaledDimensions(alignedWidth: u32, height: u32)

  /** `Coordinates`: the word buffers of the three wide numbers sent to the
      kernel and the word count its `size()` reports. */
  datatype Coordinates = Coordinates(x: seq<u32>, y: seq<u32>, step: seq<u32>, size: nat)

  /** `ComputeParams`: what one parameter block carries. */
  datatype ComputeParams = ComputeParams(size: ScaledDimensions, coords: Coordinates,
                                         depthLimit: u32, reset: bool)

  /** The parameter block as the kernel sees it: the four header words, then
      the three coordinate buffers. */
  datatype KernelParams = KernelParams(depthLimit: u32, reset: u32, width: u32, height: u32,
                                       x: seq<u32>, y: seq<u32>, step: seq<u32>)

  // ---------------------------------------------------------------------
  // Byte views
  // ---------------------------------------------------------------------

  /** `WideFloat::as_bytes`: the word buffer cast to bytes, word after word. */
  function AsBytes(ws: seq<u32>): (r: seq<u8>)
    ensures |r| == 4 * |ws|
  {
    if ws == [] then [] else LeBytes(ws[0]) + AsBytes(ws[1..])
  }

  /** Reading a buffer of `n` little-endian words back. */
  function WordsOf(b: seq<u8>, n: nat): (r: seq<u32>)
    requires |b| == 4 * n
    ensures |r| == n
  {
    if n == 0 then [] else [LeWord(b[..4])] + WordsOf(b[4..], n - 1)
  }

  /** Word `i` of a buffer occupies bytes `4i .. 4i+4` of its byte view. */
  lemma {:induction false} AsBytesWord(ws: seq<u32>, i: nat)
    requires i < |ws|
    ensures AsBytes(ws)[4 * i .. 4 * i + 4] == LeBytes(ws[i])
    decreases i
  {
    if i > 0 {
      AsBytesWord(ws[1..], i - 1);
      assert AsBytes(ws) == LeBytes(ws[0]) + AsBytes(ws[1..]);
      assert AsBytes(ws)[4 * i .. 4 * i + 4] == AsBytes(ws[1..])[4 * (i - 1) .. 4 * (i - 1) + 4];
    }
  }

  /** Reading the byte view back gives the words. */
  lemma {:induction false} WordsOfAsBytes(ws: seq<u32>)
    ensures WordsOf(AsBytes(ws), |ws|) == ws
  {
    if ws != [] {
      var b := AsBytes(ws);
      assert b[..4] == LeBytes(ws[0]);
      assert b[4..] == AsBytes(ws[1..]);
      WordsOfAsBytes(ws[1..]);
      assert ws == [ws[0]] + ws[1..];
    }
  }

  /** Every byte buffer of whole words is the byte view of its words. */
  lemma {:induction false} AsBytesOfWords(b: seq<u8>, n: nat)
    requires |b| == 4 * n
    ensures AsBytes(WordsOf(b, n)) == b
  {
    if n > 0 {
      var ws := WordsOf(b, n);
      LeBytesOfWord(b[..4]);
      AsBytesOfWords(b[4..], n - 1);
      assert ws[0] == LeWord(b[..4]) && ws[1..] == WordsOf(b[4..], n - 1);
      assert b == b[..4] + b[4..];
    }
  }

  /** The four bytes at `offset` read as a little-endian `u32`. */
  function ReadU32(b: seq<u8>, offset: nat): u32
    requires offset + 4 <= |b|
  {
    LeWord(b[offset .. offset + 4])
  }

  /** `reset as u32`. */
  function FlagWord(flag: bool): (r: u32)
    ensures r != 0 <==> flag
  {
    if flag then 1 else 0
  }

  // ---------------------------------------------------------------------
  // ComputeParams
  // ---------------------------------------------------------------------

  /** `ComputeParams::new`: a fresh parameter block always asks the kernel to
      start over. */
  function NewParams(size: ScaledDimensions, coords: Coordinates, depthLimit: u32): (p: ComputeParams)
    ensures p.reset
    ensures p.size == size && p.coords == coords && p.depthLimit == depthLimit
  {
    ComputeParams(size, coords, depthLimit, true)
  }

  /** The four header words of a block: depth limit, reset flag, aligned
      width and height. */
  function Header(p: ComputeParams): (r: seq<u8>)
    ensures |r| == 16
  {
    LeBytes(p.depthLimit) + LeBytes(FlagWord(p.reset)) + LeBytes(p.size.alignedWidth) + LeBytes(p.size.height)
  }

  /** The bytes `encode` produces: the header, then the words of `x`, `y` and
      `step`. */
  function ParamsBytes(p: ComputeParams): (r: seq<u8>)
    ensures |r| == 16 + 4 * (|p.coords.x| + |p.coords.y| + |p.coords.step|)
  {
    Header(p) + AsBytes(p.coords.x) + AsBytes(p.coords.y) + AsBytes(p.coords.step)
  }

  /** Where the four parts of a concatenation sit in it. */
  lemma Parts(a: seq<u8>, b: seq<u8>, c: seq<u8>, d: seq<u8>)
    ensures (a + b + c + d)[..|a|] == a
    ensures (a + b + c + d)[|a| .. |a| + |b|] == b
    ensures (a + b + c + d)[|a| + |b| .. |a| + |b| + |c|] == c
    ensures (a + b + c + d)[|a| + |b| + |c| ..] == d
  {
  }

  /** A slice inside a known prefix is the slice of that prefix. */
  lemma SliceOfPrefix(b: seq<u8>, h: seq<u8>, i: nat, j: nat)
    requires |h| <= |b| && b[..|h|] == h && i <= j <= |h|
    ensures b[i .. j] == h[i .. j]
  {
    assert forall k :: i <= k < j ==> b[k] == b[..|h|][k];
  }

  /** `ComputeParams::encode`: appends each field to the growing buffer. */
  method Encode(p: ComputeParams) returns (buffer: seq<u8>)
    ensures buffer == ParamsBytes(p)
  {
    buffer := [];
    buffer := buffer + LeBytes(p.depthLimit);
    buffer := buffer + LeBytes(FlagWord(p.reset));
    buffer := buffer + LeBytes(p.size.alignedWidth);
    buffer := buffer + LeBytes(p.size.height);
    buffer := buffer + AsBytes(p.coords.x);
    buffer := buffer + AsBytes(p.coords.y);
    buffer := buffer + AsBytes(p.coords.step);
  }

  /** The kernel's reading of a parameter block whose coordinates have `n`
      words each; `None` when the block is too short. */
  function ReadParams(b: seq<u8>, n: nat): (r: Option<KernelParams>)
    ensures r.Some? <==> |b| >= 16 + 12 * n
    ensures r.Some? ==> |r.value.x| == n && |r.value.y| == n && |r.value.step| == n
  {
    if |b| < 16 + 12 * n then None
    else
      Some(KernelParams(ReadU32(b, 0), ReadU32(b, 4), ReadU32(b, 8), ReadU32(b, 12),
                        WordsOf(b[16 .. 16 + 4 * n], n),
                        WordsOf(b[16 + 4 * n .. 16 + 8 * n], n),
                        WordsOf(b[16 + 8 * n .. 16 + 12 * n], n)))
  }

  /** The header words of an encoded block sit at offsets 0, 4, 8 and 12. */
  lemma HeaderRead(p: ComputeParams)
    ensures ReadU32(ParamsBytes(p), 0) == p.depthLimit
    ensures ReadU32(ParamsBytes(p), 4) == FlagWord(p.reset)
    ensures ReadU32(ParamsBytes(p), 8) == p.size.alignedWidth
    ensures ReadU32(ParamsBytes(p), 12) == p.size.height
  {
    var b := ParamsBytes(p);
    var h := Header(p);
    Parts(h, AsBytes(p.coords.x), AsBytes(p.coords.y), AsBytes(p.coords.step));
    Parts(LeBytes(p.depthLimit), LeBytes(FlagWord(p.reset)), LeBytes(p.size.alignedWidth), LeBytes(p.size.height));
    SliceOfPrefix(b, h, 0, 4);
    SliceOfPrefix(b, h, 4, 8);
    SliceOfPrefix(b, h, 8, 12);
    SliceOfPrefix(b, h, 12, 16);
    assert h[12 .. 16] == h[12..];
  }

  /** The coordinate buffers of an encoded block follow the header, `x`
      first, then `y`, then `step`. */
  lemma CoordinatesPlaced(p: ComputeParams)
    ensures var b, nx, ny := ParamsBytes(p), 4 * |p.coords.x|, 4 * |p.coords.y|;
            b[16 .. 16 + nx] == AsBytes(p.coords.x) &&
            b[16 + nx .. 16 + nx + ny] == AsBytes(p.coords.y) &&
            b[16 + nx + ny ..] == AsBytes(p.coords.step)
  {
    Parts(Header(p), AsBytes(p.coords.x), AsBytes(p.coords.y), AsBytes(p.coords.step));
  }

  /** What `encode` writes is what the kernel reads back: every header field
      and every coordinate word, in index order. */
  lemma EncodeReadBack(p: ComputeParams)
    requires |p.coords.x| == |p.coords.y| == |p.coords.step| == p.coords.size
    ensures ReadParams(ParamsBytes(p), p.coords.size)
            == Some(KernelParams(p.depthLimit, FlagWord(p.reset), p.size.alignedWidth, p.size.height,
                                 p.coords.x, p.coords.y, p.coords.step))
  {
    var b := ParamsBytes(p);
    var n := p.coords.size;
    HeaderRead(p);
    CoordinatesPlaced(p);
    assert b[16 + 8 * n .. 16 + 12 * n] == b[16 + 8 * n ..];
    WordsOfAsBytes(p.coords.x);
    WordsOfAsBytes(p.coords.y);
    WordsOfAsBytes(p.coords.step);
    ReadFields(b, n, p.depthLimit, FlagWord(p.reset), p.size.alignedWidth, p.size.height,
               p.coords.x, p.coords.y, p.coords.step);
  }

  /** `ReadParams` assembles the fields it reads. */
  lemma ReadFields(b: seq<u8>, n: nat, depthLimit: u32, reset: u32, width: u32, height: u32,
                   x: seq<u32>, y: seq<u32>, step: seq<u32>)
    requires |b| == 16 + 12 * n
    requires ReadU32(b, 0) == depthLimit && ReadU32(b, 4) == reset
    requires ReadU32(b, 8) == width && ReadU32(b, 12) == height
    requires WordsOf(b[16 .. 16 + 4 * n], n) == x
    requires WordsOf(b[16 + 4 * n .. 16 + 8 * n], n) == y
    requires WordsOf(b[16 + 8 * n .. 16 + 12 * n], n) == step
    ensures ReadParams(b, n) == Some(KernelParams(depthLimit, reset, width, height, x, y, step))
  {
  }

  /** A block built by `new` reads as reset: bytes 4..8 are the `u32` 1. */
  lemma NewEncodesReset(size: ScaledDimensions, coords: Coordinates, depthLimit: u32)
    ensures ParamsBytes(NewParams(size, coords, depthLimit))[4 .. 8] == [1, 0, 0, 0]
    ensures ReadU32(ParamsBytes(NewParams(size, coords, depthLimit)), 4) == 1
  {
    var b := ParamsBytes(NewParams(size, coords, depthLimit));
    HeaderRead(NewParams(size, coords, depthLimit));
    LeBytesOfWord(b[4 .. 8]);
  }

  // ---------------------------------------------------------------------
  // Sizes
  // ---------------------------------------------------------------------

  /** `size_hint`: `word_count as u32 * 12 + 16`, with the truncating cast and
      the wrapping `u32` arithmetic written out. */
  function SizeHint(wordCount: nat): (r: u32)
    ensures 12 * wordCount + 16 < BASE ==> r == 12 * wordCount + 16
    ensures r % 4 == 0
  {
    (((wordCount % BASE) * 12) % BASE + 16) % BASE
  }

  /** When the hint does not wrap, `encode` produces exactly `size_hint` bytes,
      so the block fills the parameter buffer. */
  lemma EncodeFillsSizeHint(p: ComputeParams)
    requires |p.coords.x| == |p.coords.y| == |p.coords.step| == p.coords.size
    requires 12 * p.coords.size + 16 < BASE
    ensures |ParamsBytes(p)| == SizeHint(p.coords.size)
  {
  }

  /** The sizes `ComputeBindings::new` gives its three buffers. */
  datatype BufferSizes = BufferSizes(params: u32, intermediate: u32, result: u32)

  /** The buffer sizes of `ComputeBindings::new`. Each `u32` product wraps
      modulo 2^32, as the release build computes it. */
  function BindingSizes(dims: ScaledDimensions, wordCount: nat): (s: BufferSizes)
    ensures s.params == SizeHint(wordCount)
  {
    BufferSizes(
      SizeHint(wordCount),
      ((((2 * (wordCount % BASE)) % BASE * 4) % BASE * dims.alignedWidth) % BASE * dims.height) % BASE,
      ((4 * dims.alignedWidth) % BASE * dims.height) % BASE)
  }

  /** Each pixel's result slot is one `u32`, and its slot in the intermediate
      buffer holds two `word_count`-word numbers: the intermediate size is
      `2 * word_count` times the result size, modulo 2^32. Without wrapping,
      the sizes are the plain products. */
  lemma BindingSizesRelated(dims: ScaledDimensions, wordCount: nat)
    ensures BindingSizes(dims, wordCount).intermediate
            == (2 * wordCount * BindingSizes(dims, wordCount).result) % BASE
    ensures 4 * dims.alignedWidth * dims.height < BASE
            ==> BindingSizes(dims, wordCount).result == 4 * dims.alignedWidth * dims.height
    ensures 8 * wordCount * dims.alignedWidth * dims.height < BASE
            ==> BindingSizes(dims, wordCount).intermediate
                == 2 * wordCount * 4 * dims.alignedWidth * dims.height
  {
    var s := BindingSizes(dims, wordCount);
    SizesArith(wordCount, wordCount % BASE, dims.alignedWidth, dims.height, s.intermediate, s.result);
  }

  /** The wrapping products of `BindingSizes`, over plain integers. */
  lemma SizesArith(wc: nat, k: nat, w: nat, h: nat, inter: int, res: int)
    requires k == wc % BASE
    requires inter == ((((2 * k) % BASE * 4) % BASE * w) % BASE * h) % BASE
    requires res == ((4 * w) % BASE * h) % BASE
    ensures inter == (2 * wc * res) % BASE
    ensures 4 * w * h < BASE ==> res == 4 * w * h
    ensures 8 * wc * w * h < BASE ==> inter == 2 * wc * 4 * w * h
  {
    var m := 8 * w * h;
    WrappedChain(k, w, h, m, inter);
    ModMulMod(wc, m, BASE);
    ModMulMod(4 * w, h, BASE);
    ModMulMod(4 * w * h, 2 * wc, BASE);
    ReorderProduct(wc, w, h, m, res);
    if 4 * w * h < BASE {
      DivModUnique(4 * w * h, BASE, 0, 4 * w * h);
    }
    if wc * m < BASE {
      DivModUnique(wc * m, BASE, 0, wc * m);
    }
  }

  /** Wrapping after each factor of `2 * k * 4 * w * h` wraps the product. */
  lemma WrappedChain(k: nat, w: nat, h: nat, m: nat, inter: int)
    requires m == 8 * w * h
    requires inter == ((((2 * k) % BASE * 4) % BASE * w) % BASE * h) % BASE
    ensures inter == (k * m) % BASE
  {
    ModMulMod(2 * k, 4, BASE);
    ModMulMod(2 * k * 4, w, BASE);
    ModMulMod(2 * k * 4 * w, h, BASE);
    assert 2 * k * 4 * w * h == k * m;
  }

  /** `2 * wc * res` and `wc * 8 * w * h` in the order the lemmas above use. */
  lemma ReorderProduct(wc: nat, w: nat, h: nat, m: nat, res: int)
    requires m == 8 * w * h
    ensures 2 * wc * res == res * (2 * wc)
    ensures 4 * w * h * (2 * wc) == wc * m
    ensures 2 * wc * 4 * w * h == wc * m
  {
  }

  // ---------------------------------------------------------------------
  // Rewriting the header between passes
  // ---------------------------------------------------------------------

  /** `queue.write_buffer(buffer, 0, data)`: `data` replaces the front of the
      buffer and the rest is kept. */
  function WriteFront(buffer: seq<u8>, data: seq<u8>): (r: seq<u8>)
    requires |data| <= |buffer|
    ensures |r| == |buffer|
    ensures r[..|data|] == data && r[|data|..] == buffer[|data|..]
  {
    data + buffer[|data|..]
  }

  /** `slice.copy_from_slice` into `buffer[from .. from + |src|]`. */
  method CopyFromSlice(buffer: array<u8>, from: nat, src: seq<u8>)
    requires from + |src| <= buffer.Length
    modifies buffer
    ensures buffer[..] == old(buffer[..from]) + src + old(buffer[from + |src|..])
  {
    ghost var before := buffer[..];
    for i := 0 to |src|
      invariant forall j :: 0 <= j < buffer.Length ==>
                  buffer[j] == if from <= j < from + i then src[j - from] else before[j]
    {
      buffer[from + i] := src[i];
    }
    assert buffer[..] == before[..from] + src + before[from + |src|..];
  }

  /** `ComputeBindings::write_iterate`: the depth limit and a cleared reset
      flag, for the front of the parameter buffer. */
  method WriteIterate(depthLimit: u32) returns (bytes: seq<u8>)
    ensures bytes == LeBytes(depthLimit) + LeBytes(FlagWord(false))
  {
    var buffer := new u8[8](_ => 0);
    CopyFromSlice(buffer, 0, LeBytes(depthLimit));
    CopyFromSlice(buffer, 4, [0, 0, 0, 0]);
    bytes := buffer[..];
  }

  /** `ComputeBindings::write_iterate_reset`: the depth limit followed by the
      bytes `[0, 0, 0, 1]`. */
  method WriteIterateReset(depthLimit: u32) returns (bytes: seq<u8>)
    ensures bytes == LeBytes(depthLimit) + LeBytes(0x100_0000)
  {
    var buffer := new u8[8](_ => 0);
    CopyFromSlice(buffer, 0, LeBytes(depthLimit));
    CopyFromSlice(buffer, 4, [0, 0, 0, 1]);
    bytes := buffer[..];
  }

  /** Writing the `write_iterate` prefix over an encoded block gives the block
      of the same parameters with the new depth limit and `reset` cleared. */
  lemma IterateClearsReset(p: ComputeParams, depthLimit: u32)
    ensures WriteFront(ParamsBytes(p), LeBytes(depthLimit) + LeBytes(FlagWord(false)))
            == ParamsBytes(p.(depthLimit := depthLimit, reset := false))
  {
    var q := p.(depthLimit := depthLimit, reset := false);
    FrontOf(q);
    TailOf(p);
    TailOf(q);
    assert ParamsBytes(q) == ParamsBytes(q)[..8] + ParamsBytes(q)[8..];
  }

  /** The first two header words are the first eight bytes of a block. */
  lemma FrontOf(p: ComputeParams)
    ensures ParamsBytes(p)[..8] == LeBytes(p.depthLimit) + LeBytes(FlagWord(p.reset))
  {
    var h := Header(p);
    var front := LeBytes(p.depthLimit) + LeBytes(FlagWord(p.reset));
    assert h == front + (LeBytes(p.size.alignedWidth) + LeBytes(p.size.height));
    Parts(h, AsBytes(p.coords.x), AsBytes(p.coords.y), AsBytes(p.coords.step));
    SliceOfPrefix(ParamsBytes(p), h, 0, 8);
  }

  /** Past its first two words, a block depends only on the dimensions and
      the coordinates. */
  lemma TailOf(p: ComputeParams)
    ensures ParamsBytes(p)[8..] == LeBytes(p.size.alignedWidth) + LeBytes(p.size.height)
                                   + AsBytes(p.coords.x) + AsBytes(p.coords.y) + AsBytes(p.coords.step)
  {
    var front := LeBytes(p.depthLimit) + LeBytes(FlagWord(p.reset));
    var tail := LeBytes(p.size.alignedWidth) + LeBytes(p.size.height)
                + AsBytes(p.coords.x) + AsBytes(p.coords.y) + AsBytes(p.coords.step);
    assert ParamsBytes(p) == front + tail;
  }

  /** The `write_iterate_reset` prefix does not spell the reset flag as
      `encode` does: its flag word is the `u32` 0x0100_0000, not `true as u32`.
      It is still nonzero. */
  lemma IterateResetFlagWord(p: ComputeParams, depthLimit: u32)
    ensures WriteFront(ParamsBytes(p), LeBytes(depthLimit) + LeBytes(0x100_0000))
            != ParamsBytes(p.(depthLimit := depthLimit, reset := true))
    ensures ReadU32(WriteFront(ParamsBytes(p), LeBytes(depthLimit) + LeBytes(0x100_0000)), 4)
            == 0x100_0000
  {
    var b := WriteFront(ParamsBytes(p), LeBytes(depthLimit) + LeBytes(0x100_0000));
    var q := ParamsBytes(p.(depthLimit := depthLimit, reset := true));
    assert b[4 .. 8] == LeBytes(0x100_0000);
    assert q[4 .. 8] == LeBytes(1);
    assert b[4] != q[4];
  }
}
