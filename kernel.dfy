/** The blit kernel: the batch operations of the pixel codec over caller
    buffers. Each has a plain loop and a vector path that stores eight 16-bit
    lanes at a time and finishes with a scalar remainder loop; both are proved
    to give the result of the scanline specification. */
module BlitKernel {
  import opened PixelCodec

  /** The number of 16-bit lanes in one 128-bit vector. */
  const Lanes: nat := 8

  /** The scanline after `set_line_if_alpha(d, s, n)`: the first `n` pixels of
      `d` alpha-tested against `s`, the rest of `d` as it was. */
  function BlendLine(d: seq<Pixel>, s: seq<Pixel>, n: nat): (r: seq<Pixel>)
    requires n <= |d| && n <= |s|
    ensures |r| == |d|
    ensures forall x :: 0 <= x < |d| ==> r[x] == if x < n then d[x].SetIfAlpha(s[x]) else d[x]
  {
    if n == 0 then d else BlendLine(d, s, n - 1)[n - 1 := d[n - 1].SetIfAlpha(s[n - 1])]
  }

  /** The buffer after `mask_rgb(d, n)`: the first `n` pixels ANDed with
      `rgb_mask`, the rest as they were. */
  function MaskLine(d: seq<Pixel>, n: nat): (r: seq<Pixel>)
    requires n <= |d|
    ensures |r| == |d|
    ensures forall x :: 0 <= x < |d| ==> r[x] == if x < n then d[x].And(Pixel(RgbMask)) else d[x]
  {
    if n == 0 then d else MaskLine(d, n - 1)[n - 1 := d[n - 1].And(Pixel(RgbMask))]
  }

  /** In the blended prefix a pixel is the source pixel exactly when the source
      has alpha, and the old destination pixel otherwise. */
  lemma BlendLineByAlpha(d: seq<Pixel>, s: seq<Pixel>, n: nat, x: nat)
    requires n <= |d| && n <= |s| && x < |d|
    ensures x < n && Alpha(s[x]) != 0 ==> BlendLine(d, s, n)[x] == s[x]
    ensures x < n && Alpha(s[x]) == 0 ==> BlendLine(d, s, n)[x] == d[x]
    ensures n <= x ==> BlendLine(d, s, n)[x] == d[x]
  {
  }

  /** An empty line, or a source without alpha anywhere in the line, leaves the
      destination as it was. */
  lemma BlendLineNoOp(d: seq<Pixel>, s: seq<Pixel>, n: nat)
    requires n <= |d| && n <= |s|
    requires forall x :: 0 <= x < n ==> Alpha(s[x]) == 0
    ensures BlendLine(d, s, n) == d
  {
  }

  /** Blending the same source twice gives what blending it once gives. */
  lemma BlendLineIdempotent(d: seq<Pixel>, s: seq<Pixel>, n: nat)
    requires n <= |d| && n <= |s|
    ensures BlendLine(BlendLine(d, s, n), s, n) == BlendLine(d, s, n)
  {
    var once := BlendLine(d, s, n);
    var twice := BlendLine(once, s, n);
    assert forall x :: 0 <= x < |d| ==> twice[x] == once[x];
  }

  /** A line blended onto itself (the fully aliased call) is unchanged. */
  lemma BlendLineOntoItself(d: seq<Pixel>, n: nat)
    requires n <= |d|
    ensures BlendLine(d, d, n) == d
  {
    var r := BlendLine(d, d, n);
    assert forall x :: 0 <= x < |d| ==> r[x] == d[x];
  }

  /** After `mask_rgb` every masked pixel has a zero alpha field and the colour
      fields it had; the pixels past `n` are untouched. */
  lemma MaskLineFields(d: seq<Pixel>, n: nat, x: nat)
    requires n <= |d| && x < |d|
    ensures x < n ==> Alpha(MaskLine(d, n)[x]) == 0
    ensures x < n ==> Red(MaskLine(d, n)[x]) == Red(d[x])
    ensures x < n ==> Green(MaskLine(d, n)[x]) == Green(d[x])
    ensures x < n ==> Blue(MaskLine(d, n)[x]) == Blue(d[x])
    ensures n <= x ==> MaskLine(d, n)[x] == d[x]
  {
    if x < n {
      MaskRgbFields(d[x]);
    }
  }

  /** Masking twice gives what masking once gives. */
  lemma MaskLineIdempotent(d: seq<Pixel>, n: nat)
    requires n <= |d|
    ensures MaskLine(MaskLine(d, n), n) == MaskLine(d, n)
  {
    var once := MaskLine(d, n);
    var twice := MaskLine(once, n);
    forall x | 0 <= x < |d|
      ensures twice[x] == once[x]
    {
      if x < n {
        MaskValues();
      }
    }
  }

  /** One lane of the vector step: `noalpha` is all ones where the source
      lane's alpha field is zero, and the lane keeps the destination under
      `noalpha` and takes the source elsewhere. */
  function SelectLane(d: bv16, s: bv16): (r: bv16)
    ensures Pixel(r) == Pixel(d).SetIfAlpha(Pixel(s))
  {
    MaskValues();
    var noalpha: bv16 := if s & AlphaMask == 0 then 0xFFFF else 0;
    assert noalpha == 0xFFFF ==> (noalpha & d) | (!noalpha & s) == d;
    assert noalpha == 0 ==> (noalpha & d) | (!noalpha & s) == s;
    (noalpha & d) | (!noalpha & s)
  }

  /** The vector step of `set_line_if_alpha` on eight loaded lanes. */
  function SelectChunk(d: seq<Pixel>, s: seq<Pixel>): (r: seq<Pixel>)
    requires |d| == Lanes && |s| == Lanes
    ensures |r| == Lanes
    ensures forall i :: 0 <= i < Lanes ==> r[i] == d[i].SetIfAlpha(s[i])
  {
    seq(Lanes, i requires 0 <= i < Lanes => Pixel(SelectLane(d[i].pixel, s[i].pixel)))
  }

  /** The vector step of `mask_rgb` on eight loaded lanes. */
  function MaskChunk(d: seq<Pixel>): (r: seq<Pixel>)
    requires |d| == Lanes
    ensures |r| == Lanes
    ensures forall i :: 0 <= i < Lanes ==>
      Alpha(r[i]) == 0 && Red(r[i]) == Red(d[i]) && Green(r[i]) == Green(d[i]) && Blue(r[i]) == Blue(d[i])
  {
    var r := seq(Lanes, i requires 0 <= i < Lanes => Pixel(d[i].pixel & RgbMask));
    forall i | 0 <= i < Lanes {
      MaskRgbFields(d[i]);
    }
    r
  }

  /** `set_line_if_alpha`, plain loop: `dst[x].set_if_alpha(src[x])` for every
      `x < pix`. `src` may be `dst` itself. */
  method SetLineIfAlpha(dst: array<Pixel>, src: array<Pixel>, pix: nat)
    requires pix <= dst.Length && pix <= src.Length
    modifies dst
    ensures dst[..] == BlendLine(old(dst[..]), old(src[..]), pix)
    ensures src != dst ==> src[..] == old(src[..])
  {
    ghost var d0, s0 := dst[..], src[..];
    var x := 0;
    while x < pix
      invariant x <= pix
      invariant dst[..] == BlendLine(d0, s0, x)
      invariant forall k :: x <= k < src.Length ==> src[k] == s0[k]
      invariant src != dst ==> src[..] == s0
    {
      dst[x] := dst[x].SetIfAlpha(src[x]);
      x := x + 1;
    }
  }

  /** `set_line_if_alpha`, vector path: chunks of eight lanes while `x + 8 < pix`,
      then the scalar loop for the rest, which is never empty when `pix > 0`
      (a last full chunk of eight goes to the scalar loop too). `chunked` is
      the number of pixels the vector loop handled. */
  method SetLineIfAlphaSimd(dst: array<Pixel>, src: array<Pixel>, pix: nat) returns (ghost chunked: nat)
    requires pix <= dst.Length && pix <= src.Length
    modifies dst
    ensures dst[..] == BlendLine(old(dst[..]), old(src[..]), pix)
    ensures src != dst ==> src[..] == old(src[..])
    ensures chunked % Lanes == 0 && chunked <= pix
    ensures pix > 0 ==> 1 <= pix - chunked <= Lanes
  {
    ghost var d0, s0 := dst[..], src[..];
    var x := 0;
    while x + Lanes < pix
      invariant x % Lanes == 0 && x <= pix
      invariant pix > 0 ==> x < pix
      invariant forall k :: 0 <= k < dst.Length ==> dst[k] == if k < x then d0[k].SetIfAlpha(s0[k]) else d0[k]
      invariant forall k :: x <= k < src.Length ==> src[k] == s0[k]
      invariant src != dst ==> src[..] == s0
    {
      var srcVec := src[x..x + Lanes];
      var dstVec := dst[x..x + Lanes];
      var res := SelectChunk(dstVec, srcVec);
      forall i | 0 <= i < Lanes {
        dst[x + i] := res[i];
      }
      x := x + Lanes;
    }
    chunked := x;
    while x < pix
      invariant chunked <= x <= pix
      invariant forall k :: 0 <= k < dst.Length ==> dst[k] == if k < x then d0[k].SetIfAlpha(s0[k]) else d0[k]
      invariant forall k :: x <= k < src.Length ==> src[k] == s0[k]
      invariant src != dst ==> src[..] == s0
    {
      dst[x] := dst[x].SetIfAlpha(src[x]);
      x := x + 1;
    }
    assert dst[..] == BlendLine(d0, s0, pix);
  }

  /** `mask_rgb`, plain path: the transform of the first `size` pixels with
      `pix & rgb_mask`. */
  method MaskRgb(dst: array<Pixel>, size: nat)
    requires size <= dst.Length
    modifies dst
    ensures dst[..] == MaskLine(old(dst[..]), size)
  {
    ghost var d0 := dst[..];
    var x := 0;
    while x < size
      invariant x <= size
      invariant dst[..] == MaskLine(d0, x)
    {
      dst[x] := dst[x].And(Pixel(RgbMask));
      x := x + 1;
    }
  }

  /** `mask_rgb`, vector path: chunks of eight lanes ANDed with the mask while
      `x + 8 < size`, then the transform of the rest. */
  method MaskRgbSimd(dst: array<Pixel>, size: nat) returns (ghost chunked: nat)
    requires size <= dst.Length
    modifies dst
    ensures dst[..] == MaskLine(old(dst[..]), size)
    ensures chunked % Lanes == 0 && chunked <= size
    ensures size > 0 ==> 1 <= size - chunked <= Lanes
  {
    ghost var d0 := dst[..];
    var x := 0;
    while x + Lanes < size
      invariant x % Lanes == 0 && x <= size
      invariant size > 0 ==> x < size
      invariant forall k :: 0 <= k < dst.Length ==> dst[k] == if k < x then d0[k].And(Pixel(RgbMask)) else d0[k]
    {
      var res := MaskChunk(dst[x..x + Lanes]);
      forall i | 0 <= i < Lanes {
        dst[x + i] := res[i];
      }
      x := x + Lanes;
    }
    chunked := x;
    while x < size
      invariant chunked <= x <= size
      invariant forall k :: 0 <= k < dst.Length ==> dst[k] == if k < x then d0[k].And(Pixel(RgbMask)) else d0[k]
    {
      dst[x] := dst[x].And(Pixel(RgbMask));
      x := x + 1;
    }
    assert dst[..] == MaskLine(d0, size);
  }

  /** The vector-loop guard `x + 8 < n` as the source evaluates it: the counter
      `x` is a 32-bit `unsigned`, so `x + 8` wraps before the comparison. */
  function ChunkGuardAsWritten(x: bv32, n: nat): bool
  {
    ((x + 8) as int) < n
  }

  /** For every `pix` from `0xFFFF_FFF9` up to the largest `unsigned`, the
      guard holds at `0xFFFF_FFF0`, so the counter reaches `0xFFFF_FFF8`.
      There the wrapped guard admits a chunk whose last lane lies at or past
      `pix`; then `x += 8` wraps to 0, where the guard holds again, so the
      vector loop never ends either. */
  lemma ChunkGuardOverruns(pix: nat)
    requires 0xFFFF_FFF9 <= pix <= 0xFFFF_FFFF
    ensures ChunkGuardAsWritten(0xFFFF_FFF0, pix)
    ensures ChunkGuardAsWritten(0xFFFF_FFF8, pix)
    ensures 0xFFFF_FFF8 + Lanes > pix
    ensures (0xFFFF_FFF8 as bv32) + 8 == 0
    ensures ChunkGuardAsWritten(0, pix)
  {
  }

  /** With a `size_t` size of `2^32` the counter reaches `0xFFFF_FFF8`, the
      guard admits that chunk, and `x += 8` wraps to 0, where the guard holds
      again: the vector loop of `mask_rgb` never ends. */
  lemma ChunkCounterWraps()
    ensures ChunkGuardAsWritten(0xFFFF_FFF8, 0x1_0000_0000)
    ensures (0xFFFF_FFF8 as bv32) + 8 == 0
    ensures ChunkGuardAsWritten(0, 0x1_0000_0000)
  {
  }
}
