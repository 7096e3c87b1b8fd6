# Dinothawr blitter core in Dafny

A model of `blit.hpp` from the Dinothawr game engine: the software
blitter's packed pixel format and the two small geometry types the
renderer clips with.

- **`PixelCodec`** (`pixel.dfy`) is the `Pixel` instantiation of
  `PixelBase`. It is a 16-bit word with alpha in bit 15, red in bits 10-14,
  green in bits 5-9 and blue in bits 0-4. The module covers:
  - the derived `alpha_mask` and `rgb_mask`;
  - the layout checks;
  - `operator bool`, `|` and `&`;
  - the alpha test `set_if_alpha`;
  - the `ARGB` factory that packs 8-bit channels.

  Value operators are functions on the `Pixel` datatype. The operators that
  update their receiver (`|=`, `&=` and `set_if_alpha`) are methods of the
  `PixelCell` class.
- **`BlitKernel`** (`kernel.dfy`) models the batch operations
  `set_line_if_alpha` and `mask_rgb` over caller buffers (`array<Pixel>`).
  - Each has a plain loop and an SSE2-style path. The SSE2 path processes
    eight 16-bit lanes per step while `x + 8` is below the length, then
    finishes with a scalar loop.
  - Every loop is proved to produce the scanline specification, `BlendLine`
    or `MaskLine`.
  - Properties of the result are proved about those specifications.
- **`Vector2i`** (`pos.dfy`) models `Pos`, a pair of 32-bit C++ `int`s, with:
  - componentwise `+`, `-`, `*` and `/`;
  - unary minus and scaling;
  - the unsigned 64-bit key behind `operator<`, which lets `Pos` key a
    binary tree.

  Signed overflow is undefined in C++, so every arithmetic operation
  requires its exact result to fit in 32 bits. Division truncates toward
  zero (`TruncDiv`).
- **`Rects`** (`rect.dfy`) models `Rect`, an origin with a width and a
  height, with:
  - translation;
  - intersection `&`, where an empty intersection is normalised to the
    zero rectangle;
  - `operator bool`.

  Its reference semantics is the set of points a rectangle covers
  (`Contains`). Intersection is proved to cover exactly the common points.
  It is also proved commutative, associative, idempotent and the largest
  common sub-rectangle.

## Model

| member | source | states |
|---|---|---|
| PixelCodec.LayoutIsValid | blit.hpp:35-38 | In the template's `unsigned` arithmetic, the channel widths of the 1-5-5-5 layout sum to at most the 16-bit word, each is at least one bit, and each field lies inside the word. |
| PixelCodec.MaskValues | blit.hpp:29-33 | The derived masks are `0x8000` and `0x7FFF`; they are disjoint and together cover the word. |
| PixelCodec.FieldLayout | blit.hpp:138-143 | Each channel's field is the word's bits at the instantiation's shift, of the instantiation's width. |
| PixelCodec.NonzeroIffSomeField | blit.hpp:43 | `operator bool` is true exactly when some channel field is nonzero. |
| PixelCodec.OrAndAreFieldwise | blit.hpp:45-53 | Bitwise OR and AND act on each of the four channel fields independently. |
| PixelCodec.Pixel.SetIfAlpha | blit.hpp:67-73 | The result is the source when the source's alpha field is nonzero, and the destination otherwise. |
| PixelCodec.MaskRgbFields | blit.hpp:126 | ANDing with `rgb_mask` zeroes the alpha field and keeps red, green and blue. |
| PixelCodec.ArgbWord | blit.hpp:75-89 | For all 32-bit inputs, `ARGB` yields the low 16 bits of the bitwise OR of `(a>>7)<<15`, `(r>>3)<<10`, `(g>>3)<<5` and `b>>3`. |
| PixelCodec.ArgbFields | blit.hpp:75-89 | For 8-bit channels, each field of the packed pixel is the top `bits` bits of its channel. |
| PixelCodec.Expand | blit.hpp:75-89 | The colour a pixel stands for (each field moved back to the top of its byte) has every channel below 256. |
| PixelCodec.EncodeExpand | blit.hpp:75-89 | Every pixel word is the `ARGB` encoding of its expanded colour: `ARGB` is onto, and `Expand` is its right inverse. |
| PixelCodec.ExpandEncode | blit.hpp:75-89 | Encoding an 8-bit colour and expanding it clears the low bits of each channel (`a & 0x80`, others `& 0xF8`), so a channel that is a multiple of 8 round-trips exactly. |
| PixelCodec.Requantise | blit.hpp:77-86 | Shifting an 8-bit channel down to its field and back up keeps only the bits the field holds. |
| PixelCodec.ArgbIgnoresLowBits | blit.hpp:77-86 | Inputs that differ only in bits the right shifts discard give the same pixel. |
| PixelCodec.ArgbExamples | blit.hpp:75-89 | Opaque red is `0xFC00`, green without alpha is `0x03E0`, all zeros is the zero pixel, all ones is `0xFFFF`. |
| PixelCodec.PixelCell.constructor | blit.hpp:40-41 | A pixel variable starts with the given word. |
| PixelCodec.PixelCell.OrAssign | blit.hpp:55-59 | OR-assignment leaves the receiver equal to the bitwise OR of its old value and the argument. |
| PixelCodec.PixelCell.AndAssign | blit.hpp:61-65 | `&=` leaves the receiver equal to the bitwise AND of its old value and the argument. |
| PixelCodec.PixelCell.SetIfAlpha | blit.hpp:67-73 | The receiver becomes the source when the source has alpha, and is unchanged otherwise. |
| BlitKernel.BlendLine | blit.hpp:111-115 | The first `n` pixels are each alpha-tested against the source pixel at the same index; the rest are unchanged; the length is kept. |
| BlitKernel.MaskLine | blit.hpp:129-132 | The first `n` pixels are each ANDed with `rgb_mask`; the rest are unchanged; the length is kept. |
| BlitKernel.BlendLineByAlpha | blit.hpp:111-115 | Within the prefix, a pixel of the result is the source pixel exactly when that source has alpha, else the old destination; past the prefix it is the old destination. |
| BlitKernel.BlendLineNoOp | blit.hpp:111-115 | A source with no alpha anywhere in the prefix leaves the destination unchanged. |
| BlitKernel.BlendLineIdempotent | blit.hpp:111-115 | Blending the same source a second time changes nothing. |
| BlitKernel.BlendLineOntoItself | blit.hpp:111-115 | Blending a line onto itself (`dst == src`) leaves it unchanged. |
| BlitKernel.MaskLineFields | blit.hpp:129-132 | Every masked pixel has alpha 0 and its old colour fields; pixels past `size` are unchanged. |
| BlitKernel.MaskLineIdempotent | blit.hpp:129-132 | Masking a second time changes nothing. |
| BlitKernel.SelectLane | blit.hpp:101-102 | The `cmpeq`/`and`/`andnot`/`or` lane select gives the same pixel as `set_if_alpha`. |
| BlitKernel.SelectChunk | blit.hpp:99-102 | The vector step on eight loaded lanes gives, lane by lane, `set_if_alpha` of destination and source. |
| BlitKernel.MaskChunk | blit.hpp:121-124 | In every one of the eight lanes the vector AND with `rgb_mask` leaves alpha 0 and the lane's red, green and blue fields as they were. |
| BlitKernel.SetLineIfAlpha | blit.hpp:111-115 | After the call the destination buffer is `BlendLine` of its old contents and the source; a distinct source buffer is unchanged. |
| BlitKernel.SetLineIfAlphaSimd | blit.hpp:92-109 | The vector path leaves the same buffer as the plain loop (`BlendLine`). The vector loop handles a multiple of eight pixels and always leaves 1 to 8 pixels to the scalar loop when `pix > 0`. |
| BlitKernel.MaskRgb | blit.hpp:129-132 | After the call the buffer is `MaskLine` of its old contents. |
| BlitKernel.MaskRgbSimd | blit.hpp:119-127 | The vector path leaves the same buffer as the plain transform (`MaskLine`), with the same split between the vector and scalar parts. |
| BlitKernel.ChunkGuardOverruns | blit.hpp:96-97 | For every `pix` from `0xFFFF_FFF9` to `0xFFFF_FFFF`, the 32-bit guard `x + 8 < pix` admits a chunk at `0xFFFF_FFF8` whose last lane is at or past `pix`; `x += 8` then wraps to 0 and the guard holds again, so the loop never ends. |
| BlitKernel.ChunkCounterWraps | blit.hpp:122-123 | With a `size_t` size of `2^32`, the guard admits the chunk at `0xFFFF_FFF8`, `x += 8` wraps to 0, and the guard holds again there. |
| Vector2i.TruncDiv | blit.hpp:155 | C++ `/`: the remainder is smaller than the divisor in magnitude and is zero or has the dividend's sign. |
| Vector2i.QuotientRemainder | blit.hpp:155 | The quotient of the magnitudes, signed by the operands' signs, leaves the remainder of the magnitudes with the dividend's sign. |
| Vector2i.PlusMinusRoundTrip | blit.hpp:156-157 | Adding then subtracting the same `Pos` restores the original. |
| Vector2i.PlusCommutes | blit.hpp:156 | Addition is commutative. |
| Vector2i.NegateProperties | blit.hpp:181-184 | Unary minus is an involution, adding a negation is subtraction, and `b + (-b)` is the origin. |
| Vector2i.ScaleIsTimes | blit.hpp:186-189 | `k * p` is componentwise multiplication by `(k, k)`. |
| Vector2i.DivUndoesScale | blit.hpp:159 | Dividing `k * p` by a nonzero `k` gives back `p`. |
| Vector2i.MultipleBound | blit.hpp:159 | A nonzero multiple of `d` is at least `d` in magnitude (used for exact division). |
| Vector2i.TruncDivExact | blit.hpp:159 | Truncating division undoes multiplication by the divisor. |
| Vector2i.U32 | blit.hpp:167-173 | `static_cast<uint32_t>` maps non-negative values to themselves and negative values to `v + 2^32`, always within 32 bits. |
| Vector2i.ShiftOrIsKey | blit.hpp:167-173 | For 32-bit halves, shifting `hi` left by 32 and ORing in `lo` on `uint64` equals `hi * 2^32 + lo`; `Key` is that integer formula on the two `uint32` casts. |
| Vector2i.LessIsLexicographic | blit.hpp:164-176 | `operator<` orders by the unsigned `x`, then by the unsigned `y`. |
| Vector2i.KeyInjective | blit.hpp:164-176 | Distinct positions have distinct keys. |
| Vector2i.LessIsStrictTotalOrder | blit.hpp:163-176 | `operator<` is irreflexive, transitive and asymmetric, and any two distinct positions are comparable, so `Pos` can key an ordered tree. |
| Vector2i.NegativeSortsLast | blit.hpp:164-176 | A negative `x` sorts after every non-negative one; on the non-negative quadrant the order is the usual lexicographic one. |
| Vector2i.LessExamples | blit.hpp:164-176 | `(1,5) < (1,6)`, not `(2,0) < (1,100)`, and `(0,0) < (-1,0)`. |
| Vector2i.PosCell.constructor | blit.hpp:149-150 | A `Pos` variable starts with the given components. |
| Vector2i.PosCell.PlusAssign | blit.hpp:152 | `+=` leaves the receiver equal to old value plus the argument. |
| Vector2i.PosCell.MinusAssign | blit.hpp:153 | `-=` leaves the receiver equal to old value minus the argument. |
| Vector2i.PosCell.TimesAssign | blit.hpp:154 | `*=` leaves the receiver equal to the componentwise product. |
| Vector2i.PosCell.DivAssign | blit.hpp:155 | `/=` leaves the receiver equal to the componentwise truncated quotient. |
| Rects.Intersect | blit.hpp:209-223 | `operator&` returns the zero rectangle, or a non-empty rectangle inside both operands. |
| Rects.NonEmptyIffCoversPoint | blit.hpp:231 | `operator bool` is true exactly when the rectangle covers some point. |
| Rects.IntersectCoversCommonPoints | blit.hpp:209-223 | The intersection covers exactly the points both operands cover. |
| Rects.IntersectCommutes | blit.hpp:209-223 | `a & b == b & a`. |
| Rects.IntersectNonEmptyIff | blit.hpp:219-222 | The intersection is non-empty exactly when both operands are non-empty and overlap; otherwise it is the zero rectangle. |
| Rects.IntersectIsLargest | blit.hpp:209-223 | Every non-empty rectangle inside both operands is inside their intersection. |
| Rects.IntersectIdempotent | blit.hpp:209-223 | `r & r == r` for a non-empty `r`. |
| Rects.IntersectWithContained | blit.hpp:209-223 | Clipping a non-empty rectangle to one containing it leaves it unchanged. |
| Rects.IntersectWithEmpty | blit.hpp:219-220 | Intersecting with the zero rectangle gives the zero rectangle. |
| Rects.SameCoverSameRect | blit.hpp:219-222 | Two results of `operator&` (each zero or non-empty) that cover the same points are equal. |
| Rects.CommonCoverUnique | blit.hpp:209-223 | Both groupings of a triple intersection cover the same points, so they are the same rectangle. |
| Rects.IntersectAssociative | blit.hpp:209-223 | `(a & b) & c == a & (b & c)` wherever both are defined. |
| Rects.IntersectExample | blit.hpp:209-223 | `{(0,0),10,10} & {(5,5),10,10} == {(5,5),5,5}`. |
| Rects.TouchingExample | blit.hpp:219-220 | Rectangles sharing only an edge intersect to the zero rectangle. |
| Rects.TranslateProperties | blit.hpp:205-206 | `r + p` keeps width and height, `(r + p) - p == r`, and `r + p` covers exactly the points of `r` moved by `p`. |
| Rects.RectCell.constructor | blit.hpp:199-201 | A `Rect` variable starts with the given origin, width and height. |
| Rects.RectCell.PlusAssign | blit.hpp:203 | `+=` moves the receiver's origin by the argument. |
| Rects.RectCell.MinusAssign | blit.hpp:204 | `-=` moves the receiver's origin back by the argument. |
| Rects.RectCell.IntersectAssign | blit.hpp:225-229 | `&=` leaves the receiver equal to its old value `&` the argument. |

## Left out

- Only the `Pixel` instantiation (`uint16_t`, layout 1-5-5-5) of the `PixelBase` template is modelled. The layout constants are kept as named 32-bit unsigned constants, like the template parameters, so the masks and shifts are derived from them as in the template.
- The SSE2 intrinsics are modelled by their effect on eight 16-bit lanes (`SelectLane`, `SelectChunk`, `MaskChunk`). Unaligned loads and stores are modelled as sequence slices and per-lane array writes.
- The compile-time choice between the plain and the SSE2 paths (`USE_SIMD`, `__SSE2__`) is not modelled. Both paths are present, as separate methods.
- `std::transform` with its lambda is modelled as a scalar loop.
- BlitKernel.SetLineIfAlphaSimd, BlitKernel.MaskRgbSimd: the counter and lengths are unbounded naturals. The 32-bit `unsigned` counter and its wrap-around are captured only by the findings below.
- BlitKernel.SetLineIfAlpha, BlitKernel.SetLineIfAlphaSimd: buffers that partly overlap (other than `dst == src`) are not modelled, because both are whole arrays.
- `operator<<(std::ostream&, Pos)` is output formatting (I/O) and is not part of this model.
- The `static_assert`s on `sizeof(Pixel)` and on `int` being 32 bits are layout facts of the C++ compiler. The 32-bit `int` is built into the `int32` type.
- `Pos::operator==` and `operator!=` are Dafny's equality on the `Pos` datatype.
- The C++ constructors of the value types are the datatype constructors:
  - `PixelBase()` is `Zero`;
  - `Pos()` is `Origin`;
  - `Rect()` is `Empty`;
  - `Rect(int, int)` is `Rect(Origin, w, h)`.
- Vector2i.Pos.Plus, Minus, Times, DivBy, Vector2i.Negate, Vector2i.Scale and Rects.Rect.Plus, Minus require their exact results to fit in 32 bits. Signed overflow is undefined behaviour in C++, so no result is modelled there.
- Rects.Intersect requires that the far edges and the computed width and height fit in 32 bits, for the same reason.
- PixelCodec.ArgbFields: states field values only for channels below 256. Larger `unsigned` inputs spill into neighbouring fields; for those inputs ArgbWord gives the exact word.
- Vector2i.Less: compares the integer `Key`, not the `uint64` built by shift and OR. ShiftOrIsKey proves the two agree for any pair of 32-bit halves, but no lemma carries the whole comparison from the `bv64` key to `Key` through the casts.
- `utils.hpp` is not part of this model.

## Findings

| source | as written | input that shows it | evidently intended | confidence | as-written member | corrected member |
|---|---|---|---|---|---|---|
| blit.hpp:96-97 | The vector loop of `set_line_if_alpha` tests `x + 8 < pix` on a 32-bit `unsigned` counter, so the sum wraps near `2^32` | Any `pix` from `0xFFFF_FFF9` to `0xFFFF_FFFF`: at `x == 0xFFFF_FFF8`, `x + 8` wraps to 0, the guard holds, and the chunk stores lanes up to index `0xFFFF_FFFF`, at or past `pix`; then `x` wraps to 0 and the loop never ends | Every chunk lies within `[0, pix)`; the guard compares without wrapping | low (needs an 8 GiB scanline); not executed | BlitKernel.ChunkGuardOverruns | BlitKernel.SetLineIfAlphaSimd |
| blit.hpp:122-123 | `mask_rgb` takes a `size_t` size but counts with a 32-bit `unsigned x`, so `x += 8` wraps | `size == 2^32`: at `x == 0xFFFF_FFF8` the guard holds, then `x` wraps to 0 and the guard holds again, so the loop never ends | The counter has the width of `size`; the vector loop ends with 1 to 8 pixels left for the transform | low (needs an 8 GiB buffer); not executed | BlitKernel.ChunkCounterWraps | BlitKernel.MaskRgbSimd |
