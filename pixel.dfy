/** The packed-pixel codec of the renderer: the 16-bit 1-5-5-5 ARGB `Pixel`
    (alpha in bit 15, red in bits 10-14, green in bits 5-9, blue in bits 0-4),
    its derived masks, bitwise composition, the alpha test and the factory
    that packs 8-bit channels. */
module PixelCodec {

  // The channel layout of the `Pixel` instantiation: a width and a shift per
  // channel, as the template's `unsigned` parameters.
  const AlphaBits: bv32 := 1
  const AlphaShift: bv32 := 15
  const RedBits: bv32 := 5
  const RedShift: bv32 := 10
  const GreenBits: bv32 := 5
  const GreenShift: bv32 := 5
  const BlueBits: bv32 := 5
  const BlueShift: bv32 := 0

  /** The storage width of a pixel word. */
  const WordBits: bv32 := 16

  /** The mask of a `bits`-wide field at `shift`: `((1 << bits) - 1) << shift`. */
  function FieldMask(bits: bv32, shift: bv32): bv16
    requires bits <= 16 && shift <= 16 && bits + shift <= 16
  {
    (((1 as bv16) << bits) - 1) << shift
  }

  /** Selects the alpha field. */
  const AlphaMask: bv16 := FieldMask(AlphaBits, AlphaShift)

  /** Selects the union of the three colour fields. */
  const RgbMask: bv16 := FieldMask(RedBits, RedShift) | FieldMask(GreenBits, GreenShift) | FieldMask(BlueBits, BlueShift)

  /** The two compile-time checks on the layout: the channel widths fit in the
      word and no channel is empty. */
  lemma LayoutIsValid()
    ensures AlphaBits + RedBits + GreenBits + BlueBits <= WordBits
    ensures AlphaBits > 0 && RedBits > 0 && GreenBits > 0 && BlueBits > 0
    ensures AlphaShift + AlphaBits <= WordBits && RedShift + RedBits <= WordBits
    ensures GreenShift + GreenBits <= WordBits && BlueShift + BlueBits <= WordBits
  {
  }

  /** The derived masks are disjoint and together cover the whole word. */
  lemma MaskValues()
    ensures AlphaMask == 0x8000 && RgbMask == 0x7FFF
    ensures AlphaMask & RgbMask == 0
    ensures AlphaMask | RgbMask == 0xFFFF
  {
  }

  /** One packed pixel word. */
  datatype Pixel = Pixel(pixel: bv16)
  {
    /** The boolean conversion: whether any bit is set. */
    predicate IsNonzero()
    {
      pixel != 0
    }

    function Or(p: Pixel): Pixel
    {
      Pixel(pixel | p.pixel)
    }

    function And(p: Pixel): Pixel
    {
      Pixel(pixel & p.pixel)
    }

    /** The alpha test applied to the source pixel. */
    predicate HasAlpha()
    {
      pixel & AlphaMask != 0
    }

    /** The value of `this` after `this.set_if_alpha(src)`: the source replaces
        the destination exactly when its alpha field is not zero. */
    function SetIfAlpha(src: Pixel): (r: Pixel)
      ensures Alpha(src) != 0 ==> r == src
      ensures Alpha(src) == 0 ==> r == this
    {
      if src.HasAlpha() then src else this
    }
  }

  /** The default-constructed pixel. */
  const Zero := Pixel(0)

  /** The value of the field `bits` wide at `shift`. */
  function Field(p: Pixel, bits: bv32, shift: bv32): bv16
    requires bits <= 16 && shift <= 16 && bits + shift <= 16
  {
    (p.pixel >> shift) & (((1 as bv16) << bits) - 1)
  }

  function Alpha(p: Pixel): bv16 { Field(p, AlphaBits, AlphaShift) }
  function Red(p: Pixel): bv16 { Field(p, RedBits, RedShift) }
  function Green(p: Pixel): bv16 { Field(p, GreenBits, GreenShift) }
  function Blue(p: Pixel): bv16 { Field(p, BlueBits, BlueShift) }

  /** Where the four fields sit in the word. */
  lemma FieldLayout(p: Pixel)
    ensures Alpha(p) == p.pixel >> 15
    ensures Red(p) == (p.pixel >> 10) & 0x1F
    ensures Green(p) == (p.pixel >> 5) & 0x1F
    ensures Blue(p) == p.pixel & 0x1F
  {
  }

  /** A pixel is nonzero exactly when one of its four fields is, because the
      fields cover the word. */
  lemma NonzeroIffSomeField(p: Pixel)
    ensures p.IsNonzero() <==> (Alpha(p) != 0 || Red(p) != 0 || Green(p) != 0 || Blue(p) != 0)
  {
  }

  /** `|` and `&` compose pixels field by field. */
  lemma OrAndAreFieldwise(p: Pixel, q: Pixel)
    ensures Alpha(p.Or(q)) == Alpha(p) | Alpha(q) && Red(p.Or(q)) == Red(p) | Red(q)
    ensures Green(p.Or(q)) == Green(p) | Green(q) && Blue(p.Or(q)) == Blue(p) | Blue(q)
    ensures Alpha(p.And(q)) == Alpha(p) & Alpha(q) && Red(p.And(q)) == Red(p) & Red(q)
    ensures Green(p.And(q)) == Green(p) & Green(q) && Blue(p.And(q)) == Blue(p) & Blue(q)
  {
    FieldLayout(p);
    FieldLayout(q);
    FieldLayout(p.Or(q));
    FieldLayout(p.And(q));
  }

  /** Masking with `rgb_mask` clears the alpha field and keeps the colour fields. */
  lemma MaskRgbFields(p: Pixel)
    ensures Alpha(p.And(Pixel(RgbMask))) == 0
    ensures Red(p.And(Pixel(RgbMask))) == Red(p)
    ensures Green(p.And(Pixel(RgbMask))) == Green(p)
    ensures Blue(p.And(Pixel(RgbMask))) == Blue(p)
  {
  }

  /** The implicit narrowing of an `unsigned` to the 16-bit word. */
  function Low16(v: bv32): bv16
  {
    (v & 0xFFFF) as bv16
  }

  /** The factory from 8-bit channels: each channel keeps its top `bits` bits
      (a truncating right shift) and is moved to its field. Inputs are C++
      `unsigned`; the result is the low 16 bits of the combined word. */
  function ARGB(a: bv32, r: bv32, g: bv32, b: bv32): Pixel
  {
    var r' := (r >> (8 - RedBits)) << RedShift;
    var g' := (g >> (8 - GreenBits)) << GreenShift;
    var b' := (b >> (8 - BlueBits)) << BlueShift;
    var a' := (a >> (8 - AlphaBits)) << AlphaShift;
    Pixel(Low16(a' | r' | g' | b'))
  }

  /** The word `ARGB` builds, with the layout's shifts written out. */
  lemma ArgbWord(a: bv32, r: bv32, g: bv32, b: bv32)
    ensures ARGB(a, r, g, b).pixel == Low16(((a >> 7) << 15) | ((r >> 3) << 10) | ((g >> 3) << 5) | (b >> 3))
  {
  }

  /** For 8-bit inputs, each field of the packed pixel holds the top `bits`
      bits of its channel. */
  lemma ArgbFields(a: bv32, r: bv32, g: bv32, b: bv32)
    requires a < 256 && r < 256 && g < 256 && b < 256
    ensures Alpha(ARGB(a, r, g, b)) == Low16(a >> (8 - AlphaBits))
    ensures Red(ARGB(a, r, g, b)) == Low16(r >> (8 - RedBits))
    ensures Green(ARGB(a, r, g, b)) == Low16(g >> (8 - GreenBits))
    ensures Blue(ARGB(a, r, g, b)) == Low16(b >> (8 - BlueBits))
  {
    ArgbWord(a, r, g, b);
    FieldLayout(ARGB(a, r, g, b));
  }

  /** A colour with 8 bits per channel, as the renderer supplies it. */
  datatype Argb8 = Argb8(a: bv32, r: bv32, g: bv32, b: bv32)

  /** The 8-bit colour a pixel stands for: each field moved back to the top of
      its byte. */
  function Expand(p: Pixel): (c: Argb8)
    ensures c.a < 256 && c.r < 256 && c.g < 256 && c.b < 256
  {
    Argb8((Alpha(p) as bv32) << (8 - AlphaBits), (Red(p) as bv32) << (8 - RedBits),
          (Green(p) as bv32) << (8 - GreenBits), (Blue(p) as bv32) << (8 - BlueBits))
  }

  /** `Expand` with the layout's shifts written out. */
  lemma ExpandLayout(p: Pixel)
    ensures Expand(p) == Argb8((Alpha(p) as bv32) << 7, (Red(p) as bv32) << 3,
                               (Green(p) as bv32) << 3, (Blue(p) as bv32) << 3)
  {
  }

  /** Every pixel word is the encoding of the colour it stands for. */
  lemma EncodeExpand(p: Pixel)
    ensures ARGB(Expand(p).a, Expand(p).r, Expand(p).g, Expand(p).b) == p
  {
    FieldLayout(p);
    ArgbWord(Expand(p).a, Expand(p).r, Expand(p).g, Expand(p).b);
  }

  /** Quantisation: encoding an 8-bit colour and expanding it again clears the
      low `8 - bits` bits of each channel, and so reproduces a channel that is a
      multiple of `2^(8 - bits)` exactly. */
  lemma ExpandEncode(a: bv32, r: bv32, g: bv32, b: bv32)
    requires a < 256 && r < 256 && g < 256 && b < 256
    ensures Expand(ARGB(a, r, g, b)) == Argb8(a & 0x80, r & 0xF8, g & 0xF8, b & 0xF8)
    ensures r & 0x07 == 0 ==> Expand(ARGB(a, r, g, b)).r == r
  {
    ArgbFields(a, r, g, b);
    ExpandLayout(ARGB(a, r, g, b));
    Requantise(a, r, g, b);
  }

  /** Shifting an 8-bit channel down to its field width and back up clears the
      bits below the field. */
  lemma Requantise(a: bv32, r: bv32, g: bv32, b: bv32)
    requires a < 256 && r < 256 && g < 256 && b < 256
    ensures Argb8((Low16(a >> 7) as bv32) << 7, (Low16(r >> 3) as bv32) << 3,
                  (Low16(g >> 3) as bv32) << 3, (Low16(b >> 3) as bv32) << 3)
         == Argb8(a & 0x80, r & 0xF8, g & 0xF8, b & 0xF8)
  {
  }

  /** Inputs that differ only in the bits the shifts discard give the same pixel. */
  lemma ArgbIgnoresLowBits(a: bv32, r: bv32, g: bv32, b: bv32, a2: bv32, r2: bv32, g2: bv32, b2: bv32)
    requires a >> 7 == a2 >> 7 && r >> 3 == r2 >> 3 && g >> 3 == g2 >> 3 && b >> 3 == b2 >> 3
    ensures ARGB(a, r, g, b) == ARGB(a2, r2, g2, b2)
  {
    ArgbWord(a, r, g, b);
    ArgbWord(a2, r2, g2, b2);
  }

  lemma ArgbExamples()
    ensures ARGB(255, 255, 0, 0) == Pixel(0xFC00)
    ensures ARGB(0, 0, 255, 0) == Pixel(0x03E0)
    ensures ARGB(0, 0, 0, 0) == Zero
    ensures ARGB(255, 255, 255, 255) == Pixel(0xFFFF)
  {
  }

  /** A pixel variable, for the operators that update their receiver in place. */
  class PixelCell {
    var pixel: bv16

    function Value(): Pixel
      reads this
    {
      Pixel(pixel)
    }

    constructor (p: Pixel)
      ensures Value() == p
    {
      pixel := p.pixel;
    }

    /** `operator|=` */
    method OrAssign(p: Pixel)
      modifies this
      ensures Value() == old(Value()).Or(p)
    {
      pixel := pixel | p.pixel;
    }

    /** `operator&=` */
    method AndAssign(p: Pixel)
      modifies this
      ensures Value() == old(Value()).And(p)
    {
      pixel := pixel & p.pixel;
    }

    /** `set_if_alpha`: overwrite with `src` only when `src` has alpha. */
    method SetIfAlpha(src: Pixel)
      modifies this
      ensures src.HasAlpha() ==> Value() == src
      ensures !src.HasAlpha() ==> Value() == old(Value())
    {
      MaskValues();
      if src.pixel & AlphaMask != 0 {
        pixel := src.pixel;
      }
    }
  }
}
