/** The post-processing passes of picasso_load_bmp (src/bmp.c:420-445): every
    pixel is either rebuilt from the colour masks (4-channel BI_BITFIELDS only)
    or has its first and third bytes exchanged (BGR to RGB); then, unless the
    mask path produced some nonzero alpha, a 4-channel image is made opaque. */
module BmpPixels {
  import opened Machine
  import opened Colors
  import opened BitMasks
  import opened BmpHeader
  import opened Images

  /** Byte k of a colour in memory order r, g, b, a. */
  function Channel(c: Color, k: int): u8
    requires 0 <= k < 4
  {
    if k == 0 then c.r else if k == 1 then c.g else if k == 2 then c.b else c.a
  }

  /** What get_color reads back from a pixel whose bytes are those of `c`. */
  function Stored(c: Color, channels: int): Color {
    if channels == 4 then c else c.(a := 0xFF)
  }

  /** Byte i of a recoloured image: byte k of the new colour of the pixel it belongs to. */
  function RecolorByte(img: Image, g: Color -> Color, i: int): u8
    requires Shaped(img) && 0 <= i < |img.pixels|
  {
    ShapedNonEmpty(img);
    IndexDecode(img, i);
    var y, x, k := i / img.rowStride, i % img.rowStride / img.channels, i % img.rowStride % img.channels;
    Channel(g(PixelColor(img, x, y)), k)
  }

  /** One foreach_pixel_image pass that overwrites each pixel's bytes with those
      of g applied to its colour; the shape is kept. */
  function Recolor(img: Image, g: Color -> Color): (r: Image)
    requires Shaped(img)
    ensures Shaped(r) && r == img.(pixels := r.pixels)
    ensures forall x, y | 0 <= x < img.width && 0 <= y < img.height ::
      PixelColor(r, x, y) == Stored(g(PixelColor(img, x, y)), img.channels)
  {
    var r := img.(pixels := seq(|img.pixels|, i requires 0 <= i < |img.pixels| => RecolorByte(img, g, i)));
    forall x, y | 0 <= x < img.width && 0 <= y < img.height
      ensures PixelColor(r, x, y) == Stored(g(PixelColor(img, x, y)), img.channels)
    {
      RecolorPixel(img, g, r, x, y);
    }
    r
  }

  lemma RecolorPixel(img: Image, g: Color -> Color, r: Image, x: int, y: int)
    requires Valid(img) && 0 <= x < img.width && 0 <= y < img.height
    requires r == img.(pixels := seq(|img.pixels|, i requires 0 <= i < |img.pixels| => RecolorByte(img, g, i)))
    ensures Valid(r) && PixelColor(r, x, y) == Stored(g(PixelColor(img, x, y)), img.channels)
  {
    var c := g(PixelColor(img, x, y));
    OffsetInBounds(img, x, y);
    var o := Offset(img, x, y);
    RecolorByteValue(img, g, x, y, 0);
    RecolorByteValue(img, g, x, y, 1);
    RecolorByteValue(img, g, x, y, 2);
    assert r.pixels[o] == c.r && r.pixels[o + 1] == c.g && r.pixels[o + 2] == c.b;
    if img.channels == 4 {
      RecolorByteValue(img, g, x, y, 3);
      assert r.pixels[o + 3] == c.a;
    }
  }

  lemma RecolorByteValue(img: Image, g: Color -> Color, x: int, y: int, k: int)
    requires Valid(img) && 0 <= x < img.width && 0 <= y < img.height && 0 <= k < img.channels
    ensures 0 <= Offset(img, x, y) + k < |img.pixels|
    ensures RecolorByte(img, g, Offset(img, x, y) + k) == Channel(g(PixelColor(img, x, y)), k)
  {
    OffsetInBounds(img, x, y);
    OffsetDecode(img, x, y, k);
  }

  /** Byte k of pixel (x, y) of a recoloured image is byte k of the new colour. */
  lemma RecolorByteAt(img: Image, g: Color -> Color, x: int, y: int, k: int)
    requires Valid(img) && 0 <= x < img.width && 0 <= y < img.height && 0 <= k < img.channels
    ensures Valid(Recolor(img, g)) && ByteAt(Recolor(img, g), x, y, k) == Channel(g(PixelColor(img, x, y)), k)
  {
    OffsetInBounds(img, x, y);
    OffsetDecode(img, x, y, k);
  }

  /** The first pass on one pixel: decode_and_write_pixel_32bit with the four
      masks, or the PICASSO_SWAP of bytes 0 and 2. */
  function Convert(c: Color, decode: bool, m: Masks): (r: Color)
    ensures !decode ==> r == Color(c.b, c.g, c.r, c.a)
    ensures decode ==> r == Color(DecodeChannel(c, m.red), DecodeChannel(c, m.green),
                                  DecodeChannel(c, m.blue), DecodeChannel(c, m.alpha))
  {
    if decode then
      Color(DecodeChannel(c, m.red), DecodeChannel(c, m.green), DecodeChannel(c, m.blue), DecodeChannel(c, m.alpha))
    else c.(r := c.b, b := c.r)
  }

  /** Swapping red and blue twice changes nothing. */
  lemma SwapTwice(c: Color, m: Masks)
    ensures Convert(Convert(c, false, m), false, m) == c
  {
  }

  /** The masks a 32-bit little-endian RGBA layout declares. */
  const RgbaMasks := Masks(0xFF, 0xFF00, 0xFF_0000, 0xFF00_0000)

  /** Decoding through the RGBA masks reproduces the pixel. */
  lemma DecodeRgbaMasks(c: Color)
    ensures Convert(c, true, RgbaMasks) == c
  {
    DecodeByteMask(c, 0);
    DecodeByteMask(c, 1);
    DecodeByteMask(c, 2);
    DecodeByteMask(c, 3);
  }

  /** The mask 0xFF << 8k picks byte k of the packed colour. */
  lemma DecodeByteMask(c: Color, k: nat)
    requires k < 4
    ensures k == 0 ==> DecodeChannel(c, 0xFF) == c.r
    ensures k == 1 ==> DecodeChannel(c, 0xFF00) == c.g
    ensures k == 2 ==> DecodeChannel(c, 0xFF_0000) == c.b
    ensures k == 3 ==> DecodeChannel(c, 0xFF00_0000) == c.a
  {
    var v := ColorToU32(c);
    var s := 8 * k;
    MaskOfByte(k);
    DecodeChannelByte(v, ContiguousMask(s, 8), s);
    FieldOfByte(v, k);
    UnpackPack(c);
  }

  lemma MaskOfByte(k: nat)
    requires k < 4
    ensures ContiguousMask(8 * k, 8) == [0xFF, 0xFF00, 0xFF_0000, 0xFF00_0000][k]
  {
    Pow2Values();
    assert Pow2(0) == 1;
  }

  lemma FieldOfByte(v: u32, k: nat)
    requires k < 4
    ensures Field(v, 8 * k, 8) == PixelByte(v, k)
  {
    Pow2Values();
    assert Pow2(0) == 1;
    DivDiv(v, 0x100, 0x100);
    DivDiv(v, 0x1_0000, 0x100);
  }

  /** The first pass over an image. */
  function ConvertImage(img: Image, decode: bool, m: Masks): (r: Image)
    requires Shaped(img)
    ensures Shaped(r) && r == img.(pixels := r.pixels)
    ensures forall x, y | 0 <= x < img.width && 0 <= y < img.height ::
      PixelColor(r, x, y) == Stored(Convert(PixelColor(img, x, y), decode, m), img.channels)
  {
    Recolor(img, c => Convert(c, decode, m))
  }

  /** Every alpha byte of a 4-channel image is zero. */
  predicate AllTransparent(img: Image)
    requires Shaped(img)
  {
    forall x, y | 0 <= x < img.width && 0 <= y < img.height :: PixelColor(img, x, y).a == 0
  }

  /** set_all_alpha after the first pass: still true unless the mask path wrote
      some nonzero alpha byte. */
  predicate SetAllAlpha(converted: Image, decode: bool)
    requires Shaped(converted)
  {
    !decode || AllTransparent(converted)
  }

  /** The first-pass traversal as it tracks set_all_alpha: cleared at the first
      mask-decoded pixel whose alpha byte is nonzero. */
  method ScanAlpha(converted: Image, decode: bool) returns (setAll: bool)
    requires Shaped(converted) && (decode ==> converted.channels == 4)
    ensures setAll == SetAllAlpha(converted, decode)
  {
    setAll := true;
    var y := 0;
    while y < converted.height
      invariant 0 <= y <= converted.height
      invariant setAll == (!decode || forall yy, xx | 0 <= yy < y && 0 <= xx < converted.width ::
                                        PixelColor(converted, xx, yy).a == 0)
    {
      var x := 0;
      while x < converted.width
        invariant 0 <= x <= converted.width
        invariant setAll == (!decode || ((forall yy, xx | 0 <= yy < y && 0 <= xx < converted.width ::
                                            PixelColor(converted, xx, yy).a == 0)
                                        && forall xx | 0 <= xx < x :: PixelColor(converted, xx, y).a == 0))
      {
        if decode {
          OffsetInBounds(converted, x, y);
          var o := Offset(converted, x, y);
          assert PixelColor(converted, x, y).a == converted.pixels[o + 3];
          if converted.pixels[o + 3] != 0 {
            setAll := false;
          }
        }
        x := x + 1;
      }
      y := y + 1;
    }
  }

  /** The second pass: alpha forced to 0xFF. */
  function MakeOpaque(img: Image): (r: Image)
    requires Shaped(img)
    ensures Shaped(r) && r == img.(pixels := r.pixels)
    ensures forall x, y | 0 <= x < img.width && 0 <= y < img.height ::
      PixelColor(r, x, y) == PixelColor(img, x, y).(a := 0xFF)
  {
    Recolor(img, (c: Color) => c.(a := 0xFF))
  }

  /** Both passes: convert every pixel, then make a 4-channel image opaque when
      set_all_alpha survived. */
  function PostProcess(img: Image, decode: bool, m: Masks): (r: Image)
    requires Shaped(img)
    ensures Shaped(r) && r == img.(pixels := r.pixels)
    ensures forall x, y | 0 <= x < img.width && 0 <= y < img.height ::
      PixelColor(r, x, y) ==
        var c := Stored(Convert(PixelColor(img, x, y), decode, m), img.channels);
        if SetAllAlpha(ConvertImage(img, decode, m), decode) && img.channels == 4 then c.(a := 0xFF) else c
  {
    var converted := ConvertImage(img, decode, m);
    if SetAllAlpha(converted, decode) && img.channels == 4 then MakeOpaque(converted) else converted
  }

  /** After post-processing, a 4-channel image that did not take the mask path is
      fully opaque; on the mask path, alpha is either all forced to 0xFF or all
      as decoded. */
  lemma PostProcessAlpha(img: Image, decode: bool, m: Masks, x: int, y: int)
    requires Shaped(img) && 0 <= x < img.width && 0 <= y < img.height && img.channels == 4
    ensures !decode ==> PixelColor(PostProcess(img, decode, m), x, y).a == 0xFF
    ensures decode && !AllTransparent(ConvertImage(img, decode, m)) ==>
      PixelColor(PostProcess(img, decode, m), x, y).a == DecodeChannel(PixelColor(img, x, y), m.alpha)
  {
  }
}
