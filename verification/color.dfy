/** Colours and packed pixels (lib/picasso.h): the canonical packing
    r | g<<8 | b<<16 | a<<24, its inverse, the per-byte readers, SET_ALPHA,
    and the "over" blend of src/picasso.c. */
module Colors {
  import opened Machine

  datatype Color = Color(r: u8, g: u8, b: u8, a: u8)

  /** The fixed palette entries the library itself uses. */
  const DarkGray := Color(0x20, 0x20, 0x20, 0xFF)
  /** CLEAR_BACKGROUND is the dark-mode gray. */
  const ClearBackground := DarkGray

  /** color_to_u32: red in the low byte, alpha in the high byte. */
  function ColorToU32(c: Color): (p: u32)
    ensures PixelByte(p, 0) == c.r && PixelByte(p, 1) == c.g
    ensures PixelByte(p, 2) == c.b && PixelByte(p, 3) == c.a
  {
    var q2 := c.a as int * 0x100 + c.b as int;
    var q1 := q2 * 0x100 + c.g as int;
    var p := q1 * 0x100 + c.r as int;
    DivModUnique(p, 0x100, q1, c.r);
    DivModUnique(q1, 0x100, q2, c.g);
    DivModUnique(q2, 0x100, c.a, c.b);
    p
  }

  /** Byte k (0 = lowest) of a packed pixel. */
  function PixelByte(p: u32, k: nat): (r: u8)
    requires k < 4
  {
    if k == 0 then p % 0x100
    else if k == 1 then p / 0x100 % 0x100
    else if k == 2 then p / 0x100 / 0x100 % 0x100
    else p / 0x100 / 0x100 / 0x100
  }

  /** u32_to_color: each channel is the byte at the packing's position. */
  function U32ToColor(p: u32): (c: Color)
    ensures c.r == PixelByte(p, 0) && c.g == PixelByte(p, 1)
    ensures c.b == PixelByte(p, 2) && c.a == PixelByte(p, 3)
  {
    Color(PixelByte(p, 0), PixelByte(p, 1), PixelByte(p, 2), PixelByte(p, 3))
  }

  /** Unpacking a packed colour gives the colour back. */
  lemma UnpackPack(c: Color)
    ensures U32ToColor(ColorToU32(c)) == c
  {
  }

  /** Packing an unpacked pixel gives the pixel back. */
  lemma PackUnpack(p: u32)
    ensures ColorToU32(U32ToColor(p)) == p
  {
    var c := U32ToColor(p);
    var q1 := p / 0x100;
    var q2 := q1 / 0x100;
    var q3 := q2 / 0x100;
    assert p == q1 * 0x100 + c.r;
    assert q1 == q2 * 0x100 + c.g;
    assert q2 == q3 * 0x100 + c.b;
    assert q3 == c.a;
  }

  /** Two packed pixels are equal exactly when their colours are. */
  lemma PackInjective(c: Color, d: Color)
    ensures ColorToU32(c) == ColorToU32(d) <==> c == d
  {
    if ColorToU32(c) == ColorToU32(d) {
      UnpackPack(c);
      UnpackPack(d);
    }
  }

  /** get_color: r, g, b from the first three bytes of the pixel at `off`;
      alpha from the fourth byte for 4-channel images, opaque otherwise. */
  function GetColor(bytes: seq<u8>, off: nat, channels: int): (c: Color)
    requires off + 3 <= |bytes|
    requires channels == 4 ==> off + 4 <= |bytes|
    ensures c.r == bytes[off] && c.g == bytes[off + 1] && c.b == bytes[off + 2]
    ensures c.a == if channels == 4 then bytes[off + 3] else 0xFF
  {
    Color(bytes[off], bytes[off + 1], bytes[off + 2], if channels == 4 then bytes[off + 3] else 0xFF)
  }

  /** unpack_rbga reads the channels in packing order. */
  function UnpackRgba(p: u32): (c: Color)
    ensures c == U32ToColor(p)
  {
    DivDiv(p, 0x100, 0x100);
    DivDiv(p, 0x1_0000, 0x100);
    Color(p % 0x100, (p / 0x100) % 0x100, (p / 0x1_0000) % 0x100, (p / 0x100_0000) % 0x100)
  }

  /** unpack_bgra reads the same bytes with red and blue exchanged. */
  function UnpackBgra(p: u32): (c: Color)
    ensures c == U32ToColor(p).(r := U32ToColor(p).b, b := U32ToColor(p).r)
  {
    DivDiv(p, 0x100, 0x100);
    DivDiv(p, 0x1_0000, 0x100);
    Color((p / 0x1_0000) % 0x100, (p / 0x100) % 0x100, p % 0x100, (p / 0x100_0000) % 0x100)
  }

  /** SET_ALPHA(c, percent): keeps the colour, alpha = (percent * 255) / 100 truncated
      by C division and then cast to an 8-bit value. */
  function SetAlpha(c: Color, percent: int): (r: Color)
    ensures r.r == c.r && r.g == c.g && r.b == c.b
    ensures percent == 0 ==> r.a == 0
    ensures percent == 100 ==> r.a == 0xFF
    ensures 0 <= percent <= 100 ==> r.a as int == percent * 255 / 100
  {
    c.(a := CDiv(percent * 255, 100) % 0x100)
  }

  /** On percentages, SET_ALPHA is monotone. */
  lemma SetAlphaMonotone(c: Color, p: int, q: int)
    requires 0 <= p <= q <= 100
    ensures SetAlpha(c, p).a <= SetAlpha(c, q).a
  {
  }

  /** One channel of the "over" blend: (s * a + d * (255 - a)) / 255, truncated. */
  function Mix(s: u8, d: u8, a: u8): (r: u8)
    ensures a == 0xFF ==> r == s
    ensures a == 0 ==> r == d
  {
    MixNumeratorBound(s, d, a);
    (s as int * a as int + d as int * (255 - a as int)) / 255
  }

  lemma MixNumeratorBound(s: u8, d: u8, a: u8)
    ensures 0 <= s as int * a as int + d as int * (255 - a as int) <= 255 * 255
  {
    var x, y := s as int * a as int, d as int * (255 - a as int);
    MulMonotone(0, s, a);
    MulMonotone(0, d, 255 - a as int);
    MulMonotone(s, 255, a);
    MulMonotone(d, 255, 255 - a as int);
    assert 0 <= x <= 255 * a as int;
    assert 0 <= y <= 255 * (255 - a as int);
  }

  /** A blended channel lies between the source and destination channels. */
  lemma MixBetween(s: u8, d: u8, a: u8)
    ensures Min(s, d) <= Mix(s, d, a) <= Max(s, d)
  {
    var lo, hi := Min(s, d), Max(s, d);
    var n := s as int * a as int + d as int * (255 - a as int);
    assert lo * 255 <= n <= hi * 255 by {
      MulMonotone(lo, s, a);
      MulMonotone(s, hi, a);
      MulMonotone(lo, d, 255 - a as int);
      MulMonotone(d, hi, 255 - a as int);
      assert lo * 255 == lo * a as int + lo * (255 - a as int);
      assert hi * 255 == hi * a as int + hi * (255 - a as int);
    }
    DivModUnique(lo * 255, 255, lo, 0);
    DivModUnique(hi * 255, 255, hi, 0);
  }

  /** At alpha 128 a blended channel is within one of the truncated midpoint. */
  lemma MixHalf(s: u8, d: u8)
    ensures Abs(Mix(s, d, 128) - (s as int + d as int) / 2) <= 1
  {
    var n := s as int * 128 + d as int * 127;
    var m := Mix(s, d, 128);
    var h := (s as int + d as int) / 2;
    assert 2 * n == 255 * (s as int + d as int) + (s as int - d as int);
    assert 255 * m <= n < 255 * m + 255;
    assert 2 * h <= s as int + d as int <= 2 * h + 1;
  }

  /** The alpha byte of a packed pixel, `(p >> 24) & 0xFF`. */
  function Alpha(p: u32): u8
  {
    PixelByte(p, 3)
  }

  /** picasso__blend_pixel: an opaque source replaces the destination, a fully
      transparent one leaves it, and otherwise every colour channel is mixed
      and the result is written fully opaque. */
  function Blend(dst: u32, src: u32): (r: u32)
    ensures Alpha(src) == 0xFF ==> r == src
    ensures Alpha(src) == 0 ==> r == dst
    ensures 0 < Alpha(src) < 0xFF ==>
      var s, d, a := U32ToColor(src), U32ToColor(dst), Alpha(src);
      U32ToColor(r) == Color(Mix(s.r, d.r, a), Mix(s.g, d.g, a), Mix(s.b, d.b, a), 0xFF)
  {
    var sa := Alpha(src);
    if sa == 0xFF then src
    else if sa == 0 then dst
    else
      var s, d := U32ToColor(src), U32ToColor(dst);
      var c := Color(Mix(s.r, d.r, sa), Mix(s.g, d.g, sa), Mix(s.b, d.b, sa), 0xFF);
      UnpackPack(c);
      ColorToU32(c)
  }

  /** A blend with any visible source is opaque; a transparent source keeps the
      destination's alpha. */
  lemma BlendAlpha(dst: u32, src: u32)
    ensures Alpha(src) != 0 ==> Alpha(Blend(dst, src)) == 0xFF
    ensures Alpha(src) == 0 ==> Alpha(Blend(dst, src)) == Alpha(dst)
  {
    var sa := Alpha(src);
    if 0 < sa < 0xFF {
      var r := Blend(dst, src);
      PackUnpack(r);
      assert U32ToColor(r).a == 0xFF;
    }
  }

  /** Each mixed channel of a translucent blend lies between source and destination. */
  lemma BlendBetween(dst: u32, src: u32)
    requires 0 < Alpha(src) < 0xFF
    ensures var s, d, c := U32ToColor(src), U32ToColor(dst), U32ToColor(Blend(dst, src));
      && Min(s.r, d.r) <= c.r <= Max(s.r, d.r)
      && Min(s.g, d.g) <= c.g <= Max(s.g, d.g)
      && Min(s.b, d.b) <= c.b <= Max(s.b, d.b)
  {
    var s, d, a := U32ToColor(src), U32ToColor(dst), Alpha(src);
    MixBetween(s.r, d.r, a);
    MixBetween(s.g, d.g, a);
    MixBetween(s.b, d.b, a);
  }
}
