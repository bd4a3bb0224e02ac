/** picasso_backbuffer: a width-by-height array of packed pixels, row-major with
    pitch == width. Creation, clearing, conversion to an image, and the two
    blits from an image. */
module Backbuffers {
  import opened Machine
  import opened Options
  import opened Colors
  import opened Rects
  import Images

  datatype Backbuffer = Backbuffer(width: int, height: int, pitch: int, pixels: seq<u32>)

  predicate Valid(bf: Backbuffer) {
    bf.width > 0 && bf.height > 0 && bf.pitch == bf.width && |bf.pixels| == bf.width * bf.height
  }

  predicate Inside(bf: Backbuffer, x: int, y: int) {
    InBuffer(bf.width, bf.height, x, y)
  }

  /** The pixel at (x, y), stored at `y * width + x`. */
  function Pixel(bf: Backbuffer, x: int, y: int): u32
    requires Valid(bf) && Inside(bf, x, y)
  {
    GridIndex(x, y, bf.width, bf.height);
    bf.pixels[y * bf.width + x]
  }

  /** Writing one pixel changes that pixel and no other. */
  function SetPixel(bf: Backbuffer, x: int, y: int, p: u32): (r: Backbuffer)
    requires Valid(bf) && Inside(bf, x, y)
    ensures Valid(r) && r == bf.(pixels := r.pixels)
    ensures forall i, j | Inside(bf, i, j) :: Pixel(r, i, j) == if i == x && j == y then p else Pixel(bf, i, j)
  {
    GridIndex(x, y, bf.width, bf.height);
    var r := bf.(pixels := bf.pixels[y * bf.width + x := p]);
    forall i, j | Inside(bf, i, j)
      ensures Pixel(r, i, j) == if i == x && j == y then p else Pixel(bf, i, j)
    {
      GridIndex(i, j, bf.width, bf.height);
    }
    r
  }

  /** Applies `f` to every pixel with its coordinates: the common shape of the
      per-pixel drawing loops, which touch each pixel of their region once. */
  function MapPixels(bf: Backbuffer, f: (int, int, u32) -> u32): (r: Backbuffer)
    requires Valid(bf)
    ensures Valid(r) && r == bf.(pixels := r.pixels)
    ensures forall x, y | Inside(bf, x, y) :: Pixel(r, x, y) == f(x, y, Pixel(bf, x, y))
  {
    var r := bf.(pixels := seq(|bf.pixels|, i requires 0 <= i < |bf.pixels| => f(i % bf.width, i / bf.width, bf.pixels[i])));
    forall x, y | Inside(bf, x, y)
      ensures Pixel(r, x, y) == f(x, y, Pixel(bf, x, y))
    {
      GridIndex(x, y, bf.width, bf.height);
    }
    r
  }

  /** picasso_create_backbuffer: NULL for a non-positive size; otherwise
      pitch == width and every pixel zero. */
  function CreateBackbuffer(width: int, height: int): (r: Option<Backbuffer>)
    ensures r.None? <==> width <= 0 || height <= 0
    ensures r.Some? ==>
      && Valid(r.value) && r.value.width == width && r.value.height == height
      && forall x, y | Inside(r.value, x, y) :: Pixel(r.value, x, y) == 0
  {
    if width <= 0 || height <= 0 then None
    else
      var bf := Backbuffer(width, height, width, seq(width * height, _ => 0));
      Uniform(bf, 0);
      Some(bf)
  }

  /** A buffer whose stored words all equal `v` has `v` at every pixel. */
  lemma Uniform(bf: Backbuffer, v: u32)
    requires Valid(bf) && forall i | 0 <= i < |bf.pixels| :: bf.pixels[i] == v
    ensures forall x, y | Inside(bf, x, y) :: Pixel(bf, x, y) == v
  {
    forall x, y | Inside(bf, x, y)
      ensures Pixel(bf, x, y) == v
    {
      GridIndex(x, y, bf.width, bf.height);
    }
  }

  /** picasso_clear_backbuffer: every pixel becomes CLEAR_BACKGROUND, so the
      previous contents are forgotten. */
  function Clear(bf: Backbuffer): (r: Backbuffer)
    requires Valid(bf)
    ensures Valid(r) && r == bf.(pixels := r.pixels)
    ensures forall x, y | Inside(bf, x, y) :: Pixel(r, x, y) == ColorToU32(ClearBackground)
  {
    var r := bf.(pixels := seq(|bf.pixels|, _ => ColorToU32(ClearBackground)));
    Uniform(r, ColorToU32(ClearBackground));
    r
  }

  /** picasso_image_from_backbuffer: a 4-channel image of the same size whose
      pixel (x, y) holds the bytes r, g, b, a of the packed pixel (x, y). */
  function ImageFromBackbuffer(bf: Backbuffer): (img: Images.Image)
    requires Valid(bf)
    ensures Images.Valid(img) && img.width == bf.width && img.height == bf.height && img.channels == 4
    ensures forall x, y | Inside(bf, x, y) :: Images.PixelColor(img, x, y) == U32ToColor(Pixel(bf, x, y))
  {
    var n := bf.width * bf.height;
    var img := Images.Image(bf.width, bf.height, 4, 4 * bf.width,
      seq(4 * n, i requires 0 <= i < 4 * n => PixelByte(bf.pixels[i / 4], i % 4)));
    assert |img.pixels| == bf.height * (4 * bf.width);
    forall x, y | Inside(bf, x, y)
      ensures Images.PixelColor(img, x, y) == U32ToColor(Pixel(bf, x, y))
    {
      ImageBytesOfPixel(bf, img, x, y);
    }
    img
  }

  lemma ImageBytesOfPixel(bf: Backbuffer, img: Images.Image, x: int, y: int)
    requires Valid(bf) && Inside(bf, x, y)
    requires img.width == bf.width && img.height == bf.height && img.channels == 4 && img.rowStride == 4 * bf.width
    requires |img.pixels| == 4 * (bf.width * bf.height)
    requires forall i | 0 <= i < |img.pixels| :: img.pixels[i] == PixelByte(bf.pixels[i / 4], i % 4)
    ensures 0 <= Images.Offset(img, x, y) && Images.Offset(img, x, y) + 4 <= |img.pixels|
    ensures GetColor(img.pixels, Images.Offset(img, x, y), 4) == U32ToColor(Pixel(bf, x, y))
  {
    var j := y * bf.width + x;
    GridIndex(x, y, bf.width, bf.height);
    var o := Images.Offset(img, x, y);
    assert o == 4 * j;
    forall k | 0 <= k < 4
      ensures img.pixels[o + k] == PixelByte(Pixel(bf, x, y), k)
    {
      DivModUnique(o + k, 4, j, k);
    }
  }

  /** The packed pixel picasso_blit_bitmap reads at (x, y): get_color then
      color_to_u32. */
  function ImagePixel(img: Images.Image, x: int, y: int): u32
    requires Images.Valid(img) && 0 <= x < img.width && 0 <= y < img.height
  {
    ColorToU32(Images.PixelColor(img, x, y))
  }

  /** Reading the image of a backbuffer back gives the backbuffer's pixels. */
  lemma ImageFromBackbufferRoundTrip(bf: Backbuffer, x: int, y: int)
    requires Valid(bf) && Inside(bf, x, y)
    ensures ImagePixel(ImageFromBackbuffer(bf), x, y) == Pixel(bf, x, y)
  {
    PackUnpack(Pixel(bf, x, y));
  }

  /** Whether source pixel (sx, sy) has been visited by the time the traversal
      is at column `col` of row `row`. */
  predicate Visited(sx: int, sy: int, width: int, row: int, col: int) {
    0 <= sx < width && 0 <= sy && (sy < row || (sy == row && sx < col))
  }

  /** picasso_blit_bitmap: walks the image with foreach_pixel_image and blends
      source pixel (x, y), without any channel swap, onto destination pixel
      (x + offset_x, y + offset_y) when that lies inside the buffer. Every
      destination pixel covered by the shifted image is blended once with its
      source pixel; all others are unchanged. */
  method BlitBitmap(dst: Backbuffer, src: Images.Image, offsetX: int, offsetY: int) returns (r: Backbuffer)
    requires Valid(dst) && Images.Valid(src)
    ensures Valid(r) && r == dst.(pixels := r.pixels)
    ensures forall x, y | Inside(dst, x, y) ::
      Pixel(r, x, y) ==
        if 0 <= x - offsetX < src.width && 0 <= y - offsetY < src.height
        then Blend(Pixel(dst, x, y), ImagePixel(src, x - offsetX, y - offsetY))
        else Pixel(dst, x, y)
  {
    r := dst;
    var y := 0;
    while y < src.height
      invariant 0 <= y <= src.height
      invariant Valid(r) && r == dst.(pixels := r.pixels)
      invariant forall i, j | Inside(dst, i, j) ::
        Pixel(r, i, j) ==
          if Visited(i - offsetX, j - offsetY, src.width, y, 0) && j - offsetY < src.height
          then Blend(Pixel(dst, i, j), ImagePixel(src, i - offsetX, j - offsetY))
          else Pixel(dst, i, j)
    {
      var x := 0;
      while x < src.width
        invariant 0 <= x <= src.width
        invariant Valid(r) && r == dst.(pixels := r.pixels)
        invariant forall i, j | Inside(dst, i, j) ::
          Pixel(r, i, j) ==
            if Visited(i - offsetX, j - offsetY, src.width, y, x) && j - offsetY < src.height
            then Blend(Pixel(dst, i, j), ImagePixel(src, i - offsetX, j - offsetY))
            else Pixel(dst, i, j)
      {
        var dx, dy := x + offsetX, y + offsetY;
        if 0 <= dx < dst.width && 0 <= dy < dst.height {
          r := SetPixel(r, dx, dy, Blend(Pixel(r, dx, dy), ImagePixel(src, x, y)));
        }
        x := x + 1;
      }
      y := y + 1;
    }
  }

  /** The source coordinate `src.x + rel * src.width / dst.width` of
      picasso_blit_rect, for a normalised source extent and a position `rel`
      inside a normalised, non-empty destination extent. */
  function ScaleCoord(rel: int, srcOrigin: int, srcExtent: int, dstExtent: int): (s: int)
    requires 0 <= rel < dstExtent && srcExtent >= 0
    ensures srcOrigin <= s && (srcExtent > 0 ==> s < srcOrigin + srcExtent)
  {
    srcOrigin + Images.Nearest(rel, srcExtent, dstExtent)
  }

  /** The packed pixel picasso_blit_rect reads: get_color, with red and blue
      exchanged for 3-channel sources. */
  function BlitRectPixel(img: Images.Image, x: int, y: int): u32
    requires Images.Valid(img) && 0 <= x < img.width && 0 <= y < img.height
  {
    var c := Images.PixelColor(img, x, y);
    ColorToU32(if img.channels == 3 then c.(r := c.b, b := c.r) else c)
  }

  /** What picasso_blit_rect does to pixel (x, y) of the destination, given both
      rectangles already normalised. */
  function BlitRectAt(src: Images.Image, s: Rect, d: Rect, x: int, y: int, p: u32): u32
    requires Images.Valid(src) && Normalized(s) && Normalized(d)
  {
    if !Covers(d, x, y) then p
    else
      var sx := ScaleCoord(x - d.x, s.x, s.width, d.width);
      var sy := ScaleCoord(y - d.y, s.y, s.height, d.height);
      if 0 <= sx < src.width && 0 <= sy < src.height then Blend(p, BlitRectPixel(src, sx, sy)) else p
  }

  /** picasso_blit_rect: both rectangles are normalised and the destination one
      clipped; every destination pixel inside it whose scaled source coordinate
      falls inside the image is blended with that source pixel, and nothing
      else changes. */
  function BlitRect(dst: Backbuffer, src: Images.Image, srcRect: Rect, dstRect: Rect): (r: Backbuffer)
    requires Valid(dst) && Images.Valid(src)
    ensures Valid(r) && r == dst.(pixels := r.pixels)
    ensures forall x, y | Inside(dst, x, y) && !Spans(dstRect, x, y) :: Pixel(r, x, y) == Pixel(dst, x, y)
    ensures forall x, y | Inside(dst, x, y) && Spans(dstRect, x, y) ::
      var s, d := Normalize(srcRect), Normalize(dstRect);
      var sx := s.x + (x - d.x) * s.width / d.width;
      var sy := s.y + (y - d.y) * s.height / d.height;
      Pixel(r, x, y) ==
        if 0 <= sx < src.width && 0 <= sy < src.height
        then Blend(Pixel(dst, x, y), BlitRectPixel(src, sx, sy))
        else Pixel(dst, x, y)
  {
    var s, d := Normalize(srcRect), Normalize(dstRect);
    match Clip(dst.width, dst.height, d)
    case None => dst
    case Some(b) =>
      MapPixels(dst, (x, y, p) => if b.Contains(x, y) then BlitRectAt(src, s, d, x, y, p) else p)
  }

  /** When the two rectangles have the same size the blit is a translation:
      destination (x, y) reads source (x - dst.x + src.x, y - dst.y + src.y). */
  lemma BlitRectUnscaled(src: Images.Image, s: Rect, d: Rect, x: int, y: int)
    requires Normalized(s) && Normalized(d) && s.width == d.width && s.height == d.height
    requires Covers(d, x, y)
    ensures ScaleCoord(x - d.x, s.x, s.width, d.width) == x - d.x + s.x
    ensures ScaleCoord(y - d.y, s.y, s.height, d.height) == y - d.y + s.y
  {
    Images.NearestSame(x - d.x, d.width);
    Images.NearestSame(y - d.y, d.height);
  }
}
