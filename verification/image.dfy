/** picasso_image: a byte buffer of `height` rows of `row_stride` bytes, each row
    holding `width` pixels of `channels` bytes. Allocation (as written and as
    intended), the foreach_pixel_image traversal and the nearest-neighbour
    picasso_copy. */
module Images {
  import opened Machine
  import opened Options
  import opened Colors

  datatype Image = Image(width: int, height: int, channels: int, rowStride: int, pixels: seq<u8>)

  /** The shape every allocated image has: positive size, 3 or 4 channels,
      unpadded rows, and one row of storage per line of the picture. */
  predicate Valid(img: Image) {
    Shaped(img) && img.width > 0 && img.height > 0
  }

  /** The same shape without the positivity: what picasso_load_bmp returns for a
      file whose width or height is zero. */
  predicate Shaped(img: Image) {
    && img.width >= 0 && img.height >= 0
    && (img.channels == 3 || img.channels == 4)
    && img.rowStride == img.channels * img.width
    && |img.pixels| == img.height * img.rowStride
  }

  /** A shaped image with any pixel storage at all is a valid one. */
  lemma ShapedNonEmpty(img: Image)
    requires Shaped(img) && |img.pixels| > 0
    ensures Valid(img)
  {
  }

  /** Byte offset of pixel (x, y), `y * row_stride + x * channels`. */
  function Offset(img: Image, x: int, y: int): int {
    y * img.rowStride + x * img.channels
  }

  /** Every pixel's bytes lie inside the buffer. */
  lemma OffsetInBounds(img: Image, x: int, y: int)
    requires Valid(img) && 0 <= x < img.width && 0 <= y < img.height
    ensures 0 <= Offset(img, x, y) && Offset(img, x, y) + img.channels <= |img.pixels|
  {
    MulMonotone(x + 1, img.width, img.channels);
    MulMonotone(y + 1, img.height, img.rowStride);
    MulMonotone(0, x, img.channels);
    MulMonotone(0, y, img.rowStride);
  }

  /** Byte k of pixel (x, y) can be told back from its offset alone, so distinct
      pixels never share a byte. */
  lemma OffsetDecode(img: Image, x: int, y: int, k: int)
    requires Valid(img) && 0 <= x < img.width && 0 <= y < img.height && 0 <= k < img.channels
    ensures (Offset(img, x, y) + k) / img.rowStride == y
    ensures (Offset(img, x, y) + k) % img.rowStride / img.channels == x
    ensures (Offset(img, x, y) + k) % img.rowStride % img.channels == k
  {
    var c, rs := img.channels, img.rowStride;
    MulMonotone(x + 1, img.width, c);
    MulMonotone(0, x, c);
    DivModUnique(y * rs + (x * c + k), rs, y, x * c + k);
    DivModUnique(x * c + k, c, x, k);
  }

  /** Every byte index of a valid image is byte k of some pixel (x, y). */
  lemma IndexDecode(img: Image, i: int)
    requires Valid(img) && 0 <= i < |img.pixels|
    ensures var y, x, k := i / img.rowStride, i % img.rowStride / img.channels, i % img.rowStride % img.channels;
      && 0 <= x < img.width && 0 <= y < img.height && 0 <= k < img.channels
      && Offset(img, x, y) + k == i
  {
    IndexCell(i, img.rowStride, img.height);
    var r := i % img.rowStride;
    assert img.rowStride == img.width * img.channels;
    IndexCell(r, img.channels, img.width);
  }

  /** Byte k of pixel (x, y). */
  function ByteAt(img: Image, x: int, y: int, k: int): u8
    requires Valid(img) && 0 <= x < img.width && 0 <= y < img.height && 0 <= k < img.channels
  {
    OffsetInBounds(img, x, y);
    img.pixels[Offset(img, x, y) + k]
  }

  /** The colour of pixel (x, y) as get_color reads it: alpha from the fourth
      byte of 4-channel images, opaque otherwise. */
  function PixelColor(img: Image, x: int, y: int): Color
    requires Valid(img) && 0 <= x < img.width && 0 <= y < img.height
  {
    OffsetInBounds(img, x, y);
    GetColor(img.pixels, Offset(img, x, y), img.channels)
  }

  /** picasso_alloc_image as intended: NULL for a non-positive size or a channel
      count other than 3 or 4; otherwise unpadded rows and a zeroed buffer of
      height * row_stride bytes. */
  function AllocImage(width: int, height: int, channels: int): (r: Option<Image>)
    ensures r.None? <==> width <= 0 || height <= 0 || (channels != 3 && channels != 4)
    ensures r.Some? ==>
      && Valid(r.value)
      && r.value.width == width && r.value.height == height && r.value.channels == channels
      && forall i | 0 <= i < |r.value.pixels| :: r.value.pixels[i] == 0
  {
    if width <= 0 || height <= 0 || (channels != 3 && channels != 4) then None
    else
      var stride := channels * width;
      Some(Image(width, height, channels, stride, seq(height * stride, _ => 0)))
  }

  /** picasso_alloc_image as written: the buffer is sized width * row_stride. */
  function AllocImageAsWritten(width: int, height: int, channels: int): (r: Option<Image>)
    ensures r.None? <==> width <= 0 || height <= 0 || (channels != 3 && channels != 4)
    ensures r.Some? ==>
      && r.value.rowStride == channels * width
      && |r.value.pixels| == width * r.value.rowStride
  {
    if width <= 0 || height <= 0 || (channels != 3 && channels != 4) then None
    else
      var stride := channels * width;
      Some(Image(width, height, channels, stride, seq(width * stride, _ => 0)))
  }

  /** Whenever the picture is taller than wide, the written allocation is short
      of the rows below `width`, so it is not a valid image; a 1-by-2 RGB picture
      gets 3 bytes where it needs 6. */
  lemma AllocAsWrittenTooSmall(width: int, height: int, channels: int)
    requires 0 < width < height && (channels == 3 || channels == 4)
    ensures var r := AllocImageAsWritten(width, height, channels);
      r.Some? && |r.value.pixels| < height * r.value.rowStride && !Valid(r.value)
  {
    var rs := channels * width;
    assert width * rs < height * rs by {
      MulMonotone(width + 1, height, rs);
    }
  }

  lemma AllocAsWrittenExample()
    ensures |AllocImageAsWritten(1, 2, 3).value.pixels| == 3
    ensures AllocImage(1, 2, 3).value.height * AllocImage(1, 2, 3).value.rowStride == 6
  {
  }

  /** foreach_pixel_image: the (x, y) pairs in the order the two nested loops
      visit them, rows outermost. */
  function Visits(width: nat, height: nat): (v: seq<(int, int)>)
  {
    if height == 0 then []
    else Visits(width, height - 1) + seq(width, x => (x, height - 1))
  }

  /** Visit number i is pixel (i % width, i / width): the traversal is row-major
      and visits width * height pixels. */
  lemma {:induction false} VisitsRowMajor(width: nat, height: nat)
    requires width > 0
    ensures |Visits(width, height)| == width * height
    ensures forall i | 0 <= i < |Visits(width, height)| :: Visits(width, height)[i] == (i % width, i / width)
  {
    if height > 0 {
      VisitsRowMajor(width, height - 1);
      var v := Visits(width, height);
      var prev := Visits(width, height - 1);
      assert |v| == width * (height - 1) + width;
      forall i | 0 <= i < |v|
        ensures v[i] == (i % width, i / width)
      {
        if i >= |prev| {
          var x := i - |prev|;
          DivModUnique(i, width, height - 1, x);
        }
      }
    }
  }

  /** Each in-range pixel is visited exactly once: at position y * width + x,
      and at no other. */
  lemma VisitsOnce(width: nat, height: nat, x: int, y: int, i: int)
    requires 0 <= x < width && 0 <= y < height
    requires 0 <= i < |Visits(width, height)|
    ensures Visits(width, height)[i] == (x, y) <==> i == y * width + x
  {
    VisitsRowMajor(width, height);
    GridIndex(x, y, width, height);
    IndexCell(i, width, height);
  }

  /** Source coordinate of nearest-neighbour scaling, `x * from / to`, which
      is never negative and stays below `from` for x in [0, to). */
  function Nearest(x: int, from: int, to: int): (n: int)
    requires 0 <= x < to && from >= 0
    ensures 0 <= n && (from > 0 ==> n < from)
  {
    NearestBound(x, from, to);
    x * from / to
  }

  lemma NearestBound(x: int, from: int, to: int)
    requires 0 <= x < to && from >= 0
    ensures 0 <= x * from / to && (from > 0 ==> x * from / to < from)
  {
    MulMonotone(0, x, from);
    var n := x * from;
    var q := n / to;
    assert q * to <= n;
    if from > 0 && q >= from {
      MulMonotone(from, q, to);
      MulMonotone(x + 1, to, from);
      assert false;
    }
  }

  /** Byte i of the destination of picasso_copy. */
  function CopiedByte(src: Image, dst: Image, i: int): u8
    requires Valid(src) && Valid(dst) && dst.channels <= src.channels && 0 <= i < |dst.pixels|
  {
    IndexDecode(dst, i);
    var y, x, k := i / dst.rowStride, i % dst.rowStride / dst.channels, i % dst.rowStride % dst.channels;
    ByteAt(src, Nearest(x, src.width, dst.width), Nearest(y, src.height, dst.height), k)
  }

  /** Byte k of destination pixel (x, y) comes from the nearest source pixel. */
  lemma CopiedByteAt(src: Image, dst: Image, x: int, y: int, k: int)
    requires Valid(src) && Valid(dst) && dst.channels <= src.channels
    requires 0 <= x < dst.width && 0 <= y < dst.height && 0 <= k < dst.channels
    ensures 0 <= Offset(dst, x, y) + k < |dst.pixels|
    ensures CopiedByte(src, dst, Offset(dst, x, y) + k)
         == ByteAt(src, Nearest(x, src.width, dst.width), Nearest(y, src.height, dst.height), k)
  {
    OffsetInBounds(dst, x, y);
    OffsetDecode(dst, x, y, k);
  }

  /** picasso_copy: each destination pixel takes the first dst.channels bytes of
      the source pixel `(x * src.width / dst.width, y * src.height / dst.height)`;
      nothing but the destination's bytes changes. */
  function Copy(src: Image, dst: Image): (r: Image)
    requires Valid(src) && Valid(dst) && dst.channels <= src.channels
    ensures Valid(r) && r == dst.(pixels := r.pixels)
    ensures forall x, y, k | 0 <= x < dst.width && 0 <= y < dst.height && 0 <= k < dst.channels ::
      ByteAt(r, x, y, k) == ByteAt(src, Nearest(x, src.width, dst.width), Nearest(y, src.height, dst.height), k)
  {
    var bytes := seq(|dst.pixels|, i requires 0 <= i < |dst.pixels| => CopiedByte(src, dst, i));
    var r := dst.(pixels := bytes);
    forall x, y, k | 0 <= x < dst.width && 0 <= y < dst.height && 0 <= k < dst.channels
      ensures ByteAt(r, x, y, k) == ByteAt(src, Nearest(x, src.width, dst.width), Nearest(y, src.height, dst.height), k)
    {
      CopiedByteAt(src, dst, x, y, k);
    }
    r
  }

  /** Copying between images of the same shape reproduces the source. */
  lemma CopySameShape(src: Image, dst: Image)
    requires Valid(src) && Valid(dst)
    requires src.width == dst.width && src.height == dst.height && src.channels == dst.channels
    ensures Copy(src, dst).pixels == src.pixels
  {
    var r := Copy(src, dst);
    forall i | 0 <= i < |src.pixels|
      ensures r.pixels[i] == src.pixels[i]
    {
      IndexDecode(dst, i);
      var y, x, k := i / dst.rowStride, i % dst.rowStride / dst.channels, i % dst.rowStride % dst.channels;
      assert ByteAt(r, x, y, k) == ByteAt(src, Nearest(x, src.width, dst.width), Nearest(y, src.height, dst.height), k);
      NearestSame(x, dst.width);
      NearestSame(y, dst.height);
    }
  }

  lemma NearestSame(x: int, n: int)
    requires 0 <= x < n
    ensures Nearest(x, n, n) == x
  {
    DivModUnique(x * n, n, x, 0);
  }
}
