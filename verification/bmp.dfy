/** picasso_load_bmp (src/bmp.c:362-447) over the file's bytes: validate, parse
    the header, check the size limit, read the rows into place, then
    post-process the pixels. */
module Bmp {
  import opened Machine
  import opened Options
  import opened LittleEndian
  import opened Colors
  import opened BmpHeader
  import opened BmpRows
  import opened BmpPixels
  import opened Images

  /** A header as ParseHeader produces it, with all its row data in the file. */
  predicate RowsFit(f: seq<u8>, h: Header) {
    && h.dims.width >= 0 && h.dims.height >= 0
    && (h.channels == 3 || h.channels == 4)
    && h.rowStride == h.dims.width * h.channels
    && 0 <= h.rowStride <= h.rowSize
    && h.dataStart + h.dims.height * h.rowSize <= |f|
  }

  /** The 4-channel BI_BITFIELDS test that chooses the mask decoder; every other
      pixel, BI_ALPHABITFIELDS included, only has red and blue exchanged. */
  predicate DecodePath(h: Header) {
    h.compression == BiBitfields && h.channels == 4
  }

  /** The image after the row loop and before post-processing. */
  function RawImage(f: seq<u8>, h: Header): (img: Image)
    requires RowsFit(f, h)
    ensures Shaped(img)
    ensures img.width == h.dims.width && img.height == h.dims.height && img.channels == h.channels
    ensures img.rowStride == h.rowStride
  {
    Image(h.dims.width, h.dims.height, h.channels, h.rowStride,
          PlaceRows(f, h.dataStart, h.dims.height, h.rowSize, h.rowStride, h.dims.flipped))
  }

  /** The file position of pixel (x, y)'s bytes: row SourceRow(y) of the data,
      x * channels bytes in. */
  function FileOffset(h: Header, x: int, y: int): int {
    h.dataStart + SourceRow(y, h.dims.height, h.dims.flipped) * h.rowSize + x * h.channels
  }

  lemma FileOffsetInside(f: seq<u8>, h: Header, x: int, y: int, k: int)
    requires RowsFit(f, h) && 0 <= x < h.dims.width && 0 <= y < h.dims.height && 0 <= k < h.channels
    ensures 0 <= x * h.channels + k < h.rowStride
    ensures 0 <= FileOffset(h, x, y) + k < |f|
    ensures f[FileOffset(h, x, y) + k]
         == RowByte(f[h.dataStart..], h.rowSize, SourceRow(y, h.dims.height, h.dims.flipped), x * h.channels + k)
  {
    var s := SourceRow(y, h.dims.height, h.dims.flipped);
    OffsetArith(s, h.dims.height, h.rowSize, x, h.dims.width, h.channels, k);
    var j := x * h.channels + k;
    var tail := f[h.dataStart..];
    assert |tail| >= h.dims.height * h.rowSize;
    assert RowByte(tail, h.rowSize, s, j) == tail[s * h.rowSize + j];
  }

  lemma OffsetArith(s: int, height: int, rowSize: int, x: int, width: int, c: int, k: int)
    requires 0 <= s < height && 0 <= x < width && 0 <= k < c && width * c <= rowSize
    ensures 0 <= x * c + k < width * c
    ensures 0 <= s * rowSize && s * rowSize + rowSize <= height * rowSize
  {
    MulMonotone(x + 1, width, c);
    MulMonotone(0, x, c);
    MulMonotone(s + 1, height, rowSize);
    MulMonotone(0, s, rowSize);
  }

  /** The colour of the on-disk bytes that land in pixel (x, y). */
  function FilePixel(f: seq<u8>, h: Header, x: int, y: int): Color
    requires RowsFit(f, h) && 0 <= x < h.dims.width && 0 <= y < h.dims.height
  {
    FileOffsetInside(f, h, x, y, 0);
    FileOffsetInside(f, h, x, y, h.channels - 1);
    GetColor(f, FileOffset(h, x, y), h.channels)
  }

  /** Pixel (x, y) after the row loop holds the file bytes FileOffset points at. */
  lemma RawPixel(f: seq<u8>, h: Header, x: int, y: int)
    requires RowsFit(f, h) && 0 <= x < h.dims.width && 0 <= y < h.dims.height
    ensures Valid(RawImage(f, h))
    ensures PixelColor(RawImage(f, h), x, y) == FilePixel(f, h, x, y)
  {
    var img := RawImage(f, h);
    OffsetInBounds(img, x, y);
    RawByte(f, h, x, y, 0);
    RawByte(f, h, x, y, 1);
    RawByte(f, h, x, y, 2);
    if h.channels == 4 {
      RawByte(f, h, x, y, 3);
    }
  }

  lemma RawByte(f: seq<u8>, h: Header, x: int, y: int, k: int)
    requires RowsFit(f, h) && 0 <= x < h.dims.width && 0 <= y < h.dims.height && 0 <= k < h.channels
    ensures Valid(RawImage(f, h)) && 0 <= Offset(RawImage(f, h), x, y) + k < |RawImage(f, h).pixels|
    ensures 0 <= FileOffset(h, x, y) + k < |f|
    ensures RawImage(f, h).pixels[Offset(RawImage(f, h), x, y) + k] == f[FileOffset(h, x, y) + k]
  {
    var img := RawImage(f, h);
    OffsetInBounds(img, x, y);
    FileOffsetInside(f, h, x, y, k);
    assert Offset(img, x, y) + k == y * h.rowStride + (x * h.channels + k);
  }

  /** The whole load succeeds: a valid file of a supported kind, within the size
      limit, with every padded row present. */
  predicate Loads(f: seq<u8>)
    requires Supported(f)
  {
    && Validate(f).Some?
    && WithinLimits(Dimensions(f, Validate(f).value))
    && RowsFit(f, ParseHeader(f, Validate(f).value))
  }

  /** The header a successful load works from. */
  function LoadedHeader(f: seq<u8>): (h: Header)
    requires Supported(f) && Validate(f).Some? && WithinLimits(Dimensions(f, Validate(f).value))
    ensures h.rowStride == h.dims.width * h.channels && 0 <= h.rowStride <= h.rowSize
    ensures h.dims.width >= 0 && h.dims.height >= 0 && (h.channels == 3 || h.channels == 4)
  {
    ParseHeader(f, Validate(f).value)
  }

  /** picasso_load_bmp: None on a bad magic, a truncated header, an oversized
      picture or a short row; otherwise the rows in place, post-processed. */
  function Load(f: seq<u8>): (r: Option<Image>)
    requires Supported(f)
    ensures r.Some? <==> Loads(f)
    ensures r.Some? ==>
      && Shaped(r.value)
      && r.value.width == LoadedHeader(f).dims.width && r.value.height == LoadedHeader(f).dims.height
      && r.value.channels == LoadedHeader(f).channels
  {
    match Validate(f)
    case None => None
    case Some(dib) =>
      if !WithinLimits(Dimensions(f, dib)) then None
      else
        var h := ParseHeader(f, dib);
        if h.dataStart + h.dims.height * h.rowSize > |f| then None
        else Some(PostProcess(RawImage(f, h), DecodePath(h), h.masks))
  }

  /** Whether the second pass forces every alpha byte to 0xFF. */
  predicate ForcedOpaque(f: seq<u8>)
    requires Supported(f) && Loads(f)
  {
    var h := LoadedHeader(f);
    SetAllAlpha(ConvertImage(RawImage(f, h), DecodePath(h), h.masks), DecodePath(h)) && h.channels == 4
  }

  /** Each loaded pixel is its on-disk colour, decoded through the masks or with
      red and blue exchanged, then made opaque when the second pass runs. */
  lemma LoadPixel(f: seq<u8>, x: int, y: int)
    requires Supported(f) && Loads(f)
    requires 0 <= x < LoadedHeader(f).dims.width && 0 <= y < LoadedHeader(f).dims.height
    ensures Valid(Load(f).value)
    ensures var h := LoadedHeader(f);
      var c := Stored(Convert(FilePixel(f, h, x, y), DecodePath(h), h.masks), h.channels);
      PixelColor(Load(f).value, x, y) == if ForcedOpaque(f) then c.(a := 0xFF) else c
  {
    RawPixel(f, LoadedHeader(f), x, y);
  }

  /** A 4-channel picture loaded without the mask decoder is opaque everywhere. */
  lemma LoadOpaque(f: seq<u8>, x: int, y: int)
    requires Supported(f) && Loads(f)
    requires LoadedHeader(f).channels == 4 && !DecodePath(LoadedHeader(f))
    requires 0 <= x < LoadedHeader(f).dims.width && 0 <= y < LoadedHeader(f).dims.height
    ensures Valid(Load(f).value) && PixelColor(Load(f).value, x, y).a == 0xFF
  {
    LoadPixel(f, x, y);
  }

  /** picasso_load_bmp step by step: the same checks in the same order, the row
      loop of ReadRows and the set_all_alpha scan of ScanAlpha. */
  method LoadBmp(f: seq<u8>) returns (r: Option<Image>)
    requires Supported(f)
    ensures r == Load(f)
  {
    var v := Validate(f);
    if v.None? {
      return None;
    }
    var dib := v.value;
    var dims := Dimensions(f, dib);
    if dims.width > MaxDim || dims.height > MaxDim {
      return None;
    }
    var h := ParseHeader(f, dib);
    var rows := ReadRows(f, h.dataStart, dims.height, h.rowSize, h.rowStride, dims.flipped);
    if rows.None? {
      return None;
    }
    var img := Image(dims.width, dims.height, h.channels, h.rowStride, rows.value);
    var decode := h.compression == BiBitfields && h.channels == 4;
    var converted := ConvertImage(img, decode, h.masks);
    var setAll := ScanAlpha(converted, decode);
    if setAll && img.channels == 4 {
      converted := MakeOpaque(converted);
    }
    return Some(converted);
  }
}
