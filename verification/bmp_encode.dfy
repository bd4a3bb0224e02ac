/** A reference writer for the files picasso_load_bmp reads most often: a
    BITMAPINFOHEADER, 24 bits per pixel, BI_RGB, rows stored bottom-up in
    blue-green-red order and padded to four bytes. Loading what it writes gives
    the picture back. */
module BmpEncode {
  import opened Machine
  import opened Options
  import opened LittleEndian
  import opened Colors
  import opened BmpHeader
  import opened BmpRows
  import opened BmpPixels
  import opened Bmp
  import opened Images

  /** The images the writer handles: RGB, within the loader's size limit. */
  predicate Encodable(img: Image) {
    Valid(img) && img.channels == 3 && img.width <= MaxDim && img.height <= MaxDim
  }

  /** Bytes per stored row. */
  function EncodedRowSize(img: Image): (s: nat)
    requires Encodable(img)
    ensures s == PadRow(img.rowStride) && img.rowStride <= s
  {
    PadRowValue(img.rowStride);
    PadRow(img.rowStride)
  }

  const DataOffset := FileHeaderSize + InfoHeaderSize

  /** Byte i of the 54-byte header: magic, file size, offset_data, header size,
      width, positive height (bottom-up), one plane, 24 bits, and zero for the
      compression (BI_RGB), size_image (left to the loader), resolution and
      palette fields. */
  function HeaderByte(img: Image, i: int): u8
    requires Encodable(img) && 0 <= i < DataOffset
  {
    var fileSize := (DataOffset + img.height * EncodedRowSize(img)) % 0x1_0000_0000;
    if i < 2 then EncodeU16(Magic)[i]
    else if i < 6 then EncodeU32(fileSize)[i - 2]
    else if i < 10 then 0
    else if i < 14 then EncodeU32(DataOffset)[i - 10]
    else if i < 18 then EncodeU32(InfoHeaderSize)[i - 14]
    else if i < 22 then EncodeU32(img.width)[i - 18]
    else if i < 26 then EncodeU32(img.height)[i - 22]
    else if i < 28 then EncodeU16(1)[i - 26]
    else if i < 30 then EncodeU16(24)[i - 28]
    else 0
  }

  /** Byte i of the pixel data: byte j of stored row r, which holds picture row
      height - 1 - r with each pixel's bytes reversed, then zero padding. */
  function DataByte(img: Image, i: int): u8
    requires Encodable(img) && 0 <= i < img.height * EncodedRowSize(img)
  {
    var rs := EncodedRowSize(img);
    IndexCell(i, rs, img.height);
    var r, j := i / rs, i % rs;
    if j < img.rowStride then
      assert j / 3 < img.width by {
        DivModUnique(img.rowStride, 3, img.width, 0);
      }
      ByteAt(img, j / 3, img.height - 1 - r, 2 - j % 3)
    else 0
  }

  function Encode(img: Image): (f: seq<u8>)
    requires Encodable(img)
    ensures |f| == DataOffset + img.height * EncodedRowSize(img)
  {
    MulMonotone(0, img.height, EncodedRowSize(img));
    seq(DataOffset, i requires 0 <= i < DataOffset => HeaderByte(img, i))
    + seq(img.height * EncodedRowSize(img), i requires 0 <= i < img.height * EncodedRowSize(img) => DataByte(img, i))
  }

  /** Four bytes equal to an encoded word read back as that word. */
  lemma ReadWord(f: seq<u8>, off: nat, v: u32)
    requires off + 4 <= |f| && forall k | 0 <= k < 4 :: f[off + k] == EncodeU32(v)[k]
    ensures ReadU32(f, off) == v
  {
    ReadEncodeU32(v);
    var e := EncodeU32(v);
    assert f[off] == e[0] && f[off + 1] == e[1] && f[off + 2] == e[2] && f[off + 3] == e[3];
  }

  lemma ReadHalf(f: seq<u8>, off: nat, v: u16)
    requires off + 2 <= |f| && f[off] == EncodeU16(v)[0] && f[off + 1] == EncodeU16(v)[1]
    ensures ReadU16(f, off) == v
  {
    ReadEncodeU16(v);
  }

  /** The written header reads back as the header the writer meant. */
  lemma EncodedHeader(img: Image)
    requires Encodable(img)
    ensures var f := Encode(img);
      && Validate(f) == Some(InfoHeaderSize)
      && HeaderPresent(f, InfoHeaderSize)
      && Dimensions(f, InfoHeaderSize) == Dims(img.width, img.height, true)
      && Channels(f, InfoHeaderSize) == 3
      && Compression(f, InfoHeaderSize) == BiRgb
  {
    var f := Encode(img);
    forall i | 0 <= i < DataOffset
      ensures f[i] == HeaderByte(img, i)
    {
    }
    ReadHalf(f, 0, Magic);
    ReadWord(f, DibSizeAt, InfoHeaderSize);
    ReadWord(f, WidthAt, img.width);
    ReadWord(f, InfoHeightAt, img.height);
    ReadHalf(f, InfoBitCountAt, 24);
    ReadWord(f, CompressionAt, 0);
  }

  /** The loader parses the written header to the writer's geometry. */
  lemma EncodedGeometry(img: Image)
    requires Encodable(img)
    ensures Supported(Encode(img)) && Loads(Encode(img))
    ensures var h := LoadedHeader(Encode(img));
      && h.dims == Dims(img.width, img.height, true) && h.channels == 3 && h.compression == BiRgb
      && h.rowStride == img.rowStride && h.rowSize == EncodedRowSize(img)
      && h.dataStart == DataOffset && !DecodePath(h) && RowsFit(Encode(img), h)
  {
    var f := Encode(img);
    EncodedParse(img);
    var h := ParseHeader(f, InfoHeaderSize);
    assert h.dataStart + h.dims.height * h.rowSize == |f|;
  }

  /** The parsed header of the written file, field by field. */
  lemma EncodedParse(img: Image)
    requires Encodable(img)
    ensures Validate(Encode(img)) == Some(InfoHeaderSize) && Decodable(Encode(img), InfoHeaderSize)
    ensures var h := ParseHeader(Encode(img), InfoHeaderSize);
      && h.dims == Dims(img.width, img.height, true) && h.channels == 3 && h.compression == BiRgb
      && h.rowStride == img.rowStride && h.rowSize == EncodedRowSize(img) && h.dataStart == DataOffset
  {
    EncodedHeader(img);
  }

  /** Each stored pixel is the picture's pixel with red and blue exchanged. */
  lemma EncodedPixel(img: Image, x: int, y: int)
    requires Encodable(img) && 0 <= x < img.width && 0 <= y < img.height
    ensures Supported(Encode(img)) && Loads(Encode(img))
    ensures LoadedHeader(Encode(img)).dims == Dims(img.width, img.height, true)
    ensures var c := PixelColor(img, x, y);
      FilePixel(Encode(img), LoadedHeader(Encode(img)), x, y) == Color(c.b, c.g, c.r, 0xFF)
  {
    EncodedGeometry(img);
    StoredByte(img, x, y, 0);
    StoredByte(img, x, y, 1);
    StoredByte(img, x, y, 2);
    ReadBackPixel(img, Encode(img), x, y);
  }

  /** The pixel read from any file whose header has the writer's geometry and
      whose three bytes at the pixel's place are the picture's, reversed. */
  lemma ReadBackPixel(img: Image, f: seq<u8>, x: int, y: int)
    requires Encodable(img) && 0 <= x < img.width && 0 <= y < img.height
    requires Supported(f) && Loads(f)
    requires var h := LoadedHeader(f);
      && h.dims == Dims(img.width, img.height, true) && h.channels == 3
      && h.rowSize == EncodedRowSize(img) && h.dataStart == DataOffset && RowsFit(f, h)
    requires StoredAt(img, f, x, y, 0) && StoredAt(img, f, x, y, 1) && StoredAt(img, f, x, y, 2)
    ensures var c := PixelColor(img, x, y);
      FilePixel(f, LoadedHeader(f), x, y) == Color(c.b, c.g, c.r, 0xFF)
  {
    var h := LoadedHeader(f);
    var o := EncodedOffset(img, h, x, y);
    RgbBytes(img, x, y);
    FilePixelOfBytes(f, h, x, y, ByteAt(img, x, y, 2), ByteAt(img, x, y, 1), ByteAt(img, x, y, 0));
  }

  /** An RGB pixel's colour is its three bytes, opaque. */
  lemma RgbBytes(img: Image, x: int, y: int)
    requires Encodable(img) && 0 <= x < img.width && 0 <= y < img.height
    ensures PixelColor(img, x, y) == Color(ByteAt(img, x, y, 0), ByteAt(img, x, y, 1), ByteAt(img, x, y, 2), 0xFF)
  {
  }

  /** Where the loader looks for pixel (x, y) of a written file. */
  lemma EncodedOffset(img: Image, h: Header, x: int, y: int) returns (o: int)
    requires Encodable(img) && 0 <= x < img.width && 0 <= y < img.height
    requires h.dims == Dims(img.width, img.height, true) && h.channels == 3
    requires h.rowSize == EncodedRowSize(img) && h.dataStart == DataOffset
    ensures o == FileOffset(h, x, y)
    ensures o == DataOffset + (img.height - 1 - y) * EncodedRowSize(img) + x * 3
  {
    o := FileOffset(h, x, y);
  }

  /** A 3-channel pixel is read from its three file bytes, with alpha 0xFF. */
  lemma FilePixelOfBytes(f: seq<u8>, h: Header, x: int, y: int, b0: u8, b1: u8, b2: u8)
    requires RowsFit(f, h) && 0 <= x < h.dims.width && 0 <= y < h.dims.height && h.channels == 3
    requires 0 <= FileOffset(h, x, y) && FileOffset(h, x, y) + 3 <= |f|
    requires f[FileOffset(h, x, y)] == b0 && f[FileOffset(h, x, y) + 1] == b1 && f[FileOffset(h, x, y) + 2] == b2
    ensures FilePixel(f, h, x, y) == Color(b0, b1, b2, 0xFF)
  {
  }

  /** Byte k of stored pixel (x, y) of f is byte 2 - k of the picture's pixel:
      the rows are stored bottom-up, each pixel in blue-green-red order. */
  predicate StoredAt(img: Image, f: seq<u8>, x: int, y: int, k: int)
    requires Encodable(img) && 0 <= x < img.width && 0 <= y < img.height && 0 <= k < 3
  {
    var i := DataOffset + (img.height - 1 - y) * EncodedRowSize(img) + x * 3 + k;
    0 <= i < |f| && f[i] == ByteAt(img, x, y, 2 - k)
  }

  /** The writer stores every pixel byte where StoredAt says. */
  lemma StoredByte(img: Image, x: int, y: int, k: int)
    requires Encodable(img) && 0 <= x < img.width && 0 <= y < img.height && 0 <= k < 3
    ensures StoredAt(img, Encode(img), x, y, k)
  {
    var rs := EncodedRowSize(img);
    var r := img.height - 1 - y;
    var j := x * 3 + k;
    assert 0 <= j < img.rowStride by {
      MulMonotone(x + 1, img.width, 3);
    }
    GridIndex(j, r, rs, img.height);
    var i := r * rs + j;
    assert i / rs == r && i % rs == j;
    DivModUnique(j, 3, x, k);
    assert Encode(img)[DataOffset + i] == DataByte(img, i);
  }

  /** Two images of one shape with the same colour at every pixel are equal. */
  lemma SameColors(a: Image, b: Image)
    requires Valid(a) && Valid(b) && a == b.(pixels := a.pixels)
    requires forall x, y | 0 <= x < a.width && 0 <= y < a.height :: PixelColor(a, x, y) == PixelColor(b, x, y)
    ensures a == b
  {
    forall i | 0 <= i < |a.pixels|
      ensures a.pixels[i] == b.pixels[i]
    {
      IndexDecode(a, i);
      var y, x, k := i / a.rowStride, i % a.rowStride / a.channels, i % a.rowStride % a.channels;
      assert PixelColor(a, x, y) == PixelColor(b, x, y);
      OffsetInBounds(a, x, y);
      assert a.pixels[i] == Channel(PixelColor(a, x, y), k);
    }
  }

  /** Loading a written 24-bit file gives the picture back. */
  lemma LoadEncode(img: Image)
    requires Encodable(img)
    ensures Supported(Encode(img)) && Load(Encode(img)) == Some(img)
  {
    var f := Encode(img);
    EncodedGeometry(img);
    var loaded := Load(f).value;
    forall x, y | 0 <= x < img.width && 0 <= y < img.height
      ensures PixelColor(loaded, x, y) == PixelColor(img, x, y)
    {
      LoadPixel(f, x, y);
      EncodedPixel(img, x, y);
    }
    SameColors(loaded, img);
  }
}
