/** The header half of picasso_load_bmp (src/bmp.c): file-header validation, the
    choice of DIB header kind by its size field, the core and info header fields,
    the padded row geometry and the colour masks, each read from the file's bytes
    at the offsets of the packed bmp_fh / bmp_ih structures (lib/picasso.h). */
module BmpHeader {
  import opened Machine
  import opened Options
  import opened LittleEndian
  import opened BitMasks

  /** "BM", read little-endian. */
  const Magic := 0x4D42
  /** sizeof(bmp_fh) under #pragma pack(1). */
  const FileHeaderSize := 14
  /** PICASSO_MAX_DIM, 1 << 14. */
  const MaxDim := 0x4000

  /** The bmp_header_type values: each kind is named by its size field. */
  const CoreHeaderSize := 12
  const InfoHeaderSize := 40
  const V3HeaderSize := 56
  const V4HeaderSize := 108
  const V5HeaderSize := 124

  /** The bmp_compression values the loader distinguishes. */
  const BiRgb := 0
  const BiBitfields := 3
  const BiAlphaBitfields := 6

  /** Byte offsets, in the file, of the fields the loader reads. */
  const OffsetDataAt := 10
  const DibSizeAt := 14
  const WidthAt := 18
  const CoreHeightAt := 20
  const CoreBitCountAt := 24
  const InfoHeightAt := 22
  const InfoBitCountAt := 28
  const CompressionAt := 30
  const SizeImageAt := 34
  /** The four masks follow the 40-byte info header, in the file as in bmp_ih. */
  const RedMaskAt := 54
  const GreenMaskAt := 58
  const BlueMaskAt := 62
  const AlphaMaskAt := 66

  /** The header sizes the loader handles: the core header, or any size from the
      info header up to the V5 header. picasso_load_bmp dispatches on thresholds
      (`>= 40`, `>= 56`, `>= 108`), so an intermediate size such as 52 or 64 takes
      the path of the largest kind it reaches; a size above 124 overruns the
      124-byte bmp_ih, and one from 13 to 39 leaves the channel count at 0. */
  predicate KnownKind(dib: int) {
    dib == CoreHeaderSize || InfoHeaderSize <= dib <= V5HeaderSize
  }

  /** picasso__validate_bmp and picasso__decide_bmp_format: the DIB header size,
      when the file starts with the magic, holds the 4-byte size field, and holds
      the whole header that size announces; None otherwise. */
  function Validate(f: seq<u8>): (r: Option<nat>)
    ensures r.Some? <==> |f| >= DibSizeAt + 4 && ReadU16(f, 0) == Magic
                         && FileHeaderSize + ReadU32(f, DibSizeAt) <= |f|
    ensures r.Some? ==> r.value == ReadU32(f, DibSizeAt)
  {
    if |f| < 2 || ReadU16(f, 0) != Magic then None
    else if |f| < DibSizeAt + 4 then None
    else if FileHeaderSize + ReadU32(f, DibSizeAt) > |f| then None
    else Some(ReadU32(f, DibSizeAt))
  }

  /** The whole header of a known kind is in the file. */
  predicate HeaderPresent(f: seq<u8>, dib: nat) {
    KnownKind(dib) && |f| >= DibSizeAt + 4 && FileHeaderSize + dib <= |f|
  }

  /** Width, height and row order as parse_coreheader_fields leaves them. */
  datatype Dims = Dims(width: int, height: int, flipped: bool)

  /** picasso__parse_coreheader_fields as written: a core header holds 16-bit
      width and height and is marked top-down; a larger header holds a signed
      width, a signed height whose sign gives the row order, and |height|. */
  function DimsAsWritten(f: seq<u8>, dib: nat): (d: Dims)
    requires HeaderPresent(f, dib)
    ensures d.height >= 0
    ensures dib == CoreHeaderSize ==> !d.flipped && 0 <= d.width < 0x1_0000 && d.height < 0x1_0000
    ensures dib != CoreHeaderSize ==> (d.flipped <==> ReadS32(f, InfoHeightAt) > 0)
  {
    if dib == CoreHeaderSize then Dims(ReadU16(f, WidthAt), ReadU16(f, CoreHeightAt), false)
    else
      var h := ReadS32(f, InfoHeightAt);
      Dims(ReadS32(f, WidthAt), Abs(h), h > 0)
  }

  /** The same with a core header's rows in the order its own comment describes:
      bottom-up, so placed last-to-first like a positive-height info header. */
  function Dimensions(f: seq<u8>, dib: nat): (d: Dims)
    requires HeaderPresent(f, dib)
    ensures dib == CoreHeaderSize ==> d == DimsAsWritten(f, dib).(flipped := true)
    ensures dib != CoreHeaderSize ==> d == DimsAsWritten(f, dib)
  {
    var d := DimsAsWritten(f, dib);
    if dib == CoreHeaderSize then d.(flipped := true) else d
  }

  /** The "File too large" check of picasso_load_bmp. */
  predicate WithinLimits(d: Dims) {
    d.width <= MaxDim && d.height <= MaxDim
  }

  /** bits_to_bytes of the header's bit count, `bit_count >> 3`. */
  function Channels(f: seq<u8>, dib: nat): (c: int)
    requires HeaderPresent(f, dib)
    ensures 0 <= c < 0x2000
  {
    (if dib == CoreHeaderSize then ReadU16(f, CoreBitCountAt) else ReadU16(f, InfoBitCountAt)) / 8
  }

  /** The inputs the loader supports: a header of a size it handles (KnownKind),
      and, once the size check passes, a non-negative width and the 3 or 4
      channels its own warning names. With fewer channels the post-processing
      reads byte 2 past the last pixel; with more it is defined but outside
      this model. */
  predicate Supported(f: seq<u8>) {
    Validate(f).Some? ==>
      var dib := Validate(f).value;
      KnownKind(dib) &&
      (WithinLimits(Dimensions(f, dib)) ==>
        Dimensions(f, dib).width >= 0 && (Channels(f, dib) == 3 || Channels(f, dib) == 4))
  }

  /** `(row_stride + 3) & ~3u`. */
  function PadRow(stride: nat): nat {
    BitAnd(stride + 3, 0xFFFF_FFFC)
  }

  /** Row padding rounds the stride up to the next multiple of four. */
  lemma PadRowValue(stride: nat)
    requires stride + 3 < 0x1_0000_0000
    ensures PadRow(stride) == (stride + 3) / 4 * 4
    ensures PadRow(stride) % 4 == 0 && stride <= PadRow(stride) < stride + 4
  {
    var v := stride + 3;
    ClearLowBits(v);
    var q := v / 4;
    assert v == q * 4 + v % 4;
  }

  /** `v & ~3u` clears the two low bits of a 32-bit value. */
  lemma ClearLowBits(v: nat)
    requires v < 0x1_0000_0000
    ensures BitAnd(v, 0xFFFF_FFFC) == v / 4 * 4
  {
    var m := Pow2(30) - 1;
    LowMaskValue();
    BitAndShift(v, m, 2);
    BitAndLow(Shr(v, 2), 30);
    ShrTwo(v);
  }

  lemma LowMaskValue()
    ensures Pow2(30) == 0x4000_0000 && Shl(Pow2(30) - 1, 2) == 0xFFFF_FFFC
  {
    assert Pow2(2) == 4;
    Pow2Add(30, 2);
    Pow2Values();
  }

  lemma ShrTwo(v: nat)
    requires v < 0x1_0000_0000
    ensures Shr(v, 2) == v / 4 && Shr(v, 2) % Pow2(30) == v / 4
    ensures Shl(Shr(v, 2) % Pow2(30), 2) == v / 4 * 4
  {
    assert Pow2(2) == 4;
    LowMaskValue();
    assert v / 4 < 0x4000_0000;
  }

  datatype Masks = Masks(red: u32, green: u32, blue: u32, alpha: u32)

  const NoMasks := Masks(0, 0, 0, 0)

  /** One fread of a 32-bit mask: the word at `off`, or 0 where the file has ended
      (the value then never matters: the row reads that follow fail). */
  function MaskWord(f: seq<u8>, off: nat): (w: u32)
    ensures off + 4 <= |f| ==> w == ReadU32(f, off)
  {
    if off + 4 <= |f| then ReadU32(f, off) else 0
  }

  /** An info header with BI_BITFIELDS or BI_ALPHABITFIELDS is followed by masks
      read straight from the file. */
  predicate MasksFollow(dib: nat, compression: int) {
    dib == InfoHeaderSize && (compression == BiBitfields || compression == BiAlphaBitfields)
  }

  /** The masks picasso__extract_bitmasks settles on: three (or, when offset_data
      leaves exactly 16 bytes after the info header, four) words after an info
      header with bitfields; the header's own mask fields for V3 and later; none
      otherwise. */
  function ReadMasks(f: seq<u8>, dib: nat, compression: int): (m: Masks)
    requires HeaderPresent(f, dib)
    ensures !MasksFollow(dib, compression) && dib < V3HeaderSize ==> m == NoMasks
    ensures MasksFollow(dib, compression) && ReadU32(f, OffsetDataAt) != 70 ==> m.alpha == 0
  {
    if MasksFollow(dib, compression) then
      Masks(MaskWord(f, RedMaskAt), MaskWord(f, GreenMaskAt), MaskWord(f, BlueMaskAt),
            if ReadU32(f, OffsetDataAt) == FileHeaderSize + InfoHeaderSize + 16
            then MaskWord(f, AlphaMaskAt) else 0)
    else if dib >= V3HeaderSize then
      Masks(ReadU32(f, RedMaskAt), ReadU32(f, GreenMaskAt), ReadU32(f, BlueMaskAt), ReadU32(f, AlphaMaskAt))
    else NoMasks
  }

  /** Where the first row is read: straight after the header, or after the masks
      that follow an info header. offset_data is never consulted for this. */
  function DataStart(f: seq<u8>, dib: nat, compression: int): (p: nat)
    requires HeaderPresent(f, dib)
    ensures FileHeaderSize + dib <= p <= |f|
    ensures !MasksFollow(dib, compression) ==> p == FileHeaderSize + dib
  {
    if MasksFollow(dib, compression) then
      var n := if ReadU32(f, OffsetDataAt) == FileHeaderSize + InfoHeaderSize + 16 then 16 else 12;
      Min(|f|, FileHeaderSize + dib + n)
    else FileHeaderSize + dib
  }

  /** Everything the row loop and the post-processing need. */
  datatype Header = Header(
    kind: nat,
    dims: Dims,
    channels: int,
    compression: int,
    rowStride: int,
    rowSize: int,
    sizeImage: int,
    masks: Masks,
    dataStart: nat)

  /** A header the loader goes on to read rows for. */
  predicate Decodable(f: seq<u8>, dib: nat) {
    && HeaderPresent(f, dib)
    && WithinLimits(Dimensions(f, dib))
    && Dimensions(f, dib).width >= 0
    && (Channels(f, dib) == 3 || Channels(f, dib) == 4)
  }

  /** The stored compression: core headers have none (the structure is zeroed). */
  function Compression(f: seq<u8>, dib: nat): int
    requires HeaderPresent(f, dib)
  {
    if dib == CoreHeaderSize then BiRgb else ReadU32(f, CompressionAt)
  }

  /** size_image: the stored value, or row_size * height when it is 0 and the
      data is BI_RGB or BI_BITFIELDS. */
  function SizeImage(stored: int, compression: int, rowSize: int, height: int): (s: int)
    ensures stored != 0 ==> s == stored
    ensures stored == 0 && compression != BiRgb && compression != BiBitfields ==> s == 0
  {
    if stored == 0 && (compression == BiRgb || compression == BiBitfields) then rowSize * height
    else stored
  }

  /** The header as picasso_load_bmp uses it, with row geometry for every kind:
      row_stride = width * channels, and row_size that stride padded to 4 bytes. */
  function ParseHeader(f: seq<u8>, dib: nat): (h: Header)
    requires Decodable(f, dib)
    ensures h.kind == dib && h.dims == Dimensions(f, dib) && h.channels == Channels(f, dib)
    ensures h.rowStride == h.dims.width * h.channels && 0 <= h.rowStride
    ensures h.dims.width >= 0 && (h.channels == 3 || h.channels == 4)
    ensures h.rowSize == PadRow(h.rowStride)
    ensures h.rowSize % 4 == 0 && h.rowStride <= h.rowSize < h.rowStride + 4
    ensures h.dataStart == DataStart(f, dib, h.compression) && h.compression == Compression(f, dib)
    ensures h.sizeImage == 0 || h.sizeImage == h.rowSize * h.dims.height
         || (dib != CoreHeaderSize && h.sizeImage == ReadU32(f, SizeImageAt))
  {
    var d := Dimensions(f, dib);
    var c := Channels(f, dib);
    var comp := Compression(f, dib);
    var stride := d.width * c;
    MulMonotone(0, d.width, c);
    assert stride <= MaxDim * 4 by {
      MulMonotone(d.width, MaxDim, c);
      MulMonotone(c, 4, MaxDim);
    }
    PadRowValue(stride);
    var rowSize := PadRow(stride);
    var stored := if dib == CoreHeaderSize then 0 else ReadU32(f, SizeImageAt);
    Header(dib, d, c, comp, stride, rowSize, SizeImage(stored, comp, rowSize, d.height),
           ReadMasks(f, dib, comp), DataStart(f, dib, comp))
  }

  /** The header as written: parse_infoheader_fields only runs for info headers and
      later, so a core header keeps row_stride = row_size = size_image = 0, and is
      marked top-down. */
  function ParseHeaderAsWritten(f: seq<u8>, dib: nat): (h: Header)
    requires Decodable(f, dib)
    ensures dib != CoreHeaderSize ==> h == ParseHeader(f, dib)
    ensures dib == CoreHeaderSize ==> h.rowStride == 0 && h.rowSize == 0 && !h.dims.flipped
  {
    if dib == CoreHeaderSize then
      Header(dib, DimsAsWritten(f, dib), Channels(f, dib), BiRgb, 0, 0, 0, NoMasks,
             FileHeaderSize + dib)
    else ParseHeader(f, dib)
  }

  /** As written, a core-header picture with any pixels gets no pixel storage:
      row_stride * height is 0 bytes, while the post-processing visits
      width * height pixels of `channels` bytes each. */
  lemma CoreHeaderAsWrittenEmpty(f: seq<u8>)
    requires Decodable(f, CoreHeaderSize)
    requires Dimensions(f, CoreHeaderSize).width > 0 && Dimensions(f, CoreHeaderSize).height > 0
    ensures var h := ParseHeaderAsWritten(f, CoreHeaderSize);
      h.rowStride * h.dims.height == 0 < h.dims.width * h.dims.height * h.channels
    ensures var h := ParseHeader(f, CoreHeaderSize);
      h.rowStride * h.dims.height == h.dims.width * h.dims.height * h.channels
  {
    var h := ParseHeaderAsWritten(f, CoreHeaderSize);
    var g := ParseHeader(f, CoreHeaderSize);
    assert h.dims.width == g.dims.width && h.dims.height == g.dims.height && h.channels == g.channels;
    PixelBytes(g.dims.width, g.dims.height, g.channels);
  }

  lemma PixelBytes(w: int, ht: int, c: int)
    requires w > 0 && ht > 0 && c > 0
    ensures 0 < w * ht * c && (w * c) * ht == w * ht * c
  {
    MulMonotone(1, w, ht);
    MulMonotone(1, w * ht, c);
  }

  /** A 1-by-1, 24-bit file with a core header, followed by one padded row. */
  const CoreExample: seq<u8> :=
    [0x42, 0x4D, 30, 0, 0, 0, 0, 0, 0, 0, 26, 0, 0, 0,
     12, 0, 0, 0, 1, 0, 1, 0, 1, 0, 24, 0,
     0x11, 0x22, 0x33, 0]

  /** On CoreExample the written header has row_stride and row_size 0 and top-down
      rows; the corrected one has a 3-byte stride, 4-byte rows, bottom-up. */
  lemma CoreExampleHeaders()
    ensures Validate(CoreExample) == Some(CoreHeaderSize) && Decodable(CoreExample, CoreHeaderSize)
    ensures var h := ParseHeaderAsWritten(CoreExample, CoreHeaderSize);
      h.dims == Dims(1, 1, false) && h.channels == 3 && h.rowStride == 0 && h.rowSize == 0
    ensures var h := ParseHeader(CoreExample, CoreHeaderSize);
      h.dims == Dims(1, 1, true) && h.channels == 3 && h.rowStride == 3 && h.rowSize == 4
      && h.dataStart == 26
  {
    CoreExampleFields();
    CoreExampleValid();
    PadRowValue(3);
  }

  lemma CoreExampleValid()
    ensures Validate(CoreExample) == Some(CoreHeaderSize) && Decodable(CoreExample, CoreHeaderSize)
  {
    CoreExampleFields();
  }

  /** The header fields of CoreExample, read little-endian. */
  lemma CoreExampleFields()
    ensures |CoreExample| == 30
    ensures ReadU16(CoreExample, 0) == Magic && ReadU32(CoreExample, DibSizeAt) == 12
    ensures ReadU16(CoreExample, WidthAt) == 1 && ReadU16(CoreExample, CoreHeightAt) == 1
    ensures ReadU16(CoreExample, CoreBitCountAt) == 24
  {
  }

  /** A 1-by-1, 24-bit file whose header is 52 bytes long: between the info
      header and the V3 header, so the loader takes the info-header path. */
  const Info52Example: seq<u8> :=
    [0x42, 0x4D, 70, 0, 0, 0, 0, 0, 0, 0, 66, 0, 0, 0]
    + [52, 0, 0, 0, 1, 0, 0, 0, 1, 0, 0, 0, 1, 0, 24, 0]
    + seq(36, _ => 0)
    + [0x11, 0x22, 0x33, 0]

  /** A 52-byte header is decoded like an info header: positive height so rows
      run bottom-up, no masks, and the first row straight after the header. */
  lemma Info52ExampleHeader()
    ensures Validate(Info52Example) == Some(52) && Decodable(Info52Example, 52)
    ensures var h := ParseHeader(Info52Example, 52);
      h.dims == Dims(1, 1, true) && h.channels == 3 && h.rowStride == 3 && h.rowSize == 4
      && h.masks == NoMasks && h.dataStart == 66 && h.sizeImage == 4
  {
    Info52ExampleFields();
    assert Validate(Info52Example) == Some(52);
    PadRowValue(3);
  }

  /** The header fields of Info52Example, read little-endian. */
  lemma Info52ExampleFields()
    ensures |Info52Example| == 70
    ensures ReadU16(Info52Example, 0) == Magic && ReadU32(Info52Example, DibSizeAt) == 52
    ensures ReadS32(Info52Example, WidthAt) == 1 && ReadS32(Info52Example, InfoHeightAt) == 1
    ensures ReadU16(Info52Example, InfoBitCountAt) == 24
    ensures ReadU32(Info52Example, CompressionAt) == BiRgb && ReadU32(Info52Example, SizeImageAt) == 0
  {
  }
}
