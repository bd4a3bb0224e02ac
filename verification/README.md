# Picasso, its BMP loader, two Minesweeper games, the event ring and the log-level filter

This project models in Dafny the core of a small C code base:

- **Picasso**, a software raster library. It covers:
  - little-endian readers;
  - packed RGBA colours, alpha blending and rectangle normalisation and clipping;
  - images and backbuffers;
  - the drawing primitives: rectangles, circles and Bresenham lines;
  - the blits and the nearest-neighbour image copy.
- **The BMP decoder** `picasso_load_bmp`. It covers:
  - file-header validation and the header kinds;
  - row geometry and padding, and the bit-field masks;
  - the row loop with its vertical flip;
  - the post-processing passes: channel swap, mask decoding, and alpha forced to opaque.
- **Minesweeper, 16x16** (`src/minesweeper.c`). It covers:
  - grid initialisation and the neighbour count;
  - the recursive flood fill;
  - the drawn tile and counter sprites;
  - mouse handling and the win check.
- **Minesweeper, 10x10** (`src/graphics.c`, `src/main.c`). This variant has two header rows above the playfield. It covers initialisation, the flood fill, mouse handling and the per-frame update. `Release`, `Handle` and `Update` follow the code as written. `ReleaseCorrected`, `HandleCorrected` and `UpdateCorrected` use the repaired fill and game-over reveal listed under Findings.
- **The event ring** of `src/canopy_event.c`: 64 slots, at most 63 waiting events.
- **The log-level filter** of `logger/logger.c`: the `LOG_LEVELS` parser and the mask test in `log_output_ext`.

Numbers are unbounded `int`s restricted to the C widths (`u8`, `u16`, `u32`). Where unsigned C arithmetic truncates or wraps, or C divides toward zero, the model says so explicitly:
- `Machine.CDiv` and `Machine.CMod` give C's division and remainder;
- `ScaleTo8` gives the 32-bit product of `decode_channel`.

Buffers are sequences, and each in-place pass is a pure function from the old contents to the new. Randomness (the bomb layout) and the environment variable are parameters.

Each operation has a partner stated against it. For example:
- the flood fill is specified by reachability and closure;
- the BMP loader is checked against a reference writer (`BmpEncode`), and loading a written file gives the picture back;
- the event ring is stated as a FIFO sequence;
- the parsed level mask is stated as "the last request that speaks about a level wins".

## Model

| member | source | states |
|---|---|---|
| Machine.Abs | lib/picasso.h:70 | the result is non-negative and is the argument or its negation |
| Machine.Clamp | lib/picasso.h:74-79 | the result lies between the bounds and equals the argument when the argument already does |
| Machine.CDiv | src/minesweeper.c:396-397 | C's division truncates toward zero: for a positive divisor it is floor division when the dividend is non-negative, and rounds up when it is negative |
| Machine.CMod | src/minesweeper.c:298-299 | C's remainder takes the dividend's sign: in [0, b) for a non-negative dividend, in (-b, 0] for a negative one |
| LittleEndian.ReadU16 | src/picasso.c:33-37 | the low byte is the first byte and the high byte is the second |
| LittleEndian.ReadU32 | src/picasso.c:39-43 | the value is the four bytes weighted 1, 2^8, 2^16 and 2^24 |
| LittleEndian.ReadS32 | src/picasso.c:44-46 | same bit pattern as the unsigned read (congruent modulo 2^32), negative exactly when the top byte is at least 0x80 |
| LittleEndian.ReadEncodeU16 | src/picasso.c:33-37 | reading back the encoding of any 16-bit value gives the value |
| LittleEndian.EncodeReadU16 | src/picasso.c:33-37 | encoding what was read gives the two bytes back |
| LittleEndian.ReadEncodeU32 | src/picasso.c:39-43 | reading back the encoding of any 32-bit value gives the value |
| LittleEndian.EncodeReadU32 | src/picasso.c:39-43 | encoding what was read gives the four bytes back |
| Colors.ColorToU32 | lib/picasso.h:147-150 | byte 0 of the packed word is r, byte 1 g, byte 2 b and byte 3 a |
| Colors.U32ToColor | lib/picasso.h:152-157 | each channel is its byte of the packed word: r lowest, a highest |
| Colors.UnpackPack | lib/picasso.h:147-157 | unpacking a packed colour gives the colour |
| Colors.PackUnpack | lib/picasso.h:147-157 | packing an unpacked word gives the word |
| Colors.PackInjective | lib/picasso.h:147-150 | two colours pack to the same word if and only if they are equal |
| Colors.GetColor | lib/picasso.h:90-102 | r, g and b are the first three bytes; alpha is the fourth byte for 4 channels and 255 otherwise |
| Colors.UnpackRgba | lib/picasso.h:161-167 | the same channels as u32_to_color |
| Colors.UnpackBgra | lib/picasso.h:169-175 | the colour of u32_to_color with red and blue exchanged |
| Colors.SetAlpha | lib/picasso.h:105-106 | rgb kept; alpha is percent*255/100, so 0 for 0 percent and 255 for 100 percent |
| Colors.SetAlphaMonotone | lib/picasso.h:105-106 | a larger percentage never gives a smaller alpha |
| Colors.Mix | src/picasso.c:350-352 | alpha 255 gives the source channel and alpha 0 the destination channel |
| Colors.MixBetween | src/picasso.c:350-352 | each blended channel lies between the source and destination channels |
| Colors.MixHalf | src/picasso.c:350-352 | at alpha 128 a channel is within one of the average of the two |
| Colors.Blend | src/picasso.c:336-355 | an opaque source replaces, a transparent source keeps the destination, otherwise each channel is the alpha mix |
| Colors.BlendAlpha | src/picasso.c:336-355 | any visible source makes the result opaque; a transparent source keeps the destination's alpha |
| Colors.BlendBetween | src/picasso.c:336-355 | with partial alpha every channel of the result lies between source and destination |
| Rects.Normalize | src/picasso.c:305-316 | the result has non-negative size, spans the same corners, covers exactly the pixels the input spans, and leaves a normalised rectangle unchanged |
| Rects.NormalizeIdempotent | src/picasso.c:305-316 | normalising twice is normalising once |
| Rects.Clip | src/picasso.c:318-334 | when there are bounds, they contain exactly the in-buffer pixels the rectangle covers; when there are none, it covers no buffer pixel; bounds stay inside the buffer |
| Rects.ClipContainsCovers | src/picasso.c:318-334 | a buffer pixel is inside the clipped bounds if and only if the rectangle covers it |
| Rects.ClipNonEmpty | src/picasso.c:318-334 | clipping succeeds if and only if the rectangle is non-empty and overlaps the buffer |
| Images.AllocImage | src/picasso.c:272-290 | NULL exactly for a non-positive size or a channel count other than 3 or 4; otherwise a zeroed image of height rows of channels*width bytes |
| Images.AllocImageAsWritten | src/picasso.c:281-283 | as written: the stride is channels*width and the buffer has width*stride bytes |
| Images.AllocAsWrittenTooSmall | src/picasso.c:283 | whenever the width is below the height the written buffer is shorter than height rows |
| Images.AllocAsWrittenExample | src/picasso.c:283 | a 1x2 RGB image gets 3 bytes where 6 are needed |
| Images.VisitsRowMajor | lib/picasso.h:82-88 | foreach_pixel_image visits (i % width, i / width) at step i, width*height steps in all |
| Images.VisitsOnce | lib/picasso.h:82-88 | each pixel is visited at exactly one step, y*width + x |
| Images.Nearest | src/picasso.c:476-477 | the scaled coordinate is non-negative and, for a non-empty source, inside it |
| Images.NearestBound | src/picasso.c:476-477 | the scaled source coordinate x*from/to lies inside the source |
| Images.Copy | src/picasso.c:472-486 | each destination byte is the same byte of the nearest source pixel; shape kept |
| Images.CopySameShape | src/picasso.c:472-486 | copying between images of one shape copies the bytes verbatim |
| Images.NearestSame | src/picasso.c:476-477 | equal sizes map every coordinate to itself |
| Backbuffers.SetPixel | src/picasso.c:642 | writing one pixel changes that pixel and no other |
| Backbuffers.CreateBackbuffer | src/picasso.c:361-381 | NULL exactly for a non-positive size; otherwise that size with every pixel 0 |
| Backbuffers.Clear | src/picasso.c:494-504 | every pixel becomes CLEAR_BACKGROUND, size kept |
| Backbuffers.ImageFromBackbuffer | src/picasso.c:392-417 | with the corrected height*row_stride allocation: a 4-channel image of the same size whose pixel colours are the unpacked buffer pixels |
| Backbuffers.ImageFromBackbufferRoundTrip | src/picasso.c:392-436 | reading the image back as blit_bitmap does gives the buffer's pixels |
| Backbuffers.BlitBitmap | src/picasso.c:419-436 | every destination pixel under the shifted image is blended with its source pixel; all others unchanged |
| Backbuffers.ScaleCoord | src/picasso.c:452-459 | the scaled source coordinate stays inside the source rectangle |
| Backbuffers.BlitRect | src/picasso.c:438-471 | pixels outside the destination rectangle unchanged; inside it, blended with the scaled source pixel (red and blue exchanged for 3-channel images) when that lies in the image |
| Backbuffers.BlitRectUnscaled | src/picasso.c:452-459 | with equal rectangle sizes the blit is a translation |
| Raster.FillRect | src/picasso.c:510-524 | exactly the buffer pixels the rectangle spans are blended; the rectangle comes back normalised |
| Raster.DrawRect | src/picasso.c:527-569 | thickness of at most 0 changes nothing; otherwise exactly the pixels of the border of that thickness are blended |
| Raster.DrawRectThickFills | src/picasso.c:527-569 | a border at least half the width or height thick blends the whole rectangle |
| Raster.FillCircle | src/picasso.c:585-606 | exactly the pixels of the circle box that pass the disk test are blended |
| Raster.DiskOffsetBound | src/picasso.c:598-600 | an offset passing the disk test is at most the radius |
| Raster.CircleBox | src/picasso.c:572-583 | a square of odd side centred on (x0, y0), reaching radius + 3 pixels from the centre on each side |
| Raster.CircleBoxHoldsDisk | src/picasso.c:572-583 | the bounding box never cuts the disk |
| Raster.FillCircleRadiusZero | src/picasso.c:598-600 | radius 0 fills the centre pixel only |
| Raster.DrawCircle | src/picasso.c:607-630 | exactly the pixels of the circle box that pass the ring test are blended |
| Raster.RingInsideDisk | src/picasso.c:607-630 | the stroked circle lies inside the filled one |
| Raster.LineStateShape | src/picasso.c:631-649 | the decision variable is determined by the row offset, which is at most the column offset |
| Raster.LineError | src/picasso.c:631-649 | for slopes in [0, 1] each plotted row is within half a pixel of the ideal line |
| Raster.DrawLine | src/picasso.c:631-649 | for each column x in [x0, x1) the offset `row * width + x` of its Bresenham row is overwritten with the colour, and every other offset is kept; when the line stays inside the buffer, exactly the pixels (x, row) take the colour |
| Raster.LineOnGrid | src/picasso.c:641-642 | for a line inside the buffer, the offsets written are exactly those of the pixels (x, row) for x in [x0, x1) |
| Raster.LineWrapsRow | src/picasso.c:641-642 | a one-pixel line at column -1 of row 1 is off the grid, yet its offset is the last pixel of row 0 |
| BitMasks.BitAnd | src/bmp.c:124 | the AND is at most either operand |
| BitMasks.PopcountBound | src/bmp.c:94-101 | a value below 2^n has at most n one bits |
| BitMasks.LowestSetBitSpec | src/bmp.c:104-112 | below the lowest one bit the value is zero and that bit is one |
| BitMasks.MaskBitCount | src/bmp.c:94-101 | the loop returns the number of one bits, between 0 and 32 |
| BitMasks.MaskBitShift | src/bmp.c:104-112 | 0 for a zero mask; otherwise the index of the lowest one bit |
| BitMasks.BitAndLow | src/bmp.c:124 | ANDing with 2^n - 1 keeps the low n bits |
| BitMasks.PopcountContiguous | src/bmp.c:94-101 | a contiguous mask of b bits has b one bits |
| BitMasks.LowestSetBitContiguous | src/bmp.c:104-112 | the lowest one bit of a contiguous mask is its start |
| BitMasks.DecodeChannel | src/bmp.c:116-132 | a zero mask decodes to 0 |
| BitMasks.DecodePixel | src/bmp.c:116-132 | a zero mask decodes to 0 |
| BitMasks.DecodeContiguous | src/bmp.c:116-132 | through a contiguous mask the channel is the rescaled field of the pixel |
| BitMasks.DecodeChannelByte | src/bmp.c:127 | an 8-bit contiguous mask passes its field through unchanged |
| BitMasks.DecodeChannelScale | src/bmp.c:131 | a contiguous mask of up to 24 bits, other than 8, gives field*255/(2^bits - 1) |
| BitMasks.Rescale | src/bmp.c:124-131 | an empty field gives 0; below 24 bits, other than 8, the 32-bit product neither wraps nor truncates and the result is value*255/(2^bits - 1) |
| BitMasks.ScaleTo8 | src/bmp.c:131 | for value <= d < 2^24 the product fits in 32 bits and the uint8 cast keeps the exact quotient |
| BitMasks.DecodeChannelEnds | src/bmp.c:116-132 | an empty field decodes to 0 and a full field to 255 |
| BitMasks.RescaleEnds | src/bmp.c:131 | rescaling maps 0 to 0 and 2^bits - 1 to 255 |
| BmpHeader.Validate | src/bmp.c:188-221 | a DIB size exactly when the file has the "BM" magic and the size field; the size is that field |
| BmpHeader.DimsAsWritten | src/bmp.c:223-254 | core header: 16-bit width and height, not flipped; other kinds: flipped exactly when the stored height is positive, height is its absolute value |
| BmpHeader.Dimensions | src/bmp.c:223-254 | the dimensions the loader means: a core header's rows bottom-up (flipped), every other kind as written |
| BmpHeader.Channels | src/bmp.c:239 | bit_count >> 3, below 0x2000 |
| BmpHeader.PadRowValue | src/bmp.c:262 | `(stride + 3) & ~3u` is the stride rounded up to a multiple of four |
| BmpHeader.MaskWord | src/bmp.c:287-291 | a mask read inside the file is the stored 32-bit word |
| BmpHeader.ReadMasks | src/bmp.c:164-174 | no masks without BI_BITFIELDS below the V3 header; no alpha mask unless offset_data leaves room for four |
| BmpHeader.DataStart | src/bmp.c:276-292 | rows start after the header, or after the masks that follow an info header |
| BmpHeader.SizeImage | src/bmp.c:263-268 | the stored size when non-zero; row_size*height for BI_RGB and BI_BITFIELDS; 0 otherwise |
| BmpHeader.ParseHeader | src/bmp.c:256-268 | stride is width*channels; row size is the stride padded to four; dimensions and channels as the loader means them for every kind |
| BmpHeader.ParseHeaderAsWritten | src/bmp.c:384 | as written: an info header or larger parses as ParseHeader; a core header keeps stride and row size 0 |
| BmpHeader.CoreHeaderAsWrittenEmpty | src/bmp.c:396-400 | a non-empty core-header picture gets an empty buffer as written, and width*height*channels bytes as corrected |
| BmpHeader.CoreExampleHeaders | src/bmp.c:384-400 | on a concrete 1x1 core-header file the written header has stride 0 and is not flipped |
| BmpHeader.Info52ExampleHeader | src/bmp.c:175-186 | a concrete 52-byte header, between the info and V3 kinds, is accepted and decoded on the info-header path: no masks, rows straight after the header |
| BmpRows.WriteRowAt | src/bmp.c:417 | the memcpy over row d changes exactly the bytes of row d, to the row's bytes |
| BmpRows.WriteRowByte | src/bmp.c:417 | after writing row d, byte j of row d is the new row's byte j and every other row is unchanged |
| BmpRows.RowAt | src/bmp.c:417 | byte j of the row taken at y is byte j of row y of the buffer |
| BmpRows.SameRows | src/bmp.c:406-418 | two buffers that agree on every byte of every row are equal |
| BmpRows.SourceRow | src/bmp.c:416 | the file row of destination row y lies among the rows |
| BmpRows.SourceRowInvolution | src/bmp.c:416 | destination and file rows pair off one to one |
| BmpRows.PlaceRows | src/bmp.c:406-418 | row y of the destination holds the first stride bytes of file row SourceRow(y) |
| BmpRows.ReadRowStep | src/bmp.c:406-418 | reading file row y into its destination row keeps every row placed so far and places row y |
| BmpRows.ReadRows | src/bmp.c:404-418 | fails exactly when the file holds fewer than height rows; otherwise yields PlaceRows |
| BmpRows.FlipRowSize | src/bmp.c:146 | the row size is width*channels rounded up to a multiple of four |
| BmpRows.SwapRows | src/bmp.c:156-158 | the three memcpy calls keep the buffer length |
| BmpRows.SwapRowByte | src/bmp.c:156-158 | after the three memcpy calls rows a and b hold each other's bytes and every other row is unchanged |
| BmpRows.FlipStep | src/bmp.c:150-159 | swapping rows y and height-1-y extends the flipped border by one row at each end |
| BmpRows.FlipRows | src/bmp.c:150-159 | the loop over y < height/2 leaves the first height rows in reverse order and the rest unchanged |
| BmpRows.FlipVertical | src/bmp.c:144-162 | with the padded row size, the first height rows come out in reverse order and the rest unchanged |
| BmpRows.FlipKeepsMiddle | src/bmp.c:150 | an odd height leaves the middle row where it was |
| BmpRows.FlipTwice | src/bmp.c:144-162 | flipping twice restores the buffer |
| BmpPixels.Recolor | lib/picasso.h:82-88 | one foreach_pixel_image pass writes each pixel's new colour bytes, shape kept |
| BmpPixels.RecolorPixel | lib/picasso.h:82-88 | each pixel of the result reads back as the new colour of the old pixel |
| BmpPixels.Convert | src/bmp.c:428-436 | without the mask path red and blue swap; with it each channel is decode_channel through its mask |
| BmpPixels.SwapTwice | src/bmp.c:435 | swapping red and blue twice changes nothing |
| BmpPixels.DecodeRgbaMasks | src/bmp.c:134-140 | decoding through the byte masks of little-endian RGBA reproduces the pixel |
| BmpPixels.ConvertImage | src/bmp.c:426-437 | every pixel of the first pass is Convert of the loaded pixel |
| BmpPixels.ScanAlpha | src/bmp.c:424-437 | set_all_alpha stays true exactly when the mask path is off, or it wrote only zero alpha bytes |
| BmpPixels.MakeOpaque | src/bmp.c:439-445 | alpha becomes 0xFF and the colour channels are kept |
| BmpPixels.PostProcess | src/bmp.c:424-445 | each pixel is its converted colour, with alpha forced to 0xFF when set_all_alpha holds on a 4-channel image |
| BmpPixels.PostProcessAlpha | src/bmp.c:439-445 | a 4-channel image off the mask path, or one the mask path left fully transparent, ends opaque |
| Bmp.RawImage | src/bmp.c:394-418 | the image after the row loop has the header's size, channels and stride |
| Bmp.RawPixel | src/bmp.c:406-418 | each pixel after the row loop is the colour of the file bytes its file row and column point at |
| Bmp.LoadedHeader | src/bmp.c:376-401 | a successful load's header has stride width*channels, at most the row size, and 3 or 4 channels |
| Bmp.Load | src/bmp.c:362-447 | with the corrected core-header geometry: an image exactly when the magic, header, size limit and row reads all succeed; the image has the header's shape |
| Bmp.LoadPixel | src/bmp.c:406-445 | each loaded pixel is its on-disk colour, converted, then forced opaque when the second pass runs |
| Bmp.LoadOpaque | src/bmp.c:439-445 | a 4-channel picture loaded without the mask decoder is opaque everywhere |
| Bmp.LoadBmp | src/bmp.c:362-447 | the step-by-step loader returns what Load specifies |
| BmpEncode.EncodedRowSize | src/bmp.c:262 | the written row size is the padded stride |
| BmpEncode.Encode | src/bmp.c:362-447 | a 54-byte header followed by height padded rows |
| BmpEncode.EncodedHeader | src/bmp.c:188-268 | the written header reads back as the header the writer meant |
| BmpEncode.EncodedParse | src/bmp.c:223-268 | the written file validates as an info header and parses to the writer's size, channels, row size and data offset |
| BmpEncode.EncodedGeometry | src/bmp.c:223-268 | the loader parses a written file to the writer's geometry |
| BmpEncode.StoredByte | src/bmp.c:406-418 | the writer stores byte k of pixel (x, y) at the place the loader reads from, in reversed channel order |
| BmpEncode.ReadBackPixel | src/bmp.c:406-437 | any loadable file with the writer's geometry and those bytes yields the picture's pixel with red and blue exchanged |
| BmpEncode.EncodedPixel | src/bmp.c:406-437 | each stored pixel is the picture's pixel with red and blue exchanged |
| BmpEncode.LoadEncode | src/bmp.c:362-447 | loading a written 24-bit file gives the picture back |
| MineField.NeighbourIndex | src/minesweeper.c:201-204 | each cell of the 3x3 block is visited at exactly one step, the centre at step 4 |
| MineField.NeighbourNear | src/minesweeper.c:253-256 | every visit stays in the block; all but step 4 are adjacent cells |
| MineField.Put | src/main.c:156 | writing one cell changes that cell and no other |
| MineField.CellSet | src/minesweeper.c:222-227 | a position is in the set if and only if its cell is in the grid and satisfies the predicate |
| MineField.CountCells | src/minesweeper.c:222-227 | the counting double loop returns the number of grid cells that satisfy the predicate |
| MineField.CountNeighbouringBombs | src/minesweeper.c:198-216 | the count is at most nine |
| MineField.CountIsNearBombs | src/minesweeper.c:198-216 | the count is the number of in-grid bombs in the 3x3 block; it is zero if and only if there are none |
| MineField.CountLocal | src/graphics.c:154-171 | bombs outside the grid or outside the block do not change the count |
| MineField.CellsSize | src/main.c:40-49 | the board from row top down has (size - top)*size cells |
| MineField.Reveal | src/minesweeper.c:235-260 | revealing only adds cells, all on the board and not blocked |
| MineField.RevealAround | src/minesweeper.c:253-259 | the eight calls only add cells, each on the board and not blocked |
| MineField.AroundStep | src/minesweeper.c:253-259 | one recursive call followed by the remaining ones keeps every open neighbour revealed and every new cell reached |
| MineField.RevealSpec | src/minesweeper.c:235-260 | the start cell is revealed exactly when it opens; otherwise nothing changes; every newly revealed blank cell has its open neighbours revealed; every newly revealed cell is reached from the start through blank cells |
| MineField.RevealAroundSpec | src/minesweeper.c:253-259 | the eight recursive calls reveal every open neighbour, keep the result closed and reach each new cell from some neighbour |
| Minesweeper16.InitGrid | src/minesweeper.c:218-233 | every cell fresh, with the layout's bomb flag; a non-bomb holds the number of bombs around it |
| Minesweeper16.InitGame | src/minesweeper.c:218-233 | the double loops build InitGrid and num_bombs is the number of bombs |
| Minesweeper16.RevealTiles | src/minesweeper.c:235-260 | only isRevealed changes, only from false to true, never on a bomb or flag; the revealed set is the flood fill's |
| Minesweeper16.RevealTilesFlood | src/minesweeper.c:235-260 | the revealed set is closed under the fill and each new cell is reached from the click |
| Minesweeper16.CheckStatus | src/minesweeper.c:503-514 | a playing game becomes won exactly when every non-bomb is revealed; any other state is kept |
| Minesweeper16.Tile | src/minesweeper.c:262-286 | the overriding assignments give the bomb, flag, cross, number or pressed sprite as the state and cell demand |
| Minesweeper16.TileInRange | src/minesweeper.c:262-286 | a real neighbour count always gives a sprite 0..15; a revealed non-bomb shows its count |
| Minesweeper16.BombDigits | src/minesweeper.c:292-309 | the ones sprite is the last digit; small counts get blanks and the minus sign where drawNumbers puts them |
| Minesweeper16.BombDigitsShown | src/minesweeper.c:292-309 | from -99 to 999 the counter shows exactly its value |
| Minesweeper16.BombDigitsTruncated | src/minesweeper.c:292-309 | below -99 it shows a minus and the last two digits only |
| Minesweeper16.SecondDigits | src/minesweeper.c:301-303 | for a non-negative count the three sprites are its hundreds, tens and ones digits |
| Minesweeper16.SecondDigitsShown | src/minesweeper.c:301-303 | from 0 to 999 seconds the timer shows exactly its value |
| Minesweeper16.SecondDigitsRestart | src/minesweeper.c:301-303 | the -1 stored on a restart selects sprite 15 for the ones place |
| Minesweeper16.InCanvasCell | src/minesweeper.c:396-401 | a position in the canvas lies over a grid cell |
| Minesweeper16.Press | src/minesweeper.c:392-432 | the pressed cell is remembered as the one under the mouse cursor |
| Minesweeper16.SetPressed | src/minesweeper.c:415 | that cell's isPressed flag takes the new value; every other cell is unchanged |
| Minesweeper16.ReleaseLeft | src/minesweeper.c:444-472 | the pressed cell and the counter are kept; the state stays or becomes game over; off the canvas or when not playing the grid and state are unchanged |
| Minesweeper16.LeftClick | src/minesweeper.c:451-466 | a left release on the pressed, unflagged canvas cell while playing: a bomb is revealed and the game is over with nothing else changed; otherwise the cell is released and the flood fill runs from it, so it ends revealed and play goes on; the face is reset |
| Minesweeper16.LeftReleaseElsewhere | src/minesweeper.c:451-470 | any other left release over the canvas while playing only releases the pressed cell and resets the face |
| Minesweeper16.ReleaseRight | src/minesweeper.c:473-494 | the pressed cell, state and face are kept; a revealed cell or a finished game changes nothing; the counter moves by at most one |
| Minesweeper16.Handle | src/minesweeper.c:366-501 | a press records the cell under the cursor and keeps the counter; a release keeps the pressed cell; other buttons change nothing on release; the counter moves by at most one |
| Minesweeper16.FaceClick | src/minesweeper.c:403-413 | a press then release on the face button is handled without touching the grid, and leaves the game restarting |
| Minesweeper16.FlagToggle | src/minesweeper.c:473-494 | a right release on the pressed hidden cell flips its flag, releases it and moves the counter against the flag; nothing else changes |
| Minesweeper16.InitConsistent | src/minesweeper.c:218-233 | a new game is consistent: the counter is the bomb total less the flags, no revealed cell carries a flag, no bomb is revealed |
| Minesweeper16.HandleConsistent | src/minesweeper.c:366-501 | every mouse event keeps the game consistent |
| Minesweeper16.PressConsistent | src/minesweeper.c:392-432 | a press keeps the game consistent |
| Minesweeper16.ReleaseLeftConsistent | src/minesweeper.c:444-472 | a left release keeps the game consistent |
| Minesweeper16.ReleaseRightConsistent | src/minesweeper.c:473-494 | a right release keeps the game consistent |
| Minesweeper10.InitGridCells | src/main.c:40-55 | header rows untouched; playfield cells get the layout's bomb, hidden, index 0, and a non-bomb its neighbour count |
| Minesweeper10.InitializeGrid | src/main.c:31-57 | totalBombs and bombCounter count the playfield bombs; totalCells is 80; smiley reset, game not over; nothing else changes |
| Minesweeper10.PlayfieldSize | src/main.c:40-49 | the playfield has 80 cells |
| Minesweeper10.CountSeesPlayfield | src/graphics.c:154-171 | with bomb-free header rows the count is that of the playfield bombs |
| Minesweeper10.RevealTilesAsWritten | src/graphics.c:173-197 | as written: the fill runs over all ten rows; only non-bombs become revealed; a click off the grid or on a revealed cell or bomb changes nothing |
| Minesweeper10.RevealLeaksIntoHeader | src/graphics.c:175-176 | a blank cell of row 2 reveals the header cell above it and, through the header, the cell two columns over |
| Minesweeper10.RevealTiles | src/graphics.c:173-197 | the fill kept to the playfield: header rows untouched, a playfield click on a hidden non-bomb reveals it, only non-bombs become revealed |
| Minesweeper10.RevealTilesFlood | src/graphics.c:173-197 | the revealed set is closed under the fill and each new cell is reached from the click |
| Minesweeper10.NextIndex | src/main.c:96-107 | 0, 2 and 3 cycle among themselves; every other index stays |
| Minesweeper10.Press | src/main.c:76-111 | the mouse position and its cell are remembered |
| Minesweeper10.RightClickCycle | src/main.c:93-108 | a right press steps the index 0 to 2 to 3 to 0; the counter falls on 0 to 2 for a hidden cell and rises on 3 to 0 |
| Minesweeper10.ReleaseAfterFill | src/main.c:113-128 | the release once the fill has run, shared by both release forms; the grid keeps its shape |
| Minesweeper10.Release | src/main.c:113-128 | as written: over the playfield, the release after revealTiles over all ten rows; elsewhere the grid and game-over flag are kept |
| Minesweeper10.ReleaseCorrected | src/main.c:113-128 | the release with the fill kept to the playfield; elsewhere the grid and game-over flag are kept |
| Minesweeper10.Handle | src/main.c:76-128 | as written: a press records the position and its cell; a right release changes nothing |
| Minesweeper10.HandleCorrected | src/main.c:76-128 | presses as Handle; a right release changes nothing; other releases use the corrected fill |
| Minesweeper10.ReleaseOnBomb | src/main.c:113-128 | releasing on a playfield bomb reveals it red and ends the game with the dead face, in both forms; no other cell changes |
| Minesweeper10.ReleaseSafe | src/main.c:113-128 | as written: a release off every bomb reveals no bomb and keeps the game going; over the playfield the revealed set becomes that of the fill over all ten rows |
| Minesweeper10.ReleaseRevealsHeader | src/main.c:120 | as written: a release on a hidden blank cell of row 2 reveals the header cell above it |
| Minesweeper10.ReleaseSafeCorrected | src/main.c:113-128 | with the corrected fill: no bomb and no header cell is revealed, and the game goes on |
| Minesweeper10.SetIndices | src/main.c:158-171 | revealed set kept; each revealed cell gets the bomb sprite after game over, else its count plus 7, else the opened tile |
| Minesweeper10.GameOverRevealAsWritten | src/main.c:155-156 | as written: only the cell of the last click can be revealed |
| Minesweeper10.GameOverRevealsOneCell | src/main.c:155-156 | after game over the written loop leaves every other cell as it was |
| Minesweeper10.GameOverReveal | src/main.c:152-156 | as meant: once over, every playfield cell but the red bomb is revealed |
| Minesweeper10.GameOverShowsAll | src/main.c:152-171 | on UpdateCorrected's grid after game over every playfield cell is revealed and every bomb shows the bomb sprite |
| Minesweeper10.Tally | src/main.c:158-181 | indices set, totalRevealed is the number of revealed playfield cells, sunglasses exactly when it reaches totalCells - totalBombs; nothing else changes |
| Minesweeper10.Update | src/main.c:147-181 | as written: after game over only the last clicked cell is revealed; then the tally of Tally |
| Minesweeper10.UpdateCorrected | src/main.c:147-181 | with every playfield cell but the red bomb revealed after game over; then the tally of Tally |
| Minesweeper10.WinCheck | src/main.c:178-180 | with no bomb revealed, the count reaches totalCells - totalBombs if and only if every safe playfield cell is revealed |
| EventQueue.Init | src/canopy_event.c:3-5 | the ring starts empty |
| EventQueue.Count | src/canopy_event.c:7-21 | between 0 and 63 events wait; none exactly when head equals tail |
| EventQueue.PollContents | src/canopy_event.c:15-21 | moving the head past a non-empty ring's oldest event drops exactly that event |
| EventQueue.Push | src/canopy_event.c:7-13 | below capacity the event is appended; on a full ring nothing changes |
| EventQueue.Poll | src/canopy_event.c:15-21 | false exactly on an empty ring, which is unchanged; otherwise the oldest event, with the rest kept in order |
| EventQueue.EmptyIffNothingPolled | src/canopy_event.c:17 | nothing is polled if and only if head equals tail |
| EventQueue.PushPollEmpty | src/canopy_event.c:7-21 | an event pushed onto an empty ring polls back and leaves it empty |
| EventQueue.PushAllContents | src/canopy_event.c:7-13 | a run of pushes keeps the order and drops what finds the ring full: the first 63 of old and new events |
| EventQueue.Drain | src/canopy_event.c:15-21 | polling until false yields the waiting events in push order and empties the ring |
| LogLevels.RunLength | logger/logger.c:237 | the run contains no comma and ends at a comma or at the end |
| LogLevels.Tokens | logger/logger.c:237-285 | every strtok token is non-empty and comma-free |
| LogLevels.TokensJoin | logger/logger.c:237-285 | splitting non-empty comma-free tokens joined by commas gives them back |
| LogLevels.ExtraCommas | logger/logger.c:237-285 | extra commas add only empty fields, which strtok skips |
| LogLevels.TrimLeft | logger/logger.c:242 | only leading spaces are dropped; the result starts with a non-space |
| LogLevels.StripSign | logger/logger.c:244-250 | disable exactly on a leading '-'; a leading '-' or '+' is dropped |
| LogLevels.LowerAll | logger/logger.c:253-267 | each character is folded to lower case, length kept |
| LogLevels.LevelOfWord | logger/logger.c:262-267 | a level exactly when the folded name is that level's label |
| LogLevels.WordIsFoldedName | logger/logger.c:262-267 | each label is its level's name folded to small letters |
| LogLevels.FoldedWord | logger/logger.c:253-268 | a label folds to itself, names its level, and is neither ALL nor NONE |
| LogLevels.LevelNamed | logger/logger.c:261-268 | a level exactly when the name matches that level's label ignoring case |
| LogLevels.WordsApart | logger/logger.c:262-267 | the six labels are pairwise distinct |
| LogLevels.WordsStartApart | logger/logger.c:262-267 | no two labels start with the same letter |
| LogLevels.Classify | logger/logger.c:242-272 | trim, strip the sign, then ALL, NONE, a level with its sign, or unknown |
| LogLevels.Step | logger/logger.c:253-282 | ALL and NONE set the mask and count as a wipe; -LEVEL clears its bit; the first +LEVEL before a wipe starts from an empty mask; unknown tokens change nothing |
| LogLevels.Requests | logger/logger.c:237-285 | one request per token, in order |
| LogLevels.ClearedMeansWiped | logger/logger.c:239-278 | the cleared flag is set exactly when some request wiped the mask |
| LogLevels.FoldEnabled | logger/logger.c:231-289 | the parsed mask holds a level exactly when the last request speaking about it enables it |
| LogLevels.ConfigureLevels | logger/logger.c:231-289 | an unset variable keeps the mask; otherwise a level is on exactly when the reference reading of its tokens enables it |
| LogLevels.FirstEnableWipes | logger/logger.c:274-278 | "-ERROR,+INFO" from any mask leaves INFO alone |
| LogLevels.SetAfterWipe | logger/logger.c:281-282 | after a wipe, -LEVEL and +LEVEL change only their own bit |
| LogLevels.ClassifySet | logger/logger.c:242-282 | a token whose trimmed, unsigned part folds to a label sets that level, with its sign |
| LogLevels.SpacedSign | logger/logger.c:242-267 | any number of spaces, a sign and a level name in any case ask to set that level, disabling exactly on '-' |
| LogLevels.SignedAll | logger/logger.c:244-254 | a sign in front of ALL is ignored |
| LogLevels.TrailingSpace | logger/logger.c:242-272 | any token that ends in a space is unknown, since strcasecmp compares the space |
| LogLevels.EmitConfigured | logger/logger.c:164 | after LOG_LEVELS is folded in, a message of level l passes `ShouldEmit` exactly when the last request speaking for l enabled it, or the starting mask had l when none does |
| LogLevels.NoneSilences | logger/logger.c:28 | NONE silences every level; the initial mask emits every level |

## Left out

- File I/O is not modelled: `fopen`, `fread` and `fclose` become reads of a byte sequence. A short `fread` shows up as the file ending early. The duplicate `fclose` on an invalid magic is not modelled.
- Bmp.Load: the model requires `Supported`: a DIB size of 12 or from 40 to 124, the whole header present, a non-negative width and 3 or 4 channels. A size between two header kinds (52 or 64, say) takes the path of the largest kind it reaches, as the threshold tests at src/bmp.c:384-387 do. A size above 124 makes `fread` overrun the 124-byte `bmp_ih` (src/bmp.c:177). A size from 13 to 39 runs neither field parser, so `channels` and `row_stride` stay 0. A size below 12 is the same, and below 4 `ih.size` itself is only partly read. Other channel counts are excluded because the loader's own warning (src/bmp.c:392) names only 3 and 4 as supported. With 5 or more channels the C code is still defined: it swaps bytes 0 and 2 of each pixel (src/bmp.c:427-437) and skips the alpha pass (src/bmp.c:439), and this model does not cover that case. With 0 to 2 channels the swap reads `pixels[2]` past the last pixel, which is undefined. The C code bounds the width only from above (src/bmp.c:378), so a negative width gives a negative stride and an undefined allocation.
- Bmp.Load: it uses the corrected core-header geometry of `BmpHeader.ParseHeader` and `BmpHeader.Dimensions` (see Findings). As written, a core-header file gets row_stride 0 and an empty buffer, and post-processing then writes past it, which is undefined in C.
- BmpHeader.MaskWord: a mask that a short `fread` leaves unread is 0 here. In C the field keeps its zero-initialised value, which is also 0.
- BitMasks.DecodePixel: its own contract states only the zero-mask case, as DecodeChannel's does, for the same reason.
- BitMasks.DecodeChannel: its own contract states only the zero-mask case. The contiguous-mask lemmas state the rest. Masks with gaps and masks of more than 24 bits are not characterised, because there `(1 << bits) - 1` and `value * 255` overflow in C.
- The V4/V5 header fields and the `TRACE`/`ERROR` logging are not modelled; they have no effect on the image.
- The PPM loader and saver, `picasso_save_*` and the other file formats are not part of this model.
- Rendering (SDL, the window, textures, `render`, `drawTile`) is left out. The 10x10 game's drawn bomb counter (src/graphics.c:140-144) is left out with it.
- Minesweeper16.Handle: its own contract states what each event keeps and how far the counter moves. FlagToggle, LeftClick, LeftReleaseElsewhere, FaceClick and HandleConsistent state the rest of the behaviour.
- Minesweeper16.Handle: the model requires `Safe`, meaning every cell the C code reads or writes on a release is inside the grid. A right release reads `MINE` under the cursor unconditionally. `MINE_LAST` is written only when it differs from the cell under the cursor, by a left release over the canvas while playing, or by a right release on an unrevealed cell while playing. In those cases C indexes the array unchecked, which is undefined behaviour.
- Minesweeper10.Handle: its own contract states what a press records and that a right release changes nothing. RightClickCycle, ReleaseOnBomb, ReleaseSafe and ReleaseRevealsHeader state the rest.
- Minesweeper10.Update: the model requires the last clicked cell to lie inside the 10x10 grid once the game is over. Every click inside the 320x320 window gives such a cell. Otherwise C reads `grid[gridY][gridX]` outside the array.
- Randomness (`arc4random`, `rand`) is a layout parameter. The frame timer, `lastFrameTime` and the main loops are left out.
- Raster.DrawLine: the model requires every offset `y * width + x` the line writes to lie inside the pixel array, because the C routine writes without clipping. A column off the row is allowed when its offset wraps onto a neighbouring row inside the array. Lines with x1 < x0 plot nothing, as in C.
- Colors.SetAlpha: percentages outside 0..100 wrap as the `uint8_t` cast does. The contract characterises only 0..100.
- Backbuffers.ImageFromBackbuffer: its image has height*row_stride bytes, the corrected allocation that `Images.AllocImage` makes. As written, `picasso_alloc_image` allocates width*row_stride bytes (src/picasso.c:283, see Findings). When the height exceeds the width, the copy loop then writes past the buffer, which is undefined in C.
- Images.Copy: the model requires the destination to have at most as many channels as the source. `picasso_copy` has no such check. For a 3-to-4 copy it takes the next pixel's first byte as alpha, and it reads past the source buffer at its last pixel, which is undefined in C.
- Signed 32-bit `int` overflow is not modelled: integers are unbounded. In C such overflow is undefined. It can arise in `x + width` in rectangle normalisation and clipping (src/picasso.c:305-334), in `radius * radius` and the circle box (src/picasso.c:572-606), in the pixel offsets `y * row_stride + x * channels`, and in the games' counters.
- `picasso_alloc_image` and `picasso_malloc` failures (out of memory) are not modelled. Neither is uninitialised memory from `malloc`.
- The logger:
  - The numeric values of LOG_LEVEL_* are not modelled, because logger.h is not part of this model. The mask is a set of the six levels, ALL is all six and NONE is empty.
  - The log output machinery, timestamps and colours are not modelled.
  - The stderr message for unknown tokens is not modelled.
  - `strcasecmp` is modelled for strings without NUL and for ASCII case folding only.
- The canopy windowing, timing and the event payload's contents are left out. The event is a type parameter.

## Findings

| source | as written | input that shows it | evidently intended | confidence | as-written member | corrected member |
|---|---|---|---|---|---|---|
| src/picasso.c:283 | the pixel buffer has `width * row_stride` bytes | width 1, height 2, 3 channels: 3 bytes for 6 bytes of pixels | `height * row_stride` bytes | not executed | Images.AllocImageAsWritten | Images.AllocImage |
| src/bmp.c:384 | `parse_infoheader_fields` runs only for info headers and larger, so a core header leaves `row_stride` and `row_size` at 0 | the 1x1 24-bit core-header file `BmpHeader.CoreExample`: a 0-byte buffer while post-processing visits one pixel | row geometry computed for core headers too | not executed | BmpHeader.ParseHeaderAsWritten | BmpHeader.ParseHeader |
| src/bmp.c:236 | a core header sets `is_flipped = false`, although its own comment says core bitmaps are stored bottom-up | any core-header file of height 2 or more: rows come out upside down | `is_flipped = true` for core headers | not executed | BmpHeader.DimsAsWritten | BmpHeader.Dimensions |
| src/graphics.c:175 | revealTiles bounds the fill by the whole 10x10 array, so it spreads into the header rows 0 and 1 | bombs at (2,3) to (2,9), others clear; a click on (0,2) reveals (0,1) and, through row 1, cell (2,2) | the fill kept to rows 2..9 | not executed | Minesweeper10.RevealTilesAsWritten | Minesweeper10.RevealTiles |
| src/main.c:155-156 | the game-over reveal tests and writes `grid[gridY][gridX]` in place of `grid[y][x]` | game over after a click on a bomb: only that cell is revealed, and every other bomb stays hidden | reveal every playfield cell but the red bomb | not executed | Minesweeper10.GameOverRevealAsWritten | Minesweeper10.GameOverReveal |
