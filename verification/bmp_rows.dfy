/** Rows of a pixel buffer laid out `size` bytes apart: the row loop of
    picasso_load_bmp, which reads each padded on-disk row and keeps its first
    row_stride bytes, and picasso_flip_buffer_vertical (src/bmp.c). */
module BmpRows {
  import opened Machine
  import opened Options

  /** Byte j of row y of a buffer whose rows are `size` bytes apart, or 0 past
      the end of the buffer. */
  function RowByte(buf: seq<u8>, size: int, y: int, j: int): u8 {
    if 0 <= y * size + j < |buf| then buf[y * size + j] else 0
  }

  /** Rows e != d of width `size` never share a byte. */
  lemma RowsApart(size: int, d: int, e: int, j: int)
    requires 0 <= j < size && 0 <= d && 0 <= e && d != e
    ensures e * size + j < d * size || (d + 1) * size <= e * size + j
  {
    if e < d {
      MulMonotone(e + 1, d, size);
    } else {
      MulMonotone(d + 1, e, size);
    }
  }

  /** Row y of a buffer of rows `size` bytes apart lies inside a buffer of n rows. */
  lemma RowInside(size: int, n: int, y: int, j: int)
    requires 0 <= j < size && 0 <= y < n
    ensures 0 <= y * size + j < n * size
  {
    GridIndex(j, y, size, n);
  }

  /** The memcpy of `row` over row d. */
  function WriteRow(buf: seq<u8>, size: nat, d: nat, row: seq<u8>): (r: seq<u8>)
    requires |row| == size && (d + 1) * size <= |buf|
    ensures |r| == |buf|
  {
    buf[..d * size] + row + buf[(d + 1) * size..]
  }

  /** A row write changes exactly the bytes of row d, to those of the new row. */
  lemma WriteRowAt(buf: seq<u8>, size: nat, d: nat, row: seq<u8>, i: int)
    requires |row| == size && (d + 1) * size <= |buf| && 0 <= i < |buf|
    ensures WriteRow(buf, size, d, row)[i] == if d * size <= i < (d + 1) * size then row[i - d * size] else buf[i]
  {
    assert (d + 1) * size == d * size + size;
  }

  /** After a row write, row d holds the new row and every other row is unchanged. */
  lemma WriteRowByte(buf: seq<u8>, size: nat, d: nat, row: seq<u8>, e: int, j: int)
    requires |row| == size && (d + 1) * size <= |buf| && 0 <= e && 0 <= j < size
    ensures RowByte(WriteRow(buf, size, d, row), size, e, j)
         == if e == d then row[j] else RowByte(buf, size, e, j)
  {
    var i := e * size + j;
    if e != d {
      RowsApart(size, d, e, j);
    } else {
      assert (d + 1) * size == d * size + size;
    }
    if 0 <= i < |buf| {
      WriteRowAt(buf, size, d, row, i);
    }
  }

  /** Row y, `size` bytes from `y * size`. */
  function Row(buf: seq<u8>, size: nat, y: nat): (r: seq<u8>)
    requires (y + 1) * size <= |buf|
    ensures |r| == size
  {
    assert (y + 1) * size == y * size + size;
    buf[y * size..(y + 1) * size]
  }

  /** Byte j of the copied row is byte j of row y. */
  lemma RowAt(buf: seq<u8>, size: nat, y: nat, j: int)
    requires (y + 1) * size <= |buf| && 0 <= j < size
    ensures Row(buf, size, y)[j] == RowByte(buf, size, y, j)
  {
    assert (y + 1) * size == y * size + size;
  }

  /** Two buffers of n rows agree when every byte of every row does. */
  lemma {:induction false} SameRows(a: seq<u8>, b: seq<u8>, size: nat, n: nat)
    requires |a| == |b| == n * size
    requires forall y, j | 0 <= y < n && 0 <= j < size :: RowByte(a, size, y, j) == RowByte(b, size, y, j)
    ensures a == b
  {
    forall i | 0 <= i < |a|
      ensures a[i] == b[i]
    {
      IndexCell(i, size, n);
      var y, j := i / size, i % size;
      assert RowByte(a, size, y, j) == RowByte(b, size, y, j);
    }
  }

  /** The file row that lands in destination row y: the last one first when the
      rows are stored bottom-up. */
  function SourceRow(y: int, height: int, flipped: bool): (s: int)
    ensures 0 <= y < height ==> 0 <= s < height
  {
    if flipped then height - 1 - y else y
  }

  /** Destination and file rows pair off one to one. */
  lemma SourceRowInvolution(y: int, height: int, flipped: bool)
    ensures SourceRow(SourceRow(y, height, flipped), height, flipped) == y
  {
  }

  /** The destination buffer of the row loop: row y holds the first `stride`
      bytes of file row SourceRow(y), which starts `rowSize` bytes after the
      previous one. */
  function PlaceRows(f: seq<u8>, start: nat, height: nat, rowSize: nat, stride: nat, flipped: bool): (r: seq<u8>)
    requires stride <= rowSize && start + height * rowSize <= |f|
    ensures |r| == height * stride
    ensures forall y, j | 0 <= y < height && 0 <= j < stride ::
      RowByte(r, stride, y, j) == RowByte(f[start..], rowSize, SourceRow(y, height, flipped), j)
  {
    var r := seq(height * stride, i requires 0 <= i < height * stride => PlacedByte(f, start, height, rowSize, stride, flipped, i));
    forall y, j | 0 <= y < height && 0 <= j < stride
      ensures RowByte(r, stride, y, j) == RowByte(f[start..], rowSize, SourceRow(y, height, flipped), j)
    {
      RowInside(stride, height, y, j);
      GridIndex(j, y, stride, height);
    }
    r
  }

  function PlacedByte(f: seq<u8>, start: nat, height: nat, rowSize: nat, stride: nat, flipped: bool, i: int): u8
    requires stride <= rowSize && start + height * rowSize <= |f| && 0 <= i < height * stride
  {
    IndexCell(i, stride, height);
    RowByte(f[start..], rowSize, SourceRow(i / stride, height, flipped), i % stride)
  }

  /** The file row loop of picasso_load_bmp: row after row, `rowSize` bytes are
      read and the first `stride` of them copied to their destination row; a
      short read abandons the load. */
  method ReadRows(f: seq<u8>, start: nat, height: nat, rowSize: nat, stride: nat, flipped: bool)
    returns (r: Option<seq<u8>>)
    requires stride <= rowSize && start <= |f|
    ensures r.Some? <==> start + height * rowSize <= |f|
    ensures r.Some? ==> r.value == PlaceRows(f, start, height, rowSize, stride, flipped)
  {
    var pixels := seq(height * stride, _ => 0);
    var pos := start;
    var y := 0;
    while y < height
      invariant 0 <= y <= height && pos == start + y * rowSize && pos <= |f|
      invariant |pixels| == height * stride
      invariant Placed(f, start, height, rowSize, stride, flipped, pixels, y)
    {
      NextRow(start, height, rowSize, y, pos);
      if pos + rowSize > |f| {
        return None;
      }
      var dest := SourceRow(y, height, flipped);
      MulMonotone(dest + 1, height, stride);
      var before := pixels;
      pixels := WriteRow(pixels, stride, dest, f[pos..pos + stride]);
      ReadRowStep(f, start, height, rowSize, stride, flipped, y, pos, before, pixels);
      pos := pos + rowSize;
      y := y + 1;
    }
    SameRows(pixels, PlaceRows(f, start, height, rowSize, stride, flipped), stride, height);
    return Some(pixels);
  }

  /** The next row starts rowSize bytes further on, and a file too short for
      it is too short for all the rows. */
  lemma NextRow(start: nat, height: nat, rowSize: nat, y: nat, pos: nat)
    requires y < height && pos == start + y * rowSize
    ensures pos + rowSize == start + (y + 1) * rowSize <= start + height * rowSize
  {
    MulMonotone(y + 1, height, rowSize);
  }

  /** Every destination row whose file row comes before file row y holds
      that file row's first `stride` bytes. */
  predicate Placed(f: seq<u8>, start: nat, height: nat, rowSize: nat, stride: nat, flipped: bool,
                   pixels: seq<u8>, y: int)
    requires start <= |f|
  {
    forall d, j | 0 <= d < height && 0 <= j < stride && SourceRow(d, height, flipped) < y ::
      RowByte(pixels, stride, d, j) == RowByte(f[start..], rowSize, SourceRow(d, height, flipped), j)
  }

  /** Writing file row y to its destination extends the rows already placed. */
  lemma ReadRowStep(f: seq<u8>, start: nat, height: nat, rowSize: nat, stride: nat, flipped: bool,
                    y: nat, pos: nat, before: seq<u8>, after: seq<u8>)
    requires stride <= rowSize && y < height && pos == start + y * rowSize && pos + rowSize <= |f|
    requires |before| == height * stride && (SourceRow(y, height, flipped) + 1) * stride <= |before|
    requires after == WriteRow(before, stride, SourceRow(y, height, flipped), f[pos..pos + stride])
    requires Placed(f, start, height, rowSize, stride, flipped, before, y)
    ensures Placed(f, start, height, rowSize, stride, flipped, after, y + 1)
  {
    var dest := SourceRow(y, height, flipped);
    var row := f[pos..pos + stride];
    forall d, j | 0 <= d < height && 0 <= j < stride && SourceRow(d, height, flipped) < y + 1
      ensures RowByte(after, stride, d, j) == RowByte(f[start..], rowSize, SourceRow(d, height, flipped), j)
    {
      WriteRowByte(before, stride, dest, row, d, j);
      SourceRowInvolution(d, height, flipped);
      if d == dest {
        SourceRowInvolution(y, height, flipped);
        FileRowByte(f, start, rowSize, y, j);
      }
    }
  }

  /** Byte j of file row y, `rowSize` bytes per row from `start`. */
  lemma FileRowByte(f: seq<u8>, start: nat, rowSize: nat, y: nat, j: nat)
    requires j < rowSize && start + y * rowSize + rowSize <= |f|
    ensures start + y * rowSize + j < |f|
    ensures f[start + y * rowSize + j] == RowByte(f[start..], rowSize, y, j)
  {
  }

  /** picasso_flip_buffer_vertical's row size: width * channels rounded up to a
      multiple of four. */
  function FlipRowSize(width: nat, channels: nat): (s: nat)
    ensures s % 4 == 0 && width * channels <= s < width * channels + 4
  {
    (width * channels + 3) / 4 * 4
  }

  /** b is a with its first `height` rows in reverse order and nothing after them changed. */
  predicate IsVerticalFlip(a: seq<u8>, b: seq<u8>, height: int, size: nat) {
    && |b| == |a|
    && (forall y, j | 0 <= y < height && 0 <= j < size :: RowByte(b, size, y, j) == RowByte(a, size, height - 1 - y, j))
    && (forall i | Max(height, 0) * size <= i < |a| :: b[i] == a[i])
  }

  /** Exchange rows a and b through a temporary row, as the three memcpy calls do. */
  function SwapRows(buf: seq<u8>, size: nat, a: nat, b: nat): (r: seq<u8>)
    requires (a + 1) * size <= |buf| && (b + 1) * size <= |buf|
    ensures |r| == |buf|
  {
    var temp := Row(buf, size, a);
    var once := WriteRow(buf, size, a, Row(buf, size, b));
    WriteRow(once, size, b, temp)
  }

  /** Byte j of row e once rows a and b have changed places. */
  function SwappedRowByte(buf: seq<u8>, size: nat, a: nat, b: nat, e: int, j: int): u8 {
    if e == b then RowByte(buf, size, a, j) else if e == a then RowByte(buf, size, b, j)
    else RowByte(buf, size, e, j)
  }

  /** A swap exchanges rows a and b and leaves every other row as it was. */
  lemma SwapRowByte(buf: seq<u8>, size: nat, a: nat, b: nat, e: int, j: int)
    requires (a + 1) * size <= |buf| && (b + 1) * size <= |buf| && 0 <= e && 0 <= j < size
    ensures RowByte(SwapRows(buf, size, a, b), size, e, j)
      == if e == b then RowByte(buf, size, a, j) else if e == a then RowByte(buf, size, b, j)
         else RowByte(buf, size, e, j)
  {
    var temp := Row(buf, size, a);
    var once := WriteRow(buf, size, a, Row(buf, size, b));
    WriteRowByte(buf, size, a, Row(buf, size, b), e, j);
    WriteRowByte(once, size, b, temp, e, j);
    RowAt(buf, size, a, j);
    RowAt(buf, size, b, j);
  }

  /** Bytes after both rows are untouched by a swap. */
  lemma SwapRowsTail(buf: seq<u8>, size: nat, a: nat, b: nat, i: int)
    requires (a + 1) * size <= |buf| && (b + 1) * size <= |buf|
    requires (a + 1) * size <= i < |buf| && (b + 1) * size <= i
    ensures SwapRows(buf, size, a, b)[i] == buf[i]
  {
    var once := WriteRow(buf, size, a, Row(buf, size, b));
    WriteRowAt(buf, size, a, Row(buf, size, b), i);
    WriteRowAt(once, size, b, Row(buf, size, a), i);
  }

  /** picasso_flip_buffer_vertical: rows y and height - 1 - y are exchanged for
      every y below height / 2. For a negative height the loop bound is negative
      under C's division and Dafny's alike, so nothing moves. */
  method FlipVertical(buf: seq<u8>, width: nat, height: int, channels: nat) returns (r: seq<u8>)
    requires Max(height, 0) * FlipRowSize(width, channels) <= |buf|
    ensures IsVerticalFlip(buf, r, height, FlipRowSize(width, channels))
  {
    r := FlipRows(buf, height, FlipRowSize(width, channels));
  }

  /** The exchange loop for rows `size` bytes apart. */
  method FlipRows(buf: seq<u8>, height: int, size: nat) returns (r: seq<u8>)
    requires Max(height, 0) * size <= |buf|
    ensures IsVerticalFlip(buf, r, height, size)
  {
    r := buf;
    var y := 0;
    FlipStart(buf, height, size);
    while y < height / 2
      invariant 0 <= y && (height >= 0 ==> y <= height / 2) && (height < 0 ==> y == 0)
      invariant FlippedOutside(buf, r, height, size, y)
    {
      var top, bottom := y, height - y - 1;
      SwapInside(buf, r, height, size, y);
      var before := r;
      r := SwapRows(r, size, top, bottom);
      SwapFacts(before, r, size, top, bottom, height * size);
      FlipStep(buf, before, r, height, size, y);
      y := y + 1;
    }
    FlipDone(buf, r, height, size, y);
  }

  /** The row of the original buffer that row d holds once the rows below y
      and above height - 1 - y have been exchanged. */
  function FlipSource(d: int, height: int, y: int): int {
    if d < y || d > height - 1 - y then height - 1 - d else d
  }

  /** r is buf with the first y exchanges of the flip loop done. */
  predicate FlippedOutside(buf: seq<u8>, r: seq<u8>, height: int, size: nat, y: int) {
    && |r| == |buf|
    && (forall d, j | 0 <= d < height && 0 <= j < size ::
          RowByte(r, size, d, j) == RowByte(buf, size, FlipSource(d, height, y), j))
    && (forall i | Max(height, 0) * size <= i < |buf| :: r[i] == buf[i])
  }

  /** after is before with rows a and b exchanged and nothing from `limit` on changed. */
  ghost predicate Swapped(before: seq<u8>, after: seq<u8>, size: nat, a: nat, b: nat, limit: nat) {
    && |after| == |before|
    && (forall e, j | 0 <= e && 0 <= j < size ::
          RowByte(after, size, e, j) == SwappedRowByte(before, size, a, b, e, j))
    && (forall i | limit <= i < |before| :: after[i] == before[i])
  }

  /** What a swap does, row by row and after the rows. */
  lemma SwapFacts(before: seq<u8>, after: seq<u8>, size: nat, top: nat, bottom: nat, limit: nat)
    requires (top + 1) * size <= limit && (bottom + 1) * size <= limit
    requires (top + 1) * size <= |before| && (bottom + 1) * size <= |before|
    requires after == SwapRows(before, size, top, bottom)
    ensures Swapped(before, after, size, top, bottom, limit)
  {
    forall e, j | 0 <= e && 0 <= j < size
      ensures RowByte(after, size, e, j) == SwappedRowByte(before, size, top, bottom, e, j)
    {
      SwapRowByte(before, size, top, bottom, e, j);
    }
    forall i | limit <= i < |before|
      ensures after[i] == before[i]
    {
      SwapRowsTail(before, size, top, bottom, i);
    }
  }

  /** Before the first exchange nothing has moved. */
  lemma FlipStart(buf: seq<u8>, height: int, size: nat)
    ensures FlippedOutside(buf, buf, height, size, 0)
  {
    forall d, j | 0 <= d < height && 0 <= j < size
      ensures RowByte(buf, size, d, j) == RowByte(buf, size, FlipSource(d, height, 0), j)
    {
      assert FlipSource(d, height, 0) == d;
    }
  }

  /** Rows y and height - 1 - y of a partly flipped buffer lie inside its
      first height rows. */
  lemma SwapInside(buf: seq<u8>, r: seq<u8>, height: int, size: nat, y: nat)
    requires 0 <= y < height / 2 && Max(height, 0) * size <= |buf|
    requires FlippedOutside(buf, r, height, size, y)
    ensures (y + 1) * size <= height * size && (height - y - 1 + 1) * size <= height * size
    ensures height * size <= |r|
  {
    MulMonotone(y + 1, height, size);
    MulMonotone(height - y, height, size);
  }

  /** Exchanging rows y and height - 1 - y extends the flipped band by one row
      at each end and leaves the bytes after the rows alone. */
  lemma FlipStep(buf: seq<u8>, before: seq<u8>, after: seq<u8>, height: int, size: nat, y: nat)
    requires 0 <= y < height / 2
    requires FlippedOutside(buf, before, height, size, y)
    requires Swapped(before, after, size, y, height - y - 1, height * size)
    ensures FlippedOutside(buf, after, height, size, y + 1)
  {
    forall d, j | 0 <= d < height && 0 <= j < size
      ensures RowByte(after, size, d, j) == RowByte(buf, size, FlipSource(d, height, y + 1), j)
    {
      assert RowByte(after, size, d, j) == SwappedRowByte(before, size, y, height - y - 1, d, j);
    }
  }

  /** Once the loop has run height / 2 times every row is exchanged. */
  lemma FlipDone(buf: seq<u8>, r: seq<u8>, height: int, size: nat, y: int)
    requires 0 <= y && (height >= 0 ==> y == height / 2) && (height < 0 ==> y == 0)
    requires FlippedOutside(buf, r, height, size, y)
    ensures IsVerticalFlip(buf, r, height, size)
  {
    forall d, j | 0 <= d < height && 0 <= j < size
      ensures RowByte(r, size, d, j) == RowByte(buf, size, height - 1 - d, j)
    {
      assert FlipSource(d, height, y) == height - 1 - d;
    }
  }

  /** The middle row of an odd height stays where it is. */
  lemma FlipKeepsMiddle(a: seq<u8>, b: seq<u8>, height: int, size: nat)
    requires IsVerticalFlip(a, b, height, size) && height > 0 && height % 2 == 1
    ensures forall j | 0 <= j < size :: RowByte(b, size, height / 2, j) == RowByte(a, size, height / 2, j)
  {
    assert height - 1 - height / 2 == height / 2;
  }

  /** Flipping twice restores the buffer. */
  lemma FlipTwice(a: seq<u8>, b: seq<u8>, c: seq<u8>, height: int, size: nat)
    requires Max(height, 0) * size <= |a|
    requires IsVerticalFlip(a, b, height, size) && IsVerticalFlip(b, c, height, size)
    ensures c == a
  {
    var n := Max(height, 0);
    var top := a[..n * size];
    forall i | 0 <= i < |a|
      ensures c[i] == a[i]
    {
      if i < n * size {
        IndexCell(i, size, n);
        var y, j := i / size, i % size;
        assert RowByte(c, size, y, j) == RowByte(b, size, height - 1 - y, j);
      }
    }
  }
}
