/** The drawing primitives of picasso: filled and stroked rectangles, filled
    and stroked circles, and the Bresenham line. Each returns the new buffer;
    the rectangle operations also return the caller's rectangle as they leave
    it, since they normalise it in place. */
module Raster {
  import opened Machine
  import opened Colors
  import opened Rects
  import opened Backbuffers

  /** picasso_fill_rect: blends the colour onto exactly the buffer pixels the
      rectangle spans and leaves the rest; the rectangle comes back normalised. */
  function FillRect(bf: Backbuffer, r: Rect, c: Color): (res: (Backbuffer, Rect))
    requires Valid(bf)
    ensures res.1 == Normalize(r)
    ensures Valid(res.0) && res.0 == bf.(pixels := res.0.pixels)
    ensures forall x, y | Inside(bf, x, y) ::
      Pixel(res.0, x, y) == if Spans(r, x, y) then Blend(Pixel(bf, x, y), ColorToU32(c)) else Pixel(bf, x, y)
  {
    var n := Normalize(r);
    match Clip(bf.width, bf.height, n)
    case None => (bf, n)
    case Some(b) =>
      (MapPixels(bf, (x, y, p) => if b.Contains(x, y) then Blend(p, ColorToU32(c)) else p), n)
  }

  /** The inner rectangle picasso_draw_rect leaves undrawn: the normalised outer
      one shrunk by the thickness on every side (possibly with a negative
      extent, in which case it covers nothing). */
  function Inner(n: Rect, thickness: int): Rect {
    Rect(n.x + thickness, n.y + thickness, n.width - 2 * thickness, n.height - 2 * thickness)
  }

  /** A pixel of the border of width `t` of the rectangle `n`. */
  predicate InBorder(n: Rect, t: int, x: int, y: int) {
    Covers(n, x, y) && !(n.x + t <= x < n.x + n.width - t && n.y + t <= y < n.y + n.height - t)
  }

  /** picasso_draw_rect: a thickness of 0 or less leaves the buffer and the
      rectangle as they are; otherwise the rectangle is normalised and exactly the
      buffer pixels of its border of that thickness are blended. */
  function DrawRect(bf: Backbuffer, outer: Rect, thickness: int, c: Color): (res: (Backbuffer, Rect))
    requires Valid(bf)
    ensures thickness <= 0 ==> res == (bf, outer)
    ensures thickness > 0 ==> res.1 == Normalize(outer)
    ensures Valid(res.0) && res.0 == bf.(pixels := res.0.pixels)
    ensures forall x, y | Inside(bf, x, y) ::
      Pixel(res.0, x, y) ==
        if thickness > 0 && InBorder(Normalize(outer), thickness, x, y)
        then Blend(Pixel(bf, x, y), ColorToU32(c))
        else Pixel(bf, x, y)
  {
    if thickness <= 0 then (bf, outer)
    else
      var n := Normalize(outer);
      var inner := Inner(n, thickness);
      match Clip(bf.width, bf.height, n)
      case None => (bf, n)
      case Some(ob) =>
        var ib := match Clip(bf.width, bf.height, inner)
          case None => Bounds(0, 0, 0, 0)
          case Some(b) => b;
        (MapPixels(bf, (x, y, p) => if ob.Contains(x, y) && !ib.Contains(x, y) then Blend(p, ColorToU32(c)) else p), n)
  }

  /** A border at least half as thick as the rectangle is wide or high fills
      the whole rectangle. */
  lemma DrawRectThickFills(bf: Backbuffer, outer: Rect, thickness: int, c: Color, x: int, y: int)
    requires Valid(bf) && Inside(bf, x, y) && thickness > 0
    requires var n := Normalize(outer); 2 * thickness >= n.width || 2 * thickness >= n.height
    ensures Pixel(DrawRect(bf, outer, thickness, c).0, x, y) ==
      if Spans(outer, x, y) then Blend(Pixel(bf, x, y), ColorToU32(c)) else Pixel(bf, x, y)
  {
  }

  /** PICASSO_CIRCLE_DEFAULT_TOLERANCE; the circle box overshoots the radius by
      one more than this. */
  const CircleTolerance := 2

  /** picasso__make_circle_bounds: the square of side 2 * (radius + 3) + 1
      centred on (x0, y0). */
  function CircleBox(x0: int, y0: int, radius: int): (r: Rect)
    ensures r.width == r.height && r.width % 2 == 1
    ensures r.x + (r.width - 1) / 2 == x0 && r.y + (r.height - 1) / 2 == y0
    ensures (r.width - 1) / 2 == radius + CircleTolerance + 1
  {
    var overshoot := CircleTolerance + 1;
    Rect(x0 - radius - overshoot, y0 - radius - overshoot, (radius + overshoot) * 2 + 1, (radius + overshoot) * 2 + 1)
  }

  /** The filled-circle test with its `+ radius` fudge term. */
  predicate InDisk(dx: int, dy: int, radius: int) {
    dx * dx + dy * dy <= radius * radius + radius
  }

  /** The stroked-circle test: between the fudged inner and outer circles. */
  predicate InRing(dx: int, dy: int, radius: int, thickness: int) {
    var d2 := dx * dx + dy * dy;
    (radius - thickness) * (radius - thickness) + radius <= d2 <= radius * radius + radius
  }

  /** picasso_fill_circle: blends the buffer pixels of the circle box that pass
      the disk test, and no others. */
  function FillCircle(bf: Backbuffer, x0: int, y0: int, radius: int, c: Color): (r: Backbuffer)
    requires Valid(bf)
    ensures Valid(r) && r == bf.(pixels := r.pixels)
    ensures forall x, y | Inside(bf, x, y) ::
      Pixel(r, x, y) ==
        if Covers(CircleBox(x0, y0, radius), x, y) && InDisk(x - x0, y - y0, radius)
        then Blend(Pixel(bf, x, y), ColorToU32(c))
        else Pixel(bf, x, y)
  {
    match Clip(bf.width, bf.height, CircleBox(x0, y0, radius))
    case None => bf
    case Some(b) =>
      MapPixels(bf, (x, y, p) => if b.Contains(x, y) && InDisk(x - x0, y - y0, radius) then Blend(p, ColorToU32(c)) else p)
  }

  /** A coordinate offset passing the disk test is at most the radius. */
  lemma DiskOffsetBound(d: int, e: int, radius: int)
    requires radius >= 0 && InDisk(d, e, radius)
    ensures -radius <= d <= radius
  {
    if d > radius || d < -radius {
      var a := Abs(d);
      assert a * a == d * d;
      MulMonotone(radius + 1, a, a);
      MulMonotone(radius + 1, a, radius + 1);
      assert false;
    }
  }

  /** For a non-negative radius the box does not cut the disk: the filled
      pixels are exactly the buffer pixels passing the disk test. */
  lemma CircleBoxHoldsDisk(x0: int, y0: int, radius: int, x: int, y: int)
    requires radius >= 0 && InDisk(x - x0, y - y0, radius)
    ensures Covers(CircleBox(x0, y0, radius), x, y)
  {
    DiskOffsetBound(x - x0, y - y0, radius);
    DiskOffsetBound(y - y0, x - x0, radius);
  }

  /** Radius 0 fills the centre pixel only. */
  lemma FillCircleRadiusZero(x0: int, y0: int, x: int, y: int)
    ensures InDisk(x - x0, y - y0, 0) <==> x == x0 && y == y0
  {
    if InDisk(x - x0, y - y0, 0) {
      DiskOffsetBound(x - x0, y - y0, 0);
      DiskOffsetBound(y - y0, x - x0, 0);
    }
  }

  /** picasso_draw_circle: blends the buffer pixels of the circle box that pass
      the ring test, and no others. */
  function DrawCircle(bf: Backbuffer, x0: int, y0: int, radius: int, thickness: int, c: Color): (r: Backbuffer)
    requires Valid(bf)
    ensures Valid(r) && r == bf.(pixels := r.pixels)
    ensures forall x, y | Inside(bf, x, y) ::
      Pixel(r, x, y) ==
        if Covers(CircleBox(x0, y0, radius), x, y) && InRing(x - x0, y - y0, radius, thickness)
        then Blend(Pixel(bf, x, y), ColorToU32(c))
        else Pixel(bf, x, y)
  {
    match Clip(bf.width, bf.height, CircleBox(x0, y0, radius))
    case None => bf
    case Some(b) =>
      MapPixels(bf, (x, y, p) => if b.Contains(x, y) && InRing(x - x0, y - y0, radius, thickness) then Blend(p, ColorToU32(c)) else p)
  }

  /** The stroked circle lies within the filled one: drawing never touches a
      pixel that filling the same circle would leave. */
  lemma RingInsideDisk(dx: int, dy: int, radius: int, thickness: int)
    requires InRing(dx, dy, radius, thickness)
    ensures InDisk(dx, dy, radius)
  {
  }

  /** The Bresenham state after k columns: the row offset from y0 and the
      decision variable, starting from 0 and 2 * dy - dx. */
  function LineState(dx: int, dy: int, k: nat): (int, int)
  {
    if k == 0 then (0, 2 * dy - dx)
    else
      var (o, d) := LineState(dx, dy, k - 1);
      if d > 0 then (o + 1, d - 2 * dx + 2 * dy) else (o, d + 2 * dy)
  }

  /** The row picasso_draw_line plots in column x0 + k. */
  function LineRow(x0: int, y0: int, x1: int, y1: int, k: nat): int {
    y0 + LineState(x1 - x0, y1 - y0, k).0
  }

  /** The decision variable is determined by the row offset, and the row
      advances by at most one per column. */
  lemma {:induction false} LineStateShape(dx: int, dy: int, k: nat)
    ensures LineState(dx, dy, k).1 == 2 * dy * (k + 1) - dx - 2 * dx * LineState(dx, dy, k).0
    ensures 0 <= LineState(dx, dy, k).0 <= k
  {
    if k > 0 {
      LineStateShape(dx, dy, k - 1);
      var (o, d) := LineState(dx, dy, k - 1);
      ShapeStep(dx, dy, k, o, d);
    }
  }

  /** One Bresenham step keeps the decision variable's closed form. */
  lemma ShapeStep(dx: int, dy: int, k: int, o: int, d: int)
    requires d == 2 * dy * k - dx - 2 * dx * o
    ensures d - 2 * dx + 2 * dy == 2 * dy * (k + 1) - dx - 2 * dx * (o + 1)
    ensures d + 2 * dy == 2 * dy * (k + 1) - dx - 2 * dx * o
  {
    assert 2 * dy * (k + 1) == 2 * dy * k + 2 * dy;
    assert 2 * dx * (o + 1) == 2 * dx * o + 2 * dx;
  }

  /** For a slope in [0, 1] each plotted row is the nearest to the ideal line:
      |2 * dx * (row - y0) - 2 * dy * k| <= dx. */
  lemma {:induction false} LineError(dx: int, dy: int, k: nat)
    requires 0 <= dy <= dx
    ensures -dx <= 2 * dy * k - 2 * dx * LineState(dx, dy, k).0 <= dx
  {
    if k > 0 {
      LineError(dx, dy, k - 1);
      LineStateShape(dx, dy, k - 1);
      var (o, d) := LineState(dx, dy, k - 1);
      ErrorStep(dx, dy, k, o, d);
    }
  }

  /** One Bresenham step keeps the error within dx: the row moves up exactly
      when the decision variable is positive. */
  lemma ErrorStep(dx: int, dy: int, k: int, o: int, d: int)
    requires 0 <= dy <= dx
    requires -dx <= 2 * dy * (k - 1) - 2 * dx * o <= dx
    requires d == 2 * dy * (k - 1 + 1) - dx - 2 * dx * o
    ensures d > 0 ==> -dx <= 2 * dy * k - 2 * dx * (o + 1) <= dx
    ensures d <= 0 ==> -dx <= 2 * dy * k - 2 * dx * o <= dx
  {
    assert 2 * dy * k == 2 * dy * (k - 1) + 2 * dy;
    assert 2 * dx * (o + 1) == 2 * dx * o + 2 * dx;
  }

  /** The offset picasso_draw_line writes in column x0 + k: `y * width + x`,
      with no check that x lies on the row. */
  function LineIndex(bf: Backbuffer, x0: int, y0: int, x1: int, y1: int, k: nat): int {
    LineRow(x0, y0, x1, y1, k) * bf.width + x0 + k
  }

  /** Every offset the line writes is inside the pixel array (the routine does
      no clipping). A column off the row still lands in the array when the
      offset wraps onto a neighbouring row. */
  predicate LineInBuffer(bf: Backbuffer, x0: int, y0: int, x1: int, y1: int) {
    forall k: nat | x0 + k < x1 :: 0 <= LineIndex(bf, x0, y0, x1, y1, k) < |bf.pixels|
  }

  /** Offset i is none of the first n the line writes. */
  predicate Missed(bf: Backbuffer, x0: int, y0: int, x1: int, y1: int, n: int, i: int) {
    forall k: nat | k < n :: LineIndex(bf, x0, y0, x1, y1, k) != i
  }

  /** A line whose every plotted pixel is inside the buffer on its own row. */
  predicate LineInside(bf: Backbuffer, x0: int, y0: int, x1: int, y1: int) {
    forall k: nat | x0 + k < x1 :: Inside(bf, x0 + k, LineRow(x0, y0, x1, y1, k))
  }

  /** picasso_draw_line: for each column x0 + k in [x0, x1) the offset
      LineIndex is overwritten with the colour, without blending, and every
      other offset is kept. When the line stays inside the buffer, this is:
      exactly the pixels (x, LineRow) for x in [x0, x1) take the colour. */
  method DrawLine(bf: Backbuffer, x0: int, y0: int, x1: int, y1: int, c: Color) returns (r: Backbuffer)
    requires Valid(bf) && LineInBuffer(bf, x0, y0, x1, y1)
    ensures Valid(r) && r == bf.(pixels := r.pixels)
    ensures forall k: nat | x0 + k < x1 :: r.pixels[LineIndex(bf, x0, y0, x1, y1, k)] == ColorToU32(c)
    ensures forall i | 0 <= i < |bf.pixels| && Missed(bf, x0, y0, x1, y1, x1 - x0, i) ::
      r.pixels[i] == bf.pixels[i]
    ensures LineInside(bf, x0, y0, x1, y1) ==>
      forall x, y | Inside(bf, x, y) ::
        Pixel(r, x, y) ==
          if x0 <= x < x1 && y == LineRow(x0, y0, x1, y1, x - x0) then ColorToU32(c) else Pixel(bf, x, y)
  {
    var p := ColorToU32(c);
    var dx, dy := x1 - x0, y1 - y0;
    var d := 2 * dy - dx;
    var y := y0;
    r := bf;
    var k: nat := 0;
    while x0 + k < x1
      invariant x0 + k <= x1 || k == 0
      invariant Valid(r) && r == bf.(pixels := r.pixels)
      invariant (y - y0, d) == LineState(dx, dy, k)
      invariant forall j: nat | j < k :: r.pixels[LineIndex(bf, x0, y0, x1, y1, j)] == p
      invariant forall i | 0 <= i < |bf.pixels| && Missed(bf, x0, y0, x1, y1, k, i) ::
        r.pixels[i] == bf.pixels[i]
    {
      var at := y * r.width + x0 + k;
      assert at == LineIndex(bf, x0, y0, x1, y1, k);
      r := r.(pixels := r.pixels[at := p]);
      if d > 0 {
        y := y + 1;
        d := d - 2 * dx;
      }
      d := d + 2 * dy;
      k := k + 1;
    }
    if LineInside(bf, x0, y0, x1, y1) {
      LineOnGrid(bf, r, x0, y0, x1, y1, p);
    }
  }

  /** When every plotted pixel is on its own row inside the buffer, the
      offsets the line writes are exactly the pixels (x, LineRow) for x in
      [x0, x1): distinct pixels have distinct offsets. */
  lemma LineOnGrid(bf: Backbuffer, r: Backbuffer, x0: int, y0: int, x1: int, y1: int, p: u32)
    requires Valid(bf) && r == bf.(pixels := r.pixels) && |r.pixels| == |bf.pixels|
    requires LineInside(bf, x0, y0, x1, y1) && LineInBuffer(bf, x0, y0, x1, y1)
    requires forall k: nat | x0 + k < x1 :: r.pixels[LineIndex(bf, x0, y0, x1, y1, k)] == p
    requires forall i | 0 <= i < |bf.pixels| && Missed(bf, x0, y0, x1, y1, x1 - x0, i) ::
      r.pixels[i] == bf.pixels[i]
    ensures forall x, y | Inside(bf, x, y) ::
      Pixel(r, x, y) == if x0 <= x < x1 && y == LineRow(x0, y0, x1, y1, x - x0) then p else Pixel(bf, x, y)
  {
    forall x, y | Inside(bf, x, y)
      ensures Pixel(r, x, y) == if x0 <= x < x1 && y == LineRow(x0, y0, x1, y1, x - x0) then p else Pixel(bf, x, y)
    {
      GridIndex(x, y, bf.width, bf.height);
      var i := y * bf.width + x;
      if x0 <= x < x1 && y == LineRow(x0, y0, x1, y1, x - x0) {
        assert i == LineIndex(bf, x0, y0, x1, y1, x - x0);
      } else {
        forall k: nat | k < x1 - x0
          ensures LineIndex(bf, x0, y0, x1, y1, k) != i
        {
          var yk := LineRow(x0, y0, x1, y1, k);
          assert Inside(bf, x0 + k, yk);
          GridIndex(x0 + k, yk, bf.width, bf.height);
        }
        assert Missed(bf, x0, y0, x1, y1, x1 - x0, i);
      }
    }
  }

  /** A one-pixel line starting at column -1 of row 1 lies outside the grid,
      yet its offset is that of the last pixel of row 0, which it overwrites. */
  lemma LineWrapsRow(bf: Backbuffer)
    requires Valid(bf) && bf.height >= 2
    ensures LineInBuffer(bf, -1, 1, 0, 1) && !LineInside(bf, -1, 1, 0, 1)
    ensures LineIndex(bf, -1, 1, 0, 1, 0) == 0 * bf.width + (bf.width - 1)
  {
    var at := WrapOffset(bf);
    assert bf.width * 2 <= |bf.pixels| by {
      MulMonotone(2, bf.height, bf.width);
    }
    forall k: nat | -1 + k < 0
      ensures 0 <= LineIndex(bf, -1, 1, 0, 1, k) < |bf.pixels|
    {
      assert k == 0;
    }
    assert !Inside(bf, -1 + 0, LineRow(-1, 1, 0, 1, 0));
  }

  /** The one offset of that line: row 1 starts one width into the array. */
  lemma WrapOffset(bf: Backbuffer) returns (at: int)
    ensures at == LineIndex(bf, -1, 1, 0, 1, 0) == bf.width - 1
  {
    var row := LineRow(-1, 1, 0, 1, 0);
    assert row == 1 by {
      assert LineState(1, 0, 0) == (0, 2 * 0 - 1);
    }
    at := LineIndex(bf, -1, 1, 0, 1, 0);
    assert at == row * bf.width - 1;
    RowOffset(row, bf.width);
  }

  lemma RowOffset(row: int, w: int)
    requires row == 1
    ensures row * w == w
  {
  }
}
