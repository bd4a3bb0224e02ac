/** Signed rectangles, their normalisation and their clipping to a buffer
    (picasso__normalize_rect and picasso__clip_rect_to_bounds). */
module Rects {
  import opened Machine
  import opened Options

  /** picasso_rect: the extents may be negative, drawing towards smaller coordinates. */
  datatype Rect = Rect(x: int, y: int, width: int, height: int)

  /** picasso_draw_bounds: the half-open pixel range [x0, x1) × [y0, y1). */
  datatype Bounds = Bounds(x0: int, y0: int, x1: int, y1: int) {
    predicate Contains(px: int, py: int) {
      x0 <= px < x1 && y0 <= py < y1
    }
  }

  /** The pixels a rectangle covers taken literally: [x, x+width) × [y, y+height),
      which is empty as soon as an extent is not positive. */
  predicate Covers(r: Rect, px: int, py: int) {
    r.x <= px < r.x + r.width && r.y <= py < r.y + r.height
  }

  /** The pixels a signed rectangle denotes: the span between its two corners,
      whichever way its extents point. */
  predicate Spans(r: Rect, px: int, py: int) {
    && Min(r.x, r.x + r.width) <= px < Max(r.x, r.x + r.width)
    && Min(r.y, r.y + r.height) <= py < Max(r.y, r.y + r.height)
  }

  predicate Normalized(r: Rect) {
    r.width >= 0 && r.height >= 0
  }

  /** picasso__normalize_rect: a negative extent is folded into the origin. The
      result has non-negative extents, covers literally what the input spans,
      and leaves an already normalised rectangle alone (so normalising twice is
      normalising once). */
  function Normalize(r: Rect): (n: Rect)
    ensures Normalized(n)
    ensures n.x == Min(r.x, r.x + r.width) && n.x + n.width == Max(r.x, r.x + r.width)
    ensures n.y == Min(r.y, r.y + r.height) && n.y + n.height == Max(r.y, r.y + r.height)
    ensures forall px, py :: Covers(n, px, py) <==> Spans(r, px, py)
    ensures Normalized(r) ==> n == r
  {
    var h := if r.width < 0 then r.(x := r.x + r.width, width := -r.width) else r;
    if h.height < 0 then h.(y := h.y + h.height, height := -h.height) else h
  }

  lemma NormalizeIdempotent(r: Rect)
    ensures Normalize(Normalize(r)) == Normalize(r)
  {
  }

  predicate InBuffer(width: int, height: int, px: int, py: int) {
    0 <= px < width && 0 <= py < height
  }

  /** picasso__clip_rect_to_bounds against a width-by-height buffer. The bounds it
      returns contain exactly the buffer pixels the rectangle covers; when it
      returns nothing, the rectangle covers no buffer pixel. For a normalised
      rectangle and a non-empty buffer the bounds are moreover non-empty and
      inside the buffer. */
  function Clip(width: int, height: int, r: Rect): (b: Option<Bounds>)
    ensures b.Some? ==> forall px, py ::
      b.value.Contains(px, py) <==> Covers(r, px, py) && InBuffer(width, height, px, py)
    ensures b.None? ==> forall px, py ::
      !(Covers(r, px, py) && InBuffer(width, height, px, py))
    ensures b.Some? && Normalized(r) && width > 0 && height > 0 ==>
      && 0 <= b.value.x0 < b.value.x1 <= width
      && 0 <= b.value.y0 < b.value.y1 <= height
  {
    if r.width == 0 || r.height == 0 then None
    else if r.x >= width || r.y >= height || r.x + r.width <= 0 || r.y + r.height <= 0 then None
    else
      Some(Bounds(
        if r.x > 0 then r.x else 0,
        if r.y > 0 then r.y else 0,
        if r.x + r.width < width then r.x + r.width else width,
        if r.y + r.height < height then r.y + r.height else height))
  }

  /** Whether a pixel lies inside the clipped bounds of a rectangle (false when
      clipping leaves nothing), as the drawing loops test it. */
  predicate ClipContains(width: int, height: int, r: Rect, px: int, py: int) {
    match Clip(width, height, r)
    case None => false
    case Some(b) => b.Contains(px, py)
  }

  /** Inside the buffer, the clipped bounds hold a pixel exactly when the
      rectangle covers it. */
  lemma ClipContainsCovers(width: int, height: int, r: Rect, px: int, py: int)
    requires InBuffer(width, height, px, py)
    ensures ClipContains(width, height, r, px, py) <==> Covers(r, px, py)
  {
  }

  /** On a non-empty buffer, a normalised rectangle clips to something exactly
      when it shares a pixel with the buffer. */
  lemma ClipNonEmpty(width: int, height: int, r: Rect)
    requires Normalized(r) && width > 0 && height > 0
    ensures Clip(width, height, r).Some? <==>
      exists px, py :: Covers(r, px, py) && InBuffer(width, height, px, py)
  {
    var b := Clip(width, height, r);
    if b.Some? {
      assert b.value.Contains(b.value.x0, b.value.y0);
    }
  }
}
