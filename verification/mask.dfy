/** The rectangle-to-mask rasterizer of the image-processing request
    (app.py lines 74-87): a single-channel canvas the size of the original
    image starts all white, and the polygon with the rectangle's four
    corners is filled black. Pixels the drawing primitive decides on its
    own (those exactly on the rectangle's border) are left to a parameter. */
module MaskRaster {

  /** Mask value for pixels the inpainting model must keep. */
  const White: int := 255
  /** Mask value for pixels the inpainting model may regenerate. */
  const Black: int := 0

  /** Dimensions of the loaded original image; the model needs nothing else of it. */
  datatype Size = Size(width: nat, height: nat)

  /** The client's `{left, top, width, height}`; width and height may be
      negative, in which case the corners are listed the other way round. */
  datatype Rect = Rect(left: int, top: int, width: int, height: int) {
    function XLo(): int { Min(left, left + width) }
    function XHi(): int { Max(left, left + width) }
    function YLo(): int { Min(top, top + height) }
    function YHi(): int { Max(top, top + height) }

    /** Strictly inside the rectangle: filled whatever the border rule. */
    predicate Inside(x: int, y: int)
      ensures Inside(x, y) ==> Covers(x, y)
    {
      XLo() < x < XHi() && YLo() < y < YHi()
    }

    /** In the closed rectangle, border included: nothing else is filled. */
    predicate Covers(x: int, y: int) {
      XLo() <= x <= XHi() && YLo() <= y <= YHi()
    }
  }

  function Min(a: int, b: int): int { if a <= b then a else b }
  function Max(a: int, b: int): int { if a <= b then b else a }

  /** A grey-scale raster as rows of pixel values. */
  type Mask = seq<seq<int>>

  /** Which border pixels the drawing primitive fills; the model does not
      fix this rule. */
  type BorderRule = (int, int) -> bool

  predicate HasSize(m: Mask, size: Size) {
    |m| == size.height && forall y :: 0 <= y < |m| ==> |m[y]| == size.width
  }

  /** What any faithful rendering of the rectangle onto a white canvas of
      `size` looks like: the right dimensions, only the values 0 and 255,
      white outside the closed rectangle and black strictly inside it. */
  predicate Admissible(size: Size, r: Rect, m: Mask) {
    && HasSize(m, size)
    && forall y, x :: 0 <= y < size.height && 0 <= x < size.width ==>
         && (m[y][x] == White || m[y][x] == Black)
         && (!r.Covers(x, y) ==> m[y][x] == White)
         && (r.Inside(x, y) ==> m[y][x] == Black)
  }

  /** `Image.new("L", size, value)`: a canvas of the given size, uniformly `value`. */
  function NewMask(size: Size, value: int): (m: Mask)
    ensures HasSize(m, size)
    ensures forall y, x :: 0 <= y < size.height && 0 <= x < size.width ==> m[y][x] == value
  {
    seq(size.height, y => seq(size.width, x => value))
  }

  /** `draw.polygon(corners, fill=0)`: paints the rectangle black on `m`,
      clipping silently to the canvas; for coordinates the drawing call can
      represent, none is rejected. */
  function FillRect(m: Mask, r: Rect, border: BorderRule): (m': Mask)
    ensures |m'| == |m|
    ensures forall y :: 0 <= y < |m| ==> |m'[y]| == |m[y]|
    ensures forall y, x :: 0 <= y < |m| && 0 <= x < |m[y]| ==> m'[y][x] == Black || m'[y][x] == m[y][x]
    ensures forall y, x :: 0 <= y < |m| && 0 <= x < |m[y]| && !r.Covers(x, y) ==> m'[y][x] == m[y][x]
    ensures forall y, x :: 0 <= y < |m| && 0 <= x < |m[y]| && r.Inside(x, y) ==> m'[y][x] == Black
  {
    seq(|m|, y requires 0 <= y < |m| =>
      seq(|m[y]|, x requires 0 <= x < |m[y]| =>
        if r.Covers(x, y) && (r.Inside(x, y) || border(x, y)) then Black else m[y][x]))
  }

  /** The mask built for one request: a white canvas the size of the
      original image with the rectangle filled black. */
  function Rasterize(size: Size, r: Rect, border: BorderRule): (m: Mask)
    ensures Admissible(size, r, m)
  {
    FillRect(NewMask(size, White), r, border)
  }

  /** The border rule under which `m` is what the rasterizer drew. */
  function BorderOf(m: Mask): BorderRule {
    (x: int, y: int) => 0 <= y < |m| && 0 <= x < |m[y]| && m[y][x] == Black
  }

  /** Conversely, every admissible mask is what the rasterizer draws under
      some border rule: `Admissible` leaves exactly the border open. */
  lemma AdmissibleIsRasterized(size: Size, r: Rect, m: Mask)
    requires Admissible(size, r, m)
    ensures Rasterize(size, r, BorderOf(m)) == m
  {
    var m' := Rasterize(size, r, BorderOf(m));
    forall y | 0 <= y < size.height
      ensures m'[y] == m[y]
    {
      assert forall x :: 0 <= x < size.width ==> m'[y][x] == m[y][x];
    }
  }

  /** Rectangles that span the same region draw the same mask. */
  lemma SameRegionSameMask(size: Size, r1: Rect, r2: Rect, border: BorderRule)
    requires r1.XLo() == r2.XLo() && r1.XHi() == r2.XHi()
    requires r1.YLo() == r2.YLo() && r1.YHi() == r2.YHi()
    ensures Rasterize(size, r1, border) == Rasterize(size, r2, border)
  {
    var m1, m2 := Rasterize(size, r1, border), Rasterize(size, r2, border);
    forall y | 0 <= y < size.height
      ensures m1[y] == m2[y]
    {
      assert forall x :: 0 <= x < size.width ==> m1[y][x] == m2[y][x];
    }
  }

  /** A negative width or height describes the same region as the positive
      one measured from the opposite corner. */
  lemma NegativeExtent(size: Size, r: Rect, border: BorderRule)
    ensures Rasterize(size, Rect(r.left + r.width, r.top, -r.width, r.height), border) == Rasterize(size, r, border)
    ensures Rasterize(size, Rect(r.left, r.top + r.height, r.width, -r.height), border) == Rasterize(size, r, border)
  {
    SameRegionSameMask(size, Rect(r.left + r.width, r.top, -r.width, r.height), r, border);
    SameRegionSameMask(size, Rect(r.left, r.top + r.height, r.width, -r.height), r, border);
  }

  function Clamp(v: int, lo: int, hi: int): (c: int)
    requires lo <= hi
    ensures lo <= c <= hi
    ensures lo <= v <= hi ==> c == v
  {
    if v < lo then lo else if hi < v then hi else v
  }

  /** Each span clamped to one pixel beyond the canvas on either side, so
      that no pixel of the canvas moves onto or off the rectangle's border. */
  function Clip(r: Rect, size: Size): (c: Rect)
    ensures -1 <= c.left && c.left + c.width <= size.width
    ensures -1 <= c.top && c.top + c.height <= size.height
    ensures c.width >= 0 && c.height >= 0
  {
    var x0, x1 := Clamp(r.XLo(), -1, size.width), Clamp(r.XHi(), -1, size.width);
    var y0, y1 := Clamp(r.YLo(), -1, size.height), Clamp(r.YHi(), -1, size.height);
    Rect(x0, y0, x1 - x0, y1 - y0)
  }

  /** Clipping first changes nothing: the parts of a rectangle beyond the
      canvas have no effect on the mask. */
  lemma ClipPreservesMask(size: Size, r: Rect, border: BorderRule)
    ensures Rasterize(size, Clip(r, size), border) == Rasterize(size, r, border)
  {
    var c := Clip(r, size);
    var m1, m2 := Rasterize(size, c, border), Rasterize(size, r, border);
    forall y | 0 <= y < size.height
      ensures m1[y] == m2[y]
    {
      forall x | 0 <= x < size.width
        ensures m1[y][x] == m2[y][x]
      {
        assert c.Inside(x, y) == r.Inside(x, y);
        assert c.Covers(x, y) == r.Covers(x, y);
      }
    }
  }

  /** A rectangle that misses the canvas entirely (with coordinates the
      drawing call can represent) is accepted and leaves the mask all white. */
  lemma OffCanvasIgnored(size: Size, r: Rect, border: BorderRule)
    requires r.XHi() < 0 || size.width <= r.XLo() || r.YHi() < 0 || size.height <= r.YLo()
    ensures Rasterize(size, r, border) == NewMask(size, White)
  {
    var m1, m2 := Rasterize(size, r, border), NewMask(size, White);
    forall y | 0 <= y < size.height
      ensures m1[y] == m2[y]
    {
      assert forall x :: 0 <= x < size.width ==> m1[y][x] == m2[y][x];
    }
  }

  /** A rectangle of zero width or height forces no pixel black, so an
      all-white mask is a faithful rendering of it. */
  lemma ZeroAreaAllowsBlank(size: Size, r: Rect)
    requires r.width == 0 || r.height == 0
    ensures Admissible(size, r, NewMask(size, White))
  {
  }
}
