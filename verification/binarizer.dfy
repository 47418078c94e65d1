/** The two per-pixel decisions of the pipeline: the tag-highlight colour
    test (`in_a_range`) and the black/white threshold of `to_gray`. */
module Classifier {
  import opened Base
  import opened Grids

  /** Half-open channel ranges, as the `(start, stop)` arguments of Python's `range`. */
  const R_RANGE: (int, int) := (245, 255)
  const G_RANGE: (int, int) := (245, 255)
  const B_RANGE: (int, int) := (212, 228)

  /** Python's `v in range(lo, hi)` for an int `v`. */
  predicate InPyRange(v: int, bounds: (int, int)) {
    bounds.0 <= v < bounds.1
  }

  /** `in_a_range(pixel)`: the pale-yellow highlight drawn under tagged words. */
  predicate InARange(p: Pixel) {
    InPyRange(p.r, R_RANGE) && InPyRange(p.g, G_RANGE) && InPyRange(p.b, B_RANGE)
  }

  /** The highlight test in plain numbers: every upper bound is exclusive. */
  lemma InARangeBounds(p: Pixel)
    ensures InARange(p) <==> 245 <= p.r < 255 && 245 <= p.g < 255 && 212 <= p.b < 228
    ensures p.r == 255 || p.g == 255 || p.b == 228 ==> !InARange(p)
    ensures p.r < 245 || p.g < 245 || p.b < 212 ==> !InARange(p)
  {
  }

  /** The sample colours: (250, 250, 220) is a highlight, (255, 255, 220) is
      not (upper bound excluded), and no pixel with red 244 is. */
  lemma InARangeSamples(g: Byte, b: Byte)
    ensures InARange(Pixel(250, 250, 220))
    ensures !InARange(Pixel(255, 255, 220))
    ensures !InARange(Pixel(244, g, b))
  {
  }
}

module Binarizer {
  import opened Base
  import opened Grids

  /** The point map of `to_gray`: white above the threshold, black otherwise. */
  function Threshold(l: Byte): (v: Byte)
    ensures v == BLACK_NUM || v == WHITE_NUM
    ensures v == WHITE_NUM <==> l > THRES_HOLD_BLACK
  {
    if l > THRES_HOLD_BLACK then WHITE_NUM else BLACK_NUM
  }

  /** Applies a per-pixel map to every pixel of a grid: Pillow's `point` on a
      gray image, and `convert('L')` with the luminance weights as the map. */
  function MapPixels<A, B>(g: Grid<A>, f: A -> B): (r: Grid<B>)
    requires g.Valid()
    ensures r.Valid() && r.width == g.width && r.Height() == g.Height()
    ensures forall y, x :: 0 <= y < g.Height() && 0 <= x < g.width ==> r.rows[y][x] == f(g.rows[y][x])
  {
    Grid(g.width, seq(|g.rows|, y requires 0 <= y < |g.rows| => seq(g.width, x requires 0 <= x < g.width => f(g.rows[y][x]))))
  }

  /** Only the two values 0 and 255 occur. */
  ghost predicate IsBinary(g: Gray) {
    forall y, x :: 0 <= y < g.Height() && 0 <= x < |g.rows[y]| ==> g.rows[y][x] == BLACK_NUM || g.rows[y][x] == WHITE_NUM
  }

  /** `to_gray(image)`: luminance, then the threshold map. */
  function ToGray(img: Image, luma: Pixel -> Byte): (r: Gray)
    requires img.Valid()
    ensures r.Valid() && r.width == img.width && r.Height() == img.Height()
    ensures IsBinary(r)
    ensures forall y, x :: 0 <= y < img.Height() && 0 <= x < img.width ==>
              (r.rows[y][x] == WHITE_NUM <==> luma(img.rows[y][x]) > THRES_HOLD_BLACK)
  {
    MapPixels(MapPixels(img, luma), Threshold)
  }

  /** Thresholding an already black-and-white image changes nothing. */
  lemma ThresholdIdempotent(g: Gray)
    requires g.Valid() && IsBinary(g)
    ensures MapPixels(g, Threshold) == g
  {
    var r := MapPixels(g, Threshold);
    forall y | 0 <= y < g.Height()
      ensures r.rows[y] == g.rows[y]
    {
      forall x | 0 <= x < g.width
        ensures r.rows[y][x] == g.rows[y][x]
      {
      }
    }
    assert r.rows == g.rows;
  }
}
