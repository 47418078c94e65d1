/** Images as Pillow hands them to the pipeline: a width and a list of pixel
    rows, top to bottom.  `Image` is an 'RGB' image, `Gray` an 'L' image. */
module Grids {
  import opened Base

  datatype Pixel = Pixel(r: Byte, g: Byte, b: Byte)

  /** The fill Pillow uses for the part of a crop box outside the image. */
  const Black := Pixel(0, 0, 0)

  datatype Grid<T> = Grid(width: nat, rows: seq<seq<T>>) {
    /** Every row is `width` pixels long. */
    ghost predicate Valid() {
      forall y :: 0 <= y < |rows| ==> |rows[y]| == width
    }

    function Height(): nat { |rows| }
  }

  type Image = Grid<Pixel>
  type Gray = Grid<Byte>

  /** The pixel at column `x`, row `y` (0-based), or `pad` outside the image. */
  function At<T>(g: Grid<T>, x: int, y: int, pad: T): T
    requires g.Valid()
  {
    if 0 <= y < |g.rows| && 0 <= x < g.width then g.rows[y][x] else pad
  }

  /** Pillow's `Image.crop((left, upper, right, lower))`: rejects a box whose
      right edge lies left of its left edge (or lower above upper) and fills
      the part of the box outside the image with `pad`. */
  function Crop<T>(g: Grid<T>, left: int, upper: int, right: int, lower: int, pad: T): (r: Result<Grid<T>>)
    requires g.Valid()
    ensures r.Ok? <==> left <= right && upper <= lower
    ensures r.Ok? ==> r.value.Valid() && r.value.width == right - left && r.value.Height() == lower - upper
    ensures r.Ok? ==> forall y, x :: 0 <= y < lower - upper && 0 <= x < right - left ==>
                        r.value.rows[y][x] == At(g, left + x, upper + y, pad)
  {
    if right < left then Err(ValueError)
    else if lower < upper then Err(ValueError)
    else Ok(Grid(right - left, seq(lower - upper, y => seq(right - left, x => At(g, left + x, upper + y, pad)))))
  }

  /** A full-width crop between two rows inside the image is the slice of
      its rows: no padding and nothing reordered. */
  lemma CropRowsIsSlice<T>(g: Grid<T>, upper: int, lower: int, pad: T)
    requires g.Valid() && 0 <= upper <= lower <= g.Height()
    ensures Crop(g, 0, upper, g.width, lower, pad) == Ok(Grid(g.width, g.rows[upper..lower]))
  {
    var c := Crop(g, 0, upper, g.width, lower, pad).value;
    assert |c.rows| == |g.rows[upper..lower]|;
    forall y | 0 <= y < |c.rows|
      ensures c.rows[y] == g.rows[upper..lower][y]
    {
      assert |c.rows[y]| == |g.rows[upper + y]|;
      forall x | 0 <= x < |c.rows[y]|
        ensures c.rows[y][x] == g.rows[upper + y][x]
      {
        assert c.rows[y][x] == At(g, x, upper + y, pad);
      }
    }
    assert c.rows == g.rows[upper..lower];
  }
}
