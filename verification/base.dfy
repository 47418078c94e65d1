/** Failure-carrying values and the configuration constants shared by both
    copies of the segmentation code (frapper/tools.py and frapper/parser.py). */
module Base {

  /** A value that may be missing, as in a Python function that returns
      `False` instead of a result. */
  datatype Option<+T> = None | Some(value: T)

  /** The Python exceptions the modelled code can raise. */
  datatype PyError =
    | IndexError       // indexing an empty list
    | KeyError         // reading a dict key that is not there
    | ValueError       // int() of a non-digit, or a Pillow crop box turned inside out
    | AttributeError   // calling a str method on an int

  /** Either a value or the exception that replaced it. */
  datatype Result<+T> = Ok(value: T) | Err(error: PyError)

  /** The two copies of the pipeline: `Legacy` is frapper/parser.py,
      `Current` is frapper/tools.py. */
  datatype Variant = Legacy | Current

  /** Pixel-value bounds of an 8-bit channel. */
  type Byte = x: int | 0 <= x < 256

  const BLACK_NUM: Byte := 0
  const WHITE_NUM: Byte := 255

  /** RGB sum of a pure white pixel: `PIXEL_SUM` in the legacy copy,
      `PIXEL_SUM_V1` in the current one. */
  const PIXEL_SUM: int := 255 + 255 + 255

  const MIN_HEIGHT: int := 140
  const TAG_OFFSET: int := 4
  const SPLIT_PIXEL_OFFSET: int := 7
  const THRES_HOLD_BLACK: int := 150
  const THRES_HOLD_TAG: int := 15
  const WHITE_SEPARATOR_COUNT: int := 3

  function Min(a: int, b: int): int {
    if a <= b then a else b
  }

  const IS_TRUE: char := '1'
  const IS_FALSE: char := '0'
}
