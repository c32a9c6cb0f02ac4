/** Pixels and images as the dehazing core sees them: 8-bit, three channels in
    OpenCV's B, G, R order, laid out on a rectangular grid of rows. */
module Image {

  /** An 8-bit channel intensity (`uchar`). */
  type Byte = x: int | 0 <= x < 256

  /** Largest value a `uchar` can hold (`UCHAR_MAX`). */
  const ByteMax: Byte := 255

  /** One pixel of a 3-channel 8-bit image (`CV_8UC3`). */
  datatype Pixel = Pixel(b: Byte, g: Byte, r: Byte)

  /** Either a value or the error that stopped the computation. */
  datatype Result<+T, +E> = Success(value: T) | Failure(error: E)

  function Min(a: int, b: int): int { if a <= b then a else b }

  function Max(a: int, b: int): int { if a >= b then a else b }

  /** The smallest channel of a pixel, `std::min(b, std::min(g, r))`. */
  function MinChannel(p: Pixel): (m: Byte)
    ensures m <= p.b && m <= p.g && m <= p.r
    ensures m == p.b || m == p.g || m == p.r
  {
    Min(p.b, Min(p.g, p.r))
  }

  /** The largest channel of a pixel, `std::max(b, std::max(g, r))`. */
  function MaxChannel(p: Pixel): (m: Byte)
    ensures m >= p.b && m >= p.g && m >= p.r
    ensures m == p.b || m == p.g || m == p.r
  {
    Max(p.b, Max(p.g, p.r))
  }

  /** Number of rows of a grid. */
  function Rows<T>(g: seq<seq<T>>): nat { |g| }

  /** Number of columns of a grid; a grid without rows has none. */
  function Cols<T>(g: seq<seq<T>>): nat { if |g| == 0 then 0 else |g[0]| }

  /** Every row of the grid has the same length. */
  predicate IsRect<T>(g: seq<seq<T>>) {
    forall y :: 0 <= y < |g| ==> |g[y]| == Cols(g)
  }

  /** Two rectangular grids with the same number of rows and columns. */
  predicate SameShape<T, U>(a: seq<seq<T>>, b: seq<seq<U>>) {
    IsRect(a) && IsRect(b) && Rows(a) == Rows(b) && Cols(a) == Cols(b)
  }
}
