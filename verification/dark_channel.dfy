/** Dark-channel extraction: for every k-by-k window that fits inside the image,
    the smallest channel intensity over all pixels of the window. */
module DarkChannelExtractor {
  import opened Image

  /** Why no dark channel was produced. */
  datatype DarkError =
    | InvalidBlockSize   // the window size is even or not positive
    | NegativeDimension  // the window is taller or wider than the image plus one

  /** The k-by-k window whose top-left corner is (y, x) lies inside the image. */
  predicate WindowFits(img: seq<seq<Pixel>>, y: nat, x: nat, k: nat) {
    IsRect(img) && y + k <= Rows(img) && x + k <= Cols(img)
  }

  /** `v` is the window minimum: no channel of any pixel of the k-by-k window
      at (y, x) is below `v`, and some channel of some pixel of it equals `v`. */
  ghost predicate IsWindowMin(img: seq<seq<Pixel>>, y: nat, x: nat, k: nat, v: int)
    requires WindowFits(img, y, x, k)
  {
    && (forall i, j :: y <= i < y + k && x <= j < x + k ==>
          v <= img[i][j].b && v <= img[i][j].g && v <= img[i][j].r)
    && (exists i, j :: y <= i < y + k && x <= j < x + k &&
          (v == img[i][j].b || v == img[i][j].g || v == img[i][j].r))
  }

  /** Running minimum over `row[x..x+w]`, starting from `UCHAR_MAX`. */
  function RowMin(row: seq<Pixel>, x: nat, w: nat): (m: Byte)
    requires x + w <= |row|
    ensures forall j :: x <= j < x + w ==> m <= MinChannel(row[j])
    ensures w > 0 ==> exists j :: x <= j < x + w && m == MinChannel(row[j])
    decreases w
  {
    if w == 0 then ByteMax else Min(RowMin(row, x, w - 1), MinChannel(row[x + w - 1]))
  }

  /** Running minimum over the first `h` rows of the window at (y, x) of width `w`,
      starting from `UCHAR_MAX`; rows are folded in top-to-bottom order. */
  function WindowMin(img: seq<seq<Pixel>>, y: nat, x: nat, h: nat, w: nat): (m: Byte)
    requires IsRect(img) && y + h <= Rows(img) && x + w <= Cols(img)
    ensures forall i, j :: y <= i < y + h && x <= j < x + w ==> m <= MinChannel(img[i][j])
    ensures h > 0 && w > 0 ==>
              exists i, j :: y <= i < y + h && x <= j < x + w && m == MinChannel(img[i][j])
    decreases h
  {
    if h == 0 then ByteMax else Min(WindowMin(img, y, x, h - 1, w), RowMin(img[y + h - 1], x, w))
  }

  /** The square window minimum meets the channel-wise characterisation. */
  lemma WindowMinIsWindowMin(img: seq<seq<Pixel>>, y: nat, x: nat, k: nat)
    requires WindowFits(img, y, x, k) && k > 0
    ensures IsWindowMin(img, y, x, k, WindowMin(img, y, x, k, k))
  {
  }

  /** For a valid window size the C++ `base * 2` with `base = (k - 1) / 2` is `k - 1`. */
  lemma OddBase(k: int)
    requires 0 < k && k % 2 == 1
    ensures (k - 1) / 2 * 2 == k - 1
  {
  }

  /** One output row of the dark channel. */
  function DarkRow(img: seq<seq<Pixel>>, y: nat, k: nat, outCols: nat): (row: seq<Byte>)
    requires IsRect(img) && y + k <= Rows(img) && outCols + k <= Cols(img) + 1
    ensures |row| == outCols
    ensures forall x :: 0 <= x < outCols ==>
              WindowFits(img, y, x, k) && (k > 0 ==> IsWindowMin(img, y, x, k, row[x]))
  {
    var row := seq(outCols, x requires 0 <= x < outCols => WindowMin(img, y, x, k, k));
    assert forall x :: 0 <= x < outCols && k > 0 ==> IsWindowMin(img, y, x, k, row[x]) by {
      forall x | 0 <= x < outCols && k > 0
        ensures IsWindowMin(img, y, x, k, row[x])
      {
        WindowMinIsWindowMin(img, y, x, k);
      }
    }
    row
  }

  /** `getDarkChannel`: rejects an even or non-positive window size; otherwise
      produces the unpadded map of window minima, `k - 1` rows and columns
      smaller than the image. */
  function DarkChannel(img: seq<seq<Pixel>>, k: int): (r: Result<seq<seq<Byte>>, DarkError>)
    requires IsRect(img)
    ensures r == Failure(InvalidBlockSize) <==> k % 2 == 0 || k <= 0
    ensures r.Success? <==> 0 < k && k % 2 == 1 && k <= Rows(img) + 1 && k <= Cols(img) + 1
    ensures r.Success? ==> |r.value| == Rows(img) - k + 1
    ensures r.Success? ==> forall y :: 0 <= y < |r.value| ==> |r.value[y]| == Cols(img) - k + 1
    ensures r.Success? ==>
              forall y, x :: 0 <= y < |r.value| && 0 <= x < |r.value[y]| ==>
                WindowFits(img, y, x, k) && IsWindowMin(img, y, x, k, r.value[y][x])
  {
    if k % 2 == 0 || k <= 0 then Failure(InvalidBlockSize)
    else
      var base := (k - 1) / 2;
      var outRows := Rows(img) - base * 2;
      var outCols := Cols(img) - base * 2;
      OddBase(k);
      if outRows < 0 || outCols < 0 then Failure(NegativeDimension)
      else
        var cells := seq(outRows, y requires 0 <= y < outRows => DarkRow(img, y, k, outCols));
        Success(cells)
  }

  /** The innermost loop of `getDarkChannel`: lower `start` by the smallest
      channel of each pixel of `row[x..x+w]`, left to right. */
  method RowMinimum(row: seq<Pixel>, x: nat, w: nat, start: Byte) returns (m: Byte)
    requires x + w <= |row|
    ensures m == Min(start, RowMin(row, x, w))
  {
    m := start;
    var j := x;
    while j < x + w
      invariant x <= j <= x + w
      invariant m == Min(start, RowMin(row, x, j - x))
    {
      assert RowMin(row, x, j + 1 - x) == Min(RowMin(row, x, j - x), MinChannel(row[j]));
      m := Min(m, MinChannel(row[j]));
      j := j + 1;
    }
  }

  /** The window scan of one output cell, as the two inner loops of
      `getDarkChannel` do it: start at `UCHAR_MAX` and lower it pixel by pixel. */
  method WindowMinimum(img: seq<seq<Pixel>>, y: nat, x: nat, k: nat) returns (m: Byte)
    requires WindowFits(img, y, x, k)
    ensures m == WindowMin(img, y, x, k, k)
  {
    m := ByteMax;
    var i := y;
    while i < y + k
      invariant y <= i <= y + k
      invariant m == WindowMin(img, y, x, i - y, k)
    {
      assert WindowMin(img, y, x, i + 1 - y, k) == Min(WindowMin(img, y, x, i - y, k), RowMin(img[i], x, k));
      m := RowMinimum(img[i], x, k, m);
      i := i + 1;
    }
  }

  /** The column loop of `getDarkChannel` for output row `y`. */
  method DarkRowScan(img: seq<seq<Pixel>>, y: nat, k: nat, outCols: nat) returns (row: seq<Byte>)
    requires IsRect(img) && y + k <= Rows(img) && outCols + k <= Cols(img) + 1
    ensures row == DarkRow(img, y, k, outCols)
  {
    row := [];
    var x := 0;
    while x < outCols
      invariant 0 <= x <= outCols
      invariant |row| == x
      invariant forall xx :: 0 <= xx < x ==> row[xx] == WindowMin(img, y, xx, k, k)
    {
      var m := WindowMinimum(img, y, x, k);
      row := row + [m];
      x := x + 1;
    }
  }

  /** `getDarkChannel` with its loops: one window scan per output cell. */
  method GetDarkChannel(img: seq<seq<Pixel>>, blockSize: int)
    returns (r: Result<seq<seq<Byte>>, DarkError>)
    requires IsRect(img)
    ensures r == DarkChannel(img, blockSize)
  {
    if blockSize % 2 == 0 || blockSize <= 0 {
      return Failure(InvalidBlockSize);
    }
    var base := (blockSize - 1) / 2;
    var outRows := Rows(img) - base * 2;
    var outCols := Cols(img) - base * 2;
    OddBase(blockSize);
    if outRows < 0 || outCols < 0 {
      return Failure(NegativeDimension);
    }
    var result: seq<seq<Byte>> := [];
    var y := 0;
    while y < outRows
      invariant 0 <= y <= outRows
      invariant |result| == y
      invariant forall yy :: 0 <= yy < y ==> result[yy] == DarkRow(img, yy, blockSize, outCols)
    {
      var row := DarkRowScan(img, y, blockSize, outCols);
      result := result + [row];
      y := y + 1;
    }
    assert result == seq(outRows, yy requires 0 <= yy < outRows => DarkRow(img, yy, blockSize, outCols));
    r := Success(result);
  }

  /** With a 1-by-1 window nothing is cropped and each cell is the smallest
      channel of the pixel at the same position. */
  lemma UnitWindowIsPixelMinimum(img: seq<seq<Pixel>>)
    requires IsRect(img)
    ensures DarkChannel(img, 1).Success?
    ensures SameShape(DarkChannel(img, 1).value, img)
    ensures forall y, x :: 0 <= y < Rows(img) && 0 <= x < Cols(img) ==>
              DarkChannel(img, 1).value[y][x] == MinChannel(img[y][x])
  {
  }

  /** An image whose every channel is `v` has a dark channel equal to `v`
      everywhere, whatever valid window is used. */
  lemma UniformImageDarkChannel(img: seq<seq<Pixel>>, v: Byte, k: int)
    requires IsRect(img)
    requires forall y, x :: 0 <= y < Rows(img) && 0 <= x < Cols(img) ==> img[y][x] == Pixel(v, v, v)
    requires DarkChannel(img, k).Success?
    ensures forall y, x :: 0 <= y < |DarkChannel(img, k).value| && 0 <= x < |DarkChannel(img, k).value[y]| ==>
              DarkChannel(img, k).value[y][x] == v
  {
  }
}
