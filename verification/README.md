# Dark-channel-prior dehazing: the integer core

This project models the integer half of a single-image haze-removal program
built on the dark channel prior. Two functions of `main.cpp` are modelled.

- `getDarkChannel` takes an 8-bit BGR image and a window size `k`. It throws when
  `k` is even or not positive. Otherwise, when `k - 1` fits in both
  dimensions, it returns an unpadded map,
  `rows - k + 1` by `cols - k + 1`. Each cell `(y, x)` holds the smallest channel
  value in the `k`-by-`k` window whose top-left pixel is `(y, x)`.
- `getAtmosphericLight` takes the image and a dark channel of the same size,
  which the caller resized. It lists every position with its dark value. It
  sorts the list by descending value with `std::sort`, which is not stable. It
  keeps the first `n = max(int(p * rows * cols), 1)` entries. It returns the
  floor of the mean of `max(B, G, R)` over those pixels.

Files and modules:

- `image.dfy`, module `Image`: bytes, pixels, the `Result` type and
  rectangular grids.
- `dark_channel.dfy`, module `DarkChannelExtractor`: the window minimum
  (`RowMin`, `WindowMin`) and the functional `DarkChannel`. It also has
  `GetDarkChannel` with the nested loops of the C++ code, proved equal to
  `DarkChannel`.
- `dark_pixels.dfy`, module `DarkPixels`: the `(x, y, value)` list in scan
  order (`Flatten`), the descending order the sort must produce, and one
  insertion sort. The sort only shows that such an order always exists.
- `atmospheric_light.dfy`, module `AtmosphericLightEstimator`: the sample count,
  the floor mean (`AtmosphericLight`), the accumulating loop
  (`GetAtmosphericLight`) and the top-`n` properties.
- `scenario.dfy`, module `Scenario`: a lemma stating what both functions give
  for a 4-by-4 grey image of level 200.

How the model follows the code:

- `std::sort` is not stable, so the model fixes no order for equal dark
  values. The estimate takes the sorted list as a parameter `sorted`. That
  parameter must be a permutation of the scan-order list and must be
  descending by value (`IsDescendingArrangement`). Every property is proved
  for every such list. The dark values of the sample are the same for every
  such list (`SortedDarkValuesDetermined`). The pixels chosen, and so the
  estimate, can differ (`TieOrderChangesLight`).
- The sampling fraction is a `float` in the C++ code. Here it is the rational
  `p = num / den`, with `den > 0`. The C++ conversion `int(...)` truncates
  toward zero, and the model writes that out (`TruncDiv`).
- The `Mat` constructor at main.cpp:10 refuses a negative dimension. That
  happens when `k - 1` exceeds the number of rows or columns. The model returns
  the error `NegativeDimension` in that case. When `k - 1` equals a dimension,
  the map has zero rows or columns, and the model returns it.

Behaviour of the code worth noting:

- main.cpp:40 truncates `p * size` toward zero. It does not round.
- main.cpp:37-39 sorts with `std::sort`, which leaves entries with equal dark
  values in any order. No stable tie-break is applied.
- main.cpp:40 does not reject a fraction `p <= 0`. Because of the
  `max(..., 1)`, such a fraction yields one sample.
- `getAtmosphericLight` does not reject an empty image. The loop at
  main.cpp:42-47 would then read past the end of the list. The model
  therefore requires the sample count to be at most `rows * cols`. On an empty
  image it rules out every fraction. On a non-empty image it rules out exactly
  the fractions with `int(p * size) > size`. So it allows a `p` slightly above
  1 whose truncated product is still at most `size`, such as `p = 3/2` on a
  one-pixel image.

## Model

| member | source | states |
|---|---|---|
| Image.MinChannel | main.cpp:16-19 | the smallest of B, G and R: no channel is below it and it equals one of them |
| Image.MaxChannel | main.cpp:46 | the largest of B, G and R: no channel is above it and it equals one of them |
| DarkChannelExtractor.RowMin | main.cpp:13-20 | the running minimum along one row of a window, starting at `UCHAR_MAX`: below every pixel's smallest channel in the range and equal to one of them when the range is not empty |
| DarkChannelExtractor.WindowMin | main.cpp:13-20 | the running minimum over the rows of a window: below every pixel's smallest channel in the window and attained by one of them when the window is not empty |
| DarkChannelExtractor.WindowMinIsWindowMin | main.cpp:13-21 | the square window minimum is at most every B, G and R value in the window and equals one of them, so `UCHAR_MAX` never leaks through |
| DarkChannelExtractor.OddBase | main.cpp:9-10 | for an odd positive `k`, `2 * ((k - 1) / 2)` is `k - 1` |
| DarkChannelExtractor.DarkRow | main.cpp:12-22 | one output row has `outCols` cells, each at a window that fits in the image and holding that window's minimum |
| DarkChannelExtractor.DarkChannel | main.cpp:7-24 | fails with `InvalidBlockSize` exactly when `k` is even or not positive. It succeeds exactly when in addition `k - 1` fits in both dimensions. The map is then `rows - k + 1` by `cols - k + 1` and each cell is the minimum over its window |
| DarkChannelExtractor.RowMinimum | main.cpp:15-20 | the innermost loop lowers its starting value to the minimum of that value and the smallest channels along the row segment |
| DarkChannelExtractor.WindowMinimum | main.cpp:13-20 | the two inner loops, starting at `UCHAR_MAX`, compute the window minimum |
| DarkChannelExtractor.DarkRowScan | main.cpp:12-22 | the column loop yields the row of window minima |
| DarkChannelExtractor.GetDarkChannel | main.cpp:7-24 | the loop program returns the same result as `DarkChannel`, errors included |
| DarkChannelExtractor.UnitWindowIsPixelMinimum | main.cpp:9-21 | with `k = 1` the map has the image's size and each cell is the pixel's smallest channel |
| DarkChannelExtractor.UniformImageDarkChannel | main.cpp:13-21 | an image whose every channel is `v` has a dark channel of `v` everywhere |
| DarkPixels.FlattenFrom | main.cpp:33-36 | every listed entry names a position of the map at or below the starting row and carries the value stored there |
| DarkPixels.FlattenFromScanOrder | main.cpp:34-35 | the entries are in strictly increasing row-major order |
| DarkPixels.FlattenFromLength | main.cpp:29-33 | the list has one entry per position, counted row by row |
| DarkPixels.FlattenFromIndex | main.cpp:35 | the entry of position `(x, yy)` sits at offset `(yy - y) * cols + x` |
| DarkPixels.FlattenIndex | main.cpp:35 | the entry of position `(x, y)` sits at offset `y * cols + x` of the whole list |
| DarkPixels.Flatten | main.cpp:29-36 | the pre-sort list has `rows * cols` entries. Each entry is a position with its dark value. Slot `y * cols + x` holds `(x, y, dark[y][x])` |
| DarkPixels.FlattenPositionsDistinct | main.cpp:33-36 | no two entries of the pre-sort list name the same position, so each position occurs exactly once |
| DarkPixels.DescendingPairwise | main.cpp:37-39 | in a list the comparator accepts, any earlier entry has a dark value at least that of any later entry |
| DarkPixels.FindFirst | main.cpp:37-39 | the first entry of one descending list occurs in a second descending list with the same entries, at a slot whose dark value equals the second list's first value |
| DarkPixels.IsDescendingArrangement | main.cpp:33-39 | a permitted outcome of the sort: a permutation of the scan-order list that the comparator accepts, so it has `rows * cols` entries |
| DarkPixels.DescendingValuesAgree | main.cpp:37-39 | two descending lists with the same entries have the same length and the same dark value at every index |
| DarkPixels.SortedDarkValuesDetermined | main.cpp:37-45 | every permitted sorted order of a dark channel has the same dark value at each index, so the dark values of the sample do not depend on the sort |
| DarkPixels.Insert | main.cpp:37-39 | inserting into a descending list keeps it descending and adds exactly the new entry |
| DarkPixels.SortDescending | main.cpp:37-39 | the result is a permutation of the input, descending by dark value |
| DarkPixels.ArrangementExists | main.cpp:37-39 | every dark channel has a permitted sorted order, so the estimate can always be applied |
| AtmosphericLightEstimator.SampleCount | main.cpp:40 | at least 1. It is 1 when `p * size < 1`. It is at most `size` when `p <= 1` and the image is not empty |
| AtmosphericLightEstimator.TruncDiv | main.cpp:40 | C++ `int(a / d)` truncates toward zero. For `a >= 0` the result `q` is non-negative with `d * q <= a < d * (q + 1)`. For `a < 0` it is non-positive and `-q` is `-a / d` rounded down |
| AtmosphericLightEstimator.NatFloorDiv | main.cpp:40 | on a non-negative numerator, the quotient rounded down: `d * q <= a < d * (q + 1)` |
| AtmosphericLightEstimator.TruncBelowOne | main.cpp:40 | `int(p * size)` is at most zero when `p * size < 1`, so the `max(..., 1)` yields 1 |
| AtmosphericLightEstimator.TruncAtMostSize | main.cpp:40 | with `p <= 1`, `int(p * size)` is at most `size` |
| AtmosphericLightEstimator.SampleCountIsFloor | main.cpp:40 | once `p * size >= 1`, the count is `p * size` rounded down |
| AtmosphericLightEstimator.SumMaxBounds | main.cpp:41-47 | if every summand lies in `lo..hi`, the sum of `m` of them lies in `m * lo .. m * hi` |
| AtmosphericLightEstimator.SumMax | main.cpp:41-47 | the accumulator `acc` after adding `max(B, G, R)` of each listed pixel in order. It is at most `255` per entry |
| AtmosphericLightEstimator.FloorQuotient | main.cpp:48 | the integer division `acc / sampleSize` on non-negative values is the largest `q` with `sampleSize * q <= acc`, and it stays within any bound `m` with `acc <= sampleSize * m` |
| AtmosphericLightEstimator.FloorMean | main.cpp:41-48 | the mean of `max(B, G, R)` over the named positions, rounded down: `|s| * a <= S < |s| * (a + 1)` where `S` is their sum, and it fits in a `uchar` |
| AtmosphericLightEstimator.ArrangementEntries | main.cpp:33-39 | a sorted list has `rows * cols` entries. Each entry names a position of the dark channel and carries that position's value |
| AtmosphericLightEstimator.SampleInImage | main.cpp:40-46 | the sample count is within the sorted list and every entry names a pixel of the image |
| AtmosphericLightEstimator.AtmosphericLight | main.cpp:26-49 | the result `a` satisfies `n * a <= S < n * (a + 1)`, where `S` is the sum of `max(B, G, R)` over the first `n` sorted entries. So `a` is the floor of their mean |
| AtmosphericLightEstimator.GetAtmosphericLight | main.cpp:40-48 | the accumulating loop returns the same value as `AtmosphericLight` |
| AtmosphericLightEstimator.LightWithinSample | main.cpp:42-48 | the estimate lies between the smallest and the largest `max(B, G, R)` among the sampled pixels |
| AtmosphericLightEstimator.UniformImageLight | main.cpp:42-48 | for an image whose every channel is `v`, the estimate is `v` under every permitted sort order |
| AtmosphericLightEstimator.SampleIsTopN | main.cpp:37-45 | every sampled entry's dark value is at least every unsampled entry's. Every position left out has a dark value at most every sampled one |
| AtmosphericLightEstimator.SortedPositionsDistinct | main.cpp:33-45 | no two entries of a sorted list name the same position, so the first `n` are `n` different pixels |
| AtmosphericLightEstimator.TieOrdersAdmissible | main.cpp:37-40 | for a 1-by-2 image with equal dark values, both orders of the two entries are permitted sort outcomes, and `p = 1/2` gives one sample |
| AtmosphericLightEstimator.TieOrderChangesLight | main.cpp:37-48 | on that image the estimate is 30 under one permitted order and 50 under the other, so it depends on how the sort breaks ties |
| Scenario.GreyImageScenario | main.cpp:55-58 | a 4-by-4 grey image of level 200 with `k = 3` gives a 2-by-2 dark channel of 200. With the map resized to 4-by-4 and `p = 1`, the atmospheric light is 200 |

## Left out

- `main` (main.cpp:51-87) is not modelled: reading, showing and writing files, and the fixed path.
- `resize` (main.cpp:53, 56) is an OpenCV routine whose code is not part of this model. The estimate takes the resized dark channel as an input with the image's dimensions.
- The transmission map `1 - omega * dark / A` (main.cpp:60-64) is left out. It is single-precision floating point.
- Radiance recovery with clamping and the `uchar` cast (main.cpp:71-79) is left out. It is single-precision floating point, including a division by a transmission that may be close to zero.
- `GuidedFilter` (main.cpp:66-69) is left out. Its header is not part of this model.
- The parallel `Mat::forEach` (main.cpp:34) is modelled as a sequential map. Every call writes a different slot.
- The stack array `Pixel darkPixels[size]` (main.cpp:33) is modelled as a sequence. A large image can overflow that stack, and the model does not cover it.
- AtmosphericLightEstimator.SampleCount: uses an exact rational `num / den` instead of the `float` product `averagePercent * float(size)`. The float rounding at main.cpp:40 is not modelled.
- AtmosphericLightEstimator.AtmosphericLight: uses an unbounded integer accumulator. The C++ `int acc` could overflow only with more than about 8.4 million samples. The contract of `SumMax` gives the bound `acc <= 255 * n`.
- DarkChannelExtractor.DarkChannel: the `NegativeDimension` error stands in for the exception that OpenCV's `Mat` constructor raises on a negative size. That constructor is library code and is not modelled.
