/** Atmospheric-light estimation: sort the dark-channel entries by descending
    value, keep the first `n`, and average the brightest channel of the
    original image over those positions, rounding down. */
module AtmosphericLightEstimator {
  import opened Image
  import opened DarkPixels

  /** C++ `int(q)` applied to the quotient `a / d`: truncation toward zero. */
  function TruncDiv(a: int, d: int): (q: int)
    requires d > 0
    ensures a >= 0 ==> 0 <= q && IsFloorQuotient(a, d, q)
    ensures a < 0 ==> q <= 0 && IsFloorQuotient(-a, d, -q)
  {
    if a >= 0 then NatFloorDiv(a, d)
    else
      var b: int := NatFloorDiv(-a, d);
      -b
  }

  /** `a / d` on a non-negative `a`: the quotient rounded down. */
  function NatFloorDiv(a: nat, d: int): (q: nat)
    requires d > 0
    ensures IsFloorQuotient(a, d, q)
  {
    var q := a / d;
    assert 0 <= q;
    FloorDiv(a, d);
    q
  }

  /** `q` is `a / d` rounded down: `d * q <= a < d * (q + 1)`. */
  predicate IsFloorQuotient(a: int, d: int, q: int) {
    d * q <= a < d * (q + 1)
  }

  /** `d * (q + 1)` spelled out, for the division arithmetic below. */
  lemma MulSucc(d: int, q: int)
    ensures d * (q + 1) == d * q + d
  {
  }

  /** A quotient of something at most `d * m` is at most `m`. */
  lemma DivAtMost(a: nat, d: nat, m: nat)
    requires d > 0 && a <= d * m
    ensures a / d <= m
  {
  }

  /** Euclidean division of a natural number rounds down. */
  lemma FloorDiv(a: int, d: int)
    requires d > 0
    ensures d * (a / d) <= a < d * (a / d + 1)
  {
    assert a == d * (a / d) + a % d;
    MulSucc(d, a / d);
  }

  /** `a / d` on non-negative integers: the largest `q` with `d * q <= a`,
      and at most `m` when `a` is at most `d * m`. */
  function FloorQuotient(a: nat, d: nat, m: nat): (q: nat)
    requires d > 0 && a <= d * m
    ensures q <= m
    ensures d * q <= a < d * (q + 1)
  {
    var q := a / d;
    assert 0 <= q;
    DivAtMost(a, d, m);
    FloorDiv(a, d);
    q
  }

  /** `std::max(int(p * size), 1)` for the sampling fraction `p = num / den`:
      the number of entries the estimate averages over. */
  function SampleCount(num: int, den: int, size: nat): (n: nat)
    requires den > 0
    ensures n >= 1
    ensures num * size < den ==> n == 1
    ensures num <= den && 0 < size ==> n <= size
  {
    var a := num * size;
    TruncBelowOne(a, den);
    TruncAtMostSize(num, den, size);
    Max(TruncDiv(a, den), 1)
  }

  /** A quotient below one truncates to at most zero. */
  lemma TruncBelowOne(a: int, den: int)
    requires den > 0
    ensures a < den ==> TruncDiv(a, den) <= 0
  {
    if 0 <= a < den {
      FloorDiv(a, den);
    }
  }

  /** With `p <= 1` the truncated product `p * size` is at most `size`. */
  lemma TruncAtMostSize(num: int, den: int, size: nat)
    requires den > 0
    ensures num <= den && 0 < size ==> TruncDiv(num * size, den) <= size
  {
    if num <= den && 0 < size {
      MulMono(num, den, size);
      if num * size >= 0 {
        DivAtMost(num * size, den, size);
      }
    }
  }

  /** Once `p * size` reaches one, the sample count is `p * size` rounded down. */
  lemma SampleCountIsFloor(num: int, den: int, size: nat)
    requires den > 0 && num * size >= den
    ensures var n := SampleCount(num, den, size);
            den * n <= num * size < den * (n + 1)
  {
  }

  /** Multiplying by a non-negative factor keeps the order. */
  lemma MulMono(a: int, b: int, c: nat)
    requires a <= b
    ensures a * c <= b * c
  {
  }

  /** `e` names a pixel position of `img`. */
  predicate InImage(img: seq<seq<Pixel>>, e: DarkPixel) {
    IsRect(img) && e.y < Rows(img) && e.x < Cols(img)
  }

  /** The brightest channel of the image pixel that `e` names. */
  function MaxAt(img: seq<seq<Pixel>>, e: DarkPixel): Byte
    requires InImage(img, e)
  {
    MaxChannel(img[e.y][e.x])
  }

  /** Sum of the brightest channels over the positions `s` names: the C++
      `int acc` of `getAtmosphericLight`, which never exceeds `255` per entry. */
  function SumMax(img: seq<seq<Pixel>>, s: seq<DarkPixel>): (total: nat)
    requires forall i :: 0 <= i < |s| ==> InImage(img, s[i])
    ensures total <= |s| * ByteMax
  {
    if |s| == 0 then 0 else SumMax(img, s[..|s| - 1]) + MaxAt(img, s[|s| - 1])
  }

  /** If every summand lies in `lo..hi`, the sum of `|s|` of them lies in
      `lo * |s| .. hi * |s|`. */
  lemma {:induction false} SumMaxBounds(img: seq<seq<Pixel>>, s: seq<DarkPixel>, lo: int, hi: int)
    requires forall i :: 0 <= i < |s| ==> InImage(img, s[i])
    requires forall i :: 0 <= i < |s| ==> lo <= MaxAt(img, s[i]) <= hi
    ensures lo * |s| <= SumMax(img, s) <= hi * |s|
  {
    if |s| > 0 {
      var t := s[..|s| - 1];
      assert forall i :: 0 <= i < |t| ==> t[i] == s[i];
      SumMaxBounds(img, t, lo, hi);
      assert |s| == |t| + 1;
      MulSucc(lo, |t|);
      MulSucc(hi, |t|);
    }
  }

  /** The mean brightest channel over the positions `s` names, rounded down
      (`acc / sampleSize` on non-negative integers). */
  function FloorMean(img: seq<seq<Pixel>>, s: seq<DarkPixel>): (a: Byte)
    requires forall i :: 0 <= i < |s| ==> InImage(img, s[i])
    requires |s| > 0
    ensures |s| * a <= SumMax(img, s) < |s| * (a + 1)
  {
    FloorQuotient(SumMax(img, s), |s|, ByteMax)
  }

  /** Every entry of a descending arrangement names a position of the dark
      channel and carries the value stored there. */
  lemma ArrangementEntries(sorted: seq<DarkPixel>, dark: seq<seq<Byte>>)
    requires IsRect(dark) && IsDescendingArrangement(sorted, dark)
    ensures |sorted| == Rows(dark) * Cols(dark)
    ensures forall i :: 0 <= i < |sorted| ==> IsEntryOf(dark, sorted[i])
  {
    var flat := Flatten(dark);
    assert |sorted| == |multiset(sorted)| == |multiset(flat)| == |flat|;
    forall i | 0 <= i < |sorted|
      ensures IsEntryOf(dark, sorted[i])
    {
      assert sorted[i] in multiset(flat);
      var j :| 0 <= j < |flat| && flat[j] == sorted[i];
    }
  }

  /** What `getAtmosphericLight` needs of its inputs: a dark channel with the
      image's dimensions (the caller resizes it), a sampling fraction whose
      sample count stays within the image, and `sorted`, the list of
      dark-channel entries in whatever descending order the sort produced. */
  ghost predicate Admissible(img: seq<seq<Pixel>>, dark: seq<seq<Byte>>, num: int, den: int,
                             sorted: seq<DarkPixel>)
  {
    && SameShape(img, dark)
    && den > 0
    && SampleCount(num, den, Rows(img) * Cols(img)) <= Rows(img) * Cols(img)
    && IsDescendingArrangement(sorted, dark)
  }

  /** The first `n` entries of an admissible arrangement name pixels of the image. */
  lemma SampleInImage(img: seq<seq<Pixel>>, dark: seq<seq<Byte>>, num: int, den: int,
                      sorted: seq<DarkPixel>)
    requires Admissible(img, dark, num, den, sorted)
    ensures SampleCount(num, den, Rows(img) * Cols(img)) <= |sorted|
    ensures forall i :: 0 <= i < |sorted| ==> InImage(img, sorted[i])
  {
    ArrangementEntries(sorted, dark);
  }

  /** `getAtmosphericLight`: the floor of the mean brightest channel over the
      `n` darkest-haze positions that head the sorted list. */
  function AtmosphericLight(img: seq<seq<Pixel>>, dark: seq<seq<Byte>>, num: int, den: int,
                            sorted: seq<DarkPixel>): (a: Byte)
    requires Admissible(img, dark, num, den, sorted)
    ensures SampleCount(num, den, Rows(img) * Cols(img)) <= |sorted|
    ensures forall i :: 0 <= i < |sorted| ==> InImage(img, sorted[i])
    ensures var n := SampleCount(num, den, Rows(img) * Cols(img));
            n * a <= SumMax(img, sorted[..n]) < n * (a + 1)
  {
    SampleInImage(img, dark, num, den, sorted);
    var n := SampleCount(num, den, Rows(img) * Cols(img));
    FloorMean(img, sorted[..n])
  }

  /** The loop of `getAtmosphericLight` that accumulates the brightest
      channels of the first `sampleSize` sorted entries. */
  method GetAtmosphericLight(img: seq<seq<Pixel>>, dark: seq<seq<Byte>>, num: int, den: int,
                             sorted: seq<DarkPixel>) returns (a: Byte)
    requires Admissible(img, dark, num, den, sorted)
    ensures a == AtmosphericLight(img, dark, num, den, sorted)
  {
    SampleInImage(img, dark, num, den, sorted);
    var size := Rows(img) * Cols(img);
    var sampleSize := Max(TruncDiv(num * size, den), 1);
    assert sampleSize == SampleCount(num, den, size);
    var acc := 0;
    var i := 0;
    while i < sampleSize
      invariant 0 <= i <= sampleSize
      invariant acc == SumMax(img, sorted[..i])
    {
      var e := sorted[i];
      assert sorted[..i + 1][..i] == sorted[..i];
      acc := acc + Max(img[e.y][e.x].b, Max(img[e.y][e.x].g, img[e.y][e.x].r));
      i := i + 1;
    }
    assert acc / sampleSize == AtmosphericLight(img, dark, num, den, sorted);
    a := acc / sampleSize;
  }

  /** The estimate lies between the smallest and the largest brightest
      channel among the sampled pixels. */
  lemma LightWithinSample(img: seq<seq<Pixel>>, dark: seq<seq<Byte>>, num: int, den: int,
                          sorted: seq<DarkPixel>)
    requires Admissible(img, dark, num, den, sorted)
    ensures var n := SampleCount(num, den, Rows(img) * Cols(img));
            var a := AtmosphericLight(img, dark, num, den, sorted);
            && (exists i :: 0 <= i < n && MaxAt(img, sorted[i]) <= a)
            && (exists i :: 0 <= i < n && a <= MaxAt(img, sorted[i]))
  {
    var n := SampleCount(num, den, Rows(img) * Cols(img));
    var a := AtmosphericLight(img, dark, num, den, sorted);
    var sample := sorted[..n];
    assert |sample| == n;
    assert forall i :: 0 <= i < n ==> sample[i] == sorted[i];
    if forall i :: 0 <= i < n ==> MaxAt(img, sorted[i]) > a {
      assert (a + 1) * n == n * (a + 1);
      SumMaxBounds(img, sample, a + 1, ByteMax);
      assert false;
    }
    if forall i :: 0 <= i < n ==> a > MaxAt(img, sorted[i]) {
      assert (a - 1) * n == n * (a - 1);
      MulSucc(n, a - 1);
      SumMaxBounds(img, sample, 0, a - 1);
      assert false;
    }
  }

  /** For an image whose every channel is `v`, the estimate is `v`, whatever
      order the sort left equal dark values in. */
  lemma UniformImageLight(img: seq<seq<Pixel>>, dark: seq<seq<Byte>>, num: int, den: int,
                          sorted: seq<DarkPixel>, v: Byte)
    requires Admissible(img, dark, num, den, sorted)
    requires forall y, x :: 0 <= y < Rows(img) && 0 <= x < Cols(img) ==> img[y][x] == Pixel(v, v, v)
    ensures AtmosphericLight(img, dark, num, den, sorted) == v
  {
    LightWithinSample(img, dark, num, den, sorted);
  }

  /** The sample is a top-`n` set: every sampled entry is at least as hazy as
      every entry left out, and every position of the dark channel that was
      not sampled has a dark value no larger than any sampled one. */
  lemma SampleIsTopN(dark: seq<seq<Byte>>, sorted: seq<DarkPixel>, n: nat)
    requires IsRect(dark) && IsDescendingArrangement(sorted, dark) && n <= |sorted|
    ensures forall i, j :: 0 <= i < n <= j < |sorted| ==> sorted[i].value >= sorted[j].value
    ensures forall y, x :: 0 <= y < Rows(dark) && 0 <= x < Cols(dark) &&
                           DarkPixel(x, y, dark[y][x]) !in sorted[..n] ==>
              forall i :: 0 <= i < n ==> dark[y][x] <= sorted[i].value
  {
    forall i, j | 0 <= i < n <= j < |sorted|
      ensures sorted[i].value >= sorted[j].value
    {
      DescendingPairwise(sorted, i, j);
    }
    var flat := Flatten(dark);
    forall y, x | 0 <= y < Rows(dark) && 0 <= x < Cols(dark) && DarkPixel(x, y, dark[y][x]) !in sorted[..n]
      ensures forall i :: 0 <= i < n ==> dark[y][x] <= sorted[i].value
    {
      var e := DarkPixel(x, y, dark[y][x]);
      assert flat[ScanIndex(y, x, Cols(dark))] == e;
      assert e in multiset(sorted);
      var j :| 0 <= j < |sorted| && sorted[j] == e;
    }
  }

  /** A list whose entries are pairwise different holds each at most once. */
  lemma {:induction false} DistinctCountsOnce(s: seq<DarkPixel>, e: DarkPixel)
    requires forall i, j :: 0 <= i < j < |s| ==> s[i] != s[j]
    ensures multiset(s)[e] <= 1
  {
    if |s| > 0 {
      var t := s[..|s| - 1];
      assert s == t + [s[|s| - 1]];
      DistinctCountsOnce(t, e);
      if s[|s| - 1] == e {
        assert e !in t;
      }
    }
  }

  /** An entry that occurs at two indices is counted twice. */
  lemma TwiceCountsTwice(s: seq<DarkPixel>, i: nat, j: nat)
    requires i < j < |s| && s[i] == s[j]
    ensures multiset(s)[s[i]] >= 2
  {
    assert s == s[..j] + s[j..];
    assert s[i] in s[..j];
    assert s[j] in s[j..];
  }

  /** A descending arrangement names every position at most once, so the
      first `n` of its entries are `n` different pixels. */
  lemma SortedPositionsDistinct(dark: seq<seq<Byte>>, sorted: seq<DarkPixel>)
    requires IsRect(dark) && IsDescendingArrangement(sorted, dark)
    ensures forall i, j :: 0 <= i < j < |sorted| ==>
              (sorted[i].x, sorted[i].y) != (sorted[j].x, sorted[j].y)
  {
    var flat := Flatten(dark);
    ArrangementEntries(sorted, dark);
    FlattenPositionsDistinct(dark);
    forall i, j | 0 <= i < j < |sorted|
      ensures (sorted[i].x, sorted[i].y) != (sorted[j].x, sorted[j].y)
    {
      if (sorted[i].x, sorted[i].y) == (sorted[j].x, sorted[j].y) {
        assert sorted[i] == sorted[j];
        TwiceCountsTwice(sorted, i, j);
        DistinctCountsOnce(flat, sorted[i]);
        assert false;
      }
    }
  }

  /** Two pixels with the same dark value 10 but different brightest
      channels, 30 and 50, and the two orders the sort may list them in. */
  const TieImage: seq<seq<Pixel>> := [[Pixel(10, 20, 30), Pixel(10, 40, 50)]]
  const TieDark: seq<seq<Byte>> := [[10, 10]]
  const LeftFirst: seq<DarkPixel> := [DarkPixel(0, 0, 10), DarkPixel(1, 0, 10)]
  const RightFirst: seq<DarkPixel> := [DarkPixel(1, 0, 10), DarkPixel(0, 0, 10)]

  /** Both orders are outcomes the sort may produce, and `p = 1/2` samples one entry. */
  lemma TieOrdersAdmissible()
    ensures Admissible(TieImage, TieDark, 1, 2, LeftFirst)
    ensures Admissible(TieImage, TieDark, 1, 2, RightFirst)
    ensures SampleCount(1, 2, 2) == 1
  {
    var row := RowEntries(TieDark[0], 0);
    assert row[0] == LeftFirst[0] && row[1] == LeftFirst[1];
    assert row == LeftFirst;
    assert FlattenFrom(TieDark, 1) == [];
    assert FlattenFrom(TieDark, 0) == row + [];
    assert multiset(RightFirst) == multiset(LeftFirst);
  }

  /** The order the sort leaves equal dark values in can change the estimate:
      listing the first pixel first gives 30, listing the second first gives 50. */
  lemma TieOrderChangesLight()
    ensures Admissible(TieImage, TieDark, 1, 2, LeftFirst)
    ensures Admissible(TieImage, TieDark, 1, 2, RightFirst)
    ensures AtmosphericLight(TieImage, TieDark, 1, 2, LeftFirst) == 30
    ensures AtmosphericLight(TieImage, TieDark, 1, 2, RightFirst) == 50
  {
    TieOrdersAdmissible();
    assert LeftFirst[..1] == [LeftFirst[0]];
    assert RightFirst[..1] == [RightFirst[0]];
    assert SumMax(TieImage, [LeftFirst[0]]) == 30;
    assert SumMax(TieImage, [RightFirst[0]]) == 50;
  }
}
