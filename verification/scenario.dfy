/** The integer half of the pipeline on a uniformly grey picture: the dark
    channel and the atmospheric light both come out as the grey level. */
module Scenario {
  import opened Image
  import opened DarkChannelExtractor
  import opened DarkPixels
  import opened AtmosphericLightEstimator

  /** A `rows`-by-`cols` image whose every channel is `v`. */
  function Uniform(rows: nat, cols: nat, v: Byte): seq<seq<Pixel>> {
    seq(rows, _ => seq(cols, _ => Pixel(v, v, v)))
  }

  /** A `rows`-by-`cols` single-channel map holding `v` everywhere. */
  function UniformMap(rows: nat, cols: nat, v: Byte): seq<seq<Byte>> {
    seq(rows, _ => seq(cols, _ => v))
  }

  /** A 4-by-4 grey image of level 200 with a 3-by-3 window gives a 2-by-2
      dark channel of 200; with the dark channel resized back to 4-by-4 and
      every entry sampled (`p = 1`), the atmospheric light is 200 for every
      order the sort may leave the equal values in. */
  lemma GreyImageScenario(sorted: seq<DarkPixel>)
    requires IsDescendingArrangement(sorted, UniformMap(4, 4, 200))
    ensures DarkChannel(Uniform(4, 4, 200), 3) == Success(UniformMap(2, 2, 200))
    ensures Admissible(Uniform(4, 4, 200), UniformMap(4, 4, 200), 1, 1, sorted)
    ensures AtmosphericLight(Uniform(4, 4, 200), UniformMap(4, 4, 200), 1, 1, sorted) == 200
  {
    var img := Uniform(4, 4, 200);
    var d := DarkChannel(img, 3);
    UniformImageDarkChannel(img, 200, 3);
    var expected := UniformMap(2, 2, 200);
    forall y | 0 <= y < 2
      ensures d.value[y] == expected[y]
    {
      assert |d.value[y]| == 2;
    }
    assert d.value == expected;
    assert SampleCount(1, 1, 16) <= 16;
    UniformImageLight(img, UniformMap(4, 4, 200), 1, 1, sorted, 200);
  }
}
