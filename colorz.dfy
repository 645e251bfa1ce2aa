/**
 * The `colorz` pipeline from the observed colours on: clamp every colour's
 * value, cluster (k-means, a parameter here), optionally order the centroids
 * by hue, and pair each one with its brightened twin.
 */
module Palette {
  import opened ColorSpace
  import opened HueOrder

  /** One line of the output: a base colour and its bold twin. */
  datatype PaletteEntry = PaletteEntry(base: Rgb, bold: Pixel)

  /** Integer triples read as real-valued colours (`array(...).astype(float)`). */
  function Widen(pixels: seq<Pixel>): (colors: seq<Rgb>)
    ensures |colors| == |pixels|
  {
    seq(|pixels|, i requires 0 <= i < |pixels| => AsRgb(pixels[i]))
  }

  /** `[clamp(color, min_v, max_v) for color in obs]`. */
  function ClampAll(cs: ColorSys, obs: seq<Pixel>, minV: int, maxV: int): (clamped: seq<Pixel>)
    ensures |clamped| == |obs|
  {
    seq(|obs|, i requires 0 <= i < |obs| => Clamp(cs, AsRgb(obs[i]), minV, maxV))
  }

  /**
   * Every clamped colour is the colorsys image of its observation's hue and
   * saturation with the value pinned between minV/256 and maxV/256.
   */
  lemma ClampAllPinsValue(cs: ColorSys, obs: seq<Pixel>, minV: int, maxV: int, i: int)
    requires 0 <= i < |obs| && minV <= maxV
    ensures exists hsv: Hsv :: ClampAll(cs, obs, minV, maxV)[i] == FromHsv(cs, hsv)
              && hsv.h == ToHsv(cs, AsRgb(obs[i])).h && hsv.s == ToHsv(cs, AsRgb(obs[i])).s
              && minV as real <= hsv.v * Scale <= maxV as real
  {
    var hsv := ClampedHsv(cs, AsRgb(obs[i]), minV, maxV);
    assert ClampAll(cs, obs, minV, maxV)[i] == FromHsv(cs, hsv);
  }

  /**
   * With colorsys's bounds and a proper range inside 0..255, every clamped
   * observation is a valid `#rrggbb` colour whose channels are at most maxV.
   */
  lemma ClampAllInGamut(cs: ColorSys, obs: seq<Pixel>, minV: int, maxV: int)
    requires ColorsysBounds(cs)
    requires forall i :: 0 <= i < |obs| ==> InGamut(obs[i])
    requires 0 <= minV <= maxV < 256
    ensures forall i :: 0 <= i < |obs| ==>
              InGamut(ClampAll(cs, obs, minV, maxV)[i])
              && ClampAll(cs, obs, minV, maxV)[i].r <= maxV
              && ClampAll(cs, obs, minV, maxV)[i].g <= maxV
              && ClampAll(cs, obs, minV, maxV)[i].b <= maxV
              && (minV <= ClampAll(cs, obs, minV, maxV)[i].r
                  || minV <= ClampAll(cs, obs, minV, maxV)[i].g
                  || minV <= ClampAll(cs, obs, minV, maxV)[i].b)
  {
    forall i | 0 <= i < |obs|
      ensures InGamut(ClampAll(cs, obs, minV, maxV)[i])
      ensures ClampAll(cs, obs, minV, maxV)[i].r <= maxV
      ensures ClampAll(cs, obs, minV, maxV)[i].g <= maxV
      ensures ClampAll(cs, obs, minV, maxV)[i].b <= maxV
      ensures minV <= ClampAll(cs, obs, minV, maxV)[i].r
              || minV <= ClampAll(cs, obs, minV, maxV)[i].g
              || minV <= ClampAll(cs, obs, minV, maxV)[i].b
    {
      assert ChannelsWithin(AsRgb(obs[i]), 0.0, 255.0);
      ClampInGamut(cs, AsRgb(obs[i]), minV, maxV);
    }
  }

  /** `list(zip(colors, [brighten(c, bold_add) for c in colors]))`. */
  function PairWithBold(cs: ColorSys, colors: seq<Rgb>, boldAdd: int): (palette: seq<PaletteEntry>)
    ensures |palette| == |colors|
  {
    seq(|colors|, i requires 0 <= i < |colors| => PaletteEntry(colors[i], Brighten(cs, colors[i], boldAdd)))
  }

  /**
   * Pair i holds colour i, and its bold twin is the colorsys image of that
   * colour's hue and saturation with the value raised by boldAdd/256.
   */
  lemma PairWithBoldEntries(cs: ColorSys, colors: seq<Rgb>, boldAdd: int, i: int)
    requires 0 <= i < |colors|
    ensures PairWithBold(cs, colors, boldAdd)[i].base == colors[i]
    ensures exists hsv: Hsv :: PairWithBold(cs, colors, boldAdd)[i].bold == FromHsv(cs, hsv)
              && hsv.h == ToHsv(cs, colors[i]).h && hsv.s == ToHsv(cs, colors[i]).s
              && (hsv.v - ToHsv(cs, colors[i]).v) * Scale == boldAdd as real
  {
    var hsv := BrightenedHsv(cs, colors[i], boldAdd);
    assert PairWithBold(cs, colors, boldAdd)[i].bold == FromHsv(cs, hsv);
  }

  /**
   * `colorz(fd, n, min_v, max_v, bold_add, order_colors)` after the image is
   * decoded: `obs` is the image's distinct colours and `kmeans` stands for
   * scipy's clustering, whose codebook is taken as the centroids.
   */
  method Colorz(cs: ColorSys, kmeans: (seq<Rgb>, int) -> seq<Rgb>, obs: seq<Pixel>,
                n: int, minV: int, maxV: int, boldAdd: int, orderColors: bool)
    returns (palette: seq<PaletteEntry>)
    ensures var clusters := kmeans(Widen(ClampAll(cs, obs, minV, maxV)), n);
            && |palette| == |clusters|
            && (orderColors ==> palette == PairWithBold(cs, Widen(HueOrdered(cs, clusters)), boldAdd))
            && (!orderColors ==> palette == PairWithBold(cs, clusters, boldAdd))
  {
    var clamped := ClampAll(cs, obs, minV, maxV);
    var clusters := kmeans(Widen(clamped), n);
    var colors: seq<Rgb>;
    if orderColors {
      var ordered := OrderByHue(cs, clusters);
      colors := Widen(ordered);
    } else {
      colors := clusters;
    }
    palette := PairWithBold(cs, colors, boldAdd);
  }
}
