/**
 * Colour arithmetic of colorz: fixed-point scaling between 0..255 channels
 * and unit-interval floats, value clamping and value boosting in HSV.
 *
 * The two HSV conversions come from Python's colorsys, which is not part of
 * this model; they enter every operation as a `ColorSys` parameter and stay
 * uninterpreted, except where a lemma names the bounds it relies on
 * (`ColorsysBounds`).
 */
module ColorSpace {

  /** The fixed-point scale: a channel x on the 0..255 scale is x / 256 on the unit scale. */
  const Scale: real := 256.0

  /**
   * An RGB colour with real channels. Images give whole numbers on the
   * 0..255 scale, k-means centroids give floats on that scale, and the
   * colorsys functions read and return channels on the unit scale.
   */
  datatype Rgb = Rgb(r: real, g: real, b: real)

  /** A colour as colorsys's rgb_to_hsv returns it: hue, saturation, value. */
  datatype Hsv = Hsv(h: real, s: real, v: real)

  /** An integer RGB triple, as `up_scale` produces it. */
  datatype Pixel = Pixel(r: int, g: int, b: int)

  /** colorsys.rgb_to_hsv and colorsys.hsv_to_rgb, both on the unit scale. */
  datatype ColorSys = ColorSys(rgbToHsv: Rgb -> Hsv, hsvToRgb: Hsv -> Rgb)

  /** An integer triple read as a real-valued colour (Python's int-to-float widening). */
  function AsRgb(p: Pixel): Rgb
  {
    Rgb(p.r as real, p.g as real, p.b as real)
  }

  /** `down_scale`: from the 0..255 scale to the unit scale. */
  function DownScale(x: real): (y: real)
    ensures y * Scale == x
    ensures 0.0 <= x < Scale <==> 0.0 <= y < 1.0
  {
    x / Scale
  }

  /** n is y with its fraction dropped toward zero, as Python's `int()` drops it. */
  predicate Truncates(n: int, y: real)
  {
    && (0.0 <= y ==> 0 <= n && n as real <= y < n as real + 1.0)
    && (y < 0.0 ==> n <= 0 && n as real - 1.0 < y <= n as real)
  }

  /** Python's `int()` on a float. */
  function Truncate(y: real): (n: int)
    ensures Truncates(n, y)
  {
    if y >= 0.0 then y.Floor else -((-y).Floor)
  }

  /** `up_scale`: back to the 0..255 scale, then `int()`. */
  function UpScale(x: real): (n: int)
    ensures Truncates(n, x * Scale)
  {
    Truncate(x * Scale)
  }

  /** `up_scale` undoes `down_scale` on every integer: 256 is the scale both ways. */
  lemma UpScaleDownScale(n: int)
    ensures UpScale(DownScale(n as real)) == n
  {
  }

  /** `up_scale` never exceeds a whole number when the scaled input stays below its successor. */
  lemma UpScaleAtMost(x: real, bound: int)
    requires 0 <= bound
    requires x * Scale < (bound + 1) as real
    ensures UpScale(x) <= bound
  {
  }

  /** On non-negative inputs `up_scale` preserves order. */
  lemma UpScaleMonotone(x: real, y: real)
    requires 0.0 <= x <= y
    ensures 0 <= UpScale(x) <= UpScale(y)
  {
  }

  /** `map(down_scale, color)`. */
  function DownScaleRgb(c: Rgb): (u: Rgb)
    ensures u.r * Scale == c.r && u.g * Scale == c.g && u.b * Scale == c.b
  {
    Rgb(DownScale(c.r), DownScale(c.g), DownScale(c.b))
  }

  /** `tuple(map(up_scale, rgb))`: each unit-scale channel times 256, truncated. */
  function UpScaleRgb(u: Rgb): (p: Pixel)
    ensures Truncates(p.r, u.r * Scale) && Truncates(p.g, u.g * Scale) && Truncates(p.b, u.b * Scale)
  {
    Pixel(UpScale(u.r), UpScale(u.g), UpScale(u.b))
  }

  /**
   * `rgb_to_hsv(*map(down_scale, color))`: the conversion of the colour read
   * on the unit scale. With colorsys's bounds, a colour on the 0..256 scale
   * has a hue in [0, 1), a saturation in [0, 1] and a non-negative value.
   */
  function ToHsv(cs: ColorSys, c: Rgb): (hsv: Hsv)
    ensures forall u: Rgb :: u.r * Scale == c.r && u.g * Scale == c.g && u.b * Scale == c.b ==>
              hsv == cs.rgbToHsv(u)
    ensures ColorsysBounds(cs) && ChannelsWithin(c, 0.0, Scale) ==>
              0.0 <= hsv.h < 1.0 && 0.0 <= hsv.s <= 1.0 && 0.0 <= hsv.v
  {
    cs.rgbToHsv(DownScaleRgb(c))
  }

  /** `tuple(map(up_scale, hsv_to_rgb(h, s, v)))`: each converted channel times 256, truncated. */
  function FromHsv(cs: ColorSys, hsv: Hsv): (p: Pixel)
    ensures var u := cs.hsvToRgb(hsv);
            Truncates(p.r, u.r * Scale) && Truncates(p.g, u.g * Scale) && Truncates(p.b, u.b * Scale)
  {
    UpScaleRgb(cs.hsvToRgb(hsv))
  }

  /**
   * `min(max(lo, v), hi)` as Python evaluates it: within [lo, hi] when the
   * range is proper, unchanged exactly when already inside it, and always
   * `hi` when the range is inverted.
   */
  function ClampValue(v: real, lo: real, hi: real): (r: real)
    ensures lo <= hi ==> lo <= r <= hi
    ensures lo <= hi ==> (r == v <==> lo <= v <= hi)
    ensures lo <= hi && v < lo ==> r == lo
    ensures lo <= hi && hi < v ==> r == hi
    ensures hi < lo ==> r == hi
  {
    var atLeast := if v > lo then v else lo;
    if hi < atLeast then hi else atLeast
  }

  /** Clamping twice is clamping once. */
  lemma ClampValueIdempotent(v: real, lo: real, hi: real)
    ensures ClampValue(ClampValue(v, lo, hi), lo, hi) == ClampValue(v, lo, hi)
  {
  }

  /** Clamping preserves the order of values. */
  lemma ClampValueMonotone(v: real, w: real, lo: real, hi: real)
    requires v <= w
    ensures ClampValue(v, lo, hi) <= ClampValue(w, lo, hi)
  {
  }

  /**
   * The HSV triple that `clamp` hands to `hsv_to_rgb`: hue and saturation
   * as `rgb_to_hsv` gave them, value pinned between minV/256 and maxV/256.
   */
  function ClampedHsv(cs: ColorSys, c: Rgb, minV: int, maxV: int): (hsv: Hsv)
    ensures hsv.h == ToHsv(cs, c).h && hsv.s == ToHsv(cs, c).s
    ensures minV <= maxV ==> minV as real <= hsv.v * Scale <= maxV as real
    ensures minV <= maxV ==>
              (hsv.v == ToHsv(cs, c).v <==> minV as real <= ToHsv(cs, c).v * Scale <= maxV as real)
    ensures minV <= maxV && ToHsv(cs, c).v * Scale < minV as real ==> hsv.v * Scale == minV as real
    ensures minV <= maxV && maxV as real < ToHsv(cs, c).v * Scale ==> hsv.v * Scale == maxV as real
    ensures maxV < minV ==> hsv.v * Scale == maxV as real
  {
    var hsv := ToHsv(cs, c);
    hsv.(v := ClampValue(hsv.v, DownScale(minV as real), DownScale(maxV as real)))
  }

  /**
   * `clamp(color, min_v, max_v)`: the conversion back of the colour's hue
   * and saturation with its own value when that lies in range, min_v/256
   * below the range, and max_v/256 above it or when the range is inverted.
   */
  function Clamp(cs: ColorSys, c: Rgb, minV: int, maxV: int): (p: Pixel)
    ensures var hsv := ToHsv(cs, c);
            minV as real <= hsv.v * Scale <= maxV as real ==> p == FromHsv(cs, hsv)
    ensures var hsv := ToHsv(cs, c);
            minV <= maxV && hsv.v * Scale < minV as real ==> p == FromHsv(cs, hsv.(v := DownScale(minV as real)))
    ensures var hsv := ToHsv(cs, c);
            minV <= maxV && maxV as real < hsv.v * Scale ==> p == FromHsv(cs, hsv.(v := DownScale(maxV as real)))
    ensures var hsv := ToHsv(cs, c);
            maxV < minV ==> p == FromHsv(cs, hsv.(v := DownScale(maxV as real)))
  {
    FromHsv(cs, ClampedHsv(cs, c, minV, maxV))
  }

  /** A colour whose value already lies in range goes through `clamp` as a plain colorsys round trip. */
  lemma ClampInRange(cs: ColorSys, c: Rgb, minV: int, maxV: int)
    requires minV as real <= ToHsv(cs, c).v * Scale <= maxV as real
    ensures Clamp(cs, c, minV, maxV) == FromHsv(cs, ToHsv(cs, c))
  {
  }

  /** An inverted range makes `clamp` forget the input's value: only hue and saturation matter. */
  lemma ClampInverted(cs: ColorSys, c: Rgb, d: Rgb, minV: int, maxV: int)
    requires maxV < minV
    requires ToHsv(cs, c).h == ToHsv(cs, d).h && ToHsv(cs, c).s == ToHsv(cs, d).s
    ensures Clamp(cs, c, minV, maxV) == Clamp(cs, d, minV, maxV)
  {
    assert ClampedHsv(cs, c, minV, maxV) == ClampedHsv(cs, d, minV, maxV);
  }

  /**
   * The HSV triple that `brighten` hands to `hsv_to_rgb`: hue and saturation
   * unchanged, value raised (or lowered) by brightness/256 with no clamp.
   */
  function BrightenedHsv(cs: ColorSys, c: Rgb, brightness: int): (hsv: Hsv)
    ensures hsv.h == ToHsv(cs, c).h && hsv.s == ToHsv(cs, c).s
    ensures (hsv.v - ToHsv(cs, c).v) * Scale == brightness as real
    ensures brightness < 0 <==> hsv.v < ToHsv(cs, c).v
  {
    var hsv := ToHsv(cs, c);
    hsv.(v := hsv.v + DownScale(brightness as real))
  }

  /**
   * `brighten(color, brightness)`: the conversion back of the colour's hue
   * and saturation with the value moved by brightness/256.
   */
  function Brighten(cs: ColorSys, c: Rgb, brightness: int): (p: Pixel)
    ensures exists hsv: Hsv :: p == FromHsv(cs, hsv)
              && hsv.h == ToHsv(cs, c).h && hsv.s == ToHsv(cs, c).s
              && (hsv.v - ToHsv(cs, c).v) * Scale == brightness as real
  {
    FromHsv(cs, BrightenedHsv(cs, c, brightness))
  }

  /** `brighten` by zero is a plain colorsys round trip. */
  lemma BrightenZero(cs: ColorSys, c: Rgb)
    ensures Brighten(cs, c, 0) == FromHsv(cs, ToHsv(cs, c))
  {
    assert BrightenedHsv(cs, c, 0) == ToHsv(cs, c);
  }

  /** Nothing caps the value: a large enough brightness pushes it past 1.0. */
  lemma BrightenUnbounded(cs: ColorSys, c: Rgb, brightness: int)
    requires ToHsv(cs, c).v >= 0.0
    requires brightness > 256
    ensures BrightenedHsv(cs, c, brightness).v > 1.0
  {
  }

  /** Every channel lies in [lo, hi]. */
  predicate ChannelsWithin(c: Rgb, lo: real, hi: real)
  {
    lo <= c.r <= hi && lo <= c.g <= hi && lo <= c.b <= hi
  }

  /** Some channel equals x. */
  predicate HasChannel(c: Rgb, x: real)
  {
    c.r == x || c.g == x || c.b == x
  }

  /** Every channel of an integer triple lies in 0..255. */
  predicate InGamut(p: Pixel)
  {
    0 <= p.r < 256 && 0 <= p.g < 256 && 0 <= p.b < 256
  }

  /**
   * Bounds that colorsys's conversions satisfy in exact arithmetic (the
   * `ExactColorsys` module proves them of its transcription): `rgb_to_hsv` of a
   * colour with channels in [0, 1] has its hue in [0, 1), its saturation in
   * [0, 1] and a non-negative value; `hsv_to_rgb` with a non-negative hue,
   * saturation in [0, 1] and non-negative value v yields channels in [0, v],
   * one of them v.
   */
  ghost predicate ColorsysBounds(cs: ColorSys)
  {
    && (forall u: Rgb :: ChannelsWithin(u, 0.0, 1.0) ==>
          0.0 <= cs.rgbToHsv(u).h < 1.0 && 0.0 <= cs.rgbToHsv(u).s <= 1.0 && 0.0 <= cs.rgbToHsv(u).v)
    && (forall hsv: Hsv :: 0.0 <= hsv.h && 0.0 <= hsv.s <= 1.0 && 0.0 <= hsv.v ==>
          ChannelsWithin(cs.hsvToRgb(hsv), 0.0, hsv.v) && HasChannel(cs.hsvToRgb(hsv), hsv.v))
  }

  /** Converting back gives channels in 0..up_scale(v), the brightest of them exactly up_scale(v). */
  lemma FromHsvChannels(cs: ColorSys, hsv: Hsv)
    requires ColorsysBounds(cs)
    requires 0.0 <= hsv.h && 0.0 <= hsv.s <= 1.0 && 0.0 <= hsv.v
    ensures var p, top := FromHsv(cs, hsv), UpScale(hsv.v);
            0 <= p.r <= top && 0 <= p.g <= top && 0 <= p.b <= top
            && (p.r == top || p.g == top || p.b == top)
  {
    var u := cs.hsvToRgb(hsv);
    assert ChannelsWithin(u, 0.0, hsv.v) && HasChannel(u, hsv.v);
    UpScaleMonotone(u.r, hsv.v);
    UpScaleMonotone(u.g, hsv.v);
    UpScaleMonotone(u.b, hsv.v);
  }

  /** Rebuilding from a value below (bound + 1)/256 gives channels in 0..bound. */
  lemma FromHsvInGamut(cs: ColorSys, hsv: Hsv, bound: int)
    requires ColorsysBounds(cs)
    requires 0.0 <= hsv.h && 0.0 <= hsv.s <= 1.0 && 0.0 <= hsv.v
    requires 0 <= bound < 256 && hsv.v * Scale < (bound + 1) as real
    ensures InGamut(FromHsv(cs, hsv))
    ensures FromHsv(cs, hsv).r <= bound && FromHsv(cs, hsv).g <= bound && FromHsv(cs, hsv).b <= bound
  {
    FromHsvChannels(cs, hsv);
    UpScaleAtMost(hsv.v, bound);
  }

  /**
   * With colorsys's bounds, `clamp` over a proper range inside 0..255 turns
   * any colour on the 0..255 scale into one whose channels are at most maxV
   * and whose brightest channel, its value, is at least minV.
   */
  lemma ClampInGamut(cs: ColorSys, c: Rgb, minV: int, maxV: int)
    requires ColorsysBounds(cs)
    requires ChannelsWithin(c, 0.0, 255.0)
    requires 0 <= minV <= maxV < 256
    ensures InGamut(Clamp(cs, c, minV, maxV))
    ensures Clamp(cs, c, minV, maxV).r <= maxV
    ensures Clamp(cs, c, minV, maxV).g <= maxV
    ensures Clamp(cs, c, minV, maxV).b <= maxV
    ensures minV <= Clamp(cs, c, minV, maxV).r || minV <= Clamp(cs, c, minV, maxV).g || minV <= Clamp(cs, c, minV, maxV).b
  {
    var hsv := ClampedHsv(cs, c, minV, maxV);
    FromHsvInGamut(cs, hsv, maxV);
    FromHsvChannels(cs, hsv);
    UpScaleMonotone(DownScale(minV as real), hsv.v);
    UpScaleDownScale(minV);
  }

  /**
   * With colorsys's bounds, a `brighten` that leaves the value non-negative
   * stays inside 0..255 exactly when the raised value stays below 1.0;
   * `brighten` itself never checks this, and past it the brightest channel
   * is 256 or more.
   */
  lemma BrightenInGamut(cs: ColorSys, c: Rgb, brightness: int)
    requires ColorsysBounds(cs)
    requires ChannelsWithin(c, 0.0, 255.0)
    requires 0.0 <= ToHsv(cs, c).v * Scale + brightness as real
    ensures InGamut(Brighten(cs, c, brightness)) <==> ToHsv(cs, c).v * Scale + brightness as real < Scale
  {
    var hsv := BrightenedHsv(cs, c, brightness);
    FromHsvChannels(cs, hsv);
    if hsv.v * Scale < Scale {
      UpScaleAtMost(hsv.v, 255);
    }
  }
}
