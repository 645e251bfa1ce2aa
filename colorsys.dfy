/**
 * Python's `colorsys.rgb_to_hsv` and `colorsys.hsv_to_rgb`, which colorz
 * imports, written out in exact arithmetic. `ExactBounds` proves that the
 * conversions colorz calls satisfy `ColorsysBounds`, so the lemmas that
 * assume it apply to them. The
 * bound on `hsv_to_rgb` needs a non-negative hue, because `int()` truncates
 * toward zero and a negative hue gives a negative fraction.
 */
module ExactColorsys {
  import opened ColorSpace

  /** `max(a, b, c)`. */
  function Max3(a: real, b: real, c: real): (m: real)
    ensures a <= m && b <= m && c <= m
    ensures m == a || m == b || m == c
  {
    if a >= b && a >= c then a else if b >= c then b else c
  }

  /** `min(a, b, c)`. */
  function Min3(a: real, b: real, c: real): (m: real)
    ensures m <= a && m <= b && m <= c
    ensures m == a || m == b || m == c
  {
    if a <= b && a <= c then a else if b <= c then b else c
  }

  /** Python's `x % 1.0`: what is left of x above the whole number below it. */
  function FractionOf(x: real): (f: real)
    ensures 0.0 <= f < 1.0
    ensures x - f == (x - f).Floor as real
  {
    x - x.Floor as real
  }

  /**
   * `rgb_to_hsv(r, g, b)`: the value is the largest channel, the saturation
   * the spread over it, the hue the sixth of the circle in [0, 1). Where
   * Python divides by a zero maximum (some channel negative, the largest 0)
   * it raises ZeroDivisionError; this transcription returns black there.
   */
  function RgbToHsv(u: Rgb): (hsv: Hsv)
    ensures 0.0 <= hsv.h < 1.0
    ensures 0.0 <= Min3(u.r, u.g, u.b) ==> hsv.v == Max3(u.r, u.g, u.b)
    ensures 0.0 < Min3(u.r, u.g, u.b) ==> (hsv.s == 0.0 <==> u.r == u.g == u.b)
  {
    var maxc := Max3(u.r, u.g, u.b);
    var minc := Min3(u.r, u.g, u.b);
    if minc == maxc then Hsv(0.0, 0.0, maxc)
    else if maxc == 0.0 then Hsv(0.0, 0.0, 0.0)
    else
      var rangec := maxc - minc;
      var rc := (maxc - u.r) / rangec;
      var gc := (maxc - u.g) / rangec;
      var bc := (maxc - u.b) / rangec;
      var h := if u.r == maxc then bc - gc else if u.g == maxc then 2.0 + rc - bc else 4.0 + gc - rc;
      Hsv(FractionOf(h / 6.0), rangec / maxc, maxc)
  }

  /** Each channel of a sextant's colour is one of v, p, q and t. */
  predicate ChannelsAmong(u: Rgb, v: real, p: real, q: real, t: real)
  {
    && (u.r == v || u.r == p || u.r == q || u.r == t)
    && (u.g == v || u.g == p || u.g == q || u.g == t)
    && (u.b == v || u.b == p || u.b == q || u.b == t)
  }

  /** The colour that `hsv_to_rgb` returns in sextant `i % 6`, which always has v as a channel. */
  function Sextant(i: int, v: real, p: real, q: real, t: real): (u: Rgb)
    ensures HasChannel(u, v) && ChannelsAmong(u, v, p, q, t)
  {
    match i % 6
    case 0 => Rgb(v, t, p)
    case 1 => Rgb(q, v, p)
    case 2 => Rgb(p, v, t)
    case 3 => Rgb(p, q, v)
    case 4 => Rgb(t, p, v)
    case _ => Rgb(v, p, q)
  }

  /**
   * `hsv_to_rgb(h, s, v)`: grey when the saturation is 0, otherwise the
   * sextant colour for `i = int(h * 6.0)` and the fraction `f = h * 6.0 - i`.
   */
  function HsvToRgb(hsv: Hsv): (u: Rgb)
    ensures HasChannel(u, hsv.v)
    ensures hsv.s == 0.0 ==> u == Rgb(hsv.v, hsv.v, hsv.v)
  {
    if hsv.s == 0.0 then Rgb(hsv.v, hsv.v, hsv.v)
    else
      var i := Truncate(hsv.h * 6.0);
      Interpolate(hsv, i, hsv.h * 6.0 - i as real)
  }

  /** `p = v * (1.0 - s)`: the lowest channel. */
  function Low(hsv: Hsv): real
  {
    hsv.v * (1.0 - hsv.s)
  }

  /** `q = v * (1.0 - s * f)`: the channel that falls across the sextant. */
  function Falling(hsv: Hsv, f: real): real
  {
    hsv.v * (1.0 - hsv.s * f)
  }

  /** `t = v * (1.0 - s * (1.0 - f))`: the channel that rises across the sextant. */
  function Rising(hsv: Hsv, f: real): real
  {
    hsv.v * (1.0 - hsv.s * (1.0 - f))
  }

  /** The sextant colour for `i` and the fraction `f`. */
  function Interpolate(hsv: Hsv, i: int, f: real): (u: Rgb)
    ensures HasChannel(u, hsv.v)
  {
    Sextant(i, hsv.v, Low(hsv), Falling(hsv, f), Rising(hsv, f))
  }

  /** The two conversions as colorz receives them. */
  const Exact: ColorSys := ColorSys(RgbToHsv, HsvToRgb)

  /** A product of a non-negative v and a factor in [0, 1] lies in [0, v]. */
  lemma ScaledWithin(v: real, x: real)
    requires 0.0 <= v && 0.0 <= x <= 1.0
    ensures 0.0 <= v * x <= v
  {
  }

  /** The spread over a positive maximum lies in [0, 1]. */
  lemma RatioWithin(a: real, b: real)
    requires 0.0 <= a <= b && 0.0 < b
    ensures 0.0 <= a / b <= 1.0
  {
  }

  /** On channels in [0, 1] the saturation lies in [0, 1] and the value is non-negative. */
  lemma RgbToHsvBounds(u: Rgb)
    requires ChannelsWithin(u, 0.0, 1.0)
    ensures 0.0 <= RgbToHsv(u).s <= 1.0 && 0.0 <= RgbToHsv(u).v
  {
    var maxc := Max3(u.r, u.g, u.b);
    var minc := Min3(u.r, u.g, u.b);
    if minc != maxc {
      RatioWithin(maxc - minc, maxc);
    }
  }

  /** For a saturation in [0, 1], `p` lies in [0, v]. */
  lemma LowWithin(hsv: Hsv)
    requires 0.0 <= hsv.v && 0.0 <= hsv.s <= 1.0
    ensures 0.0 <= Low(hsv) <= hsv.v
  {
    ScaledWithin(hsv.v, 1.0 - hsv.s);
  }

  /** For a saturation and a fraction in [0, 1], `q` lies in [0, v]. */
  lemma FallingWithin(hsv: Hsv, f: real)
    requires 0.0 <= hsv.v && 0.0 <= hsv.s <= 1.0 && 0.0 <= f <= 1.0
    ensures 0.0 <= Falling(hsv, f) <= hsv.v
  {
    ScaledWithin(hsv.s, f);
    var x := 1.0 - hsv.s * f;
    assert 0.0 <= x <= 1.0;
    ScaledWithin(hsv.v, x);
    assert Falling(hsv, f) == hsv.v * x;
  }

  /** For a saturation and a fraction in [0, 1], `t` lies in [0, v]. */
  lemma RisingWithin(hsv: Hsv, f: real)
    requires 0.0 <= hsv.v && 0.0 <= hsv.s <= 1.0 && 0.0 <= f <= 1.0
    ensures 0.0 <= Rising(hsv, f) <= hsv.v
  {
    ScaledWithin(hsv.s, 1.0 - f);
    var x := 1.0 - hsv.s * (1.0 - f);
    assert 0.0 <= x <= 1.0;
    ScaledWithin(hsv.v, x);
    assert Rising(hsv, f) == hsv.v * x;
  }

  /** A sextant colour built from values in [0, v] has channels in [0, v]. */
  lemma SextantWithin(i: int, v: real, p: real, q: real, t: real)
    requires 0.0 <= v && 0.0 <= p <= v && 0.0 <= q <= v && 0.0 <= t <= v
    ensures ChannelsWithin(Sextant(i, v, p, q, t), 0.0, v)
  {
    assert ChannelsAmong(Sextant(i, v, p, q, t), v, p, q, t);
  }

  /** Every interpolation for a saturation in [0, 1] and a fraction in [0, 1] has channels in [0, v]. */
  lemma InterpolateWithin(hsv: Hsv, i: int, f: real)
    requires 0.0 <= hsv.v && 0.0 <= hsv.s <= 1.0 && 0.0 <= f <= 1.0
    ensures ChannelsWithin(Interpolate(hsv, i, f), 0.0, hsv.v)
  {
    LowWithin(hsv);
    FallingWithin(hsv, f);
    RisingWithin(hsv, f);
    SextantWithin(i, hsv.v, Low(hsv), Falling(hsv, f), Rising(hsv, f));
  }

  /** With a non-negative hue every channel lies in [0, v]. */
  lemma HsvToRgbBounds(hsv: Hsv)
    requires 0.0 <= hsv.h && 0.0 <= hsv.s <= 1.0 && 0.0 <= hsv.v
    ensures ChannelsWithin(HsvToRgb(hsv), 0.0, hsv.v)
  {
    if hsv.s != 0.0 {
      var i := Truncate(hsv.h * 6.0);
      var f := hsv.h * 6.0 - i as real;
      assert 0.0 <= f <= 1.0 by {
        assert Truncates(i, hsv.h * 6.0);
      }
      InterpolateWithin(hsv, i, f);
    }
  }

  /** The exact conversions satisfy the bounds the gamut lemmas assume. */
  lemma ExactBounds()
    ensures ColorsysBounds(Exact)
  {
    forall u: Rgb | ChannelsWithin(u, 0.0, 1.0)
      ensures 0.0 <= Exact.rgbToHsv(u).h < 1.0 && 0.0 <= Exact.rgbToHsv(u).s <= 1.0 && 0.0 <= Exact.rgbToHsv(u).v
    {
      RgbToHsvBounds(u);
    }
    forall hsv: Hsv | 0.0 <= hsv.h && 0.0 <= hsv.s <= 1.0 && 0.0 <= hsv.v
      ensures ChannelsWithin(Exact.hsvToRgb(hsv), 0.0, hsv.v) && HasChannel(Exact.hsvToRgb(hsv), hsv.v)
    {
      HsvToRgbBounds(hsv);
    }
  }

  /** Without the hue guard the bound fails: a hue of -0.1 gives a negative green channel. */
  lemma NegativeHueLeavesRange()
    ensures HsvToRgb(Hsv(-0.1, 1.0, 1.0)) == Rgb(1.0, -0.6, 0.0)
    ensures !ChannelsWithin(HsvToRgb(Hsv(-0.1, 1.0, 1.0)), 0.0, 1.0)
  {
    assert Truncate(-0.6) == 0;
  }
}
