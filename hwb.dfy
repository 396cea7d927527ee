/**
 * conversion/hwb.js: HWB colours in internal units (hue 0..12, whiteness and
 * blackness 0..1) and in CSS units (degrees, percent), and the conversions of
 * CSS Color Module Level 4, section 8.1, to and from RGB. The hue that
 * `fromRgb` obtains from conversion/hsl.js is taken as an input. That
 * module exports no `fromRgb`, so conversion/hwb.js fails to link as written;
 * the functions below are modelled as if it loaded.
 */
module Hwb {
  import opened Js
  import opened Shared
  import opened Records
  import H = Hsl

  /** `Hwb(h, w, b)`: internal units, stored as given. */
  datatype Hwb = Hwb(h: real, w: real, b: real)

  /** `CssHwb(h, w, b)`: CSS units, stored as given. */
  datatype CssHwb = CssHwb(h: real, w: real, b: real)

  predicate IsInteger(x: real)
  {
    x == x.Floor as real
  }

  /** `fromCss`: hue reduced into [0, 12), whiteness and blackness clamped into [0, 1]. */
  function FromCss(c: CssHwb): (r: Hwb)
    ensures 0.0 <= r.h < 12.0 && 0.0 <= r.w <= 1.0 && 0.0 <= r.b <= 1.0
    ensures 0.0 <= c.h < 360.0 ==> r.h == c.h / 30.0
    ensures 0.0 <= c.w <= 100.0 ==> r.w == c.w / 100.0
    ensures 0.0 <= c.b <= 100.0 ==> r.b == c.b / 100.0
  {
    H.FmodKeeps(c.h / 30.0, 12.0);
    Hwb(Fmod(c.h / 30.0, 12.0), Clamp01(c.w / 100.0), Clamp01(c.b / 100.0))
  }

  /** The inner `f` of `toCss`: a fraction as a whole percentage, clamped. */
  function Percent(c: real): (r: int)
    ensures 0 <= r <= 100
    ensures IsInteger(c * 100.0) && 0.0 <= c <= 1.0 ==> r as real == c * 100.0
  {
    var v := Clamp(c * 100.0, 0.0, 100.0);
    RoundPercent(v);
    Round(v)
  }

  /** Rounding keeps a whole number and keeps a value in [0, 100] in 0..100. */
  lemma RoundPercent(v: real)
    ensures IsInteger(v) ==> Round(v) as real == v
    ensures 0.0 <= v <= 100.0 ==> 0 <= Round(v) <= 100
  {
    var r := Round(v);
    if IsInteger(v) {
      var k := v.Floor;
      assert k as real <= v + 0.5 < k as real + 1.0;
      assert r == k;
    }
  }

  /** `toCss`: every field rounded to an integer; the hue can reach 360. */
  function ToCss(x: Hwb): (r: CssHwb)
    ensures IsInteger(r.h) && IsInteger(r.w) && IsInteger(r.b)
    ensures 0.0 <= r.h <= 360.0 && 0.0 <= r.w <= 100.0 && 0.0 <= r.b <= 100.0
  {
    CssHwb(Round(Fmod(x.h * 30.0, 360.0)) as real, Percent(x.w) as real, Percent(x.b) as real)
  }

  /** A hue just below 12 rounds up to 360 degrees rather than wrapping to 0. */
  lemma HueCanReach360()
    ensures ToCss(Hwb(11.99, 0.0, 0.0)).h == 360.0
  {
    H.FmodKeeps(359.7, 360.0);
  }

  /** A CSS colour with whole-number fields in range survives `fromCss` then `toCss`. */
  lemma CssRoundTrip(c: CssHwb)
    requires IsInteger(c.h) && 0.0 <= c.h < 360.0
    requires IsInteger(c.w) && 0.0 <= c.w <= 100.0
    requires IsInteger(c.b) && 0.0 <= c.b <= 100.0
    ensures ToCss(FromCss(c)) == c
  {
    HueBack(c);
    PercentBack(c.w, FromCss(c).w, ToCss(FromCss(c)).w);
    PercentBack(c.b, FromCss(c).b, ToCss(FromCss(c)).b);
  }

  /** The hue field of a CSS colour with a whole hue in `[0, 360)` comes back unchanged. */
  lemma HueBack(c: CssHwb)
    requires IsInteger(c.h) && 0.0 <= c.h < 360.0
    ensures ToCss(FromCss(c)).h == c.h
  {
    HueRoundTrip(c.h);
  }

  lemma PercentBack(v: real, f: real, p: real)
    requires IsInteger(v) && 0.0 <= v <= 100.0
    requires f == Clamp01(v / 100.0) && p == Percent(f) as real
    ensures p == v
  {
    PercentRoundTrip(v);
  }

  lemma HueRoundTrip(h: real)
    requires IsInteger(h) && 0.0 <= h < 360.0
    ensures Round(Fmod(Fmod(h / 30.0, 12.0) * 30.0, 360.0)) as real == h
  {
    var q := h / 30.0;
    assert 0.0 <= q < 12.0;
    H.FmodKeeps(q, 12.0);
    assert q * 30.0 == h;
    H.FmodKeeps(h, 360.0);
    assert Fmod(h, 360.0) == h;
    RoundOfInteger(h.Floor);
  }

  lemma RoundOfInteger(n: int)
    ensures Round(n as real) == n
  {
  }

  lemma PercentRoundTrip(v: real)
    requires IsInteger(v) && 0.0 <= v <= 100.0
    ensures Percent(Clamp01(v / 100.0)) as real == v
  {
    assert Clamp01(v / 100.0) * 100.0 == v;
  }

  /** One channel `c` mixed with white `w`, its colour scaled by `m`. */
  function MixChannel(c: real, m: real, w: real): real
  {
    c * m + w
  }

  /**
   * `toRgb` with the hue's fully saturated colour given: a gray when
   * `w + b >= 1`, otherwise each channel `c * (1 - w - b) + w`.
   */
  function Mix(x: Hwb, hue: Rgb): Rgb
  {
    if x.w + x.b >= 1.0 then
      var gray := x.w / (x.w + x.b);
      Rgb(gray, gray, gray)
    else
      var m := 1.0 - x.w - x.b;
      Rgb(MixChannel(hue.r, m, x.w), MixChannel(hue.g, m, x.w), MixChannel(hue.b, m, x.w))
  }

  /**
   * `toRgb(hwb)` as written: line 84 passes the internal hue and the
   * fractions 1 and 0.5 to the CSS-unit `Hsl` of conversion/hsl.js.
   */
  function ToRgbAsWritten(x: Hwb): Rgb
  {
    Mix(x, H.ToRgb(H.FromCss(x.h, 1.0, 0.5)))
  }

  /** `toRgb` as evidently intended: the internal-unit HSL colour `(h, 1, 0.5)`. */
  function ToRgb(x: Hwb): Rgb
  {
    Mix(x, H.ToRgb(H.Hsl(x.h, 1.0, 0.5)))
  }

  /** The HSL colour built at line 84 has hue `fmod(h/30, 12)`, saturation 0.01 and lightness 0.005. */
  lemma UsesCssUnits(h: real)
    ensures H.FromCss(h, 1.0, 0.5) == H.Hsl(Fmod(h / 30.0, 12.0), 0.01, 0.005)
  {
  }

  /** When whiteness and blackness fill the range, every channel is `w / (w + b)`, a value in [0, 1]. */
  lemma GrayWhenNoRoomForHue(x: Hwb, hue: Rgb)
    requires x.w + x.b >= 1.0
    ensures var r := Mix(x, hue); var g := x.w / (x.w + x.b);
      r.r == g && r.g == g && r.b == g
    ensures 0.0 <= x.w && 0.0 <= x.b ==> 0.0 <= Mix(x, hue).r <= 1.0
  {
    var g := x.w / (x.w + x.b);
    assert Mix(x, hue) == Rgb(g, g, g);
    if 0.0 <= x.w && 0.0 <= x.b {
      SignOfQuotient(x.w, x.w + x.b);
      SignOfQuotient(x.b, x.w + x.b);
      DivAdd(x.w, x.b, x.w + x.b);
      DivUnique(x.w + x.b, x.w + x.b, 1.0);
      assert g + x.b / (x.w + x.b) == 1.0;
    }
  }

  /** Mixing a channel in [0, 1] gives a value between `w` and `1 - b`. */
  lemma MixedChannel(c: real, m: real, x: Hwb)
    requires 0.0 <= c <= 1.0 && m == 1.0 - x.w - x.b && 0.0 < m
    ensures x.w <= MixChannel(c, m, x.w) <= 1.0 - x.b
  {
    CompareScaled(0.0, c, m);
    CompareScaled(c, 1.0, m);
  }

  /** Below the gray threshold every channel lies in [w, 1 - b], for either HSL colour. */
  lemma ChannelsBetweenWhiteAndBlack(x: Hwb, hue: Rgb)
    requires x.w + x.b < 1.0
    requires 0.0 <= hue.r <= 1.0 && 0.0 <= hue.g <= 1.0 && 0.0 <= hue.b <= 1.0
    ensures var r := Mix(x, hue);
      x.w <= r.r <= 1.0 - x.b && x.w <= r.g <= 1.0 - x.b && x.w <= r.b <= 1.0 - x.b
  {
    var m := 1.0 - x.w - x.b;
    var r := Mix(x, hue);
    assert r == Rgb(MixChannel(hue.r, m, x.w), MixChannel(hue.g, m, x.w), MixChannel(hue.b, m, x.w));
    assert x.w <= r.r <= 1.0 - x.b by { MixedChannel(hue.r, m, x); }
    assert x.w <= r.g <= 1.0 - x.b by { MixedChannel(hue.g, m, x); }
    assert x.w <= r.b <= 1.0 - x.b by { MixedChannel(hue.b, m, x); }
  }

  /** Both versions of `toRgb` keep every channel in [w, 1 - b] below the gray threshold. */
  lemma ToRgbBounds(x: Hwb)
    requires x.w + x.b < 1.0
    ensures var r := ToRgbAsWritten(x);
      x.w <= r.r <= 1.0 - x.b && x.w <= r.g <= 1.0 - x.b && x.w <= r.b <= 1.0 - x.b
    ensures var r := ToRgb(x);
      x.w <= r.r <= 1.0 - x.b && x.w <= r.g <= 1.0 - x.b && x.w <= r.b <= 1.0 - x.b
  {
    H.ChannelsInUnitRange(H.FromCss(x.h, 1.0, 0.5));
    ChannelsBetweenWhiteAndBlack(x, H.ToRgb(H.FromCss(x.h, 1.0, 0.5)));
    H.ChannelsInUnitRange(H.Hsl(x.h, 1.0, 0.5));
    ChannelsBetweenWhiteAndBlack(x, H.ToRgb(H.Hsl(x.h, 1.0, 0.5)));
  }

  /** The HSL colour of line 84 for hue 0: a faint red just above black. */
  lemma FaintRed()
    ensures H.ToRgb(H.Hsl(0.0, 0.01, 0.005)) == Rgb(0.00505, 0.00495, 0.00495)
  {
    var c := H.Hsl(0.0, 0.01, 0.005);
    assert H.Chroma(c) == 0.00005;
    RemOfInRange(0.0, 12.0);
    RemOfInRange(4.0, 12.0);
    RemOfInRange(8.0, 12.0);
    assert H.Channel(c, 0.0) == 0.00505;
    assert H.Channel(c, 8.0) == 0.00495;
    assert H.Channel(c, 4.0) == 0.00495;
  }

  /** As written, pure red `Hwb(0, 0, 0)` comes out almost black. */
  lemma RedComesOutNearlyBlack()
    ensures ToRgbAsWritten(Hwb(0.0, 0.0, 0.0)) == Rgb(0.00505, 0.00495, 0.00495)
  {
    UsesCssUnits(0.0);
    H.FmodKeeps(0.0, 12.0);
    assert H.FromCss(0.0, 1.0, 0.5) == H.Hsl(0.0, 0.01, 0.005);
    FaintRed();
    MixUnmixed(Rgb(0.00505, 0.00495, 0.00495));
  }

  /** With no whiteness and no blackness, mixing returns the hue's colour. */
  lemma MixUnmixed(c: Rgb)
    ensures Mix(Hwb(0.0, 0.0, 0.0), c) == c
  {
  }

  /** As intended, `Hwb(0, 0, 0)` is red. */
  lemma RedIsRed()
    ensures ToRgb(Hwb(0.0, 0.0, 0.0)) == Rgb(1.0, 0.0, 0.0)
  {
    H.PrimaryHues();
    MixUnmixed(Rgb(1.0, 0.0, 0.0));
  }

  /**
   * `fromRgb`: whiteness is the smallest channel and blackness one minus the
   * largest, so they never sum past 1, and they sum to exactly 1 for grays.
   */
  function FromRgb(hue: real, c: Rgb): (r: Hwb)
    ensures r.h == hue
    ensures r.w + r.b <= 1.0
    ensures r.w + r.b == 1.0 <==> c.r == c.g == c.b
  {
    Hwb(hue, Min3(c.r, c.g, c.b), 1.0 - Max3(c.r, c.g, c.b))
  }

  /** Mixing keeps the order of channels, so the smallest and largest mix to the smallest and largest. */
  lemma MixMinMax(p: real, q: real, s: real, m: real, w: real)
    requires 0.0 < m
    ensures Min3(MixChannel(p, m, w), MixChannel(q, m, w), MixChannel(s, m, w)) == MixChannel(Min3(p, q, s), m, w)
    ensures Max3(MixChannel(p, m, w), MixChannel(q, m, w), MixChannel(s, m, w)) == MixChannel(Max3(p, q, s), m, w)
  {
    MixPair(p, q, m, w);
    MixPair(Min(p, q), s, m, w);
    MixPair(Max(p, q), s, m, w);
  }

  /** Mixing two channels keeps which of them is smaller. */
  lemma MixPair(p: real, q: real, m: real, w: real)
    requires 0.0 < m
    ensures Min(MixChannel(p, m, w), MixChannel(q, m, w)) == MixChannel(Min(p, q), m, w)
    ensures Max(MixChannel(p, m, w), MixChannel(q, m, w)) == MixChannel(Max(p, q), m, w)
  {
    CompareScaled(p, q, m);
    CompareScaled(q, p, m);
  }

  lemma CompareScaled(p: real, q: real, m: real)
    requires 0.0 < m
    ensures p <= q <==> p * m <= q * m
  {
    if p <= q {
      MulLeftMono(m, p, q);
      assert m * p == p * m && m * q == q * m;
    } else {
      MulLeftStrict(m, q, p);
      assert m * p == p * m && m * q == q * m;
    }
  }

  /**
   * For a hue in [0, 12), the fully saturated colour at half lightness has a
   * channel at 0 and a channel at 1.
   */
  lemma HueExtremes(h: real)
    requires 0.0 <= h < 12.0
    ensures var c := H.ToRgb(H.Hsl(h, 1.0, 0.5));
      Min3(c.r, c.g, c.b) == 0.0 && Max3(c.r, c.g, c.b) == 1.0
  {
    var c := H.ToRgb(H.Hsl(h, 1.0, 0.5));
    H.ChannelsInUnitRange(H.Hsl(h, 1.0, 0.5));
    RemOfInRange(h, 12.0);
    if h < 4.0 {
      RemOfInRange(h + 8.0, 12.0);
    } else {
      RemOfInRange(h - 4.0, 12.0);
    }
    if h < 8.0 {
      RemOfInRange(h + 4.0, 12.0);
    } else {
      RemOfInRange(h - 8.0, 12.0);
    }
  }

  /**
   * With the intended `toRgb`, `fromRgb` gives back the whiteness and
   * blackness of any colour below the gray threshold whose hue is in [0, 12).
   */
  lemma IntendedRoundTrip(x: Hwb, hue: real)
    requires 0.0 <= x.h < 12.0 && x.w + x.b < 1.0
    ensures FromRgb(hue, ToRgb(x)) == Hwb(hue, x.w, x.b)
  {
    HueExtremes(x.h);
    FromMixed(hue, x, H.ToRgb(H.Hsl(x.h, 1.0, 0.5)));
  }

  /** Mixing a colour that spans 0 to 1 and reading it back recovers whiteness and blackness. */
  lemma FromMixed(hue: real, x: Hwb, c: Rgb)
    requires Min3(c.r, c.g, c.b) == 0.0 && Max3(c.r, c.g, c.b) == 1.0 && x.w + x.b < 1.0
    ensures FromRgb(hue, Mix(x, c)) == Hwb(hue, x.w, x.b)
  {
    var r := Mix(x, c);
    assert Min3(r.r, r.g, r.b) == x.w && Max3(r.r, r.g, r.b) == 1.0 - x.b by {
      var m := 1.0 - x.w - x.b;
      assert r == Rgb(MixChannel(c.r, m, x.w), MixChannel(c.g, m, x.w), MixChannel(c.b, m, x.w));
      MixedExtremes(c, m, x.w);
    }
    FromRgbOf(hue, r, x.w, x.b);
  }

  /** `fromRgb` of a colour whose smallest channel is `w` and largest `1 - b`. */
  lemma FromRgbOf(hue: real, c: Rgb, w: real, b: real)
    requires Min3(c.r, c.g, c.b) == w && Max3(c.r, c.g, c.b) == 1.0 - b
    ensures FromRgb(hue, c) == Hwb(hue, w, b)
  {
  }

  lemma MixedExtremes(c: Rgb, m: real, w: real)
    requires Min3(c.r, c.g, c.b) == 0.0 && Max3(c.r, c.g, c.b) == 1.0 && 0.0 < m
    ensures Min3(MixChannel(c.r, m, w), MixChannel(c.g, m, w), MixChannel(c.b, m, w)) == w
    ensures Max3(MixChannel(c.r, m, w), MixChannel(c.g, m, w), MixChannel(c.b, m, w)) == m + w
  {
    MixMinMax(c.r, c.g, c.b, m, w);
  }

  /** A gray comes back with whiteness and blackness scaled to sum to 1. */
  lemma GrayRoundTrip(x: Hwb, hue: real)
    requires x.w + x.b >= 1.0
    ensures FromRgb(hue, ToRgb(x)) == Hwb(hue, x.w / (x.w + x.b), x.b / (x.w + x.b))
  {
    DivAdd(x.w, x.b, x.w + x.b);
    DivUnique(x.w + x.b, x.w + x.b, 1.0);
  }
}
