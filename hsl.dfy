/**
 * conversion/hsl.js: HSL colours in internal units (hue 0..12, saturation and
 * lightness 0..1), the constructor from CSS units and the conversion to RGB
 * of CSS Color Module Level 4, section 7.1.
 */
module Hsl {
  import opened Js
  import opened Shared
  import opened Records

  datatype Hsl = Hsl(h: real, s: real, l: real)

  /** `fmod` leaves a value already in range unchanged. */
  lemma FmodKeeps(n: real, m: real)
    requires 0.0 < m
    ensures 0.0 <= n < m ==> Fmod(n, m) == n
  {
    if 0.0 <= n < m {
      FmodOfInRange(n, m);
    }
  }

  /**
   * `Hsl(h, s, l)` from CSS units (degrees, percent). The file calls `fmod`
   * without importing it; the model binds the name to `fmod` of
   * conversion/shared.js. Percentages are reduced modulo 1, so 100% becomes 0.
   */
  function FromCss(h: real, s: real, l: real): (r: Hsl)
    ensures 0.0 <= r.h < 12.0 && 0.0 <= r.s < 1.0 && 0.0 <= r.l < 1.0
    ensures 0.0 <= h < 360.0 ==> r.h == h / 30.0
    ensures 0.0 <= s < 100.0 ==> r.s == s / 100.0
    ensures 0.0 <= l < 100.0 ==> r.l == l / 100.0
    ensures s == 100.0 ==> r.s == 0.0
    ensures l == 100.0 ==> r.l == 0.0
  {
    FmodKeeps(h / 30.0, 12.0);
    FmodKeeps(s / 100.0, 1.0);
    FmodKeeps(l / 100.0, 1.0);
    RemOfInRange(0.0, 1.0);
    Hsl(Fmod(h / 30.0, 12.0), Fmod(s / 100.0, 1.0), Fmod(l / 100.0, 1.0))
  }

  /**
   * The constructor as evidently intended: percentages clamped to [0, 1], so
   * 100% is full saturation or full lightness.
   */
  function FromCssClamped(h: real, s: real, l: real): (r: Hsl)
    ensures 0.0 <= r.h < 12.0 && 0.0 <= r.s <= 1.0 && 0.0 <= r.l <= 1.0
    ensures 0.0 <= h < 360.0 ==> r.h == h / 30.0
    ensures 0.0 <= s <= 100.0 ==> r.s == s / 100.0
    ensures 0.0 <= l <= 100.0 ==> r.l == l / 100.0
  {
    FmodKeeps(h / 30.0, 12.0);
    Hsl(Fmod(h / 30.0, 12.0), Clamp01(s / 100.0), Clamp01(l / 100.0))
  }

  /** `max(-1, min(k - 3, 9 - k, 1))`: where `k` sits on a channel's trapezoid. */
  function Ramp(k: real): (t: real)
    ensures -1.0 <= t <= 1.0
    ensures 4.0 <= k <= 8.0 ==> t == 1.0
    ensures (k <= 2.0 || 10.0 <= k) ==> t == -1.0
  {
    Max(-1.0, Min3(k - 3.0, 9.0 - k, 1.0))
  }

  /** A multiple of `a` by a factor in [-1, 1] lies between `-a` and `a`. */
  lemma ScaledWithin(a: real, t: real)
    requires -1.0 <= t <= 1.0
    ensures Min(-a, a) <= a * t <= Max(-a, a)
  {
    if 0.0 < a {
      MulLeftMono(a, -1.0, t);
      MulLeftMono(a, t, 1.0);
      assert a * -1.0 == -a;
      assert -a <= a * t <= a;
    } else if a < 0.0 {
      MulLeftMono(-a, -1.0, t);
      MulLeftMono(-a, t, 1.0);
      assert -a * t == -(a * t);
      assert (-a) * -1.0 == a && (-a) * 1.0 == -a;
      assert a <= a * t <= -a;
    }
  }

  /** The chroma `a = s * min(l, 1 - l)`. */
  function Chroma(c: Hsl): real
  {
    c.s * Min(c.l, 1.0 - c.l)
  }

  /**
   * The inner `f(n)`: `k = (h + n) % 12` with the truncating `%`, then
   * `l - a * max(-1, min(k - 3, 9 - k, 1))`. The result is `l` moved by at
   * most the chroma.
   */
  function Channel(c: Hsl, n: real): (v: real)
    ensures Min(c.l - Chroma(c), c.l + Chroma(c)) <= v <= Max(c.l - Chroma(c), c.l + Chroma(c))
  {
    var a := Chroma(c);
    var t := Ramp(Rem(c.h + n, 12.0));
    ScaledWithin(a, t);
    c.l - a * t
  }

  /** `toRgb(hsl)`: red is `f(0)`, green `f(8)`, blue `f(4)`. */
  function ToRgb(c: Hsl): Rgb
  {
    Rgb(Channel(c, 0.0), Channel(c, 8.0), Channel(c, 4.0))
  }

  /** Without saturation every channel is the lightness. */
  lemma UnsaturatedIsGray(c: Hsl)
    requires c.s == 0.0
    ensures ToRgb(c) == Rgb(c.l, c.l, c.l)
  {
  }

  /** The chroma of an in-range colour is between 0 and `min(l, 1 - l)`. */
  lemma ChromaBounds(c: Hsl)
    requires 0.0 <= c.s <= 1.0 && 0.0 <= c.l <= 1.0
    ensures 0.0 <= Chroma(c) <= Min(c.l, 1.0 - c.l)
  {
    var m := Min(c.l, 1.0 - c.l);
    assert Chroma(c) == m * c.s;
    if 0.0 < m {
      MulLeftMono(m, 0.0, c.s);
      MulLeftMono(m, c.s, 1.0);
      assert m * c.s <= m;
    }
  }

  /** For saturation and lightness in [0, 1], every channel is in [0, 1]. */
  lemma ChannelsInUnitRange(c: Hsl)
    requires 0.0 <= c.s <= 1.0 && 0.0 <= c.l <= 1.0
    ensures var r := ToRgb(c);
      0.0 <= r.r <= 1.0 && 0.0 <= r.g <= 1.0 && 0.0 <= r.b <= 1.0
  {
    ChromaBounds(c);
  }

  /** Full saturation at half lightness: hue 0 is red, 4 is green and 8 is blue. */
  lemma PrimaryHues()
    ensures ToRgb(Hsl(0.0, 1.0, 0.5)) == Rgb(1.0, 0.0, 0.0)
    ensures ToRgb(Hsl(4.0, 1.0, 0.5)) == Rgb(0.0, 1.0, 0.0)
    ensures ToRgb(Hsl(8.0, 1.0, 0.5)) == Rgb(0.0, 0.0, 1.0)
  {
    RemOfInRange(0.0, 12.0);
    RemOfInRange(4.0, 12.0);
    RemOfInRange(8.0, 12.0);
  }

  /**
   * `%` truncates, so a hue below zero is not wrapped round the circle: hue
   * -6 gives white where hue 6, the same angle, gives cyan. Hues built by
   * `FromCss` are never negative.
   */
  lemma NegativeHueIsNotWrapped()
    ensures ToRgb(Hsl(-6.0, 1.0, 0.5)) == Rgb(1.0, 1.0, 1.0)
    ensures ToRgb(Hsl(6.0, 1.0, 0.5)) == Rgb(0.0, 1.0, 1.0)
  {
    RemOfInRange(2.0, 12.0);
    RemOfInRange(6.0, 12.0);
    RemOfInRange(10.0, 12.0);
    assert Rem(-6.0, 12.0) == -6.0;
    assert Rem(-2.0, 12.0) == -2.0;
  }

  /** Because 100% wraps to 0, `hsl(0, 100%, 50%)` comes out gray instead of red. */
  lemma FullSaturationWraps()
    ensures FromCss(0.0, 100.0, 50.0) == Hsl(0.0, 0.0, 0.5)
    ensures ToRgb(FromCss(0.0, 100.0, 50.0)) == Rgb(0.5, 0.5, 0.5)
  {
    var wrapped := FromCss(0.0, 100.0, 50.0);
    assert wrapped.h == 0.0 && wrapped.s == 0.0 && wrapped.l == 0.5;
    UnsaturatedIsGray(wrapped);
  }

  /** The clamped constructor gives `hsl(0, 100%, 50%)` the red that CSS specifies. */
  lemma ClampedFullSaturationIsRed()
    ensures FromCssClamped(0.0, 100.0, 50.0) == Hsl(0.0, 1.0, 0.5)
    ensures ToRgb(FromCssClamped(0.0, 100.0, 50.0)) == Rgb(1.0, 0.0, 0.0)
  {
    var clamped := FromCssClamped(0.0, 100.0, 50.0);
    assert clamped.h == 0.0 && clamped.s == 1.0 && clamped.l == 0.5;
    PrimaryHues();
  }
}
