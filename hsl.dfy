/**
 * The widget's `rgbToHsl`: the min/max-channel algorithm, computed here in
 * exact reals (each channel divided by 255) and rounded with `Math.round`.
 */
module Hsl {
  import opened HexColor

  /** Hue in degrees, saturation and lightness in percent, all rounded. */
  datatype Hsl = Hsl(h: int, s: int, l: int)

  /** `Math.round`: the nearest integer, halves rounded up. */
  function Round(x: real): (n: int)
    ensures x - 0.5 < n as real <= x + 0.5
  {
    (x + 0.5).Floor
  }

  /** `Math.max(r, g, b)`: one of the three, no smaller than any. */
  function Max3(a: real, b: real, c: real): (m: real)
    ensures m == a || m == b || m == c
    ensures a <= m && b <= m && c <= m
  {
    if a >= b && a >= c then a else if b >= c then b else c
  }

  /** `Math.min(r, g, b)`: one of the three, no larger than any. */
  function Min3(a: real, b: real, c: real): (m: real)
    ensures m == a || m == b || m == c
    ensures m <= a && m <= b && m <= c
  {
    if a <= b && a <= c then a else if b <= c then b else c
  }

  /** A channel divided by 255. */
  function Unit(v: int): real {
    v as real / 255.0
  }

  /** The hue formula of the red-maximum case, before scaling to degrees. */
  function RedHue(r: real, g: real, b: real, d: real): real
    requires d > 0.0
  {
    ((g - b) / d + (if g < b then 6.0 else 0.0)) / 6.0
  }

  /** The hue formula of the green-maximum case. */
  function GreenHue(r: real, g: real, b: real, d: real): real
    requires d > 0.0
  {
    ((b - r) / d + 2.0) / 6.0
  }

  /** The hue formula of the blue-maximum case. */
  function BlueHue(r: real, g: real, b: real, d: real): real
    requires d > 0.0
  {
    ((r - g) / d + 4.0) / 6.0
  }

  /** A chromatic colour: channels in the unit interval, not all equal. */
  predicate Chromatic(r: real, g: real, b: real) {
    0.0 <= r <= 1.0 && 0.0 <= g <= 1.0 && 0.0 <= b <= 1.0 &&
    Max3(r, g, b) != Min3(r, g, b)
  }

  /**
   * The `switch (max)`: the first case whose channel equals the maximum wins,
   * red, then green, then blue. The hue is a fraction of a full turn.
   */
  function Hue(r: real, g: real, b: real): (h: real)
    requires Chromatic(r, g, b)
    ensures 0.0 <= h < 1.0
  {
    var max, min := Max3(r, g, b), Min3(r, g, b);
    var d := max - min;
    if max == r then
      RedHueBounds(r, g, b, d);
      RedHue(r, g, b, d)
    else if max == g then
      GreenHueBounds(r, g, b, d);
      GreenHue(r, g, b, d)
    else
      BlueHueBounds(r, g, b, d);
      BlueHue(r, g, b, d)
  }

  /**
   * Saturation of a chromatic colour: the spread over `2 - max - min` above
   * half lightness, over `max + min` otherwise. Neither denominator is zero.
   */
  function Saturation(max: real, min: real): (s: real)
    requires 0.0 <= min < max <= 1.0
    ensures 0.0 < s <= 1.0
  {
    var l := (max + min) / 2.0;
    var d := max - min;
    if l > 0.5 then
      RatioAtMostOne(d, 2.0 - max - min);
      d / (2.0 - max - min)
    else
      RatioAtMostOne(d, max + min);
      d / (max + min)
  }

  /**
   * `rgbToHsl(r, g, b)`: hue in 0..360 (360 is reached, by hues just short of
   * a full turn), saturation and lightness in 0..100.
   */
  function RgbToHsl(c: Rgb): (hsl: Hsl)
    requires InRange(c)
    ensures 0 <= hsl.h <= 360 && 0 <= hsl.s <= 100 && 0 <= hsl.l <= 100
  {
    var r, g, b := Unit(c.r), Unit(c.g), Unit(c.b);
    var max, min := Max3(r, g, b), Min3(r, g, b);
    var l := (max + min) / 2.0;
    var h := if max == min then 0.0 else Hue(r, g, b);
    var s := if max == min then 0.0 else Saturation(max, min);
    Hsl(Round(h * 360.0), Round(s * 100.0), Round(l * 100.0))
  }

  lemma RatioAtMostOne(x: real, y: real)
    requires 0.0 < x <= y
    ensures 0.0 < x / y <= 1.0
  {
  }

  /** A difference of two channels, over the spread, lies in [-1, 1]. */
  lemma SpreadRatio(x: real, d: real)
    requires d > 0.0 && -d <= x <= d
    ensures -1.0 <= x / d <= 1.0
    ensures x < 0.0 ==> x / d < 0.0
  {
  }

  lemma RedHueBounds(r: real, g: real, b: real, d: real)
    requires Chromatic(r, g, b) && r == Max3(r, g, b) && d == r - Min3(r, g, b)
    ensures 0.0 <= RedHue(r, g, b, d) < 1.0
  {
    SpreadRatio(g - b, d);
  }

  lemma GreenHueBounds(r: real, g: real, b: real, d: real)
    requires Chromatic(r, g, b) && g == Max3(r, g, b) && d == g - Min3(r, g, b)
    ensures 1.0 / 6.0 <= GreenHue(r, g, b, d) <= 0.5
  {
    SpreadRatio(b - r, d);
  }

  lemma BlueHueBounds(r: real, g: real, b: real, d: real)
    requires Chromatic(r, g, b) && b == Max3(r, g, b) && d == b - Min3(r, g, b)
    ensures 0.5 <= BlueHue(r, g, b, d) <= 5.0 / 6.0
  {
    SpreadRatio(r - g, d);
  }

  /**
   * The case order of the `switch` does not matter: whenever a channel ties
   * for the maximum, its own formula gives the same hue as the case that won.
   */
  lemma {:induction false} TiedCasesAgree(r: real, g: real, b: real)
    requires Chromatic(r, g, b)
    ensures var d := Max3(r, g, b) - Min3(r, g, b);
      (r == Max3(r, g, b) ==> RedHue(r, g, b, d) == Hue(r, g, b)) &&
      (g == Max3(r, g, b) ==> GreenHue(r, g, b, d) == Hue(r, g, b)) &&
      (b == Max3(r, g, b) ==> BlueHue(r, g, b, d) == Hue(r, g, b))
  {
    var max, min := Max3(r, g, b), Min3(r, g, b);
    if r == max && g == max {
      TieFormulas(r, g, b, max - b);
    } else if r == max && b == max {
      TieFormulas(r, g, b, max - g);
    } else if g == max && b == max {
      TieFormulas(r, g, b, max - r);
    }
  }

  /** At a tie the two tied channels' formulas meet at 60, 180 or 300 degrees. */
  lemma TieFormulas(r: real, g: real, b: real, d: real)
    requires d > 0.0
    ensures r == g == b + d ==> RedHue(r, g, b, d) == GreenHue(r, g, b, d) == 1.0 / 6.0
    ensures r == b == g + d ==> RedHue(r, g, b, d) == BlueHue(r, g, b, d) == 5.0 / 6.0
    ensures g == b == r + d ==> GreenHue(r, g, b, d) == BlueHue(r, g, b, d) == 0.5
  {
    assert d / d == 1.0;
    assert (0.0 - d) / d == -1.0;
  }

  /** Greys are achromatic: hue and saturation 0, lightness the grey level in percent. */
  lemma GreyIsAchromatic(v: int)
    requires 0 <= v < 256
    ensures RgbToHsl(Rgb(v, v, v)) == Hsl(0, 0, Round(v as real * 100.0 / 255.0))
  {
  }

  lemma BlackAndWhite()
    ensures RgbToHsl(Rgb(0, 0, 0)) == Hsl(0, 0, 0)
    ensures RgbToHsl(Rgb(255, 255, 255)) == Hsl(0, 0, 100)
  {
    GreyIsAchromatic(0);
    GreyIsAchromatic(255);
  }

  /** The hue reaches 360: (255, 0, 1) is 360 - 60/255 degrees before rounding. */
  lemma HueReaches360()
    ensures RgbToHsl(Rgb(255, 0, 1)).h == 360
  {
    var r, g, b := Unit(255), Unit(0), Unit(1);
    assert Max3(r, g, b) == 1.0 && Min3(r, g, b) == 0.0;
    assert Hue(r, g, b) * 360.0 == 360.0 - 60.0 / 255.0;
  }

  /** The widget's default colour #3498db. */
  lemma DefaultColour()
    ensures RgbToHsl(Rgb(52, 152, 219)) == Hsl(204, 70, 53)
  {
    var r, g, b := Unit(52), Unit(152), Unit(219);
    assert Max3(r, g, b) == b && Min3(r, g, b) == r;
    assert Saturation(b, r) == 167.0 / 239.0;
    assert Hue(r, g, b) == (-100.0 / 167.0 + 4.0) / 6.0;
  }

  /** Lightness rounding never meets a half: (max + min) * 10 / 51 is never k + 1/2. */
  lemma {:induction false} LightnessNeverTies(c: Rgb, k: int)
    requires InRange(c)
    ensures var r, g, b := Unit(c.r), Unit(c.g), Unit(c.b);
      (Max3(r, g, b) + Min3(r, g, b)) / 2.0 * 100.0 != k as real + 0.5
  {
    ChannelExtremes(c);
  }

  function MaxInt(c: Rgb): int {
    if c.r >= c.g && c.r >= c.b then c.r else if c.g >= c.b then c.g else c.b
  }

  function MinInt(c: Rgb): int {
    if c.r <= c.g && c.r <= c.b then c.r else if c.g <= c.b then c.g else c.b
  }

  /** The extremes over the scaled channels are the scaled integer extremes. */
  lemma ChannelExtremes(c: Rgb)
    ensures Max3(Unit(c.r), Unit(c.g), Unit(c.b)) == Unit(MaxInt(c))
    ensures Min3(Unit(c.r), Unit(c.g), Unit(c.b)) == Unit(MinInt(c))
  {
  }

  /**
   * An integer restatement, in the spirit of a reference definition: with M
   * and m the largest and smallest channel, lightness is round((M + m) * 10 / 51).
   */
  lemma LightnessIntegerForm(c: Rgb)
    requires InRange(c)
    ensures RgbToHsl(c).l == Round((MaxInt(c) + MinInt(c)) as real * 10.0 / 51.0)
  {
    ChannelExtremes(c);
    var M, m := MaxInt(c), MinInt(c);
    assert (Unit(M) + Unit(m)) / 2.0 * 100.0 == (M + m) as real * 10.0 / 51.0;
  }

  /**
   * Saturation in integers: 0 for greys; round(100 (M - m) / (M + m)) at or
   * below half lightness and round(100 (M - m) / (510 - M - m)) above.
   */
  lemma SaturationIntegerForm(c: Rgb)
    requires InRange(c)
    ensures var M, m := MaxInt(c), MinInt(c);
      (M == m ==> RgbToHsl(c).h == 0 && RgbToHsl(c).s == 0) &&
      (M != m && M + m <= 255 ==>
        RgbToHsl(c).s == Round(100.0 * (M - m) as real / (M + m) as real)) &&
      (M != m && M + m > 255 ==>
        RgbToHsl(c).s == Round(100.0 * (M - m) as real / (510 - M - m) as real))
  {
    var M, m := MaxInt(c), MinInt(c);
    ChannelExtremes(c);
    var max, min := Unit(M), Unit(m);
    if M != m {
      assert RgbToHsl(c).s == Round(Saturation(max, min) * 100.0);
      if M + m <= 255 {
        ScaledRatio(M - m, M + m);
      } else {
        assert 2.0 - max - min == (510 - M - m) as real / 255.0;
        ScaledRatio(M - m, 510 - M - m);
      }
    }
  }

  /** Dividing both channel sums by 255 leaves their ratio unchanged. */
  lemma ScaledRatio(x: int, y: int)
    requires y > 0
    ensures (x as real / 255.0) / (y as real / 255.0) * 100.0 == 100.0 * x as real / y as real
  {
  }
}
