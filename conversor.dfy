/**
 * The HSL <-> RGB conversion service. Every quantity is an exact real:
 * JavaScript's `Math.round`, `%`, `Math.abs`, `Math.max` and `Math.min` are
 * written out below with their JavaScript meaning.
 */
module Conversor {
  import opened Samples
  import opened JsMath

  /** Red, green and blue channels as returned by `hslToRgb`. */
  datatype Rgb = Rgb(r: int, g: int, b: int)

  /** Hue in degrees, saturation and lightness as returned by `rgbToHsl`. */
  datatype Hsl = Hsl(h: real, s: real, l: real)

  /** The channel whose `case` the hue `switch` takes. */
  datatype Branch = RedMax | GreenMax | BlueMax

  /** The value of the channel `br` names. */
  function Picked(br: Branch, r: real, g: real, b: real): real {
    match br
    case RedMax => r
    case GreenMax => g
    case BlueMax => b
  }

  function Abs(x: real): real {
    if x < 0.0 then -x else x
  }

  function Max3(a: real, b: real, c: real): real {
    var m := if a >= b then a else b;
    if m >= c then m else c
  }

  function Min3(a: real, b: real, c: real): real {
    var m := if a <= b then a else b;
    if m <= c then m else c
  }

  /** Truncation toward zero, the quotient JavaScript's `%` is built on. */
  function Trunc(x: real): int {
    if x >= 0.0 then x.Floor else -((-x).Floor)
  }

  /** JavaScript's `a % n`: the remainder has the sign of the dividend and is smaller than `n` in magnitude. */
  function Rem(a: real, n: real): (r: real)
    requires n > 0.0
    ensures 0.0 <= a ==> 0.0 <= r < n
    ensures a < 0.0 ==> -n < r <= 0.0
  {
    RemBounds(a, n);
    a - n * (Trunc(a / n) as real)
  }

  lemma RemBounds(a: real, n: real)
    requires n > 0.0
    ensures 0.0 <= a ==> 0.0 <= a - n * (Trunc(a / n) as real) < n
    ensures a < 0.0 ==> -n < a - n * (Trunc(a / n) as real) <= 0.0
  {
    var f := a / n - Trunc(a / n) as real;
    if 0.0 <= a {
      ScaledBelow(f, n, a - n * (Trunc(a / n) as real));
    } else {
      ScaledBelow(-f, n, -(a - n * (Trunc(a / n) as real)));
    }
  }

  /** A fraction `f` in [0, 1) scaled by `n > 0` lies in [0, n). */
  lemma ScaledBelow(f: real, n: real, p: real)
    requires n > 0.0 && 0.0 <= f < 1.0 && p == n * f
    ensures 0.0 <= p < n
  {
    assert n * (1.0 - f) > 0.0;
    assert n * (1.0 - f) == n - n * f;
  }

  /** The primary and secondary chroma placed on red, green and blue by the sector `hp` of the hue wheel. */
  function Sector(hp: real, c: real, x: real): (real, real, real) {
    if 0.0 <= hp < 1.0 then (c, x, 0.0)
    else if 1.0 <= hp < 2.0 then (x, c, 0.0)
    else if 2.0 <= hp < 3.0 then (0.0, c, x)
    else if 3.0 <= hp < 4.0 then (0.0, x, c)
    else if 4.0 <= hp < 5.0 then (x, 0.0, c)
    else (c, 0.0, x)
  }

  /** The unrounded channels for hue sector `hp`, chroma `c` and offset `m`: sector, secondary chroma, then the offset added. */
  function Place(hp: real, c: real, m: real): (real, real, real) {
    var x := c * (1.0 - Abs(Rem(hp, 2.0) - 1.0));
    var t := Sector(hp, c, x);
    (t.0 + m, t.1 + m, t.2 + m)
  }

  /** `hslToRgb`: the six-sector chroma construction, each channel scaled to 255 and rounded. */
  function HslToRgb(h: real, s: real, l: real): Rgb {
    var c := (1.0 - Abs(2.0 * l - 1.0)) * s;
    var p := Place(Rem(h, 360.0) / 60.0, c, l - c / 2.0);
    Rgb(Round(p.0 * 255.0), Round(p.1 * 255.0), Round(p.2 * 255.0))
  }

  /** The `switch (max)` of `rgbToHsl`: red is tried first, then green, blue is the default. */
  function HueBranch(r: real, g: real, b: real): (br: Branch)
    ensures br == RedMax <==> r == Max3(r, g, b)
    ensures br == GreenMax <==> r != Max3(r, g, b) && g == Max3(r, g, b)
    ensures br == BlueMax ==> b == Max3(r, g, b)
  {
    var max := Max3(r, g, b);
    if max == r then RedMax else if max == g then GreenMax else BlueMax
  }

  /** The hue in degrees chosen by `br`, before a negative value is wrapped. */
  function BranchHue(br: Branch, r: real, g: real, b: real, d: real): real
    requires d != 0.0
  {
    match br
    case RedMax => 60.0 * Rem((g - b) / d, 6.0)
    case GreenMax => 60.0 * ((b - r) / d + 2.0)
    case BlueMax => 60.0 * ((r - g) / d + 4.0)
  }

  /** `if (h < 0) h += 360`. */
  function Wrap(h: real): real {
    if h < 0.0 then h + 360.0 else h
  }

  /** The channels of an 8-bit triple, normalised to [0, 1]. */
  function Unit(v: Sample): (u: real)
    ensures 0.0 <= u <= 1.0
  {
    v as real / 255.0
  }

  /** `1 - |2l - 1|`, the saturation denominator, is positive whenever the channels are not all equal. */
  lemma DenominatorPositive(max: real, min: real)
    requires 0.0 <= min < max <= 1.0
    ensures 1.0 - Abs(2.0 * ((max + min) / 2.0) - 1.0) > 0.0
  {
  }

  /** Lightness: the midpoint of the largest and smallest channel. */
  function Lightness(r: real, g: real, b: real): real {
    (Max3(r, g, b) + Min3(r, g, b)) / 2.0
  }

  /** Saturation: the spread over `1 - |2l - 1|`, or zero when the channels are all equal. */
  function Saturation(r: real, g: real, b: real): real
    requires 0.0 <= r <= 1.0 && 0.0 <= g <= 1.0 && 0.0 <= b <= 1.0
  {
    var max, min := Max3(r, g, b), Min3(r, g, b);
    var d := max - min;
    if d != 0.0 then
      DenominatorPositive(max, min);
      d / (1.0 - Abs(2.0 * Lightness(r, g, b) - 1.0))
    else 0.0
  }

  /** Hue in degrees before a negative value is wrapped, or zero when the channels are all equal. */
  function Hue(r: real, g: real, b: real): real {
    var d := Max3(r, g, b) - Min3(r, g, b);
    if d != 0.0 then BranchHue(HueBranch(r, g, b), r, g, b, d) else 0.0
  }

  /** `rgbToHsl` on an 8-bit triple. */
  function RgbToHsl(r255: Sample, g255: Sample, b255: Sample): Hsl {
    var r, g, b := Unit(r255), Unit(g255), Unit(b255);
    Hsl(Wrap(Hue(r, g, b)), Saturation(r, g, b), Lightness(r, g, b))
  }

  // ---------------------------------------------------------------------------
  // Arithmetic facts about the JavaScript operators

  /** A dividend smaller than the divisor in magnitude is its own remainder. */
  lemma RemSmall(a: real, n: real)
    requires n > 0.0 && -n < a < n
    ensures Rem(a, n) == a
  {
    var q := a / n;
    assert q * n == a;
    if 0.0 <= a {
      if q >= 1.0 { ScaleMonotone(1.0, q, n); }
    } else {
      if q <= -1.0 { ScaleMonotone(q, -1.0, n); }
    }
    assert Trunc(q) == 0;
  }

  lemma ScaleMonotone(x: real, y: real, n: real)
    requires n > 0.0 && x <= y
    ensures x * n <= y * n
    ensures x < y ==> x * n < y * n
  {
    assert (y - x) * n >= 0.0;
    assert x < y ==> (y - x) * n > 0.0;
  }

  /** The remainder modulo 2 of a value in [2k, 2k + 2). */
  lemma RemTwo(a: real, k: nat)
    requires 2.0 * k as real <= a < 2.0 * k as real + 2.0
    ensures Rem(a, 2.0) == a - 2.0 * k as real
  {
    var q := a / 2.0;
    assert k as real <= q < k as real + 1.0;
    assert q.Floor == k;
    assert Trunc(q) == k;
  }

  /** Adding a full turn to a non-negative hue leaves its remainder modulo 360 unchanged. */
  lemma RemFullTurn(a: real)
    requires 0.0 <= a
    ensures Rem(a + 360.0, 360.0) == Rem(a, 360.0)
  {
    assert (a + 360.0) / 360.0 == a / 360.0 + 1.0;
    assert (a / 360.0 + 1.0).Floor == (a / 360.0).Floor + 1;
  }

  /** A quotient of `x` by a larger positive `d` lies in [-1, 1], strictly inside where `x` is strictly inside, with the sign of `x`. */
  lemma RatioInUnit(x: real, d: real)
    requires d > 0.0 && -d <= x <= d
    ensures -1.0 <= x / d <= 1.0
    ensures 0.0 <= x ==> 0.0 <= x / d
    ensures x < d ==> x / d < 1.0
    ensures x < 0.0 ==> x / d < 0.0
    ensures -d < x ==> -1.0 < x / d
  {
    QuotientOrder(x, d, d);
    QuotientOrder(-d, x, d);
    QuotientOrder(0.0, x, d);
    QuotientOrder(x, 0.0, d);
    assert d / d == 1.0 && -d / d == -1.0 && 0.0 / d == 0.0;
  }

  /** Division by a positive `d` keeps order, strict and non-strict. */
  lemma QuotientOrder(x: real, y: real, d: real)
    requires d > 0.0
    ensures x <= y ==> x / d <= y / d
    ensures x < y ==> x / d < y / d
  {
    assert y / d - x / d == (y - x) / d;
    if x < y {
      var q := (y - x) / d;
      assert q * d == y - x;
      if q <= 0.0 {
        ScaleMonotone(q, 0.0, d);
      }
    }
  }

  /** `a * b` with `b` in [0, 1] lies between 0 and `a`. */
  lemma ScaledDown(a: real, b: real)
    requires 0.0 <= a && 0.0 <= b <= 1.0
    ensures 0.0 <= a * b <= a
  {
    assert a * (1.0 - b) >= 0.0;
  }

  // ---------------------------------------------------------------------------
  // rgbToHsl

  /** Lightness is the midpoint of the largest and smallest normalised channel, so it lies in [0, 1]. */
  lemma LightnessIsMidrange(r255: Sample, g255: Sample, b255: Sample)
    ensures var r, g, b := Unit(r255), Unit(g255), Unit(b255);
      var l := RgbToHsl(r255, g255, b255).l;
      Min3(r, g, b) <= l <= Max3(r, g, b) && 0.0 <= l <= 1.0
      && l - Min3(r, g, b) == Max3(r, g, b) - l
  {
  }

  /** Saturation lies in [0, 1], and it is zero exactly when the three channels are equal; then hue is zero too. */
  lemma SaturationInUnit(r255: Sample, g255: Sample, b255: Sample)
    ensures var hsl := RgbToHsl(r255, g255, b255);
      0.0 <= hsl.s <= 1.0
      && (hsl.s == 0.0 <==> r255 == g255 == b255)
      && (r255 == g255 == b255 ==> hsl.h == 0.0)
  {
    var r, g, b := Unit(r255), Unit(g255), Unit(b255);
    var max, min := Max3(r, g, b), Min3(r, g, b);
    var d := max - min;
    var l := (max + min) / 2.0;
    if d != 0.0 {
      DenominatorPositive(max, min);
      var den := 1.0 - Abs(2.0 * l - 1.0);
      assert d <= den;
      RatioInUnit(d, den);
      assert d / den > 0.0 by {
        if d / den <= 0.0 { ScaleMonotone(d / den, 0.0, den); }
      }
    }
  }

  /** The unwrapped hue of every branch whose channel is a maximum lies in [-60, 300]. */
  lemma BranchHueBounds(br: Branch, r: real, g: real, b: real)
    requires 0.0 <= r <= 1.0 && 0.0 <= g <= 1.0 && 0.0 <= b <= 1.0
    requires Max3(r, g, b) != Min3(r, g, b) && Picked(br, r, g, b) == Max3(r, g, b)
    ensures var h := BranchHue(br, r, g, b, Max3(r, g, b) - Min3(r, g, b));
      -60.0 <= h <= 300.0
      && (h < 0.0 <==> br == RedMax && g < b)
  {
    var d := Max3(r, g, b) - Min3(r, g, b);
    match br
    case RedMax =>
      RatioInUnit(g - b, d);
      RemSmall((g - b) / d, 6.0);
    case GreenMax =>
      RatioInUnit(b - r, d);
    case BlueMax =>
      RatioInUnit(r - g, d);
  }

  /** Hue always lands in [0, 360): only the red branch can go negative, and the wrap brings it back. */
  lemma HueInRange(r255: Sample, g255: Sample, b255: Sample)
    ensures 0.0 <= RgbToHsl(r255, g255, b255).h < 360.0
  {
    var r, g, b := Unit(r255), Unit(g255), Unit(b255);
    if Max3(r, g, b) != Min3(r, g, b) {
      BranchHueBounds(HueBranch(r, g, b), r, g, b);
    }
  }

  /** A difference equal to plus or minus the spread gives a ratio of plus or minus one. */
  lemma UnitRatio(x: real, d: real)
    requires d != 0.0 && (x == d || x == -d)
    ensures x / d == (if x == d then 1.0 else -1.0)
  {
    assert d / d == 1.0 && -d / d == -1.0;
  }

  /**
   * Which channel wins a tie for the maximum does not matter: every branch whose
   * channel is a maximum gives, once wrapped, the hue that `rgbToHsl` keeps.
   */
  lemma TieBreakIrrelevant(br: Branch, r: real, g: real, b: real)
    requires Max3(r, g, b) != Min3(r, g, b) && Picked(br, r, g, b) == Max3(r, g, b)
    ensures Wrap(BranchHue(br, r, g, b, Max3(r, g, b) - Min3(r, g, b))) == Wrap(Hue(r, g, b))
  {
    var d := Max3(r, g, b) - Min3(r, g, b);
    var chosen := HueBranch(r, g, b);
    if br != chosen {
      match br
      case RedMax =>
        assert false;
      case GreenMax =>
        // red and green tie: both give 60 degrees
        assert chosen == RedMax && r == g && b == Min3(r, g, b);
        UnitRatio(g - b, d);
        UnitRatio(b - r, d);
        RemSmall(1.0, 6.0);
      case BlueMax =>
        if chosen == RedMax {
          // red and blue tie: both give 300 degrees
          assert r == b && g == Min3(r, g, b);
          UnitRatio(g - b, d);
          UnitRatio(r - g, d);
          RemSmall(-1.0, 6.0);
        } else {
          // green and blue tie: both give 180 degrees
          assert g == b && r == Min3(r, g, b);
          UnitRatio(b - r, d);
          UnitRatio(r - g, d);
        }
    }
  }

  // ---------------------------------------------------------------------------
  // hslToRgb

  /**
   * The hue wheel written piecewise: on each sector of width one one channel
   * carries the full chroma, one none, and the third rises or falls linearly.
   */
  function Wheel(hp: real, c: real, m: real): (real, real, real) {
    if hp < 1.0 then (c + m, c * hp + m, m)
    else if hp < 2.0 then (c * (2.0 - hp) + m, c + m, m)
    else if hp < 3.0 then (m, c + m, c * (hp - 2.0) + m)
    else if hp < 4.0 then (m, c * (4.0 - hp) + m, c + m)
    else if hp < 5.0 then (c * (hp - 4.0) + m, m, c + m)
    else (c + m, m, c * (6.0 - hp) + m)
  }

  /** The secondary chroma of the wheel: rising on even sectors, falling on odd ones. */
  function Secondary(hp: real, c: real): real {
    if hp < 1.0 then c * hp
    else if hp < 2.0 then c * (2.0 - hp)
    else if hp < 3.0 then c * (hp - 2.0)
    else if hp < 4.0 then c * (4.0 - hp)
    else if hp < 5.0 then c * (hp - 4.0)
    else c * (6.0 - hp)
  }

  /** `c * (1 - |hp % 2 - 1|)` is the piecewise secondary chroma. */
  lemma SecondaryChroma(hp: real, c: real)
    requires 0.0 <= hp < 6.0
    ensures c * (1.0 - Abs(Rem(hp, 2.0) - 1.0)) == Secondary(hp, c)
  {
    if hp < 2.0 {
      RemTwo(hp, 0);
      assert 1.0 - Abs(Rem(hp, 2.0) - 1.0) == if hp < 1.0 then hp else 2.0 - hp;
    } else if hp < 4.0 {
      RemTwo(hp, 1);
      assert 1.0 - Abs(Rem(hp, 2.0) - 1.0) == if hp < 3.0 then hp - 2.0 else 4.0 - hp;
    } else {
      RemTwo(hp, 2);
      assert 1.0 - Abs(Rem(hp, 2.0) - 1.0) == if hp < 5.0 then hp - 4.0 else 6.0 - hp;
    }
  }

  /** Given the secondary chroma, the sector table plus offset is the hue wheel. */
  lemma SectorIsWheel(hp: real, c: real, m: real, x: real)
    requires 0.0 <= hp < 6.0 && x == Secondary(hp, c)
    ensures var t := Sector(hp, c, x); (t.0 + m, t.1 + m, t.2 + m) == Wheel(hp, c, m)
  {
  }

  /** For `hp` in [0, 6) the construction with `%` and `|.|` is the piecewise hue wheel. */
  lemma PlaceIsWheel(hp: real, c: real, m: real)
    requires 0.0 <= hp < 6.0
    ensures Place(hp, c, m) == Wheel(hp, c, m)
  {
    SecondaryChroma(hp, c);
    SectorIsWheel(hp, c, m, c * (1.0 - Abs(Rem(hp, 2.0) - 1.0)));
  }

  /** Zero saturation gives the grey triple of the lightness, whatever the hue. */
  lemma GreyWhenUnsaturated(h: real, l: real)
    ensures var k := Round(l * 255.0); HslToRgb(h, 0.0, l) == Rgb(k, k, k)
  {
  }

  /** The sector offset of a non-negative hue lies in [0, 6). */
  lemma SectorOfHue(h: real)
    requires 0.0 <= h
    ensures 0.0 <= Rem(h, 360.0) / 60.0 < 6.0
  {
  }

  /** Every wheel channel lies between the offset `m` and the peak `m + c`. */
  lemma WheelBetween(hp: real, c: real, m: real)
    requires 0.0 <= hp < 6.0 && 0.0 <= c
    ensures var w := Wheel(hp, c, m);
      m <= w.0 <= m + c && m <= w.1 <= m + c && m <= w.2 <= m + c
  {
    var w := Wheel(hp, c, m);
    if hp < 1.0 {
      PartBetween(c, hp, m, w.1);
    } else if hp < 2.0 {
      PartBetween(c, 2.0 - hp, m, w.0);
    } else if hp < 3.0 {
      PartBetween(c, hp - 2.0, m, w.2);
    } else if hp < 4.0 {
      PartBetween(c, 4.0 - hp, m, w.1);
    } else if hp < 5.0 {
      PartBetween(c, hp - 4.0, m, w.0);
    } else {
      PartBetween(c, 6.0 - hp, m, w.2);
    }
  }

  /** A fraction `t` in [0, 1] of the chroma, plus the offset, lies between the offset and the peak. */
  lemma PartBetween(c: real, t: real, m: real, v: real)
    requires 0.0 <= c && 0.0 <= t <= 1.0 && v == c * t + m
    ensures m <= v <= m + c
  {
    ScaledDown(c, t);
  }

  /** A channel fraction in [0, 1], scaled to 255 and rounded, lies in [0, 255]. */
  lemma ByteInRange(v: real)
    requires 0.0 <= v <= 1.0
    ensures 0 <= Round(v * 255.0) <= 255
  {
  }

  /** Chroma and offset of a saturation and lightness in [0, 1] keep `m` and `m + c` in [0, 1]. */
  lemma ChromaInUnit(s: real, l: real, c: real, m: real)
    requires 0.0 <= s <= 1.0 && 0.0 <= l <= 1.0
    requires c == (1.0 - Abs(2.0 * l - 1.0)) * s && m == l - c / 2.0
    ensures 0.0 <= c && 0.0 <= m && m + c <= 1.0
  {
    var k := 1.0 - Abs(2.0 * l - 1.0);
    assert 0.0 <= k <= 1.0 && k / 2.0 <= l && l + k / 2.0 <= 1.0;
    ScaledDown(k, s);
    assert c <= k;
    assert c / 2.0 <= k / 2.0;
  }

  /** The placement of a non-negative hue with such a chroma and offset has every channel in [0, 1]. */
  lemma PlaceInUnit(h: real, c: real, m: real)
    requires 0.0 <= h && 0.0 <= c && 0.0 <= m && m + c <= 1.0
    ensures var p := Place(Rem(h, 360.0) / 60.0, c, m);
      0.0 <= p.0 <= 1.0 && 0.0 <= p.1 <= 1.0 && 0.0 <= p.2 <= 1.0
  {
    var hp := Rem(h, 360.0) / 60.0;
    SectorOfHue(h);
    PlaceIsWheel(hp, c, m);
    WheelBetween(hp, c, m);
  }

  /** For a non-negative hue and saturation and lightness in [0, 1], every channel lies in [0, 255]. */
  lemma HslToRgbInRange(h: real, s: real, l: real)
    requires 0.0 <= h && 0.0 <= s <= 1.0 && 0.0 <= l <= 1.0
    ensures var rgb := HslToRgb(h, s, l);
      0 <= rgb.r <= 255 && 0 <= rgb.g <= 255 && 0 <= rgb.b <= 255
  {
    var c := (1.0 - Abs(2.0 * l - 1.0)) * s;
    var m := l - c / 2.0;
    HslToRgbWith(h, s, l, c, m);
    ChromaInUnit(s, l, c, m);
    PlaceInUnit(h, c, m);
    var p := Place(Rem(h, 360.0) / 60.0, c, m);
    ByteInRange(p.0);
    ByteInRange(p.1);
    ByteInRange(p.2);
  }

  /** A non-negative hue and the same hue one full turn later give the same colour. */
  lemma HueIsPeriodic(h: real, s: real, l: real)
    requires 0.0 <= h
    ensures HslToRgb(h + 360.0, s, l) == HslToRgb(h, s, l)
  {
    RemFullTurn(h);
    var c := (1.0 - Abs(2.0 * l - 1.0)) * s;
    assert Place(Rem(h + 360.0, 360.0) / 60.0, c, l - c / 2.0) == Place(Rem(h, 360.0) / 60.0, c, l - c / 2.0);
  }

  // ---------------------------------------------------------------------------
  // Round trip

  /** Once the sector offset of `h` is known to be `hp` and the wheel at `hp` gives the channels, `hslToRgb`'s placement does too. */
  lemma PlacedAt(h: real, hp: real, d: real, mn: real, rgb: (real, real, real))
    requires 0.0 <= hp < 6.0 && Rem(h, 360.0) / 60.0 == hp && Wheel(hp, d, mn) == rgb
    ensures Place(Rem(h, 360.0) / 60.0, d, mn) == rgb
  {
    PlaceIsWheel(hp, d, mn);
  }

  /** The red branch, unwrapped and wrapped, as a sector offset: `q` on sectors 0 and 1, `q + 6` on sector 5. */
  lemma RedSector(r: real, g: real, b: real, mn: real)
    requires 0.0 <= g <= r && 0.0 <= b <= r
    requires mn == (if g <= b then g else b) && mn < r
    ensures var q := (g - b) / (r - mn);
      var hp := Rem(Wrap(BranchHue(RedMax, r, g, b, r - mn)), 360.0) / 60.0;
      -1.0 <= q <= 1.0 && (r - mn) * q == g - b && (q < 0.0 <==> g < b)
      && hp == (if g >= b then q else q + 6.0)
  {
    var d := r - mn;
    var q := (g - b) / d;
    RatioInUnit(g - b, d);
    RemSmall(q, 6.0);
    if g >= b {
      RemSmall(60.0 * q, 360.0);
    } else {
      RemSmall(60.0 * q + 360.0, 360.0);
    }
  }

  /** With red the largest channel and green at least blue, the wheel at `q` (sector 0, or 1 on a red-green tie) gives back the channels. */
  lemma RedWheelRising(r: real, g: real, b: real, q: real)
    requires b <= g <= r && b < r
    requires 0.0 <= q <= 1.0 && (r - b) * q == g - b
    ensures Wheel(q, r - b, b) == (r, g, b)
  {
  }

  /** With red the largest channel and green below blue, the wheel at `q + 6` (sector 5) gives back the channels. */
  lemma RedWheelWrapped(r: real, g: real, b: real, q: real)
    requires g < b <= r
    requires -1.0 <= q < 0.0 && (r - g) * q == g - b
    ensures Wheel(q + 6.0, r - g, g) == (r, g, b)
  {
  }

  /** The red branch is inverted by sectors 0, 1 and 5. */
  lemma RedRestores(r: real, g: real, b: real, mn: real)
    requires 0.0 <= g <= r && 0.0 <= b <= r
    requires mn == (if g <= b then g else b) && mn < r
    ensures var h := Wrap(BranchHue(RedMax, r, g, b, r - mn));
      Place(Rem(h, 360.0) / 60.0, r - mn, mn) == (r, g, b)
  {
    var d := r - mn;
    var q := (g - b) / d;
    RedSector(r, g, b, mn);
    if g >= b {
      RedWheelRising(r, g, b, q);
      PlacedAt(Wrap(BranchHue(RedMax, r, g, b, d)), q, d, mn, (r, g, b));
    } else {
      RedWheelWrapped(r, g, b, q);
      PlacedAt(Wrap(BranchHue(RedMax, r, g, b, d)), q + 6.0, d, mn, (r, g, b));
    }
  }

  /** The green branch as a sector offset: `q + 2`, on sectors 1 to 3. */
  lemma GreenSector(r: real, g: real, b: real, mn: real)
    requires 0.0 <= r < g && 0.0 <= b <= g
    requires mn == (if r <= b then r else b)
    ensures var q := (b - r) / (g - mn);
      var hp := Rem(Wrap(BranchHue(GreenMax, r, g, b, g - mn)), 360.0) / 60.0;
      -1.0 <= q <= 1.0 && (g - mn) * q == b - r && (q < 0.0 <==> b < r) && hp == q + 2.0
  {
    var d := g - mn;
    var q := (b - r) / d;
    RatioInUnit(b - r, d);
    RemSmall(60.0 * (q + 2.0), 360.0);
  }

  /** With green the largest channel and red below it, the wheel at `q + 2` gives back the channels. */
  lemma GreenWheel(r: real, g: real, b: real, mn: real, q: real)
    requires 0.0 <= r < g && 0.0 <= b <= g
    requires mn == (if r <= b then r else b)
    requires -1.0 <= q <= 1.0 && (g - mn) * q == b - r && (q < 0.0 <==> b < r)
    ensures Wheel(q + 2.0, g - mn, mn) == (r, g, b)
  {
  }

  /** The green branch is inverted by sectors 1, 2 and 3. */
  lemma GreenRestores(r: real, g: real, b: real, mn: real)
    requires 0.0 <= r < g && 0.0 <= b <= g
    requires mn == (if r <= b then r else b)
    ensures var h := Wrap(BranchHue(GreenMax, r, g, b, g - mn));
      Place(Rem(h, 360.0) / 60.0, g - mn, mn) == (r, g, b)
  {
    var d := g - mn;
    var q := (b - r) / d;
    GreenSector(r, g, b, mn);
    GreenWheel(r, g, b, mn, q);
    PlacedAt(Wrap(BranchHue(GreenMax, r, g, b, d)), q + 2.0, d, mn, (r, g, b));
  }

  /** The blue branch as a sector offset: `q + 4`, on sectors 3 and 4. */
  lemma BlueSector(r: real, g: real, b: real, mn: real)
    requires 0.0 <= r < b && 0.0 <= g < b
    requires mn == (if r <= g then r else g)
    ensures var q := (r - g) / (b - mn);
      var hp := Rem(Wrap(BranchHue(BlueMax, r, g, b, b - mn)), 360.0) / 60.0;
      -1.0 <= q < 1.0 && (b - mn) * q == r - g && (q < 0.0 <==> r < g) && hp == q + 4.0
  {
    var d := b - mn;
    var q := (r - g) / d;
    RatioInUnit(r - g, d);
    RemSmall(60.0 * (q + 4.0), 360.0);
  }

  /** With blue strictly the largest channel, the wheel at `q + 4` gives back the channels. */
  lemma BlueWheel(r: real, g: real, b: real, mn: real, q: real)
    requires 0.0 <= r < b && 0.0 <= g < b
    requires mn == (if r <= g then r else g)
    requires -1.0 <= q < 1.0 && (b - mn) * q == r - g && (q < 0.0 <==> r < g)
    ensures Wheel(q + 4.0, b - mn, mn) == (r, g, b)
  {
  }

  /** The blue branch is inverted by sectors 3 and 4. */
  lemma BlueRestores(r: real, g: real, b: real, mn: real)
    requires 0.0 <= r < b && 0.0 <= g < b
    requires mn == (if r <= g then r else g)
    ensures var h := Wrap(BranchHue(BlueMax, r, g, b, b - mn));
      Place(Rem(h, 360.0) / 60.0, b - mn, mn) == (r, g, b)
  {
    var d := b - mn;
    var q := (r - g) / d;
    BlueSector(r, g, b, mn);
    BlueWheel(r, g, b, mn, q);
    PlacedAt(Wrap(BranchHue(BlueMax, r, g, b, d)), q + 4.0, d, mn, (r, g, b));
  }

  /** Chroma rebuilt by `hslToRgb` from `rgbToHsl`'s saturation and lightness is the channel spread. */
  lemma ChromaIsSpread(r: real, g: real, b: real)
    requires 0.0 <= r <= 1.0 && 0.0 <= g <= 1.0 && 0.0 <= b <= 1.0
    ensures (1.0 - Abs(2.0 * Lightness(r, g, b) - 1.0)) * Saturation(r, g, b) == Max3(r, g, b) - Min3(r, g, b)
  {
    var max, min := Max3(r, g, b), Min3(r, g, b);
    if max != min {
      DenominatorPositive(max, min);
      var den := 1.0 - Abs(2.0 * Lightness(r, g, b) - 1.0);
      assert den * ((max - min) / den) == max - min;
    }
  }

  /** `hslToRgb` once its chroma `c` and offset `m` are known. */
  lemma HslToRgbWith(h: real, s: real, l: real, c: real, m: real)
    requires c == (1.0 - Abs(2.0 * l - 1.0)) * s && m == l - c / 2.0
    ensures var p := Place(Rem(h, 360.0) / 60.0, c, m);
      HslToRgb(h, s, l) == Rgb(Round(p.0 * 255.0), Round(p.1 * 255.0), Round(p.2 * 255.0))
  {
  }

  /** The hue `rgbToHsl` keeps, placed with the channel spread and minimum, gives back the channels. */
  lemma HueRestores(r: real, g: real, b: real)
    requires 0.0 <= r <= 1.0 && 0.0 <= g <= 1.0 && 0.0 <= b <= 1.0
    ensures Place(Rem(Wrap(Hue(r, g, b)), 360.0) / 60.0, Max3(r, g, b) - Min3(r, g, b), Min3(r, g, b)) == (r, g, b)
  {
    var min := Min3(r, g, b);
    if Max3(r, g, b) != min {
      match HueBranch(r, g, b)
      case RedMax => RedRestores(r, g, b, min);
      case GreenMax => GreenRestores(r, g, b, min);
      case BlueMax => BlueRestores(r, g, b, min);
    }
  }

  /** The chroma and offset `hslToRgb` derives from `rgbToHsl`'s saturation and lightness are the spread and the minimum channel. */
  lemma ChromaAndOffset(r: real, g: real, b: real, s: real, l: real)
    requires 0.0 <= r <= 1.0 && 0.0 <= g <= 1.0 && 0.0 <= b <= 1.0
    requires s == Saturation(r, g, b) && l == Lightness(r, g, b)
    ensures (1.0 - Abs(2.0 * l - 1.0)) * s == Max3(r, g, b) - Min3(r, g, b)
    ensures l - (Max3(r, g, b) - Min3(r, g, b)) / 2.0 == Min3(r, g, b)
  {
    ChromaIsSpread(r, g, b);
  }

  /** When the chroma `c` and offset `m` of `h`, `s`, `l` place `(r, g, b)`, `hslToRgb` returns those channels scaled and rounded. */
  lemma RebuiltFrom(h: real, s: real, l: real, c: real, m: real, r: real, g: real, b: real)
    requires c == (1.0 - Abs(2.0 * l - 1.0)) * s && m == l - c / 2.0
    requires Place(Rem(h, 360.0) / 60.0, c, m) == (r, g, b)
    ensures HslToRgb(h, s, l) == Rgb(Round(r * 255.0), Round(g * 255.0), Round(b * 255.0))
  {
    HslToRgbWith(h, s, l, c, m);
  }

  /** `hslToRgb` of the hue, saturation and lightness `rgbToHsl` computes gives back the channels, scaled and rounded. */
  lemma RestoresUnits(r: real, g: real, b: real, h: real, s: real, l: real)
    requires 0.0 <= r <= 1.0 && 0.0 <= g <= 1.0 && 0.0 <= b <= 1.0
    requires h == Wrap(Hue(r, g, b)) && s == Saturation(r, g, b) && l == Lightness(r, g, b)
    ensures HslToRgb(h, s, l) == Rgb(Round(r * 255.0), Round(g * 255.0), Round(b * 255.0))
  {
    HueRestores(r, g, b);
    ChromaAndOffset(r, g, b, s, l);
    RebuiltFrom(h, s, l, Max3(r, g, b) - Min3(r, g, b), Min3(r, g, b), r, g, b);
  }

  /** Over exact reals `hslToRgb` undoes `rgbToHsl` on every 8-bit triple. */
  lemma RoundTrip(r255: Sample, g255: Sample, b255: Sample)
    ensures var hsl := RgbToHsl(r255, g255, b255);
      HslToRgb(hsl.h, hsl.s, hsl.l) == Rgb(r255, g255, b255)
  {
    var hsl := RgbToHsl(r255, g255, b255);
    RestoresUnits(Unit(r255), Unit(g255), Unit(b255), hsl.h, hsl.s, hsl.l);
    assert Unit(r255) * 255.0 == r255 as real && Unit(g255) * 255.0 == g255 as real && Unit(b255) * 255.0 == b255 as real;
    RoundInteger(r255);
    RoundInteger(g255);
    RoundInteger(b255);
  }
}
