/**
 The gradient generator (`color_gradient`): `steps` colours from a start to an
 end colour, each channel interpolated linearly and rounded to the nearest
 integer. The `f32` arithmetic of the source is modelled with exact rationals.
 */
module Gradient {
  import opened HexColor

  /** The step count used when fewer than two are asked for. */
  const DefaultSteps: nat := 5

  /** `let steps = if steps < 2 { 5 } else { steps }`. */
  function EffectiveSteps(steps: nat): (n: nat)
    ensures n >= 2
    ensures steps >= 2 ==> n == steps
    ensures steps < 2 ==> n == DefaultSteps
  {
    if steps < 2 then DefaultSteps else steps
  }

  /**
   `f32::round` applied to the rational `num / den`: the nearest integer,
   halfway cases rounded away from zero.
   */
  function Round(num: int, den: nat): int
    requires den > 0
  {
    if num >= 0 then (2 * num + den) / (2 * den)
    else -((-2 * num + den) / (2 * den))
  }

  /**
   `Round(num, den)` is the integer nearest to `num / den`, within half a unit;
   a halfway case goes up for a non-negative ratio and down for a negative one.
   */
  lemma RoundNearest(num: int, den: nat)
    requires den > 0
    ensures var r := Round(num, den);
      && -(den as int) <= 2 * num - 2 * den * r <= den
      && (num >= 0 ==> 2 * num - 2 * den * r < den)
      && (num < 0 ==> -(den as int) < 2 * num - 2 * den * r)
  {
  }

  /** The conversion `x as u8` of a rounded `f32`, which saturates at both ends. */
  function SaturatingU8(x: int): (v: u8)
    ensures 0 <= x < 256 ==> v == x
  {
    if x < 0 then 0 else if x > 255 then 255 else x
  }

  /**
   One channel of step `i` of `n`: `start + (end - start) * i / (n - 1)`,
   written over the common denominator `n - 1`, rounded and converted to `u8`.
   */
  function Channel(s: u8, e: u8, n: nat, i: nat): u8
    requires n >= 2 && i < n
  {
    SaturatingU8(Round(s * (n - 1) + (e - s) * i, n - 1))
  }

  /** The colour of step `i` of `n`, each channel interpolated on its own. */
  function StepColor(start: Rgb, end: Rgb, n: nat, i: nat): Rgb
    requires n >= 2 && i < n
  {
    Rgb(Channel(start.r, end.r, n, i), Channel(start.g, end.g, n, i), Channel(start.b, end.b, n, i))
  }

  /** The pair `color_gradient` pushes for step `i` of `n`. */
  function Entry(start: Rgb, end: Rgb, n: nat, i: nat): (string, Rgb)
    requires n >= 2 && i < n
  {
    (RgbToHex(StepColor(start, end, n, i)), StepColor(start, end, n, i))
  }

  /** The first `count` entries of an `n`-step gradient. */
  function Entries(start: Rgb, end: Rgb, n: nat, count: nat): (g: seq<(string, Rgb)>)
    requires n >= 2 && count <= n
    ensures |g| == count
  {
    seq(count, i requires 0 <= i < count => Entry(start, end, n, i))
  }

  /** One more step extends the prefix by that step's entry. */
  lemma EntriesStep(start: Rgb, end: Rgb, n: nat, count: nat)
    requires n >= 2 && count < n
    ensures Entries(start, end, n, count + 1) == Entries(start, end, n, count) + [Entry(start, end, n, count)]
  {
    var longer, shorter := Entries(start, end, n, count + 1), Entries(start, end, n, count);
    assert forall k | 0 <= k < count :: longer[k] == shorter[k];
  }

  /** What `color_gradient` returns, as a value. */
  function GradientOf(hexStart: string, hexEnd: string, steps: nat): Option<seq<(string, Rgb)>>
  {
    var n := EffectiveSteps(steps);
    match (HexToRgb(hexStart), HexToRgb(hexEnd))
    case (Some(start), Some(end)) => Some(Entries(start, end, n, n))
    case _ => None
  }

  /**
   `color_gradient`: normalises the step count, parses both ends (failing if
   either does) and pushes one entry per step onto a growing vector.
   */
  method ColorGradient(hexStart: string, hexEnd: string, steps: nat)
    returns (res: Option<seq<(string, Rgb)>>)
    ensures res == GradientOf(hexStart, hexEnd, steps)
  {
    var n := EffectiveSteps(steps);
    var startColor := HexToRgb(hexStart);
    if startColor.None? {
      return None;
    }
    var endColor := HexToRgb(hexEnd);
    if endColor.None? {
      return None;
    }
    var start, end := startColor.value, endColor.value;
    var gradient: seq<(string, Rgb)> := [];
    for i := 0 to n
      invariant gradient == Entries(start, end, n, i)
    {
      var r := Channel(start.r, end.r, n, i);
      var g := Channel(start.g, end.g, n, i);
      var b := Channel(start.b, end.b, n, i);
      var color := Rgb(r, g, b);
      assert color == StepColor(start, end, n, i);
      var colorHex := RgbToHex(color);
      EntriesStep(start, end, n, i);
      gradient := gradient + [(colorHex, color)];
    }
    return Some(gradient);
  }

  // ---------------------------------------------------------------------------
  // Rounding and interpolation

  /** A whole number rounds to itself. */
  lemma RoundWhole(k: int, d: nat)
    requires d > 0
    ensures Round(k * d, d) == k
  {
    var r := Round(k * d, d);
    RoundNearest(k * d, d);
    var m := k - r;
    assert 2 * (k * d) - 2 * d * r == 2 * (d * m);
    ProductAtLeast(d, m);
    ProductAtLeast(d, -m);
  }

  /** A non-negative factor times a positive integer is at least the factor. */
  lemma {:induction false} ProductAtLeast(d: int, m: int)
    ensures d >= 0 && m >= 1 ==> d * m >= d
  {
    if m >= 1 {
      ProductAtLeast(d, m - 1);
    }
  }

  /** Rounding is monotone. */
  lemma RoundMonotone(x: int, y: int, d: nat)
    requires d > 0 && x <= y
    ensures Round(x, d) <= Round(y, d)
  {
    var rx, ry := Round(x, d), Round(y, d);
    RoundNearest(x, d);
    RoundNearest(y, d);
    if rx > ry {
      ProductAtLeast(d, rx - ry);
      assert false;
    }
  }

  /** The exact interpolant over the denominator `n - 1` is never negative. */
  lemma NumeratorBounds(s: u8, e: u8, n: nat, i: nat)
    requires n >= 2 && i < n
    ensures s <= e ==> s * (n - 1) <= s * (n - 1) + (e - s) * i <= e * (n - 1)
    ensures e <= s ==> e * (n - 1) <= s * (n - 1) + (e - s) * i <= s * (n - 1)
  {
    var d := n - 1;
    if s <= e {
      assert 0 <= (e - s) * i <= (e - s) * d;
    } else {
      assert (e - s) * d <= (e - s) * i <= 0;
    }
  }

  /** The rounded interpolant lies between the two end channels, so the `as u8` conversion never saturates. */
  lemma ChannelBetween(s: u8, e: u8, n: nat, i: nat)
    requires n >= 2 && i < n
    ensures var x := Round(s * (n - 1) + (e - s) * i, n - 1);
      Channel(s, e, n, i) == x && (s <= x <= e || e <= x <= s)
  {
    var d := n - 1;
    var num := s * d + (e - s) * i;
    NumeratorBounds(s, e, n, i);
    RoundWhole(s, d);
    RoundWhole(e, d);
    if s <= e {
      RoundMonotone(s * d, num, d);
      RoundMonotone(num, e * d, d);
    } else {
      RoundMonotone(e * d, num, d);
      RoundMonotone(num, s * d, d);
    }
  }

  /**
   Each channel is the exact value `s + (e - s) * i / (n - 1)` rounded to the
   nearest integer: it is within half a unit of it, halfway cases going up.
   */
  lemma ChannelNearest(s: u8, e: u8, n: nat, i: nat)
    requires n >= 2 && i < n
    ensures var num, d := s * (n - 1) + (e - s) * i, n - 1;
      -d <= 2 * num - 2 * d * Channel(s, e, n, i) < d
  {
    ChannelBetween(s, e, n, i);
    NumeratorBounds(s, e, n, i);
    RoundNearest(s * (n - 1) + (e - s) * i, n - 1);
  }

  /** The first step is the start channel and the last step the end channel. */
  lemma ChannelEnds(s: u8, e: u8, n: nat)
    requires n >= 2
    ensures Channel(s, e, n, 0) == s
    ensures Channel(s, e, n, n - 1) == e
  {
    var d := n - 1;
    RoundWhole(s, d);
    assert s * d + (e - s) * d == e * d;
    RoundWhole(e, d);
  }

  /** Along the gradient every channel moves from its start value towards its end value and never back. */
  lemma ChannelMonotone(s: u8, e: u8, n: nat, i: nat, j: nat)
    requires n >= 2 && i <= j < n
    ensures s <= e ==> Channel(s, e, n, i) <= Channel(s, e, n, j)
    ensures e <= s ==> Channel(s, e, n, j) <= Channel(s, e, n, i)
  {
    var d, a := n - 1, e - s;
    var ni, nj := s * d + a * i, s * d + a * j;
    ScaleMonotone(a, i, j);
    if s <= e {
      assert ni <= nj;
      RoundMonotone(ni, nj, d);
    }
    if e <= s {
      assert nj <= ni;
      RoundMonotone(nj, ni, d);
    }
  }

  /** Multiplying by a fixed factor preserves or reverses order according to its sign. */
  lemma {:induction false} ScaleMonotone(a: int, i: nat, j: nat)
    requires i <= j
    ensures a >= 0 ==> a * i <= a * j
    ensures a <= 0 ==> a * j <= a * i
  {
    if i < j {
      ScaleMonotone(a, i, j - 1);
    }
  }

  // ---------------------------------------------------------------------------
  // Properties of the gradient

  /** A channel value between two others. */
  predicate Between(x: int, a: int, b: int) {
    a <= x <= b || b <= x <= a
  }

  /** The gradient fails exactly when either end fails to parse; it never yields a partial result. */
  lemma GradientFails(hexStart: string, hexEnd: string, steps: nat)
    ensures GradientOf(hexStart, hexEnd, steps).None? <==>
      HexToRgb(hexStart).None? || HexToRgb(hexEnd).None?
  {
  }

  /** A gradient that succeeds has `steps` entries when `steps >= 2`, and five otherwise. */
  lemma GradientLength(hexStart: string, hexEnd: string, steps: nat)
    requires GradientOf(hexStart, hexEnd, steps).Some?
    ensures |GradientOf(hexStart, hexEnd, steps).value| == (if steps < 2 then 5 else steps)
  {
  }

  /** A gradient that succeeds begins at the parsed start colour and ends at the parsed end colour. */
  lemma GradientEnds(hexStart: string, hexEnd: string, steps: nat)
    requires GradientOf(hexStart, hexEnd, steps).Some?
    ensures var g := GradientOf(hexStart, hexEnd, steps).value;
      && g[0].1 == HexToRgb(hexStart).value
      && g[|g| - 1].1 == HexToRgb(hexEnd).value
  {
    var start, end, n := HexToRgb(hexStart).value, HexToRgb(hexEnd).value, EffectiveSteps(steps);
    var g := GradientOf(hexStart, hexEnd, steps).value;
    assert g[0] == Entry(start, end, n, 0);
    assert g[|g| - 1] == Entry(start, end, n, n - 1);
    StepColorEnds(start, end, n);
  }

  /** Every entry's hex string is `rgb_to_hex` of the entry's colour. */
  lemma GradientLabels(hexStart: string, hexEnd: string, steps: nat)
    requires GradientOf(hexStart, hexEnd, steps).Some?
    ensures var g := GradientOf(hexStart, hexEnd, steps).value;
      forall k :: 0 <= k < |g| ==> g[k].0 == RgbToHex(g[k].1)
  {
  }

  /** Every channel of every entry lies between the start and the end channel, inclusive. */
  lemma GradientBounds(hexStart: string, hexEnd: string, steps: nat)
    requires GradientOf(hexStart, hexEnd, steps).Some?
    ensures var g, start, end := GradientOf(hexStart, hexEnd, steps).value,
                                 HexToRgb(hexStart).value, HexToRgb(hexEnd).value;
      forall k :: 0 <= k < |g| ==>
        && Between(g[k].1.r, start.r, end.r)
        && Between(g[k].1.g, start.g, end.g)
        && Between(g[k].1.b, start.b, end.b)
  {
    var g := GradientOf(hexStart, hexEnd, steps).value;
    var start, end := HexToRgb(hexStart).value, HexToRgb(hexEnd).value;
    forall k | 0 <= k < |g|
      ensures Between(g[k].1.r, start.r, end.r)
      ensures Between(g[k].1.g, start.g, end.g)
      ensures Between(g[k].1.b, start.b, end.b)
    {
      StepColorBetween(start, end, EffectiveSteps(steps), k);
    }
  }

  /** The first step is the start colour and the last step the end colour. */
  lemma StepColorEnds(start: Rgb, end: Rgb, n: nat)
    requires n >= 2
    ensures StepColor(start, end, n, 0) == start && StepColor(start, end, n, n - 1) == end
  {
    ChannelEnds(start.r, end.r, n);
    ChannelEnds(start.g, end.g, n);
    ChannelEnds(start.b, end.b, n);
  }

  /** Every step colour lies between the start and end colour, channel by channel. */
  lemma StepColorBetween(start: Rgb, end: Rgb, n: nat, k: nat)
    requires n >= 2 && k < n
    ensures var c := StepColor(start, end, n, k);
      Between(c.r, start.r, end.r) && Between(c.g, start.g, end.g) && Between(c.b, start.b, end.b)
  {
    ChannelBetween(start.r, end.r, n, k);
    ChannelBetween(start.g, end.g, n, k);
    ChannelBetween(start.b, end.b, n, k);
  }

  /** Later entries are never further from the end colour than earlier ones, channel by channel. */
  lemma GradientMonotone(hexStart: string, hexEnd: string, steps: nat, k: nat, l: nat)
    requires GradientOf(hexStart, hexEnd, steps).Some?
    requires k <= l < |GradientOf(hexStart, hexEnd, steps).value|
    ensures var g, start, end := GradientOf(hexStart, hexEnd, steps).value,
                                 HexToRgb(hexStart).value, HexToRgb(hexEnd).value;
      && Between(g[k].1.r, start.r, g[l].1.r) && Between(g[l].1.r, g[k].1.r, end.r)
      && Between(g[k].1.g, start.g, g[l].1.g) && Between(g[l].1.g, g[k].1.g, end.g)
      && Between(g[k].1.b, start.b, g[l].1.b) && Between(g[l].1.b, g[k].1.b, end.b)
  {
    var start, end := HexToRgb(hexStart).value, HexToRgb(hexEnd).value;
    var n := EffectiveSteps(steps);
    ChannelBetween(start.r, end.r, n, k);
    ChannelBetween(start.g, end.g, n, k);
    ChannelBetween(start.b, end.b, n, k);
    ChannelBetween(start.r, end.r, n, l);
    ChannelBetween(start.g, end.g, n, l);
    ChannelBetween(start.b, end.b, n, l);
    ChannelMonotone(start.r, end.r, n, k, l);
    ChannelMonotone(start.g, end.g, n, k, l);
    ChannelMonotone(start.b, end.b, n, k, l);
  }

  /** With two steps the gradient is exactly the two end colours. */
  lemma TwoSteps(hexStart: string, hexEnd: string, start: Rgb, end: Rgb)
    requires HexToRgb(hexStart) == Some(start) && HexToRgb(hexEnd) == Some(end)
    ensures GradientOf(hexStart, hexEnd, 2) == Some([(RgbToHex(start), start), (RgbToHex(end), end)])
  {
    var g := GradientOf(hexStart, hexEnd, 2).value;
    GradientEnds(hexStart, hexEnd, 2);
    assert g == [g[0], g[1]];
  }

  /** Black to white in two steps is just the two colours, each with its hex string. */
  lemma BlackToWhiteTwoSteps()
    ensures GradientOf("#000000", "#FFFFFF", 2) ==
      Some([("#000000", Rgb(0, 0, 0)), ("#FFFFFF", Rgb(255, 255, 255))])
  {
    ParseBlack();
    ParseWhite();
    FormatBlackAndWhite();
    TwoSteps("#000000", "#FFFFFF", Rgb(0, 0, 0), Rgb(255, 255, 255));
  }

  /** Black to white in three steps: the middle channel value 127.5 rounds up to 128. */
  lemma BlackToWhiteMiddle()
    ensures GradientOf("#000000", "#FFFFFF", 3).Some?
    ensures GradientOf("#000000", "#FFFFFF", 3).value[1].1 == Rgb(128, 128, 128)
  {
    var black, white := Rgb(0, 0, 0), Rgb(255, 255, 255);
    ParseBlack();
    ParseWhite();
    assert Round(255, 2) == 128;
    assert Channel(0, 255, 3, 1) == 128;
    assert GradientOf("#000000", "#FFFFFF", 3).value[1] == Entry(black, white, 3, 1);
  }

  /**
   The exact interpolant of step 7 of 13 from channel 0 to 54 is 31.5, which
   rounds up to 32.
   */
  lemma HalfwayRoundsUp()
    ensures Channel(0, 54, 13, 7) == 32
  {
    assert 0 * 12 + 54 * 7 == 378;
    assert Round(378, 12) == 32;
  }

  /** Malformed colours make the whole gradient fail. */
  lemma MalformedInputFails()
    ensures GradientOf("not-a-color", "#FFFFFF", 5) == None
    ensures GradientOf("#12345", "#FFFFFF", 5) == None
  {
  }

  /** A step count below two gives the default of five entries. */
  lemma DefaultStepCount(hexStart: string, hexEnd: string, steps: nat)
    requires steps < 2 && GradientOf(hexStart, hexEnd, steps).Some?
    ensures |GradientOf(hexStart, hexEnd, steps).value| == 5
  {
  }
}
