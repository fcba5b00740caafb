/** The fill colour a mass is drawn with, for each colour mode. The radius and
    the base-2 logarithms of the accelerations arrive as real inputs. */
module Hue {

  /** A fill style: `hsl(hue, 100%, 50%)`, or plain white. */
  datatype Fill = Hsl(hue: int) | White

  /** The unclamped size scale: radius 1 maps to 0 degrees, radius 20 to 330. */
  function SizeScale(r: real): real
  {
    (r - 1.0) / (20.0 - 1.0) * 330.0
  }

  /** "size" mode: the floor of the size scale, clamped into [0, 330]. */
  function SizeHue(r: real): (hue: int)
    ensures 0 <= hue <= 330
    ensures 0 < hue < 330 ==> hue as real <= SizeScale(r) < hue as real + 1.0
    ensures hue == 0 <==> SizeScale(r) < 1.0
    ensures hue == 330 <==> SizeScale(r) >= 330.0
  {
    var floor := SizeScale(r).Floor;
    var capped := if floor > 330 then 330 else floor;
    if capped < 0 then 0 else capped
  }

  /** "acceleration" mode: 0 for a fixed mass or a degenerate range, otherwise
      the floor of the position of `scaledAcc` in [scaledMin, scaledMax] times
      330, with no clamping. */
  function AccelerationHue(fixedPos: bool, scaledAcc: real, scaledMin: real, scaledMax: real): (hue: int)
    ensures fixedPos ==> hue == 0
    ensures scaledMax - scaledMin == 0.0 ==> hue == 0
    ensures !fixedPos && scaledMax != scaledMin ==>
      hue as real <= (scaledAcc - scaledMin) / (scaledMax - scaledMin) * 330.0 < hue as real + 1.0
  {
    if fixedPos then 0
    else
      var scaledDiff := scaledMax - scaledMin;
      if scaledDiff == 0.0 then 0
      else ((scaledAcc - scaledMin) / scaledDiff * 330.0).Floor
  }

  /** The fill style for a colour mode. */
  function Colour(mode: string, r: real, fixedPos: bool, scaledAcc: real, scaledMin: real, scaledMax: real): (f: Fill)
    ensures f.White? <==> mode != "size" && mode != "acceleration"
    ensures mode == "size" ==> f == Hsl(SizeHue(r)) && 0 <= f.hue <= 330
    ensures mode == "acceleration" ==> f == Hsl(AccelerationHue(fixedPos, scaledAcc, scaledMin, scaledMax))
    ensures mode == "acceleration" && (fixedPos || scaledMin == scaledMax) ==> f == Hsl(0)
  {
    if mode == "size" then Hsl(SizeHue(r))
    else if mode == "acceleration" then Hsl(AccelerationHue(fixedPos, scaledAcc, scaledMin, scaledMax))
    else White
  }

  /** Over the radii [1, 20] the clamp never bites: the hue is the plain floor of the scale. */
  lemma SizeHueOnScale(r: real)
    requires 1.0 <= r <= 20.0
    ensures SizeHue(r) == SizeScale(r).Floor
  {
  }

  /** A larger radius never gets a smaller hue. */
  lemma SizeHueMonotone(r1: real, r2: real)
    requires r1 <= r2
    ensures SizeHue(r1) <= SizeHue(r2)
  {
  }

  /** Monotonicity of the scaled position inside a positive range. */
  lemma ScaleMonotone(a1: real, a2: real, lo: real, d: real)
    requires a1 <= a2 && d > 0.0
    ensures (a1 - lo) / d * 330.0 <= (a2 - lo) / d * 330.0
  {
  }

  /** With a range that is not degenerate or reversed, a larger acceleration
      never gets a smaller hue. */
  lemma AccelerationHueMonotone(fixedPos: bool, acc1: real, acc2: real, scaledMin: real, scaledMax: real)
    requires scaledMin < scaledMax && acc1 <= acc2
    ensures AccelerationHue(fixedPos, acc1, scaledMin, scaledMax) <= AccelerationHue(fixedPos, acc2, scaledMin, scaledMax)
  {
    ScaleMonotone(acc1, acc2, scaledMin, scaledMax - scaledMin);
  }

  /** An acceleration inside [scaledMin, scaledMax] gets a hue inside [0, 330]. */
  lemma AccelerationHueInRange(fixedPos: bool, scaledAcc: real, scaledMin: real, scaledMax: real)
    requires scaledMin < scaledMax && scaledMin <= scaledAcc <= scaledMax
    ensures 0 <= AccelerationHue(fixedPos, scaledAcc, scaledMin, scaledMax) <= 330
  {
    ScaleMonotone(scaledMin, scaledAcc, scaledMin, scaledMax - scaledMin);
    ScaleMonotone(scaledAcc, scaledMax, scaledMin, scaledMax - scaledMin);
    assert (scaledMax - scaledMin) / (scaledMax - scaledMin) == 1.0;
  }

  /** No clamping in "acceleration" mode: a moving mass whose acceleration lies
      above the range by at least the range's width gets a hue of at least 660,
      and one below the range gets a negative hue. */
  lemma AccelerationHueUnclamped(scaledAcc: real, scaledMin: real, scaledMax: real)
    requires scaledMin < scaledMax
    ensures scaledAcc >= 2.0 * scaledMax - scaledMin ==> AccelerationHue(false, scaledAcc, scaledMin, scaledMax) >= 660
    ensures scaledAcc < scaledMin ==> AccelerationHue(false, scaledAcc, scaledMin, scaledMax) < 0
  {
    var d := scaledMax - scaledMin;
    if scaledAcc >= 2.0 * scaledMax - scaledMin {
      ScaleMonotone(2.0 * scaledMax - scaledMin, scaledAcc, scaledMin, d);
      assert (2.0 * scaledMax - scaledMin - scaledMin) / d == 2.0;
    }
    if scaledAcc < scaledMin {
      assert (scaledAcc - scaledMin) / d < 0.0;
    }
  }
}
