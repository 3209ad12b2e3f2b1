/**
 modifyLightness: shift a colour's HSLuv lightness by a signed amount,
 darkening colours that are already light and lightening dark ones, and
 cutting saturation for colours that stay very light and very saturated.
 */
module Lightness {
  import opened Wcag
  import opened ColorSpace

  /** Above this lightness a colour is darkened, at or below it lightened. */
  const IsLightThreshold: real := 30.0
  const SuperLight: real := 90.0
  const SuperSaturation: real := 90.0
  /** Saturation is reduced by 25 % in the super-light, super-saturated case. */
  const SaturationFactor: real := 0.75

  /** The rule on HSLuv coordinates; the saturation test looks at the lightness after it was decreased. */
  function Tweaked(c: Hsluv, tweak: real): Hsluv {
    if c.l > IsLightThreshold then
      var l := c.l - tweak;
      var s := if l > SuperLight && c.s > SuperSaturation then c.s * SaturationFactor else c.s;
      Hsluv(c.h, s, l)
    else
      Hsluv(c.h, c.s, c.l + tweak)
  }

  /** The colour modifyLightness returns: to HSLuv, apply the rule, back to RGB and round. */
  function ModifiedLightness(conv: Converter, color: RGB, tweak: real): RGB {
    RgbFromUnit(conv.hsluvToRgb(Tweaked(conv.rgbToHsluv(UnitFromRgb(color)), tweak)))
  }

  /** modifyLightness, step by step on an HSLuv object. */
  method ModifyLightness(conv: Converter, colorRgb: RGB, tweak: real) returns (r: RGB)
    ensures r == ModifiedLightness(conv, colorRgb, tweak)
  {
    var color := new HsluvColor.FromRgb(conv, colorRgb);
    if color.hsluvL > IsLightThreshold {
      color.hsluvL := color.hsluvL - tweak;
      if color.hsluvL > SuperLight && color.hsluvS > SuperSaturation {
        color.hsluvS := color.hsluvS * SaturationFactor;
      }
    } else {
      color.hsluvL := color.hsluvL + tweak;
    }
    color.HsluvToRgb();
    r := color.Rgb();
  }

  /** The hue is never touched. */
  lemma TweakKeepsHue(c: Hsluv, tweak: real)
    ensures Tweaked(c, tweak).h == c.h
  {
  }

  /**
   The lightness moves by exactly |tweak|; for a non-negative tweak light
   colours (above 30) get darker and the others lighter.
   */
  lemma TweakLightnessDirection(c: Hsluv, tweak: real)
    ensures c.l > IsLightThreshold ==> Tweaked(c, tweak).l == c.l - tweak
    ensures c.l <= IsLightThreshold ==> Tweaked(c, tweak).l == c.l + tweak
    ensures tweak >= 0.0 && c.l > IsLightThreshold ==> Tweaked(c, tweak).l <= c.l
    ensures tweak >= 0.0 && c.l <= IsLightThreshold ==> Tweaked(c, tweak).l >= c.l
  {
  }

  /**
   Saturation changes exactly when the colour was light, is still above 90
   after darkening, and has saturation above 90; it is then multiplied by
   0.75 and so only ever decreases.
   */
  lemma TweakSaturationCutIff(c: Hsluv, tweak: real)
    ensures Tweaked(c, tweak).s != c.s
            <==> c.l > IsLightThreshold && c.l - tweak > SuperLight && c.s > SuperSaturation
    ensures Tweaked(c, tweak).s != c.s ==> Tweaked(c, tweak).s == c.s * SaturationFactor
    ensures c.s >= 0.0 ==> Tweaked(c, tweak).s <= c.s
  {
  }

  /**
   A zero tweak leaves the coordinates alone unless the colour is both
   super light and super saturated, where the saturation cut still fires;
   the palette code avoids this by calling modifyLightness only for a
   nonzero tweak.
   */
  lemma ZeroTweakIdentityIff(c: Hsluv)
    ensures Tweaked(c, 0.0) == c <==> !(c.l > SuperLight && c.s > SuperSaturation)
  {
    if c.l > SuperLight && c.s > SuperSaturation {
      assert Tweaked(c, 0.0).s == c.s * SaturationFactor;
    }
  }

  /**
   With a positive tweak the saturation test is stricter than one on the
   original lightness: a colour at lightness 92 and saturation 95, darkened
   by 5, keeps its saturation although its original lightness exceeds 90.
   */
  lemma SaturationTestUsesDecreasedLightness()
    ensures Tweaked(Hsluv(0.0, 95.0, 92.0), 5.0) == Hsluv(0.0, 95.0, 87.0)
  {
  }
}
