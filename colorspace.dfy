/**
 The HSLuv colour space as the rest of the model sees it.

 The conversion itself belongs to the external `hsluv` package and is not
 modelled: a Converter is any pair of functions rgbToHsluv / hsluvToRgb,
 restricted only in that the lightness rgbToHsluv produces lies in [0, 100]
 and that hsluvToRgb produces channels in [0, 1]. What the package adds on
 top of the two functions is a mutable object (`Hsluv`, with public fields
 hsluv_h/s/l and rgb_r/g/b); HsluvColor models that object.
 */
module ColorSpace {
  import opened Wcag

  /** A channel of the unit cube the `hsluv` package works in. */
  type Unit = x: real | 0.0 <= x <= 1.0

  datatype UnitRgb = UnitRgb(r: Unit, g: Unit, b: Unit)

  /** Hue, saturation and lightness. Lightness and saturation may leave [0, 100] while being adjusted. */
  datatype Hsluv = Hsluv(h: real, s: real, l: real)

  datatype Transforms = Transforms(rgbToHsluv: UnitRgb -> Hsluv, hsluvToRgb: Hsluv -> UnitRgb)

  ghost predicate LightnessInRange(t: Transforms) {
    forall u :: 0.0 <= t.rgbToHsluv(u).l <= 100.0
  }

  type Converter = t: Transforms | LightnessInRange(t)
    witness Transforms((u: UnitRgb) => Hsluv(0.0, 0.0, 0.0), (c: Hsluv) => UnitRgb(0.0, 0.0, 0.0))

  /** JavaScript's Math.round: the nearest integer, halves rounded up. */
  function Round(x: real): (n: int)
    ensures n as real - 0.5 <= x < n as real + 0.5
  {
    (x + 0.5).Floor
  }

  /** Math.round(x * 255) on a unit channel: never outside [0, 255], so no clamping is needed. */
  function ToChannel(x: Unit): (c: Channel)
    ensures c as real - 0.5 <= x * 255.0 < c as real + 0.5
  {
    Round(x * 255.0)
  }

  function ToUnit(c: Channel): (x: Unit)
    ensures x * 255.0 == c as real
  {
    c as real / 255.0
  }

  /** getRGBfromHSLuv: each RGB channel is the nearest integer to 255 times the unit channel. */
  function RgbFromUnit(u: UnitRgb): (c: RGB)
    ensures c.r as real - 0.5 <= u.r * 255.0 < c.r as real + 0.5
    ensures c.g as real - 0.5 <= u.g * 255.0 < c.g as real + 0.5
    ensures c.b as real - 0.5 <= u.b * 255.0 < c.b as real + 0.5
  {
    RGB(ToChannel(u.r), ToChannel(u.g), ToChannel(u.b))
  }

  /** The scaling getHsluvFromRGB applies before calling rgbToHsluv. */
  function UnitFromRgb(c: RGB): (u: UnitRgb)
    ensures u.r * 255.0 == c.r as real && u.g * 255.0 == c.g as real && u.b * 255.0 == c.b as real
  {
    UnitRgb(ToUnit(c.r), ToUnit(c.g), ToUnit(c.b))
  }

  /** Scaling down to the unit cube and rounding back up loses nothing. */
  lemma RgbRoundTrip(c: RGB)
    ensures RgbFromUnit(UnitFromRgb(c)) == c
  {
    ChannelRoundTrip(c.r);
    ChannelRoundTrip(c.g);
    ChannelRoundTrip(c.b);
  }

  lemma ChannelRoundTrip(c: Channel)
    ensures ToChannel(ToUnit(c)) == c
  {
    var n := ToChannel(ToUnit(c));
    assert n as real - 0.5 <= c as real < n as real + 0.5;
  }

  /** The RGB colour the transform gives for the lightness `l` at fixed hue and saturation. */
  function RgbAt(conv: Converter, h: real, s: real, l: real): RGB {
    RgbFromUnit(conv.hsluvToRgb(Hsluv(h, s, l)))
  }

  /** The `Hsluv` object of the `hsluv` package: HSLuv and RGB fields that its two methods keep in step. */
  class HsluvColor {
    const conv: Converter
    var hsluvH: real
    var hsluvS: real
    var hsluvL: real
    var rgbR: Unit
    var rgbG: Unit
    var rgbB: Unit

    function Coordinates(): Hsluv
      reads this
    {
      Hsluv(hsluvH, hsluvS, hsluvL)
    }

    function UnitColor(): UnitRgb
      reads this
    {
      UnitRgb(rgbR, rgbG, rgbB)
    }

    /** getRGBfromHSLuv applied to this object: each channel is the nearest integer to 255 times the RGB field. */
    function Rgb(): (c: RGB)
      reads this
      ensures c.r as real - 0.5 <= rgbR * 255.0 < c.r as real + 0.5
      ensures c.g as real - 0.5 <= rgbG * 255.0 < c.g as real + 0.5
      ensures c.b as real - 0.5 <= rgbB * 255.0 < c.b as real + 0.5
    {
      RgbFromUnit(UnitRgb(rgbR, rgbG, rgbB))
    }

    /** getHsluvFromRGB: a new object holding the colour scaled to [0, 1] and its HSLuv coordinates. */
    constructor FromRgb(conv: Converter, color: RGB)
      ensures this.conv == conv
      ensures UnitColor() == UnitFromRgb(color)
      ensures Coordinates() == conv.rgbToHsluv(UnitFromRgb(color))
      ensures 0.0 <= hsluvL <= 100.0
    {
      this.conv := conv;
      rgbR, rgbG, rgbB := ToUnit(color.r), ToUnit(color.g), ToUnit(color.b);
      var hsl := conv.rgbToHsluv(UnitRgb(ToUnit(color.r), ToUnit(color.g), ToUnit(color.b)));
      hsluvH, hsluvS, hsluvL := hsl.h, hsl.s, hsl.l;
    }

    /** hsluvToRgb: refresh the RGB fields from the HSLuv fields, which stay as they are. */
    method HsluvToRgb()
      modifies this`rgbR, this`rgbG, this`rgbB
      ensures UnitColor() == conv.hsluvToRgb(Coordinates())
      ensures Coordinates() == old(Coordinates())
    {
      var rgb := conv.hsluvToRgb(Hsluv(hsluvH, hsluvS, hsluvL));
      rgbR, rgbG, rgbB := rgb.r, rgb.g, rgb.b;
    }
  }
}
