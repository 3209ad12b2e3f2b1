/**
 Relative luminance and contrast ratio as defined in the glossary of WCAG 2.0
 (W3C Recommendation, 11 December 2008), computed over exact reals.

 The power branch of the sRGB linearisation, ((c + 0.055) / 1.055) ^ 2.4, is
 not computed: every member takes it as a parameter `pw` of type PowFn, which
 is any function that maps [0, 1] into [0, 1] and 1 to 1. Everything proved
 here therefore holds for the real power function and for every other
 function with those two properties.
 */
module Wcag {

  /** A colour channel as the extractors and Math.round produce it. */
  type Channel = c: int | 0 <= c <= 255

  /** An RGB triple; no alpha. */
  datatype RGB = RGB(r: Channel, g: Channel, b: Channel)

  /** The only two facts assumed about x ^ 2.4. */
  ghost predicate PowAxioms(f: real -> real) {
    && (forall x :: 0.0 <= x <= 1.0 ==> 0.0 <= f(x) <= 1.0)
    && f(1.0) == 1.0
  }

  type PowFn = f: real -> real | PowAxioms(f) witness (x: real) => x

  const White := RGB(255, 255, 255)
  const Black := RGB(0, 0, 0)

  /** Level AA of Success Criterion 1.4.3 ("Contrast (Minimum)"). */
  const AaContrast: real := 4.5

  /** The lower edge of the linear segment of the sRGB transfer curve. */
  const LinearThreshold: real := 0.03928

  /** One channel, scaled to [0, 1] and linearised. */
  function Linearize(pw: PowFn, channel: Channel): (v: real)
    ensures 0.0 <= v <= 1.0
    ensures channel == 0 ==> v == 0.0
    ensures channel == 255 ==> v == 1.0
  {
    var value := channel as real / 255.0;
    if value < LinearThreshold then value / 12.92
    else pw((value + 0.055) / 1.055)
  }

  /** Relative luminance: 0 for black, 1 for white, between them otherwise. */
  function Luminance(pw: PowFn, color: RGB): (l: real)
    ensures 0.0 <= l <= 1.0
  {
    0.2126 * Linearize(pw, color.r)
    + 0.7152 * Linearize(pw, color.g)
    + 0.0722 * Linearize(pw, color.b)
  }

  /** Contrast ratio: the lighter of the two luminances is always the numerator. */
  function Contrast(pw: PowFn, color1: RGB, color2: RGB): (ratio: real)
    ensures ratio >= 1.0
  {
    var luminance1 := Luminance(pw, color1);
    var luminance2 := Luminance(pw, color2);
    if luminance1 > luminance2 then
      DivideAtLeast(luminance1 + 0.05, luminance2 + 0.05, 1.0);
      (luminance1 + 0.05) / (luminance2 + 0.05)
    else
      DivideAtLeast(luminance2 + 0.05, luminance1 + 0.05, 1.0);
      (luminance2 + 0.05) / (luminance1 + 0.05)
  }

  function Max(x: real, y: real): real { if x >= y then x else y }
  function Min(x: real, y: real): real { if x >= y then y else x }

  lemma LuminanceOfWhiteAndBlack(pw: PowFn)
    ensures Luminance(pw, White) == 1.0
    ensures Luminance(pw, Black) == 0.0
  {
  }

  /** The numerator is the larger luminance, the denominator the smaller. */
  lemma ContrastLighterOverDarker(pw: PowFn, a: RGB, b: RGB)
    ensures Contrast(pw, a, b)
            == (Max(Luminance(pw, a), Luminance(pw, b)) + 0.05)
               / (Min(Luminance(pw, a), Luminance(pw, b)) + 0.05)
  {
  }

  lemma ContrastSymmetric(pw: PowFn, a: RGB, b: RGB)
    ensures Contrast(pw, a, b) == Contrast(pw, b, a)
  {
  }

  /** The ratio is exactly 1 when the two luminances agree (in particular for a colour against itself). */
  lemma ContrastOneIffSameLuminance(pw: PowFn, a: RGB, b: RGB)
    ensures Contrast(pw, a, b) == 1.0 <==> Luminance(pw, a) == Luminance(pw, b)
  {
    ContrastLighterOverDarker(pw, a, b);
    DivideIsOne(Max(Luminance(pw, a), Luminance(pw, b)) + 0.05, Min(Luminance(pw, a), Luminance(pw, b)) + 0.05);
  }

  lemma DivideIsOne(x: real, y: real)
    requires y > 0.0
    ensures x / y == 1.0 <==> x == y
  {
    if x / y == 1.0 { assert x == x / y * y; }
  }

  /** The ratio never exceeds 21, the ratio of white to black. */
  lemma ContrastAtMost21(pw: PowFn, a: RGB, b: RGB)
    ensures Contrast(pw, a, b) <= 21.0
    ensures Contrast(pw, White, Black) == 21.0
  {
    var hi := Max(Luminance(pw, a), Luminance(pw, b));
    var lo := Min(Luminance(pw, a), Luminance(pw, b));
    ContrastLighterOverDarker(pw, a, b);
    assert hi + 0.05 <= 21.0 * (lo + 0.05);
    DivideAtMost(hi + 0.05, lo + 0.05, 21.0);
  }

  lemma DivideAtMost(x: real, y: real, k: real)
    requires y > 0.0
    ensures x / y <= k <==> x <= k * y
  {
    DivideAtLeast(x, y, k);
    assert x == x / y * y;
    if x / y == k { assert x / y * y == k * y; }
  }

  lemma DivideAtLeast(x: real, y: real, k: real)
    requires y > 0.0
    ensures x / y >= k <==> x >= k * y
  {
    assert x == x / y * y;
    if x / y >= k { assert x / y * y >= k * y; }
    else { assert x / y * y < k * y; }
  }

  /** Against white the ratio is 1.05 / (L + 0.05). */
  lemma ContrastWithWhite(pw: PowFn, c: RGB)
    ensures Contrast(pw, c, White) == 1.05 / (Luminance(pw, c) + 0.05)
  {
    LuminanceOfWhiteAndBlack(pw);
  }

  /** Against black the ratio is (L + 0.05) / 0.05. */
  lemma ContrastWithBlack(pw: PowFn, c: RGB)
    ensures Contrast(pw, c, Black) == (Luminance(pw, c) + 0.05) / 0.05
  {
    LuminanceOfWhiteAndBlack(pw);
  }

  /**
   Against white, contrast falls strictly as luminance rises: white text
   reads better on the darker of two colours.
   */
  lemma ContrastAgainstWhiteAntitone(pw: PowFn, a: RGB, b: RGB)
    ensures Luminance(pw, a) < Luminance(pw, b) <==> Contrast(pw, b, White) < Contrast(pw, a, White)
  {
    ContrastWithWhite(pw, a);
    ContrastWithWhite(pw, b);
    var la, lb := Luminance(pw, a), Luminance(pw, b);
    if la < lb {
      DivideAntitone(1.05, la + 0.05, lb + 0.05);
    } else if lb < la {
      DivideAntitone(1.05, lb + 0.05, la + 0.05);
    }
  }

  /** Against black, contrast rises strictly with luminance. */
  lemma ContrastAgainstBlackMonotone(pw: PowFn, a: RGB, b: RGB)
    ensures Luminance(pw, a) < Luminance(pw, b) <==> Contrast(pw, a, Black) < Contrast(pw, b, Black)
  {
    ContrastWithBlack(pw, a);
    ContrastWithBlack(pw, b);
    DivideMonotone(Luminance(pw, a) + 0.05, Luminance(pw, b) + 0.05, 0.05);
  }

  lemma DivideMonotone(x: real, y: real, k: real)
    requires k > 0.0
    ensures x < y <==> x / k < y / k
  {
    assert x / k * k == x && y / k * k == y;
    if x / k < y / k { assert x / k * k < y / k * k; }
  }

  lemma DivideAntitone(x: real, y: real, z: real)
    requires x > 0.0 && 0.0 < y < z
    ensures x / z < x / y
  {
    assert x / z * z == x;
    assert x / y * y == x;
  }

  /**
   A colour passes AA against white exactly when its luminance is at most
   11/60, i.e. when (1 + 0.05) / (L + 0.05) >= 4.5.
   */
  lemma AaOnWhiteIffLuminance(pw: PowFn, c: RGB)
    ensures Contrast(pw, c, White) >= AaContrast <==> Luminance(pw, c) <= 11.0 / 60.0
  {
    ContrastWithWhite(pw, c);
    DivideAtLeast(1.05, Luminance(pw, c) + 0.05, AaContrast);
  }
}
