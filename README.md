# Colour derivation of ui-colors-from-an-image

This project models, in Dafny, how `src/lib/colors.ts` turns a cover image into a UI palette:

1. It takes one dominant colour from a pixel extractor (ColorThief, or FastAverageColor with the `simple` or `dominant` algorithm).
2. It memoises that colour per image source and library.
3. It computes WCAG 2.0 relative luminance and contrast.
4. It derives a variant of the colour that reads on white and one that reads on black. Each comes from a binary search on HSLuv lightness (`fixContrast`).
5. It optionally shifts the lightness of the displayed colour (`modifyLightness`).
6. It chooses white or black text, and serialises everything as `#rrggbb`.

Modules, in dependency order:

| module | file | models |
|---|---|---|
| `Wcag` | wcag.dfy | `getLuminance`, `getContrast`, `AA_CONTRAST` |
| `ColorSpace` | colorspace.dfy | the `Hsluv` object of the `hsluv` package, `getHsluvFromRGB`, `getRGBfromHSLuv` |
| `Lightness` | lightness.dfy | `modifyLightness` |
| `ContrastFix` | contrastfix.dfy | `fixContrast` |
| `Options`, `Hex` | hex.dfy | `rgbToHex`, and a parser for its output |
| `Palette` | palette.dfy | `Lib`, `ImageColors`, `DEFAULT_COLOR_SET`, the cache, `getColorsFromImage` |

Three pieces of outside code are taken as parameters:

- **The power `x ^ 2.4` in the sRGB curve.** It is a `PowFn`: any function that maps [0, 1] into [0, 1] and 1 to 1.
- **The HSLuv conversion.** It is a `Converter`, a pair `rgbToHsluv` / `hsluvToRgb`. Lightness produced by `rgbToHsluv` is assumed to lie in [0, 100], and `hsluvToRgb` is assumed to give channels in [0, 1].
- **The two extractors.** They are an `Extractors` value whose functions return `None` where the library call throws.

Every result holds for every choice of these parameters.

Three call shapes follow the source's state:

- `fixContrast` and `modifyLightness` are methods. They work step by step on an `HsluvColor` object, as the source works on its `Hsluv` instance. Each is proved equal to a function:
  - `FixedColor` (with `Search`) for `fixContrast`;
  - `ModifiedLightness` (with `Tweaked`) for `modifyLightness`.
- The module-level cache is the `cache` field of a `ColorResolver` object, and `getColorsFromImage` is its method.
- Luminance, contrast and hex conversion are pure functions.

Three behaviours of `colors.ts` that are easy to misread, modelled as the code has them:

- **The saturation cut in `modifyLightness`** tests the lightness *after* it was decreased, not the original one. See `Lightness.SaturationTestUsesDecreasedLightness`.
- **`getRGBfromHSLuv`** only rounds; it does not clamp to [0, 255]. Clamping is not needed because `hsluvToRgb` is assumed to stay in [0, 1].
- **A tweak of zero is not an identity.** `modifyLightness(c, 0)` still cuts the saturation of a super-light, super-saturated colour. See `Lightness.ZeroTweakIdentityIff`. `getColorsFromImage` never makes that call, because it only calls `modifyLightness` for a nonzero tweak.

The `fixContrast` loop has no iteration bound in the source, so the model gives it a `fuel` bound:

- It reports `converged` when the loop left through the source's own exit test.
- A result with `converged == false` is the last probe after `fuel` iterations, or the input colour itself when `fuel` is 0 and nothing was probed. It is where the source would still be looping.

## Model

| member | source | states |
|---|---|---|
| Wcag.Linearize | src/lib/colors.ts:29-37 | each linearised channel lies in [0, 1]; channel 0 gives 0 and channel 255 gives 1 |
| Wcag.Luminance | src/lib/colors.ts:26-44 | relative luminance lies in [0, 1] ("a number between 0 and 1") |
| Wcag.LuminanceOfWhiteAndBlack | src/lib/colors.ts:28-44 | white has luminance 1 and black 0 |
| Wcag.Contrast | src/lib/colors.ts:46-57 | the ratio is at least 1 |
| Wcag.ContrastLighterOverDarker | src/lib/colors.ts:48-57 | the ratio is (larger luminance + 0.05) / (smaller luminance + 0.05), whichever argument is lighter |
| Wcag.ContrastSymmetric | src/lib/colors.ts:48-57 | swapping the two colours does not change the ratio |
| Wcag.ContrastOneIffSameLuminance | src/lib/colors.ts:48-57 | the ratio is 1 exactly when both luminances are equal |
| Wcag.ContrastAtMost21 | src/lib/colors.ts:46-57 | the ratio never exceeds 21, and white against black is exactly 21 ("between 1 and 21") |
| Wcag.ContrastWithWhite | src/lib/colors.ts:48-57 | against white the ratio is 1.05 / (L + 0.05) |
| Wcag.ContrastWithBlack | src/lib/colors.ts:48-57 | against black the ratio is (L + 0.05) / 0.05 |
| Wcag.ContrastAgainstWhiteAntitone | src/lib/colors.ts:48-57 | against white, a strictly darker colour has a strictly higher ratio, and conversely |
| Wcag.ContrastAgainstBlackMonotone | src/lib/colors.ts:48-57 | against black, a strictly lighter colour has a strictly higher ratio, and conversely |
| Wcag.AaOnWhiteIffLuminance | src/lib/colors.ts:24 | a colour reaches 4.5 against white exactly when its luminance is at most 11/60 |
| ColorSpace.Round | src/lib/colors.ts:72-74 | Math.round gives the integer n with n - 0.5 <= x < n + 0.5 |
| ColorSpace.ToChannel | src/lib/colors.ts:72 | Math.round(x * 255) of a unit channel is a channel in [0, 255] within 0.5 of x * 255 |
| ColorSpace.ToUnit | src/lib/colors.ts:62 | the scaled channel times 255 is the channel |
| ColorSpace.RgbFromUnit | src/lib/colors.ts:70-76 | each RGB channel is the nearest integer to 255 times the unit channel |
| ColorSpace.UnitFromRgb | src/lib/colors.ts:62-64 | each unit channel is the RGB channel divided by 255 |
| ColorSpace.RgbRoundTrip | src/lib/colors.ts:60-76 | scaling a colour down to the unit cube and rounding back gives the same colour |
| ColorSpace.ChannelRoundTrip | src/lib/colors.ts:62-72 | one channel survives the divide-by-255, multiply-and-round round trip |
| ColorSpace.HsluvColor.Rgb | src/lib/colors.ts:70-76 | each channel read off the object is the nearest integer to 255 times the matching RGB field, which determines it uniquely |
| ColorSpace.HsluvColor.FromRgb | src/lib/colors.ts:60-68 | a new object holds the colour divided by 255 and its HSLuv coordinates, with lightness in [0, 100] |
| ColorSpace.HsluvColor.HsluvToRgb | src/types/hsluv.d.ts:2-12 | the RGB fields become the transform of the HSLuv fields, which keep their values |
| Lightness.Tweaked | src/lib/colors.ts:88-101 | no contract of its own: the rule on the HSLuv coordinates, whose properties TweakKeepsHue, TweakLightnessDirection, TweakSaturationCutIff and ZeroTweakIdentityIff state |
| Lightness.ModifiedLightness | src/lib/colors.ts:78-108 | no contract of its own: modifyLightness as a function, which ModifyLightness is proved equal to; its effect on the coordinates is stated by the Tweak lemmas |
| Lightness.ModifyLightness | src/lib/colors.ts:78-108 | the step-by-step method returns the RGB rounding of the transformed coordinates after `Tweaked` |
| Lightness.TweakKeepsHue | src/lib/colors.ts:88-101 | the hue is never changed |
| Lightness.TweakLightnessDirection | src/lib/colors.ts:82-101 | above lightness 30 the tweak is subtracted, otherwise added; a non-negative tweak darkens light colours and lightens the others |
| Lightness.TweakSaturationCutIff | src/lib/colors.ts:83-98 | saturation changes exactly when the colour is light, its decreased lightness is above 90 and its saturation is above 90; it then becomes 0.75 times as large and never grows |
| Lightness.ZeroTweakIdentityIff | src/lib/colors.ts:88-101 | a zero tweak leaves the coordinates unchanged exactly when the colour is not both above 90 in lightness and above 90 in saturation |
| Lightness.SaturationTestUsesDecreasedLightness | src/lib/colors.ts:89-95 | lightness 92 and saturation 95 darkened by 5 keeps its saturation: the test reads the decreased lightness |
| ContrastFix.Narrow | src/lib/colors.ts:161-165 | no contract of its own: the boundary update, stated by NarrowHalves and SearchKeepsBracket |
| ContrastFix.Probe | src/lib/colors.ts:147-165 | no contract of its own: one iteration of the loop body, stated by NarrowHalves and the Search lemmas |
| ContrastFix.Search | src/lib/colors.ts:144-169 | no contract of its own: the do-while loop under a fuel bound; SearchStaysInRange, SearchKeepsHueAndSaturation, SearchExit, SearchHalvesWidth and SearchKeepsBracket state its properties, and Bisect is proved equal to it |
| ContrastFix.FixedColor | src/lib/colors.ts:111-172 | no contract of its own: fixContrast as a function, which FixContrast is proved equal to; FixContrastExit, FixContrastFastPath, FixContrastSearch and FixContrastIdempotent state its properties |
| ContrastFix.FixContrast | src/lib/colors.ts:111-172 | the method's result is `FixedColor`; a colour already meeting the minimum comes back unchanged; a converged result meets the minimum |
| ContrastFix.Bisect | src/lib/colors.ts:144-169 | the do-while loop on the HSLuv object returns the last probe and exit flag of `Search` from the same bounds and lightness, and leaves the object's hue and saturation as they were |
| ContrastFix.NarrowHalves | src/lib/colors.ts:147-165 | each iteration moves exactly one bound to the midpoint, halving the interval |
| ContrastFix.SearchStaysInRange | src/lib/colors.ts:144-169 | the interval and the probed lightness never leave the range the interval started in, and the probe lies inside the final interval |
| ContrastFix.SearchKeepsHueAndSaturation | src/lib/colors.ts:147-153 | after at least one iteration the result is the transform of the original hue and saturation at the last probed lightness |
| ContrastFix.SearchExit | src/lib/colors.ts:116-169 | leaving through the exit test means minContrast <= contrast <= minContrast + 0.1; otherwise fuel was used up |
| ContrastFix.SearchHalvesWidth | src/lib/colors.ts:144-169 | after k iterations the interval is the starting one halved k times |
| ContrastFix.SearchKeepsBracket | src/lib/colors.ts:159-165 | each bound is the starting bound or a probe whose contrast was on the matching side of the minimum |
| ContrastFix.FixContrastExit | src/lib/colors.ts:121-171 | a converged result meets the minimum, and one found by the search exceeds it by at most 0.1 |
| ContrastFix.FixContrastFastPath | src/lib/colors.ts:121-125 | a colour already meeting the minimum is returned as it is |
| ContrastFix.FixContrastSearch | src/lib/colors.ts:127-169 | the search probes only [0, L] for white and [L, 100] for black at the original hue and saturation; it ends bracketed, with width halved once per step |
| ContrastFix.FixContrastIdempotent | src/lib/colors.ts:111-172 | fixing a converged result again returns it unchanged |
| Hex.Digit | src/lib/colors.ts:176 | a digit value below 16 gives a lowercase hexadecimal character |
| Hex.DigitValue | src/lib/colors.ts:176 | a character has a value exactly when it is a lowercase hexadecimal digit, and the digit of that value is the character |
| Hex.DigitValueOfDigit | src/lib/colors.ts:176 | reading a digit back gives its value |
| Hex.ToHexString | src/lib/colors.ts:176 | toString(16) gives one digit exactly below 16, never a leading zero, only lowercase hexadecimal digits |
| Hex.HexValueOfToHexString | src/lib/colors.ts:176 | the digits of toString(16) denote the number again |
| Hex.ChannelHex | src/lib/colors.ts:176 | each channel is written as two hexadecimal digits |
| Hex.ChannelHexIsTwoDigits | src/lib/colors.ts:176 | the two digits are the high and the low nibble, with a leading '0' below 16 |
| Hex.RgbToHex | src/lib/colors.ts:174-178 | the colour is written as '#' followed by six hexadecimal digits |
| Hex.ParseChannel | src/lib/colors.ts:176 | two characters parse to a channel exactly when both are lowercase hexadecimal digits |
| Hex.ParseChannelOfDigits | src/lib/colors.ts:176 | the two nibble digits of a channel parse back to it |
| Hex.ParseChannelDigits | src/lib/colors.ts:176 | a parsed channel's characters are its nibble digits |
| Hex.ParseHex | src/lib/colors.ts:174-178 | no contract of its own: the parser for rgbToHex's output, whose inverse properties ParseRgbToHex and ParseHexOnlyCanonical state |
| Hex.ParseRgbToHex | src/lib/colors.ts:174-178 | parsing rgbToHex's output gives the colour back |
| Hex.ParseHexOnlyCanonical | src/lib/colors.ts:174-178 | any string the parser accepts is rgbToHex of the colour it parses to |
| Hex.RgbToHexInjective | src/lib/colors.ts:174-178 | different colours never get the same hex string |
| Palette.Extract | src/lib/colors.ts:217-228 | no contract of its own: the dispatch on `lib` (ColorThief with quality 10, or FastAverageColor with 'simple' or 'dominant'), used by GetColorsFromImage's ensures for the miss case |
| Palette.DefaultColorSet | src/lib/colors.ts:16-22 | no contract of its own: the fallback palette, stated by DefaultColorSetDistinct |
| Palette.DefaultColorSetDistinct | src/lib/colors.ts:16-22 | the fallback palette uses colour names, not hex strings, so no palette computed from an extracted colour equals it; its text agrees with its isDark flag |
| Palette.CacheKey | src/lib/colors.ts:212 | no contract of its own: `image.src + lib`, stated injective by CacheKeyInjective |
| Palette.DisplayColor | src/lib/colors.ts:237-239 | no contract of its own: the tweak applied only when nonzero, stated by ZeroTweakShowsRaw, IsDarkAndText and TextIsLegible |
| Palette.Assemble | src/lib/colors.ts:234-249 | no contract of its own: the palette built from a known raw colour, stated by ContrastVariantsIgnoreTweak, ZeroTweakShowsRaw, IsDarkAndText, TextIsLegible, VariantsPassAa and DefaultColorSetDistinct |
| Palette.CacheKeyInjective | src/lib/colors.ts:212 | `image.src + lib` never confuses two sources or two libraries, because the library names end in different letters |
| Palette.ColorResolver.constructor | src/lib/colors.ts:197 | the cache starts empty and no extractor has run |
| Palette.ColorResolver.GetColorsFromImage | src/lib/colors.ts:199-256 | it covers four cases. (1) A failed load gives the default set and leaves the cache alone. (2) On a cache hit, the palette comes from the cached colour and no extractor runs. (3) On a miss, the extractor runs once and a success is stored under its key alone. (4) A failed extraction gives the default set and caches nothing. |
| Palette.ResolveTwice | src/lib/colors.ts:197-232 | two requests for one image and library run the extractor at most once unless it fails. Both answers then come from the same cached colour, whatever the tweak, and neither is the default set. A failure is retried and gives the default set twice |
| Palette.ContrastVariantsIgnoreTweak | src/lib/colors.ts:234-239 | onWhite and onBlack come from the untweaked colour, so the tweak cannot change them |
| Palette.ZeroTweakShowsRaw | src/lib/colors.ts:237-245 | with zero tweak the dominant string parses back to the extracted colour, and isDark is its contrast against white reaching 4.5 |
| Palette.IsDarkAndText | src/lib/colors.ts:241-249 | isDark is exactly "white reaches 4.5 on the display colour", i.e. its luminance being at most 11/60; the text is "white" exactly when isDark, otherwise "black" |
| Palette.TextIsLegible | src/lib/colors.ts:241-246 | the chosen text colour always reaches 4.5 against the display colour |
| Palette.VariantsPassAa | src/lib/colors.ts:234-248 | when its search converges, onWhite parses to a colour reaching 4.5 against white, and likewise onBlack against black |

## Left out

- HSLuv conversion: the `hsluv` package is not part of this model. Its two transforms are parameters restricted as described above.
- The power 2.4: `Math.pow` is a parameter restricted to mapping [0, 1] into [0, 1] with 1 ↦ 1. Results that would need its exact values are not stated.
- Floating point: all arithmetic is over exact reals. IEEE rounding in the luminance formula and in the binary search is not modelled.
- ColorThief and FastAverageColor pixel analysis: not modelled. Each is a function from the image to an optional colour. FastAverageColor's RGBA value is taken as already cut to its first three channels.
- A `null` colour from ColorThief: modelled as a failed extraction, leaving the cache unchanged. The source stores the null, but the next `!dominant` test treats it as a miss, and `fixContrast` on it throws to the default set, so the visible behaviour is the same.
- `loadImage` and `crossOrigin`: reduced to whether the image loads. Event listeners are not modelled.
- `console.log` and `async`/`await`: the logging is dropped, and each call runs to completion before the next. Two overlapping calls racing on the cache are not modelled.
- ContrastFix.FixContrast: runs at most `fuel` iterations where the source loop is unbounded. A converged result is what the source returns whenever its loop exits; whether it exits is not modelled, because that depends on the transform.
- ColorSpace.RgbFromUnit: relies on `hsluvToRgb` staying in [0, 1], so it does not model out-of-range channels from lightness values outside [0, 100].
- Lightness.ModifyLightness: the `tweak = 5` default of the source is not modelled. The caller always passes a tweak, and the tweak is any real rather than the 0–10 integers the settings slider produces.
- The default arguments `minContrast = AA_CONTRAST` and `lib = 'color-thief'` are not parameters of the model. getColorsFromImage calls fixContrast without `minContrast`, so the default runs; `GetColorsFromImage` passes `AaContrast`, its value. The only caller of getColorsFromImage (`cover.tsx`) forwards the `lib` prop, which `app.tsx` always sets, so the model takes `lib` as a required argument.
- The UI (`app.tsx`, `cover.tsx`) and the build configuration: outside the colour derivation.
