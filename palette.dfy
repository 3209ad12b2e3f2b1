/**
 getColorsFromImage: the palette a cover is themed with, derived from one
 raw colour per image and extraction library, memoised in a cache that
 lives as long as the resolver.

 Image loading (loadImage) is reduced to whether the image loads, and the
 two pixel extractors (ColorThief and FastAverageColor) are parameters
 that either produce a colour or fail, standing for the exception the
 source catches.
 */
module Palette {
  import opened Options
  import opened Wcag
  import opened ColorSpace
  import opened Lightness
  import opened ContrastFix
  import opened Hex

  /** The `Lib` union of the app: which extractor provides the raw colour. */
  datatype Lib = ColorThief | FastAverage | FastDominant

  function LibName(lib: Lib): string {
    match lib
    case ColorThief => "color-thief"
    case FastAverage => "fast-average"
    case FastDominant => "fast-dominant"
  }

  /** An image element: its `src` and whether loading it completes or fails. */
  datatype Image = Image(src: string, loads: bool)

  /** The two algorithms of FastAverageColor the palette uses. */
  datatype FacAlgorithm = Simple | Dominant

  /** The quality argument passed to ColorThief.getColor. */
  const ColorThiefQuality: nat := 10

  /** The extractor libraries; None stands for a call that throws. */
  datatype Extractors = Extractors(
    colorThief: (Image, nat) -> Option<RGB>,
    fastAverageColor: (Image, FacAlgorithm) -> Option<RGB>)

  /** The dispatch on `lib`: ColorThief for 'color-thief', FastAverageColor with 'simple' or 'dominant' otherwise. */
  function Extract(ex: Extractors, image: Image, lib: Lib): Option<RGB> {
    if lib == ColorThief then ex.colorThief(image, ColorThiefQuality)
    else ex.fastAverageColor(image, if lib == FastAverage then Simple else Dominant)
  }

  /** The `ImageColors` record handed to the UI. */
  datatype ImageColors = ImageColors(dominant: string, text: string, onWhite: string, onBlack: string, isDark: bool)

  const DefaultColorSet := ImageColors("white", "black", "black", "white", false)

  /** `image.src + lib`. */
  function CacheKey(src: string, lib: Lib): string {
    src + LibName(lib)
  }

  /**
   Although the key is a plain concatenation, no two (src, lib) pairs
   share one: the three library names end in three different letters.
   */
  lemma CacheKeyInjective(src1: string, lib1: Lib, src2: string, lib2: Lib)
    requires CacheKey(src1, lib1) == CacheKey(src2, lib2)
    ensures src1 == src2 && lib1 == lib2
  {
    var k := CacheKey(src1, lib1);
    assert k[|k| - 1] == LibName(lib1)[|LibName(lib1)| - 1];
    assert k[|k| - 1] == LibName(lib2)[|LibName(lib2)| - 1];
    assert lib1 == lib2;
    assert src1 == k[..|src1|] == src2;
  }

  /** The display colour: the raw colour, passed through modifyLightness only for a nonzero tweak. */
  function DisplayColor(conv: Converter, raw: RGB, tweak: real): RGB {
    if tweak != 0.0 then ModifiedLightness(conv, raw, tweak) else raw
  }

  /** A colour is dark when white text on it passes AA. */
  function IsDark(pw: PowFn, color: RGB): bool {
    Contrast(pw, color, White) >= AaContrast
  }

  function TextFor(isDark: bool): string {
    if isDark then "white" else "black"
  }

  /** The palette for a raw colour once it is known. */
  function Assemble(pw: PowFn, conv: Converter, raw: RGB, tweak: real, fuel: nat): ImageColors {
    var onWhite := FixedColor(pw, conv, raw, WhiteBackground, AaContrast, fuel).color;
    var onBlack := FixedColor(pw, conv, raw, BlackBackground, AaContrast, fuel).color;
    var display := DisplayColor(conv, raw, tweak);
    var isDark := IsDark(pw, display);
    ImageColors(RgbToHex(display), TextFor(isDark), RgbToHex(onWhite), RgbToHex(onBlack), isDark)
  }

  /**
   DEFAULT_COLOR_SET names its colours instead of writing them in hex, so
   no palette computed from an extracted colour is ever equal to it; its
   text colour agrees with its isDark flag by the same rule.
   */
  lemma DefaultColorSetDistinct(pw: PowFn, conv: Converter, raw: RGB, tweak: real, fuel: nat)
    ensures Assemble(pw, conv, raw, tweak, fuel) != DefaultColorSet
    ensures ParseHex(DefaultColorSet.dominant) == None && ParseHex(DefaultColorSet.onWhite) == None
    ensures DefaultColorSet.text == TextFor(DefaultColorSet.isDark)
  {
    assert |Assemble(pw, conv, raw, tweak, fuel).dominant| == 7;
  }

  /** The resolver owns the cache, which is never evicted. */
  class ColorResolver {
    var cache: map<string, RGB>
    /** How often an extractor has been invoked. */
    ghost var extractorCalls: nat
    const pw: PowFn
    const conv: Converter
    const extractors: Extractors
    /** The iteration cap for each fixContrast search. */
    const fuel: nat

    constructor (pw: PowFn, conv: Converter, extractors: Extractors, fuel: nat)
      ensures cache == map[] && extractorCalls == 0
      ensures this.pw == pw && this.conv == conv && this.extractors == extractors && this.fuel == fuel
    {
      this.pw, this.conv, this.extractors, this.fuel := pw, conv, extractors, fuel;
      cache := map[];
      extractorCalls := 0;
    }

    method GetColorsFromImage(image: Image, tweak: real, lib: Lib) returns (colors: ImageColors)
      modifies this
      ensures !image.loads ==> colors == DefaultColorSet
      ensures !image.loads ==> cache == old(cache) && extractorCalls == old(extractorCalls)
      ensures image.loads && CacheKey(image.src, lib) in old(cache) ==>
                && cache == old(cache)
                && extractorCalls == old(extractorCalls)
                && colors == Assemble(pw, conv, old(cache)[CacheKey(image.src, lib)], tweak, fuel)
      ensures image.loads && CacheKey(image.src, lib) !in old(cache) ==>
                extractorCalls == old(extractorCalls) + 1
      ensures image.loads && CacheKey(image.src, lib) !in old(cache) ==>
                match Extract(extractors, image, lib)
                case None => cache == old(cache) && colors == DefaultColorSet
                case Some(raw) =>
                  cache == old(cache)[CacheKey(image.src, lib) := raw]
                  && colors == Assemble(pw, conv, raw, tweak, fuel)
    {
      if !image.loads {
        return DefaultColorSet;
      }
      var cacheKey := CacheKey(image.src, lib);
      var dominant: RGB;
      if cacheKey in cache {
        dominant := cache[cacheKey];
      } else {
        var extracted := Extract(extractors, image, lib);
        extractorCalls := extractorCalls + 1;
        if extracted.None? {
          return DefaultColorSet;
        }
        dominant := extracted.value;
        cache := cache[cacheKey := dominant];
      }
      var onWhite, _ := FixContrast(pw, conv, dominant, WhiteBackground, AaContrast, fuel);
      var onBlack, _ := FixContrast(pw, conv, dominant, BlackBackground, AaContrast, fuel);
      if tweak != 0.0 {
        dominant := ModifyLightness(conv, dominant, tweak);
      }
      var isDark := Contrast(pw, dominant, White) >= AaContrast;
      colors := ImageColors(
        RgbToHex(dominant),
        if isDark then "white" else "black",
        RgbToHex(onWhite),
        RgbToHex(onBlack),
        isDark);
    }
  }

  /**
   Two requests for the same loaded image and library run the extractor at
   most once unless it fails, and the second request is then answered from
   the cache, whatever tweak either request asks for. A failed extraction
   is not cached, so it is retried. Neither successful answer is the default set.
   */
  method ResolveTwice(resolver: ColorResolver, image: Image, tweak1: real, tweak2: real, lib: Lib)
    returns (first: ImageColors, second: ImageColors)
    requires image.loads
    modifies resolver
    ensures var key := CacheKey(image.src, lib);
            key in old(resolver.cache) || Extract(resolver.extractors, image, lib).Some? ==>
              && resolver.extractorCalls <= old(resolver.extractorCalls) + 1
              && key in resolver.cache
              && first == Assemble(resolver.pw, resolver.conv, resolver.cache[key], tweak1, resolver.fuel)
              && second == Assemble(resolver.pw, resolver.conv, resolver.cache[key], tweak2, resolver.fuel)
              && first != DefaultColorSet && second != DefaultColorSet
    ensures CacheKey(image.src, lib) !in old(resolver.cache) && Extract(resolver.extractors, image, lib).None? ==>
              && resolver.extractorCalls == old(resolver.extractorCalls) + 2
              && first == second == DefaultColorSet
  {
    first := resolver.GetColorsFromImage(image, tweak1, lib);
    second := resolver.GetColorsFromImage(image, tweak2, lib);
    var key := CacheKey(image.src, lib);
    if key in resolver.cache {
      DefaultColorSetDistinct(resolver.pw, resolver.conv, resolver.cache[key], tweak1, resolver.fuel);
      DefaultColorSetDistinct(resolver.pw, resolver.conv, resolver.cache[key], tweak2, resolver.fuel);
    }
  }

  /** onWhite and onBlack come from the untweaked colour: the tweak changes only dominant, text and isDark. */
  lemma ContrastVariantsIgnoreTweak(pw: PowFn, conv: Converter, raw: RGB, tweak1: real, tweak2: real, fuel: nat)
    ensures Assemble(pw, conv, raw, tweak1, fuel).onWhite == Assemble(pw, conv, raw, tweak2, fuel).onWhite
    ensures Assemble(pw, conv, raw, tweak1, fuel).onBlack == Assemble(pw, conv, raw, tweak2, fuel).onBlack
    ensures Assemble(pw, conv, raw, tweak1, fuel).onWhite
            == RgbToHex(FixedColor(pw, conv, raw, WhiteBackground, AaContrast, fuel).color)
  {
  }

  /** With a zero tweak the display colour is the raw colour itself. */
  lemma ZeroTweakShowsRaw(pw: PowFn, conv: Converter, raw: RGB, fuel: nat)
    ensures ParseHex(Assemble(pw, conv, raw, 0.0, fuel).dominant) == Some(raw)
    ensures Assemble(pw, conv, raw, 0.0, fuel).isDark <==> Contrast(pw, raw, White) >= AaContrast
  {
    ParseRgbToHex(raw);
  }

  /**
   isDark holds exactly when white passes AA on the display colour, that is
   when its luminance is at most 11/60; the text is "white" exactly then.
   */
  lemma IsDarkAndText(pw: PowFn, conv: Converter, raw: RGB, tweak: real, fuel: nat)
    ensures var p := Assemble(pw, conv, raw, tweak, fuel);
            && (p.isDark <==> Contrast(pw, DisplayColor(conv, raw, tweak), White) >= AaContrast)
            && (p.isDark <==> Luminance(pw, DisplayColor(conv, raw, tweak)) <= 11.0 / 60.0)
            && (p.text == "white" <==> p.isDark)
            && (p.text == "white" || p.text == "black")
  {
    AaOnWhiteIffLuminance(pw, DisplayColor(conv, raw, tweak));
  }

  /**
   The text colour is always legible on the display colour: white passes
   AA by definition of isDark, and a colour too light for white has
   luminance above 11/60, which gives black a ratio above 4.5.
   */
  lemma TextIsLegible(pw: PowFn, conv: Converter, raw: RGB, tweak: real, fuel: nat)
    ensures var p := Assemble(pw, conv, raw, tweak, fuel);
            Contrast(pw, DisplayColor(conv, raw, tweak), if p.isDark then White else Black) >= AaContrast
  {
    var display := DisplayColor(conv, raw, tweak);
    AaOnWhiteIffLuminance(pw, display);
    if !IsDark(pw, display) {
      ContrastWithBlack(pw, display);
      DivideAtLeast(Luminance(pw, display) + 0.05, 0.05, AaContrast);
    }
  }

  /**
   When its search converges, the hex string onWhite parses back to a
   colour that passes AA against white, and likewise onBlack against black.
   */
  lemma VariantsPassAa(pw: PowFn, conv: Converter, raw: RGB, tweak: real, fuel: nat)
    ensures var p := Assemble(pw, conv, raw, tweak, fuel);
            FixedColor(pw, conv, raw, WhiteBackground, AaContrast, fuel).converged ==>
              ParseHex(p.onWhite).Some? && Contrast(pw, ParseHex(p.onWhite).value, White) >= AaContrast
    ensures var p := Assemble(pw, conv, raw, tweak, fuel);
            FixedColor(pw, conv, raw, BlackBackground, AaContrast, fuel).converged ==>
              ParseHex(p.onBlack).Some? && Contrast(pw, ParseHex(p.onBlack).value, Black) >= AaContrast
  {
    FixContrastExit(pw, conv, raw, WhiteBackground, AaContrast, fuel);
    FixContrastExit(pw, conv, raw, BlackBackground, AaContrast, fuel);
    ParseRgbToHex(FixedColor(pw, conv, raw, WhiteBackground, AaContrast, fuel).color);
    ParseRgbToHex(FixedColor(pw, conv, raw, BlackBackground, AaContrast, fuel).color);
  }
}
