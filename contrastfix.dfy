/**
 fixContrast: find a colour of the same HSLuv hue and saturation whose
 contrast against black or white is at least a minimum, by a binary search
 on the lightness axis.

 The source loop has no iteration cap and its termination depends on the
 (unmodelled) colour transform, so the model runs it for at most `fuel`
 iterations and reports whether it left through the source's own exit
 test (`converged`). Everything said about a converged result is partial
 correctness: if the source loop stops, this is what it returns.
 */
module ContrastFix {
  import opened Wcag
  import opened ColorSpace

  /** The `blackOrWhite` argument. */
  datatype Background = BlackBackground | WhiteBackground

  function BackgroundRgb(bg: Background): RGB {
    if bg == WhiteBackground then White else Black
  }

  /** The search stops once the contrast is at most this far above the minimum. */
  const Epsilon: real := 0.1

  /** The search interval on the lightness axis. */
  datatype Bounds = Bounds(left: real, right: real)

  function Midpoint(b: Bounds): real {
    b.left + (b.right - b.left) / 2.0
  }

  function Width(b: Bounds): real {
    b.right - b.left
  }

  /**
   The boundary update: the right bound comes down to the midpoint when
   "target is white" agrees with "contrast is too low", otherwise the left
   bound goes up to it.
   */
  function Narrow(b: Bounds, bg: Background, diff: real): Bounds {
    if (bg == WhiteBackground) == (diff < 0.0) then Bounds(b.left, Midpoint(b))
    else Bounds(Midpoint(b), b.right)
  }

  /** The loop's exit test, the negation of `diff > EPSILON || diff < 0`. */
  predicate Accepted(diff: real) {
    0.0 <= diff <= Epsilon
  }

  /**
   What stays fixed during one search: the hue and saturation of the input,
   the target, and `contrast`, the function getContrast(_, backgroundRGB).
   */
  datatype Query = Query(conv: Converter, h: real, s: real, bg: Background, minContrast: real, contrast: RGB -> real)

  /** getContrast against the background, as a function of the probed colour. */
  function ContrastAgainst(pw: PowFn, bg: Background): RGB -> real {
    (c: RGB) => Contrast(pw, c, BackgroundRgb(bg))
  }

  /** The colour probed at lightness `l`. */
  function ProbeAt(q: Query, l: real): RGB {
    RgbAt(q.conv, q.h, q.s, l)
  }

  /** contrastDiff at lightness `l`. */
  function DiffAt(q: Query, l: real): real {
    q.contrast(ProbeAt(q, l)) - q.minContrast
  }

  /** The loop variables: bounds, current lightness, current colour, and the number of iterations run. */
  datatype State = State(bounds: Bounds, lightness: real, color: RGB, steps: nat)

  /** One iteration of the loop body. */
  function Probe(q: Query, st: State): State {
    var l := Midpoint(st.bounds);
    State(Narrow(st.bounds, q.bg, DiffAt(q, l)), l, ProbeAt(q, l), st.steps + 1)
  }

  datatype Outcome = Outcome(last: State, converged: bool)

  /** The do-while loop, run for at most `fuel` iterations. */
  function Search(q: Query, st: State, fuel: nat): Outcome
    decreases fuel
  {
    if fuel == 0 then Outcome(st, false)
    else
      var next := Probe(q, st);
      if Accepted(DiffAt(q, next.lightness)) then Outcome(next, true)
      else Search(q, next, fuel - 1)
  }

  /** One unrolling of the loop. */
  lemma SearchUnfold(q: Query, st: State, fuel: nat)
    requires fuel > 0
    ensures var next := Probe(q, st);
            Search(q, st, fuel)
            == if Accepted(DiffAt(q, next.lightness)) then Outcome(next, true) else Search(q, next, fuel - 1)
  {
  }

  /** The interval the search starts from: [0, L] for white, [L, 100] for black. */
  function InitialBounds(bg: Background, l0: real): Bounds {
    if bg == WhiteBackground then Bounds(0.0, l0) else Bounds(l0, 100.0)
  }

  function QueryFor(pw: PowFn, conv: Converter, color: RGB, bg: Background, minContrast: real): Query {
    var hsl := conv.rgbToHsluv(UnitFromRgb(color));
    Query(conv, hsl.h, hsl.s, bg, minContrast, ContrastAgainst(pw, bg))
  }

  function InitialState(conv: Converter, color: RGB, bg: Background): State {
    var l0 := conv.rgbToHsluv(UnitFromRgb(color)).l;
    State(InitialBounds(bg, l0), l0, color, 0)
  }

  /** The result of fixContrast and whether it was reached through the loop's exit test. */
  datatype Fix = Fix(color: RGB, converged: bool)

  function FixedColor(pw: PowFn, conv: Converter, color: RGB, bg: Background, minContrast: real, fuel: nat): Fix {
    if Contrast(pw, color, BackgroundRgb(bg)) >= minContrast then Fix(color, true)
    else
      var o := Search(QueryFor(pw, conv, color, bg, minContrast), InitialState(conv, color, bg), fuel);
      Fix(o.last.color, o.converged)
  }

  /** fixContrast as the source writes it, with a do-while loop over an HSLuv object. */
  method FixContrast(pw: PowFn, conv: Converter, color: RGB, blackOrWhite: Background, minContrast: real, fuel: nat)
    returns (r: RGB, converged: bool)
    ensures Fix(r, converged) == FixedColor(pw, conv, color, blackOrWhite, minContrast, fuel)
    ensures Contrast(pw, color, BackgroundRgb(blackOrWhite)) >= minContrast ==> r == color && converged
    ensures converged ==> Contrast(pw, r, BackgroundRgb(blackOrWhite)) >= minContrast
  {
    var isWhite := blackOrWhite == WhiteBackground;
    var backgroundRgb := BackgroundRgb(blackOrWhite);
    var contrast := Contrast(pw, color, backgroundRgb);
    if contrast >= minContrast {
      return color, true;
    }
    var colorHsl := new HsluvColor.FromRgb(conv, color);
    var q := QueryFor(pw, conv, color, blackOrWhite, minContrast);
    var left, right := 0.0, 100.0;
    if isWhite {
      right := colorHsl.hsluvL;
    } else {
      left := colorHsl.hsluvL;
    }
    assert State(Bounds(left, right), colorHsl.hsluvL, color, 0) == InitialState(conv, color, blackOrWhite);
    r, converged := Bisect(q, colorHsl, Bounds(left, right), color, fuel);
    FixContrastExit(pw, conv, color, blackOrWhite, minContrast, fuel);
  }

  /**
   The do-while loop of fixContrast on the HSLuv object, starting from the
   interval `b0` with the object's current lightness; `color` is what the
   loop returns if it never runs.
   */
  method Bisect(q: Query, colorHsl: HsluvColor, b0: Bounds, color: RGB, fuel: nat)
    returns (updatedColor: RGB, converged: bool)
    requires colorHsl.conv == q.conv && colorHsl.hsluvH == q.h && colorHsl.hsluvS == q.s
    modifies colorHsl
    ensures var o := Search(q, State(b0, old(colorHsl.hsluvL), color, 0), fuel);
            updatedColor == o.last.color && converged == o.converged
    ensures colorHsl.hsluvH == old(colorHsl.hsluvH) && colorHsl.hsluvS == old(colorHsl.hsluvS)
  {
    var isWhite := q.bg == WhiteBackground;
    ghost var target := Search(q, State(b0, colorHsl.hsluvL, color, 0), fuel);
    var left, right := b0.left, b0.right;
    updatedColor := color;
    var n := 0;
    while n < fuel
      invariant n <= fuel
      invariant colorHsl.conv == q.conv && colorHsl.hsluvH == q.h && colorHsl.hsluvS == q.s
      invariant Search(q, State(Bounds(left, right), colorHsl.hsluvL, updatedColor, n), fuel - n) == target
    {
      ghost var st := State(Bounds(left, right), colorHsl.hsluvL, updatedColor, n);
      SearchUnfold(q, st, fuel - n);
      colorHsl.hsluvL := left + (right - left) / 2.0;
      colorHsl.HsluvToRgb();
      updatedColor := colorHsl.Rgb();
      var contrast := q.contrast(updatedColor);
      var contrastDiff := contrast - q.minContrast;
      if isWhite == (contrastDiff < 0.0) {
        right := colorHsl.hsluvL;
      } else {
        left := colorHsl.hsluvL;
      }
      n := n + 1;
      if !(contrastDiff > Epsilon || contrastDiff < 0.0) {
        return updatedColor, true;
      }
    }
    return updatedColor, false;
  }

  /** Each iteration replaces exactly one bound by the midpoint, which halves the width. */
  lemma NarrowHalves(b: Bounds, bg: Background, diff: real)
    ensures var n := Narrow(b, bg, diff);
            || (n.left == b.left && n.right == Midpoint(b))
            || (n.left == Midpoint(b) && n.right == b.right)
    ensures Width(Narrow(b, bg, diff)) == Width(b) / 2.0
  {
  }

  /** The interval and every probe stay inside whatever range the interval started in. */
  lemma {:induction false} SearchStaysInRange(q: Query, st: State, fuel: nat, lo: real, hi: real)
    requires lo <= st.bounds.left <= st.bounds.right <= hi && lo <= st.lightness <= hi
    ensures var o := Search(q, st, fuel).last;
            lo <= o.bounds.left <= o.bounds.right <= hi && lo <= o.lightness <= hi
    ensures var o := Search(q, st, fuel).last;
            o.bounds.left <= o.lightness <= o.bounds.right
            || (o.steps == st.steps && o == st)
    decreases fuel
  {
    if fuel > 0 {
      var next := Probe(q, st);
      NarrowHalves(st.bounds, q.bg, DiffAt(q, next.lightness));
      if !Accepted(DiffAt(q, next.lightness)) {
        SearchStaysInRange(q, next, fuel - 1, lo, hi);
      }
    }
  }

  /**
   Hue and saturation are never changed: after at least one iteration the
   result is the transform of the input's hue and saturation at the last
   probed lightness.
   */
  lemma {:induction false} SearchKeepsHueAndSaturation(q: Query, st: State, fuel: nat)
    requires fuel > 0
    ensures var o := Search(q, st, fuel).last;
            o.color == RgbAt(q.conv, q.h, q.s, o.lightness) && o.steps > st.steps
    decreases fuel
  {
    var next := Probe(q, st);
    if !Accepted(DiffAt(q, next.lightness)) && fuel > 1 {
      SearchKeepsHueAndSaturation(q, next, fuel - 1);
    }
  }

  /** The loop leaves through its exit test only with minContrast <= contrast <= minContrast + EPSILON. */
  lemma {:induction false} SearchExit(q: Query, st: State, fuel: nat)
    ensures var o := Search(q, st, fuel);
            o.converged ==>
              q.minContrast <= q.contrast(o.last.color) <= q.minContrast + Epsilon
    ensures var o := Search(q, st, fuel);
            o.last.steps <= st.steps + fuel && (o.converged || o.last.steps == st.steps + fuel)
    decreases fuel
  {
    if fuel > 0 {
      var next := Probe(q, st);
      if !Accepted(DiffAt(q, next.lightness)) {
        SearchExit(q, next, fuel - 1);
      }
    }
  }

  /** w halved k times. */
  function Halved(w: real, k: nat): real {
    if k == 0 then w else Halved(w, k - 1) / 2.0
  }

  lemma {:induction false} HalvedOnceMore(w: real, k: nat)
    ensures Halved(w / 2.0, k) == Halved(w, k + 1)
    decreases k
  {
    if k > 0 {
      HalvedOnceMore(w, k - 1);
    }
  }

  /** After k iterations the interval is the starting one halved k times. */
  lemma {:induction false} SearchHalvesWidth(q: Query, st: State, fuel: nat)
    ensures var o := Search(q, st, fuel).last;
            o.steps >= st.steps && Width(o.bounds) == Halved(Width(st.bounds), o.steps - st.steps)
    decreases fuel
  {
    if fuel > 0 {
      var next := Probe(q, st);
      NarrowHalves(st.bounds, q.bg, DiffAt(q, next.lightness));
      assert Width(next.bounds) == Halved(Width(st.bounds), 1);
      if !Accepted(DiffAt(q, next.lightness)) {
        SearchHalvesWidth(q, next, fuel - 1);
        var o := Search(q, next, fuel - 1).last;
        HalvedOnceMore(Width(st.bounds), o.steps - next.steps);
      }
    }
  }

  /**
   The direction invariant. For white, the right bound is the original
   lightness or a probe whose contrast was too low, the left bound is 0 or
   a probe whose contrast was enough; for black the roles are mirrored.
   */
  ghost predicate Bracketed(q: Query, b0: Bounds, b: Bounds) {
    if q.bg == WhiteBackground then
      && (b.right == b0.right || DiffAt(q, b.right) < 0.0)
      && (b.left == b0.left || DiffAt(q, b.left) >= 0.0)
    else
      && (b.left == b0.left || DiffAt(q, b.left) < 0.0)
      && (b.right == b0.right || DiffAt(q, b.right) >= 0.0)
  }

  lemma {:induction false} SearchKeepsBracket(q: Query, b0: Bounds, st: State, fuel: nat)
    requires Bracketed(q, b0, st.bounds)
    ensures Bracketed(q, b0, Search(q, st, fuel).last.bounds)
    decreases fuel
  {
    if fuel > 0 {
      var next := Probe(q, st);
      assert Bracketed(q, b0, next.bounds);
      if !Accepted(DiffAt(q, next.lightness)) {
        SearchKeepsBracket(q, b0, next, fuel - 1);
      }
    }
  }

  /**
   fixContrast's exit guarantee: whenever it returns through either exit,
   the contrast is at least the minimum, and a result found by the search
   is at most EPSILON above it.
   */
  lemma FixContrastExit(pw: PowFn, conv: Converter, color: RGB, bg: Background, minContrast: real, fuel: nat)
    ensures var f := FixedColor(pw, conv, color, bg, minContrast, fuel);
            f.converged ==> Contrast(pw, f.color, BackgroundRgb(bg)) >= minContrast
    ensures var f := FixedColor(pw, conv, color, bg, minContrast, fuel);
            f.converged && Contrast(pw, color, BackgroundRgb(bg)) < minContrast ==>
              Contrast(pw, f.color, BackgroundRgb(bg)) <= minContrast + Epsilon
  {
    SearchExit(QueryFor(pw, conv, color, bg, minContrast), InitialState(conv, color, bg), fuel);
  }

  /** The fast path: a colour that already meets the minimum comes back unchanged, without a search. */
  lemma FixContrastFastPath(pw: PowFn, conv: Converter, color: RGB, bg: Background, minContrast: real, fuel: nat)
    requires Contrast(pw, color, BackgroundRgb(bg)) >= minContrast
    ensures FixedColor(pw, conv, color, bg, minContrast, fuel) == Fix(color, true)
  {
  }

  /**
   Otherwise the search probes only the lightnesses between 0 and the
   original lightness for white and between the original lightness and 100
   for black, at the original hue and saturation, and its final interval
   still brackets the target in the sense of Bracketed.
   */
  lemma FixContrastSearch(pw: PowFn, conv: Converter, color: RGB, bg: Background, minContrast: real, fuel: nat)
    requires Contrast(pw, color, BackgroundRgb(bg)) < minContrast && fuel > 0
    ensures var hsl := conv.rgbToHsluv(UnitFromRgb(color));
            var b0 := InitialBounds(bg, hsl.l);
            var q := QueryFor(pw, conv, color, bg, minContrast);
            var o := Search(q, InitialState(conv, color, bg), fuel).last;
            && FixedColor(pw, conv, color, bg, minContrast, fuel).color == RgbAt(conv, hsl.h, hsl.s, o.lightness)
            && b0.left <= o.bounds.left <= o.lightness <= o.bounds.right <= b0.right
            && Bracketed(q, b0, o.bounds)
            && Width(o.bounds) == Halved(Width(b0), o.steps)
  {
    var hsl := conv.rgbToHsluv(UnitFromRgb(color));
    var b0 := InitialBounds(bg, hsl.l);
    var q := QueryFor(pw, conv, color, bg, minContrast);
    var st := InitialState(conv, color, bg);
    SearchStaysInRange(q, st, fuel, b0.left, b0.right);
    SearchKeepsHueAndSaturation(q, st, fuel);
    SearchKeepsBracket(q, b0, st, fuel);
    SearchHalvesWidth(q, st, fuel);
  }

  /** Fixing an already fixed colour changes nothing: the second call takes the fast path. */
  lemma FixContrastIdempotent(pw: PowFn, conv: Converter, color: RGB, bg: Background, minContrast: real, fuel: nat)
    ensures var f := FixedColor(pw, conv, color, bg, minContrast, fuel);
            f.converged ==> FixedColor(pw, conv, f.color, bg, minContrast, fuel) == f
  {
    FixContrastExit(pw, conv, color, bg, minContrast, fuel);
  }
}
