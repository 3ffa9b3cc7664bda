/** Contrast between two colours, WCAG conformance of a ratio, and the
    search for a more legible variant of a colour. */
module Contrast {
  import opened Outcomes
  import opened ColorLib

  function RealMax(a: real, b: real): real { if a >= b then a else b }
  function RealMin(a: real, b: real): real { if a <= b then a else b }

  /** `getContrastRatio(c1, c2)`: the WCAG contrast ratio (lighter luminance
      + 0.05) / (darker luminance + 0.05), or 0 when either colour is not
      understood. */
  function ContrastRatio(lib: Lib, c1: string, c2: string): (r: real)
    ensures !lib.isValid(c1) || !lib.isValid(c2) ==> r == 0.0
    ensures lib.isValid(c1) && lib.isValid(c2) ==> 1.0 <= r <= 21.0
  {
    if !lib.isValid(c1) || !lib.isValid(c2) then 0.0
    else
      var l1: real := lib.luminance(c1);
      var l2: real := lib.luminance(c2);
      var lighter := RealMax(l1, l2);
      var darker := RealMin(l1, l2);
      RatioBounds(lighter + 0.05, darker + 0.05);
      (lighter + 0.05) / (darker + 0.05)
  }

  /** The ratio does not depend on which colour is the foreground. */
  lemma ContrastSymmetric(lib: Lib, c1: string, c2: string)
    ensures ContrastRatio(lib, c1, c2) == ContrastRatio(lib, c2, c1)
  {
  }

  /** A colour has ratio 1 against itself. */
  lemma ContrastSelf(lib: Lib, c: string)
    requires lib.isValid(c)
    ensures ContrastRatio(lib, c, c) == 1.0
  {
  }

  /** The ratio grows with the distance between the luminances: a colour at
      least as far from the background's luminance contrasts at least as
      much. */
  lemma ContrastMonotone(lib: Lib, a: string, b: string, bg: string)
    requires lib.isValid(a) && lib.isValid(b) && lib.isValid(bg)
    requires lib.luminance(bg) <= lib.luminance(a) <= lib.luminance(b)
             || lib.luminance(b) <= lib.luminance(a) <= lib.luminance(bg)
    ensures ContrastRatio(lib, a, bg) <= ContrastRatio(lib, b, bg)
  {
    var la: real, lb: real, lg: real := lib.luminance(a), lib.luminance(b), lib.luminance(bg);
    if lg <= la <= lb {
      DivideLarger(la + 0.05, lb + 0.05, lg + 0.05);
    } else {
      assert (lg + 0.05) / (la + 0.05) <= (lg + 0.05) / (lb + 0.05) by {
        DivideSmaller(lg + 0.05, lb + 0.05, la + 0.05);
      }
    }
  }

  /** A ratio of two shifted luminances, the larger on top, lies in [1, 21]. */
  lemma RatioBounds(x: real, y: real)
    requires 0.05 <= y <= x <= 1.05
    ensures 1.0 <= x / y <= 21.0
  {
    assert x / y * y == x;
  }

  lemma DivideLarger(a: real, b: real, y: real)
    requires a <= b && y > 0.0
    ensures a / y <= b / y
  {
    assert a / y * y == a && b / y * y == b;
  }

  lemma DivideSmaller(x: real, a: real, b: real)
    requires 0.0 < a <= b && x > 0.0
    ensures x / b <= x / a
  {
    assert x / b * b == x == x / a * a;
    assert x / a * a <= x / a * b;
  }

  /** The four verdicts of `getWCAGCompliance`. */
  datatype Compliance = Compliance(aaNormal: bool, aaLarge: bool, aaaNormal: bool, aaaLarge: bool)

  /** `getWCAGCompliance(ratio)`: AA asks 4.5 for normal text and 3 for large
      text, AAA asks 7 and 4.5 (WCAG 2.1 success criteria 1.4.3 and 1.4.6). */
  function WcagCompliance(ratio: real): (r: Compliance)
    ensures r.aaNormal <==> ratio >= 4.5
    ensures r.aaLarge <==> ratio >= 3.0
    ensures r.aaaNormal <==> ratio >= 7.0
    ensures r.aaaLarge <==> ratio >= 4.5
  {
    Compliance(ratio >= 4.5, ratio >= 3.0, ratio >= 7.0, ratio >= 4.5)
  }

  /** The levels are nested: passing a stricter level passes the looser ones,
      AAA for large text is the same verdict as AA for normal text, and a
      higher ratio never loses a verdict. */
  lemma ComplianceNested(ratio: real, higher: real)
    requires ratio <= higher
    ensures var c := WcagCompliance(ratio);
      && (c.aaaNormal ==> c.aaNormal && c.aaaLarge)
      && (c.aaNormal ==> c.aaLarge)
      && c.aaaLarge == c.aaNormal
    ensures var c, d := WcagCompliance(ratio), WcagCompliance(higher);
      && (c.aaNormal ==> d.aaNormal) && (c.aaLarge ==> d.aaLarge)
      && (c.aaaNormal ==> d.aaaNormal) && (c.aaaLarge ==> d.aaaLarge)
  {
  }

  datatype Level = AA | AAA

  /** The ratio a level asks of normal text: exactly the ratios that pass
      the level's normal-text verdict reach it. */
  function TargetRatio(level: Level): (r: real)
    ensures forall x: real :: x >= r <==> (if level == AAA then WcagCompliance(x).aaaNormal else WcagCompliance(x).aaNormal)
  {
    if level == AAA then 7.0 else 4.5
  }

  /** Lightness after `step` of the 100 steps from `l` towards white, or
      towards black. */
  function SweepLightness(l: real, lighter: bool, step: nat): real {
    if lighter then l + Share(1.0 - l, step)
    else l * (1.0 - Share(1.0, step))
  }

  /** `amount * step / 100`, the part of `amount` covered after `step` of
      100 steps. */
  function Share(amount: real, step: nat): real {
    amount * (step as real) / 100.0
  }

  /** Each step moves the lightness further in one direction, it stays a
      fraction, and the last step reaches white or black. */
  lemma SweepMonotone(l: real, lighter: bool, i: nat, j: nat)
    requires 0.0 <= l <= 1.0 && i <= j <= 100
    ensures 0.0 <= SweepLightness(l, lighter, i) <= 1.0
    ensures lighter ==> l <= SweepLightness(l, lighter, i) <= SweepLightness(l, lighter, j)
    ensures !lighter ==> SweepLightness(l, lighter, j) <= SweepLightness(l, lighter, i) <= l
    ensures SweepLightness(l, lighter, 0) == l
    ensures SweepLightness(l, lighter, 100) == if lighter then 1.0 else 0.0
  {
    if lighter {
      SweepLighter(l, i, j);
    } else {
      SweepDarker(l, i, j);
    }
  }

  lemma SweepLighter(l: real, i: nat, j: nat)
    requires 0.0 <= l <= 1.0 && i <= j <= 100
    ensures l <= SweepLightness(l, true, i) <= SweepLightness(l, true, j) <= 1.0
    ensures SweepLightness(l, true, 100) == 1.0
  {
    ShareGrows(1.0 - l, i, j);
    ShareGrows(1.0 - l, j, 100);
  }

  lemma SweepDarker(l: real, i: nat, j: nat)
    requires 0.0 <= l <= 1.0 && i <= j <= 100
    ensures 0.0 <= SweepLightness(l, false, j) <= SweepLightness(l, false, i) <= l
    ensures SweepLightness(l, false, 100) == 0.0
  {
    ShareGrows(1.0, i, j);
    ShareGrows(1.0, j, 100);
    DarkerStep(l, 1.0 - Share(1.0, j), 1.0 - Share(1.0, i));
  }

  /** The share grows with the step, from nothing to the whole amount. */
  lemma ShareGrows(a: real, i: nat, j: nat)
    requires 0.0 <= a && i <= j
    ensures 0.0 <= Share(a, i) <= Share(a, j)
    ensures Share(a, 100) == a
  {
    ScaleMonotone(a, i as real, j as real);
    ScaleMonotone(a, 0.0, i as real);
    DivideLarger(a * (i as real), a * (j as real), 100.0);
    DivideLarger(0.0, a * (i as real), 100.0);
  }

  /** `l * x` grows with `x` and stays between 0 and `l`. */
  lemma DarkerStep(l: real, x: real, y: real)
    requires 0.0 <= l && 0.0 <= x <= y <= 1.0
    ensures 0.0 <= l * x <= l * y <= l
  {
    ScaleMonotone(l, x, y);
    ScaleMonotone(l, y, 1.0);
    ScaleMonotone(l, 0.0, x);
  }

  lemma ScaleMonotone(a: real, b: real, c: real)
    requires 0.0 <= a && b <= c
    ensures a * b <= a * c
    ensures a * 0.0 == 0.0 && a * 1.0 == a
  {
  }

  /** The colour tried at `step`: the hue, saturation and alpha of `color`
      with the swept lightness. */
  function Candidate(lib: Lib, color: string, bg: string, step: nat): string {
    var hsl := lib.toHsl(color);
    lib.fromHsl(hsl.(l := SweepLightness(hsl.l, lib.luminance(bg) < 0.5, step)))
  }

  function CandidateRatio(lib: Lib, color: string, bg: string, step: nat): real {
    ContrastRatio(lib, Candidate(lib, color, bg, step), bg)
  }

  datatype Suggestion = Suggestion(suggested: string, ratio: real)

  /** `s` is the colour tried at `step`, with its ratio. */
  predicate Tried(lib: Lib, color: string, bg: string, step: nat, s: Suggestion) {
    s == Suggestion(Candidate(lib, color, bg, step), CandidateRatio(lib, color, bg, step))
  }

  /** `suggestAccessibleAlternative(color, backgroundColor, targetLevel)`. */
  method SuggestAccessibleAlternative(lib: Lib, color: string, bg: string, level: Level)
    returns (r: Option<Suggestion>)
    ensures !lib.isValid(color) || !lib.isValid(bg) ==> r == None
    ensures lib.isValid(color) && lib.isValid(bg) && ContrastRatio(lib, color, bg) >= TargetRatio(level)
            ==> r == Some(Suggestion(lib.toHexString(color), ContrastRatio(lib, color, bg)))
    // Below the target: the first step that reaches it wins.
    ensures lib.isValid(color) && lib.isValid(bg) && ContrastRatio(lib, color, bg) < TargetRatio(level)
            && (exists step :: 0 <= step <= 100 && CandidateRatio(lib, color, bg, step) >= TargetRatio(level))
            ==> r.Some? && r.value.ratio >= TargetRatio(level)
                && (exists step :: 0 <= step <= 100 && Tried(lib, color, bg, step, r.value)
                                   && forall j :: 0 <= j < step ==> CandidateRatio(lib, color, bg, j) < TargetRatio(level))
    // No step reaches it: the first best step, if it beats the colour itself.
    ensures lib.isValid(color) && lib.isValid(bg) && ContrastRatio(lib, color, bg) < TargetRatio(level)
            && (forall step :: 0 <= step <= 100 ==> CandidateRatio(lib, color, bg, step) < TargetRatio(level))
            ==> (r.Some? <==> exists step :: 0 <= step <= 100
                                && CandidateRatio(lib, color, bg, step) > ContrastRatio(lib, color, bg))
                && (r.Some? ==>
                      exists step :: 0 <= step <= 100 && Tried(lib, color, bg, step, r.value)
                                     && (forall j :: 0 <= j < step ==> CandidateRatio(lib, color, bg, j) < r.value.ratio)
                                     && (forall j :: 0 <= j <= 100 ==> CandidateRatio(lib, color, bg, j) <= r.value.ratio))
  {
    if !lib.isValid(color) || !lib.isValid(bg) {
      return None;
    }
    var target := TargetRatio(level);
    var current := ContrastRatio(lib, color, bg);
    if current >= target {
      return Some(Suggestion(lib.toHexString(color), current));
    }
    var best := lib.toHexString(color);
    var bestRatio := current;
    ghost var bestStep: int := -1;
    var step := 0;
    while step <= 100
      invariant 0 <= step <= 101
      invariant forall j :: 0 <= j < step ==> CandidateRatio(lib, color, bg, j) < target
      invariant forall j :: 0 <= j < step ==> CandidateRatio(lib, color, bg, j) <= bestRatio
      invariant bestRatio >= current
      invariant bestRatio > current ==>
        && 0 <= bestStep < step
        && best == Candidate(lib, color, bg, bestStep)
        && bestRatio == CandidateRatio(lib, color, bg, bestStep)
        && forall j :: 0 <= j < bestStep ==> CandidateRatio(lib, color, bg, j) < bestRatio
    {
      var test := Candidate(lib, color, bg, step);
      var testRatio := ContrastRatio(lib, test, bg);
      if testRatio >= target {
        r := Some(Suggestion(test, testRatio));
        assert Tried(lib, color, bg, step, r.value);
        assert CandidateRatio(lib, color, bg, step) >= target;
        return;
      }
      if testRatio > bestRatio {
        best, bestRatio, bestStep := test, testRatio, step;
      }
      step := step + 1;
    }
    if bestRatio > current {
      r := Some(Suggestion(best, bestRatio));
      assert Tried(lib, color, bg, bestStep, r.value);
      return;
    }
    assert forall j :: 0 <= j <= 100 ==> CandidateRatio(lib, color, bg, j) <= current;
    return None;
  }
}
