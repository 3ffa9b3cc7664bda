/** The Tailwind palette generator: eleven shades of one hue whose
    lightness follows a curve pinned to the base colour, with their contrast
    against white and black, exports as configuration text, and the usual
    light/dark pairings. */
module Palette {
  import opened Text
  import opened Outcomes
  import opened ColorLib
  import opened Contrast
  import Decimal

  datatype Curve = Linear | Natural | Accessibility

  /** The shade numbers, lightest first. */
  const SHADES: seq<nat> := [50, 100, 200, 300, 400, 500, 600, 700, 800, 900, 950]

  type Shade = n: nat | n in SHADES witness 50

  /** Target lightness, in percent, of each shade in `SHADES` order. */
  function CurveTable(curve: Curve): (t: seq<real>)
    ensures |t| == |SHADES|
  {
    match curve
    case Linear => [95.0, 90.0, 80.0, 70.0, 60.0, 50.0, 40.0, 30.0, 20.0, 10.0, 5.0]
    case Natural => [96.0, 92.0, 85.0, 75.0, 65.0, 55.0, 45.0, 35.0, 25.0, 15.0, 10.0]
    case Accessibility => [97.0, 94.0, 88.0, 78.0, 68.0, 55.0, 42.0, 32.0, 22.0, 13.0, 8.0]
  }

  /** Position of a shade in `SHADES`. */
  function ShadeIndex(shade: Shade): (k: nat)
    ensures k < |SHADES| && SHADES[k] == shade
  {
    if shade == 50 then 0 else if shade == 100 then 1 else if shade == 200 then 2
    else if shade == 300 then 3 else if shade == 400 then 4 else if shade == 500 then 5
    else if shade == 600 then 6 else if shade == 700 then 7 else if shade == 800 then 8
    else if shade == 900 then 9 else 10
  }

  /** `LIGHTNESS_CURVES[curve][shade]` */
  function CurveLightness(curve: Curve, shade: Shade): real {
    CurveTable(curve)[ShadeIndex(shade)]
  }

  /** Every curve runs from light to dark: its values are percentages and
      strictly decrease along the shades. */
  lemma CurvesDecrease(curve: Curve)
    ensures forall a, b :: 0 <= a < b < |SHADES| ==> CurveTable(curve)[a] > CurveTable(curve)[b]
    ensures forall k :: 0 <= k < |SHADES| ==> 0.0 < CurveTable(curve)[k] < 100.0
  {
  }

  /** `calculateLightnessScale`: the factor that maps the target shade's
      curve value onto the base colour's lightness; it is never negative. */
  function LightnessScale(lib: Lib, base: string, target: Shade, curve: Curve): (r: real)
    ensures r * CurveLightness(curve, target) == lib.toHsl(base).l * 100.0
    ensures Sound(lib) ==> r >= 0.0
  {
    var baseLightness := lib.toHsl(base).l * 100.0;
    var c := CurveLightness(curve, target);
    CurvePositive(curve, target);
    DivCancel(c, baseLightness);
    assert Sound(lib) ==> baseLightness / c >= 0.0 by {
      if Sound(lib) {
        DivideLarger(0.0, baseLightness, c);
      }
    }
    baseLightness / c
  }

  /** `Math.max(0, Math.min(100, x))` */
  function ClampPercent(x: real): (r: real)
    ensures 0.0 <= r <= 100.0
    ensures 0.0 <= x <= 100.0 ==> r == x
  {
    if x > 100.0 then 100.0 else if x < 0.0 then 0.0 else x
  }

  /** The saturation rule: lighter shades up to 100 keep 60%, darker shades
      from 900 on keep 80%, the rest keep the base saturation. */
  function AdjustedSaturation(s: real, shade: Shade): real {
    if shade <= 100 then s * 0.6 else if shade >= 900 then s * 0.8 else s
  }

  datatype Verdicts = Verdicts(aa: bool, aaa: bool)

  datatype Hsl = Hsl(h: real, s: real, l: real)

  datatype PaletteShade = PaletteShade(
    shade: Shade,
    hex: string,
    /** hue in degrees, saturation and lightness in percent */
    hsl: Hsl,
    contrastVsWhite: real,
    contrastVsBlack: real,
    wcagWhite: Verdicts,
    wcagBlack: Verdicts)

  datatype TailwindPalette = TailwindPalette(
    name: string,
    baseColor: string,
    targetShade: Shade,
    curveType: Curve,
    shades: seq<PaletteShade>)

  datatype Options = Options(name: Option<string>, targetShade: Option<Shade>, curveType: Option<Curve>)

  /** The lightness, in percent, asked of the library for a shade whose
      curve value is `curveValue`. */
  function RequestedLightness(curveValue: real, scale: real): real {
    ClampPercent(curveValue * scale)
  }

  /** Normal-text verdicts of a ratio. */
  function NormalVerdicts(ratio: real): (r: Verdicts)
    ensures r.aa <==> ratio >= 4.5
    ensures r.aaa <==> ratio >= 7.0
    ensures r.aaa ==> r.aa
  {
    var c := WcagCompliance(ratio);
    Verdicts(c.aaNormal, c.aaaNormal)
  }

  /** The colour asked of the library for a shade: the base hue, the
      adjusted saturation and, as a fraction, the shade's curve value scaled
      onto the base lightness and clamped to a percentage, opaque. At the
      target shade that is the base colour's own lightness. */
  function ShadeHsl(lib: Lib, base: string, target: Shade, curve: Curve, shade: Shade): (r: Hsla)
    ensures r.h == lib.toHsl(base).h && r.a == 1.0
    ensures 0.0 <= r.l <= 1.0
    ensures var x := CurveLightness(curve, shade) * LightnessScale(lib, lib.toHexString(base), target, curve);
      && (0.0 <= x <= 100.0 ==> r.l == x / 100.0)
      && (x > 100.0 ==> r.l == 1.0)
      && (x < 0.0 ==> r.l == 0.0)
    ensures Sound(lib) && shade == target ==> r.l == lib.toHsl(lib.toHexString(base)).l
    ensures shade <= 100 ==> r.s == lib.toHsl(base).s * 0.6
    ensures shade >= 900 ==> r.s == lib.toHsl(base).s * 0.8
    ensures 100 < shade < 900 ==> r.s == lib.toHsl(base).s
  {
    var baseHsl := lib.toHsl(base);
    var l := RequestedLightness(CurveLightness(curve, shade), LightnessScale(lib, lib.toHexString(base), target, curve));
    assert Sound(lib) && shade == target ==> l == lib.toHsl(lib.toHexString(base)).l * 100.0 by {
      if Sound(lib) && shade == target {
        TargetShadePinned(lib, base, target, curve);
      }
    }
    Hsla(baseHsl.h, AdjustedSaturation(baseHsl.s, shade), l / 100.0, 1.0)
  }

  /** One iteration of the `forEach` over the shade numbers. */
  function MakeShade(lib: Lib, base: string, target: Shade, curve: Curve, shade: Shade): PaletteShade {
    var hex := lib.fromHsl(ShadeHsl(lib, base, target, curve, shade));
    var hslColor := lib.toHsl(hex);
    var white := ContrastRatio(lib, hex, "#ffffff");
    var black := ContrastRatio(lib, hex, "#000000");
    PaletteShade(shade, hex, Hsl(hslColor.h, hslColor.s * 100.0, hslColor.l * 100.0),
                 white, black, NormalVerdicts(white), NormalVerdicts(black))
  }

  /** `generateTailwindPalette(baseColor, options)`; the thrown error becomes
      `Err`. */
  function GeneratePalette(lib: Lib, base: string, options: Options): (r: Result<TailwindPalette>)
    ensures !lib.isValid(base) <==> r == Err("Invalid color provided")
    ensures r.Ok? ==>
      && r.value.name == options.name.GetOr("primary")
      && r.value.targetShade == options.targetShade.GetOr(500)
      && r.value.curveType == options.curveType.GetOr(Natural)
      && r.value.baseColor == lib.toHexString(base)
      && |r.value.shades| == |SHADES|
      && forall k :: 0 <= k < |SHADES| ==> r.value.shades[k].shade == SHADES[k]
  {
    var name := options.name.GetOr("primary");
    var target := options.targetShade.GetOr(500);
    var curve := options.curveType.GetOr(Natural);
    if !lib.isValid(base) then Err("Invalid color provided")
    else
      var shades := seq(|SHADES|, k requires 0 <= k < |SHADES| => MakeShade(lib, base, target, curve, SHADES[k]));
      Ok(TailwindPalette(name, lib.toHexString(base), target, curve, shades))
  }

  /** The shade the palette is pinned to asks for exactly the lightness of
      the (normalized) base colour. */
  lemma TargetShadePinned(lib: Lib, base: string, target: Shade, curve: Curve)
    requires Sound(lib)
    ensures RequestedLightness(CurveLightness(curve, target), LightnessScale(lib, lib.toHexString(base), target, curve))
            == lib.toHsl(lib.toHexString(base)).l * 100.0
  {
    var c := CurveLightness(curve, target);
    var b := lib.toHsl(lib.toHexString(base)).l * 100.0;
    CurvePositive(curve, target);
    DivCancel(c, b);
  }

  /** Each shade of a generated palette is the library's colour for its
      recipe, pinned to the base lightness at the target shade, and carries
      its contrast against white and black with the normal-text verdicts of
      those ratios. */
  lemma ShadeRecipe(lib: Lib, base: string, options: Options, k: nat)
    requires GeneratePalette(lib, base, options).Ok? && k < |SHADES|
    ensures var p := GeneratePalette(lib, base, options).value;
      var s := p.shades[k];
      var hsl := ShadeHsl(lib, base, p.targetShade, p.curveType, SHADES[k]);
      && s.hex == lib.fromHsl(hsl)
      && (Sound(lib) && SHADES[k] == p.targetShade ==> hsl.l == lib.toHsl(p.baseColor).l)
      && s.hsl == Hsl(lib.toHsl(s.hex).h, lib.toHsl(s.hex).s * 100.0, lib.toHsl(s.hex).l * 100.0)
      && s.contrastVsWhite == ContrastRatio(lib, s.hex, "#ffffff")
      && s.contrastVsBlack == ContrastRatio(lib, s.hex, "#000000")
      && (s.wcagWhite.aa <==> s.contrastVsWhite >= 4.5) && (s.wcagWhite.aaa <==> s.contrastVsWhite >= 7.0)
      && (s.wcagBlack.aa <==> s.contrastVsBlack >= 4.5) && (s.wcagBlack.aaa <==> s.contrastVsBlack >= 7.0)
  {
    var p := GeneratePalette(lib, base, options).value;
    if Sound(lib) && SHADES[k] == p.targetShade {
      TargetShadePinned(lib, base, p.targetShade, p.curveType);
    }
  }

  lemma DivCancel(c: real, b: real)
    requires c > 0.0
    ensures c * (b / c) == b
  {
  }

  lemma CurvePositive(curve: Curve, shade: Shade)
    ensures 0.0 < CurveLightness(curve, shade) < 100.0
  {
    CurvesDecrease(curve);
  }

  /** Down the shades the lightness asked of the library never increases. */
  lemma LightnessDescends(lib: Lib, base: string, target: Shade, curve: Curve, lighter: Shade, darker: Shade)
    requires Sound(lib) && lighter <= darker
    ensures ShadeHsl(lib, base, target, curve, darker).l <= ShadeHsl(lib, base, target, curve, lighter).l
  {
    CurveOrder(curve, lighter, darker);
    RequestedOrder(CurveLightness(curve, darker), CurveLightness(curve, lighter),
                   LightnessScale(lib, lib.toHexString(base), target, curve));
  }

  lemma RequestedOrder(x: real, y: real, scale: real)
    requires 0.0 <= scale && x <= y
    ensures RequestedLightness(x, scale) <= RequestedLightness(y, scale)
  {
    ScaleMonotone(scale, x, y);
    assert x * scale <= y * scale;
  }

  /** Curve values are positive and decrease down the shades. */
  lemma CurveOrder(curve: Curve, lighter: Shade, darker: Shade)
    requires lighter <= darker
    ensures 0.0 < CurveLightness(curve, darker) <= CurveLightness(curve, lighter)
  {
    CurvesDecrease(curve);
    assert ShadeIndex(lighter) <= ShadeIndex(darker);
  }
}
