/** The colour library the engine delegates to (tinycolor2), reduced to the
    operations the engine calls. Each operation is a field of `Lib`, so the
    model is stated for every library that satisfies `Sound`; nothing about
    sRGB, HSL conversion or rounding is reimplemented. */
module ColorLib {
  import opened Text

  /** A number between 0 and 1 inclusive. */
  type Fraction = x: real | 0.0 <= x <= 1.0

  /** `toRgb()`: channels and alpha as the library reports them. */
  datatype Rgba = Rgba(r: real, g: real, b: real, a: real)

  /** `toHsl()`: hue in degrees, saturation and lightness as fractions, alpha. */
  datatype Hsla = Hsla(h: real, s: real, l: real, a: real)

  datatype Lib = Lib(
    /** `tinycolor(s).isValid()` */
    isValid: string -> bool,
    /** `tinycolor(s).toHexString()`, the normalized form `#rrggbb` */
    toHexString: string -> string,
    /** `tinycolor(s).toHex8String()`, the form `#rrggbbaa` */
    toHex8String: string -> string,
    /** `tinycolor(s).toRgb()` */
    toRgb: string -> Rgba,
    /** `tinycolor(s).toHsl()` */
    toHsl: string -> Hsla,
    /** `tinycolor(s).getLuminance()`, the relative luminance of WCAG 2.1,
        which lies in [0, 1] by its definition */
    luminance: string -> Fraction,
    /** `tinycolor({h, s, l, a}).toHexString()` */
    fromHsl: Hsla -> string,
    /** JavaScript's conversion of a number to a string */
    numberToString: real -> string
  )

  /** Six lower-case hexadecimal digits after a `#`. */
  predicate IsHex6(t: string) {
    |t| == 7 && t[0] == '#'
    && forall i :: 1 <= i < 7 ==> IsDigit(t[i]) || ('a' <= t[i] <= 'f')
  }

  /** What the engine relies on from the library beyond the types: HSL
      saturation and lightness are fractions in [0, 1], and every valid colour
      normalises to `#rrggbb`. */
  ghost predicate Sound(lib: Lib) {
    && (forall s :: 0.0 <= lib.toHsl(s).s <= 1.0 && 0.0 <= lib.toHsl(s).l <= 1.0)
    && (forall s :: lib.isValid(s) ==> IsHex6(lib.toHexString(s)))
  }
}
