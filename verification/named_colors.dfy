/** The table of CSS named colours (CSS Color Module Level 4, section 6.1)
    that the scanner looks for, in the order the engine lists them. The order
    matters only as the order of the alternatives of the named-colour pattern.
    The table is written in rows of six so that its shape can be checked a
    row at a time. */
module NamedColors {

  const CSS_NAMED_COLORS: seq<string> :=
    ROW_1 + ROW_2 + ROW_3 + ROW_4 + ROW_5 + ROW_6 + ROW_7 + ROW_8 + ROW_9
    + ROW_10 + ROW_11 + ROW_12 + ROW_13 + ROW_14 + ROW_15 + ROW_16 + ROW_17 + ROW_18
    + ROW_19 + ROW_20 + ROW_21 + ROW_22 + ROW_23 + ROW_24 + ROW_25

  const ROW_1: seq<string> := ["aliceblue", "antiquewhite", "aqua", "aquamarine", "azure", "beige"]
  const ROW_2: seq<string> := ["bisque", "black", "blanchedalmond", "blue", "blueviolet", "brown"]
  const ROW_3: seq<string> := ["burlywood", "cadetblue", "chartreuse", "chocolate", "coral", "cornflowerblue"]
  const ROW_4: seq<string> := ["cornsilk", "crimson", "cyan", "darkblue", "darkcyan", "darkgoldenrod"]
  const ROW_5: seq<string> := ["darkgray", "darkgrey", "darkgreen", "darkkhaki", "darkmagenta", "darkolivegreen"]
  const ROW_6: seq<string> := ["darkorange", "darkorchid", "darkred", "darksalmon", "darkseagreen", "darkslateblue"]
  const ROW_7: seq<string> := ["darkslategray", "darkslategrey", "darkturquoise", "darkviolet", "deeppink", "deepskyblue"]
  const ROW_8: seq<string> := ["dimgray", "dimgrey", "dodgerblue", "firebrick", "floralwhite", "forestgreen"]
  const ROW_9: seq<string> := ["fuchsia", "gainsboro", "ghostwhite", "gold", "goldenrod", "gray"]
  const ROW_10: seq<string> := ["grey", "green", "greenyellow", "honeydew", "hotpink", "indianred"]
  const ROW_11: seq<string> := ["indigo", "ivory", "khaki", "lavender", "lavenderblush", "lawngreen"]
  const ROW_12: seq<string> := ["lemonchiffon", "lightblue", "lightcoral", "lightcyan", "lightgoldenrodyellow", "lightgray"]
  const ROW_13: seq<string> := ["lightgrey", "lightgreen", "lightpink", "lightsalmon", "lightseagreen", "lightskyblue"]
  const ROW_14: seq<string> := ["lightslategray", "lightslategrey", "lightsteelblue", "lightyellow", "lime", "limegreen"]
  const ROW_15: seq<string> := ["linen", "magenta", "maroon", "mediumaquamarine", "mediumblue", "mediumorchid"]
  const ROW_16: seq<string> := ["mediumpurple", "mediumseagreen", "mediumslateblue", "mediumspringgreen", "mediumturquoise", "mediumvioletred"]
  const ROW_17: seq<string> := ["midnightblue", "mintcream", "mistyrose", "moccasin", "navajowhite", "navy"]
  const ROW_18: seq<string> := ["oldlace", "olive", "olivedrab", "orange", "orangered", "orchid"]
  const ROW_19: seq<string> := ["palegoldenrod", "palegreen", "paleturquoise", "palevioletred", "papayawhip", "peachpuff"]
  const ROW_20: seq<string> := ["peru", "pink", "plum", "powderblue", "purple", "rebeccapurple"]
  const ROW_21: seq<string> := ["red", "rosybrown", "royalblue", "saddlebrown", "salmon", "sandybrown"]
  const ROW_22: seq<string> := ["seagreen", "seashell", "sienna", "silver", "skyblue", "slateblue"]
  const ROW_23: seq<string> := ["slategray", "slategrey", "snow", "springgreen", "steelblue", "tan"]
  const ROW_24: seq<string> := ["teal", "thistle", "tomato", "turquoise", "violet", "wheat"]
  const ROW_25: seq<string> := ["white", "whitesmoke", "yellow", "yellowgreen"]

  /** `n` ends with the three characters `a`, `b`, `c`. */
  predicate EndsIn(n: string, a: char, b: char, c: char) {
    |n| >= 3 && n[|n| - 3] == a && n[|n| - 2] == b && n[|n| - 1] == c
  }

  /** `n` ends with `a`, `b`, `c` followed by `d`. */
  predicate EndsIn4(n: string, a: char, b: char, c: char, d: char) {
    |n| >= 4 && n[|n| - 4] == a && n[|n| - 3] == b && n[|n| - 2] == c && n[|n| - 1] == d
  }

  /** A name made of lower-case letters only, ending neither in `rgb`,
      `rgba`, `hsl` nor `hsla`: no match of the rgb or hsl pattern can start
      inside it and still leave a word boundary where the name ends. */
  predicate Plain(n: string) {
    && (forall c :: c in n ==> 'a' <= c <= 'z')
    && !EndsIn(n, 'r', 'g', 'b') && !EndsIn4(n, 'r', 'g', 'b', 'a')
    && !EndsIn(n, 'h', 's', 'l') && !EndsIn4(n, 'h', 's', 'l', 'a')
  }

  lemma Row1Plain() ensures forall n :: n in ROW_1 ==> Plain(n) { }
  lemma Row2Plain() ensures forall n :: n in ROW_2 ==> Plain(n) { }
  lemma Row3Plain() ensures forall n :: n in ROW_3 ==> Plain(n) { }
  lemma Row4Plain() ensures forall n :: n in ROW_4 ==> Plain(n) { }
  lemma Row5Plain() ensures forall n :: n in ROW_5 ==> Plain(n) { }
  lemma Row6Plain() ensures forall n :: n in ROW_6 ==> Plain(n) { }
  lemma Row7Plain() ensures forall n :: n in ROW_7 ==> Plain(n) { }
  lemma Row8Plain() ensures forall n :: n in ROW_8 ==> Plain(n) { }
  lemma Row9Plain() ensures forall n :: n in ROW_9 ==> Plain(n) { }
  lemma Row10Plain() ensures forall n :: n in ROW_10 ==> Plain(n) { }
  lemma Row11Plain() ensures forall n :: n in ROW_11 ==> Plain(n) { }
  lemma Row12Plain() ensures forall n :: n in ROW_12 ==> Plain(n) { }
  lemma Row13Plain() ensures forall n :: n in ROW_13 ==> Plain(n) { }
  lemma Row14Plain() ensures forall n :: n in ROW_14 ==> Plain(n) { }
  lemma Row15Plain() ensures forall n :: n in ROW_15 ==> Plain(n) { }
  lemma Row16Plain() ensures forall n :: n in ROW_16 ==> Plain(n) { }
  lemma Row17Plain() ensures forall n :: n in ROW_17 ==> Plain(n) { }
  lemma Row18Plain() ensures forall n :: n in ROW_18 ==> Plain(n) { }
  lemma Row19Plain() ensures forall n :: n in ROW_19 ==> Plain(n) { }
  lemma Row20Plain() ensures forall n :: n in ROW_20 ==> Plain(n) { }
  lemma Row21Plain() ensures forall n :: n in ROW_21 ==> Plain(n) { }
  lemma Row22Plain() ensures forall n :: n in ROW_22 ==> Plain(n) { }
  lemma Row23Plain() ensures forall n :: n in ROW_23 ==> Plain(n) { }
  lemma Row24Plain() ensures forall n :: n in ROW_24 ==> Plain(n) { }
  lemma Row25Plain() ensures forall n :: n in ROW_25 ==> Plain(n) { }

  /** Every name of the table is plain. */
  lemma TablePlain()
    ensures forall n :: n in CSS_NAMED_COLORS ==> Plain(n)
  {
    Row1Plain();
    Row2Plain();
    Row3Plain();
    Row4Plain();
    Row5Plain();
    Row6Plain();
    Row7Plain();
    Row8Plain();
    Row9Plain();
    Row10Plain();
    Row11Plain();
    Row12Plain();
    Row13Plain();
    Row14Plain();
    Row15Plain();
    Row16Plain();
    Row17Plain();
    Row18Plain();
    Row19Plain();
    Row20Plain();
    Row21Plain();
    Row22Plain();
    Row23Plain();
    Row24Plain();
    Row25Plain();
  }
}
