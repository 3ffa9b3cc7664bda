/** `replaceColor`: rewriting every chosen instance of one colour, in the
    notation of that instance. */
module Replace {
  import opened Text
  import opened Outcomes
  import opened ColorLib
  import opened Parser
  import opened Sorting
  import opened Layout
  import Decimal

  datatype Mode = All | Selective

  /** The filter of the loop: the instance has the target value and, in
      selective mode with a list of ids, its id is on the list. */
  predicate Chosen(c: ParsedColor, target: string, mode: Mode, selectedIds: Option<seq<string>>) {
    c.normalized == target && (mode == Selective && selectedIds.Some? ==> c.id in selectedIds.value)
  }

  function Filter(parsed: seq<ParsedColor>, target: string, mode: Mode,
                  selectedIds: Option<seq<string>>): (r: seq<ParsedColor>)
    ensures forall c :: c in r <==> c in parsed && Chosen(c, target, mode, selectedIds)
  {
    if |parsed| == 0 then []
    else
      var rest := Filter(parsed[1..], target, mode, selectedIds);
      assert forall c :: c in parsed <==> c == parsed[0] || c in parsed[1..];
      (if Chosen(parsed[0], target, mode, selectedIds) then [parsed[0]] else []) + rest
  }

  /** The sort key of `(a, b) => b.startIndex - a.startIndex`: later starts
      first. */
  function LaterFirst(c: ParsedColor): int {
    -(c.startIndex as int)
  }

  /** `Math.round`: the nearest integer, halves rounded up. */
  function Round(x: real): (r: int)
    ensures x - 0.5 < r as real <= x + 0.5
  {
    (x + 0.5).Floor
  }

  /** The hsl notation, with or without alpha. */
  function HslText(lib: Lib, hsl: Hsla, alpha: bool): string {
    var h := Decimal.IntToString(Round(hsl.h));
    var s := Decimal.IntToString(Round(hsl.s * 100.0));
    var l := Decimal.IntToString(Round(hsl.l * 100.0));
    if alpha then "hsla(" + (h + "," + s + "%," + l + "%," + lib.numberToString(hsl.a) + ")")
    else "hsl(" + (h + "," + s + "%," + l + "%)")
  }

  /** The rgb notation, with or without alpha. */
  function RgbText(lib: Lib, rgb: Rgba, alpha: bool): string {
    var n := lib.numberToString;
    if alpha then "rgba(" + (n(rgb.r) + "," + n(rgb.g) + "," + n(rgb.b) + "," + n(rgb.a) + ")")
    else "rgb(" + (n(rgb.r) + "," + n(rgb.g) + "," + n(rgb.b) + ")")
  }

  /** What replaces instance `c`: the replacement colour in the notation of
      `c`. Hex stays six-digit hex unless the original had nine characters,
      rgb and hsl keep their function name and its alpha form exactly when
      the original names it, and a named instance takes the replacement as
      typed. */
  function ReplacementText(lib: Lib, c: ParsedColor, replacement: string): (t: string)
    ensures c.format == Hex && |c.original| != 9 && Sound(lib) && lib.isValid(replacement) ==> IsHex6(t)
    ensures c.format == Hex && |c.original| == 9 ==> t == lib.toHex8String(replacement)
    ensures c.format == Rgb ==> (OccursAt(t, 0, "rgba(") <==> Contains(Lower(c.original), "rgba"))
                                && (OccursAt(t, 0, "rgb(") || OccursAt(t, 0, "rgba("))
    ensures c.format == Hsl ==> (OccursAt(t, 0, "hsla(") <==> Contains(Lower(c.original), "hsla"))
                                && (OccursAt(t, 0, "hsl(") || OccursAt(t, 0, "hsla("))
    ensures c.format == Named ==> t == replacement
  {
    match c.format
    case Rgb =>
      RgbNotation(lib, lib.toRgb(replacement), Contains(Lower(c.original), "rgba"));
      RgbText(lib, lib.toRgb(replacement), Contains(Lower(c.original), "rgba"))
    case Hsl =>
      HslNotation(lib, lib.toHsl(replacement), Contains(Lower(c.original), "hsla"));
      HslText(lib, lib.toHsl(replacement), Contains(Lower(c.original), "hsla"))
    case Hex => if |c.original| == 9 then lib.toHex8String(replacement) else lib.toHexString(replacement)
    case Named => replacement
  }

  /** One step of the loop: `before + replacementStr + after`. */
  function Splice(result: string, c: ParsedColor, text: string): string {
    Substring(result, 0, c.startIndex) + text + SubstringFrom(result, c.endIndex)
  }

  function SpliceAll(result: string, cs: seq<ParsedColor>, piece: ParsedColor -> string): string
    decreases |cs|
  {
    if |cs| == 0 then result
    else SpliceAll(Splice(result, cs[0], piece(cs[0])), cs[1..], piece)
  }

  /** `replaceColor(text, parsedColors, targetColor, replacement, mode,
      selectedIds)`. */
  function ReplaceColor(lib: Lib, text: string, parsed: seq<ParsedColor>, target: string,
                        replacement: string, mode: Mode, selectedIds: Option<seq<string>>): (r: string)
    ensures !lib.isValid(replacement) ==> r == text
  {
    if !lib.isValid(replacement) then text
    else
      var chosen := SortBy(Filter(parsed, target, mode, selectedIds), LaterFirst);
      SpliceAll(text, chosen, c => ReplacementText(lib, c, replacement))
  }

  /** The rgb notation starts `rgba(` exactly when alpha is asked for, and
      `rgb(` otherwise. */
  lemma RgbNotation(lib: Lib, rgb: Rgba, alpha: bool)
    ensures var t := RgbText(lib, rgb, alpha);
      (OccursAt(t, 0, "rgba(") <==> alpha) && (OccursAt(t, 0, "rgb(") || OccursAt(t, 0, "rgba("))
  {
    var n := lib.numberToString;
    if alpha {
      OpensWith("rgba(", n(rgb.r) + "," + n(rgb.g) + "," + n(rgb.b) + "," + n(rgb.a) + ")");
    } else {
      var t := RgbText(lib, rgb, alpha);
      OpensWith("rgb(", n(rgb.r) + "," + n(rgb.g) + "," + n(rgb.b) + ")");
      assert t[3] == '(';
    }
  }

  /** The hsl notation starts `hsla(` exactly when alpha is asked for, and
      `hsl(` otherwise. */
  lemma HslNotation(lib: Lib, hsl: Hsla, alpha: bool)
    ensures var t := HslText(lib, hsl, alpha);
      (OccursAt(t, 0, "hsla(") <==> alpha) && (OccursAt(t, 0, "hsl(") || OccursAt(t, 0, "hsla("))
  {
    var h := Decimal.IntToString(Round(hsl.h));
    var s := Decimal.IntToString(Round(hsl.s * 100.0));
    var l := Decimal.IntToString(Round(hsl.l * 100.0));
    if alpha {
      OpensWith("hsla(", h + "," + s + "%," + l + "%," + lib.numberToString(hsl.a) + ")");
    } else {
      var t := HslText(lib, hsl, alpha);
      OpensWith("hsl(", h + "," + s + "%," + l + "%)");
      assert t[3] == '(';
    }
  }

  lemma OpensWith(a: string, b: string)
    ensures OccursAt(a + b, 0, a)
  {
    assert (a + b)[0..|a|] == a;
  }

  /** Splicing inside a prefix leaves what follows it alone. */
  lemma SpliceAllPrefix(p: string, q: string, cs: seq<ParsedColor>, piece: ParsedColor -> string)
    requires Ordered(p, cs, 0)
    ensures SpliceAll(p + q, Reverse(cs), piece) == SpliceAll(p, Reverse(cs), piece) + q
  {
    var ds := Reverse(cs);
    var n := |cs|;
    forall a, b | 0 <= a < b < n ensures ds[b].endIndex <= ds[a].startIndex {
      assert ds[a] == cs[n - 1 - a] && ds[b] == cs[n - 1 - b];
    }
    SpliceAllAppend(p, q, ds, piece);
  }

  /** The instances lie within `p`, each one before the one preceding it in
      the list: the order in which they are spliced. */
  predicate Descending(p: string, ds: seq<ParsedColor>) {
    && (forall k :: 0 <= k < |ds| ==> ds[k].startIndex <= ds[k].endIndex <= |p|)
    && (forall a, b :: 0 <= a < b < |ds| ==> ds[b].endIndex <= ds[a].startIndex)
  }

  lemma {:induction false} SpliceAllAppend(p: string, q: string, ds: seq<ParsedColor>,
                                           piece: ParsedColor -> string)
    requires Descending(p, ds)
    ensures SpliceAll(p + q, ds, piece) == SpliceAll(p, ds, piece) + q
    decreases |ds|
  {
    if |ds| > 0 {
      var x := ds[0];
      var p' := Splice(p, x, piece(x));
      SpliceAppend(p, q, x, piece(x));
      assert Descending(p', ds[1..]) by {
        assert forall k :: 0 <= k < |ds[1..]| ==> ds[1..][k] == ds[k + 1];
      }
      SpliceAllAppend(p', q, ds[1..], piece);
    }
  }

  /** One splice inside `p` keeps `p`'s text before the instance, with or
      without `q` after it. */
  lemma SpliceAppend(p: string, q: string, x: ParsedColor, t: string)
    requires x.startIndex <= x.endIndex <= |p|
    ensures Splice(p + q, x, t) == Splice(p, x, t) + q
    ensures |Splice(p, x, t)| >= x.startIndex
  {
    SpliceWithin(p, q, x, t);
    var pre, post := p[..x.startIndex], t + p[x.endIndex..];
    assert pre + (post + q) == (pre + post) + q;
  }

  lemma SpliceAllCons(result: string, x: ParsedColor, rest: seq<ParsedColor>, piece: ParsedColor -> string)
    ensures SpliceAll(result, [x] + rest, piece) == SpliceAll(Splice(result, x, piece(x)), rest, piece)
  {
    assert ([x] + rest)[1..] == rest;
  }

  /** One splice inside `p`, with or without `q` after it. */
  lemma SpliceWithin(p: string, q: string, x: ParsedColor, t: string)
    requires x.startIndex <= x.endIndex <= |p|
    ensures Splice(p + q, x, t) == p[..x.startIndex] + ((t + p[x.endIndex..]) + q)
    ensures Splice(p, x, t) == p[..x.startIndex] + (t + p[x.endIndex..])
  {
    assert (p + q)[..x.startIndex] == p[..x.startIndex];
    assert (p + q)[x.endIndex..] == p[x.endIndex..] + q;
  }

  /** Applying the splices from the last instance to the first is the same
      as weaving the replacements into the text from the front. */
  lemma {:induction false} SpliceAllWeaves(text: string, cs: seq<ParsedColor>,
                                           piece: ParsedColor -> string)
    requires Ordered(text, cs, 0)
    ensures SpliceAll(text, Reverse(cs), piece) == Weave(text, cs, 0, s => s, piece)
    decreases |cs|
  {
    if |cs| == 0 {
      assert text[0..] == text;
    } else {
      var x := cs[|cs| - 1];
      var init := cs[..|cs| - 1];
      var head := text[..x.startIndex];
      var tail := piece(x) + text[x.endIndex..];
      ReverseSnoc(cs);
      SpliceAllCons(text, x, Reverse(init), piece);
      SpliceWithin(text, "", x, piece(x));
      assert text + "" == text;
      WeaveSnoc(text, cs, 0, s => s, piece);
      SpliceAllPrefix(head, tail, init, piece);
      SpliceAllWeaves(head, init, piece);
      assert head + tail == head + piece(x) + text[x.endIndex..];
    }
  }

  lemma {:induction false} FilterApart(parsed: seq<ParsedColor>, target: string, mode: Mode,
                                       selectedIds: Option<seq<string>>)
    requires Pairwise(parsed, Apart)
    ensures Pairwise(Filter(parsed, target, mode, selectedIds), Apart)
  {
    if |parsed| > 0 {
      FilterApart(parsed[1..], target, mode, selectedIds);
      var rest := Filter(parsed[1..], target, mode, selectedIds);
      forall y | y in rest ensures Apart(parsed[0], y) {
        var j :| 0 <= j < |parsed[1..]| && parsed[1..][j] == y;
        assert parsed[j + 1] == y;
      }
    }
  }

  /** A list sorted by later start whose instances do not overlap is, read
      backwards, in ascending order. */
  lemma ReversedOrdered(text: string, desc: seq<ParsedColor>)
    requires SortedBy(desc, LaterFirst) && Pairwise(desc, Apart)
    requires forall c :: c in desc ==> c.startIndex < c.endIndex <= |text|
    ensures Ordered(text, Reverse(desc), 0)
  {
    var asc := Reverse(desc);
    var n := |desc|;
    forall a, b | 0 <= a < b < n ensures asc[a].endIndex <= asc[b].startIndex {
      assert asc[a] == desc[n - 1 - a] && asc[b] == desc[n - 1 - b];
      assert LaterFirst(desc[n - 1 - b]) <= LaterFirst(desc[n - 1 - a]);
      assert Apart(desc[n - 1 - b], desc[n - 1 - a]);
      assert desc[n - 1 - a] in desc;
    }
    forall k | 0 <= k < n ensures asc[k].startIndex < asc[k].endIndex <= |text| {
      assert asc[k] == desc[n - 1 - k];
      assert desc[n - 1 - k] in desc;
    }
  }

  /** When the instances of the list do not overlap, `replaceColor` leaves
      the text between the chosen instances as it is and puts the
      replacement, in each instance's own notation, in place of each chosen
      instance; the chosen instances, in ascending order, are exactly those
      with the target value that the selection admits. */
  lemma ReplaceColorWeaves(lib: Lib, text: string, parsed: seq<ParsedColor>, target: string,
                           replacement: string, mode: Mode, selectedIds: Option<seq<string>>)
    requires forall c :: c in parsed ==> c.startIndex < c.endIndex <= |text|
    requires Pairwise(parsed, Apart)
    ensures var asc := Reverse(SortBy(Filter(parsed, target, mode, selectedIds), LaterFirst));
      && Ordered(text, asc, 0)
      && (forall c :: c in asc <==> c in parsed && Chosen(c, target, mode, selectedIds))
      && ReplaceColor(lib, text, parsed, target, replacement, mode, selectedIds)
         == if lib.isValid(replacement)
            then Weave(text, asc, 0, s => s, c => ReplacementText(lib, c, replacement))
            else text
  {
    var chosen := Filter(parsed, target, mode, selectedIds);
    var desc := SortBy(chosen, LaterFirst);
    var asc := Reverse(desc);
    assert Ordered(text, asc, 0) by {
      FilterApart(parsed, target, mode, selectedIds);
      SortByPairwise(chosen, LaterFirst, Apart);
      forall c | c in desc ensures c.startIndex < c.endIndex <= |text| {
        assert c in multiset(chosen);
      }
      ReversedOrdered(text, desc);
    }
    forall c ensures c in asc <==> c in chosen {
      ReverseMultiset(desc);
      assert c in asc <==> c in multiset(asc);
      assert c in chosen <==> c in multiset(chosen);
    }
    if lib.isValid(replacement) {
      ReverseReverse(desc);
      SpliceAllWeaves(text, asc, c => ReplacementText(lib, c, replacement));
    }
  }
}
