/** Why the instances `parseColors` returns never overlap. Matches of one
    pattern follow one another. A match of one structured pattern cannot
    start inside a match of another, because the characters that open each
    pattern occur in no other. No structured match can start inside a named
    one, because every name is made of letters and none ends the way an
    `rgb`/`hsl` function name would have to. The named pass itself drops
    every match that starts inside a structured instance. */
module Overlap {
  import opened Text
  import opened Outcomes
  import opened Scanner
  import opened Sorting
  import opened ColorLib
  import opened Parser
  import opened Layout
  import NamedColors
  import Highlight
  import Replace

  /** What the arguments of `rgb()` and `hsl()` are made of: white space,
      digits, parentheses, commas, dots and percent signs. */
  predicate ArgChar(c: char) {
    IsSpace(c) || IsDigit(c) || c == '(' || c == ')' || c == ',' || c == '.' || c == '%'
  }

  /** A matcher step from `p` to `q` consumes argument characters only. */
  predicate Consumes(s: string, p: Option<nat>, q: Option<nat>) {
    q.Some? ==> p.Some? && p.value <= q.value <= |s| && forall k :: p.value <= k < q.value ==> ArgChar(s[k])
  }

  lemma Chain(s: string, p: Option<nat>, q: Option<nat>, r: Option<nat>)
    requires Consumes(s, p, q) && Consumes(s, q, r)
    ensures Consumes(s, p, r)
  {
    if r.Some? {
      forall k | p.value <= k < r.value ensures ArgChar(s[k]) {
        if k >= q.value { }
      }
    }
  }

  lemma SpacesConsume(s: string, p: Option<nat>)
    requires InText(s, p)
    ensures Consumes(s, p, Spaces(s, p))
  {
  }

  lemma CharConsumes(s: string, p: Option<nat>, c: char)
    requires InText(s, p) && ArgChar(c)
    ensures Consumes(s, p, Char(s, p, c))
  {
  }

  lemma DigitsConsume(s: string, p: Option<nat>)
    requires InText(s, p)
    ensures Consumes(s, p, Digits(s, p))
  {
  }

  lemma PercentConsumes(s: string, p: Option<nat>, percent: bool)
    requires InText(s, p)
    ensures Consumes(s, p, Percent(s, p, percent))
  {
  }

  lemma NumberCharsConsume(s: string, p: Option<nat>)
    requires InText(s, p)
    ensures Consumes(s, p, NumberChars(s, p))
  {
    if p.Some? {
      var e := RunEnd(s, p.value, IsNumberChar);
      assert forall k :: p.value <= k < e ==> IsNumberChar(s[k]);
    }
  }

  lemma CloseConsumes(s: string, p: Option<nat>)
    requires InText(s, p)
    ensures Consumes(s, p, Close(s, p))
  {
    if p.Some? && p.value < |s| && s[p.value] == ',' {
      var p1 := Some(p.value + 1);
      var p2 := Spaces(s, p1);
      var p3 := NumberChars(s, p2);
      var p4 := Spaces(s, p3);
      SpacesConsume(s, p1);
      NumberCharsConsume(s, p2);
      SpacesConsume(s, p3);
      CharConsumes(s, p4, ')');
      Chain(s, p1, p2, p3);
      Chain(s, p1, p3, p4);
      Chain(s, p1, p4, Close(s, p));
    }
  }

  /** The arguments of an rgb or hsl match hold argument characters only. */
  lemma ArgumentsConsume(s: string, j: nat, percent: bool)
    requires j <= |s|
    ensures Consumes(s, Some(j), Arguments(s, j, percent))
  {
    var p0 := Some(j);
    var p1 := Spaces(s, p0);
    var p2 := Char(s, p1, '(');
    var p3 := Spaces(s, p2);
    var p4 := Digits(s, p3);
    var p5 := Spaces(s, p4);
    var p6 := Char(s, p5, ',');
    var p7 := Spaces(s, p6);
    var p8 := Digits(s, p7);
    var p9 := Percent(s, p8, percent);
    var p10 := Spaces(s, p9);
    var p11 := Char(s, p10, ',');
    var p12 := Spaces(s, p11);
    var p13 := Digits(s, p12);
    var p14 := Percent(s, p13, percent);
    var p15 := Spaces(s, p14);
    var p16 := Close(s, p15);
    SpacesConsume(s, p0); CharConsumes(s, p1, '('); SpacesConsume(s, p2);
    DigitsConsume(s, p3); SpacesConsume(s, p4); CharConsumes(s, p5, ','); SpacesConsume(s, p6);
    DigitsConsume(s, p7); PercentConsumes(s, p8, percent); SpacesConsume(s, p9);
    CharConsumes(s, p10, ','); SpacesConsume(s, p11);
    DigitsConsume(s, p12); PercentConsumes(s, p13, percent); SpacesConsume(s, p14);
    CloseConsumes(s, p15);
    Chain(s, p0, p1, p2); Chain(s, p0, p2, p3); Chain(s, p0, p3, p4); Chain(s, p0, p4, p5);
    Chain(s, p0, p5, p6); Chain(s, p0, p6, p7); Chain(s, p0, p7, p8); Chain(s, p0, p8, p9);
    Chain(s, p0, p9, p10); Chain(s, p0, p10, p11); Chain(s, p0, p11, p12); Chain(s, p0, p12, p13);
    Chain(s, p0, p13, p14); Chain(s, p0, p14, p15); Chain(s, p0, p15, p16);
  }

  /** Where the arguments of an rgb or hsl match start: after the function
      name, and after an `a` when one follows it. */
  function ArgsStart(s: string, i: nat, name: string): nat {
    var j := i + |name|;
    if j < |s| && LowerChar(s[j]) == 'a' then j + 1 else j
  }

  /** An rgb or hsl match: the function name, then possibly an `a`, then at
      least one argument character and nothing else. */
  lemma FunctionShape(s: string, i: nat, name: string, percent: bool)
    requires i < |s|
    ensures var r := FunctionAt(s, i, name, percent);
      r.Some? ==>
        && MatchesIgnoreCase(s, i, name)
        && i + |name| <= ArgsStart(s, i, name) <= i + |name| + 1
        && (ArgsStart(s, i, name) == i + |name| + 1 ==> LowerChar(s[i + |name|]) == 'a')
        && ArgsStart(s, i, name) < r.value
        && forall k :: ArgsStart(s, i, name) <= k < r.value ==> ArgChar(s[k])
  {
    if MatchesIgnoreCase(s, i, name) {
      ArgumentsConsume(s, ArgsStart(s, i, name), percent);
    }
  }

  /** `c` is `l` in either case. */
  predicate Spells(c: char, l: char) {
    LowerChar(c) == l
  }

  /** The characters a match of a structured format can hold. */
  predicate InMatch(f: Format, c: char) {
    match f
    case Hex => c == '#' || IsHexDigit(c)
    case Rgb => Spells(c, 'r') || Spells(c, 'g') || Spells(c, 'b') || Spells(c, 'a') || ArgChar(c)
    case Hsl => Spells(c, 'h') || Spells(c, 's') || Spells(c, 'l') || Spells(c, 'a') || ArgChar(c)
    case Named => 'a' <= LowerChar(c) <= 'z'
  }

  /** The character a match of a structured format opens with. */
  predicate Opens(f: Format, c: char) {
    match f
    case Hex => c == '#'
    case Rgb => Spells(c, 'r')
    case Hsl => Spells(c, 'h')
    case Named => 'a' <= LowerChar(c) <= 'z'
  }

  /** A hex match opens with `#` and holds hex digits after it. */
  lemma HexShape(s: string, sp: Span)
    requires sp.start < |s| && HexAt(s, sp.start) == Some(sp.end)
    ensures Opens(Hex, s[sp.start])
    ensures forall k :: sp.start <= k < sp.end ==> InMatch(Hex, s[k])
  {
    forall k | sp.start <= k < sp.end ensures InMatch(Hex, s[k]) {
      if k > sp.start {
        assert IsHexDigit(s[k]);
      }
    }
  }

  /** What an rgb or hsl match from `i` to `e` is made of, with `k0` where its
      arguments start: the three letters of `name` in either case, possibly an
      `a`, then argument characters only. */
  predicate FunctionFacts(s: string, i: nat, name: string, k0: nat, e: nat) {
    && |name| == 3 && i + 3 <= k0 <= i + 4 && k0 < e <= |s|
    && (forall k :: i <= k < i + 3 ==> Spells(s[k], name[k - i]))
    && (k0 == i + 4 ==> Spells(s[i + 3], 'a'))
    && (forall k :: k0 <= k < e ==> ArgChar(s[k]))
  }

  lemma FunctionFactsHold(s: string, i: nat, name: string, percent: bool)
    requires i < |s| && |name| == 3
    ensures var r := FunctionAt(s, i, name, percent);
      r.Some? ==> FunctionFacts(s, i, name, ArgsStart(s, i, name), r.value)
  {
    FunctionShape(s, i, name, percent);
    var r := FunctionAt(s, i, name, percent);
    if r.Some? {
      forall k | i <= k < i + 3 ensures Spells(s[k], name[k - i]) {
        assert LowerChar(s[i + (k - i)]) == name[k - i];
      }
    }
  }

  /** Every character of an rgb or hsl match is a letter of its name, an `a`
      or an argument character. */
  lemma FunctionChars(s: string, i: nat, name: string, k0: nat, e: nat)
    requires FunctionFacts(s, i, name, k0, e)
    ensures Spells(s[i], name[0])
    ensures forall k :: i <= k < e ==>
             Spells(s[k], name[0]) || Spells(s[k], name[1]) || Spells(s[k], name[2])
             || Spells(s[k], 'a') || ArgChar(s[k])
  {
    forall k | i <= k < e
      ensures Spells(s[k], name[0]) || Spells(s[k], name[1]) || Spells(s[k], name[2])
              || Spells(s[k], 'a') || ArgChar(s[k])
    {
      if k < i + 3 && k < k0 {
        assert Spells(s[k], name[k - i]);
      }
    }
  }

  /** The function name an rgb or hsl pattern spells. */
  function NameOf(f: Format): string {
    if f == Rgb then "rgb" else "hsl"
  }

  /** A match of the rgb or hsl pattern is a function match of its name. */
  lemma FunctionMatchFacts(f: Format, s: string, sp: Span)
    requires f == Rgb || f == Hsl
    requires sp.start < |s| && MatchAt(PatternOf(f), s, sp.start) == Some(sp.end)
    ensures FunctionFacts(s, sp.start, NameOf(f), ArgsStart(s, sp.start, NameOf(f)), sp.end)
  {
    if f == Rgb {
      assert RgbAt(s, sp.start) == Some(sp.end);
      FunctionFactsHold(s, sp.start, "rgb", false);
    } else {
      assert HslAt(s, sp.start) == Some(sp.end);
      FunctionFactsHold(s, sp.start, "hsl", true);
    }
  }

  /** An rgb or hsl match opens with the first letter of its name and holds
      only the letters of its name, an `a` and argument characters. */
  lemma FunctionMatchShape(f: Format, s: string, i: nat, k0: nat, e: nat)
    requires f == Rgb || f == Hsl
    requires FunctionFacts(s, i, NameOf(f), k0, e)
    ensures Opens(f, s[i])
    ensures forall k :: i <= k < e ==> InMatch(f, s[k])
  {
    FunctionChars(s, i, NameOf(f), k0, e);
  }

  /** Each structured format opens with a character no other one holds. */
  lemma OpensOwn(f: Format, g: Format, c: char)
    requires f != Named && g != Named && f != g
    requires Opens(g, c)
    ensures !InMatch(f, c)
  {
  }

  /** Matches of two different structured formats never start inside each
      other. */
  lemma StructuredStartsApart(f: Format, g: Format, s: string, x: Span, y: Span)
    requires f != Named && g != Named && f != g
    requires x.start < |s| && MatchAt(PatternOf(f), s, x.start) == Some(x.end)
    requires y.start < |s| && MatchAt(PatternOf(g), s, y.start) == Some(y.end)
    ensures !(x.start <= y.start < x.end)
  {
    if x.start <= y.start < x.end {
      if f == Hex {
        HexShape(s, x);
      } else {
        FunctionMatchFacts(f, s, x);
        FunctionMatchShape(f, s, x.start, ArgsStart(s, x.start, NameOf(f)), x.end);
      }
      if g == Hex {
        HexShape(s, y);
      } else {
        FunctionMatchFacts(g, s, y);
        FunctionMatchShape(g, s, y.start, ArgsStart(s, y.start, NameOf(g)), y.end);
      }
      OpensOwn(f, g, s[y.start]);
      assert false;
    }
  }

  /** A name match: a plain name of the table, spelt at `i` ignoring case,
      with a word boundary after it. */
  lemma NamedShape(s: string, i: nat) returns (n: string)
    requires i < |s| && NamedAt(s, i).Some?
    ensures NamedColors.Plain(n) && MatchesIgnoreCase(s, i, n)
    ensures NamedAt(s, i).value == i + |n| && Boundary(s, i + |n|)
  {
    var names := NamedColors.CSS_NAMED_COLORS;
    var k :| 0 <= k < |names| && NamedAt(s, i).value == i + |names[k]| && MatchesIgnoreCase(s, i, names[k]);
    NamedColors.TablePlain();
    assert names[k] in names;
    n := names[k];
  }

  /** A character whose lower case is a letter is a letter. */
  lemma LetterIsWord(c: char)
    requires 'a' <= LowerChar(c) <= 'z'
    ensures IsWordChar(c) && !ArgChar(c) && c != '#'
  {
  }

  /** Every character of a name match is a letter. */
  lemma NamedLetters(s: string, a: nat, n: string)
    requires NamedColors.Plain(n) && MatchesIgnoreCase(s, a, n)
    ensures forall j :: a <= j < a + |n| ==> 'a' <= LowerChar(s[j]) <= 'z'
  {
    forall j | a <= j < a + |n| ensures 'a' <= LowerChar(s[j]) <= 'z' {
      assert LowerChar(s[a + (j - a)]) == n[j - a];
      assert n[j - a] in n;
    }
  }

  /** An rgb or hsl match cannot start inside a name match: the name would
      have to end in its function name, with or without the `a`, or the
      boundary after the name would fall between two letters. */
  lemma NoFunctionInsideName(s: string, a: nat, n: string, b: nat, name: string, k0: nat, e: nat)
    requires name == "rgb" || name == "hsl"
    requires NamedColors.Plain(n) && MatchesIgnoreCase(s, a, n) && Boundary(s, a + |n|)
    requires FunctionFacts(s, b, name, k0, e)
    ensures !(a <= b < a + |n|)
  {
    var m := a + |n|;
    if a <= b < m {
      NamedLetters(s, a, n);
      if m > k0 {
        LetterIsWord(s[k0]);
        assert false;
      }
      NameEndsInWord(s, a, n, b, name, k0, e);
      NameEndsInFunction(s, a, n, b, name, k0, e);
      NameEndsInFunctionA(s, a, n, b, name, k0, e);
    }
  }

  /** A name cannot end inside a function name: the boundary after it would
      fall between two letters. */
  lemma NameEndsInWord(s: string, a: nat, n: string, b: nat, name: string, k0: nat, e: nat)
    requires name == "rgb" || name == "hsl"
    requires NamedColors.Plain(n) && MatchesIgnoreCase(s, a, n) && Boundary(s, a + |n|)
    requires FunctionFacts(s, b, name, k0, e)
    requires forall j :: a <= j < a + |n| ==> 'a' <= LowerChar(s[j]) <= 'z'
    requires a <= b < a + |n|
    ensures a + |n| > b + 2
  {
    var m := a + |n|;
    if m <= b + 2 {
      assert Spells(s[m], name[m - b]);
      LetterIsWord(s[m]);
      assert false;
    }
  }

  /** A name cannot end exactly where a function name ends. */
  lemma NameEndsInFunction(s: string, a: nat, n: string, b: nat, name: string, k0: nat, e: nat)
    requires name == "rgb" || name == "hsl"
    requires NamedColors.Plain(n) && MatchesIgnoreCase(s, a, n)
    requires FunctionFacts(s, b, name, k0, e)
    requires a <= b
    ensures a + |n| != b + 3
  {
    if a + |n| == b + 3 {
      assert Spells(s[b], name[0]) && Spells(s[b + 1], name[1]) && Spells(s[b + 2], name[2]);
      assert Spells(s[a + (|n| - 3)], n[|n| - 3]);
      assert Spells(s[a + (|n| - 2)], n[|n| - 2]);
      assert Spells(s[a + (|n| - 1)], n[|n| - 1]);
      assert NamedColors.EndsIn(n, name[0], name[1], name[2]);
      assert false;
    }
  }

  /** A name cannot end exactly where a function name and its `a` end. */
  lemma NameEndsInFunctionA(s: string, a: nat, n: string, b: nat, name: string, k0: nat, e: nat)
    requires name == "rgb" || name == "hsl"
    requires NamedColors.Plain(n) && MatchesIgnoreCase(s, a, n)
    requires FunctionFacts(s, b, name, k0, e)
    requires a <= b
    ensures !(a + |n| == b + 4 == k0)
  {
    if a + |n| == b + 4 == k0 {
      assert Spells(s[b], name[0]) && Spells(s[b + 1], name[1]) && Spells(s[b + 2], name[2]);
      assert Spells(s[b + 3], 'a');
      assert Spells(s[a + (|n| - 4)], n[|n| - 4]);
      assert Spells(s[a + (|n| - 3)], n[|n| - 3]);
      assert Spells(s[a + (|n| - 2)], n[|n| - 2]);
      assert Spells(s[a + (|n| - 1)], n[|n| - 1]);
      assert NamedColors.EndsIn4(n, name[0], name[1], name[2], 'a');
      assert false;
    }
  }

  /** No hex, rgb or hsl match starts inside a name spelt at `a` and followed
      by a word boundary. */
  lemma NoneStartInsideName(f: Format, s: string, a: nat, n: string, y: Span)
    requires f != Named
    requires NamedColors.Plain(n) && MatchesIgnoreCase(s, a, n) && Boundary(s, a + |n|)
    requires y.start < |s| && MatchAt(PatternOf(f), s, y.start) == Some(y.end)
    ensures !(a <= y.start < a + |n|)
  {
    if f == Hex {
      if a <= y.start < a + |n| {
        assert HexAt(s, y.start) == Some(y.end);
        NamedLetters(s, a, n);
        LetterIsWord(s[y.start]);
        assert false;
      }
    } else {
      FunctionMatchFacts(f, s, y);
      NoFunctionInsideName(s, a, n, y.start, NameOf(f), ArgsStart(s, y.start, NameOf(f)), y.end);
    }
  }

  /** No hex, rgb or hsl match starts inside a named match. */
  lemma NoneStartInsideNamed(f: Format, s: string, x: Span, y: Span)
    requires f != Named
    requires x.start < |s| && NamedAt(s, x.start) == Some(x.end)
    requires y.start < |s| && MatchAt(PatternOf(f), s, y.start) == Some(y.end)
    ensures !(x.start <= y.start < x.end)
  {
    var n := NamedShape(s, x.start);
    NoneStartInsideName(f, s, x.start, n, y);
  }

  /** Instances that are apart within each of two lists and across them are
      apart in their concatenation. */
  lemma PairwiseConcat(a: seq<ParsedColor>, b: seq<ParsedColor>)
    requires Pairwise(a, Apart) && Pairwise(b, Apart)
    requires forall x, y :: x in a && y in b ==> Apart(x, y)
    ensures Pairwise(a + b, Apart)
  {
    var r := a + b;
    forall i, j | 0 <= i < j < |r| ensures Apart(r[i], r[j]) {
      if j < |a| {
        assert r[i] == a[i] && r[j] == a[j];
      } else if i >= |a| {
        assert r[i] == b[i - |a|] && r[j] == b[j - |a|];
      } else {
        assert r[i] == a[i] && r[j] == b[j - |a|];
        assert r[i] in a && r[j] in b;
      }
    }
  }

  /** The spans after the first are in bounds and chained too, and all start
      after the first one ends. */
  lemma ChainedTail(s: string, spans: seq<Span>)
    requires InBounds(s, spans) && Chained(spans) && |spans| > 0
    ensures InBounds(s, spans[1..]) && Chained(spans[1..])
    ensures forall j :: 0 <= j < |spans[1..]| ==> spans[0].end <= spans[1..][j].start
  {
    forall j | 0 <= j < |spans[1..]| ensures spans[0].end <= spans[1..][j].start {
      assert spans[1..][j] == spans[j + 1];
    }
  }

  /** The instances one structured loop records from a series of matches
      that follow one another do not overlap. */
  lemma {:induction false} AcceptValidApart(lib: Lib, s: string, spans: seq<Span>, f: Format)
    requires InBounds(s, spans) && Chained(spans)
    ensures Pairwise(AcceptValid(lib, s, spans, f), Apart)
    decreases |spans|
  {
    if |spans| > 0 {
      var sp := spans[0];
      var head := if lib.isValid(s[sp.start..sp.end]) then [Found(lib, s, sp, f)] else [];
      var rest := AcceptValid(lib, s, spans[1..], f);
      assert AcceptValid(lib, s, spans, f) == head + rest;
      ChainedTail(s, spans);
      AcceptValidApart(lib, s, spans[1..], f);
      assert forall x :: x in head ==> x.endIndex == sp.end;
      forall x, y | x in head && y in rest ensures Apart(x, y) {
        assert Span(y.startIndex, y.endIndex) in spans[1..];
      }
      PairwiseConcat(head, rest);
    }
  }

  /** The named matches the parser keeps do not overlap. */
  lemma {:induction false} KeptNamedApart(lib: Lib, s: string, spans: seq<Span>, structured: seq<ParsedColor>)
    requires InBounds(s, spans) && Chained(spans)
    ensures Pairwise(KeptNamed(lib, s, spans, structured), Apart)
    decreases |spans|
  {
    if |spans| > 0 {
      var sp := spans[0];
      var head := if Keep(lib, s, structured, sp) then [Found(lib, s, sp, Named)] else [];
      var rest := KeptNamed(lib, s, spans[1..], structured);
      assert KeptNamed(lib, s, spans, structured) == head + rest;
      ChainedTail(s, spans);
      KeptNamedApart(lib, s, spans[1..], structured);
      assert forall x :: x in head ==> x.endIndex == sp.end;
      forall x, y | x in head && y in rest ensures Apart(x, y) {
        var j :| 0 <= j < |spans[1..]| && Keep(lib, s, structured, spans[1..][j])
                 && y == Found(lib, s, spans[1..][j], Named);
      }
      PairwiseConcat(head, rest);
    }
  }

  /** Recorded instances of two different structured formats do not
      overlap. */
  lemma DifferentFormatsApart(lib: Lib, s: string, a: ParsedColor, b: ParsedColor)
    requires Placed(lib, s, a) && Placed(lib, s, b)
    requires a.format != Named && b.format != Named && a.format != b.format
    requires Span(a.startIndex, a.endIndex) in ScanAll(PatternOf(a.format), s)
    requires Span(b.startIndex, b.endIndex) in ScanAll(PatternOf(b.format), s)
    ensures Apart(a, b)
  {
    var x, y := Span(a.startIndex, a.endIndex), Span(b.startIndex, b.endIndex);
    ScanAllMember(PatternOf(a.format), s, x);
    ScanAllMember(PatternOf(b.format), s, y);
    StructuredStartsApart(a.format, b.format, s, x, y);
    StructuredStartsApart(b.format, a.format, s, y, x);
  }

  /** The loops of distinct structured formats record instances that do not
      overlap. */
  lemma {:induction false} LoopsApart(lib: Lib, s: string, formats: seq<Format>)
    requires Named !in formats
    requires forall i, j :: 0 <= i < j < |formats| ==> formats[i] != formats[j]
    ensures Pairwise(Loops(lib, s, formats), Apart)
    decreases |formats|
  {
    if |formats| > 0 {
      var f := formats[0];
      var here := AcceptValid(lib, s, ScanAll(PatternOf(f), s), f);
      var rest := Loops(lib, s, formats[1..]);
      assert Loops(lib, s, formats) == here + rest;
      AcceptValidApart(lib, s, ScanAll(PatternOf(f), s), f);
      LoopsApart(lib, s, formats[1..]);
      forall x, y | x in here && y in rest ensures Apart(x, y) {
        var j :| 0 <= j < |formats[1..]| && formats[1..][j] == y.format;
        assert formats[j + 1] == y.format;
        DifferentFormatsApart(lib, s, x, y);
      }
      PairwiseConcat(here, rest);
    }
  }

  /** A reported name match is a match of the name pattern at its range. */
  lemma NamedMatchOf(s: string, sp: Span)
    requires sp in ScanAll(NamedPattern, s)
    ensures sp.start < |s| && NamedAt(s, sp.start) == Some(sp.end)
  {
    ScanAllMember(NamedPattern, s, sp);
  }

  /** A kept named match starts outside every structured instance. */
  lemma KeptStartsOutside(lib: Lib, s: string, a: ParsedColor, sp: Span, structured: seq<ParsedColor>)
    requires a in structured && sp.start <= sp.end <= |s|
    requires Keep(lib, s, structured, sp)
    ensures !(a.startIndex <= sp.start < a.endIndex)
  {
    var k :| 0 <= k < |structured| && structured[k] == a;
  }

  /** A named match kept by the parser does not overlap any hex, rgb or hsl
      instance: it starts outside each of them, and none of them starts
      inside it. */
  lemma KeptApartFromStructured(lib: Lib, s: string, a: ParsedColor, sp: Span, structured: seq<ParsedColor>)
    requires a in structured && Placed(lib, s, a) && a.format != Named
    requires Span(a.startIndex, a.endIndex) in ScanAll(PatternOf(a.format), s)
    requires sp in ScanAll(NamedPattern, s) && sp.start < sp.end <= |s|
    requires Keep(lib, s, structured, sp)
    ensures Apart(a, Found(lib, s, sp, Named))
  {
    var x := Span(a.startIndex, a.endIndex);
    ScanAllMember(PatternOf(a.format), s, x);
    NamedMatchOf(s, sp);
    NoneStartInsideNamed(a.format, s, sp, x);
    KeptStartsOutside(lib, s, a, sp, structured);
  }

  /** No kept named match overlaps a hex, rgb or hsl instance. */
  lemma StructuredApartFromNamed(lib: Lib, s: string)
    ensures var st := Structured(lib, s);
      forall x, y :: x in st && y in KeptNamed(lib, s, ScanAll(NamedPattern, s), st) ==> Apart(x, y)
  {
    var st := Structured(lib, s);
    var spans := ScanAll(NamedPattern, s);
    forall x, y | x in st && y in KeptNamed(lib, s, spans, st) ensures Apart(x, y) {
      var k :| 0 <= k < |spans| && Keep(lib, s, st, spans[k]) && y == Found(lib, s, spans[k], Named);
      KeptApartFromStructured(lib, s, x, spans[k], st);
    }
  }

  /** What the parser records does not overlap. */
  lemma CollectedApart(lib: Lib, s: string)
    ensures Pairwise(Collected(lib, s), Apart)
  {
    var st := Structured(lib, s);
    var spans := ScanAll(NamedPattern, s);
    CollectedSplits(lib, s);
    LoopsApart(lib, s, [Hex, Rgb, Hsl]);
    KeptNamedApart(lib, s, spans, st);
    StructuredApartFromNamed(lib, s);
    PairwiseConcat(st, KeptNamed(lib, s, spans, st));
  }

  /** Sorting and stamping keep instances apart. */
  lemma FinishApart(colors: seq<ParsedColor>)
    requires Pairwise(colors, Apart)
    ensures Pairwise(Finish(colors), Apart)
  {
    SortByPairwise(colors, StartKey, Apart);
    var sorted := SortBy(colors, StartKey);
    var r := Finish(colors);
    forall i, j | 0 <= i < j < |r| ensures Apart(r[i], r[j]) {
      assert Apart(sorted[i], sorted[j]);
    }
  }

  /** No two instances `parseColors` returns overlap. */
  lemma ParseColorsApart(lib: Lib, s: string)
    ensures Pairwise(ParseColors(lib, s), Apart)
  {
    CollectedApart(lib, s);
    FinishApart(Collected(lib, s));
  }

  /** The instances `parseColors` returns lie in the text. */
  lemma ParsedInText(lib: Lib, s: string)
    ensures forall c :: c in ParseColors(lib, s) ==> c.startIndex < c.endIndex <= |s|
  {
    var r := ParseColors(lib, s);
    forall c | c in r ensures c.startIndex < c.endIndex <= |s| {
      var k :| 0 <= k < |r| && r[k] == c;
    }
  }

  /** Highlighting a non-empty text with its own parse: the text cut at the
      instances in order of position, each gap escaped and each instance
      marked. */
  lemma ParsedMarkupWeaves(lib: Lib, value: string, selected: Option<string>, placeholder: Option<string>)
    requires |value| > 0
    ensures var parsed := ParseColors(lib, value);
      var sorted := SortBy(parsed, StartKey);
      && Ordered(value, sorted, 0)
      && Highlight.HighlightedMarkup(value, parsed, selected, placeholder)
         == Weave(value, sorted, 0, Highlight.EscapeHtml,
                  (c: ParsedColor) => Highlight.Mark(Substring(value, c.startIndex, c.endIndex), c, selected))
  {
    ParsedInText(lib, value);
    ParseColorsApart(lib, value);
    Highlight.MarkupWeaves(value, ParseColors(lib, value), selected, placeholder);
  }

  /** Replacing in a text with its own parse: the text between the chosen
      instances is kept and each chosen instance is replaced in its own
      notation. */
  lemma ParsedReplaceWeaves(lib: Lib, text: string, target: string, replacement: string,
                            mode: Replace.Mode, selectedIds: Option<seq<string>>)
    ensures var parsed := ParseColors(lib, text);
      var asc := Reverse(SortBy(Replace.Filter(parsed, target, mode, selectedIds), Replace.LaterFirst));
      && Ordered(text, asc, 0)
      && (forall c :: c in asc <==> c in parsed && Replace.Chosen(c, target, mode, selectedIds))
      && Replace.ReplaceColor(lib, text, parsed, target, replacement, mode, selectedIds)
         == if lib.isValid(replacement)
            then Weave(text, asc, 0, s => s, c => Replace.ReplacementText(lib, c, replacement))
            else text
  {
    ParsedInText(lib, text);
    ParseColorsApart(lib, text);
    Replace.ReplaceColorWeaves(lib, text, ParseColors(lib, text), target, replacement, mode, selectedIds);
  }
}
