/** The backdrop of the text editor: the text as HTML with every colour
    instance wrapped in a `<mark>`, the selected value in its own style. */
module Highlight {
  import opened Text
  import opened Sorting
  import opened Outcomes
  import opened Parser
  import opened Layout

  /** `text.replace(/<target>/g, replacement)` for a one-character pattern. */
  function ReplaceAll(s: string, target: char, replacement: string): string
  {
    if |s| == 0 then ""
    else (if s[0] == target then replacement else [s[0]]) + ReplaceAll(s[1..], target, replacement)
  }

  /** The seven replacement passes of `escapeHtml`, in order: ampersands
      first, so that the later entities are not escaped again. */
  const PASSES: seq<(char, string)> :=
    [('&', "&amp;"), ('<', "&lt;"), ('>', "&gt;"), ('"', "&quot;"), ('\'', "&#039;"),
     ('\n', "<br>"), (' ', "&nbsp;")]

  /** The passes from the `from`-th on, applied one after the other. */
  function Passes(s: string, from: nat): string
    requires from <= |PASSES|
    decreases |PASSES| - from
  {
    if from == |PASSES| then s
    else Passes(ReplaceAll(s, PASSES[from].0, PASSES[from].1), from + 1)
  }

  /** `escapeHtml(text)`: the seven passes in order escape each character
      on its own. */
  function EscapeHtml(s: string): (r: string)
    ensures r == EscapeEach(s)
  {
    PassesEach(s);
    Passes(s, 0)
  }

  /** What one character becomes in the escaped text. */
  function EscapeChar(c: char): string {
    match c
    case '&' => "&amp;"
    case '<' => "&lt;"
    case '>' => "&gt;"
    case '"' => "&quot;"
    case '\'' => "&#039;"
    case '\n' => "<br>"
    case ' ' => "&nbsp;"
    case _ => [c]
  }

  /** Escaping character by character. */
  function EscapeEach(s: string): string {
    if |s| == 0 then "" else EscapeChar(s[0]) + EscapeEach(s[1..])
  }

  lemma {:induction false} ReplaceAllConcat(a: string, b: string, target: char, replacement: string)
    ensures ReplaceAll(a + b, target, replacement) == ReplaceAll(a, target, replacement) + ReplaceAll(b, target, replacement)
    decreases |a|
  {
    if |a| > 0 {
      assert (a + b)[0] == a[0];
      assert (a + b)[1..] == a[1..] + b;
      ReplaceAllConcat(a[1..], b, target, replacement);
    } else {
      assert a + b == b;
    }
  }

  /** Escaping a concatenation escapes each part. */
  lemma {:induction false} PassesConcat(a: string, b: string, from: nat)
    requires from <= |PASSES|
    ensures Passes(a + b, from) == Passes(a, from) + Passes(b, from)
    decreases |PASSES| - from
  {
    if from < |PASSES| {
      var t, rep := PASSES[from].0, PASSES[from].1;
      ReplaceAllConcat(a, b, t, rep);
      PassesConcat(ReplaceAll(a, t, rep), ReplaceAll(b, t, rep), from + 1);
    }
  }

  /** Passes whose characters the text does not contain leave it alone. */
  lemma {:induction false} PassesAbsent(s: string, from: nat)
    requires from <= |PASSES|
    requires forall k :: from <= k < |PASSES| ==> PASSES[k].0 !in s
    ensures Passes(s, from) == s
    decreases |PASSES| - from
  {
    if from < |PASSES| {
      ReplaceAbsent(s, PASSES[from].0, PASSES[from].1);
      PassesAbsent(s, from + 1);
    }
  }

  /** A single character passes untouched until the pass for it, which
      replaces it. */
  lemma {:induction false} PassesReach(c: char, from: nat, k: nat)
    requires from <= k < |PASSES| && PASSES[k].0 == c
    requires forall j :: from <= j < k ==> PASSES[j].0 != c
    ensures Passes([c], from) == Passes(PASSES[k].1, k + 1)
    decreases k - from
  {
    Pass([c], PASSES[from].0, PASSES[from].1);
    if from < k {
      PassesReach(c, from + 1, k);
    }
  }

  lemma {:induction false} ReplaceAbsent(s: string, target: char, replacement: string)
    requires target !in s
    ensures ReplaceAll(s, target, replacement) == s
    decreases |s|
  {
    if |s| > 0 {
      ReplaceAbsent(s[1..], target, replacement);
    }
  }

  /** A pass on one character, or on text without the pass's character. */
  lemma Pass(s: string, target: char, replacement: string)
    requires |s| == 1 || target !in s
    ensures ReplaceAll(s, target, replacement) == if target in s then replacement else s
  {
    if |s| == 1 {
      assert s[1..] == "";
    }
  }

  /** One character goes through the seven passes to its own escape. */
  lemma EscapeSingle(c: char)
    ensures Passes([c], 0) == EscapeChar(c)
  {
    if c == '&' {
      Replaced(c, 0);
    } else if c == '<' {
      Replaced(c, 1);
    } else if c == '>' {
      Replaced(c, 2);
    } else if c == '"' {
      Replaced(c, 3);
    } else if c == '\'' {
      Replaced(c, 4);
    } else if c == '\n' {
      Replaced(c, 5);
    } else if c == ' ' {
      Replaced(c, 6);
    } else {
      PassesAbsent([c], 0);
    }
  }

  /** A character with a pass of its own comes out as that pass's entity. */
  lemma Replaced(c: char, k: nat)
    requires k < |PASSES| && PASSES[k].0 == c
    ensures Passes([c], 0) == PASSES[k].1
  {
    PassKeysDistinct();
    PassesReach(c, 0, k);
    LaterPassesAbsent(k);
    PassesAbsent(PASSES[k].1, k + 1);
  }

  /** No two passes replace the same character. */
  lemma PassKeysDistinct()
    ensures forall i, j :: 0 <= i < j < |PASSES| ==> PASSES[i].0 != PASSES[j].0
  {
  }

  /** No entity holds a character that a later pass replaces. */
  lemma LaterPassesAbsent(k: nat)
    requires k < |PASSES|
    ensures forall j :: k < j < |PASSES| ==> PASSES[j].0 !in PASSES[k].1
  {
    if k == 0 {
      assert "&amp;" == ['&', 'a', 'm', 'p', ';'];
    } else if k == 1 {
      assert "&lt;" == ['&', 'l', 't', ';'];
    } else if k == 2 {
      assert "&gt;" == ['&', 'g', 't', ';'];
    } else if k == 3 {
      assert "&quot;" == ['&', 'q', 'u', 'o', 't', ';'];
    } else if k == 4 {
      assert "&#039;" == ['&', '#', '0', '3', '9', ';'];
    } else if k == 5 {
      assert "<br>" == ['<', 'b', 'r', '>'];
    }
  }

  /** The seven passes together escape each character on its own: no pass
      touches what an earlier one produced. */
  lemma {:induction false} PassesEach(s: string)
    ensures Passes(s, 0) == EscapeEach(s)
    decreases |s|
  {
    if |s| == 0 {
    } else {
      assert s == [s[0]] + s[1..];
      PassesConcat([s[0]], s[1..], 0);
      EscapeSingle(s[0]);
      PassesEach(s[1..]);
    }
  }

  /** Reading escaped text back: each entity (and `<br>`) stands for its
      character, anything else for itself. The character after `&` tells
      which entity can stand there. */
  function Unescape(s: string): string
    decreases |s|
  {
    if |s| == 0 then ""
    else if s[0] == '<' && |s| >= 4 && s[..4] == "<br>" then "\n" + Unescape(s[4..])
    else if s[0] != '&' || |s| < 2 then [s[0]] + Unescape(s[1..])
    else if s[1] == 'a' && |s| >= 5 && s[..5] == "&amp;" then "&" + Unescape(s[5..])
    else if s[1] == 'l' && |s| >= 4 && s[..4] == "&lt;" then "<" + Unescape(s[4..])
    else if s[1] == 'g' && |s| >= 4 && s[..4] == "&gt;" then ">" + Unescape(s[4..])
    else if s[1] == 'q' && |s| >= 6 && s[..6] == "&quot;" then "\"" + Unescape(s[6..])
    else if s[1] == '#' && |s| >= 6 && s[..6] == "&#039;" then "'" + Unescape(s[6..])
    else if s[1] == 'n' && |s| >= 6 && s[..6] == "&nbsp;" then " " + Unescape(s[6..])
    else [s[0]] + Unescape(s[1..])
  }

  lemma UnescapeChar(c: char, rest: string)
    ensures Unescape(EscapeChar(c) + rest) == [c] + Unescape(rest)
  {
    if c == '&' {
      UnescapeEntity(0, rest);
    } else if c == '<' {
      UnescapeEntity(1, rest);
    } else if c == '>' {
      UnescapeEntity(2, rest);
    } else if c == '"' {
      UnescapeEntity(3, rest);
    } else if c == '\'' {
      UnescapeEntity(4, rest);
    } else if c == '\n' {
      UnescapeEntity(5, rest);
    } else if c == ' ' {
      UnescapeEntity(6, rest);
    } else {
      var s := [c] + rest;
      assert s[0] == c && s[1..] == rest;
    }
  }

  /** Each entity reads back as its character. */
  lemma UnescapeEntity(k: nat, rest: string)
    requires k < |PASSES|
    ensures Unescape(PASSES[k].1 + rest) == [PASSES[k].0] + Unescape(rest)
  {
    var e := PASSES[k].1;
    var s := e + rest;
    assert s[..|e|] == e && s[|e|..] == rest;
    assert s[0] == e[0] && s[1] == e[1];
  }

  /** Escaping loses nothing: the text can be read back. */
  lemma {:induction false} UnescapeEscape(s: string)
    ensures Unescape(EscapeHtml(s)) == s
    decreases |s|
  {
    if |s| > 0 {
      UnescapeChar(s[0], EscapeEach(s[1..]));
      UnescapeEscape(s[1..]);
    }
  }

  /** Text with none of the seven escaped characters is left as it is. */
  lemma EscapePlain(s: string)
    requires forall k :: 0 <= k < |PASSES| ==> PASSES[k].0 !in s
    ensures EscapeHtml(s) == s
  {
    PassesAbsent(s, 0);
  }

  /** No quote, apostrophe, line break or space, every `<` opens a `<br>`
      and every `>` closes one: text that cannot leave an attribute or open
      or close an element. */
  predicate Inert(r: string) {
    && '"' !in r && '\'' !in r && '\n' !in r && ' ' !in r
    && (forall i :: 0 <= i < |r| && r[i] == '<' ==> i + 4 <= |r| && r[i..i + 4] == "<br>")
    && (forall i :: 0 <= i < |r| && r[i] == '>' ==> 3 <= i && r[i - 3..i + 1] == "<br>")
  }

  /** Escaped text is inert. */
  lemma {:induction false} EscapedIsInert(s: string)
    ensures Inert(EscapeHtml(s))
  {
    EachInert(s);
  }

  lemma {:induction false} EachInert(s: string)
    ensures Inert(EscapeEach(s))
    decreases |s|
  {
    if |s| > 0 {
      CharInert(s[0]);
      EachInert(s[1..]);
      InertConcat(EscapeChar(s[0]), EscapeEach(s[1..]));
    } else {
      assert EscapeEach(s) == "";
    }
  }

  lemma CharInert(c: char)
    ensures Inert(EscapeChar(c))
  {
    var e := EscapeChar(c);
    if c == '\n' {
      assert e == "<br>";
      assert forall i :: 0 <= i < |e| && e[i] == '<' ==> i == 0;
      assert forall i :: 0 <= i < |e| && e[i] == '>' ==> i == 3;
    } else {
      assert '<' !in e && '>' !in e;
    }
  }

  lemma InertConcat(a: string, b: string)
    requires Inert(a) && Inert(b)
    ensures Inert(a + b)
  {
    var r := a + b;
    forall i | 0 <= i < |r| && r[i] == '<' ensures i + 4 <= |r| && r[i..i + 4] == "<br>" {
      if i < |a| {
        assert a[i] == '<';
        assert r[i..i + 4] == a[i..i + 4];
      } else {
        assert b[i - |a|] == '<';
        assert r[i..i + 4] == b[i - |a|..i - |a| + 4];
      }
    }
    forall i | 0 <= i < |r| && r[i] == '>' ensures 3 <= i && r[i - 3..i + 1] == "<br>" {
      if i < |a| {
        assert a[i] == '>';
        assert r[i - 3..i + 1] == a[i - 3..i + 1];
      } else {
        assert b[i - |a|] == '>';
        assert r[i - 3..i + 1] == b[i - |a| - 3..i - |a| + 1];
      }
    }
  }

  /** The common start of both mark tags, up to the first colour word. */
  const MARK_OPEN := "<mark class=\"bg-"
  const SELECTED_MARK := MARK_OPEN + "blue" + "-300 dark:bg-blue-700 text-inherit font-bold border-2 border-blue-600 rounded-sm px-0.5 -mx-0.5\">"
  const PLAIN_MARK := MARK_OPEN + "yellow" + "-200 dark:bg-yellow-800/50 text-inherit rounded-sm px-0.5 -mx-0.5\">"

  /** The highlight of one instance whose text is `colorText`. */
  function Mark(colorText: string, c: ParsedColor, selected: Option<string>): string {
    (if selected == Some(c.normalized) then SELECTED_MARK else PLAIN_MARK) + EscapeHtml(colorText) + "</mark>"
  }

  /** A mark opens in the selected style exactly when the instance has the
      selected value, and closes after the escaped instance text. */
  lemma MarkStyle(colorText: string, c: ParsedColor, selected: Option<string>)
    ensures var m := Mark(colorText, c, selected);
      && (OccursAt(m, 0, SELECTED_MARK) <==> selected == Some(c.normalized))
      && (OccursAt(m, 0, PLAIN_MARK) <==> selected != Some(c.normalized))
      && OccursAt(m, |m| - 7, "</mark>")
  {
    var m := Mark(colorText, c, selected);
    var open := if selected == Some(c.normalized) then SELECTED_MARK else PLAIN_MARK;
    var inner := EscapeHtml(colorText) + "</mark>";
    assert m == open + inner;
    assert m[..|open|] == open;
    assert m[|m| - 7..] == "</mark>";
    assert (MARK_OPEN + "blue")[16] == 'b' && (MARK_OPEN + "yellow")[16] == 'y';
    if open == SELECTED_MARK {
      assert m[16] == 'b';
    } else {
      assert m[16] == 'y';
    }
  }

  /** The `forEach` over the sorted instances from `lastIndex` on, then the
      remaining text. */
  function Emit(value: string, cs: seq<ParsedColor>, selected: Option<string>, lastIndex: nat): string
    decreases |cs|
  {
    if |cs| == 0 then
      if lastIndex < |value| then EscapeHtml(SubstringFrom(value, lastIndex)) else ""
    else
      var c := cs[0];
      (if c.startIndex > lastIndex then EscapeHtml(Substring(value, lastIndex, c.startIndex)) else "")
      + Mark(Substring(value, c.startIndex, c.endIndex), c, selected)
      + Emit(value, cs[1..], selected, c.endIndex)
  }

  /** `generateHighlightedMarkup()`; `placeholder` is `None` when absent. */
  function HighlightedMarkup(value: string, parsed: seq<ParsedColor>, selected: Option<string>,
                             placeholder: Option<string>): (r: string)
    ensures |value| == 0 ==> r == "<span class=\"text-muted-foreground\">" + placeholder.GetOr("") + "</span>"
    ensures |value| > 0 && |parsed| == 0 ==> r == EscapeHtml(value)
  {
    if |value| == 0 then "<span class=\"text-muted-foreground\">" + placeholder.GetOr("") + "</span>"
    else Emit(value, SortBy(parsed, StartKey), selected, 0)
  }

  /** A list sorted by start whose instances do not overlap is ordered. */
  lemma SortedOrdered(text: string, cs: seq<ParsedColor>)
    requires SortedBy(cs, StartKey) && Pairwise(cs, Apart)
    requires forall c :: c in cs ==> c.startIndex < c.endIndex <= |text|
    ensures Ordered(text, cs, 0)
  {
    forall a, b | 0 <= a < b < |cs| ensures cs[a].endIndex <= cs[b].startIndex {
      assert StartKey(cs[a]) <= StartKey(cs[b]);
      assert Apart(cs[a], cs[b]);
    }
  }

  /** On ordered instances the emitting loop escapes each gap and marks each
      instance. */
  lemma {:induction false} EmitWeaves(value: string, cs: seq<ParsedColor>, selected: Option<string>, from: nat)
    requires from <= |value| && Ordered(value, cs, from)
    ensures Emit(value, cs, selected, from)
            == Weave(value, cs, from, EscapeHtml,
                     (c: ParsedColor) => Mark(Substring(value, c.startIndex, c.endIndex), c, selected))
    decreases |cs|
  {
    if |cs| == 0 {
      assert EscapeHtml("") == "";
    } else {
      var c := cs[0];
      assert c.startIndex == from ==> EscapeHtml(value[from..c.startIndex]) == "" by {
        assert c.startIndex == from ==> value[from..c.startIndex] == "";
      }
      EmitWeaves(value, cs[1..], selected, c.endIndex);
    }
  }

  /** The markup of a non-empty text whose instances do not overlap: the
      text cut at the instances in order of position, each gap escaped and
      each instance marked, the instances with the selected value in the
      selected style. */
  lemma MarkupWeaves(value: string, parsed: seq<ParsedColor>, selected: Option<string>, placeholder: Option<string>)
    requires |value| > 0
    requires forall c :: c in parsed ==> c.startIndex < c.endIndex <= |value|
    requires Pairwise(parsed, Apart)
    ensures var sorted := SortBy(parsed, StartKey);
      && Ordered(value, sorted, 0)
      && HighlightedMarkup(value, parsed, selected, placeholder)
         == Weave(value, sorted, 0, EscapeHtml,
                  (c: ParsedColor) => Mark(Substring(value, c.startIndex, c.endIndex), c, selected))
  {
    var sorted := SortBy(parsed, StartKey);
    SortByPairwise(parsed, StartKey, Apart);
    forall c | c in sorted ensures c.startIndex < c.endIndex <= |value| {
      assert c in multiset(parsed);
    }
    SortedOrdered(value, sorted);
    EmitWeaves(value, sorted, selected, 0);
  }
}
