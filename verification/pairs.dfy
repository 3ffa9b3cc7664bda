/** The detection of foreground/background pairs in CSS rule blocks: for each
    `{ … }` block, the value of its first `color` declaration and of its first
    `background`/`background-color` declaration, each reduced to the first
    colour it holds. */
module PairDetection {
  import opened Text
  import opened Outcomes
  import opened ColorLib
  import opened Scanner
  import opened Parser

  function NotSemicolon(c: char): bool {
    c != ';'
  }

  /** `\s*:\s*([^;]+)` matched at position `i`: the captured value, or no
      match. When only white space stands between the colon and the next
      `;` or the end, the second `\s*` gives back its last character so that
      the capture is not empty. */
  function DeclValue(s: string, i: nat): (r: Option<string>)
    requires i <= |s|
    ensures r.Some? ==> |r.value| >= 1 && ';' !in r.value
  {
    var j := RunEnd(s, i, IsSpace);
    if j < |s| && s[j] == ':' then
      var k := RunEnd(s, j + 1, IsSpace);
      var e := RunEnd(s, k, NotSemicolon);
      if e > k then Some(s[k..e])
      else if k > j + 1 then Some(s[k - 1..k])
      else None
    else None
  }

  /** How the foreground declaration is recognised: as the source writes it
      (`color` anywhere, including the end of `background-color`), or only as
      a property name of its own. */
  datatype Reading = AsWritten | PropertyOnly

  /** The two declarations looked for in a rule. */
  datatype Property = Foreground(reading: Reading) | Background

  /** A character that can precede `color` inside a longer property name. */
  predicate NameCharAt(s: string, j: int) {
    0 <= j < |s| && (IsWordChar(s[j]) || s[j] == '-')
  }

  /** The property's pattern matched at position `i`: `/color\s*:\s*([^;]+)/i`
      or `/background(?:-color)?\s*:\s*([^;]+)/i` (the optional part tried
      first). */
  function ValueAt(s: string, i: nat, p: Property): Option<string> {
    match p
    case Foreground(reading) =>
      if MatchesIgnoreCase(s, i, "color") && (reading == AsWritten || !NameCharAt(s, i as int - 1))
      then DeclValue(s, i + 5) else None
    case Background =>
      if MatchesIgnoreCase(s, i, "background-color") && DeclValue(s, i + 16).Some? then DeclValue(s, i + 16)
      else if MatchesIgnoreCase(s, i, "background") then DeclValue(s, i + 10)
      else None
  }

  /** `matchAt` fails at every position from `from` up to `i` and succeeds at
      `i`. */
  predicate LeftmostAt(matchAt: nat -> Option<string>, from: nat, i: nat) {
    from <= i && matchAt(i).Some? && forall j :: from <= j < i ==> matchAt(j).None?
  }

  /** A non-global `match`: the capture at the leftmost position from `from`
      up to `last` where the pattern matches. */
  function FirstMatch(matchAt: nat -> Option<string>, from: nat, last: nat): (r: Option<string>)
    ensures r.None? <==> forall i :: from <= i <= last ==> matchAt(i).None?
    ensures r.Some? ==> exists i: nat :: i <= last && LeftmostAt(matchAt, from, i) && matchAt(i) == r
    decreases last - from
  {
    if from > last then None
    else if matchAt(from).Some? then
      assert LeftmostAt(matchAt, from, from);
      matchAt(from)
    else
      var r := FirstMatch(matchAt, from + 1, last);
      assert r.Some? ==> exists i: nat :: i <= last && LeftmostAt(matchAt, from, i) && matchAt(i) == r by {
        if r.Some? {
          var i: nat :| i <= last && LeftmostAt(matchAt, from + 1, i) && matchAt(i) == r;
          assert LeftmostAt(matchAt, from, i);
        }
      }
      r
  }

  /** When `i` is the leftmost match, the search yields its capture. */
  lemma LeftmostIs(matchAt: nat -> Option<string>, i: nat, last: nat)
    requires i <= last && matchAt(i).Some?
    requires forall j :: 0 <= j < i ==> matchAt(j).None?
    ensures FirstMatch(matchAt, 0, last) == matchAt(i)
  {
    var r := FirstMatch(matchAt, 0, last);
    var x: nat :| x <= last && LeftmostAt(matchAt, 0, x) && matchAt(x) == r;
    assert !(x < i) && !(i < x);
  }

  /** `content.match(pattern)` for the property's pattern, searching from
      `from`. */
  function FindValue(s: string, p: Property, from: nat): Option<string>
    decreases |s| - from
  {
    if from > |s| then None
    else if ValueAt(s, from, p).Some? then ValueAt(s, from, p)
    else FindValue(s, p, from + 1)
  }

  /** The search for a property is the leftmost match of its pattern. */
  lemma {:induction false} FindValueFirst(s: string, p: Property, from: nat)
    ensures FindValue(s, p, from) == FirstMatch((i: nat) => ValueAt(s, i, p), from, |s|)
    decreases |s| - from
  {
    if from <= |s| && ValueAt(s, from, p).None? {
      FindValueFirst(s, p, from + 1);
    }
  }

  datatype ColorPair = ColorPair(foreground: string, background: string, context: string)

  /** The rule blocks `/\{([^}]+)\}/g` finds, each at least one character
      between its braces. */
  function Rules(text: string): (r: seq<Span>)
    ensures forall k :: 0 <= k < |r| ==> r[k].start + 2 < r[k].end <= |text|
    ensures forall k :: 0 <= k < |r| ==> text[r[k].start] == '{' && text[r[k].end - 1] == '}'
    ensures Chained(r)
  {
    RulesShape(text);
    ScanAll(RulePattern, text)
  }

  lemma RulesShape(text: string)
    ensures forall k :: 0 <= k < |ScanAll(RulePattern, text)| ==>
      var sp := ScanAll(RulePattern, text)[k];
      sp.start + 2 < sp.end <= |text| && text[sp.start] == '{' && text[sp.end - 1] == '}'
  {
    forall k | 0 <= k < |ScanAll(RulePattern, text)|
      ensures var sp := ScanAll(RulePattern, text)[k];
        sp.start + 2 < sp.end <= |text| && text[sp.start] == '{' && text[sp.end - 1] == '}'
    {
      ScanAllMatches(RulePattern, text, k);
    }
  }

  /** One iteration of the loop over the rule blocks; `first` picks the
      first colour of a declaration value. */
  function PairIn(text: string, rule: Span, reading: Reading, first: string -> Option<string>): Option<ColorPair>
    requires rule.start + 2 < rule.end <= |text|
  {
    var content := text[rule.start + 1..rule.end - 1];
    PairOf(text[rule.start..rule.end], FindValue(content, Foreground(reading), 0), FindValue(content, Background, 0), first)
  }

  /** The pair a rule block yields from the values of its two declarations:
      the first colour in each, the context being the block's first fifty
      characters followed by an ellipsis. */
  function PairOf(block: string, fg: Option<string>, bg: Option<string>, first: string -> Option<string>): Option<ColorPair> {
    match (fg, bg)
    case (Some(f), Some(b)) =>
      (match (first(Trim(f)), first(Trim(b)))
       case (Some(fgColor), Some(bgColor)) =>
         Some(ColorPair(fgColor, bgColor, Substring(block, 0, 50) + "..."))
       case _ => None)
    case _ => None
  }

  /** The normalized value of the first colour `parseColors` finds in a
      text, if it finds any: a `#rrggbb` value. */
  function FirstColor(lib: Lib, s: string): (r: Option<string>)
    ensures r.None? <==> |ParseColors(lib, s)| == 0
    ensures Sound(lib) && r.Some? ==> IsHex6(r.value)
  {
    FirstPlacedHex(lib, s);
    var parsed := ParseColors(lib, s);
    if |parsed| > 0 then Some(parsed[0].normalized) else None
  }

  /** `FirstColor` with the library fixed. */
  function FirstColorWith(lib: Lib): string -> Option<string> {
    s => FirstColor(lib, s)
  }

  lemma FirstPlacedHex(lib: Lib, s: string)
    ensures Sound(lib) && |ParseColors(lib, s)| > 0 ==> IsHex6(ParseColors(lib, s)[0].normalized)
  {
    if Sound(lib) && |ParseColors(lib, s)| > 0 {
      assert Placed(lib, s, ParseColors(lib, s)[0]);
    }
  }

  function PairsOver(text: string, rules: seq<Span>, reading: Reading, first: string -> Option<string>): (r: seq<ColorPair>)
    requires forall k :: 0 <= k < |rules| ==> rules[k].start + 2 < rules[k].end <= |text|
    ensures |r| <= |rules|
  {
    if |rules| == 0 then []
    else
      var rest := PairsOver(text, rules[1..], reading, first);
      match PairIn(text, rules[0], reading, first)
      case Some(pair) => [pair] + rest
      case None => rest
  }

  /** `detectedColorPairs` with the given foreground reading: at most one
      pair per rule block, and with a sound library every pair is well
      shaped, under either reading. */
  function DetectPairsWith(lib: Lib, text: string, reading: Reading): (r: seq<ColorPair>)
    ensures |r| <= |Rules(text)|
    ensures Sound(lib) ==> forall p :: p in r ==> PairShaped(p)
  {
    RulesShaped(lib, text, reading);
    PairsOver(text, Rules(text), reading, FirstColorWith(lib))
  }

  /** With a sound library, the pairs read out of the rule blocks are well
      shaped. */
  lemma RulesShaped(lib: Lib, text: string, reading: Reading)
    ensures Sound(lib) ==> forall p :: p in PairsOver(text, Rules(text), reading, FirstColorWith(lib)) ==> PairShaped(p)
  {
    if Sound(lib) {
      PairsOverSound(text, Rules(text), reading, FirstColorWith(lib));
    }
  }

  /** `detectedColorPairs`, with the foreground read from a `color`
      declaration of its own (see `AsWrittenReadsBackground`). */
  function DetectPairs(lib: Lib, text: string): (r: seq<ColorPair>)
    ensures |r| <= |Rules(text)|
    ensures Sound(lib) ==> forall p :: p in r ==> PairShaped(p)
  {
    DetectPairsWith(lib, text, PropertyOnly)
  }

  /** A reported pair: both colours are normalized `#rrggbb` values, and the
      context is the start of a rule block, at most fifty characters of it,
      followed by an ellipsis. */
  predicate PairShaped(p: ColorPair) {
    && IsHex6(p.foreground) && IsHex6(p.background)
    && 4 <= |p.context| <= 53
    && p.context[0] == '{'
    && p.context[|p.context| - 3..] == "..."
  }

  /** `first` only ever picks `#rrggbb` values. */
  ghost predicate PicksHex(first: string -> Option<string>) {
    forall s :: first(s).Some? ==> IsHex6(first(s).value)
  }

  lemma {:induction false} PairsOverSound(text: string, rules: seq<Span>, reading: Reading, first: string -> Option<string>)
    requires PicksHex(first)
    requires forall k :: 0 <= k < |rules| ==> rules[k].start + 2 < rules[k].end <= |text|
    requires forall k :: 0 <= k < |rules| ==> text[rules[k].start] == '{'
    ensures forall p :: p in PairsOver(text, rules, reading, first) ==> PairShaped(p)
    decreases |rules|
  {
    if |rules| > 0 {
      PairsOverSound(text, rules[1..], reading, first);
      PairInSound(text, rules[0], reading, first);
    }
  }

  lemma PairInSound(text: string, rule: Span, reading: Reading, first: string -> Option<string>)
    requires PicksHex(first)
    requires rule.start + 2 < rule.end <= |text| && text[rule.start] == '{'
    ensures PairIn(text, rule, reading, first).Some? ==> PairShaped(PairIn(text, rule, reading, first).value)
  {
    var content := text[rule.start + 1..rule.end - 1];
    PairOfSound(text[rule.start..rule.end], FindValue(content, Foreground(reading), 0), FindValue(content, Background, 0), first);
  }

  lemma PairOfSound(block: string, fg: Option<string>, bg: Option<string>, first: string -> Option<string>)
    requires PicksHex(first)
    requires |block| >= 1 && block[0] == '{'
    ensures PairOf(block, fg, bg, first).Some? ==> PairShaped(PairOf(block, fg, bg, first).value)
  {
    ContextShaped(block);
  }

  lemma ContextShaped(block: string)
    requires |block| >= 1 && block[0] == '{'
    ensures var c := Substring(block, 0, 50) + "...";
      4 <= |c| <= 53 && c[0] == '{' && c[|c| - 3..] == "..."
  {
    var head := Substring(block, 0, 50);
    assert head == block[..Min(50, |block|)];
    var c := head + "...";
    assert c[|c| - 3..] == "...";
  }

  /** The declaration pattern fails exactly when no colon follows the name
      or nothing at all stands after the colon. */
  lemma DeclValueFound(s: string, i: nat)
    requires i <= |s|
    ensures var j := RunEnd(s, i, IsSpace);
      DeclValue(s, i).Some? <==> j < |s| && s[j] == ':' && j + 1 < |s| && s[j + 1] != ';'
  {
    var j := RunEnd(s, i, IsSpace);
    if j < |s| && s[j] == ':' {
      var k := RunEnd(s, j + 1, IsSpace);
      CaptureExists(s, j + 1, k, RunEnd(s, k, NotSemicolon));
    }
  }

  /** After the colon at `a - 1`, with the white space run ending at `k` and
      the non-`;` run ending at `e`, something is captured exactly when a
      character other than `;` follows the colon. */
  lemma CaptureExists(s: string, a: nat, k: nat, e: nat)
    requires a <= k <= e <= |s|
    requires forall x :: a <= x < k ==> IsSpace(s[x])
    requires k == |s| || !IsSpace(s[k])
    requires forall x :: k <= x < e ==> NotSemicolon(s[x])
    requires e == |s| || !NotSemicolon(s[e])
    ensures (e > k || k > a) <==> a < |s| && s[a] != ';'
  {
  }

  /** As written, the foreground pattern also matches inside a
      `background-color` declaration and reads its value. */
  lemma AsWrittenReadsBackground(s: string, i: nat)
    requires MatchesIgnoreCase(s, i, "background-color")
    ensures ValueAt(s, i + 11, Foreground(AsWritten)) == DeclValue(s, i + 16)
  {
    assert MatchesIgnoreCase(s, i + 11, "color") by {
      forall k | 0 <= k < 5 ensures LowerChar(s[i + 11 + k]) == "color"[k] {
        assert LowerChar(s[i + (11 + k)]) == "background-color"[11 + k];
      }
    }
  }

  /** Read as a property of its own, `color` is never found inside
      `background-color`. */
  lemma PropertyOnlySkipsBackground(s: string, i: nat)
    requires MatchesIgnoreCase(s, i, "background-color")
    ensures ValueAt(s, i + 11, Foreground(PropertyOnly)).None?
  {
    assert LowerChar(s[i + 10]) == "background-color"[10] == '-';
    assert NameCharAt(s, i + 10);
  }

  /** The two readings differ only where `color` ends a longer property
      name: without such a place they find the same foreground. */
  lemma {:induction false} ReadingsAgree(s: string, from: nat)
    requires forall i: nat :: MatchesIgnoreCase(s, i, "color") ==> !NameCharAt(s, i as int - 1)
    ensures FindValue(s, Foreground(AsWritten), from) == FindValue(s, Foreground(PropertyOnly), from)
    decreases |s| - from
  {
    if from <= |s| {
      assert ValueAt(s, from, Foreground(AsWritten)) == ValueAt(s, from, Foreground(PropertyOnly));
      ReadingsAgree(s, from + 1);
    }
  }

  /** The rule content of `{background-color:red;color:blue}`. */
  const SAMPLE: string := "background-color:red;color:blue"

  /** As written, a rule whose content opens with a `background-color`
      declaration gets that declaration's value as its foreground as well
      as its background. */
  lemma AsWrittenMisreads(s: string)
    requires MatchesIgnoreCase(s, 0, "background-color") && DeclValue(s, 16).Some?
    ensures FindValue(s, Foreground(AsWritten), 0) == DeclValue(s, 16)
    ensures FindValue(s, Background, 0) == DeclValue(s, 16)
  {
    AsWrittenReadsBackground(s, 0);
    forall j: nat | j < 11 ensures !MatchesIgnoreCase(s, j, "color") {
      NoColorInBackground(s, 0, j);
    }
    FindValueFirst(s, Foreground(AsWritten), 0);
    LeftmostIs((i: nat) => ValueAt(s, i, Foreground(AsWritten)), 11, |s|);
    FindValueFirst(s, Background, 0);
    LeftmostIs((i: nat) => ValueAt(s, i, Background), 0, |s|);
  }

  /** As written, the first match of the foreground pattern in `SAMPLE` is
      inside `background-color`, so foreground and background both read
      `red`. */
  lemma AsWrittenSample()
    ensures FindValue(SAMPLE, Foreground(AsWritten), 0) == Some("red")
    ensures FindValue(SAMPLE, Background, 0) == Some("red")
  {
    SampleRed();
    assert MatchesIgnoreCase(SAMPLE, 0, "background-color");
    AsWrittenMisreads(SAMPLE);
  }

  /** With `color` read as a property of its own, the foreground of
      `SAMPLE` is `blue`. */
  lemma PropertyOnlySample()
    ensures FindValue(SAMPLE, Foreground(PropertyOnly), 0) == Some("blue")
  {
    var s := SAMPLE;
    SampleNoEarlierColor();
    assert MatchesIgnoreCase(s, 21, "color");
    assert !NameCharAt(s, 20);
    SampleBlue();
    FindValueFirst(s, Foreground(PropertyOnly), 0);
    LeftmostIs((i: nat) => ValueAt(s, i, Foreground(PropertyOnly)), 21, |s|);
  }

  /** Read as a property of its own, no foreground declaration starts in
      `SAMPLE` before its `color`. */
  lemma SampleNoEarlierColor()
    ensures forall j: nat :: j < 21 ==> ValueAt(SAMPLE, j, Foreground(PropertyOnly)).None?
  {
    var s := SAMPLE;
    assert MatchesIgnoreCase(s, 0, "background-color");
    PropertyOnlySkipsBackground(s, 0);
    forall j: nat | j < 21 && j != 11 ensures !MatchesIgnoreCase(s, j, "color") {
      if j < 11 {
        NoColorInBackground(s, 0, j);
      } else {
        NoColorBetween(j);
      }
    }
  }

  lemma SampleRed()
    ensures DeclValue(SAMPLE, 16) == Some("red")
  {
    var s := SAMPLE;
    assert s[16] == ':' && s[17] == 'r' && s[18] == 'e' && s[19] == 'd' && s[20] == ';';
    DeclValueAt(s, 16, 20);
    assert s[17..20] == "red";
  }

  lemma SampleBlue()
    ensures DeclValue(SAMPLE, 26) == Some("blue")
  {
    var s := SAMPLE;
    assert s[26] == ':' && s[27] == 'b' && s[28] == 'l' && s[29] == 'u' && s[30] == 'e' && |s| == 31;
    DeclValueAt(s, 26, 31);
    assert s[27..31] == "blue";
  }

  /** A colon followed directly by a value that runs to a `;` or the end. */
  lemma DeclValueAt(s: string, i: nat, e: nat)
    requires i + 1 < e <= |s| && s[i] == ':' && !IsSpace(s[i + 1])
    requires forall x :: i + 1 <= x < e ==> s[x] != ';'
    requires e == |s| || s[e] == ';'
    ensures DeclValue(s, i) == Some(s[i + 1..e])
  {
    assert RunEnd(s, i, IsSpace) == i;
    assert RunEnd(s, i + 1, IsSpace) == i + 1;
    var f := RunEnd(s, i + 1, NotSemicolon);
    assert !(f < e) && !(e < f);
  }

  /** The text at `j` differs from `pat` at its `k`-th character. */
  lemma NotAt(s: string, j: nat, pat: string, k: nat)
    requires k < |pat|
    requires j + k < |s| ==> LowerChar(s[j + k]) != pat[k]
    ensures !MatchesIgnoreCase(s, j, pat)
  {
  }

  /** No `color` starts among the first eleven characters of a
      `background-color`. */
  lemma NoColorInBackground(s: string, i: nat, j: nat)
    requires MatchesIgnoreCase(s, i, "background-color")
    requires j < 11
    ensures !MatchesIgnoreCase(s, i + j, "color")
  {
    var pat := "background-color";
    if j == 2 {
      assert LowerChar(s[i + 3]) == pat[3] == 'k';
      NotAt(s, i + j, "color", 1);
    } else {
      assert LowerChar(s[i + j]) == pat[j];
      assert pat[j] != 'c';
      NotAt(s, i + j, "color", 0);
    }
  }

  lemma NoColorBetween(j: nat)
    requires 11 < j < 21
    ensures !MatchesIgnoreCase(SAMPLE, j, "color")
  {
    assert SAMPLE[j] != 'c';
    NotAt(SAMPLE, j, "color", 0);
  }
}
