/** Hand-written matchers for the regular expressions of the colour engine,
    and the `exec` loop of a global (`/g`) regex over a text.

    Each matcher answers, for a start position, where the match the regex
    engine would report there ends. Where a pattern could backtrack, the
    comment at the matcher says why backtracking cannot produce a different
    match, so taking the longest run of each repeated class is exact. */
module Scanner {
  import opened Text
  import opened Outcomes
  import NamedColors

  /** A half-open range [start, end) of a text. */
  datatype Span = Span(start: nat, end: nat)

  /** The four literal patterns of the parser and the rule-block pattern of
      the colour-pair detector. */
  datatype Pattern = HexPattern | RgbPattern | HslPattern | NamedPattern | RulePattern

  /** `s[j]` exists and is a word character. */
  predicate WordAt(s: string, j: int) {
    0 <= j < |s| && IsWordChar(s[j])
  }

  /** Regex `\b` at position `j`: a word character on exactly one side. */
  predicate Boundary(s: string, j: nat) {
    WordAt(s, j - 1) != WordAt(s, j)
  }

  /** End of the longest run of characters of a class starting at `i`. */
  function RunEnd(s: string, i: nat, inClass: char -> bool): (j: nat)
    requires i <= |s|
    ensures i <= j <= |s|
    ensures forall k :: i <= k < j ==> inClass(s[k])
    ensures j == |s| || !inClass(s[j])
    decreases |s| - i
  {
    if i < |s| && inClass(s[i]) then RunEnd(s, i + 1, inClass) else i
  }

  /** A position of the text, or a failed match. */
  predicate InText(s: string, p: Option<nat>) {
    p.Some? ==> p.value <= |s|
  }

  /** `\s*` */
  function Spaces(s: string, p: Option<nat>): (r: Option<nat>)
    requires InText(s, p)
    ensures InText(s, r) && (r.Some? <==> p.Some?)
    ensures r.Some? ==> p.value <= r.value && (r.value == |s| || !IsSpace(s[r.value]))
  {
    if p.None? then None else Some(RunEnd(s, p.value, IsSpace))
  }

  /** A literal character. */
  function Char(s: string, p: Option<nat>, c: char): (r: Option<nat>)
    requires InText(s, p)
    ensures InText(s, r)
    ensures r.Some? <==> p.Some? && p.value < |s| && s[p.value] == c
    ensures r.Some? ==> r.value == p.value + 1
  {
    if p.Some? && p.value < |s| && s[p.value] == c then Some(p.value + 1) else None
  }

  /** `\d{1,3}`. Whatever follows it in every pattern is not a digit, so a
      shorter run than the longest never helps the match along: a run of four
      or more digits fails. */
  function Digits(s: string, p: Option<nat>): (r: Option<nat>)
    requires InText(s, p)
    ensures InText(s, r)
    ensures r.Some? ==> p.Some? && p.value + 1 <= r.value <= p.value + 3
    ensures r.Some? ==> forall k :: p.value <= k < r.value ==> IsDigit(s[k])
    ensures r.Some? ==> r.value == |s| || !IsDigit(s[r.value])
  {
    if p.None? then None
    else
      var e := RunEnd(s, p.value, IsDigit);
      if 1 <= e - p.value <= 3 then Some(e) else None
  }

  /** Conversely, a run of one to three digits that ends at a non-digit or
      at the end of the text is always taken whole. */
  lemma DigitsTakesRun(s: string, i: nat, e: nat)
    requires i + 1 <= e <= i + 3 && e <= |s|
    requires forall k :: i <= k < e ==> IsDigit(s[k])
    requires e == |s| || !IsDigit(s[e])
    ensures Digits(s, Some(i)) == Some(e)
  {
    var j := RunEnd(s, i, IsDigit);
    assert !(j < e);
    assert !(e < j);
  }

  /** `%` when `percent` holds, nothing otherwise. */
  function Percent(s: string, p: Option<nat>, percent: bool): (r: Option<nat>)
    requires InText(s, p)
    ensures InText(s, r)
    ensures r.Some? ==> p.Some? && p.value <= r.value
  {
    if percent then Char(s, p, '%') else p
  }

  predicate IsNumberChar(c: char) {
    IsDigit(c) || c == '.'
  }

  /** `[\d.]+`, always followed by `\s*\)`, neither of which is in the class. */
  function NumberChars(s: string, p: Option<nat>): (r: Option<nat>)
    requires InText(s, p)
    ensures InText(s, r)
    ensures r.Some? ==> p.Some? && p.value < r.value
  {
    if p.None? then None
    else
      var e := RunEnd(s, p.value, IsNumberChar);
      if e > p.value then Some(e) else None
  }

  /** `(?:,\s*([\d.]+)\s*)?\)`. The optional group is tried first and needs a
      comma; leaving it out needs a `)` at the same place, so at most one of
      the two can succeed. */
  function Close(s: string, p: Option<nat>): (r: Option<nat>)
    requires InText(s, p)
    ensures InText(s, r)
    ensures r.Some? ==> p.Some? && p.value < r.value && s[r.value - 1] == ')'
  {
    if p.None? || p.value == |s| then None
    else if s[p.value] == ')' then Some(p.value + 1)
    else if s[p.value] == ',' then
      Char(s, Spaces(s, NumberChars(s, Spaces(s, Some(p.value + 1)))), ')')
    else None
  }

  /** What follows the function name in the rgb and hsl patterns:
      `\s*\(\s*(\d{1,3})\s*,\s*(\d{1,3})P\s*,\s*(\d{1,3})P\s*(?:,\s*([\d.]+)\s*)?\)`
      where `P` is `%` for hsl and empty for rgb. */
  function Arguments(s: string, j: nat, percent: bool): (r: Option<nat>)
    requires j <= |s|
    ensures InText(s, r)
    ensures r.Some? ==> j < r.value
  {
    var open := Spaces(s, Char(s, Spaces(s, Some(j)), '('));
    var first := Spaces(s, Char(s, Spaces(s, Digits(s, open)), ','));
    var second := Spaces(s, Char(s, Spaces(s, Percent(s, Digits(s, first), percent)), ','));
    var third := Spaces(s, Percent(s, Digits(s, second), percent));
    Close(s, third)
  }

  /** `#([0-9a-fA-F]{3}|[0-9a-fA-F]{6}|[0-9a-fA-F]{8})\b`: the alternatives
      are tried in order, each followed by the word boundary. */
  function HexAt(s: string, i: nat): (r: Option<nat>)
    requires i < |s|
    ensures r.Some? ==> i < r.value <= |s|
    ensures r.Some? ==>
      && s[i] == '#'
      && (r.value == i + 4 || r.value == i + 7 || r.value == i + 9)
      && HexDigitsAt(s, i + 1, r.value - i - 1) && Boundary(s, r.value)
    ensures r.Some? && r.value > i + 4 ==> !(HexDigitsAt(s, i + 1, 3) && Boundary(s, i + 4))
    ensures r.None? && s[i] == '#' ==>
      && !(HexDigitsAt(s, i + 1, 3) && Boundary(s, i + 4))
      && !(HexDigitsAt(s, i + 1, 6) && Boundary(s, i + 7))
      && !(HexDigitsAt(s, i + 1, 8) && Boundary(s, i + 9))
  {
    if s[i] != '#' then None
    else if HexDigitsAt(s, i + 1, 3) && Boundary(s, i + 4) then Some(i + 4)
    else if HexDigitsAt(s, i + 1, 6) && Boundary(s, i + 7) then Some(i + 7)
    else if HexDigitsAt(s, i + 1, 8) && Boundary(s, i + 9) then Some(i + 9)
    else None
  }

  predicate HexDigitsAt(s: string, i: nat, n: nat) {
    i + n <= |s| && forall k :: i <= k < i + n ==> IsHexDigit(s[k])
  }

  /** `rgba?` followed by the arguments, case-insensitively. An `a` after
      `rgb` is always taken: without it the next thing must be a space or
      `(`, which `a` is not. */
  function RgbAt(s: string, i: nat): (r: Option<nat>)
    requires i < |s|
    ensures r.Some? ==> i < r.value <= |s|
  {
    FunctionAt(s, i, "rgb", false)
  }

  /** `hsla?` followed by the arguments with percentages, case-insensitively. */
  function HslAt(s: string, i: nat): (r: Option<nat>)
    requires i < |s|
    ensures r.Some? ==> i < r.value <= |s|
  {
    FunctionAt(s, i, "hsl", true)
  }

  function FunctionAt(s: string, i: nat, name: string, percent: bool): (r: Option<nat>)
    requires i < |s|
    ensures r.Some? ==> i < r.value <= |s|
  {
    if !MatchesIgnoreCase(s, i, name) then None
    else
      var j := i + |name|;
      var k := if j < |s| && LowerChar(s[j]) == 'a' then j + 1 else j;
      Arguments(s, k, percent)
  }

  /** `\b(aliceblue|antiquewhite|...)\b` with the `gi` flags: the first name
      of the table, in table order, that the text spells at `i` (ignoring
      case) with a word boundary on both sides. */
  function NamedAt(s: string, i: nat): (r: Option<nat>)
    requires i < |s|
    ensures r.Some? ==> i < r.value <= |s|
  {
    if Boundary(s, i) then FirstName(s, i, NamedColors.CSS_NAMED_COLORS) else None
  }

  /** The table holds no empty name; skipping empty candidates only keeps
      this well-founded without inspecting the table. */
  function FirstName(s: string, i: nat, names: seq<string>): (r: Option<nat>)
    ensures r.Some? ==> i < r.value <= |s|
    ensures r.Some? ==> exists k :: 0 <= k < |names| && r.value == i + |names[k]|
                                    && MatchesIgnoreCase(s, i, names[k])
    ensures r.Some? ==> Boundary(s, r.value)
  {
    if |names| == 0 then None
    else if |names[0]| > 0 && MatchesIgnoreCase(s, i, names[0]) && Boundary(s, i + |names[0]|) then
      Some(i + |names[0]|)
    else
      var r := FirstName(s, i, names[1..]);
      if r.Some? then
        var k :| 0 <= k < |names[1..]| && r.value == i + |names[1..][k]|
                 && MatchesIgnoreCase(s, i, names[1..][k]);
        assert names[1..][k] == names[k + 1];
        r
      else r
  }

  /** `\{([^}]+)\}`: an opening brace, at least one character other than a
      closing brace, then the first closing brace. */
  function RuleAt(s: string, i: nat): (r: Option<nat>)
    requires i < |s|
    ensures r.Some? ==> i + 2 < r.value <= |s| && s[i] == '{' && s[r.value - 1] == '}'
    ensures r.Some? ==> forall k :: i < k < r.value - 1 ==> s[k] != '}'
  {
    if s[i] != '{' then None
    else
      var e := RunEnd(s, i + 1, c => c != '}');
      if e > i + 1 && e < |s| then Some(e + 1) else None
  }

  function MatchAt(p: Pattern, s: string, i: nat): (r: Option<nat>)
    requires i < |s|
    ensures r.Some? ==> i < r.value <= |s|
  {
    match p
    case HexPattern => HexAt(s, i)
    case RgbPattern => RgbAt(s, i)
    case HslPattern => HslAt(s, i)
    case NamedPattern => NamedAt(s, i)
    case RulePattern => RuleAt(s, i)
  }

  /** The matcher of a pattern over a whole text, as a function of the start
      position. */
  function Matcher(p: Pattern, s: string): (m: nat -> Option<nat>)
    ensures Matches(m, |s|)
  {
    (j: nat) => if j < |s| then MatchAt(p, s, j) else None
  }

  /** A matcher over a text of length `n`: every match is non-empty and ends
      inside the text. */
  ghost predicate Matches(m: nat -> Option<nat>, n: nat) {
    forall j: nat :: m(j).Some? ==> j < m(j).value <= n
  }

  /** The spans follow one another without overlapping. */
  predicate Chained(r: seq<Span>) {
    forall a, b :: 0 <= a < b < |r| ==> r[a].end <= r[b].start
  }

  /** Position `k` lies in one of the spans. */
  predicate Covered(r: seq<Span>, k: nat) {
    exists j :: 0 <= j < |r| && r[j].start <= k < r[j].end
  }

  /** `while ((x = re.exec(s)) !== null)` from position `i`: the leftmost
      match at or after the current position is reported, and the search
      resumes where it ended. */
  function Scan(m: nat -> Option<nat>, n: nat, i: nat): (r: seq<Span>)
    requires Matches(m, n) && i <= n
    ensures forall k :: 0 <= k < |r| ==> i <= r[k].start < r[k].end <= n
    ensures forall k :: 0 <= k < |r| ==> m(r[k].start) == Some(r[k].end)
    ensures Chained(r)
    decreases n - i
  {
    if i == n then []
    else
      match m(i)
      case Some(e) => [Span(i, e)] + Scan(m, n, e)
      case None => Scan(m, n, i + 1)
  }

  /** All matches of a pattern in a text, as the global regex reports them. */
  function ScanAll(p: Pattern, s: string): (r: seq<Span>)
    ensures forall k :: 0 <= k < |r| ==> r[k].start < r[k].end <= |s|
    ensures Chained(r)
  {
    Scan(Matcher(p, s), |s|, 0)
  }

  /** Each span `ScanAll` reports is a match of the pattern. */
  lemma ScanAllMatches(p: Pattern, s: string, k: nat)
    requires k < |ScanAll(p, s)|
    ensures MatchAt(p, s, ScanAll(p, s)[k].start) == Some(ScanAll(p, s)[k].end)
  {
    var r := ScanAll(p, s);
    assert Matcher(p, s)(r[k].start) == Some(r[k].end);
  }

  /** The loop misses no match: a position where the matcher matches is
      either reported or lies inside a reported match. */
  lemma {:induction false} ScanCovers(m: nat -> Option<nat>, n: nat, i: nat, k: nat)
    requires Matches(m, n) && i <= k < n && m(k).Some?
    ensures Covered(Scan(m, n, i), k)
    decreases n - i
  {
    var r := Scan(m, n, i);
    match m(i)
    case Some(e) =>
      var rest := Scan(m, n, e);
      assert r == [Span(i, e)] + rest;
      if k < e {
        assert r[0].start <= k < r[0].end;
      } else {
        ScanCovers(m, n, e, k);
        var j :| 0 <= j < |rest| && rest[j].start <= k < rest[j].end;
        assert r[j + 1] == rest[j];
      }
    case None =>
      assert k != i;
      ScanCovers(m, n, i + 1, k);
  }

  /** Every position where a pattern matches is reported by `ScanAll` or lies
      inside a match it reported. */
  lemma ScanAllCovers(p: Pattern, s: string, k: nat)
    requires k < |s| && MatchAt(p, s, k).Some?
    ensures Covered(ScanAll(p, s), k)
  {
    assert Matcher(p, s)(k).Some?;
    ScanCovers(Matcher(p, s), |s|, 0, k);
  }

  lemma ScanAllMember(p: Pattern, s: string, sp: Span)
    requires sp in ScanAll(p, s)
    ensures MatchAt(p, s, sp.start) == Some(sp.end)
  {
    var r := ScanAll(p, s);
    var k :| 0 <= k < |r| && r[k] == sp;
    ScanAllMatches(p, s, k);
  }
}
