/** The colour-literal scanner: `parseColors` and `getUniqueColors`. */
module Parser {
  import opened Text
  import opened Outcomes
  import opened ColorLib
  import opened Scanner
  import opened Sorting
  import Decimal

  datatype Format = Hex | Rgb | Hsl | Named

  /** One occurrence of a colour literal in a text. `count` is the number of
      occurrences in the whole text with the same normalized value; it is 0
      until the parser stamps it. */
  datatype ParsedColor = ParsedColor(
    id: string,
    original: string,
    normalized: string,
    format: Format,
    startIndex: nat,
    endIndex: nat,
    count: nat)

  function PatternOf(f: Format): Pattern {
    match f
    case Hex => HexPattern
    case Rgb => RgbPattern
    case Hsl => HslPattern
    case Named => NamedPattern
  }

  /** The sort key of the engine's comparators. */
  function StartKey(c: ParsedColor): int {
    c.startIndex
  }

  /** `${normalized}-${index}` */
  function MakeId(normalized: string, start: nat): string {
    normalized + "-" + Decimal.NatToString(start)
  }

  /** The instance recorded for the match `sp` of the pattern of format `f`. */
  function Found(lib: Lib, s: string, sp: Span, f: Format): (c: ParsedColor)
    requires sp.start <= sp.end <= |s|
  {
    var original := s[sp.start..sp.end];
    var normalized := lib.toHexString(original);
    ParsedColor(MakeId(normalized, sp.start), original, normalized, f,
                sp.start, sp.start + |original|, 0)
  }

  /** What every instance the parser emits satisfies, apart from its count:
      its `original` is exactly the text of its range, the library accepts
      it, and it is named after its normalized value and position. */
  predicate Placed(lib: Lib, s: string, c: ParsedColor) {
    && c.startIndex < c.endIndex <= |s|
    && c.original == s[c.startIndex..c.endIndex]
    && c.endIndex == c.startIndex + |c.original|
    && lib.isValid(c.original)
    && c.normalized == lib.toHexString(c.original)
    && c.id == MakeId(c.normalized, c.startIndex)
  }

  /** Non-empty spans of the text. */
  predicate InBounds(s: string, spans: seq<Span>) {
    forall k :: 0 <= k < |spans| ==> spans[k].start < spans[k].end <= |s|
  }

  /** One structured pattern's loop: each match the library accepts is
      recorded, the others are dropped. */
  function AcceptValid(lib: Lib, s: string, spans: seq<Span>, f: Format): (r: seq<ParsedColor>)
    requires InBounds(s, spans)
    ensures forall c :: c in r ==> Placed(lib, s, c) && c.format == f && c.count == 0
    ensures forall c :: c in r ==> Span(c.startIndex, c.endIndex) in spans
  {
    if |spans| == 0 then []
    else
      var sp := spans[0];
      var head := if lib.isValid(s[sp.start..sp.end]) then [Found(lib, s, sp, f)] else [];
      head + AcceptValid(lib, s, spans[1..], f)
  }

  /** The hex, rgb and hsl loops, in that order. */
  function Structured(lib: Lib, s: string): (r: seq<ParsedColor>)
    ensures forall c :: c in r ==> Placed(lib, s, c) && c.format != Named && c.count == 0
    ensures forall c :: c in r ==> Span(c.startIndex, c.endIndex) in ScanAll(PatternOf(c.format), s)
  {
    Loops(lib, s, [Hex, Rgb, Hsl])
  }

  /** The loops of the given formats, one after the other. */
  function Loops(lib: Lib, s: string, formats: seq<Format>): (r: seq<ParsedColor>)
    ensures forall c :: c in r ==> Placed(lib, s, c) && c.format in formats && c.count == 0
    ensures forall c :: c in r ==> Span(c.startIndex, c.endIndex) in ScanAll(PatternOf(c.format), s)
  {
    if |formats| == 0 then []
    else AcceptValid(lib, s, ScanAll(PatternOf(formats[0]), s), formats[0]) + Loops(lib, s, formats[1..])
  }

  /** `colors.some(c => i >= c.startIndex && i < c.endIndex)` */
  predicate StartsInside(colors: seq<ParsedColor>, i: nat) {
    exists k :: 0 <= k < |colors| && colors[k].startIndex <= i < colors[k].endIndex
  }

  /** The named-colour loop: a valid match is recorded unless its start lies
      inside an instance recorded before it. */
  function AcceptNamed(lib: Lib, s: string, spans: seq<Span>, colors: seq<ParsedColor>): (r: seq<ParsedColor>)
    requires InBounds(s, spans)
    ensures forall c :: c in r ==>
      c in colors || (Placed(lib, s, c) && c.format == Named && c.count == 0
                      && Span(c.startIndex, c.endIndex) in spans)
  {
    if |spans| == 0 then colors
    else
      var sp := spans[0];
      var next := if lib.isValid(s[sp.start..sp.end]) && !StartsInside(colors, sp.start)
                  then colors + [Found(lib, s, sp, Named)] else colors;
      AcceptNamed(lib, s, spans[1..], next)
  }

  /** Everything recorded, in the order it was pushed. */
  function Collected(lib: Lib, s: string): (r: seq<ParsedColor>)
    ensures forall c :: c in r ==> Placed(lib, s, c) && c.count == 0
    ensures forall c :: c in r ==> Span(c.startIndex, c.endIndex) in ScanAll(PatternOf(c.format), s)
  {
    var spans := ScanAll(NamedPattern, s);
    AcceptNamed(lib, s, spans, Structured(lib, s))
  }

  /** Number of instances with normalized value `n`. */
  function CountOf(cs: seq<ParsedColor>, n: string): (r: nat)
    ensures r <= |cs|
  {
    if |cs| == 0 then 0
    else CountOf(cs[..|cs| - 1], n) + (if cs[|cs| - 1].normalized == n then 1 else 0)
  }

  /** `seenColors`: one increment per recorded instance, in push order. */
  function Tally(cs: seq<ParsedColor>): map<string, nat>
  {
    if |cs| == 0 then map[]
    else
      var m := Tally(cs[..|cs| - 1]);
      var n := cs[|cs| - 1].normalized;
      m[n := (if n in m then m[n] else 0) + 1]
  }

  /** `seenColors.get(n) || 1` */
  function SeenCount(seen: map<string, nat>, n: string): nat {
    if n in seen && seen[n] != 0 then seen[n] else 1
  }

  /** `parseColors(text)`: sort the recorded instances by start and stamp
      each with the tally of its normalized value. Every instance returned
      is a valid literal that sits exactly at its recorded range and is named
      after its normalized value and start; the instances are in ascending
      order of start; each carries the number of returned instances with the
      same normalized value. */
  function ParseColors(lib: Lib, s: string): (r: seq<ParsedColor>)
    ensures forall k :: 0 <= k < |r| ==> Placed(lib, s, r[k])
    ensures SortedBy(r, StartKey)
    ensures forall k :: 0 <= k < |r| ==> r[k].count == CountOf(r, r[k].normalized)
  {
    FinishSound(Collected(lib, s));
    FinishPlaced(lib, s, Collected(lib, s));
    Finish(Collected(lib, s))
  }

  /** The last two steps of `parseColors`. */
  function Finish(colors: seq<ParsedColor>): (r: seq<ParsedColor>)
  {
    var seen := Tally(colors);
    var sorted := SortBy(colors, StartKey);
    seq(|sorted|, k requires 0 <= k < |sorted| =>
      sorted[k].(count := SeenCount(seen, sorted[k].normalized)))
  }

  lemma {:induction false} CountConcat(a: seq<ParsedColor>, b: seq<ParsedColor>, n: string)
    ensures CountOf(a + b, n) == CountOf(a, n) + CountOf(b, n)
    decreases |b|
  {
    if |b| > 0 {
      assert (a + b)[..|a + b| - 1] == a + b[..|b| - 1];
      CountConcat(a, b[..|b| - 1], n);
    } else {
      assert a + b == a;
    }
  }

  /** Counting by normalized value does not depend on the order. */
  lemma {:induction false} CountPermutation(a: seq<ParsedColor>, b: seq<ParsedColor>, n: string)
    requires multiset(a) == multiset(b)
    ensures CountOf(a, n) == CountOf(b, n)
    decreases |a|
  {
    if |a| > 0 {
      var x := a[|a| - 1];
      assert x in multiset(b);
      var i :| 0 <= i < |b| && b[i] == x;
      var b' := b[..i] + b[i + 1..];
      DropOne(a, b, i);
      assert b == b[..i] + [x] + b[i + 1..];
      CountPermutation(a[..|a| - 1], b', n);
      CountConcat(b[..i] + [x], b[i + 1..], n);
      CountConcat(b[..i], [x], n);
      CountConcat(b[..i], b[i + 1..], n);
      assert [x][..0] == [];
    }
  }

  /** Dropping the last element of one side and a matching element of the
      other keeps two permutations permutations of each other. */
  lemma DropOne(a: seq<ParsedColor>, b: seq<ParsedColor>, i: nat)
    requires multiset(a) == multiset(b) && |a| > 0 && i < |b| && b[i] == a[|a| - 1]
    ensures multiset(a[..|a| - 1]) == multiset(b[..i] + b[i + 1..])
  {
    var x := a[|a| - 1];
    assert b == b[..i] + [x] + b[i + 1..];
    assert a == a[..|a| - 1] + [x];
    var a', b' := a[..|a| - 1], b[..i] + b[i + 1..];
    assert multiset(a) == multiset(a') + multiset{x};
    assert multiset(b) == multiset(b[..i]) + multiset{x} + multiset(b[i + 1..]);
    assert multiset(b') == multiset(b[..i]) + multiset(b[i + 1..]);
    assert multiset(a') == multiset(a') + multiset{x} - multiset{x};
    assert multiset(b') == multiset(b') + multiset{x} - multiset{x};
  }

  /** An instance counts towards its own normalized value. */
  lemma {:induction false} CountPositive(cs: seq<ParsedColor>, k: nat)
    requires k < |cs|
    ensures CountOf(cs, cs[k].normalized) >= 1
  {
    if k < |cs| - 1 {
      CountPositive(cs[..|cs| - 1], k);
    }
  }

  /** Stamping counts leaves the normalized values, hence their counts, alone. */
  lemma {:induction false} CountSameValues(a: seq<ParsedColor>, b: seq<ParsedColor>, n: string)
    requires |a| == |b|
    requires forall k :: 0 <= k < |a| ==> a[k].normalized == b[k].normalized
    ensures CountOf(a, n) == CountOf(b, n)
  {
    if |a| > 0 {
      CountSameValues(a[..|a| - 1], b[..|b| - 1], n);
    }
  }

  /** The tally holds exactly the values that occur, each with its number of
      occurrences. */
  lemma {:induction false} TallyCounts(cs: seq<ParsedColor>, n: string)
    ensures n in Tally(cs) <==> CountOf(cs, n) > 0
    ensures n in Tally(cs) ==> Tally(cs)[n] == CountOf(cs, n)
  {
    if |cs| > 0 {
      TallyCounts(cs[..|cs| - 1], n);
    }
  }

  /** Sorting and stamping keep the recorded instances, put them in order
      of start, and give each the number of instances sharing its value. */
  lemma FinishSound(colors: seq<ParsedColor>)
    requires forall c :: c in colors ==> c.count == 0
    ensures |Finish(colors)| == |colors|
    ensures forall k :: 0 <= k < |Finish(colors)| ==> Finish(colors)[k].(count := 0) in colors
    ensures forall c :: c in colors ==> exists k :: 0 <= k < |Finish(colors)| && Finish(colors)[k].(count := 0) == c
    ensures SortedBy(Finish(colors), StartKey)
    ensures forall k :: 0 <= k < |Finish(colors)| ==>
      Finish(colors)[k].count == CountOf(Finish(colors), Finish(colors)[k].normalized)
  {
    var r := Finish(colors);
    forall k | 0 <= k < |r|
      ensures r[k].(count := 0) in colors
      ensures r[k].count == CountOf(r, r[k].normalized)
    {
      FinishEntry(colors, k);
    }
    forall c | c in colors
      ensures exists k :: 0 <= k < |r| && r[k].(count := 0) == c
    {
      FinishKeeps(colors, c);
    }
    FinishSorted(colors);
  }

  lemma FinishSorted(colors: seq<ParsedColor>)
    ensures SortedBy(Finish(colors), StartKey)
  {
    var sorted := SortBy(colors, StartKey);
    var r := Finish(colors);
    assert forall i :: 0 <= i < |r| ==> StartKey(r[i]) == StartKey(sorted[i]);
  }

  lemma FinishKeeps(colors: seq<ParsedColor>, c: ParsedColor)
    requires c in colors && c.count == 0
    ensures exists k :: 0 <= k < |Finish(colors)| && Finish(colors)[k].(count := 0) == c
  {
    var sorted := SortBy(colors, StartKey);
    var r := Finish(colors);
    assert c in multiset(sorted);
    var k :| 0 <= k < |sorted| && sorted[k] == c;
    assert r[k].(count := 0) == c;
  }

  /** The `k`-th finished instance is a recorded one stamped with the count
      of its normalized value. */
  lemma FinishEntry(colors: seq<ParsedColor>, k: nat)
    requires forall c :: c in colors ==> c.count == 0
    requires k < |Finish(colors)|
    ensures Finish(colors)[k].(count := 0) in colors
    ensures Finish(colors)[k].count == CountOf(Finish(colors), Finish(colors)[k].normalized)
  {
    var seen := Tally(colors);
    var sorted := SortBy(colors, StartKey);
    var r := Finish(colors);
    assert r[k] == sorted[k].(count := SeenCount(seen, sorted[k].normalized));
    assert sorted[k] in multiset(colors);
    var n := sorted[k].normalized;
    CountPositive(sorted, k);
    CountPermutation(sorted, colors, n);
    TallyCounts(colors, n);
    CountSameValues(r, sorted, n);
  }

  /** Sorting and stamping keep every instance placed. */
  lemma FinishPlaced(lib: Lib, s: string, colors: seq<ParsedColor>)
    requires forall c :: c in colors ==> Placed(lib, s, c) && c.count == 0
    ensures forall k :: 0 <= k < |Finish(colors)| ==> Placed(lib, s, Finish(colors)[k])
  {
    FinishSound(colors);
    var r := Finish(colors);
    forall k | 0 <= k < |r| ensures Placed(lib, s, r[k]) {
      assert Placed(lib, s, r[k].(count := 0));
    }
  }

  /** Every returned instance was reported by the scan of its format (and so,
      by `ScanAllMember`, is a match of that format's pattern at its range). */
  lemma ParseColorsScanned(lib: Lib, s: string, c: ParsedColor)
    requires c in ParseColors(lib, s)
    ensures Span(c.startIndex, c.endIndex) in ScanAll(PatternOf(c.format), s)
  {
    var colors := Collected(lib, s);
    FinishSound(colors);
    var r := ParseColors(lib, s);
    var k :| 0 <= k < |r| && r[k] == c;
    assert c.(count := 0) in colors;
  }


  /** The named matches the parser keeps: those the library accepts whose
      start lies outside every hex, rgb and hsl instance. */
  function KeptNamed(lib: Lib, s: string, spans: seq<Span>, structured: seq<ParsedColor>): (r: seq<ParsedColor>)
    requires InBounds(s, spans)
    ensures forall c :: c in r ==>
      exists k :: 0 <= k < |spans| && Keep(lib, s, structured, spans[k]) && c == Found(lib, s, spans[k], Named)
  {
    if |spans| == 0 then []
    else
      var sp := spans[0];
      var rest := KeptNamed(lib, s, spans[1..], structured);
      assert forall c :: c in rest ==>
        exists k :: 1 <= k < |spans| && Keep(lib, s, structured, spans[k]) && c == Found(lib, s, spans[k], Named);
      (if Keep(lib, s, structured, sp) then [Found(lib, s, sp, Named)] else []) + rest
  }

  /** Whether the named-colour loop keeps the match `sp`. */
  predicate Keep(lib: Lib, s: string, structured: seq<ParsedColor>, sp: Span)
    requires sp.start <= sp.end <= |s|
  {
    lib.isValid(s[sp.start..sp.end]) && !StartsInside(structured, sp.start)
  }

  /** Every match the loop keeps is in its output. */
  lemma {:induction false} KeptNamedHas(lib: Lib, s: string, spans: seq<Span>, structured: seq<ParsedColor>, k: nat)
    requires InBounds(s, spans) && k < |spans|
    requires Keep(lib, s, structured, spans[k])
    ensures Found(lib, s, spans[k], Named) in KeptNamed(lib, s, spans, structured)
  {
    if k > 0 {
      KeptNamedHas(lib, s, spans[1..], structured, k - 1);
    }
  }

  /** Every valid match of a structured pattern is in its loop's output. */
  lemma {:induction false} AcceptValidHas(lib: Lib, s: string, spans: seq<Span>, f: Format, k: nat)
    requires InBounds(s, spans) && k < |spans|
    requires lib.isValid(s[spans[k].start..spans[k].end])
    ensures Found(lib, s, spans[k], f) in AcceptValid(lib, s, spans, f)
  {
    if k > 0 {
      AcceptValidHas(lib, s, spans[1..], f, k - 1);
    }
  }

  /** Named matches never start inside one another, so checking each against
      everything recorded so far is the same as checking it against the
      structured instances only. */
  lemma {:induction false} AcceptNamedKeeps(lib: Lib, s: string, spans: seq<Span>,
                                           structured: seq<ParsedColor>, extra: seq<ParsedColor>)
    requires InBounds(s, spans) && Chained(spans)
    requires forall k, j :: 0 <= k < |extra| && 0 <= j < |spans| ==> extra[k].endIndex <= spans[j].start
    ensures AcceptNamed(lib, s, spans, structured + extra)
            == structured + extra + KeptNamed(lib, s, spans, structured)
    decreases |spans|
  {
    if |spans| > 0 {
      var sp := spans[0];
      var colors := structured + extra;
      StartsInsideExtra(structured, extra, sp.start);
      var found := Found(lib, s, sp, Named);
      var keep := Keep(lib, s, structured, sp);
      var extra' := if keep then extra + [found] else extra;
      var next := structured + extra';
      var head: seq<ParsedColor> := if keep then [found] else [];
      assert extra' == extra + head;
      assert next == if keep then colors + [found] else colors;
      assert AcceptNamed(lib, s, spans, colors) == AcceptNamed(lib, s, spans[1..], next);
      ExtraStaysBefore(extra, head, spans);
      AcceptNamedKeeps(lib, s, spans[1..], structured, extra');
      var rest := KeptNamed(lib, s, spans[1..], structured);
      assert KeptNamed(lib, s, spans, structured) == head + rest;
      Regroup(structured, extra, head, rest);
    } else {
      assert structured + extra + [] == structured + extra;
    }
  }

  /** What the loop records before the first match ends before every later
      match. */
  lemma ExtraStaysBefore(extra: seq<ParsedColor>, head: seq<ParsedColor>, spans: seq<Span>)
    requires |spans| > 0 && Chained(spans)
    requires forall k, j :: 0 <= k < |extra| && 0 <= j < |spans| ==> extra[k].endIndex <= spans[j].start
    requires forall k :: 0 <= k < |head| ==> head[k].endIndex == spans[0].end
    ensures forall k, j :: 0 <= k < |extra + head| && 0 <= j < |spans[1..]| ==>
      (extra + head)[k].endIndex <= spans[1..][j].start
  {
    forall k, j | 0 <= k < |extra + head| && 0 <= j < |spans[1..]|
      ensures (extra + head)[k].endIndex <= spans[1..][j].start
    {
      assert spans[1..][j] == spans[j + 1];
      if k < |extra| {
        assert (extra + head)[k] == extra[k];
      } else {
        assert (extra + head)[k] == head[k - |extra|];
      }
    }
  }

  lemma Regroup<T>(a: seq<T>, b: seq<T>, c: seq<T>, d: seq<T>)
    ensures a + (b + c) + d == a + b + (c + d)
  {
  }

  lemma StartsInsideExtra(structured: seq<ParsedColor>, extra: seq<ParsedColor>, x: nat)
    requires forall k :: 0 <= k < |extra| ==> extra[k].endIndex <= x
    ensures StartsInside(structured + extra, x) == StartsInside(structured, x)
  {
    var colors := structured + extra;
    if StartsInside(colors, x) {
      var k :| 0 <= k < |colors| && colors[k].startIndex <= x < colors[k].endIndex;
      if k < |structured| {
        assert colors[k] == structured[k];
      }
    }
    if StartsInside(structured, x) {
      var k :| 0 <= k < |structured| && structured[k].startIndex <= x < structured[k].endIndex;
      assert colors[k] == structured[k];
    }
  }

  /** What the parser records: the structured instances followed by the kept
      named ones. */
  lemma CollectedSplits(lib: Lib, s: string)
    ensures Collected(lib, s)
            == Structured(lib, s) + KeptNamed(lib, s, ScanAll(NamedPattern, s), Structured(lib, s))
  {
    var st := Structured(lib, s);
    assert st + [] == st;
    AcceptNamedKeeps(lib, s, ScanAll(NamedPattern, s), st, []);
  }

  /** Whether `c` is an instance of format `f` at the range `sp`. */
  predicate At(c: ParsedColor, f: Format, sp: Span) {
    c.format == f && c.startIndex == sp.start && c.endIndex == sp.end
  }

  /** Sorting and stamping neither adds nor drops an instance. */
  lemma FinishAt(colors: seq<ParsedColor>, f: Format, sp: Span)
    requires forall c :: c in colors ==> c.count == 0
    ensures (exists c :: c in Finish(colors) && At(c, f, sp)) <==> (exists c :: c in colors && At(c, f, sp))
  {
    var r := Finish(colors);
    if exists c :: c in r && At(c, f, sp) {
      var c :| c in r && At(c, f, sp);
      var k :| 0 <= k < |r| && r[k] == c;
      FinishEntry(colors, k);
      assert At(r[k].(count := 0), f, sp);
    }
    if exists c :: c in colors && At(c, f, sp) {
      var c :| c in colors && At(c, f, sp);
      FinishKeeps(colors, c);
      var k :| 0 <= k < |r| && r[k].(count := 0) == c;
      assert r[k] in r && At(r[k], f, sp);
    }
  }

  lemma ReturnedAt(lib: Lib, s: string, f: Format, sp: Span)
    ensures (exists c :: c in ParseColors(lib, s) && At(c, f, sp))
            <==> (exists c :: c in Collected(lib, s) && At(c, f, sp))
  {
    FinishAt(Collected(lib, s), f, sp);
  }

  /** The named-colour loop records a named match exactly when it keeps it. */
  lemma KeptNamedAt(lib: Lib, s: string, spans: seq<Span>, st: seq<ParsedColor>, sp: Span)
    requires InBounds(s, spans) && sp in spans
    requires forall c :: c in st ==> c.format != Named
    ensures (exists c :: c in st + KeptNamed(lib, s, spans, st) && At(c, Named, sp))
            <==> Keep(lib, s, st, sp)
  {
    var r := st + KeptNamed(lib, s, spans, st);
    if exists c :: c in r && At(c, Named, sp) {
      var c :| c in r && At(c, Named, sp);
      KeptNamedOnlyKept(lib, s, spans, st, sp, c);
    }
    if Keep(lib, s, st, sp) {
      var k :| 0 <= k < |spans| && spans[k] == sp;
      KeptNamedHas(lib, s, spans, st, k);
      var found := Found(lib, s, sp, Named);
      assert found in r && At(found, Named, sp);
    }
  }

  lemma KeptNamedOnlyKept(lib: Lib, s: string, spans: seq<Span>, st: seq<ParsedColor>, sp: Span, c: ParsedColor)
    requires InBounds(s, spans) && sp in spans
    requires forall c :: c in st ==> c.format != Named
    requires c in st + KeptNamed(lib, s, spans, st) && At(c, Named, sp)
    ensures Keep(lib, s, st, sp)
  {
    assert c !in st;
    assert c in KeptNamed(lib, s, spans, st);
    var k :| 0 <= k < |spans| && Keep(lib, s, st, spans[k]) && c == Found(lib, s, spans[k], Named);
    assert spans[k] == sp;
  }

  /** A hex, rgb or hsl match is recorded exactly when the library accepts
      its text. */
  lemma CollectedStructured(lib: Lib, s: string, f: Format, sp: Span)
    requires f != Named && sp in ScanAll(PatternOf(f), s)
    ensures (exists c :: c in Collected(lib, s) && At(c, f, sp)) <==> lib.isValid(s[sp.start..sp.end])
  {
    CollectedSplits(lib, s);
    if lib.isValid(s[sp.start..sp.end]) {
      StructuredHas(lib, s, f, sp);
      var found := Found(lib, s, sp, f);
      assert found in Collected(lib, s) && At(found, f, sp);
    }
  }

  /** A valid hex, rgb or hsl match is among the structured instances. */
  lemma StructuredHas(lib: Lib, s: string, f: Format, sp: Span)
    requires f != Named && sp in ScanAll(PatternOf(f), s)
    requires lib.isValid(s[sp.start..sp.end])
    ensures Found(lib, s, sp, f) in Structured(lib, s)
  {
    LoopsHas(lib, s, [Hex, Rgb, Hsl], f, sp);
  }

  lemma {:induction false} LoopsHas(lib: Lib, s: string, formats: seq<Format>, f: Format, sp: Span)
    requires f in formats && sp in ScanAll(PatternOf(f), s)
    requires lib.isValid(s[sp.start..sp.end])
    ensures Found(lib, s, sp, f) in Loops(lib, s, formats)
  {
    var here := AcceptValid(lib, s, ScanAll(PatternOf(formats[0]), s), formats[0]);
    var rest := Loops(lib, s, formats[1..]);
    assert Loops(lib, s, formats) == here + rest;
    if formats[0] == f {
      var spans := ScanAll(PatternOf(f), s);
      var k :| 0 <= k < |spans| && spans[k] == sp;
      AcceptValidHas(lib, s, spans, f, k);
      assert Found(lib, s, sp, f) in here;
    } else {
      assert f in formats[1..];
      LoopsHas(lib, s, formats[1..], f, sp);
      assert Found(lib, s, sp, f) in rest;
    }
  }

  /** A named match is recorded exactly when the library accepts its text
      and its start lies outside every hex, rgb and hsl instance. */
  lemma CollectedNamed(lib: Lib, s: string, sp: Span)
    requires sp in ScanAll(NamedPattern, s)
    ensures (exists c :: c in Collected(lib, s) && At(c, Named, sp))
            <==> Keep(lib, s, Structured(lib, s), sp)
  {
    CollectedSplits(lib, s);
    KeptNamedAt(lib, s, ScanAll(NamedPattern, s), Structured(lib, s), sp);
  }

  /** A hex, rgb or hsl match is returned exactly when the library accepts
      its text. */
  lemma ParseColorsStructured(lib: Lib, s: string, f: Format, sp: Span)
    requires f != Named && sp in ScanAll(PatternOf(f), s)
    ensures (exists c :: c in ParseColors(lib, s) && At(c, f, sp)) <==> lib.isValid(s[sp.start..sp.end])
  {
    ReturnedAt(lib, s, f, sp);
    CollectedStructured(lib, s, f, sp);
  }

  /** A named match is returned exactly when the library accepts its text
      and its start lies outside every hex, rgb and hsl instance. */
  lemma ParseColorsNamed(lib: Lib, s: string, sp: Span)
    requires sp in ScanAll(NamedPattern, s)
    ensures (exists c :: c in ParseColors(lib, s) && At(c, Named, sp))
            <==> lib.isValid(s[sp.start..sp.end]) && !StartsInside(Structured(lib, s), sp.start)
  {
    ReturnedAt(lib, s, Named, sp);
    CollectedNamed(lib, s, sp);
  }
}
