/** A text cut at a series of colour instances: the gaps between them and
    the instances themselves, each rendered by its own function. Both the
    replacement loop and the highlighter produce text of this shape. */
module Layout {
  import opened Text
  import opened Parser

  /** `a` ends at or before `b` starts, or the other way round. */
  predicate Apart(a: ParsedColor, b: ParsedColor) {
    a.endIndex <= b.startIndex || b.endIndex <= a.startIndex
  }

  /** Non-empty ranges of the text, none before `from`, each ending at or
      before the next one starts. */
  predicate Ordered(text: string, cs: seq<ParsedColor>, from: nat) {
    && (forall k :: 0 <= k < |cs| ==> from <= cs[k].startIndex < cs[k].endIndex <= |text|)
    && (forall a, b :: 0 <= a < b < |cs| ==> cs[a].endIndex <= cs[b].startIndex)
  }

  /** The text from `from` on, with each gap rendered by `gap` and each
      instance by `piece`. */
  function Weave(text: string, cs: seq<ParsedColor>, from: nat,
                 gap: string -> string, piece: ParsedColor -> string): string
    requires from <= |text| && Ordered(text, cs, from)
    decreases |cs|
  {
    if |cs| == 0 then gap(text[from..])
    else gap(text[from..cs[0].startIndex]) + piece(cs[0])
         + Weave(text, cs[1..], cs[0].endIndex, gap, piece)
  }

  /** Splitting off the last instance: everything before it is a weave of the
      text up to its start. */
  lemma {:induction false} WeaveSnoc(text: string, cs: seq<ParsedColor>, from: nat,
                                     gap: string -> string, piece: ParsedColor -> string)
    requires from <= |text| && Ordered(text, cs, from) && |cs| > 0
    ensures Ordered(text[..cs[|cs| - 1].startIndex], cs[..|cs| - 1], from)
    ensures Weave(text, cs, from, gap, piece)
            == Weave(text[..cs[|cs| - 1].startIndex], cs[..|cs| - 1], from, gap, piece)
               + piece(cs[|cs| - 1]) + gap(text[cs[|cs| - 1].endIndex..])
    decreases |cs|
  {
    var x := cs[|cs| - 1];
    var p := text[..x.startIndex];
    OrderedInit(text, cs, from);
    if |cs| == 1 {
      assert p[from..] == text[from..x.startIndex];
    } else {
      var init := cs[..|cs| - 1];
      WeaveSnoc(text, cs[1..], cs[0].endIndex, gap, piece);
      TailOfInit(cs);
      assert p[from..cs[0].startIndex] == text[from..cs[0].startIndex];
    }
  }

  /** Dropping the first and the last element commute. */
  lemma TailOfInit<T>(s: seq<T>)
    requires |s| > 1
    ensures s[1..][..|s| - 2] == s[..|s| - 1][1..]
    ensures s[1..][|s| - 2] == s[|s| - 1] && s[..|s| - 1][0] == s[0]
  {
  }

  /** Rendering gaps and instances as themselves gives back the text: the
      gaps and instances partition it. */
  lemma {:induction false} WeaveIdentity(text: string, cs: seq<ParsedColor>, from: nat)
    requires from <= |text| && Ordered(text, cs, from)
    ensures Weave(text, cs, from, s => s, (c: ParsedColor) => Substring(text, c.startIndex, c.endIndex))
            == text[from..]
    decreases |cs|
  {
    if |cs| > 0 {
      WeaveIdentity(text, cs[1..], cs[0].endIndex);
      assert text[from..] == text[from..cs[0].startIndex] + text[cs[0].startIndex..cs[0].endIndex] + text[cs[0].endIndex..];
    }
  }

  /** The instances before the last one lie within the text up to its start. */
  lemma OrderedInit(text: string, cs: seq<ParsedColor>, from: nat)
    requires Ordered(text, cs, from) && |cs| > 0
    ensures Ordered(text[..cs[|cs| - 1].startIndex], cs[..|cs| - 1], from)
  {
    var x := cs[|cs| - 1];
    forall k | 0 <= k < |cs| - 1 ensures cs[k].endIndex <= x.startIndex {
    }
  }
}
