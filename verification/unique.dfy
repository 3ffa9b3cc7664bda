/** `getUniqueColors`: one instance per normalized value, in order of first
    appearance (the insertion order of a JavaScript `Map`). */
module Unique {
  import opened Parser

  /** Whether some instance of `cs` has normalized value `n`. */
  predicate HasValue(cs: seq<ParsedColor>, n: string) {
    exists i :: 0 <= i < |cs| && cs[i].normalized == n
  }

  /** Position of the first instance with normalized value `n`. */
  function FirstIndex(cs: seq<ParsedColor>, n: string): (r: nat)
    requires HasValue(cs, n)
    ensures r < |cs| && cs[r].normalized == n
    ensures forall j :: 0 <= j < r ==> cs[j].normalized != n
  {
    if cs[0].normalized == n then 0
    else
      assert HasValue(cs[1..], n) by {
        var i :| 0 <= i < |cs| && cs[i].normalized == n;
        assert cs[1..][i - 1] == cs[i];
      }
      1 + FirstIndex(cs[1..], n)
  }

  /** The `forEach` over `cs`: an instance is kept when no earlier one has
      its normalized value. */
  function UniqueColors(cs: seq<ParsedColor>): (r: seq<ParsedColor>)
    ensures |r| <= |cs|
    ensures forall c :: c in r ==> c in cs
    ensures forall a, b :: 0 <= a < b < |r| ==> r[a].normalized != r[b].normalized
  {
    if |cs| == 0 then []
    else
      var u := UniqueColors(cs[..|cs| - 1]);
      var c := cs[|cs| - 1];
      if HasValue(u, c.normalized) then u else u + [c]
  }

  /** The result holds exactly the normalized values of the input. */
  lemma {:induction false} UniqueValues(cs: seq<ParsedColor>, n: string)
    ensures HasValue(UniqueColors(cs), n) <==> HasValue(cs, n)
  {
    if |cs| > 0 {
      var init := cs[..|cs| - 1];
      var last := cs[|cs| - 1];
      var u := UniqueColors(init);
      var r := UniqueColors(cs);
      UniqueValues(init, n);
      assert r == u || r == u + [last];
      if HasValue(u, n) {
        var i :| 0 <= i < |u| && u[i].normalized == n;
        assert r[i] == u[i];
        assert init[FirstIndex(init, n)] == cs[FirstIndex(init, n)];
      }
      if HasValue(r, n) && !HasValue(u, n) {
        assert r == u + [last];
        assert last.normalized == n;
      }
      if HasValue(cs, n) && !HasValue(init, n) {
        var i :| 0 <= i < |cs| && cs[i].normalized == n;
        if i < |init| {
          assert init[i] == cs[i];
        }
        assert r == u + [last];
        assert r[|r| - 1].normalized == n;
      }
    }
  }

  /** A value already present before the last instance keeps its first
      position; a value new at the last instance is first found there. */
  lemma FirstIndexSnoc(cs: seq<ParsedColor>, n: string)
    requires |cs| > 0 && HasValue(cs, n)
    ensures HasValue(cs[..|cs| - 1], n) ==> FirstIndex(cs, n) == FirstIndex(cs[..|cs| - 1], n)
    ensures !HasValue(cs[..|cs| - 1], n) ==> FirstIndex(cs, n) == |cs| - 1
  {
    var init := cs[..|cs| - 1];
    if HasValue(init, n) {
      FirstIndexKept(cs, n);
    } else {
      FirstIndexNew(cs, n);
    }
  }

  lemma FirstIndexKept(cs: seq<ParsedColor>, n: string)
    requires |cs| > 0 && HasValue(cs[..|cs| - 1], n)
    ensures HasValue(cs, n) && FirstIndex(cs, n) == FirstIndex(cs[..|cs| - 1], n)
  {
    var init := cs[..|cs| - 1];
    var i := FirstIndex(init, n);
    assert forall j :: 0 <= j <= i ==> cs[j] == init[j];
    FirstIndexUnique(cs, n, i);
  }

  lemma FirstIndexNew(cs: seq<ParsedColor>, n: string)
    requires |cs| > 0 && !HasValue(cs[..|cs| - 1], n) && cs[|cs| - 1].normalized == n
    ensures HasValue(cs, n) && FirstIndex(cs, n) == |cs| - 1
  {
    var init := cs[..|cs| - 1];
    forall j | 0 <= j < |cs| - 1 ensures cs[j].normalized != n {
      assert cs[j] == init[j];
    }
    FirstIndexUnique(cs, n, |cs| - 1);
  }

  /** Each entry of the result is the first instance of its value. */
  lemma {:induction false} UniqueEntryFirst(cs: seq<ParsedColor>, k: nat)
    requires k < |UniqueColors(cs)|
    ensures HasValue(cs, UniqueColors(cs)[k].normalized)
    ensures UniqueColors(cs)[k] == cs[FirstIndex(cs, UniqueColors(cs)[k].normalized)]
  {
    var r := UniqueColors(cs);
    var init := cs[..|cs| - 1];
    var u := UniqueColors(init);
    var n := r[k].normalized;
    UniqueValues(cs, n);
    assert r[k] in r;
    FirstIndexSnoc(cs, n);
    if k < |u| {
      assert r[k] == u[k];
      UniqueEntryFirst(init, k);
      assert cs[FirstIndex(init, n)] == init[FirstIndex(init, n)];
    } else {
      assert r == u + [cs[|cs| - 1]];
      UniqueValues(init, n);
    }
  }

  /** The entries appear in the order of their first instances. */
  lemma {:induction false} UniqueInOrder(cs: seq<ParsedColor>, a: nat, b: nat)
    requires a < b < |UniqueColors(cs)|
    ensures HasValue(cs, UniqueColors(cs)[a].normalized) && HasValue(cs, UniqueColors(cs)[b].normalized)
    ensures FirstIndex(cs, UniqueColors(cs)[a].normalized) < FirstIndex(cs, UniqueColors(cs)[b].normalized)
  {
    var r := UniqueColors(cs);
    var init := cs[..|cs| - 1];
    var u := UniqueColors(init);
    var na, nb := r[a].normalized, r[b].normalized;
    UniqueEntryFirst(cs, a);
    UniqueEntryFirst(cs, b);
    FirstIndexSnoc(cs, na);
    FirstIndexSnoc(cs, nb);
    assert r[a] == u[a];
    UniqueEntryFirst(init, a);
    if b < |u| {
      assert r[b] == u[b];
      UniqueInOrder(init, a, b);
    } else {
      assert r == u + [cs[|cs| - 1]];
      UniqueValues(init, nb);
    }
  }

  /** The first instance of a value is the one with no earlier instance of it. */
  lemma FirstIndexUnique(cs: seq<ParsedColor>, n: string, i: nat)
    requires i < |cs| && cs[i].normalized == n
    requires forall j :: 0 <= j < i ==> cs[j].normalized != n
    ensures HasValue(cs, n) && FirstIndex(cs, n) == i
  {
    var f := FirstIndex(cs, n);
    assert !(f < i) && !(i < f);
  }
}
