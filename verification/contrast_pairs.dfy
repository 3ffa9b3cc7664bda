/** The light/dark shade pairings a palette offers, with their contrast and
    normal-text verdicts. */
module ContrastPairs {
  import opened Outcomes
  import opened ColorLib
  import opened Contrast
  import opened Palette

  /** The fixed pairings, light shade first, in the order they are tried. */
  const PAIRINGS: seq<(Shade, Shade)> :=
    [(50, 900), (50, 950), (100, 800), (100, 900), (200, 700), (200, 800), (300, 700)]

  datatype ContrastPair = ContrastPair(lightShade: Shade, darkShade: Shade, contrast: real, aa: bool, aaa: bool)

  /** Some shade of the list has number `n`. */
  predicate Has(shades: seq<PaletteShade>, n: Shade) {
    exists k :: 0 <= k < |shades| && shades[k].shade == n
  }

  /** Position `k` holds the first shade numbered `n`. */
  predicate FirstAt(shades: seq<PaletteShade>, n: Shade, k: nat) {
    k < |shades| && shades[k].shade == n && forall j :: 0 <= j < k ==> shades[j].shade != n
  }

  /** `shades.find(s => s.shade === n)`: the first shade with that number. */
  function FindShade(shades: seq<PaletteShade>, n: Shade): (r: Option<PaletteShade>)
    ensures r.None? <==> !Has(shades, n)
    ensures r.Some? ==> exists k: nat :: FirstAt(shades, n, k) && shades[k] == r.value
  {
    if |shades| == 0 then None
    else if shades[0].shade == n then
      assert FirstAt(shades, n, 0);
      Some(shades[0])
    else
      var r := FindShade(shades[1..], n);
      FindShadeStep(shades, n, r);
      r
  }

  lemma FindShadeStep(shades: seq<PaletteShade>, n: Shade, r: Option<PaletteShade>)
    requires |shades| > 0 && shades[0].shade != n
    requires r.None? <==> !Has(shades[1..], n)
    requires r.Some? ==> exists k: nat :: FirstAt(shades[1..], n, k) && shades[1..][k] == r.value
    ensures r.None? <==> !Has(shades, n)
    ensures r.Some? ==> exists k: nat :: FirstAt(shades, n, k) && shades[k] == r.value
  {
    var tail := shades[1..];
    if Has(shades, n) {
      var k :| 0 <= k < |shades| && shades[k].shade == n;
      assert tail[k - 1].shade == n;
    }
    if Has(tail, n) {
      var k :| 0 <= k < |tail| && tail[k].shade == n;
      assert shades[k + 1].shade == n;
    }
    if r.Some? {
      var k: nat :| FirstAt(tail, n, k) && tail[k] == r.value;
      assert forall j :: 0 < j < k + 1 ==> shades[j] == tail[j - 1];
      assert FirstAt(shades, n, k + 1);
    }
  }

  /** The pair for one pairing, when the palette has both shades. */
  function PairFor(lib: Lib, shades: seq<PaletteShade>, pairing: (Shade, Shade)): Option<ContrastPair> {
    match (FindShade(shades, pairing.0), FindShade(shades, pairing.1))
    case (Some(light), Some(dark)) =>
      var contrast := ContrastRatio(lib, light.hex, dark.hex);
      var c := WcagCompliance(contrast);
      Some(ContrastPair(pairing.0, pairing.1, contrast, c.aaNormal, c.aaaNormal))
    case _ => None
  }

  /** The `forEach` over the pairings, pushing the pairs found. */
  function PairsOver(lib: Lib, shades: seq<PaletteShade>, pairings: seq<(Shade, Shade)>): (r: seq<ContrastPair>)
    ensures |r| <= |pairings|
    ensures forall i :: 0 <= i < |r| ==>
      && (r[i].lightShade, r[i].darkShade) in pairings
      && (r[i].aa <==> r[i].contrast >= 4.5)
      && (r[i].aaa <==> r[i].contrast >= 7.0)
  {
    if |pairings| == 0 then []
    else
      var rest := PairsOver(lib, shades, pairings[1..]);
      match PairFor(lib, shades, pairings[0])
      case Some(pair) => [pair] + rest
      case None => rest
  }

  /** `getContrastPairs(palette)` */
  function GetContrastPairs(lib: Lib, p: TailwindPalette): (r: seq<ContrastPair>)
    ensures |r| <= |PAIRINGS|
    ensures forall i :: 0 <= i < |r| ==>
      && (r[i].lightShade, r[i].darkShade) in PAIRINGS
      && r[i].lightShade < r[i].darkShade
      && (r[i].aa <==> r[i].contrast >= 4.5)
      && (r[i].aaa <==> r[i].contrast >= 7.0)
  {
    PairsOver(lib, p.shades, PAIRINGS)
  }

  /** When every pairing yields a pair, the pairs come out one per pairing,
      in pairing order. */
  lemma {:induction false} PairsOverAll(lib: Lib, shades: seq<PaletteShade>, pairings: seq<(Shade, Shade)>)
    requires forall i :: 0 <= i < |pairings| ==> PairFor(lib, shades, pairings[i]).Some?
    ensures var r := PairsOver(lib, shades, pairings);
      && |r| == |pairings|
      && forall i :: 0 <= i < |r| ==> Some(r[i]) == PairFor(lib, shades, pairings[i])
  {
    if |pairings| > 0 {
      var r := PairsOver(lib, shades, pairings);
      var rest := PairsOver(lib, shades, pairings[1..]);
      assert PairFor(lib, shades, pairings[0]).Some?;
      PairsOverAll(lib, shades, pairings[1..]);
      assert r == [PairFor(lib, shades, pairings[0]).value] + rest;
      forall i | 0 < i < |r| ensures Some(r[i]) == PairFor(lib, shades, pairings[i]) {
        assert r[i] == rest[i - 1] && pairings[i] == pairings[1..][i - 1];
      }
    }
  }

  /** The k-th shade has the k-th shade number, as in a generated palette. */
  predicate Standard(shades: seq<PaletteShade>) {
    |shades| == |SHADES| && forall k :: 0 <= k < |SHADES| ==> shades[k].shade == SHADES[k]
  }

  /** A generated palette holds every shade, so all seven pairs come out, in
      the order of `PAIRINGS`, each measured between the palette's shades of
      those numbers. */
  lemma GeneratedPairs(lib: Lib, base: string, options: Options)
    requires GeneratePalette(lib, base, options).Ok?
    ensures var p := GeneratePalette(lib, base, options).value;
      var r := GetContrastPairs(lib, p);
      && |r| == |PAIRINGS|
      && forall i :: 0 <= i < |r| ==>
           && r[i].lightShade == PAIRINGS[i].0 && r[i].darkShade == PAIRINGS[i].1
           && r[i].contrast == ContrastRatio(lib, p.shades[ShadeIndex(PAIRINGS[i].0)].hex,
                                                  p.shades[ShadeIndex(PAIRINGS[i].1)].hex)
  {
    var p := GeneratePalette(lib, base, options).value;
    assert Standard(p.shades);
    StandardPairs(lib, p);
  }

  lemma StandardPairs(lib: Lib, p: TailwindPalette)
    requires Standard(p.shades)
    ensures var r := GetContrastPairs(lib, p);
      && |r| == |PAIRINGS|
      && forall i :: 0 <= i < |r| ==>
           && r[i].lightShade == PAIRINGS[i].0 && r[i].darkShade == PAIRINGS[i].1
           && r[i].contrast == ContrastRatio(lib, p.shades[ShadeIndex(PAIRINGS[i].0)].hex,
                                                  p.shades[ShadeIndex(PAIRINGS[i].1)].hex)
  {
    var r := GetContrastPairs(lib, p);
    forall i | 0 <= i < |PAIRINGS| {
      PairForStandard(lib, p.shades, PAIRINGS[i]);
    }
    PairsOverAll(lib, p.shades, PAIRINGS);
    forall i | 0 <= i < |r|
      ensures && r[i].lightShade == PAIRINGS[i].0 && r[i].darkShade == PAIRINGS[i].1
              && r[i].contrast == ContrastRatio(lib, p.shades[ShadeIndex(PAIRINGS[i].0)].hex,
                                                     p.shades[ShadeIndex(PAIRINGS[i].1)].hex)
    {
      PairForStandard(lib, p.shades, PAIRINGS[i]);
    }
  }

  /** In a generated palette a pairing is measured between the shades at the
      indices of its two numbers. */
  lemma PairForStandard(lib: Lib, shades: seq<PaletteShade>, pairing: (Shade, Shade))
    requires Standard(shades)
    ensures var q := PairFor(lib, shades, pairing);
      && q.Some?
      && q.value.lightShade == pairing.0 && q.value.darkShade == pairing.1
      && q.value.contrast == ContrastRatio(lib, shades[ShadeIndex(pairing.0)].hex,
                                                shades[ShadeIndex(pairing.1)].hex)
  {
    FindInGenerated(shades, pairing.0);
    FindInGenerated(shades, pairing.1);
  }

  /** In a list whose k-th entry has the k-th shade number, a shade is found
      at its own index. */
  lemma FindInGenerated(shades: seq<PaletteShade>, n: Shade)
    requires Standard(shades)
    ensures FindShade(shades, n) == Some(shades[ShadeIndex(n)])
  {
    var i := ShadeIndex(n);
    assert FirstAt(shades, n, i) by {
      ShadesIncrease();
      assert forall j :: 0 <= j < i ==> shades[j].shade == SHADES[j] < SHADES[i];
    }
    var r := FindShade(shades, n);
    var k: nat :| FirstAt(shades, n, k) && shades[k] == r.value;
    assert !(k < i) && !(i < k);
  }

  lemma ShadesIncrease()
    ensures forall a, b :: 0 <= a < b < |SHADES| ==> SHADES[a] < SHADES[b]
  {
  }
}
