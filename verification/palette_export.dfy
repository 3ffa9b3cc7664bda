/** The two text exports of a palette: a Tailwind configuration snippet and
    a block of CSS custom properties. Each is read back line by line. */
module PaletteExport {
  import opened Text
  import Decimal
  import opened Palette

  /** One `--color-<name>-<shade>: <hex>;` declaration. */
  function CssVariable(name: string, s: PaletteShade): string {
    "  --color-" + name + "-" + Decimal.NatToString(s.shade) + ": " + s.hex + ";"
  }

  function CssVariables(p: TailwindPalette): (r: seq<string>)
    ensures |r| == |p.shades|
  {
    seq(|p.shades|, k requires 0 <= k < |p.shades| => CssVariable(p.name, p.shades[k]))
  }

  /** `exportAsCSS(palette)`: the template's three lines, the middle one
      being the declarations joined by line breaks. Read back line by line
      it is `:root {`, one declaration per shade in palette order, and `}`. */
  function ExportCss(p: TailwindPalette): (r: string)
    ensures SingleLine(p) ==> Split(r, '\n') == [":root {"] + Body(CssVariables(p)) + ["}"]
  {
    var r := Join([":root {", Join(CssVariables(p), "\n"), "}"], "\n");
    assert SingleLine(p) ==> Split(r, '\n') == [":root {"] + Body(CssVariables(p)) + ["}"] by {
      if SingleLine(p) {
        CssLines(p);
      }
    }
    r
  }

  /** One `<shade>: '<hex>',` entry of the configuration. */
  function ConfigEntry(s: PaletteShade): string {
    "          " + Decimal.NatToString(s.shade) + ": '" + s.hex + "',"
  }

  function ConfigEntries(p: TailwindPalette): (r: seq<string>)
    ensures |r| == |p.shades|
  {
    seq(|p.shades|, k requires 0 <= k < |p.shades| => ConfigEntry(p.shades[k]))
  }

  /** The lines of the configuration template before the entries. */
  function ConfigHead(name: string): seq<string> {
    ["module.exports = {", "  theme: {", "    extend: {", "      colors: {", "        " + name + ": {"]
  }

  /** The lines of the configuration template after the entries. */
  const CONFIG_TAIL: seq<string> := ["        }", "      }", "    }", "  }", "}"]

  /** `exportAsTailwindConfig(palette)`: the template's lines, the entries
      joined by line breaks standing on the line between head and tail. Read
      back line by line it is the fixed head naming the palette, one entry
      per shade in palette order, and the fixed tail. */
  function ExportTailwindConfig(p: TailwindPalette): (r: string)
    ensures SingleLine(p) ==> Split(r, '\n') == ConfigHead(p.name) + Body(ConfigEntries(p)) + CONFIG_TAIL
  {
    var r := Join(ConfigHead(p.name) + [Join(ConfigEntries(p), "\n")] + CONFIG_TAIL, "\n");
    assert SingleLine(p) ==> Split(r, '\n') == ConfigHead(p.name) + Body(ConfigEntries(p)) + CONFIG_TAIL by {
      if SingleLine(p) {
        ConfigLines(p);
      }
    }
    r
  }

  /** No line break in the name or in any shade's hex text. */
  predicate SingleLine(p: TailwindPalette) {
    && '\n' !in p.name
    && forall k :: 0 <= k < |p.shades| ==> '\n' !in p.shades[k].hex
  }

  /** The lines between an opening and a closing line: the joined entries,
      or one empty line when there are none. */
  function Body(entries: seq<string>): seq<string> {
    if |entries| == 0 then [""] else entries
  }

  /** The lines of the CSS export. */
  lemma CssLines(p: TailwindPalette)
    requires SingleLine(p)
    ensures Split(Join([":root {", Join(CssVariables(p), "\n"), "}"], "\n"), '\n')
            == [":root {"] + Body(CssVariables(p)) + ["}"]
  {
    var vars := CssVariables(p);
    forall k | 0 <= k < |vars| ensures '\n' !in vars[k] {
      NoBreakInVariable(p.name, p.shades[k]);
    }
    var head, tail: seq<string> := [":root {"], ["}"];
    assert [":root {", Join(vars, "\n"), "}"] == head + [Join(vars, "\n")] + tail;
    assert '\n' !in head[0] && '\n' !in tail[0];
    Lines(head, vars, tail);
  }

  /** The lines of the configuration export. */
  lemma ConfigLines(p: TailwindPalette)
    requires SingleLine(p)
    ensures Split(Join(ConfigHead(p.name) + [Join(ConfigEntries(p), "\n")] + CONFIG_TAIL, "\n"), '\n')
            == ConfigHead(p.name) + Body(ConfigEntries(p)) + CONFIG_TAIL
  {
    var entries := ConfigEntries(p);
    forall k | 0 <= k < |entries| ensures '\n' !in entries[k] {
      NoBreakInEntry(p.shades[k]);
    }
    var head := ConfigHead(p.name);
    assert '\n' !in head[4];
    Lines(head, entries, CONFIG_TAIL);
  }

  /** Lines around a block of joined entries split back into the lines and
      the entries, the empty block giving one empty line. */
  lemma Lines(head: seq<string>, entries: seq<string>, tail: seq<string>)
    requires |head| >= 1 && |tail| >= 1
    requires forall k :: 0 <= k < |head| ==> '\n' !in head[k]
    requires forall k :: 0 <= k < |entries| ==> '\n' !in entries[k]
    requires forall k :: 0 <= k < |tail| ==> '\n' !in tail[k]
    ensures Split(Join(head + [Join(entries, "\n")] + tail, "\n"), '\n') == head + Body(entries) + tail
  {
    var body := Body(entries);
    if |entries| == 0 {
      assert Join(entries, "\n") == "";
      assert [Join(entries, "\n")] == body;
    } else {
      JoinFlatten(head, entries, tail, "\n");
    }
    NoBreakInLines(head, body, tail);
    assert "\n" == ['\n'];
    SplitJoin(head + body + tail, '\n');
  }

  lemma NoBreakInLines(head: seq<string>, body: seq<string>, tail: seq<string>)
    requires forall k :: 0 <= k < |head| ==> '\n' !in head[k]
    requires forall k :: 0 <= k < |body| ==> '\n' !in body[k]
    requires forall k :: 0 <= k < |tail| ==> '\n' !in tail[k]
    ensures forall k :: 0 <= k < |head + body + tail| ==> '\n' !in (head + body + tail)[k]
  {
    var all := head + body + tail;
    forall k | 0 <= k < |all| ensures '\n' !in all[k] {
      if k < |head| {
        assert all[k] == head[k];
      } else if k < |head| + |body| {
        assert all[k] == body[k - |head|];
      } else {
        assert all[k] == tail[k - |head| - |body|];
      }
    }
  }

  lemma NoBreakInVariable(name: string, s: PaletteShade)
    requires '\n' !in name && '\n' !in s.hex
    ensures '\n' !in CssVariable(name, s)
  {
    var digits := Decimal.NatToString(s.shade);
    assert forall i :: 0 <= i < |digits| ==> digits[i] != '\n';
  }

  lemma NoBreakInEntry(s: PaletteShade)
    requires '\n' !in s.hex
    ensures '\n' !in ConfigEntry(s)
  {
    var digits := Decimal.NatToString(s.shade);
    assert forall i :: 0 <= i < |digits| ==> digits[i] != '\n';
  }
}
