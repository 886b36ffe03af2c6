/** The Fontello configuration built from the font (build/script.js lines
    14-58): a fixed header and one glyph entry per glyph element that carries
    an outline, in font order. */
module FontelloConfig {
  import opened Wrappers
  import opened Attributes
  import opened GlyphNames
  import opened UnicodeRange

  const ConfigName := "webhostinghub-glyphs"
  const CssPrefix := "icon-"
  const Origin := "custom_icons"
  const GlyphWidth := 1000

  datatype Svg = Svg(path: string, width: int)

  /** One entry of `fontelloCfg.glyphs`. A None name stands for JavaScript's
      `undefined` (a glyph without `glyph-name`); a None code for `NaN` (a
      range start that does not parse). */
  datatype GlyphEntry = GlyphEntry(
    css: Option<string>,
    src: string,
    code: Option<int>,
    selected: bool,
    svg: Svg,
    search: seq<Option<string>>)

  datatype Config = Config(
    name: string,
    ascent: int,
    unitsPerEm: int,
    cssUseSuffix: bool,
    cssPrefixText: string,
    glyphs: seq<GlyphEntry>)

  /** The font-face attributes the script reads; `ascent` and `units-per-em`
      are taken as already converted to numbers. */
  datatype FontFace = FontFace(unicodeRange: Option<string>, ascent: int, unitsPerEm: int)

  /** The parsed font: its font-face and the attributes of each glyph element. */
  datatype Font = Font(face: FontFace, glyphs: seq<Attrs>)

  /** The TypeErrors that end the script before a configuration exists. */
  datatype BuildError =
    | MissingUnicodeRange                 // `undefined.replace` on line 27
    | NoGlyphElements                     // `font.glyph` is undefined on line 37
    | GlyphWithoutAttributes(index: nat)  // `glyph.$` is undefined, line 41 reads `.d` of it

  /** `glyph.d` is truthy: the attribute exists and is not empty. */
  predicate HasPath(g: Attrs) {
    Lookup(g, PathKey).Some? && Lookup(g, PathKey).value != ""
  }

  /** The code the script assigns to the glyph at position i of the full list. */
  function CodeAt(start: Option<nat>, i: nat): Option<int> {
    if start.Some? then Some(start.value + i) else None
  }

  /** The record pushed for the glyph at position i (lines 45-57). */
  function Emit(g: Attrs, start: Option<nat>, i: nat): GlyphEntry
    requires HasPath(g)
  {
    var name := Lookup(g, NameKey);
    GlyphEntry(name, Origin, CodeAt(start, i), true, Svg(Lookup(g, PathKey).value, GlyphWidth), [name])
  }

  /** The fixed shape every pushed record has, whatever the glyph. */
  predicate EntryShape(e: GlyphEntry) {
    && e.src == Origin
    && e.selected
    && e.svg.width == GlyphWidth
    && e.svg.path != ""
    && e.search == [e.css]
  }

  /** `fontelloCfg.glyphs` after the forEach callback has run for the first n
      glyphs: it started empty and each call pushed at most one record. */
  function GlyphsUpTo(gs: seq<Attrs>, start: Option<nat>, n: nat): (r: seq<GlyphEntry>)
    requires n <= |gs|
    ensures |r| <= n
    ensures forall k :: 0 <= k < |r| ==> EntryShape(r[k])
    ensures start.Some? ==> forall k :: 0 <= k < |r| ==> r[k].code.Some? && r[k].code.value >= start.value
  {
    if n == 0 then []
    else
      var prev := GlyphsUpTo(gs, start, n - 1);
      if HasPath(gs[n - 1]) then prev + [Emit(gs[n - 1], start, n - 1)] else prev
  }

  /** The finished glyph list. */
  function Glyphs(gs: seq<Attrs>, start: Option<nat>): seq<GlyphEntry> {
    GlyphsUpTo(gs, start, |gs|)
  }

  /** The positions, among the first n glyphs, of those carrying a path: an
      independent account of which glyphs the loop keeps. */
  function KeptUpTo(gs: seq<Attrs>, n: nat): (r: seq<nat>)
    requires n <= |gs|
    ensures |r| <= n
    ensures forall k :: 0 <= k < |r| ==> r[k] < n && HasPath(gs[r[k]])
  {
    if n == 0 then []
    else
      var prev := KeptUpTo(gs, n - 1);
      if HasPath(gs[n - 1]) then prev + [n - 1] else prev
  }

  /** The kept positions are listed in increasing order and none is missing. */
  lemma {:induction false} KeptSortedComplete(gs: seq<Attrs>, n: nat)
    requires n <= |gs|
    ensures forall k, l :: 0 <= k < l < |KeptUpTo(gs, n)| ==> KeptUpTo(gs, n)[k] < KeptUpTo(gs, n)[l]
    ensures forall i :: 0 <= i < n && HasPath(gs[i]) ==> i in KeptUpTo(gs, n)
  {
    if n > 0 {
      KeptSortedComplete(gs, n - 1);
    }
  }

  function Kept(gs: seq<Attrs>): seq<nat> {
    KeptUpTo(gs, |gs|)
  }

  /** How many of the first n glyphs the loop skips for want of a path. */
  function SkippedUpTo(gs: seq<Attrs>, n: nat): nat
    requires n <= |gs|
  {
    if n == 0 then 0
    else SkippedUpTo(gs, n - 1) + (if HasPath(gs[n - 1]) then 0 else 1)
  }

  /** The loop's output is the kept glyphs, in order, each emitted with its
      position in the full list. */
  lemma {:induction false} GlyphsUpToAreKept(gs: seq<Attrs>, start: Option<nat>, n: nat)
    requires n <= |gs|
    ensures |GlyphsUpTo(gs, start, n)| == |KeptUpTo(gs, n)|
    ensures forall k :: 0 <= k < |KeptUpTo(gs, n)| ==>
              GlyphsUpTo(gs, start, n)[k] == Emit(gs[KeptUpTo(gs, n)[k]], start, KeptUpTo(gs, n)[k])
  {
    if n > 0 {
      GlyphsUpToAreKept(gs, start, n - 1);
    }
  }

  /** Every glyph is either kept or skipped. */
  lemma {:induction false} KeptPlusSkipped(gs: seq<Attrs>, n: nat)
    requires n <= |gs|
    ensures |KeptUpTo(gs, n)| + SkippedUpTo(gs, n) == n
  {
    if n > 0 {
      KeptPlusSkipped(gs, n - 1);
    }
  }

  /** What the loop keeps after m glyphs is a prefix of what it keeps after n. */
  lemma {:induction false} KeptPrefix(gs: seq<Attrs>, m: nat, n: nat)
    requires m <= n <= |gs|
    ensures |KeptUpTo(gs, m)| <= |KeptUpTo(gs, n)|
    ensures KeptUpTo(gs, n)[..|KeptUpTo(gs, m)|] == KeptUpTo(gs, m)
    decreases n - m
  {
    var c, b := KeptUpTo(gs, m), KeptUpTo(gs, n);
    if m == n {
      assert b[..|b|] == b;
    } else {
      KeptPrefix(gs, m, n - 1);
      var a := KeptUpTo(gs, n - 1);
      assert b == a || b == a + [n - 1];
      assert b[..|a|] == a;
      assert b[..|c|] == a[..|c|];
    }
  }

  /** The glyph list only grows: after n glyphs it extends the list after m. */
  lemma {:induction false} GlyphsOnlyGrow(gs: seq<Attrs>, start: Option<nat>, m: nat, n: nat)
    requires m <= n <= |gs|
    ensures GlyphsUpTo(gs, start, 0) == []
    ensures |GlyphsUpTo(gs, start, m)| <= |GlyphsUpTo(gs, start, n)|
    ensures GlyphsUpTo(gs, start, n)[..|GlyphsUpTo(gs, start, m)|] == GlyphsUpTo(gs, start, m)
    decreases n - m
  {
    if m < n {
      GlyphsOnlyGrow(gs, start, m, n - 1);
      var a, b := GlyphsUpTo(gs, start, n - 1), GlyphsUpTo(gs, start, n);
      assert b[..|a|] == a;
    }
  }

  /** The output is a subsequence of the input: a strictly increasing choice of
      positions, exactly those whose glyph has a path, and each entry takes its
      name, path and code from the glyph at its position. */
  lemma GlyphsSubsequence(gs: seq<Attrs>, start: Option<nat>)
    ensures var out, idx := Glyphs(gs, start), Kept(gs);
      && |out| == |idx| <= |gs|
      && (forall k, l :: 0 <= k < l < |idx| ==> idx[k] < idx[l])
      && (forall i :: 0 <= i < |gs| ==> (i in idx <==> HasPath(gs[i])))
      && (forall k :: 0 <= k < |out| ==>
            && out[k].css == Lookup(gs[idx[k]], NameKey)
            && out[k].search == [Lookup(gs[idx[k]], NameKey)]
            && out[k].svg.path == Lookup(gs[idx[k]], PathKey).value
            && out[k].code == CodeAt(start, idx[k]))
  {
    GlyphsUpToAreKept(gs, start, |gs|);
    KeptSortedComplete(gs, |gs|);
  }

  /** No entry lacks a path, and every entry has the fixed fields. */
  lemma GlyphsHavePaths(gs: seq<Attrs>, start: Option<nat>)
    ensures forall e :: e in Glyphs(gs, start) ==>
              e.svg.path != "" && e.src == Origin && e.selected && e.svg.width == GlyphWidth && e.search == [e.css]
  {
    var out := Glyphs(gs, start);
    forall e | e in out ensures EntryShape(e) {
      var k :| 0 <= k < |out| && out[k] == e;
    }
  }

  /** With a parsed range start, codes increase strictly in output order, so
      no two entries share one. */
  lemma CodesIncrease(gs: seq<Attrs>, start: nat)
    ensures var out := Glyphs(gs, Some(start));
      && (forall k :: 0 <= k < |out| ==> out[k].code.Some? && out[k].code.value >= start)
      && (forall k, l :: 0 <= k < l < |out| ==> out[k].code.value < out[l].code.value)
  {
    GlyphsUpToAreKept(gs, Some(start), |gs|);
    KeptSortedComplete(gs, |gs|);
  }

  /** Between two consecutive entries the code grows by one plus the number of
      glyphs skipped between their sources, all of which lack a path. */
  lemma CodeGap(gs: seq<Attrs>, start: nat, k: nat)
    requires k + 1 < |Kept(gs)|
    ensures var out, idx := Glyphs(gs, Some(start)), Kept(gs);
      && |out| == |idx|
      && idx[k] < idx[k + 1]
      && out[k + 1].code.value - out[k].code.value == idx[k + 1] - idx[k]
      && (forall j :: idx[k] < j < idx[k + 1] ==> !HasPath(gs[j]))
  {
    GlyphsUpToAreKept(gs, Some(start), |gs|);
    KeptSortedComplete(gs, |gs|);
  }

  /** The k-th kept position has exactly k kept positions before it. */
  lemma KeptRank(gs: seq<Attrs>, n: nat, k: nat)
    requires n <= |gs|
    requires k < |KeptUpTo(gs, n)|
    ensures KeptUpTo(gs, n)[k] < n
    ensures |KeptUpTo(gs, KeptUpTo(gs, n)[k])| == k
  {
    var idx := KeptUpTo(gs, n);
    var i := idx[k];
    KeptSortedComplete(gs, n);
    KeptPrefix(gs, i + 1, n);
    var p := KeptUpTo(gs, i + 1);
    assert p == KeptUpTo(gs, i) + [i];
    assert idx[|p| - 1] == i;
  }

  /** Each skipped glyph uses up a code: the k-th entry's code is the start
      plus k plus the number of glyphs skipped before its source. */
  lemma CodeCountsSkipped(gs: seq<Attrs>, start: nat, k: nat)
    requires k < |Kept(gs)|
    ensures var out, idx := Glyphs(gs, Some(start)), Kept(gs);
      |out| == |idx| && out[k].code == Some(start + k + SkippedUpTo(gs, idx[k]))
  {
    var i := Kept(gs)[k];
    GlyphsUpToAreKept(gs, Some(start), |gs|);
    assert Glyphs(gs, Some(start))[k].code == Some(start + i);
    KeptRank(gs, |gs|, k);
    KeptPlusSkipped(gs, i);
    assert SkippedUpTo(gs, i) == i - k;
  }

  /** The codes are the contiguous run start, start + 1, ... over the whole
      font exactly when no glyph is skipped. */
  lemma CodesContiguousIff(gs: seq<Attrs>, start: nat)
    ensures var out := Glyphs(gs, Some(start));
      (|out| == |gs| && forall k :: 0 <= k < |out| ==> out[k].code == Some(start + k))
      <==> (forall i :: 0 <= i < |gs| ==> HasPath(gs[i]))
  {
    var out := Glyphs(gs, Some(start));
    if forall i :: 0 <= i < |gs| ==> HasPath(gs[i]) {
      AllKeptIsIdentity(gs, |gs|);
      GlyphsUpToAreKept(gs, Some(start), |gs|);
    }
    if |out| == |gs| {
      GlyphsUpToAreKept(gs, Some(start), |gs|);
      forall i | 0 <= i < |gs| ensures HasPath(gs[i]) {
        AllKeptHavePaths(gs, |gs|, i);
      }
    }
  }

  /** When every glyph has a path the loop keeps every position. */
  lemma {:induction false} AllKeptIsIdentity(gs: seq<Attrs>, n: nat)
    requires n <= |gs|
    requires forall i :: 0 <= i < n ==> HasPath(gs[i])
    ensures |KeptUpTo(gs, n)| == n
    ensures forall k :: 0 <= k < n ==> KeptUpTo(gs, n)[k] == k
  {
    if n > 0 {
      AllKeptIsIdentity(gs, n - 1);
    }
  }

  /** When as many glyphs are kept as there are, none was skipped. */
  lemma {:induction false} AllKeptHavePaths(gs: seq<Attrs>, n: nat, i: nat)
    requires n <= |gs|
    requires |KeptUpTo(gs, n)| == n
    requires i < n
    ensures HasPath(gs[i])
  {
    if i < n - 1 && HasPath(gs[n - 1]) {
      AllKeptHavePaths(gs, n - 1, i);
    }
  }

  /** Whether a glyph's path survives does not depend on the name rewrite, so
      the rewritten font keeps the same positions as the font as read. */
  lemma {:induction false} KeptAgrees(a: seq<Attrs>, b: seq<Attrs>, n: nat)
    requires |a| == |b| && n <= |a|
    requires forall i :: 0 <= i < |a| ==> Lookup(a[i], PathKey) == Lookup(b[i], PathKey)
    ensures KeptUpTo(a, n) == KeptUpTo(b, n)
  {
    if n > 0 {
      KeptAgrees(a, b, n - 1);
    }
  }

  /** End to end: after the name rewrite, the k-th entry comes from the k-th
      glyph with a path in the font as read; its path and code are that glyph's,
      and in a well-formed glyph carrying `glyph-name="X" unicode="Y"` its name
      and search term are Y. */
  lemma RenamedGlyphsFromSource(gs: seq<Attrs>, start: Option<nat>)
    ensures var out, idx := Glyphs(RewriteGlyphs(gs), start), Kept(gs);
      && |out| == |idx|
      && forall k :: 0 <= k < |out| ==>
           && out[k].svg.path == Lookup(gs[idx[k]], PathKey).value
           && out[k].code == CodeAt(start, idx[k])
           && out[k].css == Lookup(Rewrite(gs[idx[k]]), NameKey)
           && forall j :: DistinctKeys(gs[idx[k]]) && PairAt(gs[idx[k]], j) ==>
                out[k].css == Some(gs[idx[k]][j + 1].value) && out[k].search == [out[k].css]
  {
    var rs := RewriteGlyphs(gs);
    var out, idx := Glyphs(rs, start), Kept(gs);
    KeptAgrees(rs, gs, |gs|);
    GlyphsUpToAreKept(rs, start, |rs|);
    forall k, j | 0 <= k < |out| && DistinctKeys(gs[idx[k]]) && PairAt(gs[idx[k]], j)
      ensures out[k].css == Some(gs[idx[k]][j + 1].value)
    {
      RewriteNamesByUnicode(gs[idx[k]], j);
    }
  }

  /** The loop does not make names unique: a glyph with a path that occurs
      twice gives two entries with the same name, whatever that name is. */
  lemma DuplicateNamesKept(g: Attrs, start: Option<nat>)
    requires HasPath(g)
    ensures var out := Glyphs([g, g], start);
      |out| == 2 && out[0].css == out[1].css == Lookup(g, NameKey)
  {
    assert GlyphsUpTo([g, g], start, 1) == [Emit(g, start, 0)];
  }

  /** The forEach loop of lines 37-58, run glyph by glyph. A glyph element
      with no attributes at all has no `$` object, and reading `.d` of it
      throws. */
  method GlyphLoop(gs: seq<Attrs>, start: Option<nat>) returns (r: Result<seq<GlyphEntry>, BuildError>)
    ensures r.Success? <==> forall i :: 0 <= i < |gs| ==> |gs[i]| > 0
    ensures r.Success? ==> r.value == Glyphs(gs, start)
    ensures r.Failure? ==> && r.error.GlyphWithoutAttributes?
                           && r.error.index < |gs|
                           && |gs[r.error.index]| == 0
                           && forall j :: 0 <= j < r.error.index ==> |gs[j]| > 0
  {
    var glyphs: seq<GlyphEntry> := [];
    var i := 0;
    while i < |gs|
      invariant i <= |gs|
      invariant glyphs == GlyphsUpTo(gs, start, i)
      invariant forall j :: 0 <= j < i ==> |gs[j]| > 0
    {
      var g := gs[i];
      if |g| == 0 {
        return Failure(GlyphWithoutAttributes(i));
      }
      if HasPath(g) {
        glyphs := glyphs + [Emit(g, start, i)];
      }
      assert glyphs == GlyphsUpTo(gs, start, i + 1);
      i := i + 1;
    }
    assert glyphs == Glyphs(gs, start);
    return Success(glyphs);
  }

  /** The whole configuration (lines 19-58): rewrite the names, read the code
      base, fill in the header, then run the glyph loop. */
  method BuildConfig(font: Font) returns (r: Result<Config, BuildError>)
    ensures font.face.unicodeRange.None? ==> r == Failure(MissingUnicodeRange)
    ensures font.face.unicodeRange.Some? && |font.glyphs| == 0 ==> r == Failure(NoGlyphElements)
    ensures r.Success? <==> && font.face.unicodeRange.Some?
                            && |font.glyphs| > 0
                            && forall i :: 0 <= i < |font.glyphs| ==> |font.glyphs[i]| > 0
    ensures font.face.unicodeRange.Some? && |font.glyphs| > 0 && r.Failure? ==> r.error.GlyphWithoutAttributes?
    ensures r.Failure? && r.error.GlyphWithoutAttributes? ==>
              && r.error.index < |font.glyphs|
              && |font.glyphs[r.error.index]| == 0
              && forall j :: 0 <= j < r.error.index ==> |font.glyphs[j]| > 0
    ensures r.Success? ==> && r.value.name == ConfigName
                           && r.value.ascent == font.face.ascent
                           && r.value.unitsPerEm == font.face.unitsPerEm
                           && !r.value.cssUseSuffix
                           && r.value.cssPrefixText == CssPrefix
    ensures r.Success? ==>
              r.value.glyphs == Glyphs(RewriteGlyphs(font.glyphs), RangeStart(font.face.unicodeRange.value))
  {
    var renamed := RewriteGlyphs(font.glyphs);
    if font.face.unicodeRange.None? {
      return Failure(MissingUnicodeRange);
    }
    var start := RangeStart(font.face.unicodeRange.value);
    if |renamed| == 0 {
      return Failure(NoGlyphElements);
    }
    var glyphs := GlyphLoop(renamed, start);
    match glyphs
    case Failure(e) =>
      return Failure(e);
    case Success(list) =>
      return Success(Config(ConfigName, font.face.ascent, font.face.unitsPerEm, false, CssPrefix, list));
  }
}
