/** The glyph-name fix applied to the font before it is parsed: wherever a
    glyph element reads `glyph-name="X" unicode="Y"`, the name becomes Y. */
module GlyphNames {
  import opened Wrappers
  import opened Attributes

  const NameKey := "glyph-name"
  const UnicodeKey := "unicode"
  const PathKey := "d"

  /** The pattern `glyph-name="X" unicode="Y"`, with X and Y non-empty, matches
      the attributes at positions k and k + 1. */
  predicate PairAt(a: Attrs, k: int) {
    && 0 <= k
    && k + 1 < |a|
    && a[k].key == NameKey
    && a[k + 1].key == UnicodeKey
    && a[k].value != ""
    && a[k + 1].value != ""
  }

  /** The global replace, scanning left to right and resuming after each
      match, so matches never overlap. */
  function Rewrite(a: Attrs): (r: Attrs)
    ensures |r| == |a|
    ensures forall k :: 0 <= k < |a| ==> r[k].key == a[k].key
    decreases |a|
  {
    if |a| < 2 then a
    else if PairAt(a, 0) then [Attr(NameKey, a[1].value), a[1]] + Rewrite(a[2..])
    else [a[0]] + Rewrite(a[1..])
  }

  /** Reference meaning of the rewrite at one position, independent of the scan:
      the name of a matched pair takes the unicode value, all else stays. */
  function RenamedAt(a: Attrs, k: int): Attr
    requires 0 <= k < |a|
  {
    if PairAt(a, k) then Attr(NameKey, a[k + 1].value) else a[k]
  }

  /** The left-to-right scan misses no pair: every position ends up as the
      reference meaning says. */
  lemma {:induction false} RewritePointwise(a: Attrs)
    ensures forall k :: 0 <= k < |a| ==> Rewrite(a)[k] == RenamedAt(a, k)
    decreases |a|
  {
    if |a| < 2 {
    } else if PairAt(a, 0) {
      var t := a[2..];
      RewritePointwise(t);
      forall k | 0 <= k < |a| ensures Rewrite(a)[k] == RenamedAt(a, k) {
        if k >= 2 {
          assert Rewrite(a)[k] == Rewrite(t)[k - 2];
          assert PairAt(a, k) <==> PairAt(t, k - 2);
        } else if k == 1 {
          assert !PairAt(a, 1);
        }
      }
    } else {
      var t := a[1..];
      RewritePointwise(t);
      forall k | 0 <= k < |a| ensures Rewrite(a)[k] == RenamedAt(a, k) {
        if k >= 1 {
          assert Rewrite(a)[k] == Rewrite(t)[k - 1];
          assert PairAt(a, k) <==> PairAt(t, k - 1);
        }
      }
    }
  }

  /** The rewrite keeps the set of matched positions: a pair stays a pair and
      nothing new becomes one. */
  lemma RewriteKeepsPairs(a: Attrs)
    ensures forall k :: PairAt(Rewrite(a), k) <==> PairAt(a, k)
  {
    RewritePointwise(a);
    var r := Rewrite(a);
    forall k ensures PairAt(r, k) <==> PairAt(a, k) {
      if 0 <= k && k + 1 < |a| {
        assert r[k] == RenamedAt(a, k);
        assert r[k + 1] == RenamedAt(a, k + 1);
        assert !PairAt(a, k + 1) || !PairAt(a, k);
      }
    }
  }

  /** Applying the rewrite a second time changes nothing. */
  lemma RewriteIdempotent(a: Attrs)
    ensures Rewrite(Rewrite(a)) == Rewrite(a)
  {
    var r := Rewrite(a);
    RewritePointwise(a);
    RewritePointwise(r);
    RewriteKeepsPairs(a);
    forall k | 0 <= k < |r| ensures Rewrite(r)[k] == r[k] {
      assert Rewrite(r)[k] == RenamedAt(r, k);
      if PairAt(a, k) {
        assert !PairAt(a, k + 1);
        assert r[k + 1] == a[k + 1];
      }
    }
  }

  /** In a well-formed glyph that carries the pair, the name read after the
      rewrite is the unicode value, and the unicode value is untouched. */
  lemma RewriteNamesByUnicode(a: Attrs, k: int)
    requires DistinctKeys(a)
    requires PairAt(a, k)
    ensures Lookup(Rewrite(a), NameKey) == Some(a[k + 1].value)
    ensures Lookup(Rewrite(a), UnicodeKey) == Some(a[k + 1].value)
  {
    var r := Rewrite(a);
    RewritePointwise(a);
    assert !PairAt(a, k + 1);
    assert r[k] == Attr(NameKey, a[k + 1].value);
    assert r[k + 1] == a[k + 1];
    assert DistinctKeys(r);
    LookupDistinct(r, k);
    LookupDistinct(r, k + 1);
  }

  /** The rewrite leaves a glyph unchanged exactly when every matched pair
      already has its name equal to its unicode value; in particular a glyph
      without the pair is left alone. */
  lemma RewriteUnchangedIff(a: Attrs)
    ensures Rewrite(a) == a <==> forall k :: PairAt(a, k) ==> a[k].value == a[k + 1].value
  {
    RewritePointwise(a);
    if Rewrite(a) == a {
      forall k | PairAt(a, k) ensures a[k].value == a[k + 1].value {
        assert Rewrite(a)[k] == RenamedAt(a, k);
      }
    }
    if forall k :: PairAt(a, k) ==> a[k].value == a[k + 1].value {
      forall k | 0 <= k < |a| ensures Rewrite(a)[k] == a[k] {
        assert Rewrite(a)[k] == RenamedAt(a, k);
      }
    }
  }

  /** Only `glyph-name` values can change: every other attribute reads the same
      after the rewrite (the glyph's path `d` among them). */
  lemma RewriteKeepsOtherAttrs(a: Attrs, key: string)
    requires key != NameKey
    ensures Lookup(Rewrite(a), key) == Lookup(a, key)
  {
    RewritePointwise(a);
    var r := Rewrite(a);
    forall k | 0 <= k < |a| && a[k].key == key ensures a[k] == r[k] {
      assert r[k] == RenamedAt(a, k);
    }
    LookupAgrees(a, r, key);
  }

  /** The rewrite over every glyph element of the font. */
  function RewriteGlyphs(gs: seq<Attrs>): (r: seq<Attrs>)
    ensures |r| == |gs|
    ensures forall i :: 0 <= i < |gs| ==> |r[i]| == |gs[i]|
    ensures forall i :: 0 <= i < |gs| ==> Lookup(r[i], PathKey) == Lookup(gs[i], PathKey)
  {
    var r := seq(|gs|, i requires 0 <= i < |gs| => Rewrite(gs[i]));
    assert forall i :: 0 <= i < |gs| ==> Lookup(r[i], PathKey) == Lookup(gs[i], PathKey) by {
      forall i | 0 <= i < |gs| ensures Lookup(r[i], PathKey) == Lookup(gs[i], PathKey) {
        RewriteKeepsOtherAttrs(gs[i], PathKey);
      }
    }
    r
  }
}
