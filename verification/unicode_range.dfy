/** The code base of the font: the start of the font-face `unicode-range`
    attribute, read as JavaScript's `parseInt("0x" + part, 16)` does. */
module UnicodeRange {
  import opened Wrappers

  /** A digit `parseInt` accepts in radix 16 (either letter case). */
  predicate IsHexDigit(c: char) {
    ('0' <= c <= '9') || ('a' <= c <= 'f') || ('A' <= c <= 'F')
  }

  predicate AllHex(s: string) {
    forall k :: 0 <= k < |s| ==> IsHexDigit(s[k])
  }

  /** The value `parseInt` gives a radix-16 digit: `a`-`f` and `A`-`F` both
      stand for 10-15. */
  function DigitValue(c: char): (v: nat)
    requires IsHexDigit(c)
    ensures v < 16
    ensures c == "0123456789abcdef"[v] || c == "0123456789ABCDEF"[v]
  {
    if '0' <= c <= '9' then c as int - '0' as int
    else if 'a' <= c <= 'f' then c as int - 'a' as int + 10
    else c as int - 'A' as int + 10
  }

  /** The upper-case digit for a value below 16; the inverse of DigitValue on
      upper-case digits. */
  function HexChar(d: nat): (c: char)
    requires d < 16
    ensures IsHexDigit(c) && DigitValue(c) == d
  {
    "0123456789ABCDEF"[d]
  }

  function Pow16(n: nat): (p: nat)
    ensures p >= 1
  {
    if n == 0 then 1 else 16 * Pow16(n - 1)
  }

  /** The number a string of hex digits denotes, most significant first; a run
      of n digits denotes a number below 16^n. */
  function HexValue(s: string): (v: nat)
    requires AllHex(s)
    ensures v < Pow16(|s|)
    decreases |s|
  {
    if |s| == 0 then 0 else HexValue(s[..|s| - 1]) * 16 + DigitValue(s[|s| - 1])
  }

  /** Length of the longest prefix made of hex digits. */
  function HexPrefixLength(s: string): (n: nat)
    ensures n <= |s|
    ensures AllHex(s[..n])
    ensures n < |s| ==> !IsHexDigit(s[n])
  {
    if |s| == 0 || !IsHexDigit(s[0]) then 0
    else
      var m := HexPrefixLength(s[1..]);
      assert s[..m + 1] == [s[0]] + s[1..][..m];
      m + 1
  }

  /** `parseInt("0x" + s, 16)`: the prefix `0x` is stripped, the longest run of
      hex digits is read, and without any digit the result is NaN (None). */
  function ParseIntHex(s: string): (r: Option<nat>)
    ensures r.None? <==> |s| == 0 || !IsHexDigit(s[0])
  {
    var n := HexPrefixLength(s);
    if n == 0 then None else Some(HexValue(s[..n]))
  }

  /** `s` holds `pat` starting at position p. */
  predicate OccursAt(s: string, pat: string, p: int) {
    0 <= p && p + |pat| <= |s| && s[p..p + |pat|] == pat
  }

  /** `s.indexOf(pat, from)`: the first occurrence at or after `from`. */
  function IndexOf(s: string, pat: string, from: nat): (r: Option<nat>)
    ensures r.Some? ==> from <= r.value && OccursAt(s, pat, r.value)
    ensures r.Some? ==> forall q :: from <= q < r.value ==> !OccursAt(s, pat, q)
    ensures r.None? ==> forall q :: from <= q ==> !OccursAt(s, pat, q)
    decreases |s| - from
  {
    if from + |pat| > |s| then None
    else if s[from..from + |pat|] == pat then Some(from)
    else IndexOf(s, pat, from + 1)
  }

  /** `s.replace(pat, "")` with a string pattern: only the first occurrence
      is removed. */
  function RemoveFirst(s: string, pat: string): (r: string)
    ensures forall p :: OccursAt(s, pat, p) && (forall q :: 0 <= q < p ==> !OccursAt(s, pat, q))
              ==> r == s[..p] + s[p + |pat|..]
    ensures (forall p :: !OccursAt(s, pat, p)) ==> r == s
  {
    match IndexOf(s, pat, 0)
    case Some(p) => s[..p] + s[p + |pat|..]
    case None => s
  }

  /** `s.split(sep)[0]`: the text before the first separator, or all of `s`. */
  function BeforeFirst(s: string, sep: string): (r: string)
    ensures forall p :: OccursAt(s, sep, p) && (forall q :: 0 <= q < p ==> !OccursAt(s, sep, q))
              ==> r == s[..p]
    ensures (forall p :: !OccursAt(s, sep, p)) ==> r == s
  {
    match IndexOf(s, sep, 0)
    case Some(p) => s[..p]
    case None => s
  }

  /** build/script.js lines 27-28: strip `U+`, cut at `-`, read hex. The
      result is NaN (None) exactly when what is left does not start with a
      hex digit. */
  function RangeStart(range: string): (r: Option<nat>)
    ensures var part := BeforeFirst(RemoveFirst(range, "U+"), "-");
      r.None? <==> |part| == 0 || !IsHexDigit(part[0])
  {
    ParseIntHex(BeforeFirst(RemoveFirst(range, "U+"), "-"))
  }

  /** The digit run at the front of `h + t` is exactly `h` when `t` does not
      start with a digit. */
  lemma {:induction false} HexPrefixOfDigits(h: string, t: string)
    requires AllHex(h)
    requires |t| == 0 || !IsHexDigit(t[0])
    ensures HexPrefixLength(h + t) == |h|
    decreases |h|
  {
    if |h| == 0 {
      assert h + t == t;
    } else {
      HexPrefixOfDigits(h[1..], t);
      assert (h + t)[1..] == h[1..] + t;
    }
  }

  /** Reading stops exactly at the first non-digit: a digit run `h` followed
      by anything that does not start with a digit reads as `h`'s value. */
  lemma ParseIntHexStops(h: string, t: string)
    requires |h| > 0 && AllHex(h)
    requires |t| == 0 || !IsHexDigit(t[0])
    ensures ParseIntHex(h + t) == Some(HexValue(h))
  {
    HexPrefixOfDigits(h, t);
    assert (h + t)[..|h|] == h;
  }

  /** The upper-case hex spelling of a number, without leading zeros. */
  function ToHex(n: nat): (s: string)
    ensures |s| > 0 && AllHex(s)
    ensures NoDash(s)
    decreases n
  {
    if n < 16 then [HexChar(n)] else ToHex(n / 16) + [HexChar(n % 16)]
  }

  /** Reading a spelled-out number back gives the number. */
  lemma {:induction false} HexRoundTrip(n: nat)
    ensures HexValue(ToHex(n)) == n
    decreases n
  {
    var s := ToHex(n);
    if n < 16 {
      assert s[..0] == [];
    } else {
      HexRoundTrip(n / 16);
      assert s[..|s| - 1] == ToHex(n / 16);
    }
  }

  /** Stripping `U+` from text that starts with it leaves the rest. */
  lemma RemoveLeadingPrefix(s: string)
    ensures RemoveFirst("U+" + s, "U+") == s
  {
    var full := "U+" + s;
    assert OccursAt(full, "U+", 0);
    assert full[2..] == s;
  }

  predicate NoDash(h: string) {
    forall k :: 0 <= k < |h| ==> h[k] != '-'
  }

  /** Cutting `h-rest` at the first dash gives `h` when `h` has no dash. */
  lemma CutAtDash(h: string, rest: string)
    requires NoDash(h)
    ensures BeforeFirst(h + "-" + rest, "-") == h
  {
    var cut := h + "-" + rest;
    assert OccursAt(cut, "-", |h|) by { assert cut[|h|..|h| + 1] == "-"; }
    forall q | 0 <= q < |h| ensures !OccursAt(cut, "-", q) {
      assert cut[q..q + 1][0] == h[q];
    }
    assert cut[..|h|] == h;
  }

  /** Text without a dash is not cut at all. */
  lemma CutWithoutDash(h: string)
    requires NoDash(h)
    ensures BeforeFirst(h, "-") == h
  {
    forall p | 0 <= p < |h| ensures !OccursAt(h, "-", p) {
      assert h[p..p + 1][0] == h[p];
    }
    assert IndexOf(h, "-", 0).None?;
  }

  /** A range `U+<h>-<rest>` or `U+<h>` starts at the value of the digit run h. */
  lemma RangeStartOfDigits(h: string, rest: string)
    requires |h| > 0 && AllHex(h)
    ensures RangeStart("U+" + h + "-" + rest) == Some(HexValue(h))
    ensures RangeStart("U+" + h) == Some(HexValue(h))
  {
    assert NoDash(h);
    assert "U+" + h + "-" + rest == "U+" + (h + "-" + rest);
    RemoveLeadingPrefix(h + "-" + rest);
    CutAtDash(h, rest);
    RemoveLeadingPrefix(h);
    CutWithoutDash(h);
    ParseIntHexStops(h, "");
    assert h + "" == h;
  }

  /** Writing a number as a range start and parsing it back gives the number. */
  lemma RangeStartRoundTrip(n: nat, rest: string)
    ensures RangeStart("U+" + ToHex(n) + "-" + rest) == Some(n)
    ensures RangeStart("U+" + ToHex(n)) == Some(n)
  {
    RangeStartOfDigits(ToHex(n), rest);
    HexRoundTrip(n);
  }

  /** Letter case does not matter: two digit strings whose digits read alike,
      such as `e000` and `E000`, denote the same number. */
  lemma {:induction false} HexValueCaseless(s: string, t: string)
    requires AllHex(s) && AllHex(t) && |s| == |t|
    requires forall k :: 0 <= k < |s| ==> DigitValue(s[k]) == DigitValue(t[k])
    ensures HexValue(s) == HexValue(t)
    decreases |s|
  {
    if |s| > 0 {
      HexValueCaseless(s[..|s| - 1], t[..|t| - 1]);
    }
  }

  /** The digits of the font's own range start denote 0xE000. */
  lemma HexValueE000()
    ensures AllHex("E000") && HexValue("E000") == 57344
  {
    assert HexValue("E") == 14 by { assert "E"[..0] == []; }
    assert HexValue("E0") == 224 by { assert "E0"[..1] == "E"; }
    assert HexValue("E00") == 3584 by { assert "E00"[..2] == "E0"; }
    assert "E000"[..3] == "E00";
  }

  /** The font's range spelled as its parts, so that the prover does not
      evaluate the literal text. */
  lemma RangeStartOfParts(range: string, h: string, rest: string)
    requires h == "E000" && rest == "E0FF" && range == "U+" + h + "-" + rest
    ensures RangeStart(range) == Some(57344)
  {
    HexValueE000();
    RangeStartOfDigits(h, rest);
  }

  /** The font's own range: `U+E000-E0FF` starts at 0xE000 = 57344. */
  lemma RangeStartExample()
    ensures RangeStart("U+E000-E0FF") == Some(57344)
  {
    RangeStartOfParts("U+E000-E0FF", "E000", "E0FF");
  }
}
