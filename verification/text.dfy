/** String helpers with JavaScript's meaning: `trim` (which strips the
    ECMAScript WhiteSpace and LineTerminator characters from both ends),
    `toLowerCase` (restricted here to ASCII letters) and `includes`. */
module Text {

  /** The ECMAScript WhiteSpace and LineTerminator code points. */
  predicate IsWhitespace(c: char) {
    c == '\t' || c == '\n' || c == '\U{000B}' || c == '\U{000C}' || c == '\r' || c == ' '
    || c == '\U{00A0}' || c == '\U{1680}' || ('\U{2000}' <= c <= '\U{200A}')
    || c == '\U{2028}' || c == '\U{2029}' || c == '\U{202F}' || c == '\U{205F}'
    || c == '\U{3000}' || c == '\U{FEFF}'
  }

  /** The characters of `s` from `lo` up to (not including) `hi` are all
      whitespace. */
  predicate BlankBetween(s: string, lo: nat, hi: nat)
    requires lo <= hi <= |s|
  {
    forall k :: lo <= k < hi ==> IsWhitespace(s[k])
  }

  /** Every character of `s` is whitespace (the empty string included). */
  predicate IsBlank(s: string) {
    BlankBetween(s, 0, |s|)
  }

  /** Neither end of `s` is whitespace. */
  predicate IsTrimmed(s: string) {
    s == [] || (!IsWhitespace(s[0]) && !IsWhitespace(s[|s| - 1]))
  }

  /** Scanning forward from `i`: the first position that is not whitespace, or
      the end of `s`. */
  function SkipForward(s: string, i: nat): (r: nat)
    requires i <= |s|
    ensures i <= r <= |s| && BlankBetween(s, i, r)
    ensures r == |s| || !IsWhitespace(s[r])
    decreases |s| - i
  {
    if i < |s| && IsWhitespace(s[i]) then SkipForward(s, i + 1) else i
  }

  /** Scanning backward from `j` down to `lo`: the end of the last character
      that is not whitespace, or `lo`. */
  function SkipBackward(s: string, lo: nat, j: nat): (r: nat)
    requires lo <= j <= |s|
    ensures lo <= r <= j && BlankBetween(s, r, j)
    ensures r == lo || !IsWhitespace(s[r - 1])
    decreases j - lo
  {
    if lo < j && IsWhitespace(s[j - 1]) then SkipBackward(s, lo, j - 1) else j
  }

  /** `String.prototype.trim`: `s` without its leading and trailing
      whitespace. */
  function Trim(s: string): (r: string)
    ensures |r| <= |s|
    ensures IsTrimmed(r)
  {
    var i := SkipForward(s, 0);
    var j := SkipBackward(s, i, |s|);
    var r := s[i..j];
    if i < j then
      assert r[0] == s[i] && r[j - i - 1] == s[j - 1];
      r
    else
      r
  }

  /** The trimmed string is the slice of `s` between a blank prefix and a blank
      suffix, and neither of its ends is whitespace. */
  lemma TrimSlice(s: string)
    ensures exists i, j ::
      0 <= i <= j <= |s| && Trim(s) == s[i..j] && BlankBetween(s, 0, i) && BlankBetween(s, j, |s|)
    ensures IsTrimmed(Trim(s))
  {
    var i := SkipForward(s, 0);
    var j := SkipBackward(s, i, |s|);
    assert Trim(s) == s[i..j];
  }

  /** Trimming gives the empty string exactly when the string is blank. */
  lemma TrimEmptyIffBlank(s: string)
    ensures Trim(s) == [] <==> IsBlank(s)
  {
    var i := SkipForward(s, 0);
    var j := SkipBackward(s, i, |s|);
    assert |Trim(s)| == j - i;
  }

  /** Trimming leaves a string unchanged exactly when neither end is whitespace. */
  lemma TrimFixedPoint(s: string)
    ensures Trim(s) == s <==> IsTrimmed(s)
  {
    TrimSlice(s);
    if IsTrimmed(s) && s != [] {
      assert SkipForward(s, 0) == 0;
      assert SkipBackward(s, 0, |s|) == |s|;
      assert s[0..|s|] == s;
    }
  }

  /** Trimming a trimmed string changes nothing. */
  lemma TrimIdempotent(s: string)
    ensures Trim(Trim(s)) == Trim(s)
  {
    TrimSlice(s);
    TrimFixedPoint(Trim(s));
  }

  /** ASCII case folding of one character. */
  function LowerChar(c: char): char {
    if 'A' <= c <= 'Z' then (c as int + 32) as char else c
  }

  /** `toLowerCase`, on ASCII letters. */
  function ToLower(s: string): (r: string)
    ensures |r| == |s|
    ensures forall i :: 0 <= i < |s| ==> r[i] == LowerChar(s[i])
  {
    if |s| == 0 then [] else [LowerChar(s[0])] + ToLower(s[1..])
  }

  /** `haystack.includes(needle)`: `needle` occurs as a contiguous substring. */
  predicate Contains(haystack: string, needle: string) {
    exists i :: 0 <= i <= |haystack| - |needle| && OccursAt(haystack, needle, i)
  }

  /** `needle` occurs in `haystack` starting at position `i`. */
  predicate OccursAt(haystack: string, needle: string, i: nat) {
    i + |needle| <= |haystack| && haystack[i..i + |needle|] == needle
  }

  /** `includes` holds exactly when some slice of `haystack` equals `needle`. */
  lemma ContainsIffSlice(haystack: string, needle: string)
    ensures Contains(haystack, needle) <==>
      exists i, j :: 0 <= i <= j <= |haystack| && haystack[i..j] == needle
  {
    if Contains(haystack, needle) {
      var i :| 0 <= i <= |haystack| - |needle| && OccursAt(haystack, needle, i);
      assert haystack[i..i + |needle|] == needle;
    }
    if exists i, j :: 0 <= i <= j <= |haystack| && haystack[i..j] == needle {
      var i, j :| 0 <= i <= j <= |haystack| && haystack[i..j] == needle;
      assert OccursAt(haystack, needle, i);
    }
  }

  /** Every string contains the empty string. */
  lemma ContainsEmpty(haystack: string)
    ensures Contains(haystack, "")
  {
    assert OccursAt(haystack, "", 0);
  }
}
