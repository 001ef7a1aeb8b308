/**
 * The character classes of JavaScript that the login screen relies on:
 * the `\s` class and the `.` class of its e-mail regular expression, and
 * the white space that `Number(...)` strips before reading a string.
 *
 * Both `\s` and the white space stripped by the string-to-number conversion
 * are ECMAScript's WhiteSpace and LineTerminator code points; the set is
 * written out here as it stands in Unicode 15 (category Zs plus TAB, VT, FF,
 * NBSP, ZWNBSP, LF, CR, LS and PS).
 */
module JsText {

  /** ECMAScript LineTerminator: the characters `.` does not match. */
  predicate IsLineTerminator(c: char)
  {
    c == '\n' || c == '\r' || c == '\U{2028}' || c == '\U{2029}'
  }

  /** ECMAScript WhiteSpace. */
  predicate IsWhiteSpace(c: char)
  {
    c == '\t' || c == '\U{000B}' || c == '\U{000C}' || c == ' ' ||
    c == '\U{00A0}' || c == '\U{FEFF}' || c == '\U{1680}' ||
    ('\U{2000}' <= c <= '\U{200A}') ||
    c == '\U{202F}' || c == '\U{205F}' || c == '\U{3000}'
  }

  /** The regular-expression class `\s`, which is also the set of characters
      `Number(...)` ignores around a numeral. */
  predicate IsSpace(c: char)
  {
    IsWhiteSpace(c) || IsLineTerminator(c)
  }

  predicate IsDecimalDigit(c: char)
  {
    '0' <= c <= '9'
  }

  predicate IsAsciiLetter(c: char)
  {
    'a' <= c <= 'z' || 'A' <= c <= 'Z'
  }

  predicate AllSpace(s: string)
  {
    forall i :: 0 <= i < |s| ==> IsSpace(s[i])
  }

  /** The first position at or after `i` that does not hold `\s`. */
  function SkipSpace(s: string, i: nat): (k: nat)
    requires i <= |s|
    ensures i <= k <= |s|
    ensures forall j :: i <= j < k ==> IsSpace(s[j])
    ensures k < |s| ==> !IsSpace(s[k])
    decreases |s| - i
  {
    if i < |s| && IsSpace(s[i]) then SkipSpace(s, i + 1) else i
  }

  /** The end of `s[lo..hi]` once its trailing `\s` characters are dropped. */
  function SkipSpaceBack(s: string, lo: nat, hi: nat): (k: nat)
    requires lo <= hi <= |s|
    ensures lo <= k <= hi
    ensures forall j :: k <= j < hi ==> IsSpace(s[j])
    ensures lo < k ==> !IsSpace(s[k - 1])
    decreases hi
  {
    if lo < hi && IsSpace(s[hi - 1]) then SkipSpaceBack(s, lo, hi - 1) else hi
  }

  /** `s` without `\s` characters at either end, as `String.prototype.trim`
      and the string-to-number conversion see it: the piece of `s` left once
      a run of `\s` is cut from each end, and that piece neither starts nor
      ends with `\s` (so it is empty exactly when `s` is all `\s`). */
  function Trim(s: string): (t: string)
    ensures exists lo, hi :: 0 <= lo <= hi <= |s| && t == s[lo..hi] &&
                             AllSpace(s[..lo]) && AllSpace(s[hi..])
    ensures t == [] || (!IsSpace(t[0]) && !IsSpace(t[|t| - 1]))
    ensures t == [] <==> AllSpace(s)
    ensures forall i :: 0 <= i < |t| ==> t[i] in s
  {
    var lo := SkipSpace(s, 0);
    var hi := SkipSpaceBack(s, lo, |s|);
    var t := s[lo..hi];
    assert forall i :: 0 <= i < |t| ==> t[i] == s[lo + i];
    assert AllSpace(s[..lo]) && AllSpace(s[hi..]) by {
      assert forall j :: 0 <= j < lo ==> s[..lo][j] == s[j];
      assert forall j :: 0 <= j < |s| - hi ==> s[hi..][j] == s[hi + j];
    }
    if lo == hi then
      assert forall j :: 0 <= j < |s| ==> IsSpace(s[j]);
      t
    else
      assert !IsSpace(s[lo]);
      t
  }

  /** A string with no `\s` character at all is its own trim. */
  lemma TrimNoSpace(s: string)
    requires forall i :: 0 <= i < |s| ==> !IsSpace(s[i])
    ensures Trim(s) == s
  {
  }

  /** Trimming twice changes nothing more. */
  lemma TrimIdempotent(s: string)
    ensures Trim(Trim(s)) == Trim(s)
  {
    var t := Trim(s);
    if t != [] {
      assert SkipSpace(t, 0) == 0;
      assert SkipSpaceBack(t, 0, |t|) == |t|;
    }
  }

  /** `" 3 "` trims to `"3"`. */
  lemma TrimSample(s: string)
    requires s == " 3 "
    ensures Trim(s) == "3"
  {
    assert SkipSpace(s, 1) == 1;
    assert SkipSpace(s, 0) == 1;
    assert SkipSpaceBack(s, 1, 2) == 2;
    assert SkipSpaceBack(s, 1, 3) == 2;
  }

  /** `s.length` in JavaScript: the number of UTF-16 code units, so a code
      point above U+FFFF counts twice. */
  function Utf16Length(s: string): (n: nat)
    ensures |s| <= n <= 2 * |s|
    ensures (forall i :: 0 <= i < |s| ==> s[i] <= '\U{FFFF}') ==> n == |s|
  {
    if s == [] then 0
    else (if s[0] <= '\U{FFFF}' then 1 else 2) + Utf16Length(s[1..])
  }
}
