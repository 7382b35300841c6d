/**
 * Character classes and trimming as JavaScript defines them. `String.prototype.trim`
 * and the regular-expression class `\s` both use the same set: the WhiteSpace and
 * LineTerminator code points of ECMAScript.
 */
module Text {

  /** ECMAScript WhiteSpace (TAB, VT, FF, SP, NBSP, ZWNBSP and category Zs) and LineTerminator (LF, CR, LS, PS). */
  predicate IsSpace(c: char) {
    c in {'\t', '\n', '\U{000B}', '\U{000C}', '\r', ' ', '\U{00A0}', '\U{1680}',
          '\U{2000}', '\U{2001}', '\U{2002}', '\U{2003}', '\U{2004}', '\U{2005}',
          '\U{2006}', '\U{2007}', '\U{2008}', '\U{2009}', '\U{200A}',
          '\U{2028}', '\U{2029}', '\U{202F}', '\U{205F}', '\U{3000}', '\U{FEFF}'}
  }

  /** The regular-expression class `\d`: ASCII digits only. */
  predicate IsDigit(c: char) {
    '0' <= c <= '9'
  }

  /** `s[i..j]` is all whitespace. */
  predicate SpaceBetween(s: string, i: int, j: int)
    requires 0 <= i && j <= |s|
  {
    forall k :: i <= k < j ==> IsSpace(s[k])
  }

  /** `s[i..j]` is all digits. */
  predicate DigitsBetween(s: string, i: int, j: int)
    requires 0 <= i && j <= |s|
  {
    forall k :: i <= k < j ==> IsDigit(s[k])
  }

  predicate AllSpace(s: string) {
    SpaceBetween(s, 0, |s|)
  }

  /** The first index at or after `i` that does not hold whitespace (or `|s|`). */
  function SkipSpace(s: string, i: nat): (r: nat)
    requires i <= |s|
    decreases |s| - i
    ensures i <= r <= |s| && SpaceBetween(s, i, r)
    ensures r < |s| ==> !IsSpace(s[r])
  {
    if i < |s| && IsSpace(s[i]) then SkipSpace(s, i + 1) else i
  }

  /** The smallest index `r <= j` with only whitespace in `s[r..j]`. */
  function SkipSpaceBack(s: string, j: nat): (r: nat)
    requires j <= |s|
    ensures r <= j && SpaceBetween(s, r, j)
    ensures 0 < r ==> !IsSpace(s[r - 1])
  {
    if 0 < j && IsSpace(s[j - 1]) then SkipSpaceBack(s, j - 1) else j
  }

  /** `s.trim()`: the slice of `s` between its leading and its trailing whitespace. */
  function Trim(s: string): (r: string)
    ensures r == [] <==> AllSpace(s)
    ensures r != [] ==> !IsSpace(r[0]) && !IsSpace(r[|r| - 1])
    ensures exists lo :: SpaceMargins(s, lo, r)
  {
    var lo := SkipSpace(s, 0);
    if lo == |s| then
      assert SpaceMargins(s, |s|, []);
      []
    else
      var hi := SkipSpaceBack(s, |s|);
      assert SpaceMargins(s, lo, s[lo..hi]);
      s[lo..hi]
  }

  /** `s` is `r` with only whitespace before it (the first `lo` characters) and after it. */
  predicate SpaceMargins(s: string, lo: int, r: string) {
    && 0 <= lo <= |s| - |r|
    && s[lo..lo + |r|] == r
    && SpaceBetween(s, 0, lo)
    && SpaceBetween(s, lo + |r|, |s|)
  }
}
