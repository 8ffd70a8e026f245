/**
 * ECMAScript's String.prototype.trim, which the submit handler uses to
 * decide whether a name was entered.
 */
module JsString {

  /**
   * The characters trim removes: ECMAScript WhiteSpace (tab, vertical tab,
   * form feed, space, no-break space, zero-width no-break space and every
   * Unicode space separator) and LineTerminator (LF, CR, LS, PS).
   */
  const WHITE_SPACE: set<char> := {
    '\t', '\U{000B}', '\U{000C}', ' ', '\U{00A0}', '\U{FEFF}',
    '\U{1680}', '\U{2000}', '\U{2001}', '\U{2002}', '\U{2003}', '\U{2004}', '\U{2005}',
    '\U{2006}', '\U{2007}', '\U{2008}', '\U{2009}', '\U{200A}', '\U{202F}', '\U{205F}', '\U{3000}',
    '\n', '\r', '\U{2028}', '\U{2029}'
  }

  predicate IsWhiteSpace(c: char) {
    c in WHITE_SPACE
  }

  /** Every character of `s` is white space (an empty string included). */
  predicate IsBlank(s: string) {
    forall i :: 0 <= i < |s| ==> IsWhiteSpace(s[i])
  }

  /** The characters of `s` at indices lo up to hi are all white space. */
  ghost predicate BlankBetween(s: string, lo: int, hi: int) {
    forall i :: lo <= i < hi && 0 <= i < |s| ==> IsWhiteSpace(s[i])
  }

  /** The index of the first non-white-space character at or after `lo`, or |s|. */
  function SkipLeading(s: string, lo: nat): (i: nat)
    requires lo <= |s|
    ensures lo <= i <= |s|
    ensures BlankBetween(s, lo, i)
    ensures i < |s| ==> !IsWhiteSpace(s[i])
    decreases |s| - lo
  {
    if lo < |s| && IsWhiteSpace(s[lo]) then SkipLeading(s, lo + 1) else lo
  }

  /** The index just after the last non-white-space character in s[lo..hi], or `lo`. */
  function SkipTrailing(s: string, lo: nat, hi: nat): (j: nat)
    requires lo <= hi <= |s|
    ensures lo <= j <= hi
    ensures BlankBetween(s, j, hi)
    ensures lo < j ==> !IsWhiteSpace(s[j - 1])
    decreases hi
  {
    if lo < hi && IsWhiteSpace(s[hi - 1]) then SkipTrailing(s, lo, hi - 1) else hi
  }

  /**
   * `r` is `s[i..j]` with only white space before index i and from index j
   * on, and `r`, when not empty, neither starts nor ends with white space.
   */
  ghost predicate TrimmedAt(s: string, r: string, i: int, j: int) {
    && 0 <= i <= j <= |s| && r == s[i..j]
    && BlankBetween(s, 0, i) && BlankBetween(s, j, |s|)
    && (r != [] ==> !IsWhiteSpace(r[0]) && !IsWhiteSpace(r[|r| - 1]))
  }

  /**
   * trim(): `s` with the white space at both ends removed. The result is the
   * slice between a blank prefix and a blank suffix, starts and ends with
   * non-white-space when not empty, and is empty exactly when `s` is blank.
   */
  function Trim(s: string): (r: string)
    ensures exists i, j :: TrimmedAt(s, r, i, j)
    ensures r == [] <==> IsBlank(s)
  {
    var i := SkipLeading(s, 0);
    var j := SkipTrailing(s, i, |s|);
    assert i < j ==> s[i..j][0] == s[i] && s[i..j][j - i - 1] == s[j - 1];
    assert TrimmedAt(s, s[i..j], i, j);
    assert i == j ==> IsBlank(s) by {
      if i == j {
        forall k | 0 <= k < |s| ensures IsWhiteSpace(s[k]) {
          assert k < i || j <= k;
        }
      }
    }
    assert i < j ==> !IsBlank(s) by {
      if i < j {
        assert !IsWhiteSpace(s[i]);
      }
    }
    s[i..j]
  }
}
