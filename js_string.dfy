/**
 * The part of JavaScript's string semantics the answer check relies on:
 * `String.prototype.trim`, which strips leading and trailing white space as
 * ECMAScript defines it (the WhiteSpace and LineTerminator code points).
 */
module JsString {

  /**
   * Tab, line feed, vertical tab, form feed and carriage return (U+0009 to
   * U+000D), space, no-break space, the other Unicode space separators (among
   * them the ideographic space U+3000), the line and paragraph separators and
   * the byte-order mark.
   */
  predicate IsJsWhiteSpace(c: char)
  {
    ('\t' <= c <= '\r') || c == ' ' || c == '\U{A0}' || c == '\U{1680}' ||
    ('\U{2000}' <= c <= '\U{200A}') || c == '\U{2028}' || c == '\U{2029}' ||
    c == '\U{202F}' || c == '\U{205F}' || c == '\U{3000}' || c == '\U{FEFF}'
  }

  /** Every character of `s` is white space (vacuously so for ""). */
  predicate Blank(s: string)
  {
    forall i :: 0 <= i < |s| ==> IsJsWhiteSpace(s[i])
  }

  /** The first position at or after `i` that does not hold white space, or `|s|`. */
  function SkipForward(s: string, i: nat): (k: nat)
    requires i <= |s|
    ensures i <= k <= |s|
    decreases |s| - i
  {
    if i == |s| || !IsJsWhiteSpace(s[i]) then i else SkipForward(s, i + 1)
  }

  /** `SkipForward` passes over white space only and stops at the first other character. */
  lemma {:induction false} SkipForwardStops(s: string, i: nat)
    requires i <= |s|
    ensures var k := SkipForward(s, i);
      (forall j :: i <= j < k ==> IsJsWhiteSpace(s[j])) && (k < |s| ==> !IsJsWhiteSpace(s[k]))
    decreases |s| - i
  {
    if i < |s| && IsJsWhiteSpace(s[i]) {
      SkipForwardStops(s, i + 1);
    }
  }

  /** The position just after the last non-white-space character before `j`, or 0. */
  function SkipBackward(s: string, j: nat): (k: nat)
    requires j <= |s|
    ensures k <= j
  {
    if j == 0 || !IsJsWhiteSpace(s[j - 1]) then j else SkipBackward(s, j - 1)
  }

  /** `SkipBackward` passes over white space only and stops after the last other character. */
  lemma {:induction false} SkipBackwardStops(s: string, j: nat)
    requires j <= |s|
    ensures var k := SkipBackward(s, j);
      (forall i :: k <= i < j ==> IsJsWhiteSpace(s[i])) && (k > 0 ==> !IsJsWhiteSpace(s[k - 1]))
  {
    if j > 0 && IsJsWhiteSpace(s[j - 1]) {
      SkipBackwardStops(s, j - 1);
    }
  }

  /** `s.trim()`: `s` without its leading and trailing white space. */
  function Trim(s: string): (r: string)
    ensures |r| <= |s|
  {
    var a := SkipForward(s, 0);
    var b := SkipBackward(s, |s|);
    if a < b then s[a..b] else ""
  }

  /**
   * What `trim` keeps and removes: the result is empty exactly when `s` is
   * blank; otherwise it is the stretch of `s` from its first to its last
   * non-white-space character, and everything of `s` outside it is white
   * space.
   */
  lemma TrimSpec(s: string)
    ensures Trim(s) == "" <==> Blank(s)
    ensures var r, a := Trim(s), SkipForward(s, 0);
      a + |r| <= |s| && r == s[a..a + |r|] &&
      (r != "" ==> !IsJsWhiteSpace(r[0]) && !IsJsWhiteSpace(r[|r| - 1])) &&
      (forall k :: 0 <= k < a ==> IsJsWhiteSpace(s[k])) &&
      (forall k :: a + |r| <= k < |s| ==> IsJsWhiteSpace(s[k]))
  {
    SkipForwardStops(s, 0);
    SkipBackwardStops(s, |s|);
  }
}
