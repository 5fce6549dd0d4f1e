/**
 * The search form: the submit button is disabled while the search box,
 * trimmed of surrounding white space as JavaScript's `String.prototype.trim`
 * does, is empty.
 */
module SearchForm {

  /**
   * ECMAScript's WhiteSpace: tab, vertical tab, form feed, space, no-break
   * space, zero-width no-break space, and the Unicode space separators (Zs).
   */
  predicate IsEcmaWhiteSpace(c: char) {
    c == '\t' || c == '\U{0B}' || c == '\U{0C}' || c == ' ' || c == '\U{A0}' || c == '\U{FEFF}' ||
    c == '\U{1680}' || ('\U{2000}' <= c <= '\U{200A}') || c == '\U{202F}' || c == '\U{205F}' ||
    c == '\U{3000}'
  }

  /** ECMAScript's LineTerminator: line feed, carriage return, line and paragraph separators. */
  predicate IsLineTerminator(c: char) {
    c == '\n' || c == '\r' || c == '\U{2028}' || c == '\U{2029}'
  }

  /**
   * The characters `trim` removes, as code-point ranges: exactly ECMAScript's
   * WhiteSpace and LineTerminator.
   */
  function IsJsWhitespace(c: char): (w: bool)
    ensures w <==> IsEcmaWhiteSpace(c) || IsLineTerminator(c)
  {
    var n := c as int;
    (0x09 <= n <= 0x0D) || n == 0x20 || n == 0xA0 || n == 0x1680 ||
    (0x2000 <= n <= 0x200A) || n == 0x2028 || n == 0x2029 || n == 0x202F ||
    n == 0x205F || n == 0x3000 || n == 0xFEFF
  }

  /** The first position at or after `i` that does not hold white space (`|s|` if there is none). */
  function SkipWhitespace(s: string, i: nat): (k: nat)
    requires i <= |s|
    ensures i <= k <= |s|
    ensures forall j :: i <= j < k ==> IsJsWhitespace(s[j])
    ensures k < |s| ==> !IsJsWhitespace(s[k])
    decreases |s| - i
  {
    if i < |s| && IsJsWhitespace(s[i]) then SkipWhitespace(s, i + 1) else i
  }

  /** The end of `s[lo..hi]` once its trailing white space is dropped. */
  function SkipWhitespaceBack(s: string, lo: nat, hi: nat): (k: nat)
    requires lo <= hi <= |s|
    ensures lo <= k <= hi
    ensures forall j :: k <= j < hi ==> IsJsWhitespace(s[j])
    ensures k > lo ==> !IsJsWhitespace(s[k - 1])
    decreases hi
  {
    if lo < hi && IsJsWhitespace(s[hi - 1]) then SkipWhitespaceBack(s, lo, hi - 1) else hi
  }

  /**
   * `s.trim()`: the piece of `s` left once the white space at both ends is
   * dropped; it starts at `SkipWhitespace(s, 0)`. Everything dropped is white space, and what is kept is empty or
   * starts and ends with a character that is not.
   */
  function Trim(s: string): (r: string)
    ensures SkipWhitespace(s, 0) + |r| <= |s|
    ensures r == s[SkipWhitespace(s, 0)..SkipWhitespace(s, 0) + |r|]
    ensures forall i :: 0 <= i < SkipWhitespace(s, 0) ==> IsJsWhitespace(s[i])
    ensures forall i :: SkipWhitespace(s, 0) + |r| <= i < |s| ==> IsJsWhitespace(s[i])
    ensures r != [] ==> !IsJsWhitespace(r[0]) && !IsJsWhitespace(r[|r| - 1])
    ensures r == [] <==> forall i :: 0 <= i < |s| ==> IsJsWhitespace(s[i])
  {
    var lo := SkipWhitespace(s, 0);
    var hi := SkipWhitespaceBack(s, lo, |s|);
    s[lo..hi]
  }

  /** Whether the search button is enabled (`disabled={!searchTerm.trim()}`): some character is not white space. */
  function CanSubmit(searchTerm: string): (enabled: bool)
    ensures enabled <==> exists i :: 0 <= i < |searchTerm| && !IsJsWhitespace(searchTerm[i])
  {
    Trim(searchTerm) != ""
  }
}
