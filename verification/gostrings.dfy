/**
 * The two functions of Go's `strings` package that the bootstrap interpreter
 * relies on: `strings.TrimSpace` (applied to a captured command's standard
 * output) and `strings.SplitN(s, "=", 2)` (applied to a direct assignment).
 * Strings are sequences of Unicode scalar values.
 */
module GoStrings {

  /** Go's `unicode.IsSpace`: the characters with the Unicode White_Space property. */
  predicate IsSpace(c: char) {
    || ('\t' <= c <= '\r')          // \t \n \v \f \r
    || c == ' '
    || c == '\U{85}'                // NEL
    || c == '\U{A0}'                // NO-BREAK SPACE
    || c == '\U{1680}'
    || ('\U{2000}' <= c <= '\U{200A}')
    || c == '\U{2028}' || c == '\U{2029}'
    || c == '\U{202F}' || c == '\U{205F}'
    || c == '\U{3000}'
  }

  predicate AllSpace(s: string) {
    forall i :: 0 <= i < |s| ==> IsSpace(s[i])
  }

  /** A string with no white space at either end (the empty string included). */
  predicate Trimmed(s: string) {
    |s| > 0 ==> !IsSpace(s[0]) && !IsSpace(s[|s| - 1])
  }

  /** `r` is `s` with only white space removed from its two ends. */
  ghost predicate StripsOnlySpace(s: string, r: string) {
    exists i, j :: 0 <= i <= j <= |s| && r == s[i..j] && AllSpace(s[..i]) && AllSpace(s[j..])
  }

  /** The length of the longest all-space prefix of `s`. */
  function LeadingSpaces(s: string): (k: nat)
    ensures k <= |s|
    ensures forall i :: 0 <= i < k ==> IsSpace(s[i])
    ensures k < |s| ==> !IsSpace(s[k])
  {
    if |s| > 0 && IsSpace(s[0]) then 1 + LeadingSpaces(s[1..]) else 0
  }

  /** The length of the longest all-space suffix of `s`. */
  function TrailingSpaces(s: string): (k: nat)
    ensures k <= |s|
    ensures forall i :: |s| - k <= i < |s| ==> IsSpace(s[i])
    ensures k < |s| ==> !IsSpace(s[|s| - k - 1])
  {
    if |s| > 0 && IsSpace(s[|s| - 1]) then 1 + TrailingSpaces(s[..|s| - 1]) else 0
  }

  /**
   * `strings.TrimSpace`: removes all leading and trailing white space.
   * The result keeps the middle of `s` untouched and has no white space at
   * either end; it is empty exactly when `s` is all white space.
   */
  function TrimSpace(s: string): (r: string)
    ensures Trimmed(r)
    ensures StripsOnlySpace(s, r)
    ensures r == [] <==> AllSpace(s)
  {
    var i := LeadingSpaces(s);
    if i == |s| then
      assert s[..i] == s && s[i..] == [];
      s[i..i]
    else
      var j := |s| - TrailingSpaces(s);
      assert !IsSpace(s[i]);
      s[i..j]
  }

  /** Trimming is idempotent: a trimmed string is its own trim. */
  lemma TrimSpaceIdempotent(s: string)
    ensures TrimSpace(TrimSpace(s)) == TrimSpace(s)
  {
    TrimmedIsFixedPoint(TrimSpace(s));
  }

  /** A string without surrounding white space is left unchanged by `TrimSpace`. */
  lemma TrimmedIsFixedPoint(t: string)
    requires Trimmed(t)
    ensures TrimSpace(t) == t
  {
    if |t| > 0 {
      assert LeadingSpaces(t) == 0;
      assert TrailingSpaces(t) == 0;
      assert t[0..|t|] == t;
    }
  }

  /** The index of the first `c` in `s`, or `|s|` when `c` does not occur. */
  function IndexOf(s: string, c: char): (k: nat)
    ensures k <= |s|
    ensures forall i :: 0 <= i < k ==> s[i] != c
    ensures k < |s| ==> s[k] == c
  {
    if |s| == 0 || s[0] == c then 0 else 1 + IndexOf(s[1..], c)
  }

  /**
   * `strings.SplitN(s, sep, 2)` for a one-character separator: a single part
   * (the whole string) when `sep` does not occur, otherwise the text before
   * the first `sep` and everything after it.
   */
  function SplitN2(s: string, sep: char): (parts: seq<string>)
    ensures 1 <= |parts| <= 2
    ensures |parts| == 1 <==> sep !in s
    ensures |parts| == 1 ==> parts[0] == s
    ensures |parts| == 2 ==> s == parts[0] + [sep] + parts[1] && sep !in parts[0]
  {
    var k := IndexOf(s, sep);
    if k == |s| then
      [s]
    else
      assert s == s[..k] + [sep] + s[k + 1..];
      [s[..k], s[k + 1..]]
  }

  /** Splitting at the first `sep` is determined by the part before it. */
  lemma SplitN2AtFirst(s: string, sep: char, before: string, after: string)
    requires s == before + [sep] + after
    requires sep !in before
    ensures SplitN2(s, sep) == [before, after]
  {
    var k := IndexOf(s, sep);
    assert forall i :: 0 <= i < |before| ==> s[i] == before[i];
    assert s[|before|] == sep;
    assert k == |before|;
    assert s[..k] == before;
    assert s[k + 1..] == after;
  }
}
