/** String.prototype.trim as section 21.1.3.25 of ECMA-262 6th edition
    (ECMAScript 2015) defines it: remove the leading and the trailing
    WhiteSpace and LineTerminator code points of a string. */
module JsString {

  /** WhiteSpace (section 11.2) or LineTerminator (section 11.3): TAB, VT, FF,
      SP, NBSP, ZWNBSP, the Unicode "Zs" space separators, LF, CR, LS and PS. */
  predicate IsWhiteSpace(c: char): (r: bool)
    ensures r ==> c <= '\U{FFFF}'
    ensures c in " \t\n\r" ==> r
  {
    || c == '\t' || c == '\U{000B}' || c == '\U{000C}' || c == ' '
    || c == '\U{00A0}' || c == '\U{FEFF}'
    || c == '\U{1680}' || ('\U{2000}' <= c <= '\U{200A}')
    || c == '\U{202F}' || c == '\U{205F}' || c == '\U{3000}'
    || c == '\n' || c == '\r' || c == '\U{2028}' || c == '\U{2029}'
  }

  /** Every character of `s` from index `from` up to (not including) `to`
      is white space. */
  predicate WhiteSpaceIn(s: string, from: nat, to: nat)
    requires from <= to <= |s|
  {
    forall i | from <= i < to :: IsWhiteSpace(s[i])
  }

  predicate AllWhiteSpace(s: string) {
    WhiteSpaceIn(s, 0, |s|)
  }

  /** `s[lo..hi]` is what trimming `s` must give: only white space lies
      outside it, and it neither starts nor ends with white space. */
  predicate IsTrimSlice(s: string, lo: nat, hi: nat) {
    && lo <= hi <= |s|
    && WhiteSpaceIn(s, 0, lo) && WhiteSpaceIn(s, hi, |s|)
    && (lo < hi ==> !IsWhiteSpace(s[lo]) && !IsWhiteSpace(s[hi - 1]))
  }

  /** `s` has no white space at either end. */
  predicate IsTrimmed(s: string) {
    s == [] || (!IsWhiteSpace(s[0]) && !IsWhiteSpace(s[|s| - 1]))
  }

  ghost predicate IsTrimmingOf(r: string, s: string) {
    exists lo: nat, hi: nat | IsTrimSlice(s, lo, hi) :: r == s[lo..hi]
  }

  /** The number of white-space characters at the start of `s`. */
  function LeadingWhiteSpace(s: string): (n: nat)
    ensures n <= |s|
    ensures WhiteSpaceIn(s, 0, n)
    ensures n < |s| ==> !IsWhiteSpace(s[n])
  {
    if s == [] || !IsWhiteSpace(s[0]) then 0
    else 1 + LeadingWhiteSpace(s[1..])
  }

  /** The number of white-space characters at the end of `s`. */
  function TrailingWhiteSpace(s: string): (n: nat)
    ensures n <= |s|
    ensures WhiteSpaceIn(s, |s| - n, |s|)
    ensures n < |s| ==> !IsWhiteSpace(s[|s| - n - 1])
  {
    if s == [] || !IsWhiteSpace(s[|s| - 1]) then 0
    else 1 + TrailingWhiteSpace(s[..|s| - 1])
  }

  /** `s.trim()` */
  function Trim(s: string): (r: string)
    ensures IsTrimmingOf(r, s)
  {
    var lo := LeadingWhiteSpace(s);
    var hi := |s| - TrailingWhiteSpace(s[lo..]);
    assert IsTrimSlice(s, lo, hi);
    s[lo..hi]
  }

  /** Trimming has exactly one possible result: whatever slice meets
      IsTrimSlice is the one Trim returns. */
  lemma TrimSliceUnique(s: string, lo: nat, hi: nat)
    requires IsTrimSlice(s, lo, hi)
    ensures s[lo..hi] == Trim(s)
  {
  }

  /** The same, for any result that meets IsTrimmingOf. */
  lemma TrimUnique(r: string, s: string)
    requires IsTrimmingOf(r, s)
    ensures r == Trim(s)
  {
  }

  /** The trimmed string is empty exactly when the input is all white space. */
  lemma TrimEmptyIff(s: string)
    ensures Trim(s) == [] <==> AllWhiteSpace(s)
  {
  }

  /** The result of trimming has no white space at either end. */
  lemma TrimIsTrimmed(s: string)
    ensures IsTrimmed(Trim(s))
  {
  }

  /** A string is its own trimming exactly when it has no white space at
      either end. */
  lemma TrimFixedIff(s: string)
    ensures Trim(s) == s <==> IsTrimmed(s)
  {
  }

  /** Trimming twice is trimming once. */
  lemma TrimIdempotent(s: string)
    ensures Trim(Trim(s)) == Trim(s)
  {
    TrimIsTrimmed(s);
    TrimFixedIff(Trim(s));
  }

  /** A blank input trims to nothing. */
  lemma TrimBlank()
    ensures Trim("   ") == ""
  {
  }

  /** Surrounding spaces are removed. */
  lemma TrimPadded()
    ensures Trim(" a ") == "a"
  {
  }
}
