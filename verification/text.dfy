/** Character classes and string operations the script takes from Python's
    `str`: `strip()` with no argument and `startswith`. */
module Text {

  /** Python's `str.isspace` on one character, i.e. the characters `strip()`
      removes when called without an argument: the ASCII controls TAB, LF, VT,
      FF, CR, the four information separators U+001C..U+001F, SPACE, NEL,
      NO-BREAK SPACE and the Unicode space separators and line/paragraph
      separators. */
  predicate IsSpace(c: char) {
    || ('\t' <= c <= '\r')
    || ('\U{1C}' <= c <= '\U{1F}')
    || c == ' '
    || c == '\U{85}'
    || c == '\U{A0}'
    || c == '\U{1680}'
    || ('\U{2000}' <= c <= '\U{200A}')
    || c == '\U{2028}'
    || c == '\U{2029}'
    || c == '\U{202F}'
    || c == '\U{205F}'
    || c == '\U{3000}'
  }

  /** Every character of `s` is whitespace; in Python terms `not s.strip()`. */
  predicate AllSpace(s: string) {
    forall i :: 0 <= i < |s| ==> IsSpace(s[i])
  }

  /** `s` neither begins nor ends with whitespace. */
  predicate Trimmed(s: string) {
    |s| == 0 || (!IsSpace(s[0]) && !IsSpace(s[|s| - 1]))
  }

  /** Cutting `s` at `i` and `j` leaves a whitespace prefix `s[..i]`, a
      whitespace suffix `s[j..]`, and a middle with no whitespace at either end. */
  ghost predicate StripsAt(s: string, i: int, j: int) {
    && 0 <= i <= j <= |s|
    && AllSpace(s[..i])
    && AllSpace(s[j..])
    && Trimmed(s[i..j])
  }

  /** `r` is what is left of `s` once a whitespace prefix and a whitespace
      suffix are cut off, and `r` itself has no whitespace at either end.
      This is the meaning of `s.strip()`, independent of how it is computed. */
  ghost predicate StripsTo(s: string, r: string) {
    exists i, j :: StripsAt(s, i, j) && s[i..j] == r
  }

  /** Number of whitespace characters at the start of `s`. */
  function LeadingSpace(s: string): (n: nat)
    ensures n <= |s|
    ensures AllSpace(s[..n])
    ensures n < |s| ==> !IsSpace(s[n])
  {
    if |s| > 0 && IsSpace(s[0]) then
      var m := LeadingSpace(s[1..]);
      assert s[..1 + m] == [s[0]] + s[1..][..m];
      assert 1 + m < |s| ==> s[1 + m] == s[1..][m];
      1 + m
    else
      0
  }

  /** Number of whitespace characters at the end of `s`. */
  function TrailingSpace(s: string): (n: nat)
    ensures n <= |s|
    ensures AllSpace(s[|s| - n..])
    ensures n < |s| ==> !IsSpace(s[|s| - n - 1])
  {
    if |s| > 0 && IsSpace(s[|s| - 1]) then
      var init := s[..|s| - 1];
      var m := TrailingSpace(init);
      assert s[|s| - (1 + m)..] == init[|init| - m..] + [s[|s| - 1]];
      assert 1 + m < |s| ==> s[|s| - (1 + m) - 1] == init[|init| - m - 1];
      1 + m
    else
      0
  }

  /** Python's `s.strip()`. */
  function Strip(s: string): (r: string)
    ensures StripsTo(s, r)
    ensures Trimmed(r)
    ensures |r| <= |s|
    ensures r == [] <==> AllSpace(s)
  {
    var i := LeadingSpace(s);
    var t := s[i..];
    var j := |t| - TrailingSpace(t);
    var r := t[..j];
    assert s[i..i + j] == r;
    assert s[i + j..] == t[j..];
    assert StripsAt(s, i, i + j);
    assert AllSpace(s) ==> i == |s|;
    assert i == |s| ==> s == s[..i];
    r
  }

  lemma SpaceBefore(s: string, i: int, k: int)
    requires 0 <= k < i <= |s| && AllSpace(s[..i])
    ensures IsSpace(s[k])
  {
    assert s[..i][k] == s[k];
  }

  lemma SpaceFrom(s: string, j: int, k: int)
    requires 0 <= j <= k < |s| && AllSpace(s[j..])
    ensures IsSpace(s[k])
  {
    assert s[j..][k - j] == s[k];
  }

  /** Two ways of cutting `s` as in `StripsAt` keep the same middle. */
  lemma StripsAtSameMiddle(s: string, i1: int, j1: int, i2: int, j2: int)
    requires StripsAt(s, i1, j1) && StripsAt(s, i2, j2)
    ensures s[i1..j1] == s[i2..j2]
  {
    if i1 < j1 && i2 < j2 {
      // Both middles start at the first non-space of s and end after the last.
      assert s[i1..j1][0] == s[i1] && s[i2..j2][0] == s[i2];
      if i1 < i2 { SpaceBefore(s, i2, i1); }
      if i2 < i1 { SpaceBefore(s, i1, i2); }
      assert s[i1..j1][j1 - i1 - 1] == s[j1 - 1] && s[i2..j2][j2 - i2 - 1] == s[j2 - 1];
      if j1 < j2 { SpaceFrom(s, j1, j2 - 1); }
      if j2 < j1 { SpaceFrom(s, j2, j1 - 1); }
    } else if i1 < j1 {
      // The second middle is empty, so s is whitespace only, yet s[i1] is not.
      assert s[i1..j1][0] == s[i1];
      if i1 < i2 { SpaceBefore(s, i2, i1); } else { SpaceFrom(s, j2, i1); }
    } else if i2 < j2 {
      assert s[i2..j2][0] == s[i2];
      if i2 < i1 { SpaceBefore(s, i1, i2); } else { SpaceFrom(s, j1, i2); }
    }
  }

  /** `strip()` has a single possible result: the decomposition in
      `StripsTo` is forced by the characters of `s`. */
  lemma StripsToUnique(s: string, r1: string, r2: string)
    requires StripsTo(s, r1) && StripsTo(s, r2)
    ensures r1 == r2
  {
    var i1, j1 :| StripsAt(s, i1, j1) && s[i1..j1] == r1;
    var i2, j2 :| StripsAt(s, i2, j2) && s[i2..j2] == r2;
    StripsAtSameMiddle(s, i1, j1, i2, j2);
  }

  /** Python's `s.startswith(p)`. */
  predicate StartsWith(s: string, p: string) {
    |p| <= |s| && s[..|p|] == p
  }

  /** `startswith` compares character by character. */
  lemma StartsWithCharwise(s: string, p: string)
    ensures StartsWith(s, p) <==> |p| <= |s| && forall k :: 0 <= k < |p| ==> s[k] == p[k]
  {
    if |p| <= |s| && forall k :: 0 <= k < |p| ==> s[k] == p[k] {
      assert s[..|p|] == p;
    }
  }
}
