/**
 * White space as the page script sees it: the characters that JavaScript's
 * String.prototype.trim removes are exactly the characters the regular
 * expression class \s matches (ECMAScript WhiteSpace and LineTerminator),
 * so trimming and the e-mail pattern share one predicate.
 */
module Text {

  /** ECMAScript WhiteSpace (tab, vertical tab, form feed, the Unicode space
      separators Zs, zero-width no-break space) and LineTerminator (line feed,
      carriage return, line and paragraph separators). */
  predicate IsSpace(c: char) {
    || c == '\t' || c == '\n' || c == '\U{000B}' || c == '\U{000C}' || c == '\r'
    || c == ' ' || c == '\U{00A0}' || c == '\U{1680}'
    || ('\U{2000}' <= c <= '\U{200A}')
    || c == '\U{2028}' || c == '\U{2029}' || c == '\U{202F}' || c == '\U{205F}'
    || c == '\U{3000}' || c == '\U{FEFF}'
  }

  ghost predicate AllSpace(s: string) {
    forall k :: 0 <= k < |s| ==> IsSpace(s[k])
  }

  /** The index of the first character at or after i that is not white
      space (|s| when there is none). */
  function SkipSpace(s: string, i: nat): nat
    requires i <= |s|
    decreases |s| - i
  {
    if i < |s| && IsSpace(s[i]) then SkipSpace(s, i + 1) else i
  }

  /** SkipSpace stops at the first character from i on that is not white
      space, and passes over white space only. */
  lemma {:induction false} SkipSpaceSpec(s: string, i: nat)
    requires i <= |s|
    ensures i <= SkipSpace(s, i) <= |s|
    ensures forall k :: i <= k < SkipSpace(s, i) ==> IsSpace(s[k])
    ensures SkipSpace(s, i) < |s| ==> !IsSpace(s[SkipSpace(s, i)])
    decreases |s| - i
  {
    if i < |s| && IsSpace(s[i]) {
      SkipSpaceSpec(s, i + 1);
    }
  }

  /** Walking back from j, but not past lo, the end of the last character
      that is not white space (lo when there is none). */
  function SkipSpaceBack(s: string, lo: nat, j: nat): nat
    requires lo <= j <= |s|
    decreases j
  {
    if lo < j && IsSpace(s[j - 1]) then SkipSpaceBack(s, lo, j - 1) else j
  }

  /** SkipSpaceBack stops just after the last character before j, and not
      before lo, that is not white space, and passes over white space only. */
  lemma {:induction false} SkipSpaceBackSpec(s: string, lo: nat, j: nat)
    requires lo <= j <= |s|
    ensures lo <= SkipSpaceBack(s, lo, j) <= j
    ensures forall k :: SkipSpaceBack(s, lo, j) <= k < j ==> IsSpace(s[k])
    ensures lo < SkipSpaceBack(s, lo, j) ==> !IsSpace(s[SkipSpaceBack(s, lo, j) - 1])
    decreases j
  {
    if lo < j && IsSpace(s[j - 1]) {
      SkipSpaceBackSpec(s, lo, j - 1);
    }
  }

  /** String.prototype.trim. */
  function Trim(s: string): string {
    SkipSpaceSpec(s, 0);
    var i := SkipSpace(s, 0);
    SkipSpaceBackSpec(s, i, |s|);
    s[i..SkipSpaceBack(s, i, |s|)]
  }

  /** What trim promises: the result is the slice of s left once the white
      space at both ends is cut off, it neither starts nor ends with white
      space, and it is empty exactly when s is white space only. */
  lemma TrimSpec(s: string)
    ensures |Trim(s)| <= |s|
    ensures exists i :: 0 <= i <= |s| - |Trim(s)| && Trim(s) == s[i..i + |Trim(s)|]
                        && AllSpace(s[..i]) && AllSpace(s[i + |Trim(s)|..])
    ensures Trim(s) != [] ==> !IsSpace(Trim(s)[0]) && !IsSpace(Trim(s)[|Trim(s)| - 1])
    ensures Trim(s) == [] <==> AllSpace(s)
  {
    SkipSpaceSpec(s, 0);
    var i := SkipSpace(s, 0);
    SkipSpaceBackSpec(s, i, |s|);
    var j := SkipSpaceBack(s, i, |s|);
    assert AllSpace(s[..i]) by {
      forall k | 0 <= k < i ensures IsSpace(s[..i][k]) {
        assert s[..i][k] == s[k];
      }
    }
    assert AllSpace(s[j..]) by {
      forall k | 0 <= k < |s| - j ensures IsSpace(s[j..][k]) {
        assert s[j..][k] == s[j + k];
      }
    }
    var r := s[i..j];
    assert r == Trim(s);
    assert r == s[i..i + |r|];
    assert r != [] ==> r[0] == s[i] && r[|r| - 1] == s[j - 1];
    assert r == [] ==> AllSpace(s) by {
      if r == [] {
        assert i == |s|;
        assert forall k :: 0 <= k < |s| ==> IsSpace(s[..i][k]);
      }
    }
  }

  /** Trimming twice is trimming once. */
  lemma TrimIdempotent(s: string)
    ensures Trim(Trim(s)) == Trim(s)
  {
    var r := Trim(s);
    TrimSpec(s);
    if r != [] {
      SkipSpaceSpec(r, 0);
      SkipSpaceBackSpec(r, 0, |r|);
      assert SkipSpace(r, 0) == 0;
      assert SkipSpaceBack(r, 0, |r|) == |r|;
      assert r[0..|r|] == r;
    }
  }
}
