/**
 * isValidEmail: the pattern ^[^\s@]+@[^\s@]+\.[^\s@]+$ read as a structural
 * predicate on strings, and proved to accept exactly the strings the pattern
 * matches.
 */
module Email {
  import opened Text

  /** A character of the class [^\s@]. */
  predicate IsPlain(c: char) {
    !IsSpace(c) && c != '@'
  }

  /** s is a (possibly empty) run of [^\s@] characters. */
  ghost predicate PlainRun(s: string) {
    forall k :: 0 <= k < |s| ==> IsPlain(s[k])
  }

  /** The pattern matches s with its literal '@' at index at and its literal
      '.' at index dot: each of the three runs around them is a non-empty run
      of [^\s@], and the anchors leave nothing before or after. */
  ghost predicate MatchesAt(s: string, at: int, dot: int) {
    && 0 < at && at + 1 < dot && dot + 1 < |s|
    && s[at] == '@' && s[dot] == '.'
    && PlainRun(s[..at]) && PlainRun(s[at + 1..dot]) && PlainRun(s[dot + 1..])
  }

  /** The regular expression's meaning: some choice of the two literals
      makes the whole string match. */
  ghost predicate MatchesPattern(s: string) {
    exists at, dot :: MatchesAt(s, at, dot)
  }

  /** Scan s for a character outside [^\s@]. */
  predicate AllPlain(s: string) {
    s == [] || (IsPlain(s[0]) && AllPlain(s[1..]))
  }

  /** The scan accepts exactly the runs of [^\s@]. */
  lemma {:induction false} AllPlainSpec(s: string)
    ensures AllPlain(s) <==> PlainRun(s)
  {
    if s != [] {
      AllPlainSpec(s[1..]);
      assert forall k :: 1 <= k < |s| ==> s[k] == s[1..][k - 1];
    }
  }

  /** String.prototype.indexOf, with |s| for "not found". */
  function IndexOf(s: string, c: char): nat {
    if s == [] then 0
    else if s[0] == c then 0
    else 1 + IndexOf(s[1..], c)
  }

  /** IndexOf finds the first c in s, or runs off the end when s has none. */
  lemma {:induction false} IndexOfSpec(s: string, c: char)
    ensures IndexOf(s, c) <= |s|
    ensures forall k :: 0 <= k < IndexOf(s, c) ==> s[k] != c
    ensures IndexOf(s, c) < |s| ==> s[IndexOf(s, c)] == c
  {
    if s != [] && s[0] != c {
      IndexOfSpec(s[1..], c);
    }
  }

  /** Scanning domain from index k: a '.' that is not its last character. */
  predicate DotFrom(domain: string, k: nat)
    decreases |domain| - k
  {
    k + 1 < |domain| && (domain[k] == '.' || DotFrom(domain, k + 1))
  }

  /** The scan finds a '.' exactly when one sits between index k and the
      last character. */
  lemma {:induction false} DotFromSpec(domain: string, k: nat)
    ensures DotFrom(domain, k) <==> exists m :: k <= m < |domain| - 1 && domain[m] == '.'
    decreases |domain| - k
  {
    if k + 1 < |domain| {
      DotFromSpec(domain, k + 1);
      if domain[k] != '.' {
        if m :| k <= m < |domain| - 1 && domain[m] == '.' {
          assert k + 1 <= m;
        }
      }
    }
  }

  /** The domain has a '.' that is neither its first nor its last character. */
  predicate HasInnerDot(domain: string) {
    DotFrom(domain, 1)
  }

  /** isValidEmail, structurally: a non-empty local part free of white space
      and '@', one '@', and a domain free of white space and '@' with an
      inner dot. */
  predicate IsValidEmail(email: string) {
    var at := IndexOf(email, '@');
    && 0 < at < |email|
    && AllPlain(email[..at])
    && AllPlain(email[at + 1..])
    && HasInnerDot(email[at + 1..])
  }

  /** A slice of a run of [^\s@] is one too. */
  lemma PlainRunSlice(s: string, i: nat, j: nat)
    requires PlainRun(s) && i <= j <= |s|
    ensures PlainRun(s[i..j])
  {
    assert forall k :: 0 <= k < j - i ==> s[i..j][k] == s[i + k];
  }

  /** What the structural predicate accepts, the pattern matches. */
  lemma ValidEmailMatches(email: string)
    requires IsValidEmail(email)
    ensures MatchesPattern(email)
  {
    IndexOfSpec(email, '@');
    var at := IndexOf(email, '@');
    var domain := email[at + 1..];
    AllPlainSpec(email[..at]);
    AllPlainSpec(domain);
    DotFromSpec(domain, 1);
    var k :| 1 <= k < |domain| - 1 && domain[k] == '.';
    var dot := at + 1 + k;
    PlainRunSlice(domain, 0, k);
    PlainRunSlice(domain, k + 1, |domain|);
    assert email[at + 1..dot] == domain[0..k];
    assert email[dot + 1..] == domain[k + 1..|domain|];
    assert MatchesAt(email, at, dot);
  }

  /** What the pattern matches, the structural predicate accepts. */
  lemma MatchesValidEmail(email: string, at: int, dot: int)
    requires MatchesAt(email, at, dot)
    ensures IsValidEmail(email)
  {
    IndexOfSpec(email, '@');
    assert forall k :: 0 <= k < at ==> email[k] == email[..at][k];
    assert IndexOf(email, '@') == at;
    var domain := email[at + 1..];
    assert domain == email[at + 1..dot] + ['.'] + email[dot + 1..];
    assert PlainRun(domain) by {
      forall k | 0 <= k < |domain| ensures IsPlain(domain[k]) {
        if k < dot - at - 1 {
          assert domain[k] == email[at + 1..dot][k];
        } else if k > dot - at - 1 {
          assert domain[k] == email[dot + 1..][k - (dot - at)];
        }
      }
    }
    AllPlainSpec(email[..at]);
    AllPlainSpec(domain);
    assert domain[dot - at - 1] == '.';
    DotFromSpec(domain, 1);
  }

  /** The structural predicate accepts exactly what the regular expression
      matches. */
  lemma IsValidEmailMatchesPattern(email: string)
    ensures IsValidEmail(email) <==> MatchesPattern(email)
  {
    if IsValidEmail(email) {
      ValidEmailMatches(email);
    }
    if MatchesPattern(email) {
      var at, dot :| MatchesAt(email, at, dot);
      MatchesValidEmail(email, at, dot);
    }
  }

  /** The number of times c occurs in s. */
  function Count(s: string, c: char): (n: nat)
    ensures n == 0 <==> c !in s
  {
    if s == [] then 0
    else (if s[0] == c then 1 else 0) + Count(s[1..], c)
  }

  /** Counting over s is counting over its two halves. */
  lemma {:induction false} CountSplit(s: string, i: nat, c: char)
    requires i <= |s|
    ensures Count(s, c) == Count(s[..i], c) + Count(s[i..], c)
  {
    if i > 0 {
      assert s[1..][..i - 1] == s[1..i];
      assert s[1..][i - 1..] == s[i..];
      CountSplit(s[1..], i - 1, c);
    } else {
      assert s[i..] == s;
    }
  }

  /** The occurrences of c in s are those before index i, the one at i, and
      those after it. */
  lemma CountAround(s: string, i: nat, c: char)
    requires i < |s| && s[i] == c
    ensures Count(s, c) == Count(s[..i], c) + 1 + Count(s[i + 1..], c)
  {
    CountSplit(s, i, c);
    CountSplit(s[i..], 1, c);
    assert s[i..][..1] == [c];
    assert s[i..][1..] == s[i + 1..];
  }

  /** The plain reading of the pattern: exactly one '@', no white space
      anywhere, and an '@' past the first character whose remainder has a
      '.' that is neither its first nor its last character. */
  ghost predicate EmailShape(email: string) {
    && Count(email, '@') == 1
    && (forall k :: 0 <= k < |email| ==> !IsSpace(email[k]))
    && exists at :: 0 < at < |email| && email[at] == '@' && InnerDot(email[at + 1..])
  }

  /** A '.' that is neither the first nor the last character of domain. */
  ghost predicate InnerDot(domain: string) {
    exists m :: 0 < m < |domain| - 1 && domain[m] == '.'
  }

  lemma ValidEmailHasShape(email: string)
    requires IsValidEmail(email)
    ensures EmailShape(email)
  {
    IndexOfSpec(email, '@');
    var at := IndexOf(email, '@');
    var domain := email[at + 1..];
    AllPlainSpec(email[..at]);
    AllPlainSpec(domain);
    DotFromSpec(domain, 1);
    CountAround(email, at, '@');
    assert '@' !in email[..at] by {
      forall k | 0 <= k < at ensures email[..at][k] != '@' {
        assert IsPlain(email[..at][k]);
      }
    }
    assert '@' !in domain by {
      forall k | 0 <= k < |domain| ensures domain[k] != '@' {
        assert IsPlain(domain[k]);
      }
    }
    forall k | 0 <= k < |email| ensures !IsSpace(email[k]) {
      if k < at {
        assert email[k] == email[..at][k];
      } else if k > at {
        assert email[k] == domain[k - at - 1];
      }
    }
  }

  /** In a string with a single '@', the first '@' is the only one: none
      lies before it or after it. */
  lemma SingleAt(email: string, a: nat)
    requires Count(email, '@') == 1 && a < |email| && email[a] == '@'
    ensures IndexOf(email, '@') == a
    ensures '@' !in email[..a] && '@' !in email[a + 1..]
  {
    CountAround(email, a, '@');
    IndexOfSpec(email, '@');
  }

  /** A slice of a string free of white space, holding no '@', is a run of
      [^\s@]. */
  lemma PlainSlice(email: string, i: nat, j: nat)
    requires i <= j <= |email|
    requires forall k :: 0 <= k < |email| ==> !IsSpace(email[k])
    requires '@' !in email[i..j]
    ensures PlainRun(email[i..j])
  {
    forall k | 0 <= k < j - i ensures IsPlain(email[i..j][k]) {
      assert email[i..j][k] == email[i + k];
    }
  }

  lemma ShapeIsValidEmail(email: string)
    requires EmailShape(email)
    ensures IsValidEmail(email)
  {
    var at :| 0 < at < |email| && email[at] == '@' && InnerDot(email[at + 1..]);
    SingleAt(email, at);
    PlainSlice(email, 0, at);
    PlainSlice(email, at + 1, |email|);
    assert email[0..at] == email[..at];
    assert email[at + 1..|email|] == email[at + 1..];
    AllPlainSpec(email[..at]);
    AllPlainSpec(email[at + 1..]);
    DotFromSpec(email[at + 1..], 1);
  }

  /** isValidEmail holds exactly for strings of the plain shape above. */
  lemma IsValidEmailShape(email: string)
    ensures IsValidEmail(email) <==> EmailShape(email)
  {
    if IsValidEmail(email) {
      ValidEmailHasShape(email);
    }
    if EmailShape(email) {
      ShapeIsValidEmail(email);
    }
  }

  /** isValidEmail rejects a string with no '@', with two or more, or with
      any white space in it. */
  lemma IsValidEmailRejects(email: string)
    ensures Count(email, '@') != 1 ==> !IsValidEmail(email)
    ensures (exists k :: 0 <= k < |email| && IsSpace(email[k])) ==> !IsValidEmail(email)
  {
    IsValidEmailShape(email);
  }
}
