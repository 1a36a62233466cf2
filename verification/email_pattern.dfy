/** The e-mail pattern of the contact form, /^[^\s@]+@[^\s@]+\.[^\s@]+$/,
    written out as a predicate, together with a plain-words reading of it
    that the validator evaluates. */
module EmailPattern {
  import opened Wrappers
  import opened Strings

  /** One character of the class [^\s@]. */
  predicate IsPartChar(c: char) {
    !IsWs(c) && c != '@'
  }

  /** The fragment [^\s@]+ matches all of t. */
  predicate IsPart(t: string) {
    |t| > 0 && forall k :: 0 <= k < |t| ==> IsPartChar(t[k])
  }

  /** An anchored match of ^[^\s@]+@[^\s@]+\.[^\s@]+$ against s: the literal
      '@' sits at some index i and the literal '.' at some later index j, and
      the three runs around them are each matched by [^\s@]+. Backtracking
      lets the regex engine try every such split, hence the existential. */
  ghost predicate MatchesEmailRegex(s: string) {
    exists i, j ::
      && 0 <= i < j < |s| && s[i] == '@' && s[j] == '.'
      && IsPart(s[..i]) && IsPart(s[i + 1..j]) && IsPart(s[j + 1..])
  }

  /** The first index at or after `from` holding c, or |s| when there is
      none. */
  function FindChar(s: string, c: char, from: nat): (r: nat)
    requires from <= |s|
    ensures from <= r <= |s|
    decreases |s| - from
  {
    if from == |s| || s[from] == c then from else FindChar(s, c, from + 1)
  }

  /** The first index at or after `from` holding white space, or |s|. */
  function FindWs(s: string, from: nat): (r: nat)
    requires from <= |s|
    ensures from <= r <= |s|
    decreases |s| - from
  {
    if from == |s| || IsWs(s[from]) then from else FindWs(s, from + 1)
  }

  lemma {:induction false} FindCharSpec(s: string, c: char, from: nat)
    requires from <= |s|
    ensures var r := FindChar(s, c, from);
            && (forall k :: from <= k < r ==> s[k] != c)
            && (r < |s| ==> s[r] == c)
    decreases |s| - from
  {
    if from < |s| && s[from] != c {
      FindCharSpec(s, c, from + 1);
    }
  }

  lemma {:induction false} FindWsSpec(s: string, from: nat)
    requires from <= |s|
    ensures var r := FindWs(s, from);
            && (forall k :: from <= k < r ==> !IsWs(s[k]))
            && (r < |s| ==> IsWs(s[r]))
    decreases |s| - from
  {
    if from < |s| && !IsWs(s[from]) {
      FindWsSpec(s, from + 1);
    }
  }

  /** The pattern read as a left-to-right scan: no white space anywhere, a
      first '@' that is not the first character and is followed by no other
      '@', and a '.' at least two characters after the '@' that is not the
      last character. */
  predicate IsEmailAddress(s: string) {
    var at := FindChar(s, '@', 0);
    && FindWs(s, 0) == |s|
    && 0 < at && at + 2 < |s|
    && FindChar(s, '@', at + 1) == |s|
    && FindChar(s, '.', at + 2) < |s| - 1
  }

  /** Every address the scan accepts is matched by the regex. */
  lemma EmailAddressMatches(s: string)
    requires IsEmailAddress(s)
    ensures MatchesEmailRegex(s)
  {
    var i := FindChar(s, '@', 0);
    var j := FindChar(s, '.', i + 2);
    FindWsSpec(s, 0);
    FindCharSpec(s, '@', 0);
    FindCharSpec(s, '@', i + 1);
    FindCharSpec(s, '.', i + 2);
    var local, domain, tld := s[..i], s[i + 1..j], s[j + 1..];
    assert IsPart(local) by {
      forall k | 0 <= k < |local| ensures IsPartChar(local[k]) {
        assert local[k] == s[k];
      }
    }
    assert IsPart(domain) by {
      forall k | 0 <= k < |domain| ensures IsPartChar(domain[k]) {
        assert domain[k] == s[i + 1 + k];
      }
    }
    assert IsPart(tld) by {
      forall k | 0 <= k < |tld| ensures IsPartChar(tld[k]) {
        assert tld[k] == s[j + 1 + k];
      }
    }
  }

  /** The three runs of a regex match cover every character except the
      '@' and the '.', so all characters but the '@' are [^\s@]. */
  lemma MatchedRunsAreClean(s: string, i: nat, j: nat)
    requires i < j < |s| && s[j] == '.'
    requires IsPart(s[..i]) && IsPart(s[i + 1..j]) && IsPart(s[j + 1..])
    ensures 0 < i && i + 2 <= j && j + 1 < |s|
    ensures forall k :: 0 <= k < |s| && k != i ==> IsPartChar(s[k])
  {
    forall k | 0 <= k < |s| && k != i ensures IsPartChar(s[k]) {
      if k < i {
        assert s[..i][k] == s[k];
      } else if k < j {
        assert s[i + 1..j][k - i - 1] == s[k];
      } else if j < k {
        assert s[j + 1..][k - j - 1] == s[k];
      }
    }
  }

  /** A string whose only '@' is at i > 0, with a '.' at j between two
      characters after it and before the last, and no white space, is
      accepted by the scan. */
  lemma CleanSplitIsAccepted(s: string, i: nat, j: nat)
    requires 0 < i && i + 2 <= j && j + 1 < |s|
    requires s[i] == '@' && s[j] == '.'
    requires forall k :: 0 <= k < |s| && k != i ==> IsPartChar(s[k])
    ensures IsEmailAddress(s)
  {
    FindWsSpec(s, 0);
    FindCharSpec(s, '@', 0);
    FindCharSpec(s, '@', i + 1);
    FindCharSpec(s, '.', i + 2);
  }

  /** Every string the regex matches is accepted by the scan. */
  lemma MatchesAreEmailAddresses(s: string)
    requires MatchesEmailRegex(s)
    ensures IsEmailAddress(s)
  {
    var i, j :|
      && 0 <= i < j < |s| && s[i] == '@' && s[j] == '.'
      && IsPart(s[..i]) && IsPart(s[i + 1..j]) && IsPart(s[j + 1..]);
    MatchedRunsAreClean(s, i, j);
    CleanSplitIsAccepted(s, i, j);
  }

  /** The scan accepts exactly what the regular expression matches. */
  lemma EmailAddressIffRegex(s: string)
    ensures IsEmailAddress(s) <==> MatchesEmailRegex(s)
  {
    if IsEmailAddress(s) {
      EmailAddressMatches(s);
    }
    if MatchesEmailRegex(s) {
      MatchesAreEmailAddresses(s);
    }
  }
}
