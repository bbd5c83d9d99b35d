/** The e-mail address check of the contact form: the regular expression
    `^[^\s@]+@[^\s@]+\.[^\s@]+$`, and the explicit rule it amounts to. */
module Email {
  import opened Seqs
  import opened Text

  /** The class `[^\s@]`: neither white space nor `@`. */
  predicate IsAddressChar(c: char)
  {
    !IsWhiteSpace(c) && c != '@'
  }

  /** `[^\s@]+`: a non-empty run of address characters. */
  predicate IsAddressRun(s: string)
  {
    |s| > 0 && forall k :: 0 <= k < |s| ==> IsAddressChar(s[k])
  }

  /** The regular expression read literally: a run, `@` at `i`, a run, `.` at
      `j`, a run, and nothing else. Backtracking lets the `.` be any dot after
      the `@`, so the two positions are chosen existentially. */
  ghost predicate MatchesPattern(s: string)
  {
    exists i, j :: 0 < i && i + 1 < j < |s| - 1 && s[i] == '@' && s[j] == '.'
                   && IsAddressRun(s[..i]) && IsAddressRun(s[i + 1..j]) && IsAddressRun(s[j + 1..])
  }

  /** The domain has a `.` that is neither its first nor its last character. */
  predicate HasInnerDot(domain: string)
  {
    exists k :: 0 < k < |domain| - 1 && domain[k] == '.'
  }

  /** The address rule stated directly: no white space, exactly one `@`, a
      non-empty local part before it, and a domain after it holding an inner dot. */
  predicate IsValidEmail(s: string)
  {
    && NoWhiteSpace(s)
    && Count(s, '@') == 1
    && var at := IndexOf(s, '@');
       0 < at < |s| && HasInnerDot(s[at + 1..])
  }

  lemma NoAtInRun(s: string)
    requires IsAddressRun(s)
    ensures '@' !in s
  {
  }

  /** Every string the regular expression matches passes the explicit rule. */
  lemma PatternIsValid(s: string, i: nat, j: nat)
    requires 0 < i && i + 1 < j < |s| - 1 && s[i] == '@' && s[j] == '.'
    requires IsAddressRun(s[..i]) && IsAddressRun(s[i + 1..j]) && IsAddressRun(s[j + 1..])
    ensures IsValidEmail(s)
  {
    var local, domain := s[..i], s[i + 1..];
    assert domain == s[i + 1..j] + ['.'] + s[j + 1..];
    NoAtInRun(local);
    NoAtInRun(s[i + 1..j]);
    NoAtInRun(s[j + 1..]);
    assert '@' !in domain;
    SplitAround(s, i);
    IndexOfAfterPrefix(local, '@', domain);
    CountConcat(local + ['@'], domain, '@');
    CountConcat(local, ['@'], '@');
    CountZero(local, '@');
    CountZero(domain, '@');
    forall k | 0 <= k < |s|
      ensures !IsWhiteSpace(s[k])
    {
      if k < i {
        assert s[k] == local[k];
      } else if i + 1 <= k < j {
        assert s[k] == s[i + 1..j][k - i - 1];
      } else if j < k {
        assert s[k] == s[j + 1..][k - j - 1];
      }
    }
    assert domain[j - i - 1] == '.';
  }

  /** Every string passing the explicit rule is matched by the regular
      expression, with the `@` where `IndexOf` finds it. */
  lemma ValidIsPattern(s: string)
    requires IsValidEmail(s)
    ensures MatchesPattern(s)
  {
    var i := IndexOf(s, '@');
    var local, domain := s[..i], s[i + 1..];
    var k :| 0 < k < |domain| - 1 && domain[k] == '.';
    var j := i + 1 + k;
    SplitAround(s, i);
    CountConcat(local + ['@'], domain, '@');
    CountConcat(local, ['@'], '@');
    CountZero(domain, '@');
    assert s[j] == '.';
    assert forall m :: 0 <= m < |local| ==> local[m] == s[m];
    assert s[i + 1..j] == domain[..k];
    assert s[j + 1..] == domain[k + 1..];
    assert IsAddressRun(s[..i]);
    assert IsAddressRun(s[i + 1..j]);
    assert IsAddressRun(s[j + 1..]);
  }

  /** The explicit rule accepts exactly the strings the regular expression matches. */
  lemma ValidEmailIffPattern(s: string)
    ensures IsValidEmail(s) <==> MatchesPattern(s)
  {
    if MatchesPattern(s) {
      var i, j :| 0 < i && i + 1 < j < |s| - 1 && s[i] == '@' && s[j] == '.'
                  && IsAddressRun(s[..i]) && IsAddressRun(s[i + 1..j]) && IsAddressRun(s[j + 1..]);
      PatternIsValid(s, i, j);
    }
    if IsValidEmail(s) {
      ValidIsPattern(s);
    }
  }
}
