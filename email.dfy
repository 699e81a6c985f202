/** The contact form's e-mail shape check, the regular expression
    /^[^\s@]+@[^\s@]+\.[^\s@]+$/ : three non-empty runs of characters that are
    neither whitespace nor `@`, joined by one `@` and then by one `.`. */
module Email {
  import opened Text

  /** A character of the class `[^\s@]`. A dot is one. */
  predicate IsPartChar(c: char) {
    !IsSpace(c) && c != '@'
  }

  /** A match of `[^\s@]+`. */
  predicate IsPart(p: string) {
    |p| > 0 && forall k :: 0 <= k < |p| ==> IsPartChar(p[k])
  }

  /** `s` reads A "@" B "." C with the `@` at index `i`, the `.` at index
      `j`, and A, B and C each a match of `[^\s@]+`. */
  ghost predicate SplitsAt(s: string, i: int, j: int) {
    && 0 <= i < j < |s|
    && s[i] == '@' && s[j] == '.'
    && IsPart(s[..i]) && IsPart(s[i + 1..j]) && IsPart(s[j + 1..])
  }

  /** The language of the anchored regular expression. */
  ghost predicate MatchesPattern(s: string) {
    exists i, j :: SplitsAt(s, i, j)
  }

  /** Index of the first `c` in `s`, or `|s|` when there is none. */
  function IndexOf(s: string, c: char): (n: nat)
    ensures n <= |s|
    ensures n < |s| ==> s[n] == c
    ensures forall k :: 0 <= k < n ==> s[k] != c
  {
    if s == [] then 0
    else if s[0] == c then 0
    else 1 + IndexOf(s[1..], c)
  }

  /** Index of the last `c` in `s`, or -1 when there is none. */
  function LastIndexOf(s: string, c: char): (n: int)
    ensures -1 <= n < |s|
    ensures 0 <= n ==> s[n] == c
    ensures forall k :: n < k < |s| ==> s[k] != c
  {
    if s == [] then -1
    else if s[|s| - 1] == c then |s| - 1
    else LastIndexOf(s[..|s| - 1], c)
  }

  /** The test the regular expression performs, computed the way a
      backtracking matcher finds it: the local part runs up to the first
      `@`; the domain is everything after it and must be one `[^\s@]+` run;
      `\.` is the last dot before the final character, and must leave at
      least one character in front of it. */
  function IsValidEmail(email: string): bool {
    var at := IndexOf(email, '@');
    if at == 0 || at == |email| then false
    else
      var domain := email[at + 1..];
      && IsPart(email[..at])
      && IsPart(domain)
      && LastIndexOf(domain[..|domain| - 1], '.') > 0
  }

  /** Where an accepted string splits: at its first `@`, and at the last
      dot strictly inside its domain. */
  lemma ValidEmailSplitsAt(s: string)
    requires IsValidEmail(s)
    ensures var at := IndexOf(s, '@'); var domain := s[at + 1..];
      SplitsAt(s, at, at + 1 + LastIndexOf(domain[..|domain| - 1], '.'))
  {
    var at := IndexOf(s, '@');
    var domain := s[at + 1..];
    var k := LastIndexOf(domain[..|domain| - 1], '.');
    var j := at + 1 + k;
    assert s[at + 1..j] == domain[..k];
    assert s[j + 1..] == domain[k + 1..];
    assert SplitsAt(s, at, j);
  }

  /** Every string the computed test accepts is in the pattern's language. */
  lemma ValidEmailMatchesPattern(s: string)
    requires IsValidEmail(s)
    ensures MatchesPattern(s)
  {
    ValidEmailSplitsAt(s);
  }

  /** The domain of a split address, everything after its `@`, is one
      `[^\s@]+` run with a dot that has a character on each side. */
  lemma SplitDomain(s: string, i: int, j: int)
    requires SplitsAt(s, i, j)
    ensures IsPart(s[i + 1..])
    ensures 0 < j - i - 1 < |s[i + 1..]| - 1 && s[i + 1..][j - i - 1] == '.'
  {
    var domain := s[i + 1..];
    var b, c := s[i + 1..j], s[j + 1..];
    forall k | 0 <= k < |domain|
      ensures IsPartChar(domain[k])
    {
      if k < j - i - 1 {
        assert domain[k] == b[k];
      } else if k > j - i - 1 {
        assert domain[k] == c[k - (j - i)];
      }
    }
  }

  /** Every string in the pattern's language passes the computed test. */
  lemma PatternMatchIsValidEmail(s: string)
    requires MatchesPattern(s)
    ensures IsValidEmail(s)
  {
    var i, j :| SplitsAt(s, i, j);
    var local := s[..i];
    assert IndexOf(s, '@') == i by {
      forall k | 0 <= k < i
        ensures s[k] != '@'
      {
        assert s[k] == local[k];
      }
    }
    SplitDomain(s, i, j);
    var domain := s[i + 1..];
    var d := j - i - 1;
    assert domain[..|domain| - 1][d] == '.';
  }

  /** The computed test accepts exactly the language of the pattern. */
  lemma IsValidEmailMatchesPattern(s: string)
    ensures IsValidEmail(s) <==> MatchesPattern(s)
  {
    if IsValidEmail(s) {
      ValidEmailMatchesPattern(s);
    }
    if MatchesPattern(s) {
      PatternMatchIsValidEmail(s);
    }
  }

  /** A valid address has no whitespace and exactly one `@`. */
  lemma ValidEmailHasOneAt(s: string)
    requires IsValidEmail(s)
    ensures forall k :: 0 <= k < |s| ==> !IsSpace(s[k])
    ensures exists k :: 0 <= k < |s| && s[k] == '@'
    ensures forall k, m :: 0 <= k < |s| && 0 <= m < |s| && s[k] == '@' && s[m] == '@' ==> k == m
  {
    var at := IndexOf(s, '@');
    var local, domain := s[..at], s[at + 1..];
    forall k | 0 <= k < |s| && k != at
      ensures IsPartChar(s[k])
    {
      if k < at {
        assert s[k] == local[k];
      } else {
        assert s[k] == domain[k - at - 1];
      }
    }
  }

  /** The plainest address the pattern accepts. */
  lemma AcceptsPlainAddress()
    ensures IsValidEmail("a@b.c")
  {
    var s := "a@b.c";
    assert s[..1] == "a" && s[2..3] == "b" && s[4..] == "c";
    assert SplitsAt(s, 1, 3);
    IsValidEmailMatchesPattern(s);
  }

  /** Dots may also stand in the local part and in either domain run. */
  lemma AcceptsDottedParts()
    ensures IsValidEmail("a.b@c.d.e")
  {
    var s := "a.b@c.d.e";
    assert s[..3] == "a.b" && s[4..5] == "c" && s[6..] == "d.e";
    assert SplitsAt(s, 3, 5);
    IsValidEmailMatchesPattern(s);
  }

  /** Two dots in a row pass: the first belongs to the run before `\.`. */
  lemma AcceptsDoubleDot()
    ensures IsValidEmail("a@b..c")
  {
    var s := "a@b..c";
    assert s[..1] == "a" && s[2..4] == "b." && s[5..] == "c";
    assert SplitsAt(s, 1, 4);
    IsValidEmailMatchesPattern(s);
  }

  /** Addresses the pattern rejects for a missing part: no dot in the
      domain, nothing before or after the dot, nothing before the `@`. */
  lemma RejectsMissingParts()
    ensures !IsValidEmail("a@b")
    ensures !IsValidEmail("a@.c")
    ensures !IsValidEmail("a@b.")
    ensures !IsValidEmail("@b.c")
  {
    assert IndexOf("a@b", '@') == 1 && "a@b"[2..] == "b";
    assert LastIndexOf("", '.') == -1;
    assert IndexOf("a@.c", '@') == 1 && "a@.c"[2..] == ".c" && ".c"[..1] == ".";
    assert LastIndexOf(".", '.') == 0;
    assert IndexOf("a@b.", '@') == 1 && "a@b."[2..] == "b." && "b."[..1] == "b";
    assert LastIndexOf("b", '.') == -1;
    assert IndexOf("@b.c", '@') == 0;
  }

  /** Addresses the pattern rejects for a character outside `[^\s@]`: a
      second `@`, a space. */
  lemma RejectsBadCharacters()
    ensures !IsValidEmail("a@b@c.d")
    ensures !IsValidEmail("a b@c.d")
  {
    assert IndexOf("a@b@c.d", '@') == 1 && "a@b@c.d"[2..][1] == '@';
    assert IndexOf("a b@c.d", '@') == 3 && "a b@c.d"[..3][1] == ' ';
  }
}
