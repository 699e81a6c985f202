/** Whitespace and trimming, as JavaScript's `String.prototype.trim` and the
    regular-expression class `\s` see them. Both use the same set of code
    points, so one predicate serves the form validator and the e-mail check. */
module Text {

  /** ECMAScript's WhiteSpace and LineTerminator code points: tab, vertical
      tab, form feed, the byte-order mark and every space separator (Zs),
      plus line feed, carriage return and the line and paragraph separators. */
  predicate IsSpace(c: char) {
    || c == '\t' || c == '\n' || c == '\U{B}' || c == '\U{C}' || c == '\r'
    || c == ' ' || c == '\U{A0}' || c == '\U{1680}'
    || ('\U{2000}' <= c <= '\U{200A}')
    || c == '\U{2028}' || c == '\U{2029}' || c == '\U{202F}' || c == '\U{205F}'
    || c == '\U{3000}' || c == '\U{FEFF}'
  }

  /** A string made of whitespace only (the empty string included). */
  predicate IsBlank(s: string) {
    forall k :: 0 <= k < |s| ==> IsSpace(s[k])
  }

  /** Drops the leading whitespace. */
  function TrimStart(s: string): string {
    if s != [] && IsSpace(s[0]) then TrimStart(s[1..]) else s
  }

  /** Drops the trailing whitespace. */
  function TrimEnd(s: string): string {
    if s != [] && IsSpace(s[|s| - 1]) then TrimEnd(s[..|s| - 1]) else s
  }

  /** `String.prototype.trim`. */
  function Trim(s: string): string {
    TrimEnd(TrimStart(s))
  }

  /** What TrimStart leaves is a suffix of `s` that is empty or starts with
      a non-space, and everything it drops is space. */
  lemma {:induction false} TrimStartMeaning(s: string)
    ensures |TrimStart(s)| <= |s| && TrimStart(s) == s[|s| - |TrimStart(s)|..]
    ensures forall k :: 0 <= k < |s| - |TrimStart(s)| ==> IsSpace(s[k])
    ensures TrimStart(s) != [] ==> !IsSpace(TrimStart(s)[0])
  {
    if s != [] && IsSpace(s[0]) {
      var t := s[1..];
      TrimStartMeaning(t);
      var r := TrimStart(t);
      assert TrimStart(s) == r;
      assert t[|t| - |r|..] == s[|s| - |r|..];
      forall k | 0 <= k < |s| - |r|
        ensures IsSpace(s[k])
      {
        if k > 0 {
          assert s[k] == t[k - 1];
        }
      }
    }
  }

  /** What TrimEnd leaves is a prefix of `s` that is empty or ends with a
      non-space, and everything it drops is space. */
  lemma {:induction false} TrimEndMeaning(s: string)
    ensures |TrimEnd(s)| <= |s| && TrimEnd(s) == s[..|TrimEnd(s)|]
    ensures forall k :: |TrimEnd(s)| <= k < |s| ==> IsSpace(s[k])
    ensures TrimEnd(s) != [] ==> !IsSpace(TrimEnd(s)[|TrimEnd(s)| - 1])
  {
    if s != [] && IsSpace(s[|s| - 1]) {
      var t := s[..|s| - 1];
      TrimEndMeaning(t);
      var r := TrimEnd(t);
      assert TrimEnd(s) == r;
      assert t[..|r|] == s[..|r|];
      forall k | |r| <= k < |s|
        ensures IsSpace(s[k])
      {
        if k < |s| - 1 {
          assert s[k] == t[k];
        }
      }
    }
  }

  /** `r` is the slice of `s` that starts at `i` and only whitespace lies
      outside it. */
  ghost predicate StripsTo(s: string, r: string, i: int) {
    && 0 <= i && i + |r| <= |s|
    && r == s[i..i + |r|]
    && (forall k :: 0 <= k < i ==> IsSpace(s[k]))
    && (forall k :: i + |r| <= k < |s| ==> IsSpace(s[k]))
  }

  /** Trim leaves the slice of `s` that remains after stripping the
      whitespace at both ends: it is empty exactly when `s` is blank, and
      otherwise starts and ends with a non-space. */
  lemma TrimMeaning(s: string)
    ensures exists i :: StripsTo(s, Trim(s), i)
    ensures Trim(s) == [] <==> IsBlank(s)
    ensures Trim(s) != [] ==> !IsSpace(Trim(s)[0]) && !IsSpace(Trim(s)[|Trim(s)| - 1])
  {
    var t := TrimStart(s);
    TrimStartMeaning(s);
    TrimEndMeaning(t);
    assert StripsTo(s, Trim(s), |s| - |t|);
  }

  /** The three facts of TrimMeaning determine Trim's result: any slice of
      `s` with only whitespace outside it, and no whitespace at its ends, is
      `Trim(s)`. */
  lemma TrimUnique(s: string, r: string, i: int)
    requires StripsTo(s, r, i)
    requires r == [] ==> IsBlank(s)
    requires r != [] ==> !IsSpace(r[0]) && !IsSpace(r[|r| - 1])
    ensures r == Trim(s)
  {
    var t := Trim(s);
    TrimMeaning(s);
    var i' :| StripsTo(s, t, i');
    if r == [] {
      assert t == [];
    } else {
      assert !IsSpace(s[i]) && !IsSpace(s[i + |r| - 1]);
      assert t != [];
      assert !IsSpace(s[i']) && !IsSpace(s[i' + |t| - 1]);
      assert i == i';
      assert i + |r| == i' + |t|;
    }
  }

  /** Trimming twice is trimming once. */
  lemma TrimIdempotent(s: string)
    ensures Trim(Trim(s)) == Trim(s)
  {
    var t := Trim(s);
    TrimMeaning(s);
    assert StripsTo(t, t, 0);
    TrimUnique(t, t, 0);
  }
}
