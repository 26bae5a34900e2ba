/**
 The e-mail check of the contact form, the regular expression
 `/^[^\s@]+@[^\s@]+\.[^\s@]+$/` of js/main.js, as predicates on strings.

 `MatchesEmailRegex` is the pattern read literally: three non-empty runs of
 characters outside `[\s@]`, joined by `@` and by `.`. `WellFormedEmail` is
 the same language described by what it demands of the whole string, and
 `RegexIffWellFormed` proves the two agree.
 */
module Email {
  import opened Common

  /** `\s` of JavaScript regular expressions: the WhiteSpace and
      LineTerminator code points of ECMAScript. */
  predicate IsWhitespace(c: char) {
    || c == '\t' || c == '\n' || c == '\U{B}' || c == '\U{C}' || c == '\r'
    || c == ' ' || c == '\U{A0}' || c == '\U{1680}'
    || ('\U{2000}' <= c <= '\U{200A}')
    || c == '\U{2028}' || c == '\U{2029}' || c == '\U{202F}' || c == '\U{205F}'
    || c == '\U{3000}' || c == '\U{FEFF}'
  }

  /** The character class `[^\s@]`. */
  predicate SegmentChar(c: char) {
    !IsWhitespace(c) && c != '@'
  }

  /** `[^\s@]+`: a non-empty run of segment characters. */
  predicate Segment(s: string) {
    |s| > 0 && forall i :: 0 <= i < |s| ==> SegmentChar(s[i])
  }

  /** The anchored pattern: `s` splits at an `@` (index `a`) and a later `.`
      (index `d`) into three segments. Segments may themselves contain `.`.
      The anchors leave no room around the address: an accepted string
      begins and ends with a character outside `[\s@]`. */
  predicate MatchesEmailRegex(s: string): (r: bool)
    ensures r ==> 5 <= |s| && '@' in s && '.' in s
    ensures r ==> SegmentChar(s[0]) && SegmentChar(s[|s| - 1])
  {
    exists a, d :: 0 <= a < d < |s| && IsSplit(s, a, d)
  }

  predicate IsSplit(s: string, a: int, d: int)
    requires 0 <= a < d < |s|
  {
    && s[a] == '@' && s[d] == '.'
    && Segment(s[..a]) && Segment(s[a + 1..d]) && Segment(s[d + 1..])
  }

  predicate NoWhitespace(s: string) {
    forall i :: 0 <= i < |s| ==> !IsWhitespace(s[i])
  }

  /** A `.` with at least one character on each side. */
  predicate HasInnerDot(domain: string) {
    exists j :: 0 < j < |domain| - 1 && domain[j] == '.'
  }

  /** The address demanded, said of the whole string: no whitespace, exactly
      one `@`, something before it, and after it a `.` with text on both sides. */
  predicate WellFormedEmail(s: string) {
    var at := IndexOf(s, '@');
    && NoWhitespace(s)
    && 0 < at < |s|
    && '@' !in s[at + 1..]
    && HasInnerDot(s[at + 1..])
  }

  /** The literal reading of the pattern and the whole-string description
      accept exactly the same strings. */
  lemma RegexIffWellFormed(s: string)
    ensures MatchesEmailRegex(s) <==> WellFormedEmail(s)
  {
    if MatchesEmailRegex(s) {
      var a, d :| 0 <= a < d < |s| && IsSplit(s, a, d);
      RegexSplitIsWellFormed(s, a, d);
    }
    if WellFormedEmail(s) {
      WellFormedHasSplit(s);
    }
  }

  lemma RegexSplitIsWellFormed(s: string, a: int, d: int)
    requires 0 <= a < d < |s| && IsSplit(s, a, d)
    ensures WellFormedEmail(s)
  {
    assert forall i :: 0 <= i < a ==> s[..a][i] == s[i];
    assert IndexOf(s, '@') == a;
    var dom := s[a + 1..];
    assert forall i :: a < i < d ==> s[i] == s[a + 1..d][i - a - 1];
    assert forall i :: d < i < |s| ==> s[i] == s[d + 1..][i - d - 1];
    assert forall i :: 0 <= i < |dom| ==> dom[i] == s[a + 1 + i];
    assert '@' !in dom by {
      forall i | 0 <= i < |dom|
        ensures dom[i] != '@'
      {
        assert a < a + 1 + i < |s|;
      }
    }
    assert dom[d - a - 1] == '.';
    assert HasInnerDot(dom);
    forall i | 0 <= i < |s|
      ensures !IsWhitespace(s[i])
    {
      if i < a {
        assert SegmentChar(s[..a][i]);
      }
    }
  }

  lemma WellFormedHasSplit(s: string)
    requires WellFormedEmail(s)
    ensures MatchesEmailRegex(s)
  {
    var a := IndexOf(s, '@');
    var dom := s[a + 1..];
    var j :| 0 < j < |dom| - 1 && dom[j] == '.';
    var d := a + 1 + j;
    assert s[d] == '.';
    assert forall i :: 0 <= i < |dom| ==> dom[i] == s[a + 1 + i];
    assert forall i :: a < i < |s| ==> s[i] != '@' by {
      forall i | a < i < |s|
        ensures s[i] != '@'
      {
        assert dom[i - a - 1] == s[i];
      }
    }
    assert Segment(s[..a]);
    assert Segment(s[a + 1..d]);
    assert Segment(s[d + 1..]);
    assert IsSplit(s, a, d);
  }

  /** An accepted address has no whitespace, exactly one `@` with text
      before it, and after it a `.` with text on both sides. */
  lemma AcceptedAddressParts(s: string)
    requires MatchesEmailRegex(s)
    ensures NoWhitespace(s)
    ensures exists a :: (0 < a < |s| && s[a] == '@' && HasInnerDot(s[a + 1..])
                         && forall i :: 0 <= i < |s| && s[i] == '@' ==> i == a)
  {
    RegexIffWellFormed(s);
    var a := IndexOf(s, '@');
    assert forall i :: a < i < |s| ==> s[i] == s[a + 1..][i - a - 1];
  }

  /** No `.` anywhere after the first `@` (in particular, no `@` at all)
      means rejection. */
  lemma NoDotAfterAtRejected(s: string)
    requires '.' !in s[IndexOf(s, '@')..]
    ensures !MatchesEmailRegex(s)
  {
    RegexIffWellFormed(s);
  }

  /** A typical address is accepted. */
  lemma AcceptsTypicalAddress()
    ensures MatchesEmailRegex("ola@flipp.no")
  {
    assert IsSplit("ola@flipp.no", 3, 9);
  }

  /** An address without a top-level part is rejected. */
  lemma RejectsDotlessDomain()
    ensures !MatchesEmailRegex("ola@flipp")
  {
    var s := "ola@flipp";
    assert '.' !in s;
    assert forall k :: 0 <= k <= |s| ==> '.' !in s[k..] by {
      forall k, c | 0 <= k <= |s| && c in s[k..]
        ensures c in s
      {
        var i :| 0 <= i < |s[k..]| && s[k..][i] == c;
        assert s[k + i] == c;
      }
    }
    NoDotAfterAtRejected(s);
  }
}
