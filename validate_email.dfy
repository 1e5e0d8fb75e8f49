/** The email validator `isValidEmail`, which tests its argument against the
    anchored regular expression  ^[^\s@]+@[^\s@]+\.[^\s@]+$ .

    `MatchesPattern` states what the expression means on a string; `IsValidEmail`
    is a character-by-character recogniser for it (the automaton a regex engine
    builds), and `IsValidEmailIff` proves the two agree on every string. */
module ValidateEmail {

  /** JavaScript's `\s`: the WhiteSpace and LineTerminator code points of ECMAScript. */
  predicate IsSpace(c: char) {
    || c == '\t' || c == '\n' || c == '\U{000B}' || c == '\U{000C}' || c == '\r'
    || c == ' ' || c == '\U{00A0}' || c == '\U{1680}'
    || ('\U{2000}' <= c <= '\U{200A}')
    || c == '\U{2028}' || c == '\U{2029}' || c == '\U{202F}' || c == '\U{205F}'
    || c == '\U{3000}' || c == '\U{FEFF}'
  }

  /** The character class [^\s@]. */
  predicate Plain(c: char) {
    !IsSpace(c) && c != '@'
  }

  predicate AllPlain(s: string) {
    forall j :: 0 <= j < |s| ==> Plain(s[j])
  }

  lemma AllPlainCons(c: char, s: string)
    ensures AllPlain([c] + s) <==> Plain(c) && AllPlain(s)
  {
    var cs := [c] + s;
    if AllPlain(cs) {
      assert Plain(cs[0]);
      forall j | 0 <= j < |s| ensures Plain(s[j]) {
        assert cs[j + 1] == s[j];
      }
    }
    if Plain(c) && AllPlain(s) {
      forall j | 0 <= j < |cs| ensures Plain(cs[j]) {
        if j > 0 { assert cs[j] == s[j - 1]; }
      }
    }
  }

  /** The meaning of the regular expression: a non-empty local part, then the
      single `@` at index k, then a domain with a `.` at index i that has at
      least one character of the domain before it and one after it; every
      character other than that `@` belongs to [^\s@] (so `.` is among them). */
  ghost predicate MatchesPattern(s: string) {
    exists k, i :: 0 < k && k + 1 < i < |s| - 1 && s[k] == '@' && s[i] == '.' &&
      forall j :: 0 <= j < |s| && j != k ==> Plain(s[j])
  }

  /** States of the recogniser: what has been read so far. */
  datatype State =
    | Start     // nothing
    | Local     // a non-empty local part
    | AfterAt   // the local part and the `@`
    | Domain    // a non-empty domain with no usable `.` yet
    | Dot       // the last character is a usable `.`
    | Tld       // a usable `.` followed by at least one character (accepting)
    | Reject    // no continuation can match

  function Step(q: State, c: char): State {
    match q
    case Start => if Plain(c) then Local else Reject
    case Local => if Plain(c) then Local else if c == '@' then AfterAt else Reject
    case AfterAt => if Plain(c) then Domain else Reject
    case Domain => if c == '.' then Dot else if Plain(c) then Domain else Reject
    case Dot => if Plain(c) then Tld else Reject
    case Tld => if Plain(c) then Tld else Reject
    case Reject => Reject
  }

  function Run(q: State, s: string): State
    decreases |s|
  {
    if |s| == 0 then q else Run(Step(q, s[0]), s[1..])
  }

  /** `isValidEmail(email)`. */
  predicate IsValidEmail(email: string) {
    Run(Start, email) == Tld
  }

  // ---------------------------------------------------------------------------
  // What the recogniser accepts from each state

  lemma {:induction false} RejectIsFinal(s: string)
    ensures Run(Reject, s) == Reject
    decreases |s|
  {
    if |s| > 0 {
      RejectIsFinal(s[1..]);
    }
  }

  lemma {:induction false} TldAccepts(s: string)
    ensures Run(Tld, s) == Tld <==> AllPlain(s)
    decreases |s|
  {
    if |s| > 0 {
      if Plain(s[0]) {
        TldAccepts(s[1..]);
        assert s == [s[0]] + s[1..];
        AllPlainCons(s[0], s[1..]);
      } else {
        RejectIsFinal(s[1..]);
      }
    }
  }

  lemma {:induction false} DotAccepts(s: string)
    ensures Run(Dot, s) == Tld <==> |s| > 0 && AllPlain(s)
  {
    if |s| > 0 {
      if Plain(s[0]) {
        TldAccepts(s[1..]);
        assert s == [s[0]] + s[1..];
        AllPlainCons(s[0], s[1..]);
      } else {
        RejectIsFinal(s[1..]);
      }
    }
  }

  /** A `.` at index `lo` or later that is followed by at least one character. */
  ghost predicate DotBeforeLast(s: string, lo: nat) {
    exists i :: lo <= i < |s| - 1 && s[i] == '.'
  }

  lemma {:induction false} DomainAccepts(s: string)
    ensures Run(Domain, s) == Tld <==> AllPlain(s) && DotBeforeLast(s, 0)
    decreases |s|
  {
    if |s| > 0 {
      var t := s[1..];
      assert s == [s[0]] + t;
      AllPlainCons(s[0], t);
      if s[0] == '.' {
        DotAccepts(t);
        if |s| > 1 { assert s[0] == '.' && 0 < |s| - 1; }
      } else if Plain(s[0]) {
        DomainAccepts(t);
        assert DotBeforeLast(s, 0) <==> DotBeforeLast(t, 0) by {
          if DotBeforeLast(s, 0) {
            var i :| 0 <= i < |s| - 1 && s[i] == '.';
            assert t[i - 1] == '.';
          }
          if DotBeforeLast(t, 0) {
            var i :| 0 <= i < |t| - 1 && t[i] == '.';
            assert s[i + 1] == '.';
          }
        }
      } else {
        RejectIsFinal(t);
      }
    }
  }

  /** The domain part of the pattern: [^\s@]+\.[^\s@]+ . */
  ghost predicate DomainMatches(d: string) {
    AllPlain(d) && DotBeforeLast(d, 1)
  }

  lemma {:induction false} AfterAtAccepts(s: string)
    ensures Run(AfterAt, s) == Tld <==> DomainMatches(s)
  {
    if |s| > 0 {
      var t := s[1..];
      assert s == [s[0]] + t;
      AllPlainCons(s[0], t);
      if Plain(s[0]) {
        DomainAccepts(t);
        assert DotBeforeLast(s, 1) <==> DotBeforeLast(t, 0) by {
          if DotBeforeLast(s, 1) {
            var i :| 1 <= i < |s| - 1 && s[i] == '.';
            assert t[i - 1] == '.';
          }
          if DotBeforeLast(t, 0) {
            var i :| 0 <= i < |t| - 1 && t[i] == '.';
            assert s[i + 1] == '.';
          }
        }
      } else {
        RejectIsFinal(t);
      }
    }
  }

  /** An `@` at index k (at least `lo`) splitting s into an all-[^\s@] prefix and a matching domain. */
  ghost predicate SplitsAt(s: string, k: int) {
    0 <= k < |s| && s[k] == '@' && AllPlain(s[..k]) && DomainMatches(s[k + 1..])
  }

  /** A split of s at k whose first character is plain is a split of s[1..] at k - 1. */
  lemma ShiftSplit(s: string, k: int)
    requires |s| > 0 && Plain(s[0]) && SplitsAt(s, k)
    ensures k > 0 && SplitsAt(s[1..], k - 1)
  {
    var t := s[1..];
    assert s[..k] == [s[0]] + t[..k - 1];
    AllPlainCons(s[0], t[..k - 1]);
    assert t[k..] == s[k + 1..];
  }

  /** A split of s[1..] at k extends to a split of s at k + 1 when s[0] is plain. */
  lemma UnshiftSplit(s: string, k: int)
    requires |s| > 0 && Plain(s[0]) && SplitsAt(s[1..], k)
    ensures SplitsAt(s, k + 1)
  {
    var t := s[1..];
    assert s[..k + 1] == [s[0]] + t[..k];
    AllPlainCons(s[0], t[..k]);
    assert s[k + 2..] == t[k + 1..];
  }

  lemma {:induction false} LocalAccepts(s: string)
    ensures Run(Local, s) == Tld <==> exists k :: SplitsAt(s, k)
    decreases |s|
  {
    if |s| > 0 {
      var t := s[1..];
      if Plain(s[0]) {
        LocalAccepts(t);
        if k :| SplitsAt(s, k) {
          ShiftSplit(s, k);
        }
        if k :| SplitsAt(t, k) {
          UnshiftSplit(s, k);
        }
      } else if s[0] == '@' {
        AfterAtAccepts(t);
        if SplitsAt(s, 0) {
        } else {
          assert s[..0] == [];
          assert !DomainMatches(t);
        }
      } else {
        RejectIsFinal(t);
      }
    }
  }

  lemma {:induction false} StartAccepts(s: string)
    ensures Run(Start, s) == Tld <==> exists k :: 0 < k && SplitsAt(s, k)
  {
    if |s| > 0 {
      var t := s[1..];
      if Plain(s[0]) {
        LocalAccepts(t);
        if k :| 0 < k && SplitsAt(s, k) {
          ShiftSplit(s, k);
        }
        if k :| SplitsAt(t, k) {
          UnshiftSplit(s, k);
        }
      } else {
        RejectIsFinal(t);
        if k :| 0 < k && SplitsAt(s, k) {
          assert s[..k][0] == s[0];
        }
      }
    }
  }

  /** The recogniser accepts exactly the strings the regular expression matches. */
  lemma IsValidEmailIff(s: string)
    ensures IsValidEmail(s) <==> MatchesPattern(s)
  {
    StartAccepts(s);
    if MatchesPattern(s) {
      var k, i :| 0 < k && k + 1 < i < |s| - 1 && s[k] == '@' && s[i] == '.' &&
        forall j :: 0 <= j < |s| && j != k ==> Plain(s[j]);
      var d := s[k + 1..];
      assert d[i - k - 1] == '.';
      assert AllPlain(d) by {
        forall j | 0 <= j < |d| ensures Plain(d[j]) { assert d[j] == s[k + 1 + j]; }
      }
      assert AllPlain(s[..k]) by {
        forall j | 0 <= j < k ensures Plain(s[..k][j]) { assert s[..k][j] == s[j]; }
      }
      assert SplitsAt(s, k);
    }
    if k :| 0 < k && SplitsAt(s, k) {
      var d := s[k + 1..];
      var i' :| 1 <= i' < |d| - 1 && d[i'] == '.';
      forall j | 0 <= j < |s| && j != k ensures Plain(s[j]) {
        if j < k { assert s[j] == s[..k][j]; } else { assert s[j] == d[j - k - 1]; }
      }
      assert s[k + 1 + i'] == '.';
    }
  }

  /** Every accepted address has exactly one `@`, which is neither its first nor
      its last character, and no whitespace at all. */
  lemma ValidEmailShape(s: string)
    requires IsValidEmail(s)
    ensures exists k :: (0 < k < |s| - 1 && s[k] == '@' &&
                         forall j :: 0 <= j < |s| && s[j] == '@' ==> j == k)
    ensures forall j :: 0 <= j < |s| ==> !IsSpace(s[j])
  {
    IsValidEmailIff(s);
    var k, i :| 0 < k && k + 1 < i < |s| - 1 && s[k] == '@' && s[i] == '.' &&
      forall j :: 0 <= j < |s| && j != k ==> Plain(s[j]);
    assert forall j :: 0 <= j < |s| && s[j] == '@' ==> j == k;
  }

  /** The pattern read as a concatenation: any non-empty local part, `@`, a
      non-empty host, `.`, and a non-empty suffix, all drawn from [^\s@], is accepted. */
  lemma AcceptsParts(local: string, host: string, suffix: string)
    requires |local| > 0 && |host| > 0 && |suffix| > 0
    requires AllPlain(local) && AllPlain(host) && AllPlain(suffix)
    ensures IsValidEmail(local + "@" + host + "." + suffix)
  {
    var s := local + "@" + host + "." + suffix;
    var k, i := |local|, |local| + 1 + |host|;
    assert s[k] == '@' && s[i] == '.';
    forall j | 0 <= j < |s| && j != k ensures Plain(s[j]) {
      if j < k { assert s[j] == local[j]; }
      else if j < i { assert s[j] == host[j - k - 1]; }
      else if j > i { assert s[j] == suffix[j - i - 1]; }
    }
    IsValidEmailIff(s);
  }

  // The examples of the validator's unit tests.

  lemma AcceptsPlainAddress()
    ensures IsValidEmail("test@example.com")
  {
    AcceptsParts("test", "example", "com");
    assert "test" + "@" + "example" + "." + "com" == "test@example.com";
  }

  lemma AcceptsDotsAndPlusInLocalPart()
    ensures IsValidEmail("user.name+tag+sorting@example.com")
  {
    AcceptsParts("user.name+tag+sorting", "example", "com");
    assert "user.name+tag+sorting" + "@" + "example" + "." + "com" == "user.name+tag+sorting@example.com";
  }

  lemma RejectsMissingAt()
    ensures !IsValidEmail("plainaddress")
  {
    var s := "plainaddress";
    IsValidEmailIff(s);
    assert forall j :: 0 <= j < |s| ==> s[j] != '@';
  }

  lemma RejectsEmptyLocalPart()
    ensures !IsValidEmail("@@example.com")
  {
    var s := "@@example.com";
    IsValidEmailIff(s);
    assert !Plain(s[0]);
  }

  lemma RejectsDotRightAfterAt()
    ensures !IsValidEmail("test@.com")
  {
    var s := "test@.com";
    IsValidEmailIff(s);
    assert forall j :: 0 <= j < |s| && s[j] == '@' ==> j == 4;
    assert s[6] != '.' && s[7] != '.';
  }

  lemma RejectsDomainWithoutDot()
    ensures !IsValidEmail("test@com") && !IsValidEmail("")
  {
    var s := "test@com";
    IsValidEmailIff(s);
    assert forall j :: 0 <= j < |s| && s[j] == '@' ==> j == 4;
    assert s[6] != '.';
  }
}
