/** The two field validators of the sign-in form (src/validators/index.ts).
    A validator returns `None` when the value is acceptable and `Some(message)`
    otherwise, as the source returns `undefined` or an error string. */
module Validators {
  import opened Wrappers
  import opened Text

  type FieldError = Option<string>

  const EmailMessage: string := "Enter a valid email address."
  const PasswordMessage: string := "Password must be at least 8 characters."
  const MinPasswordLength: nat := 8

  /** A character of the class `[^\s@]`. */
  predicate IsTokenChar(c: char) {
    !IsSpace(c) && c != '@'
  }

  /** A match of `[^\s@]+`. */
  predicate IsToken(t: string) {
    |t| > 0 && forall k | 0 <= k < |t| :: IsTokenChar(t[k])
  }

  /** `s` is the token before `a`, the `@` at `a`, the token between, the
      `.` at `d` and the token after `d`. */
  predicate SplitsAt(s: string, a: int, d: int) {
    && 0 <= a < d < |s|
    && s[a] == '@' && s[d] == '.'
    && IsToken(s[..a]) && IsToken(s[a + 1..d]) && IsToken(s[d + 1..])
  }

  /** What it means for `s` to match `^[^\s@]+@[^\s@]+\.[^\s@]+$`: some choice
      of the `@` and of the `.` splits it into three tokens. */
  ghost predicate MatchesEmailPattern(s: string): (r: bool)
    ensures r ==> '@' in s && '.' in s && |s| >= 5
  {
    exists a, d :: SplitsAt(s, a, d)
  }

  /** The same shape, written out: no white space, a single `@` with a
      non-empty local part before it, and a `.` in the domain after it that is
      neither the domain's first nor its last character. */
  predicate IsEmailShape(s: string) {
    && (forall k | 0 <= k < |s| :: !IsSpace(s[k]))
    && match IndexOf(s, '@')
       case None => false
       case Some(a) =>
         var domain := s[a + 1..];
         && 0 < a
         && '@' !in domain
         && exists i | 0 < i < |domain| - 1 :: domain[i] == '.'
  }

  lemma SeparatorsAreNotSpace()
    ensures !IsSpace('@') && !IsSpace('.')
  {
  }

  /** The written-out shape is exactly the language of the regular expression. */
  lemma EmailShapeIsPattern(s: string)
    ensures IsEmailShape(s) <==> MatchesEmailPattern(s)
  {
    if IsEmailShape(s) {
      ShapeMatchesPattern(s);
    }
    if MatchesEmailPattern(s) {
      var a, d :| SplitsAt(s, a, d);
      PatternHasShape(s, a, d);
    }
  }

  lemma ShapeMatchesPattern(s: string)
    requires IsEmailShape(s)
    ensures MatchesEmailPattern(s)
  {
    SeparatorsAreNotSpace();
    var a := IndexOf(s, '@').value;
    var domain := s[a + 1..];
    var i :| 0 < i < |domain| - 1 && domain[i] == '.';
    var d := a + 1 + i;
    assert forall k | 0 <= k < a :: s[..a][k] == s[k];
    assert IsToken(s[..a]);
    assert s[a + 1..d] == domain[..i];
    assert IsToken(s[a + 1..d]);
    assert s[d + 1..] == domain[i + 1..];
    assert IsToken(s[d + 1..]);
    assert SplitsAt(s, a, d);
  }

  lemma PatternHasShape(s: string, a: int, d: int)
    requires SplitsAt(s, a, d)
    ensures IsEmailShape(s)
  {
    SeparatorsAreNotSpace();
    forall k | 0 <= k < |s|
      ensures !IsSpace(s[k]) && (k != a ==> s[k] != '@')
    {
      if k < a {
        assert s[k] == s[..a][k];
      } else if a < k < d {
        assert s[k] == s[a + 1..d][k - a - 1];
      } else if d < k {
        assert s[k] == s[d + 1..][k - d - 1];
      }
    }
    assert '@' !in s[..a];
    IndexOfFirst(s, '@', a);
    var domain := s[a + 1..];
    assert domain[d - a - 1] == '.';
    assert '@' !in domain;
  }

  /** `validateEmail`: the trimmed value must be non-empty and email-shaped. */
  function ValidateEmail(value: string): (r: FieldError)
    ensures r.None? <==> MatchesEmailPattern(Trim(value))
    ensures r.Some? ==> r.value == EmailMessage
  {
    EmailShapeIsPattern(Trim(value));
    if Trim(value) == "" then Some(EmailMessage)
    else if !IsEmailShape(Trim(value)) then Some(EmailMessage)
    else None
  }

  /** `validatePassword`: at least eight characters, white space included. */
  function ValidatePassword(value: string): (r: FieldError)
    ensures r.None? <==> |value| >= MinPasswordLength
    ensures r.Some? ==> r.value == PasswordMessage
  {
    if value == "" then Some(PasswordMessage)
    else if |value| < MinPasswordLength then Some(PasswordMessage)
    else None
  }

  /** The empty string and any all-white-space string are rejected. */
  lemma BlankEmailRejected(value: string)
    requires AllSpace(value)
    ensures ValidateEmail(value) == Some(EmailMessage)
  {
    TrimSpec(value);
  }

  /** Surrounding white space never changes the verdict. */
  lemma EmailIgnoresSurroundingSpace(value: string)
    ensures ValidateEmail(value) == ValidateEmail(Trim(value))
  {
    TrimIdempotent(value);
  }

  /** The explicit emptiness test is subsumed by the pattern test. */
  lemma EmailEmptyCheckRedundant(value: string)
    ensures ValidateEmail(value) == if IsEmailShape(Trim(value)) then None else Some(EmailMessage)
  {
  }

  /** Neither validator ever reports an empty message. */
  lemma MessagesNonEmpty(email: string, password: string)
    ensures ValidateEmail(email).Some? ==> ValidateEmail(email).value != ""
    ensures ValidatePassword(password).Some? ==> ValidatePassword(password).value != ""
  {
  }

  /** A plain address is accepted. */
  lemma AcceptsPlainAddress()
    ensures ValidateEmail("a@b.co") == None
  {
    var s := "a@b.co";
    assert IndexOf(s, '@') == Some(1);
    assert s[2..][1] == '.';
    assert IsEmailShape(s);
    TrimOfPadded("", s, "");
    assert "" + s + "" == s;
  }

  /** The same address padded with any white space is accepted too. */
  lemma AcceptsPaddedAddress(before: string, after: string)
    requires AllSpace(before) && AllSpace(after)
    ensures ValidateEmail(before + "a@b.co" + after) == None
  {
    var v := before + "a@b.co" + after;
    assert Trim(v) == "a@b.co" by {
      TrimOfPadded(before, "a@b.co", after);
    }
    AcceptsPlainAddress();
    EmailIgnoresSurroundingSpace(v);
  }

  /** A domain without a dot is rejected. */
  lemma RejectsDomainWithoutDot()
    ensures ValidateEmail("a@b") == Some(EmailMessage)
  {
    var s := "a@b";
    TrimOfPadded("", s, "");
    assert "" + s + "" == s;
    assert IndexOf(s, '@') == Some(1);
  }

  /** A second `@` is rejected. */
  lemma RejectsSecondAt()
    ensures ValidateEmail("a@@b.co") == Some(EmailMessage)
  {
    var s := "a@@b.co";
    TrimOfPadded("", s, "");
    assert "" + s + "" == s;
    assert IndexOf(s, '@') == Some(1);
    assert s[2..][0] == '@';
  }
}
