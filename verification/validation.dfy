/**
 The two field validators of the login form and the email pattern the username
 must match. Each validator is a pure function of the field's current value.
 */
module Validation {
  import opened JsStrings

  /** A validator's outcome: success, or the message shown under the field. */
  datatype Verdict = Pass | Fail(message: string)

  const UsernameMissing: string := "Please provide a valid username."
  const UsernameNotEmail: string := "Please provide a valid email address."
  const PasswordMissing: string := "Please provide a valid password."
  const PasswordTooShort: string := "Password must be at least 6 characters long."

  const MinPasswordLength: nat := 6

  /** The regular-expression class `[^\s@]`. */
  predicate InClass(c: CodeUnit) {
    !IsWhitespace(c) && c != AT
  }

  /** The regular-expression term `[^\s@]+`, matched against the whole of `s`. */
  predicate ClassRun(s: JsString) {
    |s| > 0 && forall k | 0 <= k < |s| :: InClass(s[k])
  }

  /** `/^[^\s@]+@[^\s@]+\.[^\s@]+$/` matches `s`: the string splits at an `@` (index i)
      and a later `.` (index j) into three non-empty runs of the class `[^\s@]`. */
  ghost predicate MatchesEmailPattern(s: JsString) {
    exists i, j | 0 <= i < j < |s| ::
      && s[i] == AT && s[j] == DOT
      && ClassRun(s[..i]) && ClassRun(s[i + 1..j]) && ClassRun(s[j + 1..])
  }

  /** Number of occurrences of `c` in `s`. */
  function Count(s: JsString, c: CodeUnit): (n: nat)
    ensures n == 0 <==> c !in s
    ensures n <= |s|
  {
    if s == [] then 0 else (if s[0] == c then 1 else 0) + Count(s[1..], c)
  }

  /** Index of the first occurrence of `c` in `s`. */
  function IndexOf(s: JsString, c: CodeUnit): (i: nat)
    requires c in s
    ensures i < |s| && s[i] == c && c !in s[..i]
  {
    if s[0] == c then 0 else 1 + IndexOf(s[1..], c)
  }

  /** `d` has a `.` that is neither its first nor its last code unit. */
  predicate HasInnerDot(d: JsString) {
    |d| >= 3 && DOT in d[1..|d| - 1]
  }

  /** The email shape in plain terms: exactly one `@`, no whitespace, something
      before the `@`, and a domain after it with a dot inside it. */
  predicate IsEmailShaped(s: JsString) {
    && Count(s, AT) == 1
    && (forall k | 0 <= k < |s| :: !IsWhitespace(s[k]))
    && var i := IndexOf(s, AT);
       i > 0 && HasInnerDot(s[i + 1..])
  }

  lemma {:induction false} CountConcat(a: JsString, b: JsString, c: CodeUnit)
    ensures Count(a + b, c) == Count(a, c) + Count(b, c)
  {
    if a == [] {
      assert a + b == b;
    } else {
      assert (a + b)[1..] == a[1..] + b;
      CountConcat(a[1..], b, c);
    }
  }

  /** Counting around one position: before it, at it, after it. */
  lemma CountAround(s: JsString, i: nat, c: CodeUnit)
    requires i < |s|
    ensures Count(s, c) == Count(s[..i], c) + (if s[i] == c then 1 else 0) + Count(s[i + 1..], c)
  {
    assert s == s[..i] + [s[i]] + s[i + 1..];
    CountConcat(s[..i] + [s[i]], s[i + 1..], c);
    CountConcat(s[..i], [s[i]], c);
  }

  lemma ShapeGivesPattern(s: JsString)
    requires IsEmailShaped(s)
    ensures MatchesEmailPattern(s)
  {
    var i := IndexOf(s, AT);
    var d := s[i + 1..];
    var m :| 1 <= m < |d| - 1 && d[m] == DOT;
    var j := i + 1 + m;
    CountAround(s, i, AT);
    assert AT !in d;
    assert s[j] == DOT;
    assert ClassRun(s[..i]);
    assert s[i + 1..j] == d[..m];
    assert ClassRun(s[i + 1..j]);
    assert s[j + 1..] == d[m + 1..];
    assert ClassRun(s[j + 1..]);
  }

  lemma PatternGivesShape(s: JsString, i: nat, j: nat)
    requires i < j < |s| && s[i] == AT && s[j] == DOT
    requires ClassRun(s[..i]) && ClassRun(s[i + 1..j]) && ClassRun(s[j + 1..])
    ensures IsEmailShaped(s)
  {
    var d := s[i + 1..];
    assert d == s[i + 1..j] + [DOT] + s[j + 1..];
    assert AT !in s[..i];
    assert AT !in d;
    CountAround(s, i, AT);
    forall k | 0 <= k < |s| ensures !IsWhitespace(s[k]) {
      if k < i {
        assert s[k] == s[..i][k];
      } else if i < k < j {
        assert s[k] == s[i + 1..j][k - i - 1];
      } else if j < k {
        assert s[k] == s[j + 1..][k - j - 1];
      }
    }
    assert IndexOf(s, AT) == i;
    assert d[1..|d| - 1][j - i - 2] == DOT;
  }

  /** The plain description of the email shape and the regular expression accept
      exactly the same strings. */
  lemma EmailShapeMatchesPattern(s: JsString)
    ensures IsEmailShaped(s) <==> MatchesEmailPattern(s)
  {
    if IsEmailShaped(s) {
      ShapeGivesPattern(s);
    }
    if MatchesEmailPattern(s) {
      var i, j :| 0 <= i < j < |s| && s[i] == AT && s[j] == DOT
                  && ClassRun(s[..i]) && ClassRun(s[i + 1..j]) && ClassRun(s[j + 1..]);
      PatternGivesShape(s, i, j);
    }
  }

  /** `validateUsername`: the value is trimmed, then checked for emptiness, then
      against the email pattern. */
  function ValidateUsername(value: JsString): (v: Verdict)
    ensures v == Fail(UsernameMissing) <==> Blank(value)
    ensures v == Fail(UsernameNotEmail) <==> !Blank(value) && !MatchesEmailPattern(Trim(value))
    ensures v == Pass <==> MatchesEmailPattern(Trim(value))
  {
    var u := Trim(value);
    EmailShapeMatchesPattern(u);
    if u == [] then Fail(UsernameMissing)
    else if !IsEmailShaped(u) then Fail(UsernameNotEmail)
    else Pass
  }

  /** `validatePassword`: the value is NOT trimmed; it is checked for emptiness, then
      for a minimum length counted in UTF-16 code units. */
  function ValidatePassword(value: JsString): (v: Verdict)
    ensures v == Fail(PasswordMissing) <==> value == []
    ensures v == Fail(PasswordTooShort) <==> 0 < |value| < MinPasswordLength
    ensures v == Pass <==> |value| >= MinPasswordLength
  {
    if value == [] then Fail(PasswordMissing)
    else if |value| < MinPasswordLength then Fail(PasswordTooShort)
    else Pass
  }

  /** The two validators treat whitespace differently: six spaces are an acceptable
      password but a missing username. */
  lemma WhitespaceOnlyInputs(value: JsString)
    requires |value| >= MinPasswordLength && Blank(value)
    ensures ValidatePassword(value) == Pass
    ensures ValidateUsername(value) == Fail(UsernameMissing)
  {
  }

  /** A username without an `@`, or whose part after the first `@` has no inner dot,
      is rejected as a malformed email address. */
  lemma MissingAtOrDomainDotRejected(value: JsString)
    requires !Blank(value)
    requires var u := Trim(value); AT !in u || !HasInnerDot(u[IndexOf(u, AT) + 1..])
    ensures ValidateUsername(value) == Fail(UsernameNotEmail)
  {
    EmailShapeMatchesPattern(Trim(value));
  }

  /** `a@b.com` matches the email pattern. */
  lemma SampleAddressMatches()
    ensures MatchesEmailPattern([0x61, 0x40, 0x62, 0x2E, 0x63, 0x6F, 0x6D])
  {
    var u: JsString := [0x61, 0x40, 0x62, 0x2E, 0x63, 0x6F, 0x6D];
    assert ClassRun(u[..1]) && ClassRun(u[2..3]) && ClassRun(u[4..]);
    PatternGivesShape(u, 1, 3);
    EmailShapeMatchesPattern(u);
  }
}
