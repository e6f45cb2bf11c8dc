/** The rule set `authValidate` that both `/users/signup` and `/users/signin` run on the
    request body: a non-empty email matching
    `^[A-Za-z0-9._%+-]+@[A-Za-z0-9.-]+\.[A-Za-z]{2,}$`, and a non-empty password of at least
    eight characters. */
module UserValidate {
  import opened Wrappers
  import opened Decimal
  import opened Validator

  /** The `{email, password}` request body. */
  datatype Credentials = Credentials(email: Option<string>, password: Option<string>)

  const MinPasswordLength: nat := 8

  predicate Letter(c: char) {
    'A' <= c <= 'Z' || 'a' <= c <= 'z'
  }

  /** `[A-Za-z0-9._%+-]` */
  predicate LocalChar(c: char) {
    Letter(c) || IsDigit(c) || c == '.' || c == '_' || c == '%' || c == '+' || c == '-'
  }

  /** `[A-Za-z0-9.-]` */
  predicate DomainChar(c: char) {
    Letter(c) || IsDigit(c) || c == '.' || c == '-'
  }

  /** What the regular expression matches, position by position: the local part `s[..a]`,
      the `@` at `a`, the domain body `s[a+1..b]`, the `.` at `b` and a top-level part of two
      or more letters after it. */
  ghost predicate MatchesAt(s: string, a: int, b: int) {
    && 0 < a && a + 1 < b && b + 2 < |s| && s[a] == '@' && s[b] == '.'
    && (forall k :: 0 <= k < a ==> LocalChar(s[k]))
    && (forall k :: a < k < b ==> DomainChar(s[k]))
    && (forall k :: b < k < |s| ==> Letter(s[k]))
  }

  /** The regular expression matches `s`. */
  ghost function EmailPattern(s: string): (matched: bool)
    ensures matched ==> |s| >= 6
  {
    exists a, b :: MatchesAt(s, a, b)
  }

  function IndexOf(s: string, c: char): (r: Option<nat>)
    ensures r.Some? ==> r.value < |s| && s[r.value] == c
    ensures r.Some? ==> forall j :: 0 <= j < r.value ==> s[j] != c
    ensures r.None? ==> c !in s
    decreases |s|
  {
    if s == [] then None
    else if s[0] == c then Some(0)
    else match IndexOf(s[1..], c)
      case None => None
      case Some(i) => Some(i + 1)
  }

  function LastIndexOf(s: string, c: char): (r: Option<nat>)
    ensures r.Some? ==> r.value < |s| && s[r.value] == c
    ensures r.Some? ==> forall j :: r.value < j < |s| ==> s[j] != c
    ensures r.None? ==> c !in s
    decreases |s|
  {
    if s == [] then None
    else if s[|s| - 1] == c then Some(|s| - 1)
    else LastIndexOf(s[..|s| - 1], c)
  }

  /** The domain after the `@`: the last `.` splits it into a non-empty body of domain
      characters and a top-level part of at least two letters. */
  predicate IsDomain(d: string) {
    match LastIndexOf(d, '.')
    case None => false
    case Some(b) =>
      b > 0 && (forall k :: 0 <= k < b ==> DomainChar(d[k]))
      && |d| - b - 1 >= 2 && (forall k :: b < k < |d| ==> Letter(d[k]))
  }

  /** The email check, computed: the first `@` ends a non-empty local part, and a domain
      follows it. */
  function IsEmail(s: string): (ok: bool)
    ensures ok ==> |s| >= 6 && '@' in s
  {
    match IndexOf(s, '@')
    case None => false
    case Some(a) => a > 0 && (forall k :: 0 <= k < a ==> LocalChar(s[k])) && IsDomain(s[a + 1..])
  }

  /** Every string the computed check accepts matches the regular expression. */
  lemma EmailCheckSound(s: string)
    requires IsEmail(s)
    ensures EmailPattern(s)
  {
    var a := IndexOf(s, '@').value;
    var d := s[a + 1..];
    var b := LastIndexOf(d, '.').value;
    var b' := a + 1 + b;
    assert s[b'] == d[b];
    forall k | a < k < b' ensures DomainChar(s[k]) {
      assert s[k] == d[k - a - 1];
    }
    forall k | b' < k < |s| ensures Letter(s[k]) {
      assert s[k] == d[k - a - 1];
    }
    assert MatchesAt(s, a, b');
  }

  /** Every string the regular expression matches passes the computed check. */
  lemma EmailCheckComplete(s: string, a: nat, b: nat)
    requires MatchesAt(s, a, b)
    ensures IsEmail(s)
  {
    assert IndexOf(s, '@') == Some(a);
    var d := s[a + 1..];
    var e := b - a - 1;
    assert d[e] == '.';
    forall j | e < j < |d| ensures d[j] != '.' && Letter(d[j]) {
      assert d[j] == s[j + a + 1];
    }
    assert LastIndexOf(d, '.') == Some(e);
    forall k | 0 <= k < e ensures DomainChar(d[k]) {
      assert d[k] == s[k + a + 1];
    }
  }

  /** The computed check accepts exactly the strings the regular expression matches. */
  lemma EmailCheckIsPattern(s: string)
    ensures IsEmail(s) <==> EmailPattern(s)
  {
    if IsEmail(s) {
      EmailCheckSound(s);
    }
    if EmailPattern(s) {
      var a, b :| MatchesAt(s, a, b);
      EmailCheckComplete(s, a, b);
    }
  }

  /** A valid email holds exactly one `@`. */
  lemma EmailHasOneAt(s: string)
    requires IsEmail(s)
    ensures exists a :: 0 <= a < |s| && s[a] == '@'
    ensures forall i, j :: 0 <= i < |s| && 0 <= j < |s| && s[i] == '@' && s[j] == '@' ==> i == j
  {
    var a := IndexOf(s, '@').value;
    var d := s[a + 1..];
    var b := LastIndexOf(d, '.').value;
    forall i | a < i < |s| ensures s[i] != '@' {
      assert s[i] == d[i - a - 1];
    }
  }

  /** `authValidate`: the errors `validationResult(req).array()` lists, in rule order. Each
      chain runs all its checks, so an empty field fails both of its checks. */
  function AuthValidate(body: Credentials): (errors: seq<FieldError>)
    ensures errors == [] <==>
      EmailPattern(AsText(body.email)) && Length(AsText(body.password)) >= MinPasswordLength
    ensures FieldError(Email, EmailRequired) in errors <==> !NotEmpty(body.email)
    ensures FieldError(Password, PasswordRequired) in errors <==> !NotEmpty(body.password)
    ensures FieldError(Email, EmailInvalid) in errors <==> !EmailPattern(AsText(body.email))
    ensures FieldError(Password, PasswordTooShort) in errors <==>
      Length(AsText(body.password)) < MinPasswordLength
  {
    var email, password := AsText(body.email), AsText(body.password);
    EmailCheckIsPattern(email);
    (if NotEmpty(body.email) then [] else [FieldError(Email, EmailRequired)])
    + (if IsEmail(email) then [] else [FieldError(Email, EmailInvalid)])
    + (if NotEmpty(body.password) then [] else [FieldError(Password, PasswordRequired)])
    + (if IsLength(password, MinPasswordLength) then [] else [FieldError(Password, PasswordTooShort)])
  }

  /** A body that passes the rules carries both fields. */
  lemma AcceptedBodyHasFields(body: Credentials)
    requires AuthValidate(body) == []
    ensures body.email.Some? && body.email.value != "" && IsEmail(body.email.value)
    ensures body.password.Some? && |body.password.value| >= MinPasswordLength
  {
    EmailCheckIsPattern(AsText(body.email));
  }
}
