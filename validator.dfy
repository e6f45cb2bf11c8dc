/** The express-validator / validator.js checks and sanitizers the rule files use: `notEmpty`,
    `isLength({min})`, `isInt({min})`, `toInt` and `default`, and the error records that
    `validationResult(req).array()` lists. Request fields are `Option<string>`: `None` is a
    field the request does not carry. */
module Validator {
  import opened Wrappers
  import opened Decimal

  datatype Field = Email | Password | Title | Content | PostId

  /** The `withMessage` / thrown messages of the rule files. */
  datatype Message =
    | EmailRequired      // "이메일을 입력해주세요."
    | EmailInvalid       // "유효한 이메일 형식으로 입력해주세요."
    | PasswordRequired   // "비밀번호를 입력해주세요."
    | PasswordTooShort   // "비밀번호는 8자 이상 입력해주세요."
    | TitleRequired      // "제목을 입력해주세요."
    | ContentRequired    // "내용을 입력해주세요."
    | PostIdRequired     // "조회할 게시글의 id를 입력해주세요."
    | PostIdInvalid      // "유효하지 않는 게시글 id입니다."

  datatype FieldError = FieldError(field: Field, msg: Message)

  /** express-validator hands a missing field to its checks as the empty string. */
  function AsText(v: Option<string>): string {
    v.GetOr("")
  }

  /** `.notEmpty()`: a missing field fails it, like an empty one. */
  function NotEmpty(v: Option<string>): (ok: bool)
    ensures ok <==> v.Some? && |v.value| >= 1
  {
    AsText(v) != ""
  }

  predicate IsVariationSelector(c: char) {
    c == '\U{FE0E}' || c == '\U{FE0F}'
  }

  /** The length `isLength` measures: code points, leaving out the variation selectors
      U+FE0E and U+FE0F. */
  function Length(s: string): (n: nat)
    ensures n <= |s|
    ensures (forall k :: 0 <= k < |s| ==> !IsVariationSelector(s[k])) ==> n == |s|
    decreases |s|
  {
    if s == [] then 0
    else Length(s[..|s| - 1]) + (if IsVariationSelector(s[|s| - 1]) then 0 else 1)
  }

  /** `.isLength({min})` */
  function IsLength(s: string, min: nat): (ok: bool)
    ensures ok ==> |s| >= min
    ensures (forall k :: 0 <= k < |s| ==> !IsVariationSelector(s[k])) ==> (ok <==> |s| >= min)
  {
    Length(s) >= min
  }

  /** The value of an `isInt` string: an optional sign then at least one digit, leading
      zeros allowed (validator.js `/^[-+]?[0-9]+$/`); `None` when the text is not of that form. */
  function IntValue(s: string): (r: Option<int>)
    ensures r.Some? <==>
      (|s| >= 1 && AllDigits(s)) || (|s| >= 2 && (s[0] == '+' || s[0] == '-') && AllDigits(s[1..]))
    ensures |s| >= 1 && AllDigits(s) ==> r == Some(DigitsValue(s) as int)
  {
    var signed := |s| > 0 && (s[0] == '+' || s[0] == '-');
    var digits := if signed then s[1..] else s;
    if |digits| >= 1 && AllDigits(digits) then
      Some(if signed && s[0] == '-' then 0 - DigitsValue(digits) as int else DigitsValue(digits) as int)
    else None
  }

  /** `.isInt({min})`: of that form, and `min` or more. With a positive minimum, no
      negative numeral passes. */
  function IsInt(s: string, min: int): (ok: bool)
    ensures ok ==> |s| >= 1
    ensures ok && min >= 1 ==> s[0] != '-'
  {
    IntValue(s).Some? && IntValue(s).value >= min
  }

  lemma IntValueOfNotation(n: nat)
    ensures IntValue(NatToDec(n)) == Some(n)
  {
    NotationValue(n);
  }

  /** ECMAScript's StrWhiteSpaceChar: white space and line terminators. */
  predicate IsWhitespace(c: char) {
    c == '\t' || c == '\n' || c == '\U{B}' || c == '\U{C}' || c == '\r' || c == ' '
    || c == '\U{A0}' || c == '\U{1680}' || '\U{2000}' <= c <= '\U{200A}'
    || c == '\U{2028}' || c == '\U{2029}' || c == '\U{202F}' || c == '\U{205F}'
    || c == '\U{3000}' || c == '\U{FEFF}'
  }

  function TrimStart(s: string): (t: string)
    ensures |t| <= |s| && t == s[|s| - |t|..]
    ensures t == [] || !IsWhitespace(t[0])
    decreases |s|
  {
    if s != [] && IsWhitespace(s[0]) then TrimStart(s[1..]) else s
  }

  /** The longest prefix of digits. */
  function DigitPrefix(s: string): (p: string)
    ensures |p| <= |s| && p == s[..|p|] && AllDigits(p)
    ensures |p| < |s| ==> !IsDigit(s[|p|])
    decreases |s|
  {
    if s != [] && IsDigit(s[0]) then [s[0]] + DigitPrefix(s[1..]) else []
  }

  /** `parseInt(s, 10)`, which `toInt` applies: skip leading white space, take an optional
      sign and the longest run of digits after it; `None` stands for NaN (no digit there). */
  function ParseInt(s: string): (r: Option<int>)
    ensures r.Some? ==> exists k :: 0 <= k < |s| && IsDigit(s[k])
  {
    var t := TrimStart(s);
    var signed := |t| > 0 && (t[0] == '+' || t[0] == '-');
    var u := if signed then t[1..] else t;
    var digits := DigitPrefix(u);
    if digits == [] then None
    else
      assert IsDigit(s[|s| - |u|]) by {
        assert digits[0] == u[0] && u[0] == s[|s| - |u|];
      }
      Some(if signed && t[0] == '-' then 0 - DigitsValue(digits) as int else DigitsValue(digits) as int)
  }

  /** `.toInt()` on a request field: a missing field reads as "", which gives NaN. */
  function ToInt(v: Option<string>): (r: Option<int>)
    ensures v.None? ==> r.None?
  {
    ParseInt(AsText(v))
  }

  /** `.default(d)`: undefined, null, NaN and "" are replaced by `d`; any number is kept. */
  function Default(v: Option<int>, d: int): int {
    v.GetOr(d)
  }

  lemma {:induction false} DigitPrefixOfNotation(digits: string, rest: string)
    requires AllDigits(digits)
    requires rest == [] || !IsDigit(rest[0])
    ensures DigitPrefix(digits + rest) == digits
    decreases |digits|
  {
    if digits != [] {
      assert (digits + rest)[1..] == digits[1..] + rest;
      DigitPrefixOfNotation(digits[1..], rest);
    }
  }

  lemma TrimStartAtNonSpace(s: string)
    requires s != [] && !IsWhitespace(s[0])
    ensures TrimStart(s) == s
  {
  }

  lemma ParseIntOfDigits(digits: string, rest: string)
    requires |digits| >= 1 && AllDigits(digits)
    requires rest == [] || !IsDigit(rest[0])
    ensures ParseInt(digits + rest) == Some(DigitsValue(digits) as int)
  {
    var s := digits + rest;
    assert s[0] == digits[0];
    assert IsDigit(s[0]);
    TrimStartAtNonSpace(s);
    DigitPrefixOfNotation(digits, rest);
    UnsignedParse(s, digits);
  }

  lemma UnsignedParse(s: string, digits: string)
    requires s != [] && TrimStart(s) == s && s[0] != '+' && s[0] != '-'
    requires digits != [] && DigitPrefix(s) == digits
    ensures ParseInt(s) == Some(DigitsValue(digits) as int)
  {
  }

  /** `parseInt` reads a number's notation back, ignoring anything after it that is not a
      digit ("12abc" gives 12). */
  lemma ParseIntOfNotation(n: nat, rest: string)
    requires rest == [] || !IsDigit(rest[0])
    ensures ParseInt(NatToDec(n) + rest) == Some(n)
  {
    ParseIntOfDigits(NatToDec(n), rest);
    NotationValue(n);
  }

  /** Text without any digit reads as NaN. */
  lemma ParseIntNoDigits(s: string)
    requires forall k :: 0 <= k < |s| ==> !IsDigit(s[k])
    ensures ParseInt(s) == None
  {
    var t := TrimStart(s);
    assert forall k :: 0 <= k < |t| ==> !IsDigit(t[k]) by {
      forall k | 0 <= k < |t| ensures !IsDigit(t[k]) {
        assert t[k] == s[|s| - |t| + k];
      }
    }
    var signed := |t| > 0 && (t[0] == '+' || t[0] == '-');
    var u := if signed then t[1..] else t;
    assert u == [] || !IsDigit(u[0]) by {
      if signed && |u| > 0 { assert u[0] == t[1]; }
    }
    assert DigitPrefix(u) == [];
  }

  /** Text that `isInt` accepts is read by `toInt` as the same integer. */
  lemma IntTextParses(s: string)
    requires IntValue(s).Some?
    ensures ParseInt(s) == IntValue(s)
  {
    TrimStartAtNonSpace(s);
    var signed := s[0] == '+' || s[0] == '-';
    var digits := if signed then s[1..] else s;
    assert digits + [] == digits;
    DigitPrefixOfNotation(digits, []);
  }
}
