/** The jsonwebtoken library as the core uses it: `jwt.sign(payload, secret, {expiresIn: "1h"})`
    and `jwt.verify(token, secret)`, for JSON Web Tokens (RFC 7519).

    The wire format here is a stand-in for base64url(JSON header) "." base64url(JSON payload)
    "." HMAC-SHA256: the claims are written as '.'-separated decimal segments (user id, `iat`,
    `exp`, then the code points of the email) and the last segment is a decimal digest of the
    secret and the payload. What the core relies on is kept: a token is one word without
    spaces, verification under the signing secret recovers exactly the signed claims until
    `exp`, and a token that was not produced by signing (e.g. one with an altered signature
    segment) is rejected. */
module Jwt {
  import opened Wrappers
  import opened Text
  import opened Decimal
  import Digest

  /** `expiresIn: "1h"`: the `exp` claim (RFC 7519, section 4.1.4) is issue time plus 3600 s. */
  const ExpiresIn: nat := 3600

  /** The decoded payload the guard stores in `req.user`: `{userId, email, iat, exp}`. */
  datatype Claims = Claims(userId: nat, email: string, iat: nat, exp: nat)

  /** jsonwebtoken's failures: JsonWebTokenError ("jwt malformed", "invalid signature")
      and TokenExpiredError. */
  datatype JwtError = Malformed | InvalidSignature | Expired

  /** The claims `jwt.sign({userId, email}, secret, {expiresIn: "1h"})` writes at time `now`. */
  function Issue(userId: nat, email: string, now: nat): (c: Claims)
    ensures c.userId == userId && c.email == email
    ensures c.iat == now && c.exp - c.iat == 3600
  {
    Claims(userId, email, now, now + ExpiresIn)
  }

  /** The code points of a string. */
  function CodesOf(s: string): (r: seq<nat>)
    ensures |r| == |s| && forall i :: 0 <= i < |s| ==> r[i] == s[i] as nat
    decreases |s|
  {
    if s == [] then [] else [s[0] as nat] + CodesOf(s[1..])
  }

  /** One decimal segment per number. */
  function Decimals(ns: seq<nat>): (r: seq<string>)
    ensures |r| == |ns| && forall i :: 0 <= i < |ns| ==> r[i] == NatToDec(ns[i])
    decreases |ns|
  {
    if ns == [] then [] else [NatToDec(ns[0])] + Decimals(ns[1..])
  }

  /** The three numbers, then the email one code point per segment. */
  function Segments(c: Claims): seq<string> {
    Decimals([c.userId, c.iat, c.exp] + CodesOf(c.email))
  }

  function Signature(secret: string, payload: seq<string>): string
    requires |payload| >= 1
  {
    NatToDec(Digest.Fingerprint(secret + "." + Join(payload, '.')))
  }

  /** `jwt.sign`: the token is a non-empty word of digits and dots, so it contains no space. */
  function Sign(c: Claims, secret: string): (token: string)
    ensures token != []
    ensures forall k :: 0 <= k < |token| ==> token[k] == '.' || IsDigit(token[k])
  {
    var parts := Segments(c) + [Signature(secret, Segments(c))];
    JoinAlphabet(parts, '.', {'0', '1', '2', '3', '4', '5', '6', '7', '8', '9', '.'});
    Join(parts, '.')
  }

  predicate IsScalar(n: nat) {
    n < 0xD800 || 0xE000 <= n < 0x11_0000
  }

  function ParseAll(parts: seq<string>): (r: Option<seq<nat>>)
    ensures r.Some? ==> |r.value| == |parts|
    ensures r.Some? ==> forall i :: 0 <= i < |parts| ==> NatToDec(r.value[i]) == parts[i]
    decreases |parts|
  {
    if parts == [] then Some([])
    else
      match (ParseNat(parts[0]), ParseAll(parts[1..]))
      case (Some(n), Some(ns)) => Some([n] + ns)
      case _ => None
  }

  /** The string whose code points are `ns`, if each of them is a Unicode scalar value. */
  function Chars(ns: seq<nat>): (r: Option<string>)
    ensures r.Some? ==> |r.value| == |ns| && forall i :: 0 <= i < |ns| ==> r.value[i] as nat == ns[i]
    decreases |ns|
  {
    if ns == [] then Some([])
    else if !IsScalar(ns[0]) then None
    else match Chars(ns[1..])
      case None => None
      case Some(t) => Some([ns[0] as char] + t)
  }

  /** The claims a payload holds: three numbers, then the code points of the email. */
  function DecodeClaims(payload: seq<string>): Option<Claims>
    requires |payload| >= 3
  {
    match ParseAll(payload)
    case None => None
    case Some(ns) =>
      match Chars(ns[3..])
      case None => None
      case Some(email) => Some(Claims(ns[0], email, ns[1], ns[2]))
  }

  /** `jwt.verify(token, secret)` at time `now` (seconds): the payload must decode, the
      signature must match, and `now` must be before `exp`. */
  function Verify(token: string, secret: string, now: nat): (r: Result<Claims, JwtError>)
    ensures r.Success? ==> now < r.value.exp
  {
    var parts := Split(token, '.');
    if |parts| < 4 then Failure(Malformed)
    else
      var payload := parts[..|parts| - 1];
      match DecodeClaims(payload)
      case None => Failure(Malformed)
      case Some(c) =>
        if parts[|parts| - 1] != Signature(secret, payload) then Failure(InvalidSignature)
        else if now >= c.exp then Failure(Expired)
        else Success(c)
  }

  lemma {:induction false} ParseAllSegments(parts: seq<string>, ns: seq<nat>)
    requires |parts| == |ns|
    requires forall i :: 0 <= i < |ns| ==> parts[i] == NatToDec(ns[i])
    ensures ParseAll(parts) == Some(ns)
    decreases |parts|
  {
    if parts != [] {
      NotationRoundTrip(ns[0]);
      ParseAllSegments(parts[1..], ns[1..]);
      assert [ns[0]] + ns[1..] == ns;
    }
  }

  /** The code points of any string decode back to it. */
  lemma {:induction false} CharsOfCodes(s: string)
    ensures Chars(CodesOf(s)) == Some(s)
    decreases |s|
  {
    if s != [] {
      CharsOfCodes(s[1..]);
      assert CodesOf(s)[1..] == CodesOf(s[1..]);
      assert [s[0]] + s[1..] == s;
    }
  }

  /** The segments of a claim set parse to its three numbers and its email's code points. */
  lemma ParseSegments(c: Claims)
    ensures ParseAll(Segments(c)) == Some([c.userId, c.iat, c.exp] + CodesOf(c.email))
  {
    var ns := [c.userId, c.iat, c.exp] + CodesOf(c.email);
    assert forall i :: 3 <= i < |ns| ==> ns[i] == CodesOf(c.email)[i - 3];
    ParseAllSegments(Segments(c), ns);
  }

  /** Decoding the segments of a claim set gives the claim set back. */
  lemma DecodeSegments(c: Claims)
    ensures DecodeClaims(Segments(c)) == Some(c)
  {
    var ns := [c.userId, c.iat, c.exp] + CodesOf(c.email);
    ParseSegments(c);
    assert ns[3..] == CodesOf(c.email);
    CharsOfCodes(c.email);
  }

  /** The only payload that decodes to `c` is the segments of `c`. */
  lemma SegmentsOfDecoded(payload: seq<string>, c: Claims)
    requires |payload| >= 3 && DecodeClaims(payload) == Some(c)
    ensures payload == Segments(c)
  {
    var ns := ParseAll(payload).value;
    assert |c.email| == |payload| - 3;
    forall i | 3 <= i < |payload| ensures payload[i] == Segments(c)[i] {
      assert c.email[i - 3] as nat == ns[i];
    }
  }

  lemma SignedParts(c: Claims, secret: string)
    ensures Split(Sign(c, secret), '.') == Segments(c) + [Signature(secret, Segments(c))]
  {
    var parts := Segments(c) + [Signature(secret, Segments(c))];
    forall i | 0 <= i < |parts| ensures '.' !in parts[i] {
      assert AllDigits(parts[i]);
    }
    SplitJoin(parts, '.');
  }

  /** Round trip: until it expires, a signed token verifies to exactly the signed claims. */
  lemma VerifySigned(c: Claims, secret: string, now: nat)
    requires now < c.exp
    ensures Verify(Sign(c, secret), secret, now) == Success(c)
  {
    SignedParts(c, secret);
    DecodeSegments(c);
    var parts := Segments(c) + [Signature(secret, Segments(c))];
    assert parts[..|parts| - 1] == Segments(c);
  }

  /** From `exp` on, the same token is rejected as expired. */
  lemma VerifyExpired(c: Claims, secret: string, now: nat)
    requires now >= c.exp
    ensures Verify(Sign(c, secret), secret, now) == Failure(Expired)
  {
    SignedParts(c, secret);
    DecodeSegments(c);
    var parts := Segments(c) + [Signature(secret, Segments(c))];
    assert parts[..|parts| - 1] == Segments(c);
  }

  /** Soundness: a token that verifies is the signature of the claims it yields, and those
      claims have not expired. */
  lemma VerifySound(token: string, secret: string, now: nat, c: Claims)
    requires Verify(token, secret, now) == Success(c)
    ensures token == Sign(c, secret) && now < c.exp
  {
    var parts := Split(token, '.');
    var payload := parts[..|parts| - 1];
    SegmentsOfDecoded(payload, c);
    assert parts == payload + [Signature(secret, Segments(c))];
    JoinSplit(token, '.');
  }

  /** Changing the signature segment of a signed token to anything else (without a dot)
      makes it fail verification as an invalid signature, whatever the time. */
  lemma TamperedSignatureRejected(c: Claims, secret: string, forged: string, now: nat)
    requires '.' !in forged && forged != Signature(secret, Segments(c))
    ensures Verify(Join(Segments(c) + [forged], '.'), secret, now) == Failure(InvalidSignature)
  {
    var token := Join(Segments(c) + [forged], '.');
    var parts := Segments(c) + [forged];
    forall i | 0 <= i < |parts| ensures '.' !in parts[i] {
      if i < |parts| - 1 { assert AllDigits(parts[i]); }
    }
    SplitJoin(parts, '.');
    DecodeSegments(c);
    assert parts[..|parts| - 1] == Segments(c);
  }
}
