/** Access tokens (`GenerateToken` and `VerifyToken` of
    internal/service/auth.go). A token carries two claims, the user id and
    the expiry in whole seconds, and a signature over them by a keyed
    signer; it is accepted while the signature matches and the current
    instant is before the expiry. The signer is a parameter: the model only
    needs that the same key signs the same claims the same way. */
module Tokens {
  import opened Wrappers
  import opened Text
  import opened Calendar

  /** A keyed signature over a string of claims (HS256 with the service's
      secret). */
  datatype Signer = Signer(mac: string -> string)

  const ErrInvalidToken := "invalid token"

  /** The claims `user_id` and `exp`, the latter in seconds. */
  function Claims(userId: int, exp: int): string {
    IntToDecimal(userId) + ":" + IntToDecimal(exp)
  }

  /** The claims followed by their signature. */
  function Sign(signer: Signer, claims: string): string {
    claims + "." + signer.mac(claims)
  }

  /** The expiry `time.Now().Add(duration).Unix()` in whole seconds, rounded
      down. The seconds are counted from the instant zero of this model
      (0001-01-01), not from 1970 as Unix time is: the two differ by a
      constant, and signing and verifying both use this scale. */
  function ExpiryClaim(now: Instant, duration: int): int {
    (now + duration) / NanosPerSecond
  }

  function GenerateToken(signer: Signer, userId: int, duration: int, now: Instant): string {
    Sign(signer, Claims(userId, ExpiryClaim(now, duration)))
  }

  /** The user id of a token this signer signed and whose expiry has not
      been reached; every other token is "invalid token". */
  function VerifyToken(signer: Signer, token: string, now: Instant): (r: Result<int, string>)
    ensures r.Failure? ==> r.error == ErrInvalidToken
    ensures r.Success? ==> exists claims :: token == Sign(signer, claims)
  {
    match Cut(token, '.')
    case None => Failure(ErrInvalidToken)
    case Some((claims, signature)) =>
      if signature != signer.mac(claims) then Failure(ErrInvalidToken)
      else match Cut(claims, ':')
        case None => Failure(ErrInvalidToken)
        case Some((user, expiry)) =>
          match (ParseInt(user), ParseInt(expiry))
          case (Some(u), Some(e)) =>
            if now < e * NanosPerSecond then
              assert token == Sign(signer, claims);
              Success(u)
            else Failure(ErrInvalidToken)
          case _ => Failure(ErrInvalidToken)
  }

  /** A signed decimal holds neither of the separators of a token. */
  lemma DecimalSeparators(i: int)
    ensures '.' !in IntToDecimal(i) && ':' !in IntToDecimal(i)
  {
    var s := IntToDecimal(i);
    var digits := if i < 0 then s[1..] else s;
    assert AllDigits(digits);
    if i < 0 {
      assert s == "-" + digits;
    }
  }

  /** A generated token is accepted, for the user it was made for, at every
      instant before its expiry claim. */
  lemma VerifyGenerated(signer: Signer, userId: int, duration: int, issued: Instant, now: Instant)
    requires now < ExpiryClaim(issued, duration) * NanosPerSecond
    ensures VerifyToken(signer, GenerateToken(signer, userId, duration, issued), now) == Success(userId)
  {
    var exp := ExpiryClaim(issued, duration);
    var claims := Claims(userId, exp);
    DecimalSeparators(userId);
    DecimalSeparators(exp);
    assert '.' !in claims;
    CutAt(claims, '.', signer.mac(claims));
    CutAt(IntToDecimal(userId), ':', IntToDecimal(exp));
    ParseIntRoundTrip(userId);
    ParseIntRoundTrip(exp);
  }

  /** A token is accepted right after it is made when it lives at least a
      second (the expiry claim drops the fraction of a second). */
  lemma VerifyFresh(signer: Signer, userId: int, duration: int, now: Instant)
    requires duration >= NanosPerSecond
    ensures VerifyToken(signer, GenerateToken(signer, userId, duration, now), now) == Success(userId)
  {
    var exp := ExpiryClaim(now, duration);
    assert exp * NanosPerSecond > now + duration - NanosPerSecond;
    VerifyGenerated(signer, userId, duration, now, now);
  }

  /** Once its expiry claim is reached, a generated token is refused. */
  lemma VerifyExpired(signer: Signer, userId: int, duration: int, issued: Instant, now: Instant)
    requires now >= ExpiryClaim(issued, duration) * NanosPerSecond
    ensures VerifyToken(signer, GenerateToken(signer, userId, duration, issued), now) == Failure(ErrInvalidToken)
  {
    var exp := ExpiryClaim(issued, duration);
    var claims := Claims(userId, exp);
    DecimalSeparators(userId);
    DecimalSeparators(exp);
    CutAt(claims, '.', signer.mac(claims));
    CutAt(IntToDecimal(userId), ':', IntToDecimal(exp));
    ParseIntRoundTrip(userId);
    ParseIntRoundTrip(exp);
  }

  /** A token whose part before the first '.' holds no ':' carries no claims
      and is refused, whatever follows. */
  lemma {:induction false} VerifyWithoutClaims(signer: Signer, head: string, tail: string, now: Instant)
    requires '.' !in head && ':' !in head
    ensures VerifyToken(signer, head + "." + tail, now) == Failure(ErrInvalidToken)
  {
    CutAt(head, '.', tail);
    assert Cut(head, ':').None?;
  }

  /** The malformed token of the repository's own test is refused with the
      error text it expects. */
  lemma VerifyMalformed(signer: Signer, token: string, now: Instant)
    requires token == "invalid.token.string"
    ensures VerifyToken(signer, token, now) == Failure(ErrInvalidToken)
  {
    assert token == "invalid" + "." + "token.string";
    VerifyWithoutClaims(signer, "invalid", "token.string", now);
  }
}
