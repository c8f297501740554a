/** The bearer-token gate in front of the HTTP API (`authMiddleware` of
    internal/delivery/http/middleware.go): strip one "Bearer " prefix from
    the Authorization header, refuse a token the blacklist holds a
    non-empty value for, then refuse a token the signer does not accept,
    and otherwise pass the request on with the token's user id. The gate
    only reads the key-value data. */
module Gate {
  import opened Wrappers
  import opened Text
  import opened Calendar
  import opened KeyValue
  import opened Tokens
  import opened Credentials

  const StatusUnauthorized := 401
  const ErrLoggedOut := "Token is invalidated (logged out)"
  const ErrUnauthorized := "Unauthorized"

  /** What the gate does with a request: answer it with an error, or call
      the next handler with the user id in the request's context. */
  datatype Response = Rejected(status: int, message: string) | Passed(userId: int)

  function BearerToken(header: string): string {
    TrimPrefix(header, "Bearer ")
  }

  /** The blacklist lookup found a non-empty value. An absent key and a
      failed lookup both read as the empty string, so neither blocks. */
  predicate Blacklisted(data: map<string, string>, token: string, lookupFault: Fault) {
    lookupFault.None? && BlacklistKey(token) in data && data[BlacklistKey(token)] != ""
  }

  function Authenticate(header: string, data: map<string, string>, lookupFault: Fault, signer: Signer, now: Instant): (r: Response)
    ensures var token := BearerToken(header);
      && (Blacklisted(data, token, lookupFault) ==> r == Rejected(StatusUnauthorized, ErrLoggedOut))
      && (!Blacklisted(data, token, lookupFault) && VerifyToken(signer, token, now).Failure? ==> r == Rejected(StatusUnauthorized, ErrUnauthorized))
      && (r.Passed? <==> !Blacklisted(data, token, lookupFault) && VerifyToken(signer, token, now).Success?)
      && (r.Passed? ==> r.userId == VerifyToken(signer, token, now).value)
  {
    var token := BearerToken(header);
    var bad := match Lookup(data, BlacklistKey(token), lookupFault)
      case Success(v) => v
      case Failure(_) => "";
    if bad != "" then Rejected(StatusUnauthorized, ErrLoggedOut)
    else match VerifyToken(signer, token, now)
      case Failure(_) => Rejected(StatusUnauthorized, ErrUnauthorized)
      case Success(userId) => Passed(userId)
  }

  /** After a logout whose blacklist write went through, a request bearing
      the logged-out access token is refused before its signature is even
      looked at, however valid that signature still is. */
  lemma LogoutRevokesAccess(data: map<string, string>, access: string, refresh: string, deleteFault: Fault,
                            signer: Signer, now: Instant)
    ensures var after := Logout(data, access, refresh, deleteFault, None).data;
      Authenticate("Bearer " + access, after, None, signer, now) == Rejected(StatusUnauthorized, ErrLoggedOut)
  {
    assert BearerToken("Bearer " + access) == access;
  }

  /** The access token a login hands out opens the gate for its user until
      it expires, as long as it is not blacklisted. */
  lemma LoginOpensGate(data: map<string, string>, signer: Signer, userId: int, code: string, now: Instant,
                       newToken: string, lookupFault: Fault, setFault: Fault, deleteFault: Fault, later: Instant)
    requires Login(data, signer, userId, code, now, newToken, lookupFault, setFault, deleteFault).answer.Success?
    requires later < ExpiryClaim(now, AccessLifetime) * NanosPerSecond
    ensures var o := Login(data, signer, userId, code, now, newToken, lookupFault, setFault, deleteFault);
      var access := o.answer.value.access;
      BlacklistKey(access) !in data ==>
        Authenticate("Bearer " + access, o.data, None, signer, later) == Passed(userId)
  {
    var o := Login(data, signer, userId, code, now, newToken, lookupFault, setFault, deleteFault);
    var access := o.answer.value.access;
    assert BearerToken("Bearer " + access) == access;
    KeySpaces(userId, userId, newToken, access);
    LoginAccessToken(data, signer, userId, code, now, newToken, lookupFault, setFault, deleteFault, later);
  }

  /** The gate fails open on the blacklist: when the lookup itself fails, the
      signature alone decides. */
  lemma LookupFailureIgnored(header: string, data: map<string, string>, message: string, signer: Signer, now: Instant)
    ensures Authenticate(header, data, Some(message), signer, now) == Authenticate(header, map[], None, signer, now)
  {
  }

  /** Only the prefix "Bearer " is stripped; a header without it is taken as
      the token itself. */
  lemma HeaderWithoutPrefix(header: string, data: map<string, string>, lookupFault: Fault, signer: Signer, now: Instant)
    requires !("Bearer " <= header)
    ensures Authenticate(header, data, lookupFault, signer, now).Passed? ==>
      Authenticate(header, data, lookupFault, signer, now).userId == VerifyToken(signer, header, now).value
  {
  }
}
