/** The credential operations of internal/service/auth.go as functions of the
    key-value data: one-time code issue, login with a code, refresh-token
    rotation and logout. Each returns the caller's answer together with the
    data the operation's sequence of reads and writes leaves behind; the
    outcome of every store command is a parameter (see `Fault`), and so are
    the values the code draws from randomness: the code's number and the
    new refresh token. The service methods of module Service perform the
    same sequences on a `KeyValueStore` and are proved to agree with these
    functions. */
module Credentials {
  import opened Wrappers
  import opened Text
  import opened Calendar
  import opened KeyValue
  import opened Tokens

  const ErrBadCode := "invalid or expired code"
  const ErrBadRefresh := "refresh token expired or invalid"

  /** The number of possible codes: `rand.Intn(1000000)`. */
  const CodeRange := 1_000_000

  /** How long an access token lives: `time.Minute*15`. */
  const AccessLifetime := 15 * NanosPerMinute

  /** The value the blacklist holds for a logged-out access token. */
  const Revoked := "true"

  function OtpKey(userId: int): string { "otp:" + IntToDecimal(userId) }

  function RefreshKey(token: string): string { "refresh:" + token }

  function BlacklistKey(token: string): string { "blacklist:" + token }

  datatype TokenPair = TokenPair(access: string, refresh: string)

  /** What an operation answers and the data it leaves behind. */
  datatype Outcome<T> = Outcome(answer: T, data: map<string, string>)

  /** `fmt.Sprintf("%06d", n)`: six decimal digits spelling `n`. */
  function AuthCode(n: nat): (code: string)
    requires n < CodeRange
    ensures |code| == 6 && AllDigits(code) && DigitsValue(code) == n
  {
    DigitCountAtMost(n, 6);
    ZeroPad(n, 6)
  }

  /** `GenerateAuthCode`: the code, and the error of storing it under the
      user's one-time-code key. */
  function IssueCode(data: map<string, string>, userId: int, n: nat, setFault: Fault): Outcome<(string, Fault)>
    requires n < CodeRange
  {
    var code := AuthCode(n);
    Outcome((code, setFault), Written(data, OtpKey(userId), code, setFault))
  }

  /** `Login`: the stored code must be there and equal the given one; then an
      access token is made, the new refresh token is stored for the user,
      and only after that is the code deleted, ignoring that deletion's
      error. */
  function Login(data: map<string, string>, signer: Signer, userId: int, code: string, now: Instant,
                 newToken: string, lookupFault: Fault, setFault: Fault, deleteFault: Fault): Outcome<Result<TokenPair, string>>
  {
    var saved := Lookup(data, OtpKey(userId), lookupFault);
    if saved.Failure? || saved.value != code then Outcome(Failure(ErrBadCode), data)
    else
      var access := GenerateToken(signer, userId, AccessLifetime, now);
      if setFault.Some? then Outcome(Failure(setFault.value), data)
      else
        var stored := Written(data, RefreshKey(newToken), IntToDecimal(userId), None);
        Outcome(Success(TokenPair(access, newToken)), Removed(stored, OtpKey(userId), deleteFault))
  }

  /** `Refresh`: the previous refresh token must be stored; the user id is scanned
      from its value, a new pair is made, the previous token is deleted and the
      new one stored, both ignoring their errors. */
  function Refresh(data: map<string, string>, signer: Signer, previous: string, now: Instant,
                   newToken: string, lookupFault: Fault, deleteFault: Fault, setFault: Fault): Outcome<Result<TokenPair, string>>
  {
    var val := Lookup(data, RefreshKey(previous), lookupFault);
    if val.Failure? then Outcome(Failure(ErrBadRefresh), data)
    else
      var userId := ScanInt(val.value);
      var access := GenerateToken(signer, userId, AccessLifetime, now);
      var dropped := Removed(data, RefreshKey(previous), deleteFault);
      Outcome(Success(TokenPair(access, newToken)), Written(dropped, RefreshKey(newToken), IntToDecimal(userId), setFault))
  }

  /** `Logout`: delete the refresh token, ignoring the error, then blacklist
      the access token and answer that write's error. */
  function Logout(data: map<string, string>, access: string, refresh: string, deleteFault: Fault, setFault: Fault): Outcome<Fault>
  {
    var dropped := Removed(data, RefreshKey(refresh), deleteFault);
    Outcome(setFault, Written(dropped, BlacklistKey(access), Revoked, setFault))
  }

  // ---------------------------------------------------------------------
  // Properties
  // ---------------------------------------------------------------------

  /** The three kinds of keys never collide, and each kind names its
      subject: different users and tokens have different keys. */
  lemma KeySpaces(u: int, v: int, a: string, b: string)
    ensures OtpKey(u) != RefreshKey(a) && OtpKey(u) != BlacklistKey(a) && RefreshKey(a) != BlacklistKey(b)
    ensures OtpKey(u) == OtpKey(v) <==> u == v
    ensures RefreshKey(a) == RefreshKey(b) <==> a == b
    ensures BlacklistKey(a) == BlacklistKey(b) <==> a == b
  {
    assert OtpKey(u)[0] == 'o' && RefreshKey(a)[0] == 'r' && BlacklistKey(a)[0] == 'b' && BlacklistKey(b)[0] == 'b';
    if OtpKey(u) == OtpKey(v) {
      assert IntToDecimal(u) == OtpKey(u)[4..] == OtpKey(v)[4..] == IntToDecimal(v);
      ParseIntRoundTrip(u);
      ParseIntRoundTrip(v);
    }
    if RefreshKey(a) == RefreshKey(b) {
      assert a == RefreshKey(a)[8..] == RefreshKey(b)[8..] == b;
    }
    if BlacklistKey(a) == BlacklistKey(b) {
      assert a == BlacklistKey(a)[10..] == BlacklistKey(b)[10..] == b;
    }
  }

  /** The issued code is six digits spelling the drawn number; once stored,
      it is what the user's one-time-code key holds, and a failed write
      leaves the data as it was. */
  lemma IssueCodeStores(data: map<string, string>, userId: int, n: nat, setFault: Fault)
    requires n < CodeRange
    ensures var o := IssueCode(data, userId, n, setFault);
      |o.answer.0| == 6 && AllDigits(o.answer.0) && DigitsValue(o.answer.0) == n && o.answer.1 == setFault
      && (setFault.None? ==> Lookup(o.data, OtpKey(userId), None) == Success(o.answer.0))
      && (setFault.Some? ==> o.data == data)
  {
  }

  /** An issued code logs its user in, and the pair it yields holds an
      access token for that user and the refresh token stored for that user. */
  lemma IssueThenLogin(data: map<string, string>, signer: Signer, userId: int, n: nat, now: Instant, newToken: string, deleteFault: Fault)
    requires n < CodeRange
    ensures var issued := IssueCode(data, userId, n, None);
      var login := Login(issued.data, signer, userId, issued.answer.0, now, newToken, None, None, deleteFault);
      login.answer == Success(TokenPair(GenerateToken(signer, userId, AccessLifetime, now), newToken))
      && Lookup(login.data, RefreshKey(newToken), None) == Success(IntToDecimal(userId))
  {
    KeySpaces(userId, userId, newToken, newToken);
  }

  /** A missing, unreadable or different stored code refuses the login and
      writes nothing: the stored code stays. */
  lemma LoginWrongCode(data: map<string, string>, signer: Signer, userId: int, code: string, now: Instant,
                       newToken: string, lookupFault: Fault, setFault: Fault, deleteFault: Fault)
    requires Lookup(data, OtpKey(userId), lookupFault) != Success(code)
    ensures Login(data, signer, userId, code, now, newToken, lookupFault, setFault, deleteFault) == Outcome(Failure(ErrBadCode), data)
  {
  }

  /** When the refresh token cannot be stored the login fails with that
      error, and the code stays for another attempt. */
  lemma LoginStoreFails(data: map<string, string>, signer: Signer, userId: int, code: string, now: Instant,
                        newToken: string, lookupFault: Fault, setFault: Fault, deleteFault: Fault)
    requires setFault.Some?
    ensures var o := Login(data, signer, userId, code, now, newToken, lookupFault, setFault, deleteFault);
      o.data == data && o.answer.Failure?
  {
  }

  /** A code logs in at most once: after a login whose deletion of the code
      went through, the same code is refused. */
  lemma LoginOnce(data: map<string, string>, signer: Signer, userId: int, code: string, now: Instant, newToken: string,
                  lookupFault: Fault, setFault: Fault, later: Instant, newToken2: string, lookupFault2: Fault, setFault2: Fault, deleteFault2: Fault)
    requires Login(data, signer, userId, code, now, newToken, lookupFault, setFault, None).answer.Success?
    ensures var after := Login(data, signer, userId, code, now, newToken, lookupFault, setFault, None).data;
      Login(after, signer, userId, code, later, newToken2, lookupFault2, setFault2, deleteFault2).answer == Failure(ErrBadCode)
  {
    KeySpaces(userId, userId, newToken, newToken);
  }

  /** The access token a login hands out names the user who logged in, until
      it expires. */
  lemma LoginAccessToken(data: map<string, string>, signer: Signer, userId: int, code: string, now: Instant,
                         newToken: string, lookupFault: Fault, setFault: Fault, deleteFault: Fault, later: Instant)
    requires Login(data, signer, userId, code, now, newToken, lookupFault, setFault, deleteFault).answer.Success?
    requires later < ExpiryClaim(now, AccessLifetime) * NanosPerSecond
    ensures var pair := Login(data, signer, userId, code, now, newToken, lookupFault, setFault, deleteFault).answer.value;
      VerifyToken(signer, pair.access, later) == Success(userId)
  {
    VerifyGenerated(signer, userId, AccessLifetime, now, later);
  }

  /** An unknown or unreadable refresh token is refused and nothing is
      written. */
  lemma RefreshUnknown(data: map<string, string>, signer: Signer, previous: string, now: Instant,
                       newToken: string, lookupFault: Fault, deleteFault: Fault, setFault: Fault)
    requires lookupFault.Some? || RefreshKey(previous) !in data
    ensures Refresh(data, signer, previous, now, newToken, lookupFault, deleteFault, setFault) == Outcome(Failure(ErrBadRefresh), data)
  {
  }

  /** Rotation keeps the user: a refresh token stored for a user yields an
      access token for that user, and, when the write goes through, a new
      refresh token stored for that same user. Write errors do not change
      the answer. */
  lemma RefreshKeepsUser(data: map<string, string>, signer: Signer, previous: string, userId: int, now: Instant,
                         newToken: string, deleteFault: Fault, setFault: Fault, later: Instant)
    requires RefreshKey(previous) in data && data[RefreshKey(previous)] == IntToDecimal(userId)
    requires later < ExpiryClaim(now, AccessLifetime) * NanosPerSecond
    ensures var o := Refresh(data, signer, previous, now, newToken, None, deleteFault, setFault);
      o.answer.Success? && o.answer.value.refresh == newToken
      && VerifyToken(signer, o.answer.value.access, later) == Success(userId)
      && (setFault.None? ==> Lookup(o.data, RefreshKey(newToken), None) == Success(IntToDecimal(userId)))
  {
    ScanIntRoundTrip(userId);
    VerifyGenerated(signer, userId, AccessLifetime, now, later);
  }

  /** Rotation is single use: once the previous token's deletion went through and
      the new token differs from it, the previous token is refused. */
  lemma RefreshSingleUse(data: map<string, string>, signer: Signer, previous: string, now: Instant, newToken: string,
                         lookupFault: Fault, setFault: Fault, later: Instant, newToken2: string, lookupFault2: Fault, deleteFault2: Fault, setFault2: Fault)
    requires newToken != previous
    requires Refresh(data, signer, previous, now, newToken, lookupFault, None, setFault).answer.Success?
    ensures var after := Refresh(data, signer, previous, now, newToken, lookupFault, None, setFault).data;
      Refresh(after, signer, previous, later, newToken2, lookupFault2, deleteFault2, setFault2).answer == Failure(ErrBadRefresh)
  {
    KeySpaces(0, 0, newToken, previous);
    var after := Refresh(data, signer, previous, now, newToken, lookupFault, None, setFault).data;
    assert RefreshKey(previous) !in after;
  }

  /** Logout answers the blacklist write's error only; when the writes go
      through, the access token is blacklisted and the refresh token is gone,
      so it no longer refreshes. */
  lemma LogoutRevokes(data: map<string, string>, access: string, refresh: string, deleteFault: Fault, setFault: Fault,
                      signer: Signer, now: Instant, newToken: string, lookupFault: Fault, deleteFault2: Fault, setFault2: Fault)
    ensures var o := Logout(data, access, refresh, deleteFault, setFault);
      o.answer == setFault
      && (setFault.None? ==> Lookup(o.data, BlacklistKey(access), None) == Success(Revoked))
      && (deleteFault.None? ==> Refresh(o.data, signer, refresh, now, newToken, lookupFault, deleteFault2, setFault2).answer == Failure(ErrBadRefresh))
  {
    KeySpaces(0, 0, refresh, access);
  }
}
