/**
 * middleware/authMiddleware.js: finding the session token in a request,
 * the `protect` guard that authenticates it, and the `adminOnly` role gate.
 */
module AuthMiddleware {
  import opened Wrappers
  import opened Text
  import opened Crypto
  import opened Users
  import opened Http

  const BEARER_PREFIX := "Bearer "
  const TOKEN_COOKIE := "token"

  const TOKEN_MISSING := "Not authorized, token missing"
  const NOT_AUTHORIZED := "Not authorized"
  const USER_NOT_FOUND := "Not authorized, user not found"
  const ADMIN_ONLY := "Admin access only"

  /**
   * The header candidate: for a header starting with "Bearer ", element [1]
   * of `authorization.split(" ")`, or undefined when there is no such element.
   */
  function HeaderToken(authorization: Option<string>): (t: Option<string>)
    ensures t.Some? ==> Truthy(authorization) && StartsWith(authorization.value, BEARER_PREFIX)
  {
    if Truthy(authorization) && StartsWith(authorization.value, BEARER_PREFIX) then
      var fields := Split(authorization.value, ' ');
      if |fields| > 1 then Some(fields[1]) else None
    else
      None
  }

  /** The cookie candidate: `req.cookies.token` when cookies were parsed and it is truthy. */
  function CookieToken(cookies: Option<map<string, string>>): (t: Option<string>)
    ensures t.Some? ==> Truthy(t) && cookies.Some? && TOKEN_COOKIE in cookies.value && t.value == cookies.value[TOKEN_COOKIE]
    ensures t.None? ==> cookies.None? || TOKEN_COOKIE !in cookies.value || cookies.value[TOKEN_COOKIE] == ""
  {
    if cookies.Some? && TOKEN_COOKIE in cookies.value && cookies.value[TOKEN_COOKIE] != "" then
      Some(cookies.value[TOKEN_COOKIE])
    else
      None
  }

  /**
   * A "Bearer " header always yields a header candidate, and that candidate
   * is the leading run of non-space characters after the prefix: everything
   * up to the next space or the end of the header.
   */
  lemma HeaderTokenIsFirstWord(authorization: Option<string>)
    ensures HeaderToken(authorization).Some? <==> Truthy(authorization) && StartsWith(authorization.value, BEARER_PREFIX)
    ensures HeaderToken(authorization).Some? ==>
      var rest := authorization.value[|BEARER_PREFIX|..];
      var t := HeaderToken(authorization).value;
      && ' ' !in t && StartsWith(rest, t)
      && (|t| == |rest| || rest[|t|] == ' ')
  {
    if Truthy(authorization) && StartsWith(authorization.value, BEARER_PREFIX) {
      var h := authorization.value;
      var rest := h[|BEARER_PREFIX|..];
      assert h == "Bearer" + [' '] + rest;
      SplitAfterField("Bearer", rest, ' ');
      SplitFirstField(rest, ' ');
    }
  }

  /**
   * `extractToken(req)`: the header candidate, replaced by the cookie
   * candidate when the header gives nothing truthy. The result may be "" (a
   * "Bearer " header with an empty second field and no cookie), which
   * `protect` treats like a missing token.
   */
  function ExtractToken(authorization: Option<string>, cookies: Option<map<string, string>>): (token: Option<string>)
    ensures Truthy(HeaderToken(authorization)) ==> token == HeaderToken(authorization)
    ensures !Truthy(HeaderToken(authorization)) && CookieToken(cookies).Some? ==> token == CookieToken(cookies)
    ensures Truthy(token) <==> Truthy(HeaderToken(authorization)) || CookieToken(cookies).Some?
    ensures token.None? <==> HeaderToken(authorization).None? && CookieToken(cookies).None?
  {
    var fromHeader := HeaderToken(authorization);
    if !Truthy(fromHeader) && CookieToken(cookies).Some? then CookieToken(cookies) else fromHeader
  }

  /** A well-formed bearer header wins over any cookie. */
  lemma BearerHeaderWins(token: string, cookies: Option<map<string, string>>)
    requires token != "" && ' ' !in token
    ensures ExtractToken(Some(BEARER_PREFIX + token), cookies) == Some(token)
  {
    var h := BEARER_PREFIX + token;
    assert h[|BEARER_PREFIX|..] == token;
    assert h == "Bearer" + [' '] + token;
    SplitAfterField("Bearer", token, ' ');
    SplitFree(token, ' ');
  }

  /** Without a "Bearer " header the cookie decides. */
  lemma NoBearerUsesCookie(authorization: Option<string>, cookies: Option<map<string, string>>)
    requires !(Truthy(authorization) && StartsWith(authorization.value, BEARER_PREFIX))
    ensures ExtractToken(authorization, cookies) == CookieToken(cookies)
  {
  }

  /** "Bearer  x" (two spaces) has an empty second field, so the cookie is used. */
  lemma DoubleSpaceFallsBackToCookie(cookie: string)
    requires cookie != ""
    ensures ExtractToken(Some("Bearer  x"), Some(map[TOKEN_COOKIE := cookie])) == Some(cookie)
  {
  }

  /** "Bearer " with nothing after it and no cookie yields "", not null. */
  lemma EmptyFieldWithoutCookie()
    ensures ExtractToken(Some(BEARER_PREFIX), None) == Some("")
  {
  }

  /** "Bearer a b" yields "a": only the second field is taken. */
  lemma ExtraFieldsIgnored(cookies: Option<map<string, string>>)
    ensures ExtractToken(Some("Bearer a b"), cookies) == Some("a")
  {
    var h := Some("Bearer a b");
    HeaderTokenIsFirstWord(h);
    var t := HeaderToken(h).value;
    assert h.value[|BEARER_PREFIX|..] == "a b";
    assert "a b"[0] != ' ' && "a b"[1] == ' ';
    assert t == "a b"[..1] == "a";
  }

  /** The answer of `protect` for an extracted token: the user to attach, or a 401 response. */
  datatype Guard = Allow(user: PublicUser) | Deny(response: Response)

  /**
   * The decision chain of `protect`: no truthy token, a token `jwt.verify`
   * rejects, or an id with no stored record each deny with 401 and their own
   * message; otherwise the record without its password is attached.
   */
  function Authenticate(token: Option<string>, users: Collection, env: Env, now: Time): (g: Guard)
    requires UniqueIds(users)
    ensures g.Deny? ==> g.response.status == 401 && !g.response.body.success && g.response.cookie == NoCookie
    ensures !Truthy(token) ==> g == Deny(Failure(401, TOKEN_MISSING))
    ensures Truthy(token) && env.verify(token.value, now).None? ==> g == Deny(Failure(401, NOT_AUTHORIZED))
    ensures Truthy(token) && env.verify(token.value, now).Some? && FindById(users, env.verify(token.value, now).value).None? ==>
      g == Deny(Failure(401, USER_NOT_FOUND))
    ensures g.Allow? <==> Truthy(token) && env.verify(token.value, now).Some? && exists e :: e in users && users[e].id == env.verify(token.value, now).value
    ensures g.Allow? ==> g.user.id == env.verify(token.value, now).value && exists u :: u in users.Values && g.user == WithoutPassword(u)
  {
    if !Truthy(token) then Deny(Failure(401, TOKEN_MISSING))
    else
      match env.verify(token.value, now)
      case None => Deny(Failure(401, NOT_AUTHORIZED))
      case Some(id) =>
        match FindById(users, id)
        case None => Deny(Failure(401, USER_NOT_FOUND))
        case Some(u) => Allow(WithoutPassword(u))
  }

  /**
   * `protect(req, res, next)` at time `now`: either sets `req.user` and calls
   * `next`, or answers with the 401 response of `Authenticate` and leaves
   * `req.user`.
   */
  method Protect(req: Request, users: Collection, env: Env, now: Time) returns (outcome: Outcome)
    requires UniqueIds(users)
    modifies req
    ensures var g := Authenticate(ExtractToken(req.authorization, req.cookies), users, env, now);
      && (g.Allow? ==> outcome == Next && req.user == Some(g.user))
      && (g.Deny? ==> outcome == Respond(g.response) && req.user == old(req.user))
  {
    var token := ExtractToken(req.authorization, req.cookies);
    if !Truthy(token) {
      return Respond(Failure(401, TOKEN_MISSING));
    }
    var decoded := env.verify(token.value, now);
    if decoded.None? {
      return Respond(Failure(401, NOT_AUTHORIZED));
    }
    var user := FindById(users, decoded.value);
    if user.None? {
      return Respond(Failure(401, USER_NOT_FOUND));
    }
    req.user := Some(WithoutPassword(user.value));
    outcome := Next;
  }

  /** An unexpired token the server issued for a stored user authenticates that user. */
  lemma IssuedTokenAuthenticates(users: Collection, e: string, env: Env, issuedAt: Time, now: Time)
    requires UniqueIds(users) && TokensSound(env)
    requires e in users
    requires Unexpired(issuedAt, now)
    ensures Authenticate(Some(env.sign(users[e].id, issuedAt)), users, env, now) == Allow(WithoutPassword(users[e]))
  {
    assert env.verify(env.sign(users[e].id, issuedAt), now) == Some(users[e].id);
    FindByIdStored(users, e);
  }

  /** Seven days after issue, the same token is refused with 401 "Not authorized". */
  lemma ExpiredTokenRefused(id: UserId, users: Collection, env: Env, issuedAt: Time, now: Time)
    requires UniqueIds(users) && TokensSound(env)
    requires now >= issuedAt + TOKEN_LIFETIME
    ensures Authenticate(Some(env.sign(id, issuedAt)), users, env, now) == Deny(Failure(401, NOT_AUTHORIZED))
  {
  }

  /** A string that is no token the server ever issued (tampered or forged) is refused with 401 "Not authorized". */
  lemma TamperedTokenRefused(token: string, users: Collection, env: Env, now: Time)
    requires UniqueIds(users) && TokensSound(env)
    requires token != ""
    requires forall id: UserId, t: Time :: token != env.sign(id, t)
    ensures Authenticate(Some(token), users, env, now) == Deny(Failure(401, NOT_AUTHORIZED))
  {
  }

  /** `adminOnly(req, res, next)`: `next` exactly for an attached admin, otherwise 403. */
  function AdminOnly(user: Option<PublicUser>): (o: Outcome)
    ensures o == Next <==> user.Some? && RoleName(user.value.role) == "admin"
    ensures o != Next ==> o == Respond(Failure(403, ADMIN_ONLY))
  {
    if user.None? || RoleName(user.value.role) != "admin" then Respond(Failure(403, ADMIN_ONLY)) else Next
  }

  /**
   * End to end: an unexpired bearer token issued for a stored user passes `protect`,
   * and then passes `adminOnly` exactly when that user is an admin.
   */
  lemma AdminGateFollowsRole(users: Collection, e: string, env: Env, issuedAt: Time, now: Time, cookies: Option<map<string, string>>)
    requires UniqueIds(users) && TokensSound(env)
    requires Unexpired(issuedAt, now)
    requires e in users
    ensures var g := Authenticate(ExtractToken(Some(BEARER_PREFIX + env.sign(users[e].id, issuedAt)), cookies), users, env, now);
      g.Allow? && (AdminOnly(Some(g.user)) == Next <==> users[e].role == AdminRole)
  {
    BearerHeaderWins(env.sign(users[e].id, issuedAt), cookies);
    IssuedTokenAuthenticates(users, e, env, issuedAt, now);
  }
}
