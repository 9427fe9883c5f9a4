/**
 * routes/auth.js: token issue and cookie, and the register, login, logout
 * and me handlers. Register changes the user collection and is a method of
 * `UserStore`; the other handlers only read it and are functions.
 */
module AuthRoutes {
  import opened Wrappers
  import opened Text
  import opened Crypto
  import opened Users
  import opened Http
  import AuthMiddleware

  const MIN_PASSWORD_LENGTH: nat := 6
  /** Seven days in milliseconds, the cookie's `maxAge`. */
  const TOKEN_MAX_AGE: nat := 7 * 24 * 60 * 60 * 1000

  const FIELDS_REQUIRED := "Name, email, and password are required"
  const PASSWORD_TOO_SHORT := "Password must be at least 6 characters"
  const EMAIL_TAKEN := "User with this email already exists"
  const REGISTERED := "User registered successfully"
  const CREDENTIALS_REQUIRED := "Email and password are required"
  const INVALID_CREDENTIALS := "Invalid credentials"
  const LOGGED_IN := "Logged in successfully"
  const LOGGED_OUT := "Logged out successfully"

  /**
   * `generateToken(userId)` at time `now`: a signed token that decodes to the
   * same id for seven days and is refused after that.
   */
  function GenerateToken(env: Env, id: UserId, now: Time): (token: string)
    ensures TokensSound(env) ==> token != "" && ' ' !in token
    ensures TokensSound(env) ==> forall later: Time ::
      env.verify(token, later) == (if later < now + TOKEN_LIFETIME then Some(id) else None)
  {
    env.sign(id, now)
  }

  /** `process.env.NODE_ENV === "production"`. */
  predicate IsProduction(env: Env)
    ensures IsProduction(env) <==> env.nodeEnv.Some? && env.nodeEnv.value == "production"
  {
    env.nodeEnv == Some("production")
  }

  /**
   * `setTokenCookie(res, token)`: the `token` cookie, always httpOnly,
   * secure and strict only in production, lax otherwise, kept for 7 days.
   */
  function SetTokenCookie(env: Env, token: string): (c: CookieAction)
    ensures c.SetCookie? && c.name == AuthMiddleware.TOKEN_COOKIE && c.value == token
    ensures c.options.httpOnly
    ensures c.options.secure <==> IsProduction(env)
    ensures c.options.sameSite == Strict <==> IsProduction(env)
    ensures c.options.sameSite == Lax <==> !IsProduction(env)
    ensures c.options.maxAge == 604800000
  {
    var isProd := IsProduction(env);
    SetCookie(AuthMiddleware.TOKEN_COOKIE, token, CookieOptions(true, isProd, if isProd then Strict else Lax, TOKEN_MAX_AGE))
  }

  /** The fields of a register request body; any of them may be missing. */
  datatype RegisterBody = RegisterBody(name: Option<string>, email: Option<string>, password: Option<string>, role: Option<string>)

  /** The fields of a login request body. */
  datatype LoginBody = LoginBody(email: Option<string>, password: Option<string>)

  /** `role === "admin" ? "admin" : "user"`. */
  function RoleFor(requested: Option<string>): (r: Role)
    ensures r == AdminRole <==> requested == Some("admin")
    ensures RoleName(r) == (if requested == Some("admin") then "admin" else "user")
  {
    if requested == Some("admin") then AdminRole else UserRole
  }

  /**
   * The early returns of `/register`, in the code's order: missing fields,
   * a short password, an email already taken (compared in lower case). The
   * request is accepted exactly when none applies.
   */
  function RegisterError(users: Collection, body: RegisterBody): (err: Option<Response>)
    ensures err.None? <==>
      && Truthy(body.name) && Truthy(body.email) && Truthy(body.password)
      && |body.password.value| >= MIN_PASSWORD_LENGTH
      && Lower(body.email.value) !in users
    ensures err.Some? ==> err.value.status == 400 && !err.value.body.success && err.value.cookie == NoCookie
    ensures !(Truthy(body.name) && Truthy(body.email) && Truthy(body.password)) ==> err == Some(Failure(400, FIELDS_REQUIRED))
    ensures Truthy(body.name) && Truthy(body.email) && Truthy(body.password) && |body.password.value| < MIN_PASSWORD_LENGTH ==>
      err == Some(Failure(400, PASSWORD_TOO_SHORT))
    ensures (Truthy(body.name) && Truthy(body.email) && Truthy(body.password) && |body.password.value| >= MIN_PASSWORD_LENGTH
      && Lower(body.email.value) in users) ==> err == Some(Failure(400, EMAIL_TAKEN))
  {
    if !Truthy(body.name) || !Truthy(body.email) || !Truthy(body.password) then Some(Failure(400, FIELDS_REQUIRED))
    else if |body.password.value| < MIN_PASSWORD_LENGTH then Some(Failure(400, PASSWORD_TOO_SHORT))
    else if Lower(body.email.value) in users then Some(Failure(400, EMAIL_TAKEN))
    else None
  }

  /**
   * An email already stored, given again in any letter case, rejects the
   * registration with 400 whatever the name, password and role.
   */
  lemma TakenEmailAlwaysRejected(users: Collection, stored: string, body: RegisterBody)
    requires WellKeyed(users)
    requires stored in users
    requires body.email.Some? && SameIgnoringCase(body.email.value, stored)
    ensures RegisterError(users, body).Some? && RegisterError(users, body).value.status == 400
  {
    LowerEqualIffSameIgnoringCase(body.email.value, stored);
  }

  /** A well-formed registration stores lower-case email, the hash and the role; the id is new. */
  function NewUser(id: UserId, body: RegisterBody, salt: Salt, env: Env): (u: User)
    requires Truthy(body.name) && Truthy(body.email) && Truthy(body.password)
    ensures u.id == id && u.name == body.name.value && u.email == Lower(body.email.value)
    ensures u.password == Hash(env, body.password.value, salt)
    ensures u.role == AdminRole <==> body.role == Some("admin")
  {
    User(id, body.name.value, Lower(body.email.value), Hash(env, body.password.value, salt), RoleFor(body.role))
  }

  /** The success answer of register (201) and login (200): token, cookie and the public fields. */
  function Authenticated(status: nat, message: string, u: User, env: Env, now: Time): (r: Response)
    ensures r.status == status && r.body.success && r.body.message == Some(message)
    ensures r.body.token == Some(GenerateToken(env, u.id, now))
    ensures r.body.user == Some(WithoutPassword(u))
    ensures r.cookie == SetTokenCookie(env, GenerateToken(env, u.id, now))
  {
    var token := GenerateToken(env, u.id, now);
    Response(status, Body(true, Some(message), Some(token), Some(WithoutPassword(u))), SetTokenCookie(env, token))
  }

  /** The user collection, keyed by lower-case email, and the next fresh document id. */
  class UserStore {
    var users: Collection
    var nextId: UserId

    ghost predicate Valid()
      reads this
    {
      && WellKeyed(users)
      && UniqueIds(users)
      && forall e :: e in users ==> users[e].id < nextId
    }

    constructor ()
      ensures Valid() && users == map[]
    {
      users := map[];
      nextId := 0;
    }

    /**
     * `POST /api/auth/register`. `salt` stands for `bcrypt.genSalt(10)` and
     * `now` for the clock `jwt.sign` reads.
     * A rejected request leaves the store as it was; an accepted one adds
     * exactly one record, under the lower-case email, and touches no other.
     */
    method Register(body: RegisterBody, salt: Salt, now: Time, env: Env) returns (resp: Response)
      requires Valid()
      modifies this
      ensures Valid()
      ensures resp.status == 400 || resp.status == 201
      ensures RegisterError(old(users), body).Some? ==>
        resp == RegisterError(old(users), body).value && users == old(users) && nextId == old(nextId)
      ensures RegisterError(old(users), body).None? ==>
        var key := Lower(body.email.value);
        && key !in old(users)
        && users == old(users)[key := NewUser(old(nextId), body, salt, env)]
        && users.Keys == old(users).Keys + {key}
        && (forall e :: e in old(users) ==> users[e] == old(users)[e])
        && nextId == old(nextId) + 1
        && resp == Authenticated(201, REGISTERED, users[key], env, now)
    {
      if !Truthy(body.name) || !Truthy(body.email) || !Truthy(body.password) {
        return Failure(400, FIELDS_REQUIRED);
      }
      var password := body.password.value;
      if |password| < MIN_PASSWORD_LENGTH {
        return Failure(400, PASSWORD_TOO_SHORT);
      }
      var key := Lower(body.email.value);
      if key in users {
        return Failure(400, EMAIL_TAKEN);
      }
      var hashed := Hash(env, password, salt);
      var newUser := User(nextId, body.name.value, key, hashed, RoleFor(body.role));
      LowerIdempotent(body.email.value);
      users := users[key := newUser];
      nextId := nextId + 1;
      var token := GenerateToken(env, newUser.id, now);
      resp := Response(201, Body(true, Some(REGISTERED), Some(token), Some(WithoutPassword(newUser))), SetTokenCookie(env, token));
    }
  }

  /** The credentials authenticate: the lowered email is stored and the password matches its hash. */
  predicate CredentialsMatch(users: Collection, email: string, password: string, env: Env)
    ensures CredentialsMatch(users, email, password, env) <==>
      FindByEmail(users, Lower(email)).Some? && Matches(env, password, FindByEmail(users, Lower(email)).value.password)
  {
    Lower(email) in users && Matches(env, password, users[Lower(email)].password)
  }

  /**
   * `POST /api/auth/login`. Missing fields give 400; an unknown email and a
   * wrong password give the very same 401; matching credentials give 200
   * with a token for the stored user, issued at `now`.
   */
  function Login(users: Collection, body: LoginBody, env: Env, now: Time): (r: Response)
    ensures r.status == 400 || r.status == 401 || r.status == 200
    ensures r.status == 400 <==> !Truthy(body.email) || !Truthy(body.password)
    ensures r.status == 400 ==> r == Failure(400, CREDENTIALS_REQUIRED)
    ensures r.status == 401 ==> r == Failure(401, INVALID_CREDENTIALS)
    ensures r.status == 200 <==> Truthy(body.email) && Truthy(body.password) && CredentialsMatch(users, body.email.value, body.password.value, env)
    ensures r.status == 200 ==> r == Authenticated(200, LOGGED_IN, users[Lower(body.email.value)], env, now)
  {
    if !Truthy(body.email) || !Truthy(body.password) then Failure(400, CREDENTIALS_REQUIRED)
    else
      match FindByEmail(users, Lower(body.email.value))
      case None => Failure(401, INVALID_CREDENTIALS)
      case Some(u) =>
        if !Matches(env, body.password.value, u.password) then Failure(401, INVALID_CREDENTIALS)
        else Authenticated(200, LOGGED_IN, u, env, now)
  }

  /** Unknown email and wrong password cannot be told apart from the response. */
  lemma LoginDoesNotRevealWhichFailed(users: Collection, unknown: LoginBody, wrong: LoginBody, env: Env, now: Time)
    requires Truthy(unknown.email) && Truthy(unknown.password) && Lower(unknown.email.value) !in users
    requires Truthy(wrong.email) && Truthy(wrong.password) && Lower(wrong.email.value) in users
    requires !Matches(env, wrong.password.value, users[Lower(wrong.email.value)].password)
    ensures Login(users, unknown, env, now) == Login(users, wrong, env, now) == Failure(401, INVALID_CREDENTIALS)
  {
  }

  /**
   * After a registration is accepted, logging in with any case variant of
   * its email and the same password succeeds for the new record, and the
   * token decodes to its id.
   */
  lemma LoginAfterRegister(users: Collection, id: UserId, body: RegisterBody, salt: Salt, env: Env, email: string, now: Time)
    requires RegisterError(users, body).None?
    requires SameIgnoringCase(email, body.email.value)
    ensures var after := users[Lower(body.email.value) := NewUser(id, body, salt, env)];
      var r := Login(after, LoginBody(Some(email), body.password), env, now);
      && r == Authenticated(200, LOGGED_IN, NewUser(id, body, salt, env), env, now)
      && (TokensSound(env) ==> env.verify(r.body.token.value, now) == Some(id))
  {
    LowerEqualIffSameIgnoringCase(email, body.email.value);
    assert |email| == |body.email.value| > 0;
  }

  /** With a collision-free hash, a different password for a registered email is refused. */
  lemma WrongPasswordAfterRegister(users: Collection, id: UserId, body: RegisterBody, salt: Salt, env: Env, password: string, now: Time)
    requires CollisionFree(env)
    requires RegisterError(users, body).None?
    requires password != "" && password != body.password.value
    ensures var after := users[Lower(body.email.value) := NewUser(id, body, salt, env)];
      Login(after, LoginBody(body.email, Some(password)), env, now) == Failure(401, INVALID_CREDENTIALS)
  {
  }

  /** `POST /api/auth/logout`: takes no input, clears the `token` cookie, always 200. */
  function Logout(): (r: Response)
    ensures r.status == 200 && r.body.success && r.body.message == Some(LOGGED_OUT)
    ensures r.body.token.None? && r.body.user.None?
    ensures r.cookie == ClearCookie(AuthMiddleware.TOKEN_COOKIE)
  {
    Response(200, Body(true, Some(LOGGED_OUT), None, None), ClearCookie(AuthMiddleware.TOKEN_COOKIE))
  }

  /** Logging out twice leaves the client's cookies as logging out once, without a token. */
  lemma LogoutIdempotent(jar: map<string, string>)
    ensures var once := ApplyCookie(jar, Logout().cookie);
      && AuthMiddleware.TOKEN_COOKIE !in once
      && ApplyCookie(once, Logout().cookie) == once
  {
  }

  /**
   * After logout, a request that relies on cookies alone reaches `protect`
   * without a token and is refused with 401 "token missing".
   */
  lemma LogoutThenProtectRejects(jar: map<string, string>, authorization: Option<string>, users: Collection, env: Env, now: Time)
    requires UniqueIds(users)
    requires !(Truthy(authorization) && StartsWith(authorization.value, AuthMiddleware.BEARER_PREFIX))
    ensures var cookies := ApplyCookie(jar, Logout().cookie);
      AuthMiddleware.Authenticate(AuthMiddleware.ExtractToken(authorization, Some(cookies)), users, env, now)
        == AuthMiddleware.Deny(Failure(401, AuthMiddleware.TOKEN_MISSING))
  {
  }

  /** `GET /api/auth/me` once `protect` has attached the user: 200 with that user. */
  function Me(user: PublicUser): (r: Response)
    ensures r.status == 200 && r.body.success && r.body.user == Some(user) && r.body.token.None?
    ensures r.cookie == NoCookie
  {
    Response(200, Body(true, None, None, Some(user)), NoCookie)
  }

  /** The `/me` route behind `protect` at time `now`: 200 with the attached user, or the guard's 401. */
  function GetMe(authorization: Option<string>, cookies: Option<map<string, string>>, users: Collection, env: Env, now: Time): (r: Response)
    requires UniqueIds(users)
    ensures var g := AuthMiddleware.Authenticate(AuthMiddleware.ExtractToken(authorization, cookies), users, env, now);
      && (r.status == 200 <==> g.Allow?)
      && (r.status != 200 ==> r.status == 401)
      && (g.Deny? ==> r == g.response)
      && (g.Allow? ==> r.body.user == Some(g.user))
  {
    match AuthMiddleware.Authenticate(AuthMiddleware.ExtractToken(authorization, cookies), users, env, now)
    case Deny(resp) => resp
    case Allow(user) => Me(user)
  }

  /**
   * Register followed by a later login on a live store, each at its own
   * time: the two answers are 201 and 200 for the same public user. At the
   * login time the login token decodes to the id of the new record, and so
   * does the registration token while it is unexpired.
   */
  method RegisterThenLogin(store: UserStore, body: RegisterBody, salt: Salt, env: Env, email: string, registeredAt: Time, loggedInAt: Time)
    returns (registered: Response, loggedIn: Response)
    requires store.Valid()
    requires RegisterError(store.users, body).None?
    requires SameIgnoringCase(email, body.email.value)
    requires registeredAt <= loggedInAt
    modifies store
    ensures store.Valid()
    ensures store.users == old(store.users)[Lower(body.email.value) := NewUser(old(store.nextId), body, salt, env)]
    ensures store.nextId == old(store.nextId) + 1
    ensures registered.status == 201 && loggedIn.status == 200
    ensures registered.body.token == Some(env.sign(old(store.nextId), registeredAt))
    ensures loggedIn.body.token == Some(env.sign(old(store.nextId), loggedInAt))
    ensures TokensSound(env) ==> env.verify(loggedIn.body.token.value, loggedInAt) == Some(old(store.nextId))
    ensures TokensSound(env) && Unexpired(registeredAt, loggedInAt) ==>
      env.verify(registered.body.token.value, loggedInAt) == Some(old(store.nextId))
    ensures loggedIn.body.user == registered.body.user
  {
    ghost var before := store.users;
    ghost var id := store.nextId;
    registered := store.Register(body, salt, registeredAt, env);
    LoginAfterRegister(before, id, body, salt, env, email, loggedInAt);
    loggedIn := Login(store.users, LoginBody(Some(email), body.password), env, loggedInAt);
  }
}
