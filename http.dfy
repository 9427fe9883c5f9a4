/**
 * The slice of Express the authentication code touches: JavaScript
 * truthiness of request fields, JSON responses with a status, the cookie
 * a response sets or clears, and the request object that `protect` updates.
 */
module Http {
  import opened Wrappers
  import opened Users

  /** `if (x)` for a request field that may be missing: false for undefined, null and "". */
  predicate Truthy(v: Option<string>)
    ensures Truthy(v) <==> v.Some? && |v.value| > 0
  {
    v.Some? && v.value != ""
  }

  datatype SameSite = Strict | Lax

  datatype CookieOptions = CookieOptions(httpOnly: bool, secure: bool, sameSite: SameSite, maxAge: nat)

  /** What a response does to the client's cookies: `res.cookie`, `res.clearCookie`, or nothing. */
  datatype CookieAction =
    | NoCookie
    | SetCookie(name: string, value: string, options: CookieOptions)
    | ClearCookie(name: string)

  /** The JSON body; every response carries `success`, the other fields are optional. */
  datatype Body = Body(success: bool, message: Option<string>, token: Option<string>, user: Option<PublicUser>)

  datatype Response = Response(status: nat, body: Body, cookie: CookieAction)

  /** `res.status(status).json({ success: false, message })`. */
  function Failure(status: nat, message: string): (r: Response)
    ensures r.status == status && !r.body.success && r.body.message == Some(message)
    ensures r.body.token.None? && r.body.user.None? && r.cookie == NoCookie
  {
    Response(status, Body(false, Some(message), None, None), NoCookie)
  }

  /** What a middleware does: call `next()`, or answer the request itself. */
  datatype Outcome = Next | Respond(response: Response)

  /** The client's cookies (name to value) after it receives a response's cookie header. */
  function ApplyCookie(jar: map<string, string>, action: CookieAction): (after: map<string, string>)
    ensures action.SetCookie? ==> after == jar[action.name := action.value]
    ensures action.ClearCookie? ==> action.name !in after && forall n :: n in jar && n != action.name ==> n in after && after[n] == jar[n]
    ensures action.ClearCookie? ==> after.Keys == jar.Keys - {action.name}
    ensures action.NoCookie? ==> after == jar
  {
    match action
    case NoCookie => jar
    case SetCookie(name, value, _) => jar[name := value]
    case ClearCookie(name) => jar - {name}
  }

  /**
   * An incoming request as the middleware sees it: the `Authorization`
   * header, the parsed cookies (absent when none were sent), and the
   * `user` field that `protect` sets.
   */
  class Request {
    const authorization: Option<string>
    const cookies: Option<map<string, string>>
    var user: Option<PublicUser>

    constructor (authorization: Option<string>, cookies: Option<map<string, string>>)
      ensures this.authorization == authorization && this.cookies == cookies && user.None?
    {
      this.authorization := authorization;
      this.cookies := cookies;
      user := None;
    }
  }
}
