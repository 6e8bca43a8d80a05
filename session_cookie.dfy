/** `addSessionCookie`: the `Set-Cookie` directive NativeSessionMiddleware
    builds for a new or changed session id from the session engine's cookie
    parameters, and its attachment to the response. */
module SessionCookie {
  import opened CookieHeader

  datatype Option<T> = None | Some(value: T)

  /** What `session_get_cookie_params()` returns. */
  datatype CookieParams = CookieParams(
    lifetime: int,
    path: string,
    domain: string,
    secure: bool,
    httponly: bool,
    samesite: string)

  /** A `Set-Cookie` directive. `expires` and `sameSite` are `None` when the
      builder leaves them as the cookie library's constructor set them. */
  datatype SetCookie = SetCookie(
    name: string,
    value: string,
    path: string,
    domain: string,
    secure: bool,
    httpOnly: bool,
    expires: Option<int>,
    sameSite: Option<string>)

  /** A response body; `Count(n)` stands for the text of the number `n`. */
  datatype Body = Text(text: string) | Count(n: int)

  /** A response: its body and its `Set-Cookie` headers in order. */
  datatype Response = Response(body: Body, setCookies: seq<SetCookie>)

  /** The session cookie for `id`, at Unix time `now`: named after the
      session, path, domain and both flags copied from the parameters, an
      expiry `lifetime` seconds from now exactly when the lifetime is
      positive, and the configured SameSite policy exactly when it is truthy. */
  function BuildSessionCookie(name: string, id: string, params: CookieParams, now: int): (c: SetCookie)
    ensures c.name == name && c.value == id
    ensures c.path == params.path && c.domain == params.domain
    ensures c.secure == params.secure && c.httpOnly == params.httponly
    ensures c.expires.Some? <==> params.lifetime > 0
    ensures c.expires.Some? ==> c.expires.value == now + params.lifetime
    ensures c.sameSite.Some? <==> IsTruthy(params.samesite)
    ensures c.sameSite.Some? ==> c.sameSite.value == params.samesite
  {
    var cookie := SetCookie(name, id, params.path, params.domain, params.secure, params.httponly, None, None);
    var cookie := if params.lifetime > 0 then cookie.(expires := Some(now + params.lifetime)) else cookie;
    if IsTruthy(params.samesite) then cookie.(sameSite := Some(params.samesite)) else cookie
  }

  /** `addSessionCookie($response, $id)`: the response with the session
      cookie added after the headers it already had, body untouched. */
  function AddSessionCookie(response: Response, name: string, id: string, params: CookieParams, now: int): (r: Response)
    ensures r.body == response.body
    ensures |r.setCookies| == |response.setCookies| + 1
    ensures r.setCookies[..|response.setCookies|] == response.setCookies
    ensures r.setCookies[|response.setCookies|] == BuildSessionCookie(name, id, params, now)
  {
    response.(setCookies := response.setCookies + [BuildSessionCookie(name, id, params, now)])
  }

  /** The configuration of the cookie-parameter example: every attribute
      comes out as configured, and the expiry is 600 seconds from now. */
  lemma ConfiguredAttributesExample(name: string, id: string, now: int)
    ensures var c := BuildSessionCookie(name, id, CookieParams(600, "/hello", "example.org", true, true, "Strict"), now);
      c == SetCookie(name, id, "/hello", "example.org", true, true, Some(now + 600), Some("Strict"))
  {
  }
}
