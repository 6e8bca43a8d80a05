# NativeSessionMiddleware, modelled in Dafny

`NativeSessionMiddleware` lets PHP's native session engine (`session_start()`,
`$_SESSION`, `session_id()`) run inside a persistent RoadRunner worker that
serves many requests in one process. For every request it:

1. refuses to start if headers have already been sent;
2. clears what the previous request left in `$_SESSION`;
3. reads the session id from the request's `Cookie` header and binds it with
   `session_id()`;
4. runs the downstream handler;
5. sends the session cookie again when the id changed;
6. writes and closes a session that is still active, whether the handler
   returned or threw.

The model has four modules:

- `CookieHeader` (`cookie_header.dfy`) reads the `Cookie` header:
  - the `preg_split('@\s*[;]\s*@')` split;
  - the truthiness filter;
  - the `name=value` parse;
  - the collection keyed by name;
  - the session-id lookup with `''` as default;
  - the `cookiesFromRequest` loop as a method proved against those functions.
- `SessionCookie` (`session_cookie.dfy`) is `addSessionCookie`. It builds the
  `Set-Cookie` directive from `session_get_cookie_params()` and adds it to the
  response.
- `SessionEngine` (`session_engine.dfy`) models the PHP session engine the
  middleware and its handlers drive. Its pieces are:
  - the working data, the bound id and the status;
  - the sessions saved between requests.

  Each engine call is a transition function. The class `Engine` holds that
  state in fields, and its methods are proved against the transitions.
- `NativeSessionMiddleware` (`native_session_middleware.dfy`) is `process`:
  - `Processed` and `Served` are its specification, as outcome and final
    engine state;
  - `Process` is the method, proved equal to `Processed`;
  - the lemmas cover one request and a sequence of requests on one worker.

The downstream handler is one of a fixed set of behaviours (`Handler`):

- leave the session alone;
- start it;
- count visits, as the handler of the repository's tests does;
- start and regenerate the id;
- start and throw.

The id the engine would generate is a parameter of each behaviour.

The code drops every falsy header segment, `"0"` included, because it uses
`array_filter` and `if ($cookieString)`. The model follows the code.

## Model

| member | source | states |
|---|---|---|
| CookieHeader.IndexOf | src/Http/Middleware/NativeSessionMiddleware.php:62 | the result is the position of the first occurrence of the character, or the length when it does not occur |
| CookieHeader.TrimLeft | src/Http/Middleware/NativeSessionMiddleware.php:62 | the result never starts with `\s` whitespace and is no longer than the input |
| CookieHeader.TrimRight | src/Http/Middleware/NativeSessionMiddleware.php:62 | the result never ends with `\s` whitespace and is no longer than the input |
| CookieHeader.TrimLeftCutsSpace | src/Http/Middleware/NativeSessionMiddleware.php:62 | trimming keeps a suffix and removes only whitespace characters |
| CookieHeader.TrimRightCutsSpace | src/Http/Middleware/NativeSessionMiddleware.php:62 | trimming keeps a prefix and removes only whitespace characters |
| CookieHeader.SplitOnSemicolons | src/Http/Middleware/NativeSessionMiddleware.php:62 | `preg_split` always returns at least one piece |
| CookieHeader.SplitPiecesHaveNoDelimiter | src/Http/Middleware/NativeSessionMiddleware.php:62 | no piece of the split contains `;` |
| CookieHeader.SplitFirstPiece | src/Http/Middleware/NativeSessionMiddleware.php:62 | the first piece is a prefix of the header |
| CookieHeader.SplitPiecesAreUnpadded | src/Http/Middleware/NativeSessionMiddleware.php:62 | the whitespace around each `;` is absorbed: no piece after the first starts with whitespace, and no piece before the last ends with it |
| CookieHeader.SplitPieceCount | src/Http/Middleware/NativeSessionMiddleware.php:62 | the split yields exactly one more piece than the header has `;` |
| CookieHeader.SplitWithoutDelimiter | src/Http/Middleware/NativeSessionMiddleware.php:62 | a header without `;` comes back as the single piece it is |
| CookieHeader.SplitAfterPrefix | src/Http/Middleware/NativeSessionMiddleware.php:62 | the split cuts at the first `;`, right-trims what precedes it and goes on after the whitespace that follows it |
| CookieHeader.SplitOfJoin | src/Http/Middleware/NativeSessionMiddleware.php:62 | joining unpadded, `;`-free pieces with `;` and splitting again gives back the same pieces |
| CookieHeader.JoinOfSplit | src/Http/Middleware/NativeSessionMiddleware.php:62 | a header with no whitespace next to its `;` is rebuilt exactly by joining its pieces |
| CookieHeader.FilterTruthy | src/Http/Middleware/NativeSessionMiddleware.php:66 | every kept segment is truthy (neither `""` nor `"0"`) |
| CookieHeader.FilterKeepsTruthy | src/Http/Middleware/NativeSessionMiddleware.php:66 | `array_filter` keeps each truthy segment as often as it occurs and drops every falsy one, `"0"` included |
| CookieHeader.FilterKeepsOrder | src/Http/Middleware/NativeSessionMiddleware.php:66 | the kept segments appear in their original order |
| CookieHeader.ParseCookie | src/Http/Middleware/NativeSessionMiddleware.php:53 | the name holds no `=`; a segment with `=` is exactly name, `=`, value; a segment without one is a name with the empty value |
| CookieHeader.ParseOfPair | src/Http/Middleware/NativeSessionMiddleware.php:53 | `name=value` parses back to the pair when the name holds no `=` |
| CookieHeader.SplitOnAttributeDelimiter | src/Http/Middleware/NativeSessionMiddleware.php:60-67 | every segment returned is truthy and holds no `;`; `FilterKeepsTruthy`, `FilterKeepsOrder` and the split lemmas say which segments these are and in what order |
| CookieHeader.Collect | src/Http/Middleware/NativeSessionMiddleware.php:56 | every cookie's name is a key of the collection; `CollectKeepsLast` gives the converse and the value kept for each name |
| CookieHeader.GetValue | src/Http/Middleware/NativeSessionMiddleware.php:24 | a name in the collection gives its value, and a missing name gives the default |
| CookieHeader.CookiesOfTruthyFirst | src/Http/Middleware/NativeSessionMiddleware.php:51-54 | a truthy first segment becomes the first cookie, followed by the cookies of the rest |
| CookieHeader.CollectKeepsLast | src/Http/Middleware/NativeSessionMiddleware.php:56 | a name is in the collection if and only if some cookie has it; its value is that of the last cookie with the name |
| CookieHeader.CookiesFromRequest | src/Http/Middleware/NativeSessionMiddleware.php:46-57 | the loop over the segments, which parses the truthy ones, yields the collection of the header's cookies in header order |
| CookieHeader.SessionIdFromHeader | src/Http/Middleware/NativeSessionMiddleware.php:24 | the lookup never fails; it gives `""` when no cookie has the session name, otherwise the value of the last cookie with that name |
| CookieHeader.CookiesOfEcho | src/Http/Middleware/NativeSessionMiddleware.php:46-57 | a header that starts with `name=id;` reads as that cookie, followed by the cookies after the `;` |
| CookieHeader.EchoedSessionCookie | tests/Http/Middleware/NativeSessionMiddlewareTest.php:111-120 | a header that starts with the session cookie `name=id`, alone or followed by cookies with other names, binds exactly `id` |
| SessionCookie.BuildSessionCookie | src/Http/Middleware/NativeSessionMiddleware.php:69-86 | name and id go in; path, domain, secure and httponly are always copied; an expiry `lifetime` seconds from now is set if and only if the lifetime is positive; SameSite is set to the configured policy if and only if the policy is truthy |
| SessionCookie.AddSessionCookie | src/Http/Middleware/NativeSessionMiddleware.php:87 | the body is kept; the earlier `Set-Cookie` headers are kept in order; exactly one session cookie is added after them |
| SessionCookie.ConfiguredAttributesExample | tests/Http/Middleware/NativeSessionMiddlewareTest.php:53-76 | with lifetime 600, path `/hello`, domain `example.org`, secure, httponly and `Strict`, the cookie carries all of them and expires 600 seconds from now |
| SessionEngine.Engine.constructor | src/Http/Middleware/NativeSessionMiddleware.php:71-73 | a worker's engine starts with no data, no id, no saved sessions and an inactive status, under its configured session name and cookie parameters |
| SessionEngine.Engine.UnsetData | src/Http/Middleware/NativeSessionMiddleware.php:22 | `unset($_SESSION)` empties the working data and nothing else (faithful when no session is active; see Left out) |
| SessionEngine.Engine.SetId | src/Http/Middleware/NativeSessionMiddleware.php:26 | `session_id($id)` binds the id unless a session is active |
| SessionEngine.Engine.Start | tests/Http/Middleware/NativeSessionMiddlewareTest.php:126 | `session_start()` takes the generated id when none is bound, loads what is saved under the id and becomes active; it reports whether the session was inactive before |
| SessionEngine.Engine.Assign | tests/Http/Middleware/NativeSessionMiddlewareTest.php:128-130 | a write to `$_SESSION` changes that key only |
| SessionEngine.Engine.RegenerateId | src/Http/Middleware/NativeSessionMiddleware.php:33-35 | `session_regenerate_id(false)`, which the middleware never calls itself: a handler behaviour that changes the id, as the comment at line 34 allows for; an active session's data is saved under the old id and the session goes on under the new id |
| SessionEngine.Engine.WriteClose | src/Http/Middleware/NativeSessionMiddleware.php:40-42 | an active session is saved under its id and becomes inactive |
| NativeSessionMiddleware.RunHandler | tests/Http/Middleware/NativeSessionMiddlewareTest.php:122-134 | running the handler against the engine gives the behaviour's result and its effect on the engine |
| NativeSessionMiddleware.Bound | src/Http/Middleware/NativeSessionMiddleware.php:22-26 | the per-request reset and bind: the working data is empty, the saved sessions and the status are unchanged, and with no session active the id is the one the request's cookie carries |
| NativeSessionMiddleware.Finalized | src/Http/Middleware/NativeSessionMiddleware.php:39-43 | after the `finally` block no session is active; an active session's data has been saved under its id, and that is the only change to the saved sessions; an inactive engine is left as it was |
| NativeSessionMiddleware.Served | src/Http/Middleware/NativeSessionMiddleware.php:22-43 | once headers are known unsent, the session is always left closed; a handler failure reaches the caller as it was thrown, and nothing else fails |
| NativeSessionMiddleware.Processed | src/Http/Middleware/NativeSessionMiddleware.php:16-44 | with headers sent it fails with `HeadersAlreadySent` and touches nothing; it fails with `HeadersAlreadySent` only then; otherwise it leaves the session closed, and it fails exactly when the handler throws, with `HandlerFailed` carrying the handler's error |
| NativeSessionMiddleware.Process | src/Http/Middleware/NativeSessionMiddleware.php:16-44 | the method's outcome and new engine state are those of `Processed`; with headers sent, the engine state is unchanged |
| NativeSessionMiddleware.CookieSentIffIdChanged | src/Http/Middleware/NativeSessionMiddleware.php:31-36 | the session cookie with the new id is added if and only if the id after the handler differs from the one the request bound; otherwise the handler's response goes out unchanged |
| NativeSessionMiddleware.StaleDataNeverLeaks | src/Http/Middleware/NativeSessionMiddleware.php:22 | on a worker with no session active at entry, what `$_SESSION` held before the request has no influence on its outcome or on the state it leaves |
| NativeSessionMiddleware.UntouchedSessionSendsNoCookie | src/Http/Middleware/NativeSessionMiddleware.php:26-38 | a handler that does not touch the session gets its response out without a cookie, and the saved sessions stay unchanged |
| NativeSessionMiddleware.NewSessionSendsCookie | src/Http/Middleware/NativeSessionMiddleware.php:31-43 | a session started for a request without a session cookie takes the generated id and its cookie is sent; the data it loaded is saved back under that id, and the rest of the store is unchanged |
| NativeSessionMiddleware.ResumedSessionSendsNoCookie | src/Http/Middleware/NativeSessionMiddleware.php:24-43 | a session resumed under the request's id keeps the id and no cookie is sent; the data it loaded is saved back under that id, and the rest of the store is unchanged |
| NativeSessionMiddleware.RegeneratedIdSendsCookie | src/Http/Middleware/NativeSessionMiddleware.php:33-35 | a regenerated id is sent in the cookie; the data is saved under both the old and the new id |
| NativeSessionMiddleware.FailingHandlerStillCloses | tests/Http/Middleware/NativeSessionMiddlewareTest.php:82-98 | a handler that starts a session and throws: the same failure reaches the caller, the session is closed, and its data is saved |
| NativeSessionMiddleware.CookielessRequestStartsOver | tests/Http/Middleware/NativeSessionMiddlewareTest.php:44-46 | a request without a session cookie gets count 1 under a new id and the cookie with it, whatever sessions the worker served before |
| NativeSessionMiddleware.ResumedSessionCountsOn | tests/Http/Middleware/NativeSessionMiddlewareTest.php:36-41 | a request bound to an id continues from the count saved under it, and no cookie is sent |
| NativeSessionMiddleware.ReplayedCookieContinues | tests/Http/Middleware/NativeSessionMiddlewareTest.php:36-41 | sending back the cookie `name=id` that was set, alone or followed by other cookies, continues the session under that id with no new cookie |
| NativeSessionMiddleware.GeneratedIdsEchoCleanly | src/Http/Middleware/NativeSessionMiddleware.php:24 | a generated id has no `;` and no trailing whitespace, so it survives the header split |
| NativeSessionMiddleware.SessionContinuity | tests/Http/Middleware/NativeSessionMiddlewareTest.php:30-47 | three requests in a row: without a cookie the count is 1 and the cookie is set; with that cookie back the count is 2 and no cookie is set; without a cookie again the count is 1 under a new id with its cookie |

## Left out

- `headers_sent()` and `time()` are inputs. `headersSent` is asked once on entry, and `now` is the Unix time at which the cookie is built.
- PHP's id generator is an input: each handler behaviour carries the ids the engine would generate. Generated ids are non-empty words over `[a-zA-Z0-9,-]`, the characters PHP emits.
- Only the engine behaviour the middleware and the tests rely on is modelled:
  - strict mode, garbage collection, locking and save handlers are out;
  - `session_id($id)` while active is a no-op, with no warning;
  - the engine accepts any non-empty id;
  - an unknown id starts with empty data.
- SessionEngine.Engine.UnsetData: models `unset($_SESSION)` as emptying the engine's own working data. PHP removes only the global name, and the engine keeps its own reference to the array. So if a session is already active when a request comes in, PHP saves the stale array when it closes the session, and the handler's later writes go to an untracked `$_SESSION` and are lost. The model does not capture that case. `NativeSessionMiddleware.StaleDataNeverLeaks` and the other single-request lemmas therefore assume no session is active at entry. Every request the middleware finishes leaves it that way.
- Session values are integers. The counter key is the only key the modelled handlers write.
- The downstream handler is a fixed set of behaviours rather than arbitrary code. The test's identity check on the rethrown exception (tests/Http/Middleware/NativeSessionMiddlewareTest.php:92) becomes equality of the error value.
- `Cookie::fromCookieString` and `CookieCollection` belong to the cookie library, which is not part of this model. A segment is cut at its first `=`, with no name validation and no URL decoding. Among cookies with the same name, the last one read wins. It is assumed that the library never throws, either while reading a request's cookies or while building the session cookie (`new Cookie` and `withSameSite` in `addSessionCookie`). If it rejected a malformed segment, `process` would fail at line 24, before its `try`. If it rejected a configured name or SameSite value, `process` would fail after the handler ran. The claims that the lookup never fails (`CookieHeader.SessionIdFromHeader`) and that nothing but the handler fails (`NativeSessionMiddleware.Served`, `NativeSessionMiddleware.Processed`) hold of the model under that assumption.
- `SessionCookie.BuildSessionCookie`: `None` for expiry or SameSite stands for the library's default. The library's default SameSite value (`Lax` in the library, which is not part of this model) and the `DateTime` formatting of the expiry are not modelled.
- `Set-Cookie` serialisation (`addToResponse`) and `getHeaderLine` are not modelled. A response carries its `Set-Cookie` directives as a list, and a request carries its `Cookie` header as one string.
- The PSR-7 request and response objects are not modelled beyond the parts used here. A response body is text or a visit count.
- The generator protocol (`yield`, then `finally` when the caller resumes the iterator) is one sequential call. The model does not capture what happens if the caller never resumes it.
- `NativeSessionMiddleware.SessionContinuity` takes the second request's bound id as a precondition. That the cookie the first response set binds that id when sent back is proved separately, by `ReplayedCookieContinues` and `CookieHeader.EchoedSessionCookie`.
