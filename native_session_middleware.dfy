/** `NativeSessionMiddleware::process`: runs one request of a persistent
    worker against the worker's session engine. It refuses to start once
    headers have gone out, clears what the previous request left in
    `$_SESSION`, binds the id the request's cookie carries, runs the handler,
    sends the session cookie again when the id changed, and writes and closes
    a still active session on every way out. */
module NativeSessionMiddleware {
  import opened CookieHeader
  import opened SessionCookie
  import opened SessionEngine

  /** The part of an incoming request the middleware reads: its `Cookie`
      header line (`""` when the request has none). */
  datatype Request = Request(cookieHeader: string)

  /** What a downstream handler does with the session before it returns a
      response or throws. The ids are those the engine generates when the
      handler starts or regenerates a session. */
  datatype Handler =
    | LeavesSession(response: Response)
    | StartsSession(generated: GeneratedId, response: Response)
    | CountsVisits(generated: GeneratedId)
    | RegeneratesId(generated: GeneratedId, regenerated: GeneratedId, response: Response)
    | StartsThenFails(generated: GeneratedId, error: string)

  /** How a handler call ends: with a response, or with an exception. */
  datatype HandlerResult = Returned(response: Response) | Threw(error: string)

  datatype Failure = HeadersAlreadySent | HandlerFailed(error: string)

  /** How `process` ends: with a response, or with a failure the caller sees. */
  datatype Outcome = Responded(response: Response) | Failed(failure: Failure)

  /** The session key of the visit-counting handler. */
  const CounterKey := "counter"

  /** The stored visit count of a session, 0 when there is none yet. */
  function Visits(data: SessionData): int
  {
    if CounterKey in data then data[CounterKey] else 0
  }

  /** The handler's effect on the engine and how it ends. `CountsVisits` is
      the handler that starts the session, adds one to its counter and
      answers with the new count. */
  function Handle(s: EngineState, handler: Handler): (HandlerResult, EngineState)
  {
    match handler
    case LeavesSession(response) => (Returned(response), s)
    case StartsSession(generated, response) => (Returned(response), Started(s, generated))
    case CountsVisits(generated) =>
      var started := Started(s, generated);
      var n := Visits(started.data) + 1;
      (Returned(Response(Count(n), [])), Assigned(started, CounterKey, n))
    case RegeneratesId(generated, regenerated, response) =>
      (Returned(response), Regenerated(Started(s, generated), regenerated))
    case StartsThenFails(generated, error) => (Threw(error), Started(s, generated))
  }

  /** The state the handler runs in: `$_SESSION` unset and the id bound to
      the one the request's session cookie carries (or `""`). */
  function Bound(s: EngineState, id: string): (r: EngineState)
    ensures r.data == map[] && r.store == s.store && r.status == s.status
    ensures s.status == Inactive ==> r.id == id
  {
    WithId(DataUnset(s), id)
  }

  /** The `finally` block: write and close the session if it is still active.
      An active session's data is saved under its id and no other saved
      session is added or changed; an inactive engine is left alone. */
  function Finalized(s: EngineState): (r: EngineState)
    ensures r.status == Inactive
    ensures s.status == Active ==> r.id == s.id && r.id in r.store && r.store[r.id] == s.data
    ensures s.status == Active ==> r.store == s.store[s.id := s.data]
    ensures forall k :: k in s.store && k != s.id ==> k in r.store && r.store[k] == s.store[k]
    ensures s.status == Inactive ==> r == s
  {
    if s.status.Active? then WrittenAndClosed(s) else s
  }

  /** What `process` answers and leaves in the engine once headers are known
      not to be sent, for a request whose session cookie carries `oldId`:
      the session is always left closed, and a handler failure is passed on
      as it was thrown. */
  function Served(s: EngineState, name: string, params: CookieParams, oldId: string,
                  handler: Handler, now: int): (r: (Outcome, EngineState))
    ensures r.1.status == Inactive
    ensures handler.StartsThenFails? ==> r.0 == Failed(HandlerFailed(handler.error))
    ensures r.0.Failed? ==> handler.StartsThenFails?
  {
    var (result, after) := Handle(Bound(s, oldId), handler);
    match result
    case Returned(response) =>
      var newId := after.id;
      var response := if newId != oldId then AddSessionCookie(response, name, newId, params, now) else response;
      (Responded(response), Finalized(after))
    case Threw(error) => (Failed(HandlerFailed(error)), Finalized(after))
  }

  /** What `process` answers and leaves in the engine, at Unix time `now`.
      With headers sent it fails at once and touches nothing; otherwise it
      serves the request under the id its session cookie carries. */
  function Processed(s: EngineState, name: string, params: CookieParams, headersSent: bool,
                     request: Request, handler: Handler, now: int): (r: (Outcome, EngineState))
    ensures headersSent ==> r == (Failed(HeadersAlreadySent), s)
    ensures !headersSent ==> r.1.status == Inactive
    ensures r.0 == Failed(HeadersAlreadySent) <==> headersSent
    ensures !headersSent ==> (r.0.Failed? <==> handler.StartsThenFails?)
    ensures !headersSent && handler.StartsThenFails? ==> r.0 == Failed(HandlerFailed(handler.error))
  {
    if headersSent then (Failed(HeadersAlreadySent), s)
    else Served(s, name, params, SessionIdFromHeader(request.cookieHeader, name), handler, now)
  }

  /** Runs the handler against the engine. */
  method RunHandler(engine: Engine, handler: Handler) returns (result: HandlerResult)
    modifies engine
    ensures (result, engine.State()) == Handle(old(engine.State()), handler)
  {
    match handler
    case LeavesSession(response) =>
      result := Returned(response);
    case StartsSession(generated, response) =>
      var _ := engine.Start(generated);
      result := Returned(response);
    case CountsVisits(generated) =>
      var _ := engine.Start(generated);
      var n := Visits(engine.data) + 1;
      engine.Assign(CounterKey, n);
      result := Returned(Response(Count(n), []));
    case RegeneratesId(generated, regenerated, response) =>
      var _ := engine.Start(generated);
      var _ := engine.RegenerateId(regenerated);
      result := Returned(response);
    case StartsThenFails(generated, error) =>
      var _ := engine.Start(generated);
      result := Threw(error);
  }

  /** `process`: one request on the worker that owns `engine`. Whether
      headers were already sent is asked once, on entry. */
  method Process(engine: Engine, headersSent: bool, request: Request, handler: Handler, now: int)
    returns (outcome: Outcome)
    modifies engine
    ensures (outcome, engine.State()) ==
      Processed(old(engine.State()), engine.name, engine.cookieParams, headersSent, request, handler, now)
    ensures headersSent ==> outcome == Failed(HeadersAlreadySent) && engine.State() == old(engine.State())
    ensures !headersSent ==> engine.status == Inactive
  {
    if headersSent {
      return Failed(HeadersAlreadySent);
    }
    engine.UnsetData();
    var jar := CookiesFromRequest(request.cookieHeader);
    var oldId := GetValue(jar, engine.name, "");
    engine.SetId(oldId);

    var result := RunHandler(engine, handler);
    match result {
      case Returned(response) =>
        var newId := engine.id;
        if newId != oldId {
          response := AddSessionCookie(response, engine.name, newId, engine.cookieParams, now);
        }
        outcome := Responded(response);
      case Threw(error) =>
        outcome := Failed(HandlerFailed(error));
    }

    // finally
    if engine.status == Active {
      engine.WriteClose();
    }
  }

  // ---------------------------------------------------------------------
  // What one request does
  // ---------------------------------------------------------------------

  /** The session cookie is attached exactly when the id after the handler
      differs from the one the request's cookie carried; then exactly one is
      added, after the handler's own, naming the session and carrying the new
      id; otherwise the handler's response goes out as it was. */
  lemma CookieSentIffIdChanged(s: EngineState, name: string, params: CookieParams,
                               oldId: string, handler: Handler, now: int)
    requires Handle(Bound(s, oldId), handler).0.Returned?
    ensures var (result, after) := Handle(Bound(s, oldId), handler);
      var response := result.response;
      var (outcome, _) := Served(s, name, params, oldId, handler, now);
      outcome.Responded? && outcome.response.body == response.body &&
      (after.id != oldId <==> |outcome.response.setCookies| == |response.setCookies| + 1) &&
      (after.id != oldId ==>
        outcome.response.setCookies == response.setCookies + [BuildSessionCookie(name, after.id, params, now)]) &&
      (after.id == oldId ==> outcome.response == response)
  {
  }

  /** Whatever `$_SESSION` held when the request came in, on a worker whose
      previous request has finished, never reaches its outcome or the
      engine's state afterwards. */
  lemma StaleDataNeverLeaks(s: EngineState, stale: SessionData, name: string, params: CookieParams,
                            request: Request, handler: Handler, now: int)
    requires s.status == Inactive
    ensures Processed(s.(data := stale), name, params, false, request, handler, now) ==
            Processed(s, name, params, false, request, handler, now)
  {
    var oldId := SessionIdFromHeader(request.cookieHeader, name);
    assert Bound(s.(data := stale), oldId) == Bound(s, oldId);
  }

  /** A handler that leaves the session alone gets its response through
      without a cookie, and the saved sessions stay as they were. */
  lemma UntouchedSessionSendsNoCookie(s: EngineState, name: string, params: CookieParams,
                                      oldId: string, response: Response, now: int)
    requires s.status == Inactive
    ensures var (outcome, after) := Served(s, name, params, oldId, LeavesSession(response), now);
      outcome == Responded(response) && after.store == s.store && after.data == map[] && after.id == oldId
  {
  }

  /** A session started for a request without a session cookie takes the
      generated id, and that id goes out in the session cookie; what the
      session loaded under that id is saved back and nothing else changes. */
  lemma NewSessionSendsCookie(s: EngineState, name: string, params: CookieParams,
                              generated: GeneratedId, response: Response, now: int)
    requires s.status == Inactive
    ensures var loaded := if generated in s.store then s.store[generated] else map[];
      var (outcome, after) := Served(s, name, params, "", StartsSession(generated, response), now);
      outcome == Responded(AddSessionCookie(response, name, generated, params, now)) &&
      after == EngineState(loaded, generated, Inactive, s.store[generated := loaded])
  {
  }

  /** A session resumed from the request's cookie keeps its id, so no cookie
      goes out; what it loaded under that id is saved back and nothing else
      changes. */
  lemma ResumedSessionSendsNoCookie(s: EngineState, name: string, params: CookieParams,
                                    oldId: string, generated: GeneratedId, response: Response, now: int)
    requires s.status == Inactive && oldId != ""
    ensures var loaded := if oldId in s.store then s.store[oldId] else map[];
      var (outcome, after) := Served(s, name, params, oldId, StartsSession(generated, response), now);
      outcome == Responded(response) && after == EngineState(loaded, oldId, Inactive, s.store[oldId := loaded])
  {
  }

  /** A regenerated id differs from the one the request came with, so it
      goes out in the session cookie; the data so far stays saved under the
      old id as well. */
  lemma RegeneratedIdSendsCookie(s: EngineState, name: string, params: CookieParams, oldId: string,
                                 generated: GeneratedId, regenerated: GeneratedId, response: Response, now: int)
    requires s.status == Inactive && regenerated != oldId
    ensures var (outcome, after) :=
        Served(s, name, params, oldId, RegeneratesId(generated, regenerated, response), now);
      var first := Started(Bound(s, oldId), generated);
      outcome == Responded(AddSessionCookie(response, name, regenerated, params, now)) &&
      after.id == regenerated && after.store == s.store[first.id := first.data][regenerated := first.data]
  {
  }

  /** A handler that starts a session and throws: the failure reaches the
      caller as thrown, no cookie is sent, and the session has been written
      and closed. */
  lemma FailingHandlerStillCloses(s: EngineState, name: string, params: CookieParams, oldId: string,
                                  generated: GeneratedId, error: string, now: int)
    requires s.status == Inactive
    ensures var (outcome, after) := Served(s, name, params, oldId, StartsThenFails(generated, error), now);
      var started := Started(Bound(s, oldId), generated);
      outcome == Failed(HandlerFailed(error)) && after.status == Inactive &&
      after.store == s.store[started.id := started.data]
  {
  }

  // ---------------------------------------------------------------------
  // Several requests on one worker
  // ---------------------------------------------------------------------

  /** A request without a session cookie, on a worker whose previous request
      has finished, starts a fresh session under a new id: the counter starts
      at 1 whatever sessions the worker served before, and the cookie with
      the new id goes out. */
  lemma CookielessRequestStartsOver(s: EngineState, name: string, params: CookieParams,
                                    request: Request, generated: GeneratedId, now: int)
    requires s.status == Inactive
    requires SessionIdFromHeader(request.cookieHeader, name) == ""
    requires generated !in s.store
    ensures Processed(s, name, params, false, request, CountsVisits(generated), now) ==
      (Responded(Response(Count(1), [BuildSessionCookie(name, generated, params, now)])),
       EngineState(map[CounterKey := 1], generated, Inactive, s.store[generated := map[CounterKey := 1]]))
  {
    var bound := Bound(s, "");
    assert bound.id == "" && bound.status == Inactive && bound.store == s.store;
    var started := Started(bound, generated);
    assert started.id == generated && started.data == map[];
  }

  /** A request whose session cookie names a session continues it: the
      counter goes on from what was saved under the id, and since the id does
      not change no cookie goes out. */
  lemma ResumedSessionCountsOn(s: EngineState, name: string, params: CookieParams,
                               id: string, generated: GeneratedId, now: int)
    requires s.status == Inactive && id != ""
    ensures var saved := if id in s.store then s.store[id] else map[];
      var counted := saved[CounterKey := Visits(saved) + 1];
      Served(s, name, params, id, CountsVisits(generated), now) ==
      (Responded(Response(Count(Visits(saved) + 1), [])), EngineState(counted, id, Inactive, s.store[id := counted]))
  {
    var saved := if id in s.store then s.store[id] else map[];
    var bound := Bound(s, id);
    assert bound.id == id && bound.status == Inactive && bound.store == s.store;
    var started := Started(bound, generated);
    assert started.id == id && started.data == saved;
  }

  /** Sending back the cookie the middleware set, alone or followed by other
      cookies, continues the session under that id. */
  lemma ReplayedCookieContinues(s: EngineState, name: string, params: CookieParams,
                                id: GeneratedId, tail: string, generated: GeneratedId, now: int)
    requires s.status == Inactive
    requires '=' !in name && ';' !in name
    requires tail == [] ||
      (tail[0] == ';' && forall c :: c in RequestCookies(TrimLeft(tail[1..])) ==> c.name != name)
    ensures var saved := if id in s.store then s.store[id] else map[];
      var counted := saved[CounterKey := Visits(saved) + 1];
      Processed(s, name, params, false, Request(name + "=" + id + tail), CountsVisits(generated), now) ==
      (Responded(Response(Count(Visits(saved) + 1), [])), EngineState(counted, id, Inactive, s.store[id := counted]))
  {
    GeneratedIdsEchoCleanly(id);
    EchoedSessionCookie(name, id, tail);
    ResumedSessionCountsOn(s, name, params, id, generated, now);
  }

  /** A generated id holds no `;` and does not end with whitespace, so it
      comes back unchanged from a `Cookie` header. */
  lemma GeneratedIdsEchoCleanly(id: GeneratedId)
    ensures ';' !in id && !IsSpace(id[|id| - 1])
  {
    assert IsSessionIdChar(id[|id| - 1]);
  }

  /** The session round trip: a first request without a session cookie
      counts 1 and sends the cookie; a request that brings back that cookie
      (`ReplayedCookieContinues` says which headers do) counts 2 with no new
      cookie; a later request without the cookie starts over at 1 under
      another id. */
  lemma SessionContinuity(s: EngineState, name: string, params: CookieParams, newcomer: Request, replay: Request,
                          g1: GeneratedId, g2: GeneratedId, g3: GeneratedId, now1: int, now2: int, now3: int)
    requires s.status == Inactive
    requires SessionIdFromHeader(newcomer.cookieHeader, name) == ""
    requires SessionIdFromHeader(replay.cookieHeader, name) == g1
    requires g1 !in s.store && g3 !in s.store && g3 != g1
    ensures var r1 := Processed(s, name, params, false, newcomer, CountsVisits(g1), now1);
      var r2 := Processed(r1.1, name, params, false, replay, CountsVisits(g2), now2);
      var r3 := Processed(r2.1, name, params, false, newcomer, CountsVisits(g3), now3);
      r1.0 == Responded(Response(Count(1), [BuildSessionCookie(name, g1, params, now1)])) &&
      r2.0 == Responded(Response(Count(2), [])) &&
      r3.0 == Responded(Response(Count(1), [BuildSessionCookie(name, g3, params, now3)]))
  {
    CookielessRequestStartsOver(s, name, params, newcomer, g1, now1);
    var s1 := Processed(s, name, params, false, newcomer, CountsVisits(g1), now1).1;
    ResumedSessionCountsOn(s1, name, params, g1, g2, now2);
    var s2 := Processed(s1, name, params, false, replay, CountsVisits(g2), now2).1;
    CookielessRequestStartsOver(s2, name, params, newcomer, g3, now3);
  }
}
