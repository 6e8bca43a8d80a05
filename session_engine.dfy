/** PHP's native session engine as NativeSessionMiddleware and its handlers
    use it: the `$_SESSION` array, `session_id()`, `session_status()`, the
    storage behind `session_start()` and `session_write_close()`, which
    outlives requests in a persistent worker. Each operation is a transition
    on `EngineState`; the class `Engine` holds that state in fields and its
    methods are proved against the transitions. */
module SessionEngine {
  import opened SessionCookie

  /** The contents of `$_SESSION`; values are modelled as integers. */
  type SessionData = map<string, int>

  /** A character PHP's id generator emits (`session.sid_bits_per_character`
      at most 6): letters, digits, `,` and `-`. */
  predicate IsSessionIdChar(c: char) {
    ('a' <= c <= 'z') || ('A' <= c <= 'Z') || ('0' <= c <= '9') || c == ',' || c == '-'
  }

  /** An id the engine generates for a new session or a regeneration. */
  type GeneratedId = s: string | s != [] && forall i :: 0 <= i < |s| ==> IsSessionIdChar(s[i])
    witness "a"

  /** `PHP_SESSION_NONE` or `PHP_SESSION_ACTIVE`. */
  datatype Status = Inactive | Active

  /** Everything the engine holds: `$_SESSION`, `session_id()`,
      `session_status()` and the saved sessions by id. */
  datatype EngineState = EngineState(
    data: SessionData,
    id: string,
    status: Status,
    store: map<string, SessionData>)

  /** `unset($_SESSION)` on an engine with no active session: the working
      data is gone, and the next `session_start()` loads it afresh. */
  function DataUnset(s: EngineState): EngineState
  {
    s.(data := map[])
  }

  /** `session_id($id)`: rebinds the id, except while a session is active,
      when PHP refuses the change. */
  function WithId(s: EngineState, id: string): EngineState
  {
    if s.status == Active then s else s.(id := id)
  }

  /** `session_start()`: with no id bound it takes the generated one; it
      loads the data stored under the id (none for an unknown id) and becomes
      active. A second start while active changes nothing. */
  function Started(s: EngineState, generated: GeneratedId): EngineState
  {
    if s.status == Active then s
    else
      var id := if s.id == "" then generated else s.id;
      s.(id := id, data := if id in s.store then s.store[id] else map[], status := Active)
  }

  /** `$_SESSION[$key] = $value`. */
  function Assigned(s: EngineState, key: string, value: int): EngineState
  {
    s.(data := s.data[key := value])
  }

  /** `session_regenerate_id()` (keeping the old session): the data so far is
      saved under the old id and the session goes on under a new one. Only
      an active session can be regenerated. */
  function Regenerated(s: EngineState, generated: GeneratedId): EngineState
  {
    if s.status == Active then s.(store := s.store[s.id := s.data], id := generated) else s
  }

  /** `session_write_close()`: an active session's data is saved under its
      id and the session becomes inactive. */
  function WrittenAndClosed(s: EngineState): EngineState
  {
    if s.status == Active then s.(store := s.store[s.id := s.data], status := Inactive) else s
  }

  /** The process-wide session engine of one worker, with its configuration:
      `session_name()` and `session_get_cookie_params()`. */
  class Engine {
    var data: SessionData
    var id: string
    var status: Status
    var store: map<string, SessionData>
    const name: string
    const cookieParams: CookieParams

    function State(): EngineState
      reads this
    {
      EngineState(data, id, status, store)
    }

    /** A worker's engine before its first request. */
    constructor (name: string, cookieParams: CookieParams)
      ensures this.name == name && this.cookieParams == cookieParams
      ensures State() == EngineState(map[], "", Inactive, map[])
    {
      this.name := name;
      this.cookieParams := cookieParams;
      data := map[];
      id := "";
      status := Inactive;
      store := map[];
    }

    method UnsetData()
      modifies this
      ensures State() == DataUnset(old(State()))
    {
      data := map[];
    }

    method SetId(newId: string)
      modifies this
      ensures State() == WithId(old(State()), newId)
    {
      if status != Active {
        id := newId;
      }
    }

    /** `session_start()`. `wasInactive` tells whether this call started the
        session; it is not PHP's return value, which is also true when a
        session was already active. */
    method Start(generated: GeneratedId) returns (wasInactive: bool)
      modifies this
      ensures wasInactive == (old(status) == Inactive)
      ensures State() == Started(old(State()), generated)
    {
      wasInactive := status == Inactive;
      if wasInactive {
        if id == "" {
          id := generated;
        }
        data := if id in store then store[id] else map[];
        status := Active;
      }
    }

    method Assign(key: string, value: int)
      modifies this
      ensures State() == Assigned(old(State()), key, value)
    {
      data := data[key := value];
    }

    method RegenerateId(generated: GeneratedId) returns (regenerated: bool)
      modifies this
      ensures regenerated == (old(status) == Active)
      ensures State() == Regenerated(old(State()), generated)
    {
      regenerated := status == Active;
      if regenerated {
        store := store[id := data];
        id := generated;
      }
    }

    method WriteClose()
      modifies this
      ensures State() == WrittenAndClosed(old(State()))
    {
      if status == Active {
        store := store[id := data];
        status := Inactive;
      }
    }
  }
}
