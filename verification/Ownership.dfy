/** Speaker ownership: what each lock-protected section of source/manager.go does to its state. */
module Ownership {
  datatype Option<+T> = None | Some(value: T)

  datatype Protocol = AirPlay | DLNA | UnknownProtocol(name: string)

  /** `OtherPolicy` stands for every string without a case of its own. */
  datatype Policy = Latest | Lock | Idle | Priority | OtherPolicy(name: string)

  /** What the Cancel function of a request does when it is called. */
  datatype Cancel = NoCancel | CancelMedia(id: string) | CancelAirPlay(id: string)

  datatype Request = Request(id: string, protocol: Protocol, device: string, streamURL: string, cancel: Cancel)

  datatype Session = Session(id: string, protocol: Protocol, device: string, streamURL: string,
                             startedAt: int, lastActivity: int, generation: nat, cancel: Cancel) {
    function Public(): Session {
      this.(cancel := NoCancel, streamURL := "")
    }
  }

  datatype Reason = NoReason | MissingSessionId | SourceLocked(protocol: Protocol, id: string)

  datatype Decision = Decision(granted: bool, reason: Reason, session: Option<Session>,
                               replaced: Option<Session>, generation: nat)

  datatype State = State(policy: Policy, idleTimeout: int, preferredProtocol: Protocol,
                         generation: nat, active: Option<Session>)

  const SECOND := 1_000_000_000

  function NewState(policy: Policy, idleTimeout: int, preferred: Protocol): State {
    State(policy, if idleTimeout <= 0 then 10 * SECOND else idleTimeout,
          if preferred != AirPlay && preferred != DLNA then AirPlay else preferred, 0, None)
  }

  // ----- the lock-protected sections -----

  predicate CanReplace(s: State, protocol: Protocol, now: int)
    requires s.active.Some?
  {
    match s.policy
    case Latest => true
    case Lock => false
    case Idle => now - s.active.value.lastActivity >= s.idleTimeout
    case Priority => protocol == s.preferredProtocol || s.active.value.protocol != s.preferredProtocol
    case OtherPolicy(_) => true
  }

  predicate Owns(s: State, id: string) {
    s.active.Some? && s.active.value.id == id
  }

  function Acquire(s: State, req: Request, now: int): (State, Decision) {
    if req.id == "" then (s, Decision(false, MissingSessionId, None, None, 0))
    else if Owns(s, req.id) then
      var session := s.active.value.(lastActivity := now, streamURL := req.streamURL, cancel := req.cancel);
      (s.(active := Some(session)), Decision(true, NoReason, Some(session.Public()), None, s.generation))
    else if s.active.Some? && !CanReplace(s, req.protocol, now) then
      (s, Decision(false, SourceLocked(s.active.value.protocol, s.active.value.id), None, None, s.generation))
    else
      var session := Session(req.id, req.protocol, req.device, req.streamURL, now, now, s.generation + 1, req.cancel);
      (s.(generation := s.generation + 1, active := Some(session)),
       Decision(true, NoReason, Some(session.Public()), s.active, s.generation + 1))
  }

  function Touch(s: State, id: string, now: int): (State, bool) {
    if Owns(s, id) then (s.(active := Some(s.active.value.(lastActivity := now))), true) else (s, false)
  }

  function Release(s: State, id: string): (State, nat, bool) {
    if Owns(s, id) then (s.(generation := s.generation + 1, active := None), s.generation + 1, true)
    else (s, s.generation, false)
  }

  predicate IsOwner(s: State, id: string, generation: nat) {
    Owns(s, id) && s.generation == generation
  }

  predicate IsIdleGeneration(s: State, generation: nat) {
    s.active.None? && s.generation == generation
  }
}
