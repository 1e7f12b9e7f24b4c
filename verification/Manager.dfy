/** The manager object, proved against the functions of Ownership. */
module Manager {
  import opened Ownership

  /** The manager itself; each method is one section under its mutex. */
  class SessionManager {
    const policy: Policy
    const idleTimeout: int
    const preferredProtocol: Protocol
    var generation: nat
    var active: Option<Session>

    function View(): State
      reads this
    {
      State(policy, idleTimeout, preferredProtocol, generation, active)
    }

    constructor (policy: Policy, idleTimeout: int, preferred: Protocol)
      ensures View() == NewState(policy, idleTimeout, preferred)
    {
      var timeout := idleTimeout;
      if timeout <= 0 {
        timeout := 10 * SECOND;
      }
      var protocol := preferred;
      if preferred != AirPlay && preferred != DLNA {
        protocol := AirPlay;
      }
      this.policy, this.idleTimeout, this.preferredProtocol := policy, timeout, protocol;
      generation, active := 0, None;
    }

    method CanReplaceLocked(protocol: Protocol, now: int) returns (ok: bool)
      requires active.Some?
      ensures ok == CanReplace(View(), protocol, now)
    {
      match policy {
        case Latest => ok := true;
        case Lock => ok := false;
        case Idle => ok := now - active.value.lastActivity >= idleTimeout;
        case Priority =>
          var currentPreferred := active.value.protocol == preferredProtocol;
          var incomingPreferred := protocol == preferredProtocol;
          ok := incomingPreferred || !currentPreferred;
        case OtherPolicy(_) => ok := true;
      }
    }

    method Acquire(req: Request, now: int) returns (d: Decision)
      modifies this
      ensures (View(), d) == Ownership.Acquire(old(View()), req, now)
    {
      if req.id == "" {
        return Decision(false, MissingSessionId, None, None, 0);
      }
      if active.Some? && active.value.id == req.id {
        active := Some(active.value.(lastActivity := now, streamURL := req.streamURL, cancel := req.cancel));
        return Decision(true, NoReason, Some(active.value.Public()), None, generation);
      }
      if active.Some? {
        var canReplace := CanReplaceLocked(req.protocol, now);
        if !canReplace {
          return Decision(false, SourceLocked(active.value.protocol, active.value.id), None, None, generation);
        }
      }
      var replaced := active;
      generation := generation + 1;
      active := Some(Session(req.id, req.protocol, req.device, req.streamURL, now, now, generation, req.cancel));
      return Decision(true, NoReason, Some(active.value.Public()), replaced, generation);
    }

    method Touch(id: string, now: int) returns (ok: bool)
      modifies this
      ensures (View(), ok) == Ownership.Touch(old(View()), id, now)
    {
      if active.None? || active.value.id != id {
        return false;
      }
      active := Some(active.value.(lastActivity := now));
      return true;
    }

    method Release(id: string) returns (g: nat, released: bool)
      modifies this
      ensures (View(), g, released) == Ownership.Release(old(View()), id)
    {
      if active.None? || active.value.id != id {
        return generation, false;
      }
      generation := generation + 1;
      active := None;
      return generation, true;
    }

    method IsOwner(id: string, g: nat) returns (ok: bool)
      ensures ok == Ownership.IsOwner(View(), id, g)
    {
      ok := active.Some? && active.value.id == id && generation == g;
    }

    method IsIdleGeneration(g: nat) returns (ok: bool)
      ensures ok == Ownership.IsIdleGeneration(View(), g)
    {
      ok := active.None? && generation == g;
    }
  }
}
