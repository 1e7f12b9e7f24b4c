/** Properties of every run of the manager, whoever calls it in whatever order. */
module OwnershipRuns {
  import opened Ownership

  datatype Op = AcquireOp(req: Request, now: int) | TouchOp(id: string, now: int) | ReleaseOp(id: string)

  function Apply(s: State, op: Op): State {
    match op
    case AcquireOp(req, now) => Acquire(s, req, now).0
    case TouchOp(id, now) => Touch(s, id, now).0
    case ReleaseOp(id) => Release(s, id).0
  }

  /** A run from a fresh manager: ops[i] takes states[i] to states[i + 1]. */
  ghost predicate IsRun(states: seq<State>, ops: seq<Op>) {
    && |states| == |ops| + 1
    && states[0].generation == 0 && states[0].active.None?
    && forall i :: 0 <= i < |ops| ==> states[i + 1] == Apply(states[i], ops[i])
  }

  /** The clock does not go backwards. */
  ghost predicate ClockMonotone(ops: seq<Op>) {
    forall i, j :: 0 <= i < j < |ops| && !ops[i].ReleaseOp? && !ops[j].ReleaseOp? ==> ops[i].now <= ops[j].now
  }

  lemma {:induction false} RunInvariant(states: seq<State>, ops: seq<Op>, i: nat)
    requires IsRun(states, ops) && i < |states|
    ensures states[i].active.Some? ==> states[i].active.value.generation == states[i].generation
                                       && states[i].active.value.id != ""
    ensures states[i].policy == states[0].policy && states[i].idleTimeout == states[0].idleTimeout
    ensures states[i].preferredProtocol == states[0].preferredProtocol
  {
    if i > 0 {
      RunInvariant(states, ops, i - 1);
      assert states[i] == Apply(states[i - 1], ops[i - 1]);
    }
  }

  /** The same owner: nobody in both states, or the same session, whose id, protocol, device and
      start never change. */
  predicate SameOwner(s: State, t: State) {
    match (s.active, t.active)
    case (None, None) => true
    case (Some(a), Some(b)) =>
      a.id == b.id && a.protocol == b.protocol && a.device == b.device && a.startedAt == b.startedAt
    case _ => false
  }

  /** Generations never decrease, and one generation has one owner or is one idle period. */
  lemma {:induction false} OneOwnerPerGeneration(states: seq<State>, ops: seq<Op>, i: nat, j: nat)
    requires IsRun(states, ops) && i <= j < |states|
    ensures states[i].generation <= states[j].generation
    ensures states[i].generation == states[j].generation ==> SameOwner(states[i], states[j])
    decreases j
  {
    if i < j {
      OneOwnerPerGeneration(states, ops, i, j - 1);
      assert states[j] == Apply(states[j - 1], ops[j - 1]);
    }
  }

  /** A token, once false for a generation already reached, is false for ever. */
  lemma TokensNeverReturn(states: seq<State>, ops: seq<Op>, i: nat, j: nat, id: string, g: nat)
    requires IsRun(states, ops) && i <= j < |states| && g <= states[i].generation
    ensures !IsOwner(states[i], id, g) ==> !IsOwner(states[j], id, g)
    ensures !IsIdleGeneration(states[i], g) ==> !IsIdleGeneration(states[j], g)
  {
    OneOwnerPerGeneration(states, ops, i, j);
  }

  /** A decision is granted exactly when its generation is the requester's token afterwards; a
      refusal changes nothing. A new owner's token was never in use before, and the decision
      names the session it takes the speaker from. */
  lemma GrantIsToken(states: seq<State>, ops: seq<Op>, i: nat)
    requires IsRun(states, ops) && i < |ops| && ops[i].AcquireOp?
    ensures var s, req := states[i], ops[i].req;
      var d := Acquire(s, req, ops[i].now).1;
      && (d.granted <==> IsOwner(states[i + 1], req.id, d.generation))
      && (!d.granted ==> states[i + 1] == s)
      && (d.granted && !Owns(s, req.id) ==> forall k :: 0 <= k <= i ==> states[k].generation < d.generation)
      && (d.granted && !Owns(s, req.id) ==> d.generation == s.generation + 1)
      && d.replaced == (if d.granted && !Owns(s, req.id) then s.active else None)
      && (d.granted ==> d.reason == NoReason
                        && d.session == Some(states[i + 1].active.value.(cancel := NoCancel, streamURL := "")))
      && (!d.granted ==> d.session.None?
                         && d.reason == (if req.id == "" then MissingSessionId
                                         else SourceLocked(s.active.value.protocol, s.active.value.id)))
  {
    RunInvariant(states, ops, i);
    assert states[i + 1] == Apply(states[i], ops[i]);
    forall k | 0 <= k <= i ensures states[k].generation <= states[i].generation {
      OneOwnerPerGeneration(states, ops, k, i);
    }
  }

  /** A release that does something opens an idle period whose token was never in use before. */
  lemma ReleaseIsToken(states: seq<State>, ops: seq<Op>, i: nat)
    requires IsRun(states, ops) && i < |ops| && ops[i].ReleaseOp?
    ensures var (_, g, released) := Release(states[i], ops[i].id);
      && (released <==> Owns(states[i], ops[i].id))
      && (released ==> IsIdleGeneration(states[i + 1], g) && forall k :: 0 <= k <= i ==> states[k].generation < g)
      && (!released ==> states[i + 1] == states[i])
  {
    assert states[i + 1] == Apply(states[i], ops[i]);
    forall k | 0 <= k <= i ensures states[k].generation <= states[i].generation {
      OneOwnerPerGeneration(states, ops, k, i);
    }
  }

  /** The latest Acquire or Touch that names a session, if there was one. */
  function LatestSign(ops: seq<Op>, id: string): Option<Op> {
    if ops == [] then None
    else if IsActivity(ops[|ops| - 1], id) then Some(ops[|ops| - 1])
    else LatestSign(ops[..|ops| - 1], id)
  }

  /** The latest Acquire that names a session. */
  function LatestRequest(ops: seq<Op>, id: string): Option<Op> {
    if ops == [] then None
    else if ops[|ops| - 1].AcquireOp? && ops[|ops| - 1].req.id == id then Some(ops[|ops| - 1])
    else LatestRequest(ops[..|ops| - 1], id)
  }

  predicate IsSign(sign: Option<Op>, lastActivity: int) {
    sign.Some? && !sign.value.ReleaseOp? && sign.value.now == lastActivity
  }

  predicate IsRequest(request: Option<Op>, session: Session) {
    && request.Some? && request.value.AcquireOp?
    && request.value.req.streamURL == session.streamURL && request.value.req.cancel == session.cancel
  }

  /** The step opened the session's generation. */
  predicate Opens(s: State, op: Op, t: State, session: Session) {
    && op.AcquireOp? && s.generation + 1 == session.generation == t.generation
    && op.req.id == session.id && op.req.protocol == session.protocol && op.req.device == session.device
    && op.now == session.startedAt
  }

  /** Everything the active session records is in the operations so far: its last activity is the
      time of the latest Acquire or Touch that names it, its URL and its callback are those of
      the latest Acquire that names it, and the rest is what the Acquire that opened its
      generation said. Nobody else's operation changes any of it. */
  lemma {:induction false} SessionIsRecorded(states: seq<State>, ops: seq<Op>, i: nat)
    requires IsRun(states, ops) && i < |states|
    ensures states[i].active.Some? ==> var session := states[i].active.value;
      && IsSign(LatestSign(ops[..i], session.id), session.lastActivity)
      && IsRequest(LatestRequest(ops[..i], session.id), session)
      && exists k :: 0 <= k < i && Opens(states[k], ops[k], states[k + 1], session)
  {
    hide CanReplace;
    if i > 0 {
      SessionIsRecorded(states, ops, i - 1);
      RunInvariant(states, ops, i - 1);
      assert states[i] == Apply(states[i - 1], ops[i - 1]);
      assert ops[..i][..i - 1] == ops[..i - 1];
      if states[i].active.Some? {
        var session := states[i].active.value;
        if !Owns(states[i - 1], session.id) {
          assert Opens(states[i - 1], ops[i - 1], states[i - 1 + 1], session);
        } else {
          var before := states[i - 1].active.value;
          var k :| 0 <= k < i - 1 && Opens(states[k], ops[k], states[k + 1], before);
          assert Opens(states[k], ops[k], states[k + 1], session);
        }
      }
    }
  }

  /** When a request is granted, for every run. One without an id never is. Otherwise it is granted
      exactly if nobody else is active, or the policy is latest or unknown, or it is idle and
      the owner's latest Acquire or Touch is at least idleTimeout ago, or it is priority and the
      requester uses the preferred protocol or the owner does not. */
  lemma GrantedExactly(states: seq<State>, ops: seq<Op>, i: nat)
    requires IsRun(states, ops) && i < |ops| && ops[i].AcquireOp?
    ensures var s, first, req := states[i], states[0], ops[i].req;
      Acquire(s, req, ops[i].now).1.granted
      <==> req.id != "" && (s.active.None? || var owner := s.active.value;
             || owner.id == req.id
             || first.policy.Latest? || first.policy.OtherPolicy?
             || (first.policy.Idle? && LatestSign(ops[..i], owner.id).Some?
                 && !LatestSign(ops[..i], owner.id).value.ReleaseOp?
                 && ops[i].now - LatestSign(ops[..i], owner.id).value.now >= first.idleTimeout)
             || (first.policy.Priority?
                 && (req.protocol == first.preferredProtocol || owner.protocol != first.preferredProtocol)))
  {
    RunInvariant(states, ops, i);
    SessionIsRecorded(states, ops, i);
  }

  /** A new manager keeps a positive timeout and a known preference, and otherwise waits ten seconds
      and prefers AirPlay; it is idle. */
  lemma NewManager(policy: Policy, idleTimeout: int, preferred: Protocol)
    ensures var s := NewState(policy, idleTimeout, preferred);
      && s.policy == policy && s.idleTimeout > 0 && (idleTimeout > 0 ==> s.idleTimeout == idleTimeout)
      && (idleTimeout <= 0 ==> s.idleTimeout == 10_000_000_000)
      && (preferred == DLNA ==> s.preferredProtocol == DLNA) && (preferred != DLNA ==> s.preferredProtocol == AirPlay)
      && IsRun([s], []) && IsIdleGeneration(s, 0)
  {
  }

  /** Policy lock: without its own release, an owner stays. */
  lemma {:induction false} LockedOwnerStays(states: seq<State>, ops: seq<Op>, i: nat, j: nat)
    requires IsRun(states, ops) && i <= j < |states| && states[0].policy == Lock && states[i].active.Some?
    requires forall m :: i <= m < j ==> ops[m] != ReleaseOp(states[i].active.value.id)
    ensures SameOwner(states[i], states[j]) && states[j].generation == states[i].generation
    decreases j
  {
    if i < j {
      LockedOwnerStays(states, ops, i, j - 1);
      RunInvariant(states, ops, j - 1);
      assert states[j] == Apply(states[j - 1], ops[j - 1]);
    }
  }

  /** The op is one of the owner's signs of life. */
  predicate IsActivity(op: Op, id: string) {
    match op
    case AcquireOp(req, _) => req.id == id
    case TouchOp(i, _) => i == id
    case ReleaseOp(_) => false
  }

  lemma {:induction false} ActivityRecorded(states: seq<State>, ops: seq<Op>, k: nat, m: nat, id: string)
    requires IsRun(states, ops) && ClockMonotone(ops) && k < m < |states| && Owns(states[m], id)
    requires IsActivity(ops[k], id) && Owns(states[k + 1], id) && states[k + 1].generation == states[m].generation
    ensures states[m].active.value.lastActivity >= ops[k].now
    decreases m
  {
    RunInvariant(states, ops, m);
    if m == k + 1 {
      assert states[m] == Apply(states[k], ops[k]);
    } else {
      OneOwnerPerGeneration(states, ops, k + 1, m - 1);
      OneOwnerPerGeneration(states, ops, m - 1, m);
      assert states[m] == Apply(states[m - 1], ops[m - 1]);
      ActivityRecorded(states, ops, k, m - 1, id);
    }
  }

  /** Policy idle: an owner that is replaced has shown no activity, in the generation it is
      replaced in, during the last idleTimeout. */
  lemma IdleReplacementWaits(states: seq<State>, ops: seq<Op>, k: nat, m: nat, id: string)
    requires IsRun(states, ops) && ClockMonotone(ops) && states[0].policy == Idle && k < m < |ops|
    requires Owns(states[m], id) && states[m + 1].active.Some? && !Owns(states[m + 1], id)
    requires IsActivity(ops[k], id) && Owns(states[k + 1], id) && states[k + 1].generation == states[m].generation
    ensures ops[m].AcquireOp? && ops[m].now - ops[k].now >= states[0].idleTimeout
  {
    RunInvariant(states, ops, m);
    assert states[m + 1] == Apply(states[m], ops[m]);
    ActivityRecorded(states, ops, k, m, id);
  }

  /** Policy priority: from a preferred owner on, until it or a successor is released, every
      owner uses the preferred protocol. */
  lemma {:induction false} PreferredOwnersStay(states: seq<State>, ops: seq<Op>, i: nat, j: nat)
    requires IsRun(states, ops) && i <= j < |states| && states[0].policy == Priority
    requires states[i].active.Some? && states[i].active.value.protocol == states[0].preferredProtocol
    requires forall m :: i <= m < j && ops[m].ReleaseOp? ==> !Owns(states[m], ops[m].id)
    ensures states[j].active.Some? && states[j].active.value.protocol == states[0].preferredProtocol
    decreases j
  {
    if i < j {
      PreferredOwnersStay(states, ops, i, j - 1);
      RunInvariant(states, ops, j - 1);
      assert states[j] == Apply(states[j - 1], ops[j - 1]);
    }
  }
}
