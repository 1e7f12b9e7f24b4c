/** The renderer, the coordinator and the manager together: every section of a transport action, of
    a Cancel callback or of another protocol's session that touches the manager is at the same time
    a caller's step of the coordinator, whose queue and worker run in between. */
module EndToEnd {
  import opened Ownership
  import C = Coordinator
  import D = Dlna
  import R = Renderer

  /** Both systems, over one manager. */
  datatype System = System(dlna: D.System, playback: C.System)

  datatype Step = Section(section: D.Step) | Background(step: C.Step)

  /** The call into the coordinator that a section makes, if it makes one. */
  function CoordinatorCall(s: D.System, section: D.Step): Option<C.Step> {
    match section
    case SoapStep(req, now) =>
      (match s.soap
       case Activate(_) => Some(C.ActivateStep(req, now))
       case Cancelling(Notify(id), _) => Some(C.DeactivateStep(id))
       case CancelReplaced(Notify(id), _) => Some(C.DeactivateStep(id))
       case TouchPlayed(id) => Some(C.TouchStep(id, now))
       case _ => None)
    case CancelStep(Notify(id)) => Some(C.DeactivateStep(id))
    case OtherActivate(req, now) => Some(C.ActivateStep(req, now))
    case OtherDeactivate(id) => Some(C.DeactivateStep(id))
    case AnyTouch(id, now) => Some(C.TouchStep(id, now))
    case _ => None
  }

  predicate Enabled(s: System, step: Step) {
    match step
    case Section(section) => D.Enabled(s.dlna, section)
    case Background(step) => !C.CallerStep(step) && C.Enabled(s.playback, step)
  }

  function Do(s: System, step: Step): System
    requires Enabled(s, step)
  {
    match step
    case Section(section) =>
      var call := CoordinatorCall(s.dlna, section);
      System(D.Do(s.dlna, section), if call.None? then s.playback else C.Do(s.playback, call.value))
    case Background(step) => s.(playback := C.Do(s.playback, step))
  }

  /** The URL of a DLNA session's media proxy; `base` is the server's address. */
  function MediaURL(base: string, id: string): string {
    base + "/media/" + id
  }

  /** The proxy's path is "/media/" and the session id, which it takes the prefix off to get. */
  lemma ProxyPath(base: string, id: string)
    ensures var url := MediaURL(base, id);
      base + "/media/" <= url && url[|base| + 7..] == id
  {
  }

  /** Every session is activated with its own URL, and a DLNA session with its proxy's. */
  ghost predicate Addresses(url: string -> string, base: string) {
    forall id :: !D.Foreign(id) ==> url(id) == MediaURL(base, id)
  }

  predicate UsesUrl(s: System, step: Step, url: string -> string) {
    step.Section? ==>
      var call := CoordinatorCall(s.dlna, step.section);
      call.Some? && call.value.ActivateStep? ==> call.value.req.streamURL == url(call.value.req.id)
  }

  ghost predicate Initial(s: System) {
    D.Initial(s.dlna) && C.Initial(s.playback) && s.dlna.manager == s.playback.manager
  }

  ghost predicate IsRun(states: seq<System>, steps: seq<Step>, url: string -> string) {
    && |states| == |steps| + 1 && Initial(states[0])
    && forall i :: 0 <= i < |steps| ==>
      Enabled(states[i], steps[i]) && UsesUrl(states[i], steps[i], url) && states[i + 1] == Do(states[i], steps[i])
  }

  // ----- the two systems stay together -----

  ghost predicate Inv(s: System, owners: C.Owners, url: string -> string) {
    D.Inv(s.dlna) && C.Inv(s.playback, owners, url) && s.dlna.manager == s.playback.manager
  }

  /** What a call does to the manager. */
  function ManagerAfter(m: State, call: C.Step): State {
    match call
    case ActivateStep(req, now) => Acquire(m, req, now).0
    case DeactivateStep(id) => Release(m, id).0
    case TouchStep(id, now) => Touch(m, id, now).0
    case _ => m
  }

  lemma PlaybackManager(s: C.System, step: C.Step)
    requires C.Enabled(s, step)
    ensures C.Do(s, step).manager == ManagerAfter(s.manager, step)
  {
    hide Acquire, Release, Touch;
  }

  lemma SoapManager(s: D.System, req: Request, now: int)
    requires D.Enabled(s, D.SoapStep(req, now))
    ensures var call := CoordinatorCall(s, D.SoapStep(req, now));
      D.RunSoap(s, req, now).manager == if call.None? then s.manager else ManagerAfter(s.manager, call.value)
  {
    hide Acquire, Release, Touch;
  }

  lemma SectionManager(s: D.System, section: D.Step)
    requires D.Enabled(s, section)
    ensures var call := CoordinatorCall(s, section);
      D.Do(s, section).manager == if call.None? then s.manager else ManagerAfter(s.manager, call.value)
  {
    hide Acquire, Release, Touch, D.RunSoap;
    if section.SoapStep? {
      hide CoordinatorCall;
      SoapManager(s, section.request, section.now);
    }
  }

  /** Both systems see the same change of the manager. */
  lemma SameManager(s: System, step: Step)
    requires Enabled(s, step) && s.dlna.manager == s.playback.manager
    ensures Do(s, step).dlna.manager == Do(s, step).playback.manager
  {
    hide D.Do, C.Do, CoordinatorCall;
    match step
    case Section(section) =>
      SectionManager(s.dlna, section);
      var call := CoordinatorCall(s.dlna, section);
      if call.Some? {
        CallIsCallerStep(s.dlna, section);
        PlaybackManager(s.playback, call.value);
      }
    case Background(step) =>
      PlaybackManager(s.playback, step);
  }

  lemma CallIsCallerStep(s: D.System, section: D.Step)
    ensures var call := CoordinatorCall(s, section);
      call.Some? ==> C.CallerStep(call.value)
  {
  }

  lemma InvStep(s: System, step: Step, owners: C.Owners, url: string -> string) returns (after: C.Owners)
    requires Enabled(s, step) && UsesUrl(s, step, url) && Inv(s, owners, url)
    ensures Inv(Do(s, step), after, url)
  {
    hide D.Inv, C.Inv, D.Do, C.Do, D.Enabled, CoordinatorCall;
    SameManager(s, step);
    after := owners;
    match step
    case Section(section) =>
      D.StepKeepsInv(s.dlna, section);
      CallIsCallerStep(s.dlna, section);
      var call := CoordinatorCall(s.dlna, section);
      if call.Some? {
        after := C.InvStep(s.playback, call.value, owners, url);
      }
    case Background(step) =>
      after := C.InvStep(s.playback, step, owners, url);
  }

  lemma {:induction false} InvOnRuns(states: seq<System>, steps: seq<Step>, url: string -> string, i: nat)
    returns (owners: C.Owners)
    requires IsRun(states, steps, url) && i < |states|
    ensures Inv(states[i], owners, url)
  {
    hide D.Inv, C.Inv, Do, Enabled;
    if i == 0 {
      owners := map[0 := None];
      InitialInv(states[0], url);
    } else {
      var before := InvOnRuns(states, steps, url, i - 1);
      owners := InvStep(states[i - 1], steps[i - 1], before, url);
    }
  }

  lemma InitialInv(s: System, url: string -> string)
    requires Initial(s)
    ensures Inv(s, map[0 := None], url)
  {
  }

  // ----- what was asked for -----

  /** What the control point has asked the renderer for so far. */
  function StoryOf(states: seq<System>, steps: seq<Step>, i: nat): D.Story
    requires i <= |steps| && i < |states|
  {
    if i == 0 then D.NOTHING_ASKED else
    match steps[i - 1]
    case Section(section) => D.Told(StoryOf(states, steps, i - 1), states[i - 1].dlna, section)
    case Background(_) => StoryOf(states, steps, i - 1)
  }

  lemma {:induction false} StoryOnRuns(states: seq<System>, steps: seq<Step>, url: string -> string, i: nat)
    requires IsRun(states, steps, url) && i < |states|
    ensures D.StoryInv(states[i].dlna, StoryOf(states, steps, i))
  {
    hide D.Inv, C.Inv, D.Do, D.Enabled, D.Told, D.StoryInv, CoordinatorCall;
    if i == 0 {
      D.InitialStory(states[0].dlna);
    } else {
      StoryOnRuns(states, steps, url, i - 1);
      var owners := InvOnRuns(states, steps, url, i - 1);
      var s, step := states[i - 1], steps[i - 1];
      assert Enabled(s, step) && states[i] == Do(s, step);
      match step
      case Section(section) => D.StoryStep(s.dlna, StoryOf(states, steps, i - 1), section);
      case Background(_) =>
    }
  }

  /** The active session's proxy fetches the URI of the latest SetAVTransportURI before the Play that
      created the session. */
  ghost predicate FetchesAsked(states: seq<System>, steps: seq<Step>, i: nat)
    requires i <= |steps| && i < |states|
  {
    var r, played := states[i].dlna.renderer, StoryOf(states, steps, i).played;
    r.activeSession in r.media && r.activeSession in played && r.media[r.activeSession] == played[r.activeSession]
  }

  lemma ActiveFetchesAsked(states: seq<System>, steps: seq<Step>, url: string -> string, i: nat)
    requires IsRun(states, steps, url) && i < |states| && states[i].dlna.renderer.transportState == R.Playing
    ensures FetchesAsked(states, steps, i)
  {
    hide C.Inv;
    var owners := InvOnRuns(states, steps, url, i);
    StoryOnRuns(states, steps, url, i);
  }

  // ----- what is heard -----

  /** The action plays the renderer's session, from its proxy. */
  predicate PlaysRenderer(a: C.Action, s: System, base: string) {
    && a.PlayByMusicURL? && a.sessionID == s.dlna.renderer.activeSession != ""
    && a.streamURL == MediaURL(base, s.dlna.renderer.activeSession)
  }

  /** Some DLNA session's play. */
  predicate PlaysDlna(a: C.Action) {
    a.PlayByMusicURL? && !D.Foreign(a.sessionID)
  }

  lemma MatchingAction(s: System, owners: C.Owners, url: string -> string, base: string, a: C.Action)
    requires Inv(s, owners, url) && Addresses(url, base) && D.Quiescent(s.dlna)
    requires C.Matches(a, s.playback.manager)
    ensures s.dlna.renderer.transportState == R.Playing <==> PlaysDlna(a)
    ensures s.dlna.renderer.transportState == R.Playing <==> PlaysRenderer(a, s, base)
  {
    var r := s.dlna.renderer;
    var m := s.dlna.manager;
    D.ActiveIsOwner(s.dlna, r.activeSession);
    if m.active.Some? {
      D.ActiveIsOwner(s.dlna, m.active.value.id);
    }
  }

  /** When renderer, callbacks, callers, queue and worker are all at rest and some action of the
      current generation succeeded, the transport is PLAYING exactly when the speaker's effective
      action is a DLNA session's play, and then it is that of the renderer's active session, with
      that session's proxy URL, behind which is the URI the control point had set for it. */
  lemma PlayingIsHeard(states: seq<System>, steps: seq<Step>, url: string -> string, base: string, i: nat, k: nat)
    requires IsRun(states, steps, url) && Addresses(url, base) && i < |states|
    requires D.Quiescent(states[i].dlna) && C.Quiescent(states[i].playback)
    requires k < |states[i].playback.log| && states[i].playback.log[k].ok
    requires states[i].playback.log[k].generation == states[i].playback.manager.generation
    ensures var s, a := states[i], C.Effective(states[i].playback.log);
      && a.Some?
      && (s.dlna.renderer.transportState == R.Playing <==> PlaysDlna(a.value))
      && (s.dlna.renderer.transportState == R.Playing <==> PlaysRenderer(a.value, s, base))
      && (s.dlna.renderer.transportState == R.Playing ==> FetchesAsked(states, steps, i))
  {
    hide C.Effective, C.Matches, PlaysDlna, PlaysRenderer, FetchesAsked;
    if states[i].dlna.renderer.transportState == R.Playing { ActiveFetchesAsked(states, steps, url, i); }
    var owners := InvOnRuns(states, steps, url, i);
    C.EffectiveMatches(states[i].playback, owners, url, k);
    MatchingAction(states[i], owners, url, base, C.Effective(states[i].playback.log).value);
  }

  /** Without assuming a success: before Close and with a speaker, the last action issued is such a
      play exactly when the transport is PLAYING, and it succeeded, or is a pause, or was tried
      three times. */
  lemma PlayingIsIssued(states: seq<System>, steps: seq<Step>, url: string -> string, base: string, i: nat)
    requires IsRun(states, steps, url) && Addresses(url, base) && i < |states|
    requires D.Quiescent(states[i].dlna) && C.Quiescent(states[i].playback)
    requires states[i].playback.connected && !states[i].playback.closed && states[i].playback.manager.generation > 0
    ensures var s, log := states[i], states[i].playback.log;
      && log != []
      && (s.dlna.renderer.transportState == R.Playing <==> PlaysDlna(C.Last(log)))
      && (s.dlna.renderer.transportState == R.Playing <==> PlaysRenderer(C.Last(log), s, base))
      && (s.dlna.renderer.transportState == R.Playing ==> FetchesAsked(states, steps, i))
      && (C.Last(log).ok || C.Last(log).PlayerPause? || C.GaveUp(log))
  {
    hide C.Matches, PlaysDlna, PlaysRenderer, FetchesAsked;
    if states[i].dlna.renderer.transportState == R.Playing { ActiveFetchesAsked(states, steps, url, i); }
    var owners := InvOnRuns(states, steps, url, i);
    C.LastMatches(states[i].playback, owners, url);
    MatchingAction(states[i], owners, url, base, C.Last(states[i].playback.log));
  }

  // ----- and rest is reached -----

  /** Steps nobody outside has to take. */
  predicate Internal(step: Step) {
    match step
    case Section(section) => D.Internal(section)
    case Background(step) => C.Internal(step)
  }

  /** A section can hand at most one command, worth 9, to the coordinator. */
  ghost function Work(s: System): int {
    10 * D.Work(s.dlna) + C.Work(s.playback)
  }

  predicate AtRest(s: System) {
    D.Quiescent(s.dlna) && C.Quiescent(s.playback)
  }

  lemma CallWork(s: C.System, call: C.Step)
    requires C.CallerStep(call) && C.Enabled(s, call)
    ensures C.Work(C.Do(s, call)) <= C.Work(s) + 9
  {
    hide Acquire, Release, Touch;
  }

  lemma WorkDecreases(s: System, step: Step)
    requires Enabled(s, step) && Internal(step) && C.RetryInv(s.playback)
    ensures Work(Do(s, step)) < Work(s)
  {
    hide D.Work, C.Work, D.Do, C.Do, D.Enabled, CoordinatorCall;
    match step
    case Section(section) =>
      D.WorkDecreases(s.dlna, section);
      CallIsCallerStep(s.dlna, section);
      var call := CoordinatorCall(s.dlna, section);
      if call.Some? {
        CallWork(s.playback, call.value);
      }
    case Background(step) =>
      C.WorkDecreases(s.playback, step);
  }

  lemma CallKeepsWorker(s: C.System, call: C.Step)
    requires C.CallerStep(call) && C.Enabled(s, call)
    ensures C.Do(s, call).worker == s.worker && C.Do(s, call).closed == s.closed
  {
    hide Acquire, Release, Touch;
  }

  lemma {:induction false} StoppedOnlyAfterClose(states: seq<System>, steps: seq<Step>, url: string -> string, i: nat)
    requires IsRun(states, steps, url) && i < |states|
    ensures states[i].playback.worker.Stopped? ==> states[i].playback.closed
  {
    hide D.Do, D.Enabled, CoordinatorCall;
    if i > 0 {
      StoppedOnlyAfterClose(states, steps, url, i - 1);
      var s, step := states[i - 1], steps[i - 1];
      assert Enabled(s, step) && states[i] == Do(s, step);
      if step.Section? {
        CallIsCallerStep(s.dlna, step.section);
        var call := CoordinatorCall(s.dlna, step.section);
        if call.Some? {
          CallKeepsWorker(s.playback, call.value);
        }
      }
    }
  }

  lemma NextInternal(s: System, url: string -> string) returns (step: Step)
    requires !AtRest(s) && !s.playback.worker.Stopped?
    ensures Internal(step) && Enabled(s, step) && UsesUrl(s, step, url)
  {
    if !D.Quiescent(s.dlna) {
      var id := if s.dlna.soap.Activate? then s.dlna.soap.id else "";
      var section := D.NextInternal(s.dlna, url(id));
      step := Section(section);
    } else {
      var next := C.NextInternal(s.playback);
      step := Background(next);
    }
  }

  /** When nobody starts anything new, renderer, callbacks, callers, queue and worker all come to
      rest: a stretch of steps of what is under way is no longer than the work at its start, and
      until Close or rest one of them is enabled. */
  lemma {:induction false} Drains(states: seq<System>, steps: seq<Step>, url: string -> string, i: nat, j: nat)
    requires IsRun(states, steps, url) && i <= j < |states|
    requires forall m :: i <= m < j ==> Internal(steps[m])
    ensures j - i + Work(states[j]) <= Work(states[i]) && Work(states[j]) >= 0
    ensures !states[j].playback.closed && !AtRest(states[j]) ==>
      exists step :: Internal(step) && Enabled(states[j], step) && UsesUrl(states[j], step, url)
    decreases j
  {
    hide Work, Enabled, Do, UsesUrl, C.RetryInv, AtRest, Internal;
    var owners := InvOnRuns(states, steps, url, j);
    WorkNonNegative(states[j]);
    if i < j {
      Drains(states, steps, url, i, j - 1);
      var before := InvOnRuns(states, steps, url, j - 1);
      WorkDecreases(states[j - 1], steps[j - 1]);
    }
    StoppedOnlyAfterClose(states, steps, url, j);
    if !states[j].playback.closed && !AtRest(states[j]) {
      var step := NextInternal(states[j], url);
    }
  }

  lemma WorkNonNegative(s: System)
    requires C.RetryInv(s.playback)
    ensures Work(s) >= 0
  {
    C.WorkNonNegative(s.playback);
  }
}
