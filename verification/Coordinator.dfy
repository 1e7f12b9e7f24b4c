/** The speaker protocol of playback/coordinator.go as a transition system. Its steps are the
    sections under the manager's mutex, the channel operations, and the worker's checks and
    speaker calls, so that everything in between can be interleaved. */
module Coordinator {
  import opened Ownership

  datatype Command =
    | Play(sessionID: string, generation: nat, streamURL: string)
    | Pause(sessionID: string, generation: nat)
  {
    /** Whom the command acts for: a session, or nobody. */
    function Owner(): Option<string> {
      match this case Play(id, _, _) => Some(id) case Pause(_, _) => None
    }
  }

  /** A call to the speaker and whether it succeeded. The session and the generation are those of
      the command; the speaker itself sees the URL only. */
  datatype Action =
    | PlayByMusicURL(sessionID: string, generation: nat, streamURL: string, ok: bool)
    | PlayerPause(generation: nat, ok: bool)
  {
    function Owner(): Option<string> {
      match this case PlayByMusicURL(id, _, _, _) => Some(id) case PlayerPause(_, _) => None
    }
  }

  /** Where the control loop is: at its select, about to ask the manager, or about to call the
      speaker after a positive answer. */
  datatype Worker =
    | Waiting
    | Checking(command: Command, attempt: nat)
    | Acting(command: Command, attempt: nat)
    | Stopped

  const QUEUE_CAPACITY := 32
  const ATTEMPTS := 3

  /** `pending` holds the commands of callers between their manager step and their enqueue;
      `connected` is false without a speaker or a device id. */
  datatype System = System(manager: State, pending: multiset<Command>, queue: seq<Command>, worker: Worker,
                           log: seq<Action>, connected: bool, closed: bool)

  datatype Step =
    | ActivateStep(req: Request, now: int)
    | DeactivateStep(id: string)
    | TouchStep(id: string, now: int)
    | EnqueueStep(command: Command)
    | AbandonStep(command: Command)
    | CloseStep
    | TakeStep
    | ExitStep
    | CheckStep
    | ActStep(ok: bool)

  predicate Enabled(s: System, step: Step) {
    match step
    case ActivateStep(_, _) => true
    case DeactivateStep(_) => true
    case TouchStep(_, _) => true
    case EnqueueStep(c) => c in s.pending && |s.queue| < QUEUE_CAPACITY
    case AbandonStep(c) => c in s.pending && s.closed
    case CloseStep => true
    case TakeStep => s.worker.Waiting? && s.queue != []
    case ExitStep => s.worker.Waiting? && s.closed
    case CheckStep => s.worker.Checking?
    case ActStep(_) => s.worker.Acting?
  }

  /** The manager's answer to the question the worker asks before each call. */
  predicate StillValid(m: State, c: Command) {
    match c
    case Play(id, g, _) => IsOwner(m, id, g)
    case Pause(_, g) => IsIdleGeneration(m, g)
  }

  function ActionOf(c: Command, ok: bool): Action {
    match c
    case Play(id, g, url) => PlayByMusicURL(id, g, url, ok)
    case Pause(_, g) => PlayerPause(g, ok)
  }

  function Do(s: System, step: Step): System
    requires Enabled(s, step)
  {
    match step
    case ActivateStep(req, now) =>
      var (m, d) := Acquire(s.manager, req, now);
      s.(manager := m,
         pending := if d.granted then s.pending + multiset{Play(req.id, d.generation, req.streamURL)} else s.pending)
    case DeactivateStep(id) =>
      var (m, g, released) := Release(s.manager, id);
      s.(manager := m, pending := if released then s.pending + multiset{Pause(id, g)} else s.pending)
    case TouchStep(id, now) => s.(manager := Touch(s.manager, id, now).0)
    case EnqueueStep(c) => s.(pending := s.pending - multiset{c}, queue := s.queue + [c])
    case AbandonStep(c) => s.(pending := s.pending - multiset{c})
    case CloseStep => s.(closed := true)
    case TakeStep => s.(queue := s.queue[1..], worker := if s.connected then Checking(s.queue[0], 1) else Waiting)
    case ExitStep => s.(worker := Stopped)
    case CheckStep =>
      s.(worker := if StillValid(s.manager, s.worker.command)
                   then Acting(s.worker.command, s.worker.attempt) else Waiting)
    case ActStep(ok) =>
      var c, attempt := s.worker.command, s.worker.attempt;
      s.(log := s.log + [ActionOf(c, ok)],
         worker := if c.Play? && !ok && attempt < ATTEMPTS then Checking(c, attempt + 1) else Waiting)
  }

  predicate Initial(s: System) {
    && s.manager.generation == 0 && s.manager.active.None?
    && s.pending == multiset{} && s.queue == [] && s.worker == Waiting && s.log == [] && !s.closed
  }

  /** Any interleaving of callers and the worker. */
  ghost predicate IsRun(states: seq<System>, steps: seq<Step>) {
    && |states| == |steps| + 1 && Initial(states[0])
    && forall i :: 0 <= i < |steps| ==> Enabled(states[i], steps[i]) && states[i + 1] == Do(states[i], steps[i])
  }

  // ----- issue order -----

  /** Who owned each generation so far; None is an idle period. */
  type Owners = map<nat, Option<string>>

  function CurrentOwner(m: State): Option<string> {
    if m.active.None? then None else Some(m.active.value.id)
  }

  predicate Known(c: Command, owners: Owners) {
    c.generation in owners && owners[c.generation] == c.Owner()
  }

  predicate Logged(a: Action, owners: Owners) {
    a.generation in owners && owners[a.generation] == a.Owner()
  }

  ghost predicate InOrder(log: seq<Action>) {
    forall i, j :: 0 <= i < j < |log| ==> log[i].generation <= log[j].generation
  }

  predicate Busy(w: Worker) {
    w.Checking? || w.Acting?
  }

  ghost predicate OrderInv(s: System, owners: Owners) {
    && s.manager.generation in owners && owners[s.manager.generation] == CurrentOwner(s.manager)
    && (forall g :: g in owners ==> g <= s.manager.generation)
    && (forall c :: c in s.pending ==> Known(c, owners))
    && (forall c :: c in s.queue ==> Known(c, owners))
    && (Busy(s.worker) ==> Known(s.worker.command, owners))
    && (forall a :: a in s.log ==> Logged(a, owners))
    && InOrder(s.log)
    && (s.worker.Acting? ==> forall a :: a in s.log ==> a.generation <= s.worker.command.generation)
  }

  predicate CallerStep(step: Step) {
    step.ActivateStep? || step.DeactivateStep? || step.TouchStep?
  }

  /** What the manager's sections do to generation and owner. */
  lemma ManagerEffect(m: State, req: Request, id: string, now: int)
    ensures var (t, d) := Acquire(m, req, now);
      && (if t.generation == m.generation then CurrentOwner(t) == CurrentOwner(m) else t.generation == m.generation + 1)
      && (d.granted ==> d.generation == t.generation && CurrentOwner(t) == Some(req.id))
    ensures var (t, g, released) := Release(m, id);
      if released then t.generation == m.generation + 1 == g && CurrentOwner(t) == None else t == m
    ensures var t := Touch(m, id, now).0;
      t.generation == m.generation && CurrentOwner(t) == CurrentOwner(m)
  {
    hide CanReplace;
  }

  /** A caller's step keeps the generation and its owner, or opens the next generation; a command it
      leaves to be enqueued is of the generation then, and for its owner. */
  lemma CallerEffect(s: System, step: Step)
    requires CallerStep(step) && Enabled(s, step)
    ensures var t := Do(s, step); var g, g' := s.manager.generation, t.manager.generation;
      && t.queue == s.queue && t.worker == s.worker && t.log == s.log
      && (if g' == g then CurrentOwner(t.manager) == CurrentOwner(s.manager) else g' == g + 1)
      && forall c :: c in t.pending ==>
        c in s.pending || (c.generation == g' && c.Owner() == CurrentOwner(t.manager))
  {
    hide Acquire, Release, Touch, CurrentOwner;
    match step
    case ActivateStep(req, now) => ManagerEffect(s.manager, req, "", now);
    case DeactivateStep(id) => ManagerEffect(s.manager, Request("", DLNA, "", "", NoCancel), id, 0);
    case TouchStep(id, now) => ManagerEffect(s.manager, Request("", DLNA, "", "", NoCancel), id, now);
    case _ =>
  }

  lemma CallerKeepsOrder(s: System, step: Step, owners: Owners) returns (after: Owners)
    requires CallerStep(step) && Enabled(s, step) && OrderInv(s, owners)
    ensures OrderInv(Do(s, step), after)
  {
    hide InOrder, Do, Enabled, CurrentOwner;
    CallerEffect(s, step);
    var t := Do(s, step);
    after := owners[t.manager.generation := CurrentOwner(t.manager)];
    assert forall g :: g in owners ==> g in after && after[g] == owners[g];
  }

  lemma QueueKeepsOrder(s: System, step: Step, owners: Owners)
    requires step.EnqueueStep? || step.AbandonStep? || step.TakeStep?
    requires Enabled(s, step) && OrderInv(s, owners)
    ensures OrderInv(Do(s, step), owners)
  {
    hide InOrder, Logged, CurrentOwner, Known;
    var t := Do(s, step);
    forall c | c in t.queue ensures Known(c, owners) {
      if c !in s.queue {
        assert c == step.command;
      }
    }
    if step.TakeStep? {
      assert s.queue[0] in s.queue;
    }
  }

  lemma WorkerKeepsOrder(s: System, step: Step, owners: Owners)
    requires step.CloseStep? || step.ExitStep? || step.CheckStep? || step.ActStep?
    requires Enabled(s, step) && OrderInv(s, owners)
    ensures OrderInv(Do(s, step), owners)
  {
    var t := Do(s, step);
    if step.ActStep? {
      assert t.log == s.log + [ActionOf(s.worker.command, step.ok)];
      forall i, j | 0 <= i < j < |t.log| ensures t.log[i].generation <= t.log[j].generation {
        assert t.log[i] in s.log;
      }
    }
  }

  lemma OrderStep(s: System, step: Step, owners: Owners) returns (after: Owners)
    requires Enabled(s, step) && OrderInv(s, owners)
    ensures OrderInv(Do(s, step), after)
  {
    hide OrderInv, Do, Enabled;
    if CallerStep(step) {
      after := CallerKeepsOrder(s, step, owners);
    } else {
      after := owners;
      if step.EnqueueStep? || step.AbandonStep? || step.TakeStep? {
        QueueKeepsOrder(s, step, owners);
      } else {
        WorkerKeepsOrder(s, step, owners);
      }
    }
  }

  lemma {:induction false} OrderOnRuns(states: seq<System>, steps: seq<Step>, i: nat) returns (owners: Owners)
    requires IsRun(states, steps) && i < |states|
    ensures OrderInv(states[i], owners)
  {
    if i == 0 {
      owners := map[0 := None];
    } else {
      var before := OrderOnRuns(states, steps, i - 1);
      owners := OrderStep(states[i - 1], steps[i - 1], before);
    }
  }

  /** Issue order: in every interleaving the generations of the actions never decrease, and all
      actions of one generation are plays of one session, or all are pauses. */
  lemma IssueOrder(states: seq<System>, steps: seq<Step>, i: nat, a: nat, b: nat)
    requires IsRun(states, steps) && i < |states| && a < b < |states[i].log|
    ensures var log := states[i].log;
      && log[a].generation <= log[b].generation <= states[i].manager.generation
      && (log[a].generation == log[b].generation ==> log[a].Owner() == log[b].Owner())
  {
    var owners := OrderOnRuns(states, steps, i);
    assert Logged(states[i].log[a], owners) && Logged(states[i].log[b], owners);
  }

  // ----- convergence -----

  /** Each session id has one stream URL. */
  ghost predicate FixedUrls(steps: seq<Step>, url: string -> string) {
    forall i :: 0 <= i < |steps| && steps[i].ActivateStep? ==> steps[i].req.streamURL == url(steps[i].req.id)
  }

  predicate CommandUrl(c: Command, url: string -> string) {
    c.Play? ==> c.streamURL == url(c.sessionID)
  }

  ghost predicate UrlInv(s: System, url: string -> string) {
    && (s.manager.active.Some? ==> s.manager.active.value.streamURL == url(s.manager.active.value.id))
    && (forall c :: c in s.pending ==> CommandUrl(c, url))
    && (forall c :: c in s.queue ==> CommandUrl(c, url))
    && (Busy(s.worker) ==> CommandUrl(s.worker.command, url))
    && (forall a :: a in s.log && a.PlayByMusicURL? ==> a.streamURL == url(a.sessionID))
  }

  lemma CallerUrl(s: System, step: Step, url: string -> string)
    requires CallerStep(step) && Enabled(s, step) && UrlInv(s, url)
    requires step.ActivateStep? ==> step.req.streamURL == url(step.req.id)
    ensures UrlInv(Do(s, step), url)
  {
    hide CanReplace;
    var t := Do(s, step);
    forall c | c in t.pending ensures CommandUrl(c, url) {
      assert c in s.pending || c.Pause?
        || (step.ActivateStep? && c == Play(step.req.id, c.generation, step.req.streamURL));
    }
  }

  lemma UrlStep(s: System, step: Step, url: string -> string)
    requires Enabled(s, step) && UrlInv(s, url)
    requires step.ActivateStep? ==> step.req.streamURL == url(step.req.id)
    ensures UrlInv(Do(s, step), url)
  {
    hide UrlInv, Do, Enabled;
    if CallerStep(step) {
      CallerUrl(s, step, url);
    } else if step.EnqueueStep? || step.AbandonStep? || step.TakeStep? {
      QueueUrl(s, step, url);
    } else {
      WorkerUrl(s, step, url);
    }
  }

  lemma QueueUrl(s: System, step: Step, url: string -> string)
    requires step.EnqueueStep? || step.AbandonStep? || step.TakeStep?
    requires Enabled(s, step) && UrlInv(s, url)
    ensures UrlInv(Do(s, step), url)
  {
    var t := Do(s, step);
    if step.TakeStep? {
      assert s.queue[0] in s.queue;
    } else {
      assert forall c :: c in t.queue ==> c in s.queue || c in s.pending;
      assert forall c :: c in t.pending ==> c in s.pending;
    }
  }

  lemma WorkerUrl(s: System, step: Step, url: string -> string)
    requires step.CloseStep? || step.ExitStep? || step.CheckStep? || step.ActStep?
    requires Enabled(s, step) && UrlInv(s, url)
    ensures UrlInv(Do(s, step), url)
  {
    hide StillValid;
  }

  ghost predicate HasCommand(s: System, g: nat) {
    || (exists c :: c in s.pending && c.generation == g)
    || (exists c :: c in s.queue && c.generation == g)
    || (Busy(s.worker) && s.worker.command.generation == g)
  }

  function Last(log: seq<Action>): Action
    requires log != []
  {
    log[|log| - 1]
  }

  predicate LastIs(s: System, g: nat) {
    s.log != [] && Last(s.log).generation == g
  }

  /** Until Close, the current generation's command is on its way or was the last one issued. */
  ghost predicate ProgressInv(s: System) {
    s.connected && !s.closed && s.manager.generation > 0 ==>
      HasCommand(s, s.manager.generation) || LastIs(s, s.manager.generation)
  }

  lemma CallerProgress(s: System, step: Step)
    requires CallerStep(step) && Enabled(s, step) && ProgressInv(s)
    ensures ProgressInv(Do(s, step))
  {
    var t := Do(s, step);
    if t.manager.generation != s.manager.generation {
      if step.ActivateStep? {
        assert Play(step.req.id, t.manager.generation, step.req.streamURL) in t.pending;
      } else if step.DeactivateStep? {
        assert Pause(step.id, t.manager.generation) in t.pending;
      }
    } else {
      assert forall c :: c in s.pending ==> c in t.pending;
    }
  }

  lemma QueueProgress(s: System, step: Step)
    requires step.EnqueueStep? || step.AbandonStep? || step.TakeStep?
    requires Enabled(s, step) && ProgressInv(s)
    ensures ProgressInv(Do(s, step))
  {
    var t, g := Do(s, step), s.manager.generation;
    if s.connected && !s.closed && g > 0 && !LastIs(s, g) {
      if c :| c in s.pending && c.generation == g {
        assert c in t.pending || c in t.queue;
      } else if c :| c in s.queue && c.generation == g {
        assert c in t.queue || (step.TakeStep? && c == s.queue[0]) by {
          if step.TakeStep? { assert s.queue == [s.queue[0]] + t.queue; }
        }
      }
    }
  }

  lemma WorkerProgress(s: System, step: Step, owners: Owners)
    requires step.CloseStep? || step.ExitStep? || step.CheckStep? || step.ActStep?
    requires Enabled(s, step) && OrderInv(s, owners) && ProgressInv(s)
    ensures ProgressInv(Do(s, step))
  {
    hide InOrder;
    var t, g := Do(s, step), s.manager.generation;
    assert t.pending == s.pending && t.queue == s.queue;
    if step.ActStep? {
      assert Last(t.log) == ActionOf(s.worker.command, step.ok);
      if LastIs(s, g) {
        assert Last(s.log) in s.log;
      }
    }
  }

  /** The last three actions are the same failed play. */
  predicate GaveUp(log: seq<Action>) {
    |log| >= 3 && Last(log).PlayByMusicURL? && !Last(log).ok && Repeated(log, Last(log), 3)
  }

  /** The log ends in k copies of an action. */
  predicate Repeated(log: seq<Action>, a: Action, k: nat) {
    k <= |log| && forall i :: |log| - k <= i < |log| ==> log[i] == a
  }

  /** Nothing is left to retry for the last action. */
  predicate Settled(s: System) {
    s.log == [] || Last(s.log).ok || Last(s.log).PlayerPause?
    || Last(s.log).generation < s.manager.generation || GaveUp(s.log)
  }

  /** The log ends in the failures of all earlier attempts. */
  predicate FailedBefore(log: seq<Action>, w: Worker)
    requires Busy(w) && w.attempt > 1
  {
    Repeated(log, ActionOf(w.command, false), w.attempt - 1)
  }

  predicate RetryInv(s: System) {
    && (Busy(s.worker) ==>
          && 1 <= s.worker.attempt <= ATTEMPTS
          && (s.worker.attempt > 1 ==> s.worker.command.Play? && FailedBefore(s.log, s.worker)))
    && ((Busy(s.worker) && s.worker.attempt > 1) || Settled(s))
  }

  lemma GenerationGrows(s: System, step: Step)
    requires CallerStep(step)
    ensures Do(s, step).manager.generation >= s.manager.generation
  {
  }

  lemma RetryStep(s: System, step: Step, owners: Owners)
    requires Enabled(s, step) && OrderInv(s, owners) && RetryInv(s)
    ensures RetryInv(Do(s, step))
  {
    hide InOrder, Acquire, Release, Touch;
    var t := Do(s, step);
    if CallerStep(step) {
      GenerationGrows(s, step);
    } else if step.ActStep? {
      var a := ActionOf(s.worker.command, step.ok);
      assert Last(t.log) == a;
      assert forall i :: 0 <= i < |s.log| ==> t.log[i] == s.log[i];
    }
  }

  // ----- all of it on runs -----

  ghost predicate Inv(s: System, owners: Owners, url: string -> string) {
    OrderInv(s, owners) && UrlInv(s, url) && ProgressInv(s) && RetryInv(s)
  }

  lemma InvStep(s: System, step: Step, owners: Owners, url: string -> string) returns (after: Owners)
    requires Enabled(s, step) && Inv(s, owners, url)
    requires step.ActivateStep? ==> step.req.streamURL == url(step.req.id)
    ensures Inv(Do(s, step), after, url)
  {
    hide OrderInv, UrlInv, ProgressInv, RetryInv, Do, Enabled;
    after := OrderStep(s, step, owners);
    UrlStep(s, step, url);
    RetryStep(s, step, owners);
    if CallerStep(step) {
      CallerProgress(s, step);
    } else if step.EnqueueStep? || step.AbandonStep? || step.TakeStep? {
      QueueProgress(s, step);
    } else {
      WorkerProgress(s, step, owners);
    }
  }

  lemma {:induction false} InvOnRuns(states: seq<System>, steps: seq<Step>, url: string -> string, i: nat)
    returns (owners: Owners)
    requires IsRun(states, steps) && FixedUrls(steps, url) && i < |states|
    ensures Inv(states[i], owners, url)
  {
    if i == 0 {
      owners := map[0 := None];
    } else {
      var before := InvOnRuns(states, steps, url, i - 1);
      owners := InvStep(states[i - 1], steps[i - 1], before, url);
    }
  }

  /** No caller is between its manager step and its enqueue, and the worker has nothing to do. */
  predicate Quiescent(s: System) {
    s.pending == multiset{} && s.queue == [] && s.worker == Waiting
  }

  /** The action that puts the speaker where the manager wants it. */
  predicate Matches(a: Action, m: State) {
    match m.active
    case Some(session) => a.PlayByMusicURL? && a.sessionID == session.id && a.streamURL == session.streamURL
    case None => a.PlayerPause?
  }

  /** Convergence: at quiescence before Close the last action issued is, at the current
      generation, Play of the active session's URL, or Pause when nobody is active. It succeeded,
      or was a pause, or is the third failure of that play. */
  lemma Converges(states: seq<System>, steps: seq<Step>, url: string -> string, i: nat)
    requires IsRun(states, steps) && FixedUrls(steps, url) && i < |states|
    requires Quiescent(states[i]) && states[i].connected && !states[i].closed && states[i].manager.generation > 0
    ensures var s := states[i];
      && s.log != [] && Last(s.log).generation == s.manager.generation && Matches(Last(s.log), s.manager)
      && (Last(s.log).ok || Last(s.log).PlayerPause? || GaveUp(s.log))
  {
    var owners := InvOnRuns(states, steps, url, i);
    LastMatches(states[i], owners, url);
  }

  lemma LastMatches(s: System, owners: Owners, url: string -> string)
    requires Inv(s, owners, url)
    requires Quiescent(s) && s.connected && !s.closed && s.manager.generation > 0
    ensures s.log != [] && Last(s.log).generation == s.manager.generation && Matches(Last(s.log), s.manager)
    ensures Last(s.log).ok || Last(s.log).PlayerPause? || GaveUp(s.log)
  {
    assert LastIs(s, s.manager.generation);
    assert Last(s.log) in s.log;
  }

  /** What the speaker is doing: the last action that succeeded. */
  function Effective(log: seq<Action>): (r: Option<Action>)
    ensures r.None? ==> forall i :: 0 <= i < |log| ==> !log[i].ok
  {
    if log == [] then None
    else if Last(log).ok then Some(Last(log))
    else Effective(log[..|log| - 1])
  }

  lemma {:induction false} EffectiveIsLatest(log: seq<Action>, k: nat)
    requires k < |log| && log[k].ok && InOrder(log)
    ensures Effective(log).Some? && Effective(log).value in log && Effective(log).value.ok
    ensures Effective(log).value.generation >= log[k].generation
  {
    if !Last(log).ok {
      EffectiveIsLatest(log[..|log| - 1], k);
    }
  }

  /** So once one action of the current generation has succeeded, the speaker plays the active
      session's URL, or is paused when nobody is active, whatever commands came late or failed. */
  lemma SpeakerConverges(states: seq<System>, steps: seq<Step>, url: string -> string, i: nat, k: nat)
    requires IsRun(states, steps) && FixedUrls(steps, url) && i < |states|
    requires k < |states[i].log| && states[i].log[k].ok && states[i].log[k].generation == states[i].manager.generation
    ensures Effective(states[i].log).Some? && Matches(Effective(states[i].log).value, states[i].manager)
  {
    var owners := InvOnRuns(states, steps, url, i);
    EffectiveMatches(states[i], owners, url, k);
  }

  lemma EffectiveMatches(s: System, owners: Owners, url: string -> string, k: nat)
    requires Inv(s, owners, url)
    requires k < |s.log| && s.log[k].ok && s.log[k].generation == s.manager.generation
    ensures Effective(s.log).Some? && Matches(Effective(s.log).value, s.manager)
  {
    EffectiveIsLatest(s.log, k);
    var a := Effective(s.log).value;
    assert Logged(a, owners);
  }

  // ----- quiescence is reached -----

  /** Steps nobody outside has to take. */
  predicate Internal(step: Step) {
    step.EnqueueStep? || step.TakeStep? || step.CheckStep? || step.ActStep?
  }

  /** An upper bound on the internal steps still possible. */
  function Work(s: System): int {
    var worker := match s.worker
      case Checking(_, attempt) => 2 * (ATTEMPTS - attempt) + 2
      case Acting(_, attempt) => 2 * (ATTEMPTS - attempt) + 1
      case _ => 0;
    9 * |s.pending| + 8 * |s.queue| + worker
  }

  lemma WorkDecreases(s: System, step: Step)
    requires Enabled(s, step) && Internal(step) && RetryInv(s)
    ensures 0 <= Work(Do(s, step)) < Work(s)
  {
  }

  lemma {:induction false} StoppedOnlyAfterClose(states: seq<System>, steps: seq<Step>, i: nat)
    requires IsRun(states, steps) && i < |states|
    ensures states[i].worker.Stopped? ==> states[i].closed
  {
    if i > 0 {
      StoppedOnlyAfterClose(states, steps, i - 1);
      assert states[i] == Do(states[i - 1], steps[i - 1]);
    }
  }

  lemma {:induction false} RetryOnRuns(states: seq<System>, steps: seq<Step>, i: nat)
    requires IsRun(states, steps) && i < |states|
    ensures RetryInv(states[i])
  {
    if i > 0 {
      RetryOnRuns(states, steps, i - 1);
      var owners := OrderOnRuns(states, steps, i - 1);
      RetryStep(states[i - 1], steps[i - 1], owners);
    }
  }

  /** When the callers stop, the system drains: a stretch of internal steps is no longer than the
      work at its start, and as long as the system is open and not quiescent one is enabled. */
  lemma {:induction false} Drains(states: seq<System>, steps: seq<Step>, i: nat, j: nat)
    requires IsRun(states, steps) && i <= j < |states|
    requires forall m :: i <= m < j ==> Internal(steps[m])
    ensures j - i + Work(states[j]) <= Work(states[i]) && Work(states[j]) >= 0
    ensures !states[j].closed && !Quiescent(states[j]) ==> exists step :: Internal(step) && Enabled(states[j], step)
    decreases j
  {
    hide RetryInv, Work, Do, Enabled, OrderInv;
    var s := states[j];
    RetryOnRuns(states, steps, j);
    WorkNonNegative(s);
    if i < j {
      Drains(states, steps, i, j - 1);
      RetryOnRuns(states, steps, j - 1);
      WorkDecreases(states[j - 1], steps[j - 1]);
    }
    StoppedOnlyAfterClose(states, steps, j);
    if !s.closed && !Quiescent(s) {
      var step := NextInternal(s);
    }
  }

  lemma WorkNonNegative(s: System)
    requires RetryInv(s)
    ensures Work(s) >= 0
  {
  }

  lemma NextInternal(s: System) returns (step: Step)
    requires !s.worker.Stopped? && !Quiescent(s)
    ensures Internal(step) && Enabled(s, step)
  {
    if s.worker.Checking? {
      step := CheckStep;
    } else if s.worker.Acting? {
      step := ActStep(true);
    } else if s.queue != [] {
      step := TakeStep;
    } else {
      var c :| c in s.pending;
      step := EnqueueStep(c);
    }
  }

  // ----- the queue -----

  /** The commands put into the queue so far. */
  function Enqueued(steps: seq<Step>): seq<Command> {
    if steps == [] then [] else
    var before, last := Enqueued(steps[..|steps| - 1]), steps[|steps| - 1];
    if last.EnqueueStep? then before + [last.command] else before
  }

  /** The commands the worker has started on so far, as it then holds them. */
  function Started(states: seq<System>, steps: seq<Step>, i: nat): seq<Command>
    requires i <= |steps| && i < |states|
  {
    if i == 0 then [] else
    var before := Started(states, steps, i - 1);
    if steps[i - 1].TakeStep? && Busy(states[i].worker) then before + [states[i].worker.command] else before
  }

  /** What a step does to queue, worker and log. */
  lemma QueueStep(s: System, step: Step)
    requires Enabled(s, step)
    ensures var t := Do(s, step);
      && t.connected == s.connected
      && t.queue == (if step.EnqueueStep? then s.queue + [step.command]
                     else if step.TakeStep? then s.queue[1..] else s.queue)
      && (step.EnqueueStep? ==> |s.queue| < 32)
      && (step.TakeStep? ==> s.queue != [] && !Busy(s.worker)
                             && t.worker == if s.connected then Checking(s.queue[0], 1) else Waiting)
  {
    hide Acquire, Release, Touch, StillValid;
  }

  lemma WorkerStep(s: System, step: Step)
    requires Enabled(s, step) && !step.TakeStep?
    ensures var t := Do(s, step);
      if step.ActStep? then
        && Busy(s.worker) && |t.log| == |s.log| + 1
        && (Busy(t.worker) ==> s.worker.command.Play? && s.worker.attempt < 3
                               && t.worker == Checking(s.worker.command, s.worker.attempt + 1))
      else
        && t.log == s.log
        && (Busy(t.worker) ==> Busy(s.worker) && t.worker.command == s.worker.command
                               && t.worker.attempt == s.worker.attempt)
  {
    hide Acquire, Release, Touch, StillValid;
  }

  /** First in, first out: the worker starts on every command once, in the order they were
      enqueued, and the queue, which never holds more than 32, is what it has not started on. */
  lemma {:induction false} FirstInFirstOut(states: seq<System>, steps: seq<Step>, i: nat)
    requires IsRun(states, steps) && i < |states|
    ensures states[i].connected == states[0].connected && |states[i].queue| <= 32
    ensures states[0].connected ==> Started(states, steps, i) + states[i].queue == Enqueued(steps[..i])
  {
    hide Do, Enabled;
    if i > 0 {
      FirstInFirstOut(states, steps, i - 1);
      QueueStep(states[i - 1], steps[i - 1]);
      assert steps[..i][..i - 1] == steps[..i - 1];
    }
  }

  /** No command leads to more than three speaker calls, and a pause to no more than one. */
  lemma {:induction false} CallsPerCommand(states: seq<System>, steps: seq<Step>, i: nat)
    requires IsRun(states, steps) && i < |states|
    ensures var s := states[i];
      if Busy(s.worker) then
        && |Started(states, steps, i)| >= 1 && 1 <= s.worker.attempt <= (if s.worker.command.Play? then 3 else 1)
        && |s.log| <= 3 * (|Started(states, steps, i)| - 1) + s.worker.attempt - 1
      else |s.log| <= 3 * |Started(states, steps, i)|
    ensures !states[0].connected ==> states[i].log == [] && !Busy(states[i].worker)
  {
    hide Do, Enabled;
    if i > 0 {
      CallsPerCommand(states, steps, i - 1);
      FirstInFirstOut(states, steps, i - 1);
      if steps[i - 1].TakeStep? {
        QueueStep(states[i - 1], steps[i - 1]);
        TakeKeepsLog(states[i - 1]);
      } else {
        WorkerStep(states[i - 1], steps[i - 1]);
      }
    }
  }

  lemma TakeKeepsLog(s: System)
    requires Enabled(s, TakeStep)
    ensures Do(s, TakeStep).log == s.log
  {
  }

  // ----- no stale call -----

  /** At step k the worker asked the manager, whose generation and owner then were the command's. */
  predicate AskedAt(states: seq<System>, steps: seq<Step>, k: nat, c: Command)
    requires k < |steps| && k < |states|
  {
    && steps[k].CheckStep? && states[k].manager.generation == c.generation
    && CurrentOwner(states[k].manager) == c.Owner()
  }

  /** Whenever the worker is about to call the speaker, retries included, it has asked the manager
      since the call before, and the command was then that of the current generation and owner. */
  lemma {:induction false} AskedBeforeCall(states: seq<System>, steps: seq<Step>, i: nat)
    requires IsRun(states, steps) && i < |states| && states[i].worker.Acting?
    ensures exists k :: 0 <= k < i && AskedAt(states, steps, k, states[i].worker.command)
                        && forall m :: k < m < i ==> !steps[m].ActStep?
  {
    hide AskedAt;
    if i > 0 {
      var s, step := states[i - 1], steps[i - 1];
      ActingStep(s, step);
      if step.CheckStep? {
        assert AskedAt(states, steps, i - 1, states[i].worker.command) by { AnsweredYes(states, steps, i - 1); }
      } else {
        AskedBeforeCall(states, steps, i - 1);
        var k :| 0 <= k < i - 1 && AskedAt(states, steps, k, s.worker.command)
          && forall m :: k < m < i - 1 ==> !steps[m].ActStep?;
        assert AskedAt(states, steps, k, states[i].worker.command);
      }
    }
  }

  lemma ActingStep(s: System, step: Step)
    requires Enabled(s, step) && Do(s, step).worker.Acting?
    ensures step.CheckStep? || (!step.ActStep? && s.worker == Do(s, step).worker)
  {
    hide Acquire, Release, Touch, StillValid;
  }

  lemma AnsweredYes(states: seq<System>, steps: seq<Step>, k: nat)
    requires IsRun(states, steps) && k < |steps| && steps[k].CheckStep? && states[k + 1].worker.Acting?
    ensures AskedAt(states, steps, k, states[k + 1].worker.command)
  {
    assert Enabled(states[k], steps[k]) && states[k + 1] == Do(states[k], steps[k]);
  }
}
