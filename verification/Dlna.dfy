/** The DLNA renderer as a client of the manager. SOAP transport actions run one at a time, each a
    sequence of sections; Cancel callbacks of preempted sessions, and everything other protocols
    do, may come between any two of them. */
module Dlna {
  import opened Ownership
  import R = Renderer

  /** A call of `cancelMedia(id, true)`: before its locked part, or before OnSessionStop. */
  datatype Task = Enter(id: string) | Notify(id: string)

  /** What is left of the SOAP action in progress. SetAVTransportURI, Pause and Stop all cancel the
      active session first and then store; Play goes through creation, Activate and commit. */
  datatype Soap =
    | Ready
    | ReadActive(store: Store)
    | Cancelling(task: Task, store: Store)
    | Storing(store: Store)
    | ReadURI
    | Create(uri: string)
    | Activate(id: string)
    | CancelReplaced(task: Task, id: string)
    | CommitPlay(id: string, granted: bool)
    | AbortPlay(id: string)
    | TouchPlayed(id: string)

  datatype Store = URI(uri: string, metadata: string) | Halt(paused: bool)

  /** `cancels` holds the Cancel callbacks other protocols' activations are running. */
  datatype System = System(manager: State, renderer: R.State, soap: Soap, cancels: multiset<Task>)

  datatype Step =
    | SetAVTransportURI(uri: string, metadata: string)
    | Play
    | PauseOrStop(paused: bool)
    | SoapStep(request: Request, now: int)
    | CancelStep(task: Task)
    | OtherActivate(req: Request, now: int)
    | OtherDeactivate(id: string)
    | AnyTouch(id: string, now: int)

  /** Session ids of other protocols; AirPlay's start with an `a`. */
  predicate Foreign(id: string) {
    id == "" || id[0] != 'd'
  }

  /** The request Play makes for its new session. */
  predicate IsPlayRequest(req: Request, id: string) {
    req.id == id && req.protocol == DLNA && req.cancel == CancelMedia(id)
  }

  predicate Enabled(s: System, step: Step) {
    match step
    case SetAVTransportURI(_, _) => s.soap.Ready?
    case Play => s.soap.Ready?
    case PauseOrStop(_) => s.soap.Ready?
    case SoapStep(req, _) => !s.soap.Ready? && (s.soap.Activate? ==> IsPlayRequest(req, s.soap.id))
    case CancelStep(task) => task in s.cancels
    case OtherActivate(req, _) => Foreign(req.id) && !req.cancel.CancelMedia?
    case OtherDeactivate(id) => Foreign(id)
    case AnyTouch(_, _) => true
  }

  /** One section of `cancelMedia(id, true)`: the state after it and what is left to do. */
  function RunTask(s: System, task: Task): (System, Option<Task>) {
    match task
    case Enter(id) =>
      var (r, wasActive) := R.CancelMedia(s.renderer, id);
      (s.(renderer := r), if wasActive then Some(Notify(id)) else None)
    case Notify(id) =>
      (s.(manager := Release(s.manager, id).0), None)
  }

  function RunSoap(s: System, req: Request, now: int): System {
    match s.soap
    case Ready => s
    case ReadActive(store) =>
      var active := s.renderer.activeSession;
      s.(soap := if active != "" then Cancelling(Enter(active), store) else Storing(store))
    case Cancelling(task, store) =>
      var (t, rest) := RunTask(s, task);
      t.(soap := if rest.Some? then Cancelling(rest.value, store) else Storing(store))
    case Storing(URI(uri, metadata)) => s.(renderer := R.StoreURI(s.renderer, uri, metadata), soap := Ready)
    case Storing(Halt(paused)) => s.(renderer := R.StoreHalt(s.renderer, paused), soap := Ready)
    case ReadURI =>
      var uri := s.renderer.currentURI;
      s.(soap := if uri == "" then Ready else Create(uri))
    case Create(uri) =>
      var (r, id) := R.NewMedia(s.renderer, uri);
      s.(renderer := r, soap := Activate(id))
    case Activate(id) =>
      var (m, d) := Acquire(s.manager, req, now);
      s.(manager := m,
         soap := if d.replaced.Some? && d.replaced.value.cancel.CancelMedia?
                 then CancelReplaced(Enter(d.replaced.value.cancel.id), id)
                 else CommitPlay(id, d.granted))
    case CancelReplaced(task, id) =>
      var (t, rest) := RunTask(s, task);
      t.(soap := if rest.Some? then CancelReplaced(rest.value, id) else CommitPlay(id, true))
    case CommitPlay(id, granted) =>
      var (r, committed) := R.Commit(s.renderer, id, granted);
      s.(renderer := r, soap := if committed then TouchPlayed(id) else AbortPlay(id))
    case AbortPlay(id) =>
      s.(renderer := R.CancelMedia(s.renderer, id).0, soap := Ready)
    case TouchPlayed(id) =>
      s.(manager := Touch(s.manager, id, now).0, soap := Ready)
  }

  function Do(s: System, step: Step): System
    requires Enabled(s, step)
  {
    match step
    case SetAVTransportURI(uri, metadata) => s.(soap := ReadActive(URI(uri, metadata)))
    case Play => s.(soap := ReadURI)
    case PauseOrStop(paused) => s.(soap := ReadActive(Halt(paused)))
    case SoapStep(req, now) => RunSoap(s, req, now)
    case CancelStep(task) =>
      var (t, rest) := RunTask(s, task);
      t.(cancels := s.cancels - multiset{task} + (if rest.Some? then multiset{rest.value} else multiset{}))
    case OtherActivate(req, now) =>
      var (m, d) := Acquire(s.manager, req, now);
      s.(manager := m,
         cancels := if d.replaced.Some? && d.replaced.value.cancel.CancelMedia?
                    then s.cancels + multiset{Enter(d.replaced.value.cancel.id)} else s.cancels)
    case OtherDeactivate(id) => s.(manager := Release(s.manager, id).0)
    case AnyTouch(id, now) => s.(manager := Touch(s.manager, id, now).0)
  }

  ghost predicate Initial(s: System) {
    && s.manager.generation == 0 && s.manager.active.None?
    && s.renderer == R.INITIAL && s.soap == Ready && s.cancels == multiset{}
  }

  ghost predicate IsRun(states: seq<System>, steps: seq<Step>) {
    && |states| == |steps| + 1 && Initial(states[0])
    && forall i :: 0 <= i < |steps| ==> Enabled(states[i], steps[i]) && states[i + 1] == Do(states[i], steps[i])
  }

  // ----- the invariant -----

  /** The media session Play is working on, from its creation to the end of the action. */
  function InPlay(soap: Soap): Option<string> {
    match soap
    case Activate(id) => Some(id)
    case CancelReplaced(_, id) => Some(id)
    case CommitPlay(id, _) => Some(id)
    case AbortPlay(id) => Some(id)
    case _ => None
  }

  /** Play's Acquire was granted and its commit has not come yet. */
  predicate Granted(soap: Soap, id: string) {
    (soap.CancelReplaced? && soap.id == id) || soap == CommitPlay(id, true)
  }

  ghost predicate Issued(nextID: nat, id: string) {
    exists n: nat :: 1 <= n <= nextID && id == R.MediaId(n)
  }

  lemma IssuedFacts(nextID: nat)
    ensures forall id :: Issued(nextID, id) ==> !Foreign(id) && Issued(nextID + 1, id)
    ensures Issued(nextID + 1, R.MediaId(nextID + 1)) && !Issued(nextID, R.MediaId(nextID + 1))
  {
    if n: nat :| 1 <= n <= nextID && R.MediaId(nextID + 1) == R.MediaId(n) {
      R.MediaIdInjective(nextID + 1, n);
    }
  }

  /** A preempted session whose callback has not been through the renderer yet. */
  predicate CancelComing(s: System, id: string) {
    Enter(id) in s.cancels || (s.soap.CancelReplaced? && s.soap.task == Enter(id))
  }

  /** The renderer by itself: PLAYING exactly with an active session, which is a media session; any
      other media session is Play's or about to be cancelled; nothing is active when Pause, Stop
      or SetAVTransportURI come to store. */
  ghost predicate RendererInv(s: System) {
    && (s.renderer.transportState == R.Playing <==> s.renderer.activeSession != "")
    && (s.renderer.activeSession != "" ==> s.renderer.activeSession in s.renderer.media)
    && (forall id :: id in s.renderer.media ==> Issued(s.renderer.nextID, id))
    && (forall id :: id in s.renderer.media ==>
          id == s.renderer.activeSession || InPlay(s.soap) == Some(id) || CancelComing(s, id))
    && (s.soap.Storing? || (s.soap.Cancelling? && s.soap.task.Notify?) ==> s.renderer.activeSession == "")
    && (s.soap.Cancelling? && s.soap.task.Enter? && s.renderer.activeSession != "" ==>
          s.renderer.activeSession == s.soap.task.id)
  }

  /** Out of the renderer for good. */
  ghost predicate Gone(s: System, id: string) {
    s.renderer.activeSession != id && id !in s.renderer.media && InPlay(s.soap) != Some(id)
  }

  /** A callback is about a session that was preempted, and by the time of OnSessionStop the
      session is out of the renderer. */
  ghost predicate CallbackInv(s: System, task: Task) {
    Issued(s.renderer.nextID, task.id) && !Owns(s.manager, task.id) && (task.Notify? ==> Gone(s, task.id))
  }

  ghost predicate TasksInv(s: System) {
    && (forall t :: t in s.cancels ==> CallbackInv(s, t))
    && (s.soap.CancelReplaced? ==> CallbackInv(s, s.soap.task) && s.soap.task.id != s.soap.id)
    && (s.soap.Cancelling? ==> Issued(s.renderer.nextID, s.soap.task.id))
    && (s.soap.Cancelling? && s.soap.task.Notify? ==> s.soap.task.id !in s.renderer.media)
  }

  /** Play in progress. */
  ghost predicate PlayInv(s: System) {
    && (InPlay(s.soap).Some? ==>
          && s.renderer.activeSession != InPlay(s.soap).value
          && Issued(s.renderer.nextID, InPlay(s.soap).value))
    && (s.soap.Activate? ==> s.soap.id in s.renderer.media && !Owns(s.manager, s.soap.id)
                             && forall t :: t in s.cancels ==> t.id != s.soap.id)
    && (InPlay(s.soap).Some? && Granted(s.soap, InPlay(s.soap).value) ==> GrantedInv(s, InPlay(s.soap).value))
    && (s.soap.AbortPlay? || (s.soap.CommitPlay? && !s.soap.granted) ==> !Owns(s.manager, s.soap.id))
  }

  /** After its Acquire was granted the new session is in the renderer unless it was preempted. */
  ghost predicate GrantedInv(s: System, id: string) {
    && (if Owns(s.manager, id) then id in s.renderer.media else Enter(id) in s.cancels || id !in s.renderer.media)
    && (s.manager.active.Some? ==> Foreign(s.manager.active.value.id) || Owns(s.manager, id))
  }

  /** A DLNA owner is the active session, the one Play is about to commit, or the one a Stop is
      about to release; an active session is the owner or about to be cancelled. */
  ghost predicate OwnerInv(s: System) {
    && (s.manager.active.Some? ==>
          var x := s.manager.active.value;
          if Foreign(x.id) then !x.cancel.CancelMedia? else
            && x.cancel == CancelMedia(x.id) && Issued(s.renderer.nextID, x.id)
            && (s.renderer.activeSession == x.id || Granted(s.soap, x.id)
                || (s.soap.Cancelling? && s.soap.task == Notify(x.id))))
    && (s.renderer.activeSession != "" ==>
          Owns(s.manager, s.renderer.activeSession) || CancelComing(s, s.renderer.activeSession))
  }

  ghost predicate Inv(s: System) {
    RendererInv(s) && TasksInv(s) && PlayInv(s) && OwnerInv(s)
  }

  // ----- it is kept -----

  lemma StartKeepsInv(s: System, step: Step)
    requires Inv(s) && Enabled(s, step) && (step.SetAVTransportURI? || step.Play? || step.PauseOrStop?)
    ensures Inv(Do(s, step))
  {
    hide Issued, Owns;
  }

  /** A touch leaves the owner. */
  lemma TouchKeepsInv(s: System, step: Step)
    requires Inv(s) && Enabled(s, step) && step.AnyTouch?
    ensures Inv(Do(s, step))
  {
    hide Issued, Foreign;
  }

  /** A foreign release takes at most a foreign owner away. */
  lemma OtherDeactivateKeepsInv(s: System, step: Step)
    requires Inv(s) && Enabled(s, step) && step.OtherDeactivate?
    ensures Inv(Do(s, step))
  {
    hide Issued;
    IssuedFacts(s.renderer.nextID);
    var t := Do(s, step);
    assert forall id :: Owns(t.manager, id) ==> Owns(s.manager, id);
    assert forall id :: !Foreign(id) && Owns(s.manager, id) ==> Owns(t.manager, id);
  }

  /** What another protocol's activation changes: the owner stays the same session, or a foreign
      one takes over and a DLNA owner's callback is set going. */
  ghost predicate OtherEffect(s: System, t: System) {
    && t.renderer == s.renderer && t.soap == s.soap
    && if t.manager.active.Some? && Foreign(t.manager.active.value.id)
       then !t.manager.active.value.cancel.CancelMedia?
            && (if s.manager.active.Some? && !Foreign(s.manager.active.value.id)
                then t.cancels == s.cancels + multiset{Enter(s.manager.active.value.id)} else t.cancels == s.cancels)
       else t.manager.active == s.manager.active && t.cancels == s.cancels
  }

  lemma OtherActivateEffect(s: System, step: Step)
    requires OwnerInv(s) && Enabled(s, step) && step.OtherActivate?
    ensures OtherEffect(s, Do(s, step))
  {
    hide CanReplace, Issued;
  }

  lemma OtherKeepsTasks(s: System, t: System)
    requires Inv(s) && OtherEffect(s, t)
    ensures TasksInv(t) && RendererInv(t)
  {
    hide Issued, PlayInv;
    IssuedFacts(s.renderer.nextID);
    assert forall c :: c in s.cancels ==> c in t.cancels;
    forall c | c in t.cancels ensures CallbackInv(t, c) {
      if c !in s.cancels {
        assert c == Enter(s.manager.active.value.id);
      }
    }
  }

  lemma OtherKeepsPlay(s: System, t: System)
    requires Inv(s) && OtherEffect(s, t)
    ensures PlayInv(t) && OwnerInv(t)
  {
    hide Issued, TasksInv;
    IssuedFacts(s.renderer.nextID);
    assert forall c :: c in s.cancels ==> c in t.cancels;
    assert forall c :: c in t.cancels ==>
      c in s.cancels || (s.manager.active.Some? && c == Enter(s.manager.active.value.id));
    assert forall id :: !Foreign(id) && Owns(s.manager, id) ==> Owns(t.manager, id) || Enter(id) in t.cancels;
  }

  lemma OtherActivateKeepsInv(s: System, step: Step)
    requires Inv(s) && Enabled(s, step) && step.OtherActivate?
    ensures Inv(Do(s, step))
  {
    hide OtherEffect, Do, Enabled, RendererInv, TasksInv, PlayInv, OwnerInv;
    OtherActivateEffect(s, step);
    OtherKeepsTasks(s, Do(s, step));
    OtherKeepsPlay(s, Do(s, step));
  }

  /** The last section of a callback: the release is void, since the session was preempted. */
  lemma NotifyKeepsInv(s: System, step: Step)
    requires Inv(s) && Enabled(s, step) && step.CancelStep? && step.task.Notify?
    ensures Inv(Do(s, step))
  {
    hide Issued;
    var t := Do(s, step);
    assert CallbackInv(s, step.task);
    assert t.manager == s.manager;
    assert forall c :: c in t.cancels ==> c in s.cancels;
    assert forall c :: c in s.cancels && c.Enter? ==> c in t.cancels;
  }

  /** The locked section of a callback: the session leaves the renderer, and if it was the active
      one its OnSessionStop is still to come. */
  ghost predicate EnterEffect(s: System, t: System, id: string) {
    && t.manager == s.manager && t.soap == s.soap && Enter(id) in s.cancels
    && t.renderer == R.CancelMedia(s.renderer, id).0
    && (forall c :: c in t.cancels ==> c in s.cancels || (s.renderer.activeSession == id && c == Notify(id)))
    && (forall c :: c in s.cancels && c != Enter(id) ==> c in t.cancels)
  }

  lemma EnterKeepsRenderer(s: System, t: System, id: string)
    requires Inv(s) && CallbackInv(s, Enter(id)) && EnterEffect(s, t, id)
    ensures RendererInv(t)
  {
    hide Issued, OwnerInv, PlayInv, Foreign;
  }

  lemma EnterKeepsTasks(s: System, t: System, id: string)
    requires Inv(s) && CallbackInv(s, Enter(id)) && EnterEffect(s, t, id)
    ensures TasksInv(t)
  {
    hide Issued, OwnerInv, RendererInv;
    IssuedFacts(s.renderer.nextID);
  }

  lemma EnterKeepsPlay(s: System, t: System, id: string)
    requires Inv(s) && CallbackInv(s, Enter(id)) && EnterEffect(s, t, id)
    ensures PlayInv(t)
  {
    hide Issued, RendererInv, OwnerInv, TasksInv;
    IssuedFacts(s.renderer.nextID);
  }

  lemma EnterKeepsOwner(s: System, t: System, id: string)
    requires Inv(s) && CallbackInv(s, Enter(id)) && EnterEffect(s, t, id)
    ensures OwnerInv(t)
  {
    hide Issued, RendererInv, PlayInv, TasksInv;
    IssuedFacts(s.renderer.nextID);
  }

  lemma CancelKeepsInv(s: System, step: Step)
    requires Inv(s) && Enabled(s, step) && step.CancelStep?
    ensures Inv(Do(s, step))
  {
    if step.task.Notify? {
      NotifyKeepsInv(s, step);
    } else {
      var t, id := Do(s, step), step.task.id;
      assert CallbackInv(s, step.task) && EnterEffect(s, t, id) by {
        hide RendererInv, PlayInv, OwnerInv, CallbackInv;
      }
      hide Do, Enabled, RendererInv, TasksInv, PlayInv, OwnerInv, EnterEffect, CallbackInv;
      EnterKeepsRenderer(s, t, id);
      EnterKeepsTasks(s, t, id);
      EnterKeepsPlay(s, t, id);
      EnterKeepsOwner(s, t, id);
    }
  }

  lemma SoapCancelKeepsInv(s: System, step: Step)
    requires Inv(s) && Enabled(s, step) && step.SoapStep? && s.soap.Cancelling?
    ensures Inv(Do(s, step))
  {
    hide Issued;
    IssuedFacts(s.renderer.nextID);
  }

  lemma SoapStoreKeepsInv(s: System, step: Step)
    requires Inv(s) && Enabled(s, step) && step.SoapStep?
    requires s.soap.ReadActive? || s.soap.Storing? || s.soap.ReadURI?
    ensures Inv(Do(s, step))
  {
    hide Issued, Owns, Foreign;
  }

  lemma SoapTouchKeepsInv(s: System, step: Step)
    requires Inv(s) && Enabled(s, step) && step.SoapStep? && s.soap.TouchPlayed?
    ensures Inv(Do(s, step))
  {
    hide Issued, Foreign;
  }

  lemma SoapCreateKeepsInv(s: System, step: Step)
    requires Inv(s) && Enabled(s, step) && step.SoapStep? && s.soap.Create?
    ensures Inv(Do(s, step))
  {
    hide Issued;
    IssuedFacts(s.renderer.nextID);
  }

  /** What Play's Acquire changes: nothing when refused; otherwise the new session owns the
      speaker, and Play goes on to cancel a DLNA session it replaced. */
  ghost predicate ActivateEffect(s: System, t: System, id: string) {
    && t.renderer == s.renderer && t.cancels == s.cancels
    && if t.soap == CommitPlay(id, false) then t.manager == s.manager else
       && t.manager.active.Some? && t.manager.active.value.id == id && t.manager.active.value.cancel == CancelMedia(id)
       && t.soap == if s.manager.active.Some? && !Foreign(s.manager.active.value.id)
                    then CancelReplaced(Enter(s.manager.active.value.id), id) else CommitPlay(id, true)
  }

  lemma SoapActivateEffect(s: System, step: Step)
    requires Inv(s) && Enabled(s, step) && step.SoapStep? && s.soap.Activate?
    ensures ActivateEffect(s, Do(s, step), s.soap.id)
  {
    hide CanReplace, Issued, RendererInv, TasksInv;
    IssuedFacts(s.renderer.nextID);
  }

  lemma SoapActivateKeepsInv(s: System, t: System)
    requires Inv(s) && s.soap.Activate? && ActivateEffect(s, t, s.soap.id)
    ensures Inv(t)
  {
    hide Issued;
    IssuedFacts(s.renderer.nextID);
  }

  lemma SoapReplacedKeepsInv(s: System, step: Step)
    requires Inv(s) && Enabled(s, step) && step.SoapStep? && s.soap.CancelReplaced? && s.soap.task.Enter?
    ensures Inv(Do(s, step))
  {
    hide Issued;
    IssuedFacts(s.renderer.nextID);
  }

  lemma SoapNotifiedKeepsInv(s: System, step: Step)
    requires Inv(s) && Enabled(s, step) && step.SoapStep? && s.soap.CancelReplaced? && s.soap.task.Notify?
    ensures Inv(Do(s, step))
  {
    hide Issued, Foreign;
    assert Do(s, step).manager == s.manager;
  }

  lemma SoapCommitKeepsInv(s: System, step: Step)
    requires Inv(s) && Enabled(s, step) && step.SoapStep? && s.soap.CommitPlay?
    ensures Inv(Do(s, step))
  {
    hide Issued;
    IssuedFacts(s.renderer.nextID);
  }

  lemma SoapAbortKeepsInv(s: System, step: Step)
    requires Inv(s) && Enabled(s, step) && step.SoapStep? && s.soap.AbortPlay?
    ensures Inv(Do(s, step))
  {
    hide Issued, Foreign;
  }

  lemma SoapKeepsInv(s: System, step: Step)
    requires Inv(s) && Enabled(s, step) && step.SoapStep?
    ensures Inv(Do(s, step))
  {
    hide Inv, Do, ActivateEffect;
    match s.soap
    case Cancelling(_, _) => SoapCancelKeepsInv(s, step);
    case Create(_) => SoapCreateKeepsInv(s, step);
    case Activate(_) =>
      SoapActivateEffect(s, step);
      SoapActivateKeepsInv(s, Do(s, step));
    case CancelReplaced(Enter(_), _) => SoapReplacedKeepsInv(s, step);
    case CancelReplaced(Notify(_), _) => SoapNotifiedKeepsInv(s, step);
    case CommitPlay(_, _) => SoapCommitKeepsInv(s, step);
    case AbortPlay(_) => SoapAbortKeepsInv(s, step);
    case TouchPlayed(_) => SoapTouchKeepsInv(s, step);
    case _ => SoapStoreKeepsInv(s, step);
  }

  lemma StepKeepsInv(s: System, step: Step)
    requires Inv(s) && Enabled(s, step)
    ensures Inv(Do(s, step))
  {
    hide Inv, Do, Enabled;
    match step
    case SoapStep(_, _) => SoapKeepsInv(s, step);
    case CancelStep(_) => CancelKeepsInv(s, step);
    case OtherActivate(_, _) => OtherActivateKeepsInv(s, step);
    case OtherDeactivate(_) => OtherDeactivateKeepsInv(s, step);
    case AnyTouch(_, _) => TouchKeepsInv(s, step);
    case _ => StartKeepsInv(s, step);
  }

  lemma {:induction false} InvOnRuns(states: seq<System>, steps: seq<Step>, i: nat)
    requires IsRun(states, steps) && i < |states|
    ensures Inv(states[i])
  {
    if i > 0 {
      hide Inv;
      InvOnRuns(states, steps, i - 1);
      StepKeepsInv(states[i - 1], steps[i - 1]);
    }
  }

  // ----- what it means -----

  /** The transport state tells the truth at every moment: PLAYING exactly while some session is active. */
  lemma PlayingMeansActive(states: seq<System>, steps: seq<Step>, i: nat)
    requires IsRun(states, steps) && i < |states|
    ensures states[i].renderer.transportState == R.Playing <==> states[i].renderer.activeSession != ""
  {
    InvOnRuns(states, steps, i);
  }

  /** No SOAP action and no callback is in progress. */
  predicate Quiescent(s: System) {
    s.soap == Ready && s.cancels == multiset{}
  }

  /** DLNA/manager agreement: at quiescence the renderer's active session is d exactly when the
      manager's is, for every DLNA session d, and `media` holds that session or nothing. */
  lemma Agreement(states: seq<System>, steps: seq<Step>, i: nat, d: string)
    requires IsRun(states, steps) && i < |states| && Quiescent(states[i]) && !Foreign(d)
    ensures var s := states[i];
      && (s.renderer.activeSession == d <==> Owns(s.manager, d))
      && s.renderer.media.Keys == (if s.renderer.activeSession == "" then {} else {s.renderer.activeSession})
  {
    InvOnRuns(states, steps, i);
    ActiveIsOwner(states[i], d);
  }

  lemma ActiveIsOwner(s: System, d: string)
    requires Inv(s) && Quiescent(s) && (d == "" || !Foreign(d) || Owns(s.manager, d))
    ensures !Foreign(d) ==> (s.renderer.activeSession == d <==> Owns(s.manager, d))
    ensures s.renderer.media.Keys == (if s.renderer.activeSession == "" then {} else {s.renderer.activeSession})
    ensures s.renderer.transportState == R.Playing <==> s.renderer.activeSession != ""
    ensures s.renderer.activeSession != "" ==> !Foreign(s.renderer.activeSession)
  {
    IssuedFacts(s.renderer.nextID);
  }

  // ----- what is played, and what is reported -----

  /** What the control point has asked for so far: the URI and metadata of its latest
      SetAVTransportURI, the URI each Play found set for the session it is about to create, and the
      latest action. */
  datatype Story = Story(uri: string, metadata: string, played: map<string, string>, last: Option<Step>)

  const NOTHING_ASKED := Story("", "", map[], None)

  function Told(h: Story, s: System, step: Step): Story {
    match step
    case SetAVTransportURI(uri, metadata) => h.(uri := uri, metadata := metadata, last := Some(step))
    case Play => h.(played := h.played[R.MediaId(s.renderer.nextID + 1) := h.uri], last := Some(step))
    case PauseOrStop(_) => h.(last := Some(step))
    case _ => h
  }

  function StoryOf(states: seq<System>, steps: seq<Step>, i: nat): Story
    requires i <= |steps| && i < |states|
  {
    if i == 0 then NOTHING_ASKED else Told(StoryOf(states, steps, i - 1), states[i - 1], steps[i - 1])
  }

  /** What the action under way was asked to store. */
  function Pending(soap: Soap): Option<Store> {
    match soap
    case ReadActive(store) => Some(store)
    case Cancelling(_, store) => Some(store)
    case Storing(store) => Some(store)
    case _ => None
  }

  predicate MatchesStore(store: Store, h: Story) {
    match store
    case URI(uri, metadata) =>
      h.uri == uri && h.metadata == metadata && h.last == Some(SetAVTransportURI(uri, metadata))
    case Halt(paused) => h.last == Some(PauseOrStop(paused))
  }

  /** The transport state after the latest action, when no session is active. */
  predicate MatchesTransport(state: R.TransportState, h: Story) {
    match h.last
    case None => state == R.NoMediaPresent
    case Some(SetAVTransportURI(_, _)) => state == R.Stopped
    case Some(PauseOrStop(paused)) => state == (if paused then R.PausedPlayback else R.Stopped)
    case _ => true
  }

  /** The stored URI and the action under way are those asked for. */
  predicate ActionInv(s: System, h: Story) {
    && (Pending(s.soap).Some? ==> MatchesStore(Pending(s.soap).value, h))
    && (!(Pending(s.soap).Some? && Pending(s.soap).value.URI?) ==>
          s.renderer.currentURI == h.uri && s.renderer.currentMetadata == h.metadata)
    && (s.soap.ReadURI? || s.soap.Create? || InPlay(s.soap).Some? || s.soap.TouchPlayed? ==> h.last == Some(Step.Play))
    && (s.soap.ReadURI? || s.soap.Create? ==>
          var id := R.MediaId(s.renderer.nextID + 1);
          id in h.played && h.played[id] == h.uri)
    && (s.soap.Create? ==> s.soap.uri == h.uri)
  }

  /** Every registered session has the URI its Play found. */
  predicate MediaInv(s: System, h: Story) {
    forall id :: id in s.renderer.media ==> id in h.played && s.renderer.media[id] == h.played[id]
  }

  /** Between actions the transport state is the latest action's, a Play's excepted. */
  predicate TransportInv(s: System, h: Story) {
    s.soap == Ready && h.last != Some(Step.Play) ==>
      s.renderer.activeSession == "" && MatchesTransport(s.renderer.transportState, h)
  }

  predicate StoryInv(s: System, h: Story) {
    ActionInv(s, h) && MediaInv(s, h) && TransportInv(s, h)
  }

  lemma StartStory(s: System, h: Story, step: Step)
    requires step.SetAVTransportURI? || step.Play? || step.PauseOrStop?
    requires RendererInv(s) && Enabled(s, step) && StoryInv(s, h)
    ensures StoryInv(Do(s, step), Told(h, s, step))
  {
    hide MatchesTransport, R.MediaId;
    IssuedFacts(s.renderer.nextID);
  }

  /** A cancellation leaves the URIs alone, and the transport state unless the session was active. */
  lemma TaskStory(s: System, task: Task)
    ensures var t := RunTask(s, task).0; var r := t.renderer;
      && t.soap == s.soap && r.nextID == s.renderer.nextID
      && r.currentURI == s.renderer.currentURI && r.currentMetadata == s.renderer.currentMetadata
      && (forall id :: id in r.media ==> id in s.renderer.media && r.media[id] == s.renderer.media[id])
      && (s.renderer.activeSession != task.id ==>
            r.activeSession == s.renderer.activeSession && r.transportState == s.renderer.transportState)
  {
    hide Release;
  }

  lemma OtherStory(s: System, h: Story, step: Step)
    requires step.CancelStep? || step.OtherActivate? || step.OtherDeactivate? || step.AnyTouch?
    requires Inv(s) && Enabled(s, step) && StoryInv(s, h)
    ensures StoryInv(Do(s, step), Told(h, s, step))
  {
    hide MatchesTransport, MatchesStore, R.MediaId, RunTask, Acquire, Release, Touch;
    if step.CancelStep? {
      TaskStory(s, step.task);
      assert CallbackInv(s, step.task);
      assert step.task.id != "" by { IssuedFacts(s.renderer.nextID); }
    }
  }

  lemma SoapStory(s: System, h: Story, req: Request, now: int)
    requires Inv(s) && StoryInv(s, h) && Enabled(s, SoapStep(req, now))
    ensures StoryInv(RunSoap(s, req, now), h)
  {
    hide R.MediaId, RunTask, Acquire, Release, Touch, TasksInv, PlayInv, OwnerInv;
    match s.soap
    case Cancelling(task, _) => TaskStory(s, task);
    case CancelReplaced(task, _) => TaskStory(s, task);
    case _ =>
  }

  lemma StoryStep(s: System, h: Story, step: Step)
    requires Inv(s) && Enabled(s, step) && StoryInv(s, h)
    ensures StoryInv(Do(s, step), Told(h, s, step))
  {
    hide StoryInv;
    match step
    case SoapStep(req, now) => SoapStory(s, h, req, now);
    case SetAVTransportURI(_, _) => StartStory(s, h, step);
    case Play => StartStory(s, h, step);
    case PauseOrStop(_) => StartStory(s, h, step);
    case _ => OtherStory(s, h, step);
  }

  lemma {:induction false} StoryOnRuns(states: seq<System>, steps: seq<Step>, i: nat)
    requires IsRun(states, steps) && i < |states|
    ensures StoryInv(states[i], StoryOf(states, steps, i))
  {
    hide Inv, Do, Enabled, Told, StoryInv;
    if i == 0 {
      InitialStory(states[0]);
    } else {
      StoryOnRuns(states, steps, i - 1);
      InvOnRuns(states, steps, i - 1);
      StoryStep(states[i - 1], StoryOf(states, steps, i - 1), steps[i - 1]);
    }
  }

  lemma InitialStory(s: System)
    requires Initial(s)
    ensures StoryInv(s, NOTHING_ASKED)
  {
  }

  /** What is played: at every moment, each registered session, and so the active one, has the URI
      of the latest SetAVTransportURI before the Play that created it. */
  lemma PlayedURI(states: seq<System>, steps: seq<Step>, i: nat, d: string)
    requires IsRun(states, steps) && i < |states|
    requires d in states[i].renderer.media || d == states[i].renderer.activeSession != ""
    ensures var media, played := states[i].renderer.media, StoryOf(states, steps, i).played;
      d in media && d in played && media[d] == played[d]
  {
    InvOnRuns(states, steps, i);
    StoryOnRuns(states, steps, i);
  }

  /** While a session is registered its URI never changes, and an id does not come back. */
  lemma {:induction false} URIStays(states: seq<System>, steps: seq<Step>, i: nat, j: nat, d: string)
    requires IsRun(states, steps) && i <= j < |states|
    requires Issued(states[i].renderer.nextID, d) && d in states[j].renderer.media
    ensures d in states[i].renderer.media && states[i].renderer.media[d] == states[j].renderer.media[d]
    decreases j
  {
    hide Do, Enabled, Issued;
    if i < j {
      IssuedStays(states, steps, i, j - 1, d);
      MediaStep(states[j - 1], steps[j - 1], d);
      URIStays(states, steps, i, j - 1, d);
    }
  }

  lemma {:induction false} IssuedStays(states: seq<System>, steps: seq<Step>, i: nat, j: nat, d: string)
    requires IsRun(states, steps) && i <= j < |states| && Issued(states[i].renderer.nextID, d)
    ensures Issued(states[j].renderer.nextID, d)
    decreases j
  {
    hide Do, Enabled, Issued;
    if i < j {
      IssuedStays(states, steps, i, j - 1, d);
      IssuedFacts(states[j - 1].renderer.nextID);
      NextIDStep(states[j - 1], steps[j - 1]);
    }
  }

  lemma NextIDStep(s: System, step: Step)
    requires Enabled(s, step)
    ensures s.renderer.nextID <= Do(s, step).renderer.nextID <= s.renderer.nextID + 1
  {
    hide Acquire, Release, Touch, R.MediaId, RunTask;
    match step
    case CancelStep(task) => TaskStory(s, task);
    case SoapStep(_, _) =>
      if s.soap.Cancelling? || s.soap.CancelReplaced? {
        TaskStory(s, s.soap.task);
      }
    case _ =>
  }

  lemma MediaStep(s: System, step: Step, d: string)
    requires Enabled(s, step) && Issued(s.renderer.nextID, d) && d in Do(s, step).renderer.media
    ensures d in s.renderer.media && s.renderer.media[d] == Do(s, step).renderer.media[d]
  {
    hide Acquire, Release, Touch, Issued, R.MediaId, RunTask;
    IssuedFacts(s.renderer.nextID);
    match step
    case CancelStep(task) => TaskStory(s, task);
    case SoapStep(_, _) =>
      if s.soap.Cancelling? || s.soap.CancelReplaced? {
        TaskStory(s, s.soap.task);
      }
    case _ =>
  }

  /** A Play that became active counts as activity of its session, if it still owns the speaker. */
  lemma PlayTouches(s: System, req: Request, now: int)
    requires s.soap.TouchPlayed? && Owns(s.manager, s.soap.id)
    ensures var m := RunSoap(s, req, now).manager;
      Owns(m, s.soap.id) && m.active.value.lastActivity == now && m.generation == s.manager.generation
  {
  }

  /** What is reported: when no action is under way, a transport whose latest action was a Pause says
      PAUSED_PLAYBACK, after a Stop or SetAVTransportURI it says STOPPED, and before any action
      NO_MEDIA_PRESENT, and no session is active. */
  lemma ReportedState(states: seq<System>, steps: seq<Step>, i: nat)
    requires IsRun(states, steps) && i < |states| && states[i].soap == Ready
    ensures var last, r := StoryOf(states, steps, i).last, states[i].renderer;
      && (last != Some(Step.Play) ==> r.activeSession == "")
      && (last == Some(PauseOrStop(true)) ==> r.transportState == R.PausedPlayback)
      && (last == Some(PauseOrStop(false)) ==> r.transportState == R.Stopped)
      && (last.Some? && last.value.SetAVTransportURI? ==> r.transportState == R.Stopped)
      && (last == None ==> r.transportState == R.NoMediaPresent)
  {
    StoryOnRuns(states, steps, i);
  }

  // ----- quiescence is reached -----

  /** How many sections of `cancelMedia` a callback still has. */
  function TaskWork(task: Task): nat {
    match task case Enter(_) => 2 case Notify(_) => 1
  }

  ghost function CancelWork(cancels: multiset<Task>): nat {
    if cancels == multiset{} then 0 else
      var task :| task in cancels;
      TaskWork(task) + CancelWork(cancels - multiset{task})
  }

  /** The callbacks can be counted in any order. */
  lemma {:induction false} CancelWorkOf(cancels: multiset<Task>, task: Task)
    requires task in cancels
    ensures CancelWork(cancels) == TaskWork(task) + CancelWork(cancels - multiset{task})
    decreases |cancels|
  {
    var first :| first in cancels
      && CancelWork(cancels) == TaskWork(first) + CancelWork(cancels - multiset{first});
    if first != task {
      hide CancelWork, TaskWork;
      var a, b := cancels - multiset{first}, cancels - multiset{task};
      assert task in a && first in b && a - multiset{task} == b - multiset{first};
      CancelWorkOf(a, task);
      CancelWorkOf(b, first);
    }
  }

  /** An upper bound on the sections a SOAP action still has, its own callbacks included. */
  function SoapWork(soap: Soap): nat {
    match soap
    case Ready => 0
    case ReadActive(_) => 4
    case Cancelling(task, _) => 1 + TaskWork(task)
    case Storing(_) => 1
    case ReadURI => 7
    case Create(_) => 6
    case Activate(_) => 5
    case CancelReplaced(task, _) => 2 + TaskWork(task)
    case CommitPlay(_, _) => 2
    case AbortPlay(_) => 1
    case TouchPlayed(_) => 1
  }

  ghost function Work(s: System): nat {
    SoapWork(s.soap) + CancelWork(s.cancels)
  }

  /** Steps of an action or a callback under way. */
  predicate Internal(step: Step) {
    step.SoapStep? || step.CancelStep?
  }

  lemma TaskWorkDecreases(s: System, task: Task)
    ensures var (t, rest) := RunTask(s, task);
      && t.soap == s.soap && t.cancels == s.cancels
      && (rest.Some? ==> TaskWork(rest.value) < TaskWork(task))
  {
    hide Release, R.CancelMedia;
  }

  lemma SoapWorkDecreases(s: System, req: Request, now: int)
    requires !s.soap.Ready?
    ensures var t := RunSoap(s, req, now);
      SoapWork(t.soap) < SoapWork(s.soap) && t.cancels == s.cancels
  {
    hide Acquire, Touch, R.CancelMedia, R.Commit, R.NewMedia, RunTask;
    match s.soap
    case Cancelling(task, _) => TaskWorkDecreases(s, task);
    case CancelReplaced(task, _) => TaskWorkDecreases(s, task);
    case _ =>
  }

  lemma CancelsShrink(cancels: multiset<Task>, task: Task, rest: Option<Task>)
    requires task in cancels && (rest.Some? ==> TaskWork(rest.value) < TaskWork(task))
    ensures var left := cancels - multiset{task} + (if rest.Some? then multiset{rest.value} else multiset{});
      CancelWork(left) < CancelWork(cancels)
  {
    var left := cancels - multiset{task};
    CancelWorkOf(cancels, task);
    if rest.Some? {
      CancelWorkOf(left + multiset{rest.value}, rest.value);
      assert left + multiset{rest.value} - multiset{rest.value} == left;
    } else {
      assert left + multiset{} == left;
    }
  }

  lemma WorkDecreases(s: System, step: Step)
    requires Enabled(s, step) && Internal(step)
    ensures Work(Do(s, step)) < Work(s)
  {
    hide RunTask, RunSoap, SoapWork, TaskWork, CancelWork;
    match step
    case SoapStep(req, now) =>
      SoapWorkDecreases(s, req, now);
    case CancelStep(task) =>
      TaskWorkDecreases(s, task);
      CancelsShrink(s.cancels, task, RunTask(s, task).1);
  }

  /** The request of a Play that is at its activation; any other section ignores it. */
  function PlayRequest(soap: Soap, streamURL: string): Request {
    var id := if soap.Activate? then soap.id else "";
    Request(id, DLNA, "", streamURL, CancelMedia(id))
  }

  lemma NextInternal(s: System, streamURL: string) returns (step: Step)
    requires !Quiescent(s)
    ensures Internal(step) && Enabled(s, step)
    ensures step.CancelStep? || step == SoapStep(PlayRequest(s.soap, streamURL), 0)
  {
    if s.soap != Ready {
      step := SoapStep(PlayRequest(s.soap, streamURL), 0);
    } else {
      var task :| task in s.cancels;
      step := CancelStep(task);
    }
  }

  /** Quiescence is reached: a stretch of sections of actions and callbacks under way is no longer
      than the work at its start, and until quiescence one of them is enabled. */
  lemma {:induction false} Drains(states: seq<System>, steps: seq<Step>, i: nat, j: nat)
    requires IsRun(states, steps) && i <= j < |states|
    requires forall m :: i <= m < j ==> Internal(steps[m])
    ensures j - i + Work(states[j]) <= Work(states[i])
    ensures !Quiescent(states[j]) ==> exists step :: Internal(step) && Enabled(states[j], step)
    decreases j
  {
    hide Work, Enabled, Do;
    if i < j {
      Drains(states, steps, i, j - 1);
      WorkDecreases(states[j - 1], steps[j - 1]);
    }
    if !Quiescent(states[j]) {
      var step := NextInternal(states[j], "");
    }
  }

  // ----- overlapping SOAP actions -----

  /** Any number of SOAP threads over one renderer: the one that runs is the system's, and each of
      the others waits between two of its sections until it gets a turn. */
  datatype Threads = Threads(system: System, waiting: seq<Soap>)

  /** A step of the system, or a change to another thread. */
  datatype Turn = Run(step: Step) | Switch(thread: nat)

  predicate TakesTurn(s: Threads, turn: Turn, t: Threads) {
    match turn
    case Run(step) => Enabled(s.system, step) && t == Threads(Do(s.system, step), s.waiting)
    case Switch(k) =>
      k < |s.waiting| && t == Threads(s.system.(soap := s.waiting[k]), s.waiting[k := s.system.soap])
  }

  ghost predicate IsStretch(states: seq<Threads>, turns: seq<Turn>) {
    && |states| == |turns| + 1
    && forall i :: 0 <= i < |turns| ==> TakesTurn(states[i], turns[i], states[i + 1])
  }

  ghost predicate IsOverlappingRun(states: seq<Threads>, turns: seq<Turn>) {
    && IsStretch(states, turns) && Initial(states[0].system)
    && forall k :: 0 <= k < |states[0].waiting| ==> states[0].waiting[k] == Ready
  }

  /** The transport state tells the truth. */
  predicate Truthful(s: System) {
    s.renderer.transportState == R.Playing <==> s.renderer.activeSession != ""
  }

  /** The turn stores the end of a SetAVTransportURI, Pause or Stop while a session is active. */
  predicate StoresOverActive(s: Threads, turn: Turn) {
    turn.Run? && turn.step.SoapStep? && s.system.soap.Storing? && s.system.renderer.activeSession != ""
  }

  /** What holds however actions overlap: a thread's session has an id, and PLAYING is never said
      without an active session. */
  ghost predicate OverlapInv(s: Threads) {
    && Named(s.system.soap) && (forall k :: 0 <= k < |s.waiting| ==> Named(s.waiting[k]))
    && (s.system.renderer.transportState == R.Playing ==> s.system.renderer.activeSession != "")
  }

  predicate Named(soap: Soap) {
    InPlay(soap).Some? ==> InPlay(soap).value != ""
  }

  /** A store over an active session is the one section that makes the transport state wrong. */
  lemma SectionEffect(s: System, step: Step)
    requires Enabled(s, step) && Named(s.soap)
    requires s.renderer.transportState == R.Playing ==> s.renderer.activeSession != ""
    ensures var t := Do(s, step);
      && Named(t.soap) && (t.renderer.transportState == R.Playing ==> t.renderer.activeSession != "")
      && (step.SoapStep? && s.soap.Storing? && s.renderer.activeSession != "" ==> !Truthful(t))
      && (Truthful(s) && !(step.SoapStep? && s.soap.Storing? && s.renderer.activeSession != "") ==> Truthful(t))
  {
    hide Acquire, Release, Touch, RunSoap, RunTask, Named;
    match step
    case SoapStep(req, now) => SoapEffect(s, req, now);
    case CancelStep(task) => TaskEffect(s, task);
    case _ => NamedReads();
  }

  lemma NamedReads()
    ensures Named(ReadURI) && forall store :: Named(ReadActive(store))
  {
  }

  /** A cancellation takes the active session and PLAYING together. */
  lemma TaskEffect(s: System, task: Task)
    requires s.renderer.transportState == R.Playing ==> s.renderer.activeSession != ""
    ensures var t := RunTask(s, task).0;
      && t.soap == s.soap && (t.renderer.transportState == R.Playing ==> t.renderer.activeSession != "")
      && (Truthful(s) ==> Truthful(t))
  {
    hide Release;
  }

  lemma SoapEffect(s: System, req: Request, now: int)
    requires Named(s.soap)
    requires s.renderer.transportState == R.Playing ==> s.renderer.activeSession != ""
    ensures var t := RunSoap(s, req, now);
      && Named(t.soap) && (t.renderer.transportState == R.Playing ==> t.renderer.activeSession != "")
      && (s.soap.Storing? && s.renderer.activeSession != "" ==> !Truthful(t))
      && (Truthful(s) && !(s.soap.Storing? && s.renderer.activeSession != "") ==> Truthful(t))
  {
    hide Acquire, Release, Touch, R.MediaId;
  }

  lemma TurnEffect(s: Threads, turn: Turn, t: Threads)
    requires TakesTurn(s, turn, t) && OverlapInv(s)
    ensures OverlapInv(t)
    ensures StoresOverActive(s, turn) ==> !Truthful(t.system)
    ensures Truthful(s.system) && !StoresOverActive(s, turn) ==> Truthful(t.system)
  {
    hide Do, Enabled, Named;
    if turn.Run? {
      SectionEffect(s.system, turn.step);
    }
  }

  /** However actions overlap, PLAYING is never said without an active session. */
  lemma {:induction false} OverlapInvOnRuns(states: seq<Threads>, turns: seq<Turn>, i: nat)
    requires IsOverlappingRun(states, turns) && i < |states|
    ensures OverlapInv(states[i])
    ensures states[i].system.renderer.transportState == R.Playing ==> states[i].system.renderer.activeSession != ""
  {
    hide TakesTurn;
    if i > 0 {
      OverlapInvOnRuns(states, turns, i - 1);
      TurnEffect(states[i - 1], turns[i - 1], states[i]);
    }
  }

  /** The exact condition for overlapping actions: the transport is PLAYING exactly while a session
      is active, at every moment of the run, if and only if no SetAVTransportURI, Pause or Stop
      stores its state while a session is active. */
  lemma OverlapTruthfulExactly(states: seq<Threads>, turns: seq<Turn>)
    requires IsOverlappingRun(states, turns)
    ensures (forall i :: 0 <= i < |states| ==> Truthful(states[i].system))
       <==> (forall i :: 0 <= i < |turns| ==> !StoresOverActive(states[i], turns[i]))
  {
    hide TakesTurn, StoresOverActive, Truthful;
    if i :| 0 <= i < |turns| && StoresOverActive(states[i], turns[i]) {
      OverlapInvOnRuns(states, turns, i);
      TurnEffect(states[i], turns[i], states[i + 1]);
      assert !Truthful(states[i + 1].system);
    } else {
      forall i | 0 <= i < |states| ensures Truthful(states[i].system) {
        StaysTruthful(states, turns, i);
      }
    }
  }

  lemma {:induction false} StaysTruthful(states: seq<Threads>, turns: seq<Turn>, i: nat)
    requires IsOverlappingRun(states, turns) && i < |states|
    requires forall m :: 0 <= m < i ==> !StoresOverActive(states[m], turns[m])
    ensures Truthful(states[i].system)
  {
    hide TakesTurn, StoresOverActive;
    if i > 0 {
      StaysTruthful(states, turns, i - 1);
      OverlapInvOnRuns(states, turns, i - 1);
      TurnEffect(states[i - 1], turns[i - 1], states[i]);
    }
  }

  lemma AcquireWhenIdle(m: State, req: Request, now: int)
    requires m.active.None? && req.id != ""
    ensures var (after, d) := Acquire(m, req, now);
      d.granted && d.replaced.None? && Owns(after, req.id)
  {
  }

  /** Play with nothing in between, for an idle manager: its sections one by one. */
  lemma UndisturbedPlay(s: System, req: Request) returns (t: seq<System>)
    requires s.soap == Ready && s.manager.active.None? && s.renderer.currentURI != ""
    requires IsPlayRequest(req, R.MediaId(s.renderer.nextID + 1))
    ensures |t| == 7 && t[0] == s
    ensures Enabled(s, Step.Play) && t[1] == Do(s, Step.Play)
    ensures forall i :: 1 <= i < 6 ==> Enabled(t[i], SoapStep(req, 0)) && t[i + 1] == Do(t[i], SoapStep(req, 0))
    ensures t[6].soap == Ready && t[6].cancels == s.cancels
    ensures t[6].renderer.activeSession == req.id && Owns(t[6].manager, req.id)
  {
    hide Acquire, Touch, R.MediaId;
    AcquireWhenIdle(s.manager, req, 0);
    var id, uri := req.id, s.renderer.currentURI;
    var t1, t2 := s.(soap := ReadURI), s.(soap := Create(uri));
    var t3 := s.(renderer := R.NewMedia(s.renderer, uri).0, soap := Activate(id));
    var t4 := t3.(manager := Acquire(s.manager, req, 0).0, soap := CommitPlay(id, true));
    var t5 := t4.(renderer := R.Commit(t4.renderer, id, true).0, soap := TouchPlayed(id));
    var t6 := t5.(manager := Touch(t5.manager, id, 0).0, soap := Ready);
    TouchKeepsOwner(t5.manager, id, 0);
    t := [s, t1, t2, t3, t4, t5, t6];
    forall i | 1 <= i < 6 ensures Enabled(t[i], SoapStep(req, 0)) && t[i + 1] == Do(t[i], SoapStep(req, 0)) {
      assert t1 == t[1] && t2 == t[2] && t3 == t[3] && t4 == t[4] && t5 == t[5] && t6 == t[6];
      assert t2 == Do(t1, SoapStep(req, 0));
      assert t3 == Do(t2, SoapStep(req, 0));
      assert t4 == Do(t3, SoapStep(req, 0));
      assert t5 == Do(t4, SoapStep(req, 0));
      assert t6 == Do(t5, SoapStep(req, 0));
    }
  }

  lemma TouchKeepsOwner(m: State, id: string, now: int)
    requires Owns(m, id)
    ensures Owns(Touch(m, id, now).0, id)
  {
  }

  lemma PlayRequestOf(id: string)
    ensures IsPlayRequest(PlayRequest(Soap.Activate(id), ""), id)
  {
  }

  /** A URI is set, and a Stop that finds nothing to cancel comes to its store. */
  lemma StopBegins(s: System, req: Request) returns (t: seq<System>, steps: seq<Step>)
    requires s.soap == Ready && s.renderer.activeSession == ""
    ensures |t| == 6 && |steps| == 5 && t[0] == s
    ensures forall i :: 0 <= i < 5 ==> Enabled(t[i], steps[i]) && t[i + 1] == Do(t[i], steps[i])
    ensures t[5] == s.(renderer := R.StoreURI(s.renderer, "u", ""), soap := Storing(Halt(false)))
  {
    hide RunTask, Acquire, Touch, R.CancelMedia, R.Commit, R.NewMedia, IsPlayRequest;
    var next := SoapStep(req, 0);
    var t3 := s.(renderer := R.StoreURI(s.renderer, "u", ""));
    steps := [SetAVTransportURI("u", ""), next, next, PauseOrStop(false), next];
    t := [s, s.(soap := ReadActive(URI("u", ""))), s.(soap := Storing(URI("u", ""))),
          t3, t3.(soap := ReadActive(Halt(false))), t3.(soap := Storing(Halt(false)))];
  }

  lemma StopEnds(s: System, req: Request)
    requires s.soap == Storing(Halt(false))
    ensures Enabled(s, SoapStep(req, 0))
    ensures Do(s, SoapStep(req, 0)) == s.(renderer := R.StoreHalt(s.renderer, false), soap := Ready)
  {
  }

  /** An instance with two threads: a Stop that found nothing to cancel stores its state after a
      whole Play. Both actions and every callback are over, a session is active and owns the
      speaker, and the transport says STOPPED. */
  lemma OverlapBreaksPlaying(m: State) returns (states: seq<Threads>, turns: seq<Turn>)
    requires m.generation == 0 && m.active.None?
    ensures IsOverlappingRun(states, turns) && |turns| == 14 && StoresOverActive(states[13], turns[13])
    ensures var end := states[14];
      && Quiescent(end.system) && end.waiting == [Ready]
      && end.system.renderer.activeSession != "" && Owns(end.system.manager, end.system.renderer.activeSession)
      && end.system.renderer.transportState == R.Stopped
  {
    hide R.MediaId, Owns, Do, Enabled, IsPlayRequest, IsStretch;
    var req := PlayRequest(Soap.Activate(R.MediaId(1)), "");
    var next := SoapStep(req, 0);
    var stop := Storing(Halt(false));
    var begin, steps := StopBegins(System(m, R.INITIAL, Ready, multiset{}), req);
    PlayRequestOf(R.MediaId(1));
    var play := UndisturbedPlay(begin[5].(soap := Ready), req);
    var resumed := play[6].(soap := stop);
    StopEnds(resumed, req);
    var end := Do(resumed, next);
    var s1, t1 := Alone(begin, steps, [Ready]);
    var s2, t2 := Alone(play, [Step.Play, next, next, next, next, next], [stop]);
    var s3, t3 := Alone([resumed, end], [next], [Ready]);
    Joined(s1, t1, Switch(0), s2, t2);
    Joined(s1 + s2, t1 + [Switch(0)] + t2, Switch(0), s3, t3);
    states, turns := s1 + s2 + s3, t1 + [Switch(0)] + t2 + [Switch(0)] + t3;
    assert states[0] == s1[0] && states[13] == s3[0] && states[14] == s3[1] && turns[13] == t3[0];
  }

  /** A stretch in which one thread runs and the others wait. */
  lemma Alone(t: seq<System>, steps: seq<Step>, waiting: seq<Soap>) returns (states: seq<Threads>, turns: seq<Turn>)
    requires |t| == |steps| + 1
    requires forall i :: 0 <= i < |steps| ==> Enabled(t[i], steps[i]) && t[i + 1] == Do(t[i], steps[i])
    ensures IsStretch(states, turns) && |turns| == |steps| && |states| == |t|
    ensures forall i :: 0 <= i < |t| ==> states[i] == Threads(t[i], waiting)
    ensures forall i :: 0 <= i < |steps| ==> turns[i] == Run(steps[i])
  {
    hide Enabled, Do;
    states := seq(|t|, i requires 0 <= i < |t| => Threads(t[i], waiting));
    turns := seq(|steps|, i requires 0 <= i < |steps| => Run(steps[i]));
  }

  /** Two stretches with a turn between them are one. */
  lemma Joined(s1: seq<Threads>, t1: seq<Turn>, turn: Turn, s2: seq<Threads>, t2: seq<Turn>)
    requires IsStretch(s1, t1) && IsStretch(s2, t2) && TakesTurn(s1[|t1|], turn, s2[0])
    ensures IsStretch(s1 + s2, t1 + [turn] + t2)
  {
    hide TakesTurn;
    var states, turns := s1 + s2, t1 + [turn] + t2;
    forall i | 0 <= i < |turns| ensures TakesTurn(states[i], turns[i], states[i + 1]) {
      if i > |t1| {
        var k := i - |s1|;
        assert states[i] == s2[k] && turns[i] == t2[k] && states[i + 1] == s2[k + 1];
      }
    }
  }
}
