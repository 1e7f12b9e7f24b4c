/** What the audio stream hub keeps over whole runs: the history is a window on the broadcasts,
    and every listener hears the history it joined at followed by the broadcasts it had room for. */
module HubRuns {
  import opened HubState

  ghost predicate Allowed<K(!new)>(s: State<K>, op: Op<K>) {
    op.Subscribe? ==> op.id !in s.listeners
  }

  /** `states[n]` is the hub before `ops[n]`, from any state on. */
  ghost predicate IsStretch<K(!new)>(states: seq<State<K>>, ops: seq<Op<K>>) {
    && |states| == |ops| + 1
    && forall n :: 0 <= n < |ops| ==> Allowed(states[n], ops[n]) && states[n + 1] == After(states[n], ops[n])
  }

  /** The same from the hub's creation on. */
  ghost predicate IsRun<K(!new)>(limit: int, states: seq<State<K>>, ops: seq<Op<K>>) {
    IsStretch(states, ops) && states[0] == Init(limit)
  }

  /** The frames broadcast by `ops`, in order. */
  ghost function Broadcasts<K>(ops: seq<Op<K>>): seq<Frame> {
    if ops == [] then []
    else
      var before, last := Broadcasts(ops[..|ops| - 1]), ops[|ops| - 1];
      if last.Broadcast? then before + [last.data] else before
  }

  /** The frames broadcast since the last reset. */
  ghost function SinceReset<K>(ops: seq<Op<K>>): seq<Frame> {
    if ops == [] then []
    else
      var before, last := SinceReset(ops[..|ops| - 1]), ops[|ops| - 1];
      if last.Reset? then [] else if last.Broadcast? then before + [last.data] else before
  }

  /** The last `n` frames. */
  ghost function Last(frames: seq<Frame>, n: nat): seq<Frame>
    requires n <= |frames|
  {
    frames[|frames| - n..]
  }

  ghost predicate IsLongestSuffix(window: seq<Frame>, frames: seq<Frame>, limit: int) {
    && |window| <= |frames|
    && window == Last(frames, |window|)
    && Total(window) <= limit
    && forall n :: |window| < n <= |frames| ==> Total(Last(frames, n)) > limit
  }

  /** A longest suffix that fits is unique. */
  lemma LongestSuffixUnique(a: seq<Frame>, b: seq<Frame>, frames: seq<Frame>, limit: int)
    requires IsLongestSuffix(a, frames, limit) && IsLongestSuffix(b, frames, limit)
    ensures a == b
  {
    assert a == Last(frames, |a|) && b == Last(frames, |b|);
  }

  /** Trimming a suffix that is long enough leaves the longest one that fits. */
  lemma {:induction false} TrimIsLongestSuffix(h: seq<Frame>, frames: seq<Frame>, limit: int)
    requires 0 <= limit
    requires |h| <= |frames| && h == Last(frames, |h|)
    requires forall n :: |h| < n <= |frames| ==> Total(Last(frames, n)) > limit
    ensures IsLongestSuffix(Trim(h, limit), frames, limit)
    decreases |h|
  {
    if Total(h) > limit && h != [] {
      assert h[1..] == Last(frames, |h| - 1);
      TrimIsLongestSuffix(h[1..], frames, limit);
    }
  }

  /** One more frame: the window moves on by what no longer fits. */
  lemma RememberKeepsWindow(h: seq<Frame>, frames: seq<Frame>, data: Frame, limit: int)
    requires limit > 0 && IsLongestSuffix(h, frames, limit)
    ensures IsLongestSuffix(Remember(h, data, limit), frames + [data], limit)
  {
    var more := frames + [data];
    assert h + [data] == Last(more, |h| + 1);
    forall n | |h| + 1 < n <= |more|
      ensures Total(Last(more, n)) > limit
    {
      assert Last(more, n) == Last(frames, n - 1) + [data];
      TotalAppend(Last(frames, n - 1), [data]);
    }
    TrimIsLongestSuffix(h + [data], more, limit);
  }

  /** The hub is closed exactly when a Close was among its operations. */
  lemma {:induction false} ClosedForGood<K(!new)>(limit: int, states: seq<State<K>>, ops: seq<Op<K>>)
    requires IsRun(limit, states, ops)
    ensures states[|ops|].closed <==> exists n :: 0 <= n < |ops| && ops[n].Close?
    decreases |ops|
  {
    if ops != [] {
      var n := |ops| - 1;
      ClosedForGood(limit, states[..n + 1], ops[..n]);
      assert states[..n + 1][n] == states[n] && states[n + 1] == After(states[n], ops[n]);
      forall m | 0 <= m < n
        ensures ops[..n][m] == ops[m]
      {
      }
      if states[n].closed {
        var m :| 0 <= m < n && ops[..n][m].Close?;
        assert ops[m].Close?;
      }
    }
  }

  /** The history is the longest suffix of the frames broadcast since the last reset that fits
      the limit; without a positive limit, and once the hub is closed, there is none. */
  lemma {:induction false} HistoryWindow<K(!new)>(limit: int, states: seq<State<K>>, ops: seq<Op<K>>)
    requires IsRun(limit, states, ops)
    ensures var s := states[|ops|];
      && s.limit == limit
      && (limit > 0 && !s.closed ==> IsLongestSuffix(s.history, SinceReset(ops), limit))
      && (limit <= 0 || s.closed ==> s.history == [])
    decreases |ops|
  {
    if ops != [] {
      var n := |ops| - 1;
      HistoryWindow(limit, states[..n + 1], ops[..n]);
      var s := states[n];
      assert states[..n + 1][n] == s && states[n + 1] == After(s, ops[n]);
      if ops[n].Broadcast? && limit > 0 && !s.closed {
        RememberKeepsWindow(s.history, SinceReset(ops[..n]), ops[n].data, limit);
      }
    }
  }

  /** `at` places `part` inside `whole`: in order and no frame used twice. */
  ghost predicate Embeds(at: seq<int>, part: seq<Frame>, whole: seq<Frame>) {
    && |at| == |part|
    && (forall n :: 0 <= n < |at| ==> 0 <= at[n] < |whole| && part[n] == whole[at[n]])
    && (forall m, n :: 0 <= m < n < |at| ==> at[m] < at[n])
  }

  ghost predicate IsSubsequence(part: seq<Frame>, whole: seq<Frame>) {
    exists at :: Embeds(at, part, whole)
  }

  lemma EmptyIsSubsequence()
    ensures IsSubsequence([], [])
  {
    assert Embeds([], [], []);
  }

  lemma SubsequenceSkip(part: seq<Frame>, whole: seq<Frame>, data: Frame)
    requires IsSubsequence(part, whole)
    ensures IsSubsequence(part, whole + [data])
  {
    var at :| Embeds(at, part, whole);
    assert Embeds(at, part, whole + [data]);
  }

  lemma SubsequenceKeep(part: seq<Frame>, whole: seq<Frame>, data: Frame)
    requires IsSubsequence(part, whole)
    ensures IsSubsequence(part + [data], whole + [data])
  {
    var at :| Embeds(at, part, whole);
    var more := at + [|whole|];
    assert Embeds(more, part + [data], whole + [data]);
  }

  lemma {:induction false} SubsequenceShorter(at: seq<int>, part: seq<Frame>, whole: seq<Frame>)
    requires Embeds(at, part, whole)
    ensures |part| <= |whole|
    decreases |part|
  {
    if part != [] {
      var n := |part| - 1;
      assert Embeds(at[..n], part[..n], whole[..at[n]]);
      SubsequenceShorter(at[..n], part[..n], whole[..at[n]]);
    }
  }

  /** All a listener has taken out or still can. */
  ghost function Heard(l: Listener): seq<Frame> {
    l.received + l.queue
  }

  /** The listener is registered and has a backlog below the limit. */
  ghost predicate HasRoom<K(!new)>(s: State<K>, id: K, limit: nat) {
    id in s.listeners && s.listeners[id].open && |s.listeners[id].queue| < limit
  }

  /** Every broadcast of `ops` found the listener registered and with a backlog below the limit. */
  ghost predicate AlwaysRoom<K(!new)>(states: seq<State<K>>, ops: seq<Op<K>>, id: K, limit: nat)
    requires |states| > |ops|
  {
    forall n :: 0 <= n < |ops| && ops[n].Broadcast? ==> HasRoom(states[n], id, limit)
  }

  /** What one operation does to a listener it does not create. */
  lemma ListenerStep<K(!new)>(s: State<K>, op: Op<K>, id: K)
    requires Allowed(s, op) && id in s.listeners
    requires s.closed ==> !s.listeners[id].open
    ensures var t := After(s, op); var l, limit := s.listeners[id], s.listeners[id].capacity;
      && id in t.listeners && t.listeners[id].capacity == l.capacity
      && (t.closed ==> !t.listeners[id].open)
      && Heard(t.listeners[id]) == (Heard(l) + if op.Broadcast? && HasRoom(s, id, limit) then [op.data] else [])
      && |t.listeners[id].queue| <= |l.queue| + (if op.Broadcast? && HasRoom(s, id, limit) then 1 else 0)
      && t.listeners[id].received
         == (l.received + if op == Receive(id) && l.queue != [] then [l.queue[0]] else [])
  {
  }

  /** From a subscription to an open hub on: what the listener has heard is the history it joined
      at, then broadcasts made since, in order and each once. It has heard them all exactly when
      each found it registered with a backlog below its history plus 128 frames, and its queue
      never outgrows that bound. */
  lemma {:induction false} ListenerStream<K(!new)>(states: seq<State<K>>, ops: seq<Op<K>>, id: K)
    requires IsStretch(states, ops)
    requires id in states[0].listeners && !states[0].closed
    requires states[0].listeners[id] == Listener(states[0].history, |states[0].history| + LIVE_FRAMES, true, [])
    ensures id in states[|ops|].listeners
    ensures var joined, l := states[0].history, states[|ops|].listeners[id]; var limit := |joined| + 128;
      && l.capacity == limit && |l.queue| <= limit
      && (states[|ops|].closed ==> !l.open)
      && joined <= Heard(l)
      && IsSubsequence(Heard(l)[|joined|..], Broadcasts(ops))
      && (Heard(l) == joined + Broadcasts(ops) <==> AlwaysRoom(states, ops, id, limit))
    decreases |ops|
  {
    hide After, Embeds, IsSubsequence;
    var joined := states[0].history;
    var limit := |joined| + 128;
    if ops == [] {
      EmptyIsSubsequence();
      assert Heard(states[0].listeners[id]) == joined + [];
      assert Heard(states[0].listeners[id])[|joined|..] == [];
    } else {
      var n := |ops| - 1;
      var before := ops[..n];
      ListenerStream(states[..n + 1], before, id);
      var s := states[n];
      assert states[..n + 1][n] == s && states[n + 1] == After(s, ops[n]);
      ListenerStep(s, ops[n], id);
      RoomSplit(states, ops, id, limit);
      HeardMore(joined, s, ops[n], id, before, limit);
    }
  }

  /** Room at every broadcast is room at the last one and at those before it. */
  lemma RoomSplit<K(!new)>(states: seq<State<K>>, ops: seq<Op<K>>, id: K, limit: nat)
    requires |states| == |ops| + 1 && ops != []
    ensures var n := |ops| - 1;
      AlwaysRoom(states, ops, id, limit) <==>
      AlwaysRoom(states[..n + 1], ops[..n], id, limit) && (ops[n].Broadcast? ==> HasRoom(states[n], id, limit))
  {
    var n := |ops| - 1;
    if AlwaysRoom(states, ops, id, limit) {
      forall m | 0 <= m < n && ops[..n][m].Broadcast?
        ensures HasRoom(states[..n + 1][m], id, limit)
      {
        assert ops[m].Broadcast?;
      }
    }
    if AlwaysRoom(states[..n + 1], ops[..n], id, limit) && (ops[n].Broadcast? ==> HasRoom(states[n], id, limit)) {
      forall m | 0 <= m < |ops| && ops[m].Broadcast?
        ensures HasRoom(states[m], id, limit)
      {
        if m < n {
          assert ops[..n][m].Broadcast? && HasRoom(states[..n + 1][m], id, limit);
        }
      }
    }
  }

  lemma SameEnd(was: seq<Frame>, joined: seq<Frame>, all: seq<Frame>, data: Frame)
    ensures was + [data] == joined + (all + [data]) <==> was == joined + all
  {
    assert joined + (all + [data]) == (joined + all) + [data];
    assert (was + [data])[..|was|] == was;
    assert (joined + all + [data])[..|joined + all|] == joined + all;
  }

  /** The stream's induction step. */
  lemma HeardMore<K(!new)>(joined: seq<Frame>, s: State<K>, op: Op<K>, id: K, before: seq<Op<K>>, limit: nat)
    requires id in s.listeners && joined <= Heard(s.listeners[id])
    requires IsSubsequence(Heard(s.listeners[id])[|joined|..], Broadcasts(before))
    ensures var was, now := Heard(s.listeners[id]),
                            Heard(s.listeners[id]) + if op.Broadcast? && HasRoom(s, id, limit) then [op.data] else [];
      && joined <= now
      && IsSubsequence(now[|joined|..], Broadcasts(before + [op]))
      && (now == joined + Broadcasts(before + [op]) <==>
          was == joined + Broadcasts(before) && (op.Broadcast? ==> HasRoom(s, id, limit)))
  {
    var was := Heard(s.listeners[id]);
    var kept, all := was[|joined|..], Broadcasts(before);
    assert (before + [op])[..|before|] == before;
    var at :| Embeds(at, kept, all);
    SubsequenceShorter(at, kept, all);
    assert was == joined + kept;
    if op.Broadcast? {
      if HasRoom(s, id, limit) {
        SubsequenceKeep(kept, all, op.data);
        assert (was + [op.data])[|joined|..] == kept + [op.data];
        SameEnd(was, joined, all, op.data);
      } else {
        SubsequenceSkip(kept, all, op.data);
        assert |was| < |joined + (all + [op.data])|;
      }
    }
  }

  lemma StretchOfRun<K(!new)>(limit: int, states: seq<State<K>>, ops: seq<Op<K>>, i: nat)
    requires IsRun(limit, states, ops) && i <= |ops|
    ensures IsStretch(states[i..], ops[i..]) && states[i..][|ops[i..]|] == states[|ops|]
  {
    var tail, later := states[i..], ops[i..];
    forall n | 0 <= n < |later|
      ensures Allowed(tail[n], later[n]) && tail[n + 1] == After(tail[n], later[n])
    {
      assert states[i + n + 1] == After(states[i + n], ops[i + n]);
    }
  }

  /** The same in any run: a subscription at step `i`, looked at when the run stands at `ops`. */
  lemma SubscriberStream<K(!new)>(limit: int, states: seq<State<K>>, ops: seq<Op<K>>, i: nat)
    requires IsRun(limit, states, ops)
    requires i < |ops| && ops[i].Subscribe?
    ensures var id := ops[i].id; var later := ops[i + 1..];
      && id in states[|ops|].listeners
      && var joined, l := states[i].history, states[|ops|].listeners[id];
      && (states[i].closed ==> Heard(l) == [] && !l.open)
      && (!states[i].closed ==>
            && |l.queue| <= |joined| + 128
            && joined <= Heard(l)
            && IsSubsequence(Heard(l)[|joined|..], Broadcasts(later))
            && (Heard(l) == joined + Broadcasts(later) <==> AlwaysRoom(states[i + 1..], later, id, |joined| + 128)))
  {
    var id, later := ops[i].id, ops[i + 1..];
    var tail := states[i + 1..];
    assert tail[0] == After(states[i], ops[i]);
    StretchOfRun(limit, states, ops, i + 1);
    if states[i].closed {
      UnregisteredHearsNoMore(tail, later, id);
    } else {
      ListenerStream(tail, later, id);
    }
  }

  /** In any run, a subscriber hears a broadcast if and only if it is registered with a backlog below
      the history it joined at plus 128 frames. */
  lemma NextBroadcast<K(!new)>(limit: int, states: seq<State<K>>, ops: seq<Op<K>>, i: nat, j: nat)
    requires IsRun(limit, states, ops) && i < j < |ops|
    requires ops[i].Subscribe? && !states[i].closed && ops[j].Broadcast?
    ensures var id := ops[i].id;
      && id in states[j].listeners && id in states[j + 1].listeners
      && Heard(states[j + 1].listeners[id])
         == (Heard(states[j].listeners[id])
             + if HasRoom(states[j], id, |states[i].history| + 128) then [ops[j].data] else [])
  {
    var id := ops[i].id;
    StretchOfRun(limit, states[..j + 1], ops[..j], i + 1);
    var tail, later := states[..j + 1][i + 1..], ops[..j][i + 1..];
    assert states[i + 1] == After(states[i], ops[i]);
    assert tail[0] == states[i + 1] && tail[|later|] == states[j];
    ListenerStream(tail, later, id);
    ListenerStep(states[j], ops[j], id);
    assert states[j + 1] == After(states[j], ops[j]);
  }

  /** A listener that is not registered hears nothing more, whatever happens; what was queued for
      it can still be taken out. */
  lemma {:induction false} UnregisteredHearsNoMore<K(!new)>(states: seq<State<K>>, ops: seq<Op<K>>, id: K)
    requires IsStretch(states, ops)
    requires id in states[0].listeners && !states[0].listeners[id].open
    ensures id in states[|ops|].listeners && !states[|ops|].listeners[id].open
    ensures Heard(states[|ops|].listeners[id]) == Heard(states[0].listeners[id])
    ensures states[0].listeners[id].received <= states[|ops|].listeners[id].received
    decreases |ops|
  {
    if ops != [] {
      var n := |ops| - 1;
      UnregisteredHearsNoMore(states[..n + 1], ops[..n], id);
      assert states[..n + 1][n] == states[n] && states[n + 1] == After(states[n], ops[n]);
      ListenerStep(states[n], ops[n], id);
    }
  }

  /** So Unsubscribe and Close end a listener's stream, in any run, for good and where it stands. */
  lemma StreamEnds<K(!new)>(limit: int, states: seq<State<K>>, ops: seq<Op<K>>, i: nat, id: K)
    requires IsRun(limit, states, ops) && i < |ops| && id in states[i].listeners
    requires ops[i] == Unsubscribe(id) || ops[i].Close?
    ensures id in states[|ops|].listeners && !states[|ops|].listeners[id].open
    ensures Heard(states[|ops|].listeners[id]) == Heard(states[i].listeners[id])
  {
    ClosedHubHasNoListeners(limit, states, ops, i);
    assert states[i + 1] == After(states[i], ops[i]);
    assert !states[i + 1].listeners[id].open;
    StretchOfRun(limit, states, ops, i + 1);
    UnregisteredHearsNoMore(states[i + 1..], ops[i + 1..], id);
  }

  lemma {:induction false} ClosedHubHasNoListeners<K(!new)>(limit: int, states: seq<State<K>>, ops: seq<Op<K>>, i: nat)
    requires IsRun(limit, states, ops) && i < |states|
    ensures states[i].closed ==> forall id :: id in states[i].listeners ==> !states[i].listeners[id].open
  {
    if i > 0 {
      ClosedHubHasNoListeners(limit, states, ops, i - 1);
      assert states[i] == After(states[i - 1], ops[i - 1]);
    }
  }
}
