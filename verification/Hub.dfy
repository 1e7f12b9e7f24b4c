/** The audio stream hub of airplay/server.go: a byte-bounded history and one channel a listener.
    Every method does to the hub's `View` what `HubState.After` says. */
module Hub {
  import opened HubState

  /** A Go channel of frames. Sending on it and closing it demand that it is open, where Go
      panics, and a plain send that there is room, where Go blocks. */
  class Chan {
    const capacity: nat
    var queue: seq<Frame>
    var closed: bool
    /** All that was ever taken out. */
    ghost var received: seq<Frame>

    constructor (capacity: nat)
      ensures View() == Listener([], capacity, true, [])
    {
      this.capacity := capacity;
      queue, closed, received := [], false, [];
    }

    ghost function View(): Listener
      reads this
    {
      Listener(queue, capacity, !closed, received)
    }

    method Send(data: Frame)
      requires !closed && |queue| < capacity
      modifies this`queue
      ensures queue == old(queue) + [data]
    {
      queue := queue + [data];
    }

    method TrySend(data: Frame)
      requires !closed
      modifies this`queue
      ensures View() == Offer(old(View()), data)
    {
      if |queue| < capacity {
        queue := queue + [data];
      }
    }

    method Close()
      requires !closed
      modifies this`closed
      ensures View() == old(View()).(open := false)
    {
      closed := true;
    }

    /** What the listener's reader gets: the oldest frame, or none. */
    method Receive() returns (frames: seq<Frame>)
      modifies this`queue, this`received
      ensures View() == Take(old(View())) && received == old(received) + frames
    {
      if queue == [] {
        frames := [];
      } else {
        frames := [queue[0]];
        queue, received := queue[1..], received + [queue[0]];
      }
    }
  }

  class AudioStreamHub {
    var listeners: set<Chan>
    var history: seq<Frame>
    var historyBytes: int
    const maxHistoryBytes: int
    var closed: bool
    /** Every channel Subscribe has returned. */
    ghost var issued: set<Chan>

    /** The byte count is exact, and the registered channels are the open ones. */
    ghost predicate Valid()
      reads this, issued
    {
      && historyBytes == Total(history)
      && listeners <= issued
      && (forall ch :: ch in issued ==> (ch in listeners <==> !ch.closed))
      && (closed ==> listeners == {} && history == [])
    }

    ghost function View(): State<Chan>
      reads this, issued
    {
      State(history, maxHistoryBytes, closed, map ch | ch in issued :: ch.View())
    }

    constructor (bufferMillis: int)
      ensures Valid()
      ensures View() == Init(44100 * 2 * 2 * (if bufferMillis < 0 then 0 else bufferMillis) / 1000)
    {
      var millis := bufferMillis;
      if millis < 0 {
        millis := 0;
      }
      maxHistoryBytes := 44100 * 2 * 2 * millis / 1000;
      listeners, history, historyBytes, closed, issued := {}, [], 0, false, {};
    }

    /** Never blocks: the sends below all find room. */
    method Subscribe() returns (ch: Chan)
      requires Valid()
      modifies this`listeners, this`issued
      ensures Valid() && fresh(ch)
      ensures View() == After(old(View()), Op.Subscribe(ch))
    {
      if closed {
        ch := new Chan(0);
        ch.Close();
        issued := issued + {ch};
        return;
      }
      ch := new Chan(|history| + LIVE_FRAMES);
      listeners := listeners + {ch};
      issued := issued + {ch};
      for i := 0 to |history|
        invariant ch.View() == Listener(history[..i], |history| + LIVE_FRAMES, true, [])
        modifies ch
      {
        ch.Send(history[i]);
      }
      assert history[..|history|] == history;
      assert forall c :: c in old(issued) ==> c.View() == old(c.View());
    }

    method Unsubscribe(ch: Chan)
      requires Valid()
      modifies this`listeners, ch`closed
      ensures Valid()
      ensures View() == After(old(View()), Op.Unsubscribe(ch))
      ensures ch !in issued ==> ch.closed == old(ch.closed)
    {
      if ch in listeners {
        listeners := listeners - {ch};
        ch.Close();
      }
    }

    method Broadcast(data: Frame)
      requires Valid()
      modifies this`history, this`historyBytes, listeners
      ensures Valid()
      ensures View() == After(old(View()), Op.Broadcast(data))
    {
      if closed {
        return;
      }
      Append(data);
      SendToAll(data);
    }

    /** The history part of Broadcast. */
    method Append(data: Frame)
      requires Valid() && !closed
      modifies this`history, this`historyBytes
      ensures Valid()
      ensures history == Remember(old(history), data, maxHistoryBytes)
    {
      if maxHistoryBytes > 0 {
        TotalAppend(history, [data]);
        history := history + [data];
        historyBytes := historyBytes + |data|;
        while historyBytes > maxHistoryBytes && |history| > 0
          invariant historyBytes == Total(history)
          invariant Trim(history, maxHistoryBytes) == Remember(old(history), data, maxHistoryBytes)
          decreases |history|
          modifies this`history, this`historyBytes
        {
          historyBytes := historyBytes - |history[0]|;
          history := history[1..];
        }
      }
    }

    /** The select loop of Broadcast: one non-blocking send a registered listener. */
    method SendToAll(data: Frame)
      requires Valid()
      modifies listeners
      ensures Valid()
      ensures forall ch :: ch in issued ==> ch.View() == Offer(old(ch.View()), data)
    {
      var todo := listeners;
      while todo != {}
        invariant todo <= listeners
        invariant forall ch :: ch in todo ==> ch.View() == old(ch.View())
        invariant forall ch :: ch in issued - todo ==> ch.View() == Offer(old(ch.View()), data)
        decreases todo
        modifies listeners
      {
        var ch :| ch in todo;
        ch.TrySend(data);
        todo := todo - {ch};
      }
    }

    method Reset()
      requires Valid()
      modifies this`history, this`historyBytes
      ensures Valid()
      ensures View() == After(old(View()), Op.Reset)
    {
      history := [];
      historyBytes := 0;
    }

    method Close()
      requires Valid()
      modifies this`listeners, this`history, this`historyBytes, this`closed, listeners
      ensures Valid()
      ensures View() == After(old(View()), Op.Close)
    {
      if closed {
        return;
      }
      closed := true;
      history := [];
      historyBytes := 0;
      ghost var all := listeners;
      while listeners != {}
        invariant listeners <= all
        invariant forall ch :: ch in listeners ==> ch.View() == old(ch.View())
        invariant forall ch :: ch in issued - listeners ==> ch.View() == old(ch.View()).(open := false)
        decreases listeners
        modifies this`listeners, all
      {
        var ch :| ch in listeners;
        listeners := listeners - {ch};
        ch.Close();
      }
    }

    /** A listener's reader takes its next frame, outside the hub's lock. */
    method Receive(ch: Chan) returns (frames: seq<Frame>)
      requires Valid() && ch in issued
      modifies ch`queue, ch`received
      ensures Valid()
      ensures View() == After(old(View()), Op.Receive(ch))
      ensures ch.received == old(ch.received) + frames
    {
      frames := ch.Receive();
    }
  }
}
