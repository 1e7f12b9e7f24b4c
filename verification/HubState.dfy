/** The audio stream hub of airplay/server.go on values: what it remembers and what each of its
    operations does to the history and to every listener's queue. */
module HubState {
  import opened MachineInt

  type Frame = seq<byte>

  /** Room a listener's queue has beyond the history it starts with. */
  const LIVE_FRAMES := 128

  /** A listener: `received` is what its reader has taken out of `queue` so far. */
  datatype Listener = Listener(queue: seq<Frame>, capacity: nat, open: bool, received: seq<Frame>)

  /** `listeners` holds every listener ever handed out; the open ones are registered. */
  datatype State<K> = State(history: seq<Frame>, limit: int, closed: bool, listeners: map<K, Listener>)

  datatype Op<K> =
    | Subscribe(id: K)
    | Unsubscribe(id: K)
    | Broadcast(data: Frame)
    | Reset
    | Close
    | Receive(id: K)

  function Total(frames: seq<Frame>): nat {
    if frames == [] then 0 else |frames[0]| + Total(frames[1..])
  }

  /** Frames dropped from the front until the rest fits. */
  function Trim(frames: seq<Frame>, limit: int): seq<Frame> {
    if Total(frames) > limit && frames != [] then Trim(frames[1..], limit) else frames
  }

  /** The history after a broadcast; without a positive limit none is kept. */
  function Remember(history: seq<Frame>, data: Frame, limit: int): seq<Frame> {
    if limit > 0 then Trim(history + [data], limit) else history
  }

  /** A send that gives up when the queue is full, and that only registered listeners get. */
  function Offer(l: Listener, data: Frame): Listener {
    if l.open && |l.queue| < l.capacity then l.(queue := l.queue + [data]) else l
  }

  /** Taking the oldest frame, if there is one. */
  function Take(l: Listener): Listener {
    if l.queue == [] then l else l.(queue := l.queue[1..], received := l.received + [l.queue[0]])
  }

  function After<K>(s: State<K>, op: Op<K>): State<K> {
    match op
    case Subscribe(id) =>
      var l := if s.closed then Listener([], 0, false, [])
               else Listener(s.history, |s.history| + LIVE_FRAMES, true, []);
      s.(listeners := s.listeners[id := l])
    case Unsubscribe(id) =>
      if id in s.listeners then s.(listeners := s.listeners[id := s.listeners[id].(open := false)]) else s
    case Broadcast(data) =>
      if s.closed then s
      else s.(history := Remember(s.history, data, s.limit),
              listeners := map id | id in s.listeners :: Offer(s.listeners[id], data))
    case Reset =>
      s.(history := [])
    case Close =>
      if s.closed then s
      else s.(closed := true, history := [],
              listeners := map id | id in s.listeners :: s.listeners[id].(open := false))
    case Receive(id) =>
      if id in s.listeners then s.(listeners := s.listeners[id := Take(s.listeners[id])]) else s
  }

  function Init<K>(limit: int): State<K> {
    State([], limit, false, map[])
  }

  lemma {:induction false} TotalAppend(a: seq<Frame>, b: seq<Frame>)
    ensures Total(a + b) == Total(a) + Total(b)
  {
    if a == [] {
      assert a + b == b;
    } else {
      assert (a + b)[1..] == a[1..] + b;
      TotalAppend(a[1..], b);
    }
  }
}
