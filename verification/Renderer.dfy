/** The DLNA media renderer of dlna/server.go and dlna/soap.go: what each section under its mutex
    does to the transport state, and the object with those sections as methods. */
module Renderer {
  datatype TransportState = NoMediaPresent | Stopped | Playing | PausedPlayback

  /** `activeSession` is "" when there is none; `media` maps a session id to the remote URL. */
  datatype State = State(currentURI: string, currentMetadata: string, transportState: TransportState,
                         activeSession: string, media: map<string, string>, nextID: nat)

  const INITIAL := State("", "", NoMediaPresent, "", map[], 0)

  function HexDigit(n: nat): char
    requires n < 16
  {
    "0123456789abcdef"[n]
  }

  function Hex(n: nat): (s: string)
    ensures |s| >= 1
  {
    if n < 16 then [HexDigit(n)] else Hex(n / 16) + [HexDigit(n % 16)]
  }

  /** `fmt.Sprintf("d%x", n)`. */
  function MediaId(n: nat): (id: string)
    ensures id != "" && id[0] == 'd'
  {
    "d" + Hex(n)
  }

  lemma DigitInjective(a: nat, b: nat)
    requires a < 16 && b < 16 && HexDigit(a) == HexDigit(b)
    ensures a == b
  {
  }

  lemma {:induction false} HexInjective(a: nat, b: nat)
    requires Hex(a) == Hex(b)
    ensures a == b
  {
    hide HexDigit;
    var s := Hex(a);
    assert s[|s| - 1] == HexDigit(a % 16) && Hex(b)[|s| - 1] == HexDigit(b % 16);
    DigitInjective(a % 16, b % 16);
    if a >= 16 && b >= 16 {
      assert Hex(a / 16) == s[..|s| - 1] == Hex(b / 16);
      HexInjective(a / 16, b / 16);
    }
  }

  /** No two media sessions share an id. */
  lemma MediaIdInjective(a: nat, b: nat)
    requires MediaId(a) == MediaId(b)
    ensures a == b
  {
    assert MediaId(a)[1..] == Hex(a) && MediaId(b)[1..] == Hex(b);
    HexInjective(a, b);
  }

  // ----- the sections -----

  function NewMedia(s: State, uri: string): (State, string) {
    var id := MediaId(s.nextID + 1);
    (s.(nextID := s.nextID + 1, media := s.media[id := uri]), id)
  }

  /** The locked part of `cancelMedia`, and whether the session was the active one. */
  function CancelMedia(s: State, id: string): (State, bool) {
    var without := s.(media := s.media - {id});
    if s.activeSession == id
    then (without.(activeSession := "", transportState := Stopped), true)
    else (without, false)
  }

  /** The end of Play: the session becomes active if it was granted and not cancelled meanwhile. */
  function Commit(s: State, id: string, granted: bool): (State, bool) {
    if granted && id in s.media
    then (s.(activeSession := id, transportState := Playing), true)
    else (s, false)
  }

  function StoreURI(s: State, uri: string, metadata: string): State {
    s.(currentURI := uri, currentMetadata := metadata, transportState := Stopped)
  }

  function StoreHalt(s: State, paused: bool): State {
    s.(transportState := if paused then PausedPlayback else Stopped)
  }

  // ----- the object -----

  class Server {
    var currentURI: string
    var currentMetadata: string
    var transportState: TransportState
    var activeSession: string
    var media: map<string, string>
    var nextID: nat

    function View(): State
      reads this
    {
      State(currentURI, currentMetadata, transportState, activeSession, media, nextID)
    }

    constructor ()
      ensures View() == INITIAL
    {
      currentURI, currentMetadata, transportState := "", "", NoMediaPresent;
      activeSession, media, nextID := "", map[], 0;
    }

    method NewMediaSession(remoteURL: string) returns (id: string)
      modifies this
      ensures (View(), id) == NewMedia(old(View()), remoteURL)
    {
      nextID := nextID + 1;
      id := MediaId(nextID);
      media := media[id := remoteURL];
    }

    method CancelMediaLocked(id: string) returns (wasActive: bool)
      modifies this
      ensures (View(), wasActive) == CancelMedia(old(View()), id)
    {
      if id in media {
        media := media - {id};
      }
      assert media == old(media) - {id};
      wasActive := activeSession == id;
      if wasActive {
        activeSession := "";
        transportState := Stopped;
      }
    }

    method CommitPlay(id: string, granted: bool) returns (committed: bool)
      modifies this
      ensures (View(), committed) == Commit(old(View()), id, granted)
    {
      var present := id in media;
      if granted && present {
        activeSession := id;
        transportState := Playing;
      }
      committed := granted && present;
    }

    method SetURI(uri: string, metadata: string)
      modifies this
      ensures View() == StoreURI(old(View()), uri, metadata)
    {
      currentURI := uri;
      currentMetadata := metadata;
      transportState := Stopped;
    }

    method SetHalted(paused: bool)
      modifies this
      ensures View() == StoreHalt(old(View()), paused)
    {
      transportState := if paused then PausedPlayback else Stopped;
    }
  }
}
