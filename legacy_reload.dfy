/**
 * The older reload support (`devserver_lib/src/reload.rs`, compiled with the
 * `reload` feature). Its handshake is the same text as the current one and is
 * modelled by `Reload.ScanKey`, `Reload.HandshakeResponse` and
 * `Reload.HandleHandshake`; what differs is modelled here: every message is
 * the empty text frame, any creation or modification wakes the sessions, and
 * no build runs and nothing is coalesced.
 */
module LegacyReload {
  import opened Wrappers
  import opened Utf8
  import opened Streams
  import Reload

  /** The only frame the older server sends: FIN and text opcode, then a zero length. */
  const EmptyFrame: seq<Byte> := [129, 0]

  /**
   * `send_websocket_message`: the first byte, then the length byte (zero,
   * since there is no payload), in two writes, stopping at the first failure.
   */
  method SendWebsocketMessage(stream: Socket) returns (ok: bool)
    modifies stream
    ensures ok <==> |EmptyFrame| <= old(stream.room)
    ensures stream.sent == old(stream.sent) + Truncate(EmptyFrame, old(stream.room))
    ensures stream.room == old(stream.room) - |Truncate(EmptyFrame, old(stream.room))|
  {
    var payloadLength := 0;
    ok := stream.WriteAll([Reload.FinText]);
    if !ok {
      return;
    }
    var secondByte: Byte := 0;
    secondByte := payloadLength;
    ok := stream.WriteAll([secondByte]);
  }

  /**
   * The empty frame is the frame the current server sends for `None`, and a
   * client reads it as a final text frame with no payload.
   */
  lemma EmptyFrameIsEmptyTextFrame(rest: seq<Byte>)
    ensures EmptyFrame == Reload.FrameBytes(None)
    ensures Reload.ParseFrame(EmptyFrame + rest) == Some((Reload.Frame(true, 0, 1, []), rest))
  {
    assert Reload.Payload(None) == [];
    assert Reload.LowByte(0) == 0;
    Reload.FrameRoundTrip(None, rest);
  }

  /** The watcher callback's filter: any creation and any modification, whatever its sub-kind. */
  predicate Qualifies(e: Reload.WatchEvent) {
    e.Event? && (e.kind.Create? || e.kind.Modify?)
  }

  /**
   * The older filter is strictly wider than the current one: every event that
   * starts a build now woke the sessions before, and so did creations, renames
   * and metadata changes, which no longer do. Watch errors and the other kinds
   * never qualify.
   */
  lemma FilterWiderThanCurrent(e: Reload.WatchEvent)
    ensures Reload.Qualifies(e) ==> Qualifies(e)
    ensures Qualifies(e) <==> e.Event? && (e.kind == Reload.Create || e.kind.Modify?)
    ensures e.WatchError? ==> !Qualifies(e)
    ensures Qualifies(Reload.Event(Reload.Create)) && !Reload.Qualifies(Reload.Event(Reload.Create))
    ensures Qualifies(Reload.Event(Reload.Modify(Reload.Name)))
            && !Reload.Qualifies(Reload.Event(Reload.Modify(Reload.Name)))
    ensures Qualifies(Reload.Event(Reload.Modify(Reload.Metadata)))
            && !Reload.Qualifies(Reload.Event(Reload.Modify(Reload.Metadata)))
  {
  }

  /** How many of `events` qualify. */
  function QualifyingCount(events: seq<Reload.WatchEvent>): (n: nat)
    ensures n <= |events|
    decreases |events|
  {
    if |events| == 0 then 0
    else (if Qualifies(events[0]) then 1 else 0) + QualifyingCount(events[1..])
  }

  /** The watch errors among `events`, in order. */
  function ErrorMessages(events: seq<Reload.WatchEvent>): (messages: seq<string>)
    ensures |messages| <= |events|
    decreases |events|
  {
    if |events| == 0 then []
    else (if events[0].WatchError? then [events[0].message] else []) + ErrorMessages(events[1..])
  }

  lemma {:induction false} CountSnoc(events: seq<Reload.WatchEvent>, e: Reload.WatchEvent)
    ensures QualifyingCount(events + [e]) == QualifyingCount(events) + (if Qualifies(e) then 1 else 0)
    ensures ErrorMessages(events + [e]) == ErrorMessages(events) + (if e.WatchError? then [e.message] else [])
    decreases |events|
  {
    if |events| == 0 {
      assert events + [e] == [e];
      assert [e][1..] == [];
    } else {
      assert (events + [e])[1..] == events[1..] + [e];
      CountSnoc(events[1..], e);
    }
  }

  /**
   * No coalescing: a run of events wakes the sessions once per qualifying
   * event, so a burst of `n` data changes wakes them `n` times where the
   * current watcher wakes them once.
   */
  lemma {:induction false} NoCoalescing(events: seq<Reload.WatchEvent>)
    requires forall i :: 0 <= i < |events| ==> Qualifies(events[i])
    ensures QualifyingCount(events) == |events|
    decreases |events|
  {
    if |events| > 0 {
      NoCoalescing(events[1..]);
    }
  }

  /**
   * The callback's side of the shared state: the number of `notify_all`
   * calls, and the watch errors it printed.
   */
  class Watcher {
    var wakes: nat
    var logged: seq<string>

    constructor ()
      ensures wakes == 0 && logged == []
    {
      wakes := 0;
      logged := [];
    }

    /** The callback for one event: a qualifying event wakes the sessions, an error is printed. */
    method OnEvent(e: Reload.WatchEvent)
      modifies this
      ensures wakes == old(wakes) + (if Qualifies(e) then 1 else 0)
      ensures logged == old(logged) + (if e.WatchError? then [e.message] else [])
    {
      match e
      case Event(kind) =>
        if kind.Create? || kind.Modify? {
          wakes := wakes + 1;
        }
      case WatchError(message) =>
        logged := logged + [message];
    }

    /** The callback run on each event of `events` in turn. */
    method OnEvents(events: seq<Reload.WatchEvent>)
      modifies this
      ensures wakes == old(wakes) + QualifyingCount(events)
      ensures logged == old(logged) + ErrorMessages(events)
    {
      var i := 0;
      while i < |events|
        invariant 0 <= i <= |events|
        invariant wakes == old(wakes) + QualifyingCount(events[..i])
        invariant logged == old(logged) + ErrorMessages(events[..i])
      {
        assert events[..i + 1] == events[..i] + [events[i]];
        CountSnoc(events[..i], events[i]);
        OnEvent(events[i]);
        i := i + 1;
      }
      assert events[..i] == events;
    }
  }

  /** What a session sends for `n` wakes: `n` empty frames. */
  function EmptyFrames(n: nat): (bytes: seq<Byte>)
    ensures |bytes| == 2 * n
    decreases n
  {
    if n == 0 then [] else EmptyFrame + EmptyFrames(n - 1)
  }

  /**
   * The older session is the current one with no outcome to report: its
   * frames are those the current session sends when every wake observes `None`.
   */
  lemma {:induction false} EmptyFramesAreNoneFrames(n: nat)
    ensures EmptyFrames(n) == Reload.Frames(seq(n, _ => None))
    decreases n
  {
    var observed: seq<Option<string>> := seq(n, _ => None);
    var frames := Reload.FrameList(observed);
    if n > 0 {
      EmptyFrameIsEmptyTextFrame([]);
      EmptyFramesAreNoneFrames(n - 1);
      assert frames[1..] == Reload.FrameList(seq(n - 1, _ => None));
      assert frames[0] == EmptyFrame;
    }
  }

  /**
   * One browser session after the handshake: one empty frame per wake,
   * ending at the first failed send, with a prefix of the frames on the wire.
   */
  method SessionLoop(stream: Socket, wakes: nat) returns (ended: bool)
    modifies stream
    ensures stream.sent == old(stream.sent) + Truncate(EmptyFrames(wakes), old(stream.room))
    ensures ended <==> 2 * wakes > old(stream.room)
  {
    var i := 0;
    ghost var done: seq<Byte> := [];
    while i < wakes
      invariant 0 <= i <= wakes
      invariant EmptyFrames(wakes) == done + EmptyFrames(wakes - i)
      invariant |done| <= old(stream.room)
      invariant stream.sent == old(stream.sent) + done
      invariant stream.room == old(stream.room) - |done|
    {
      ghost var rest := EmptyFrames(wakes - i - 1);
      assert EmptyFrames(wakes - i) == EmptyFrame + rest;
      var ok := SendWebsocketMessage(stream);
      Reload.WriteNext(old(stream.sent), old(stream.room), done, EmptyFrame, rest, EmptyFrames(wakes),
                       stream.sent, stream.room);
      if !ok {
        return true;
      }
      AppendAssoc(done, EmptyFrame, rest);
      done := done + EmptyFrame;
      i := i + 1;
    }
    assert done == EmptyFrames(wakes);
    return false;
  }
}
