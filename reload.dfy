/**
 * The live-reload side channel of `src/reload.rs`: the WebSocket opening
 * handshake (section 4.2.2 of RFC 6455), the text frames sent to the browser
 * (section 5.2 of RFC 6455), the build-and-notify step of the file watcher,
 * and the loop of one browser session.
 */
module Reload {
  import opened Wrappers
  import opened Text
  import opened Utf8
  import opened Streams
  import DevServer

  // ---------------------------------------------------------------------------
  // parse_websocket_handshake: the key
  // ---------------------------------------------------------------------------

  const KeyHeader: string := "Sec-WebSocket-Key"

  /** The GUID of section 1.3 of RFC 6455, appended to the key before hashing. */
  const Guid: string := "258EAFA5-E914-47DA-95CA-C5AB0DC85B11"

  /** A line names the key when its text before the first `:` is exactly `Sec-WebSocket-Key`. */
  predicate IsKeyLine(line: string) {
    SplitOn(line, ":")[0] == KeyHeader
  }

  /** A key line without any `:`: indexing its second piece panics. */
  predicate IsBareKeyLine(line: string) {
    IsKeyLine(line) && |SplitOn(line, ":")| == 1
  }

  /**
   * The scan over the header lines, starting from the value `key`: every key
   * line overwrites the value with its trimmed text between the first and the
   * second `:`. `None` is the panic on a key line without a `:`.
   */
  function ScanKey(lines: seq<string>, key: string): Option<string>
    decreases |lines|
  {
    if |lines| == 0 then Some(key)
    else
      var parts := SplitOn(lines[0], ":");
      if parts[0] == KeyHeader then
        if |parts| < 2 then None else ScanKey(lines[1..], Trim(parts[1]))
      else ScanKey(lines[1..], key)
  }

  /**
   * The key loop of `parse_websocket_handshake`: splits the request on `\r\n`
   * and overwrites the key, which starts as `""`, at every key line.
   */
  method ExtractKey(request: string) returns (r: Option<string>)
    ensures r == ScanKey(SplitOn(request, "\r\n"), "")
  {
    var lines := SplitOn(request, "\r\n");
    var key := "";
    var i := 0;
    while i < |lines|
      invariant 0 <= i <= |lines|
      invariant ScanKey(lines, "") == ScanKey(lines[i..], key)
    {
      assert lines[i..][1..] == lines[i + 1..];
      var parts := SplitOn(lines[i], ":");
      if parts[0] == KeyHeader {
        if |parts| < 2 {
          return None;
        }
        key := Trim(parts[1]);
      }
      i := i + 1;
    }
    assert lines[i..] == [];
    return Some(key);
  }

  /** Without a key line the value is the starting one: `""` for the handshake, and no panic. */
  lemma {:induction false} KeyAbsent(lines: seq<string>, key: string)
    requires forall j :: 0 <= j < |lines| ==> !IsKeyLine(lines[j])
    ensures ScanKey(lines, key) == Some(key)
    decreases |lines|
  {
    if |lines| > 0 {
      KeyAbsent(lines[1..], key);
    }
  }

  /**
   * The last key line wins: after it only lines that are not key lines follow,
   * and the key lines before it have a `:`.
   */
  lemma {:induction false} LastKeyWins(pre: seq<string>, line: string, post: seq<string>, key: string)
    requires forall j :: 0 <= j < |pre| ==> !IsBareKeyLine(pre[j])
    requires IsKeyLine(line) && !IsBareKeyLine(line)
    requires forall j :: 0 <= j < |post| ==> !IsKeyLine(post[j])
    ensures ScanKey(pre + [line] + post, key) == Some(Trim(SplitOn(line, ":")[1]))
    decreases |pre|
  {
    var lines := pre + [line] + post;
    if |pre| == 0 {
      assert lines[1..] == post;
      KeyAbsent(post, Trim(SplitOn(line, ":")[1]));
    } else {
      assert lines[0] == pre[0];
      assert lines[1..] == pre[1..] + [line] + post;
      var parts := SplitOn(pre[0], ":");
      var next := if parts[0] == KeyHeader then Trim(parts[1]) else key;
      LastKeyWins(pre[1..], line, post, next);
    }
  }

  /** The scan panics exactly when some key line has no `:`. */
  lemma {:induction false} KeyScanPanics(lines: seq<string>, key: string)
    ensures ScanKey(lines, key).None? <==> exists j :: 0 <= j < |lines| && IsBareKeyLine(lines[j])
    decreases |lines|
  {
    if |lines| > 0 {
      var parts := SplitOn(lines[0], ":");
      var next := if parts[0] == KeyHeader && |parts| >= 2 then Trim(parts[1]) else key;
      assert ScanKey(lines, key)
             == if IsBareKeyLine(lines[0]) then None else ScanKey(lines[1..], next);
      KeyScanPanics(lines[1..], next);
      if exists j :: 0 <= j < |lines[1..]| && IsBareKeyLine(lines[1..][j]) {
        var j :| 0 <= j < |lines[1..]| && IsBareKeyLine(lines[1..][j]);
        assert lines[1..][j] == lines[j + 1];
      }
      if exists j :: 0 <= j < |lines| && IsBareKeyLine(lines[j]) {
        var j :| 0 <= j < |lines| && IsBareKeyLine(lines[j]);
        if j > 0 {
          assert lines[1..][j - 1] == lines[j];
        }
      }
    }
  }

  /** A line that is exactly `Sec-WebSocket-Key` is a bare key line, so the handshake thread panics on it. */
  lemma BareKeyHeader(line: string)
    requires line == KeyHeader
    ensures IsBareKeyLine(line)
  {
    assert forall i :: 0 <= i < |line| ==> line[i] != ':';
    SplitOnPlain(line, ":");
  }

  // ---------------------------------------------------------------------------
  // parse_websocket_handshake: the response
  // ---------------------------------------------------------------------------

  /**
   * `Sec-WebSocket-Accept`: the Base64 text of the SHA-1 digest of the key
   * followed by the GUID (section 4.2.2 of RFC 6455). SHA-1 and Base64 are
   * the crates' functions, taken as parameters.
   */
  function AcceptToken(key: string, sha1: seq<Byte> -> seq<Byte>, base64: seq<Byte> -> string): string {
    base64(sha1(Encode(key + Guid)))
  }

  const SwitchingProtocols: string := "HTTP/1.1 101 Switching Protocols"
  const UpgradeLine: string := "Upgrade: websocket"
  const ConnectionLine: string := "Connection: Upgrade"
  const AcceptPrefix: string := "Sec-WebSocket-Accept: "

  /** The 101 response, with the accept token in its last header. */
  function HandshakeResponse(token: string): string {
    SwitchingProtocols + "\r\n" + (UpgradeLine + "\r\n" + (ConnectionLine + "\r\n" + (AcceptPrefix + token + "\r\n\r\n")))
  }

  lemma HeaderConstantsAvoidCr()
    ensures Avoids(SwitchingProtocols, '\r') && Avoids(UpgradeLine, '\r')
    ensures Avoids(ConnectionLine, '\r') && Avoids(AcceptPrefix, '\r')
  {
  }

  /**
   * The response is the status line and exactly three header lines, then the
   * blank line that ends the header, as long as the token holds no `\r`.
   */
  lemma HandshakeLines(token: string)
    requires Avoids(token, '\r')
    ensures SplitOn(HandshakeResponse(token), "\r\n")
            == [SwitchingProtocols, UpgradeLine, ConnectionLine, AcceptPrefix + token, "", ""]
  {
    HeaderConstantsAvoidCr();
    AvoidsConcat(AcceptPrefix, token, '\r');
    FourLines(SwitchingProtocols, UpgradeLine, ConnectionLine, AcceptPrefix + token);
  }

  /** Four lines without `\r`, then the blank line, split on `\r\n`. */
  lemma FourLines(a: string, b: string, c: string, d: string)
    requires Avoids(a, '\r') && Avoids(b, '\r') && Avoids(c, '\r') && Avoids(d, '\r')
    ensures SplitOn(a + "\r\n" + (b + "\r\n" + (c + "\r\n" + (d + "\r\n\r\n"))), "\r\n")
            == [a, b, c, d, "", ""]
  {
    var t3 := d + "\r\n\r\n";
    BlankLineEnd(d);
    var t2 := c + "\r\n" + t3;
    CrlfLine(c, t3);
    var t1 := b + "\r\n" + t2;
    CrlfLine(b, t2);
    CrlfLine(a, t1);
  }

  /**
   * `handle_websocket_handshake`: reads the header, scans it for the key and
   * writes the 101 response. A panic in the scan writes nothing; a failed
   * write panics after emitting a prefix. `accepted` is whether the thread goes
   * on to the session loop.
   */
  method HandleHandshake(stream: Socket, input: seq<Byte>, request: string,
                         sha1: seq<Byte> -> seq<Byte>, base64: seq<Byte> -> string) returns (accepted: bool)
    requires DevServer.HeaderLength(input).Some?
    requires Encode(request) == input[..DevServer.HeaderLength(input).value]
    modifies stream
    ensures match ScanKey(SplitOn(request, "\r\n"), "")
            case None => !accepted && stream.sent == old(stream.sent)
            case Some(key) =>
              var response := Encode(HandshakeResponse(AcceptToken(key, sha1, base64)));
              (accepted <==> |response| <= old(stream.room)) &&
              stream.sent == old(stream.sent) + Truncate(response, old(stream.room))
  {
    var header := DevServer.ReadHeader(input);
    var key := ExtractKey(request);
    if key.None? {
      return false;
    }
    var response := HandshakeResponse(AcceptToken(key.value, sha1, base64));
    accepted := stream.WriteAll(Encode(response));
  }

  // ---------------------------------------------------------------------------
  // send_websocket_message
  // ---------------------------------------------------------------------------

  /** FIN set, no extension bits, opcode 0x1 (text): `1000_0001`. */
  const FinText: Byte := 129

  /** The bytes of the message, none for `None`. */
  function Payload(msg: Option<string>): seq<Byte> {
    if msg.Some? then Encode(msg.value) else []
  }

  /**
   * The frame the server writes: the first byte, the payload length cast to
   * a byte (`as u8` keeps the low eight bits), and the payload.
   */
  function FrameBytes(msg: Option<string>): seq<Byte> {
    [FinText, LowByte(|Payload(msg)|)] + Payload(msg)
  }

  /** `n as u8`: what is left of `n` once whole multiples of 256 are dropped. */
  function LowByte(n: nat): (b: Byte)
    ensures b <= n
    decreases n
  {
    if n < 256 then n else LowByte(n - 256)
  }

  /** The cast keeps the low eight bits: it is the remainder modulo 256. */
  lemma {:induction false} LowByteIsRemainder(n: nat)
    ensures LowByte(n) == n % 256
    ensures n < 256 ==> LowByte(n) == n
    decreases n
  {
    if n >= 256 {
      LowByteIsRemainder(n - 256);
    }
  }

  /**
   * `send_websocket_message`: writes the first byte, the length byte and the
   * payload in three writes, stopping at the first failure. What reaches the
   * wire is a prefix of the frame, the whole frame when the call succeeds.
   */
  method SendWebsocketMessage(stream: Socket, msg: Option<string>) returns (ok: bool)
    modifies stream
    ensures ok <==> |FrameBytes(msg)| <= old(stream.room)
    ensures stream.sent == old(stream.sent) + Truncate(FrameBytes(msg), old(stream.room))
    ensures stream.room == old(stream.room) - |Truncate(FrameBytes(msg), old(stream.room))|
  {
    var payload := Payload(msg);
    var secondByte := LowByte(|payload|);
    ghost var sent0, room0 := stream.sent, stream.room;
    ghost var frame := FrameBytes(msg);
    var first: seq<Byte>, second: seq<Byte> := [FinText], [secondByte];
    ghost var head := first + second;
    assert frame == head + payload;
    Regroup(frame, first, second, payload);
    ok := stream.WriteAll(first);
    WriteNext(sent0, room0, [], first, second + payload, frame, stream.sent, stream.room);
    if !ok {
      return;
    }
    ok := stream.WriteAll(second);
    WriteNext(sent0, room0, first, second, payload, frame, stream.sent, stream.room);
    if !ok {
      return;
    }
    if msg.Some? {
      ok := stream.WriteAll(payload);
    }
    WriteNext(sent0, room0, head, payload, [], frame, stream.sent, stream.room);
  }

  /**
   * One more write on a connection that started with `room0` bytes of room
   * and has carried `done`: it either carries `next` whole, or breaks inside
   * it, in which case what was sent is the cut of any longer stream
   * `all` that continues with `next`.
   */
  lemma WriteNext(sent0: seq<Byte>, room0: nat, done: seq<Byte>, next: seq<Byte>, rest: seq<Byte>,
                  all: seq<Byte>, sent: seq<Byte>, room: nat)
    requires all == done + (next + rest)
    requires |done| <= room0
    requires sent == sent0 + done + Truncate(next, room0 - |done|)
    requires room == room0 - |done| - |Truncate(next, room0 - |done|)|
    ensures |next| <= room0 - |done| ==> sent == sent0 + (done + next) && room == room0 - |done + next|
    ensures |next| > room0 - |done| ==>
              |all| > room0 && sent == sent0 + Truncate(all, room0) &&
              room == room0 - |Truncate(all, room0)|
  {
    TruncateAppend(done, next + rest, room0);
    TruncateAppend(next, rest, room0 - |done|);
  }

  // ---------------------------------------------------------------------------
  // Reading a frame back (section 5.2 of RFC 6455)
  // ---------------------------------------------------------------------------

  /** A frame as a client reads it. */
  datatype Frame = Frame(fin: bool, rsv: nat, opcode: nat, payload: seq<Byte>)

  /** The unsigned big-endian number in `s`. */
  function BigEndian(s: seq<Byte>): nat
    decreases |s|
  {
    if |s| == 0 then 0 else BigEndian(s[..|s| - 1]) * 256 + s[|s| - 1]
  }

  /**
   * The reading of section 5.2 of RFC 6455 for a frame from the server: the
   * first byte gives FIN, RSV1-3 and the opcode; the mask bit must be clear
   * (section 5.1); a 7-bit length of 126 or 127 announces a 16- or 64-bit
   * extended length. Returns the frame and the bytes after it.
   */
  function ParseFrame(bytes: seq<Byte>): Option<(Frame, seq<Byte>)> {
    if |bytes| < 2 || bytes[1] >= 128 then None
    else if bytes[1] < 126 then FrameBody(bytes, 2, bytes[1])
    else if bytes[1] == 126 then
      if |bytes| < 4 then None else FrameBody(bytes, 4, BigEndian(bytes[2..4]))
    else
      if |bytes| < 10 then None else FrameBody(bytes, 10, BigEndian(bytes[2..10]))
  }

  /** The frame whose header is `header` bytes long and whose payload is `len` bytes long. */
  function FrameBody(bytes: seq<Byte>, header: nat, len: nat): Option<(Frame, seq<Byte>)>
    requires 1 <= header <= |bytes|
  {
    if |bytes| < header + len then None
    else
      var b0 := bytes[0];
      Some((Frame(b0 >= 128, (b0 / 16) % 8, b0 % 16, bytes[header..header + len]), bytes[header + len..]))
  }

  /**
   * A message of at most 125 bytes is sent as one final, unmasked text frame
   * carrying exactly the message, and the reader resumes after it. `None`
   * gives the empty text frame.
   */
  lemma FrameRoundTrip(msg: Option<string>, rest: seq<Byte>)
    requires |Payload(msg)| <= 125
    ensures ParseFrame(FrameBytes(msg) + rest) == Some((Frame(true, 0, 1, Payload(msg)), rest))
  {
    var bytes := FrameBytes(msg) + rest;
    var n := |Payload(msg)|;
    assert bytes[0] == FinText && bytes[1] == n;
    assert bytes[2..2 + n] == Payload(msg);
    assert bytes[2 + n..] == rest;
  }

  /**
   * The `as u8` cast breaks every longer message: a frame of more than 125
   * payload bytes is either refused (the length byte sets the mask bit, or
   * announces an extended length the frame does not hold) or read with a
   * payload of another length.
   */
  lemma LongFrameMisread(msg: Option<string>)
    requires |Payload(msg)| > 125
    ensures var r := ParseFrame(FrameBytes(msg));
            r.None? || r.value.0.payload != Payload(msg)
  {
    var bytes := FrameBytes(msg);
    var n := |Payload(msg)|;
    assert |bytes| == n + 2;
    assert bytes[1] == LowByte(n);
  }

  // ---------------------------------------------------------------------------
  // The watcher thread: build, notify, drain
  // ---------------------------------------------------------------------------

  datatype ModifyKind = ModifyAny | Data | Metadata | Name | ModifyOther

  /** The kinds of file-system event the watcher reports. */
  datatype EventKind = AnyEvent | Access | Create | Modify(change: ModifyKind) | Remove | OtherEvent

  /** What the watcher's channel delivers: an event, or a watch error (which is only logged). */
  datatype WatchEvent = Event(kind: EventKind) | WatchError(message: string)

  /** Only a change to a file's data starts a build. */
  predicate Qualifies(e: WatchEvent) {
    e.Event? && e.kind == Modify(Data)
  }

  /** The result one action returns; a failure carries the error's display text. */
  datatype ActionResult = Success | Failure(message: string)

  /** The index of the first failing action, if any. */
  function FirstFailureIndex(results: seq<ActionResult>): (r: Option<nat>)
    ensures r.Some? ==> r.value < |results| && results[r.value].Failure? &&
                        forall j :: 0 <= j < r.value ==> results[j].Success?
    ensures r.None? ==> forall j :: 0 <= j < |results| ==> results[j].Success?
    decreases |results|
  {
    if |results| == 0 then None
    else if results[0].Failure? then Some(0)
    else match FirstFailureIndex(results[1..])
      case None => None
      case Some(i) => Some(i + 1)
  }

  /** The outcome a build leaves behind: the text of the first failure, or `None`. */
  function FirstFailure(results: seq<ActionResult>): (r: Option<string>)
    ensures r.None? <==> forall j :: 0 <= j < |results| ==> results[j].Success?
    ensures r.Some? ==> exists i :: 0 <= i < |results| && results[i] == Failure(r.value) &&
                                    forall j :: 0 <= j < i ==> results[j].Success?
  {
    match FirstFailureIndex(results)
    case None => None
    case Some(i) =>
      assert results[i] == Failure(results[i].message);
      Some(results[i].message)
  }

  /** How many actions a build invokes: all of them, or those up to and including the first failure. */
  function ActionsRun(results: seq<ActionResult>): (n: nat)
    ensures n <= |results|
    ensures n < |results| ==> n > 0 && results[n - 1].Failure?
    ensures forall j :: 0 <= j < n - 1 ==> results[j].Success?
  {
    match FirstFailureIndex(results)
    case None => |results|
    case Some(i) => i + 1
  }

  /** The worked case of an action list whose second action fails: the third is never invoked. */
  lemma SecondActionFails(results: seq<ActionResult>, message: string)
    requires |results| == 3 && results[0].Success? && results[1] == Failure(message)
    ensures FirstFailure(results) == Some(message) && ActionsRun(results) == 2
  {
    assert FirstFailureIndex(results) == Some(1);
  }

  /**
   * The state the watcher thread shares with the sessions: the outcome of the
   * last build (the mutex's `Option<String>`), the number of `notify_all`
   * calls, the log of the actions invoked (by index, per build), and the
   * events waiting in the channel. `builds` records each build's outcome.
   */
  class Watcher {
    var outcome: Option<string>
    var wakes: nat
    var invoked: seq<nat>
    var queue: seq<WatchEvent>
    ghost var builds: seq<Option<string>>

    /** Every wake follows one build, and the outcome is the last build's. */
    ghost predicate Valid()
      reads this
    {
      wakes == |builds| && outcome == (if |builds| == 0 then None else builds[|builds| - 1])
    }

    constructor ()
      ensures Valid()
      ensures outcome == None && wakes == 0 && invoked == [] && queue == [] && builds == []
    {
      outcome := None;
      wakes := 0;
      invoked := [];
      queue := [];
      builds := [];
    }

    /** The watcher sends an event into the channel. */
    method Deliver(e: WatchEvent)
      requires Valid()
      modifies this
      ensures Valid()
      ensures queue == old(queue) + [e]
      ensures outcome == old(outcome) && wakes == old(wakes) && invoked == old(invoked) && builds == old(builds)
    {
      queue := queue + [e];
    }

    /**
     * One turn of the watcher thread: receives the next event; on a data
     * change resets the outcome, runs the actions in order until the first
     * failure (whose text becomes the outcome), wakes the sessions and drops
     * every event still queued. Any other event, and a watch error, changes
     * nothing else. `results` is what the actions return in this build.
     */
    method Step(results: seq<ActionResult>)
      requires Valid() && |queue| > 0
      modifies this
      ensures Valid()
      ensures Qualifies(old(queue[0])) ==>
                outcome == FirstFailure(results) && wakes == old(wakes) + 1 && queue == [] &&
                invoked == old(invoked) + seq(ActionsRun(results), j => j) &&
                builds == old(builds) + [outcome]
      ensures !Qualifies(old(queue[0])) ==>
                outcome == old(outcome) && wakes == old(wakes) && queue == old(queue[1..]) &&
                invoked == old(invoked) && builds == old(builds)
    {
      var e := queue[0];
      queue := queue[1..];
      if e.Event? && e.kind == Modify(Data) {
        Build(results);
        wakes := wakes + 1;
        builds := builds + [outcome];
        queue := [];
      }
    }

    /**
     * One build under the lock: the outcome is reset, then the actions run in
     * order until the first failure, whose text becomes the outcome.
     */
    method Build(results: seq<ActionResult>)
      modifies this
      ensures outcome == FirstFailure(results)
      ensures invoked == old(invoked) + seq(ActionsRun(results), j => j)
      ensures wakes == old(wakes) && queue == old(queue) && builds == old(builds)
    {
      outcome := None;
      var i := 0;
      while i < |results|
        invariant 0 <= i <= |results|
        invariant outcome == None
        invariant forall j :: 0 <= j < i ==> results[j].Success?
        invariant invoked == old(invoked) + seq(i, j => j)
        invariant wakes == old(wakes) && queue == old(queue) && builds == old(builds)
      {
        invoked := invoked + [i];
        assert seq(i, j => j) + [i] == seq(i + 1, j => j);
        if results[i].Failure? {
          outcome := Some(results[i].message);
          assert FirstFailureIndex(results) == Some(i);
          return;
        }
        i := i + 1;
      }
      assert FirstFailureIndex(results) == None;
    }

    /**
     * The watcher thread working through everything queued: a burst of
     * events yields at most one build, and exactly one when any of them is a
     * data change.
     */
    method RunToIdle(results: seq<ActionResult>)
      requires Valid()
      modifies this
      ensures Valid() && queue == []
      ensures (exists i :: 0 <= i < |old(queue)| && Qualifies(old(queue)[i])) ==>
                wakes == old(wakes) + 1 && outcome == FirstFailure(results) &&
                invoked == old(invoked) + seq(ActionsRun(results), j => j) &&
                builds == old(builds) + [outcome]
      ensures (forall i :: 0 <= i < |old(queue)| ==> !Qualifies(old(queue)[i])) ==>
                wakes == old(wakes) && outcome == old(outcome) && builds == old(builds) &&
                invoked == old(invoked)
    {
      ghost var k := 0;
      ghost var built := false;
      while |queue| > 0
        invariant Valid()
        invariant 0 <= k <= |old(queue)|
        invariant forall i :: 0 <= i < k ==> !Qualifies(old(queue)[i])
        invariant !built ==> queue == old(queue)[k..] && wakes == old(wakes) &&
                             outcome == old(outcome) && builds == old(builds) && invoked == old(invoked)
        invariant built ==> queue == [] && k < |old(queue)| && Qualifies(old(queue)[k]) &&
                            wakes == old(wakes) + 1 && outcome == FirstFailure(results) &&
                            invoked == old(invoked) + seq(ActionsRun(results), j => j) &&
                            builds == old(builds) + [outcome]
        decreases |queue|
      {
        assert queue[0] == old(queue)[k];
        if Qualifies(queue[0]) {
          Step(results);
          built := true;
        } else {
          Step(results);
          assert old(queue)[k + 1..] == old(queue)[k..][1..];
          k := k + 1;
        }
      }
    }
  }

  // ---------------------------------------------------------------------------
  // The session loop
  // ---------------------------------------------------------------------------

  /** The frame for each wake, carrying the outcome observed at that wake. */
  function FrameList(observed: seq<Option<string>>): (frames: seq<seq<Byte>>)
    ensures |frames| == |observed|
    ensures forall k :: 0 <= k < |observed| ==> frames[k] == FrameBytes(observed[k])
  {
    seq(|observed|, k requires 0 <= k < |observed| => FrameBytes(observed[k]))
  }

  /** Everything a session sends for a run of wakes, frame after frame. */
  function Frames(observed: seq<Option<string>>): seq<Byte> {
    Concat(FrameList(observed))
  }

  /**
   * One browser session after the handshake: at each wake it sends a frame
   * with the outcome it observes, and it ends at the first failed send. What
   * reaches the browser is a prefix of all the frames, cut where the
   * connection broke.
   */
  method SessionLoop(stream: Socket, observed: seq<Option<string>>) returns (ended: bool)
    modifies stream
    ensures stream.sent == old(stream.sent) + Truncate(Frames(observed), old(stream.room))
    ensures ended <==> |Frames(observed)| > old(stream.room)
  {
    var i := 0;
    ghost var frames := FrameList(observed);
    ghost var done: seq<Byte> := [];
    while i < |observed|
      invariant 0 <= i <= |observed|
      invariant Concat(frames) == done + Concat(frames[i..])
      invariant |done| <= old(stream.room)
      invariant stream.sent == old(stream.sent) + done
      invariant stream.room == old(stream.room) - |done|
    {
      ghost var rest := Concat(frames[i + 1..]);
      assert Concat(frames[i..]) == frames[i] + rest by {
        assert frames[i..][1..] == frames[i + 1..];
      }
      var ok := SendWebsocketMessage(stream, observed[i]);
      WriteNext(old(stream.sent), old(stream.room), done, frames[i], rest, Concat(frames),
                stream.sent, stream.room);
      if !ok {
        return true;
      }
      AppendAssoc(done, frames[i], rest);
      done := done + frames[i];
      i := i + 1;
    }
    assert |frames[i..]| == 0;
    return false;
  }
}
