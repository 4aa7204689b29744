/**
 * RemoteLegacy: the connection object. It holds the socket, the endpoint
 * configuration (whose paired flag it updates), the worker-thread and
 * loop-event flags, and the list of pending control callbacks. The socket is
 * a Stream: the bytes the TV will send, a read cursor and the packets sent.
 */
module RemoteLegacy {
  import opened Bytes
  import opened Response
  import Framing
  import Utf8

  /** The endpoint configuration the caller owns; only paired is written here. */
  class Config {
    const description: seq<Byte>
    const id: seq<Byte>
    const name: seq<Byte>
    var paired: bool

    constructor (description: seq<Byte>, id: seq<Byte>, name: seq<Byte>, paired: bool)
      ensures this.description == description && this.id == id && this.name == name
      ensures this.paired == paired
    {
      this.description := description;
      this.id := id;
      this.name := name;
      this.paired := paired;
    }
  }

  /** A connected TCP socket: incoming bytes with a read cursor, outgoing packets. */
  class Stream {
    const data: seq<Byte>
    var pos: nat
    var sent: seq<seq<Byte>>

    ghost predicate Valid()
      reads this
    {
      pos <= |data|
    }

    constructor (data: seq<Byte>)
      ensures Valid() && this.data == data && pos == 0 && sent == []
    {
      this.data := data;
      pos := 0;
      sent := [];
    }

    /** recv(n): up to n bytes, fewer when the stream ends. */
    method Recv(n: nat) returns (chunk: seq<Byte>)
      requires Valid()
      modifies this`pos
      ensures Valid()
      ensures chunk == RecvAt(data, old(pos), n) && pos == old(pos) + |chunk|
    {
      chunk := data[pos..Min(pos + n, |data|)];
      pos := pos + |chunk|;
    }

    method Send(packet: seq<Byte>)
      modifies this`sent
      ensures sent == old(sent) + [packet]
    {
      sent := sent + [packet];
    }

    /** shutdown(SHUT_RDWR): every later recv sees the end of the stream. */
    method Shutdown()
      requires Valid()
      modifies this`pos
      ensures Valid() && pos == |data|
    {
      pos := |data|;
    }
  }

  /** list.remove(x): drop the first occurrence of x. */
  function RemoveFirst(s: seq<CallbackId>, x: CallbackId): (r: seq<CallbackId>)
    ensures x in s ==> |r| == |s| - 1
    ensures x !in s ==> r == s
    decreases |s|
  {
    if s == [] then []
    else if s[0] == x then s[1..]
    else [s[0]] + RemoveFirst(s[1..], x)
  }

  /** Position of the first occurrence of x. */
  function FirstIndex(s: seq<CallbackId>, x: CallbackId): (i: nat)
    requires x in s
    ensures i < |s| && s[i] == x
    decreases |s|
  {
    if s[0] == x then 0 else 1 + FirstIndex(s[1..], x)
  }

  /** The occurrence removed is the first one, and the entries around it keep their order. */
  lemma {:induction false} RemoveFirstDropsFirst(s: seq<CallbackId>, x: CallbackId)
    requires x in s
    ensures var i := FirstIndex(s, x); x !in s[..i] && RemoveFirst(s, x) == s[..i] + s[i + 1..]
    decreases |s|
  {
    if s[0] == x {
      assert s[..0] == [];
    } else {
      RemoveFirstDropsFirst(s[1..], x);
      var i := FirstIndex(s[1..], x);
      assert s[..i + 1] == [s[0]] + s[1..][..i];
      assert s[i + 2..] == s[1..][i + 1..];
    }
  }

  /** Removing exactly one occurrence: the multiset loses one x and nothing else. */
  lemma {:induction false} RemoveFirstMultiset(s: seq<CallbackId>, x: CallbackId)
    requires x in s
    ensures multiset(RemoveFirst(s, x)) == multiset(s) - multiset{x}
    decreases |s|
  {
    assert s == [s[0]] + s[1..];
    if s[0] != x {
      RemoveFirstMultiset(s[1..], x);
    }
  }

  /** Appending a fresh callback and then removing it restores the list. */
  lemma {:induction false} RemoveFirstAppended(s: seq<CallbackId>, x: CallbackId)
    requires x !in s
    ensures RemoveFirst(s + [x], x) == s
    decreases |s|
  {
    if s == [] {
    } else {
      assert (s + [x])[1..] == s[1..] + [x];
      RemoveFirstAppended(s[1..], x);
    }
  }

  /** The key that power = False sends. */
  const KeyPowerOff: seq<Byte> := [75, 69, 89, 95, 80, 79, 87, 69, 82, 79, 70, 70]  // "KEY_POWEROFF"

  lemma PowerOffPacketFits()
    ensures Framing.ControlPacket(KeyPowerOff).Some?
  {
    Framing.ControlPacketLimit(KeyPowerOff);
  }

  class Remote {
    const config: Config
    var sock: Stream?
    /** Whether a response-loop worker thread is registered. */
    var thread: bool
    /** _loop_event: set by close to ask the worker to stop. */
    var loopEvent: bool
    var callbacks: seq<CallbackId>
    /** _receive_event: set by every callback. */
    var receiveEvent: bool
    /** The callbacks invoked so far, in order. */
    var invoked: seq<CallbackId>

    ghost predicate Valid()
      reads this, sock
    {
      (thread ==> sock != null) && (sock != null ==> sock.Valid())
    }

    /** The part of the state that reads act on. */
    function Snapshot(): Session
      reads this, config
    {
      Session(config.paired, callbacks, invoked, receiveEvent)
    }

    /** The power query: on exactly when a socket is held; no I/O. */
    function Power(): bool
      reads this
    {
      sock != null
    }

    constructor (config: Config)
      ensures Valid() && this.config == config
      ensures sock == null && !thread && !loopEvent && callbacks == [] && !receiveEvent && invoked == []
    {
      this.config := config;
      sock := null;
      thread := false;
      loopEvent := false;
      callbacks := [];
      receiveEvent := false;
      invoked := [];
    }

    /** The body of a callback registered by control: set the receive event. */
    method Invoke(cb: CallbackId)
      modifies this`receiveEvent, this`invoked
      ensures receiveEvent && invoked == old(invoked) + [cb]
    {
      receiveEvent := true;
      invoked := invoked + [cb];
    }

    /** The recv calls of _read_response, from the header to the payload. */
    method RecvFrame(s: Stream, firstTime: bool) returns (f: FrameRead)
      requires s.Valid()
      modifies s`pos
      ensures s.Valid() && f == ReadFrame(s.data, old(s.pos), firstTime) && s.pos == f.end
    {
      var header := s.Recv(3);
      if |header| < 2 || header[1] >= 0x80 {
        return Aborted(s.pos);
      }
      var name := s.Recv(header[1]);
      if firstTime && !Utf8.Valid(name) {
        return Aborted(s.pos);
      }
      var lenRaw := s.Recv(2);
      if |lenRaw| < 1 || lenRaw[0] >= 0x80 {
        return Aborted(s.pos);
      }
      var response := s.Recv(lenRaw[0]);
      f := Complete(response, s.pos);
    }

    /** _read_response(s, firstTime). A missing socket fails like any other read error. */
    method ReadResponse(s: Stream?, firstTime: bool) returns (r: Outcome)
      requires s != null ==> s.Valid()
      modifies this`receiveEvent, this`invoked, config`paired, if s == null then {} else {s}
      ensures s == null ==> r == Returned(false) && Snapshot() == old(Snapshot())
      ensures s != null ==> s.Valid() && s.sent == old(s.sent)
      ensures s != null ==> (var rd := ReadSpec(s.data, old(s.pos), firstTime);
        r == rd.result && s.pos == rd.end && Snapshot() == Apply(old(Snapshot()), rd.effect))
      decreases if s == null then 0 else |s.data| - s.pos
    {
      if s == null {
        return Returned(false);
      }
      ghost var start := s.pos;
      var f := RecvFrame(s, firstTime);
      if f.Aborted? {
        ReadSpecAborted(s.data, start, firstTime, s.pos);
        return Returned(false);
      }
      var response := f.response;
      ReadSpecStep(s.data, start, firstTime, response, s.pos);
      match Classify(response)
      case Closed =>
        r := Returned(false);
      case Granted =>
        config.paired := true;
        r := Returned(true);
      case Denied =>
        r := Raised(AccessDenied);
      case Waiting =>
        r := ReadResponse(s, false);
      case Cancelled =>
        r := Raised(AccessDenied);
      case Accepted =>
        if callbacks != [] {
          Invoke(callbacks[0]);
        }
        r := Returned(true);
      case Unknown =>
        r := Raised(UnhandledResponse(response));
    }

    /** The while loop of loop: read while the event is clear and reads return True. */
    method ReadWhileTrue() returns (x: Outcome)
      requires Valid()
      modifies this`receiveEvent, this`invoked, config`paired, if sock == null then {} else {sock}
      ensures Valid() && sock == old(sock)
      ensures sock != null ==> sock.sent == old(sock.sent)
      ensures loopEvent || sock == null ==> x == Returned(false) && Snapshot() == old(Snapshot())
      ensures loopEvent && sock != null ==> sock.pos == old(sock.pos)
      ensures !loopEvent && sock != null ==> (var d := Drain(sock.data, old(sock.pos));
        x == d.result && sock.pos == d.end && Snapshot() == ApplyAll(old(Snapshot()), d.effects))
    {
      ghost var st0 := Snapshot();
      ghost var d0 := if sock == null then Drained(Returned(false), 0, []) else Drain(sock.data, sock.pos);
      x := Returned(false);
      while !loopEvent
        invariant Valid() && sock == old(sock)
        invariant sock != null ==> old(sock.pos) <= sock.pos && sock.sent == old(sock.sent)
        invariant sock != null ==> (var d := Drain(sock.data, sock.pos);
          d.end == d0.end && d.result == d0.result && ApplyAll(Snapshot(), d.effects) == ApplyAll(st0, d0.effects))
        invariant sock == null ==> Snapshot() == st0
        invariant loopEvent ==> x == Returned(false) && Snapshot() == st0 && (sock != null ==> sock.pos == old(sock.pos))
        decreases if sock == null then 0 else |sock.data| - sock.pos
      {
        ghost var before := Snapshot();
        ghost var p := if sock == null then 0 else sock.pos;
        x := ReadResponse(sock, false);
        if x != Returned(true) {
          if sock != null {
            DrainStops(sock.data, p);
          }
          break;
        }
        DrainContinues(sock.data, p);
        ApplyAllCons(before, ReadSpec(sock.data, p, false).effect, Drain(sock.data, sock.pos).effects);
      }
    }

    /**
     * loop: read until a read returns False, then drop the socket and the
     * worker. An AccessDenied or UnhandledResponse escapes the loop and skips
     * that clean-up.
     */
    method Loop() returns (r: Outcome)
      requires Valid()
      modifies this, config`paired, if sock == null then {} else {sock}
      ensures Valid()
      ensures old(sock) != null ==> old(sock).sent == old(sock.sent)
      ensures old(loopEvent) || old(sock) == null ==>
        r == ReturnedNone && !Power() && !thread && !loopEvent && Snapshot() == old(Snapshot())
      ensures old(loopEvent) && old(sock) != null ==> old(sock).pos == old(sock.pos)
      ensures !old(loopEvent) && old(sock) != null ==> (var d := Drain(old(sock).data, old(sock.pos));
        old(sock).pos == d.end && Snapshot() == ApplyAll(old(Snapshot()), d.effects) &&
        if d.result.Raised?
        then r == d.result && sock == old(sock) && thread == old(thread) && loopEvent == old(loopEvent)
        else r == ReturnedNone && !Power() && !thread && !loopEvent)
    {
      var x := ReadWhileTrue();
      if x.Raised? {
        return x;
      }
      if sock != null {
        sock := null;
      }
      thread := false;
      loopEvent := false;
      r := ReturnedNone;
    }

    /**
     * open(s): s is the socket the TV would accept, connectOk and sendOk
     * whether connect and send succeed. Already open: return None at once.
     */
    method Open(s: Stream, connectOk: bool, sendOk: bool) returns (r: Outcome)
      requires Valid() && s.Valid()
      modifies this`sock, this`thread, this`receiveEvent, this`invoked, config`paired, s
      ensures Valid() && callbacks == old(callbacks) && loopEvent == old(loopEvent)
      ensures old(sock) != null ==>
        r == ReturnedNone && Power() && sock == old(sock) && thread == old(thread) && Snapshot() == old(Snapshot()) &&
        s.pos == old(s.pos) && s.sent == old(s.sent)
      ensures old(sock) == null && (!connectOk || (Handshake().Some? && !sendOk)) ==>
        (if old(config.paired) then r == Returned(false) else r == Raised(PairingFailed)) &&
        !Power() && thread == old(thread) && Snapshot() == old(Snapshot()) && s.pos == old(s.pos) && s.sent == old(s.sent)
      ensures old(sock) == null && connectOk && Handshake().None? ==>
        r == Raised(EncodingError) &&
        !Power() && thread == old(thread) && Snapshot() == old(Snapshot()) && s.pos == old(s.pos) && s.sent == old(s.sent)
      ensures old(sock) == null && connectOk && Handshake().Some? && sendOk ==>
        var rd := ReadSpec(s.data, old(s.pos), true);
        s.sent == old(s.sent) + [Handshake().value] && s.pos == rd.end && Snapshot() == Apply(old(Snapshot()), rd.effect) &&
        (rd.result.Raised? ==> r == rd.result && !Power() && thread == old(thread)) &&
        (rd.result == Returned(true) ==> r == Returned(true) && Power() && sock == s && thread) &&
        (rd.result == Returned(false) ==> r == Returned(true) && !Power() && thread == old(thread))
    {
      if sock != null {
        return ReturnedNone;
      }
      if !connectOk {
        r := ConnectFailed();
        return;
      }
      var packet := Handshake();
      if packet.None? {
        return Raised(EncodingError);
      }
      if !sendOk {
        r := ConnectFailed();
        return;
      }
      r := SendHandshake(s, packet.value);
    }

    /** The part of open after connect: send the handshake, read the reply, start the worker on True. */
    method SendHandshake(s: Stream, packet: seq<Byte>) returns (r: Outcome)
      requires Valid() && s.Valid() && sock == null
      modifies this`sock, this`thread, this`receiveEvent, this`invoked, config`paired, s
      ensures Valid() && callbacks == old(callbacks) && loopEvent == old(loopEvent)
      ensures var rd := ReadSpec(s.data, old(s.pos), true);
        s.sent == old(s.sent) + [packet] && s.pos == rd.end && Snapshot() == Apply(old(Snapshot()), rd.effect) &&
        (rd.result.Raised? ==> r == rd.result && !Power() && thread == old(thread)) &&
        (rd.result == Returned(true) ==> r == Returned(true) && Power() && sock == s && thread) &&
        (rd.result == Returned(false) ==> r == Returned(true) && !Power() && thread == old(thread))
    {
      ghost var st0, pos0 := Snapshot(), s.pos;
      s.Send(packet);
      assert Snapshot() == st0 && s.pos == pos0;
      var response := ReadResponse(s, true);
      ghost var rd := ReadSpec(s.data, pos0, true);
      assert response == rd.result && Snapshot() == Apply(st0, rd.effect);
      if response.Raised? {
        return response;
      }
      if response == Returned(true) {
        sock := s;
        thread := true;
      } else {
        sock := null;
      }
      r := Returned(true);
    }

    /** The handshake packet open sends for this configuration. */
    function Handshake(): Option<seq<Byte>>
    {
      Framing.HandshakePacket(config.description, config.id, config.name)
    }

    /** The socket.error handler of open. */
    method ConnectFailed() returns (r: Outcome)
      requires sock == null
      modifies this`sock
      ensures sock == null
      ensures r == if config.paired then Returned(false) else Raised(PairingFailed)
    {
      if !config.paired {
        return Raised(PairingFailed);
      }
      sock := null;
      r := Returned(false);
    }

    /** close: ask the worker to stop and shut the socket down; the bounded join is not modelled. */
    method Close()
      requires Valid()
      modifies this`loopEvent, if sock == null then {} else {sock}
      ensures Valid() && sock == old(sock)
      ensures sock != null ==> sock.sent == old(sock.sent)
      ensures old(thread) ==> loopEvent && sock.pos == |sock.data|
      ensures !old(thread) ==> loopEvent == old(loopEvent) && (sock != null ==> sock.pos == old(sock.pos))
    {
      if thread {
        loopEvent := true;
        sock.Shutdown();
      }
    }

    /**
     * control(key), with cb the new callback closure and sendOk whether send
     * succeeds. The wait for the response loop to fire cb is not modelled.
     */
    method Control(key: seq<Byte>, cb: CallbackId, sendOk: bool) returns (r: Outcome)
      requires Valid() && cb !in callbacks
      modifies this`callbacks, this`receiveEvent, if sock == null then {} else {sock}
      ensures Valid() && sock == old(sock) && invoked == old(invoked)
      ensures sock != null ==> sock.pos == old(sock.pos)
      ensures old(sock) == null ==> r == Returned(false) && callbacks == old(callbacks) && receiveEvent == old(receiveEvent)
      ensures old(sock) != null && Framing.ControlPacket(key).None? ==>
        r == Raised(EncodingError) && callbacks == old(callbacks) && receiveEvent == old(receiveEvent) && sock.sent == old(sock.sent)
      ensures old(sock) != null && Framing.ControlPacket(key).Some? ==> !receiveEvent
      ensures old(sock) != null && Framing.ControlPacket(key).Some? && sendOk ==>
        r == ReturnedNone && callbacks == old(callbacks) && sock.sent == old(sock.sent) + [Framing.ControlPacket(key).value]
      ensures old(sock) != null && Framing.ControlPacket(key).Some? && !sendOk ==>
        r == Raised(TransportError) && callbacks == old(callbacks) + [cb] && sock.sent == old(sock.sent)
    {
      if sock == null {
        return Returned(false);
      }
      var packet := Framing.ControlPacket(key);
      if packet.None? {
        return Raised(EncodingError);
      }
      callbacks := callbacks + [cb];
      receiveEvent := false;
      if !sendOk {
        return Raised(TransportError);
      }
      sock.Send(packet.value);
      RemoveFirstAppended(old(callbacks), cb);
      callbacks := RemoveFirst(callbacks, cb);
      r := ReturnedNone;
    }

    /**
     * The power setter. True only logs (not supported by legacy TVs); False on
     * a connected TV sends KEY_POWEROFF. The 2-second polling until the
     * connection drops is not modelled.
     */
    method SetPower(value: bool, cb: CallbackId, sendOk: bool) returns (r: Outcome)
      requires Valid() && cb !in callbacks
      modifies this`callbacks, this`receiveEvent, if sock == null then {} else {sock}
      ensures Valid() && sock == old(sock) && invoked == old(invoked)
      ensures sock != null ==> sock.pos == old(sock.pos)
      ensures value || !old(Power()) ==>
        r == ReturnedNone && callbacks == old(callbacks) && receiveEvent == old(receiveEvent) &&
        (sock != null ==> sock.sent == old(sock.sent))
      ensures !value && old(Power()) && sendOk ==>
        r == ReturnedNone && callbacks == old(callbacks) && sock.sent == old(sock.sent) + [Framing.ControlPacket(KeyPowerOff).value]
      ensures !value && old(Power()) && !sendOk ==>
        r == Raised(TransportError) && callbacks == old(callbacks) + [cb] && sock.sent == old(sock.sent)
    {
      r := ReturnedNone;
      if value && !Power() {
        // power on is not supported for legacy TVs: the source only logs
      } else if !value && Power() {
        PowerOffPacketFits();
        var c := Control(KeyPowerOff, cb, sendOk);
        if c.Raised? {
          r := c;
        }
      }
    }
  }
}
