/**
 * Reading and classifying one response frame from the TV, as _read_response
 * does, stated over the bytes the TV sends (data) and a read cursor (pos).
 * A frame is a 3-byte header whose byte 1 is a name length N, N name bytes,
 * two length bytes whose first is the payload length M, and M payload bytes.
 * Both length bytes go through a one-byte UTF-8 decode, so 0x80 or more
 * aborts the read. recv(n) yields min(n, remaining) bytes; a stream that has
 * ended, been shut down or failed yields no bytes.
 */
module Response {
  import opened Bytes
  import Utf8

  const AccessGrantedPayload: seq<Byte> := [0x64, 0x00, 0x01, 0x00]
  const AccessDeniedPayload: seq<Byte> := [0x64, 0x00, 0x00, 0x00]
  const ControlAcceptedPayload: seq<Byte> := [0x00, 0x00, 0x00, 0x00]
  const WaitingLead: Byte := 0x0a
  const CancelledLead: Byte := 0x65

  /** The exceptions of the core (EncodingError is Python's ValueError from bytes([n])). */
  datatype Error = AccessDenied | UnhandledResponse(response: seq<Byte>) | EncodingError | PairingFailed | TransportError

  /** How a Python call ends: returning None, returning a bool, or raising. */
  datatype Outcome = ReturnedNone | Returned(value: bool) | Raised(error: Error)

  /** The kinds of payload the protocol distinguishes. */
  datatype Class = Closed | Granted | Denied | Waiting | Cancelled | Accepted | Unknown

  /** Classification in the source's priority order. */
  function Classify(response: seq<Byte>): (c: Class)
    ensures c == Closed <==> |response| == 0
    ensures c == Granted <==> response == AccessGrantedPayload
    ensures c == Denied <==> response == AccessDeniedPayload
    ensures c == Waiting <==> |response| > 0 && response[0] == WaitingLead
    ensures c == Cancelled <==> |response| > 0 && response[0] == CancelledLead
    ensures c == Accepted <==> response == ControlAcceptedPayload
  {
    if |response| == 0 then Closed
    else if response == AccessGrantedPayload then Granted
    else if response == AccessDeniedPayload then Denied
    else if response[0] == WaitingLead then Waiting
    else if response[0] == CancelledLead then Cancelled
    else if response == ControlAcceptedPayload then Accepted
    else Unknown
  }

  /** recv(n) on a stream at pos: the next n bytes, fewer at the end. */
  function RecvAt(data: seq<Byte>, pos: nat, n: nat): seq<Byte>
    requires pos <= |data|
  {
    data[pos..Min(pos + n, |data|)]
  }

  datatype FrameRead = Complete(response: seq<Byte>, end: nat) | Aborted(end: nat)

  /** The reads of one frame, up to the payload; firstTime also decodes the name as UTF-8. */
  function ReadFrame(data: seq<Byte>, pos: nat, firstTime: bool): (f: FrameRead)
    requires pos <= |data|
    ensures pos <= f.end <= |data|
    ensures f.Complete? ==> pos + 3 + |f.response| < f.end && f.response == data[f.end - |f.response|..f.end]
  {
    var header := RecvAt(data, pos, 3);
    var p1 := pos + |header|;
    if |header| < 2 || header[1] >= 0x80 then Aborted(p1)
    else
      var name := RecvAt(data, p1, header[1]);
      var p2 := p1 + |name|;
      if firstTime && !Utf8.Valid(name) then Aborted(p2)
      else
        var lenRaw := RecvAt(data, p2, 2);
        var p3 := p2 + |lenRaw|;
        if |lenRaw| < 1 || lenRaw[0] >= 0x80 then Aborted(p3)
        else
          var response := RecvAt(data, p3, lenRaw[0]);
          Complete(response, p3 + |response|)
  }

  /** What a terminal read does to the connection's state besides returning. */
  datatype Effect = NoEffect | MarkPaired | FireOldest

  datatype Read = Read(result: Outcome, end: nat, effect: Effect)

  /** The end of a read whose payload is not "waiting for approval". */
  function Settle(response: seq<Byte>, end: nat): (r: Read)
    ensures r.end == end
    ensures r.result.Returned? || r.result.Raised?
    ensures r.result == Raised(AccessDenied) <==>
      response == AccessDeniedPayload || (|response| > 0 && response[0] == CancelledLead)
    ensures r.result == Raised(UnhandledResponse(response)) <==> Classify(response) == Unknown
    ensures r.result.Raised? ==> r.result == Raised(AccessDenied) || r.result == Raised(UnhandledResponse(response))
    ensures r.effect != NoEffect <==> r.result == Returned(true)
    ensures r.effect == MarkPaired <==> response == AccessGrantedPayload
    ensures r.effect == FireOldest <==> response == ControlAcceptedPayload
    ensures r.result == Returned(false) <==> |response| == 0 || (Classify(response) == Waiting)
  {
    match Classify(response)
    case Closed => Read(Returned(false), end, NoEffect)
    case Granted => Read(Returned(true), end, MarkPaired)
    case Denied => Read(Raised(AccessDenied), end, NoEffect)
    case Waiting => Read(Returned(false), end, NoEffect)
    case Cancelled => Read(Raised(AccessDenied), end, NoEffect)
    case Accepted => Read(Returned(true), end, FireOldest)
    case Unknown => Read(Raised(UnhandledResponse(response)), end, NoEffect)
  }

  /** The bytes of data just before end are p. */
  predicate EndsWith(data: seq<Byte>, end: nat, p: seq<Byte>)
  {
    |p| <= end <= |data| && data[end - |p|..end] == p
  }

  /** _read_response: one frame, and the frames after it while the TV says "waiting". */
  function ReadSpec(data: seq<Byte>, pos: nat, firstTime: bool): (r: Read)
    requires pos <= |data|
    ensures pos <= r.end <= |data|
    ensures r.result.Returned? || r.result.Raised?
    ensures r.result.Raised? ==> r.result.error.AccessDenied? || r.result.error.UnhandledResponse?
    ensures r.result == Returned(true) ==> pos < r.end
    ensures r.effect != NoEffect <==> r.result == Returned(true)
    ensures r.effect == MarkPaired ==> EndsWith(data, r.end, AccessGrantedPayload)
    ensures r.effect == FireOldest ==> EndsWith(data, r.end, ControlAcceptedPayload)
    decreases |data| - pos
  {
    match ReadFrame(data, pos, firstTime)
    case Aborted(e) => Read(Returned(false), e, NoEffect)
    case Complete(response, e) =>
      if Classify(response) == Waiting then ReadSpec(data, e, false)
      else
        assert EndsWith(data, e, response);
        Settle(response, e)
  }

  datatype Drained = Drained(result: Outcome, end: nat, effects: seq<Effect>)

  /** The response loop: read while a read returns True; effects of the True reads in order. */
  function Drain(data: seq<Byte>, pos: nat): (d: Drained)
    requires pos <= |data|
    ensures pos <= d.end <= |data|
    ensures d.result == Returned(false) || d.result.Raised?
    ensures forall k :: 0 <= k < |d.effects| ==> d.effects[k] != NoEffect
    decreases |data| - pos
  {
    var r := ReadSpec(data, pos, false);
    if r.result == Returned(true) then
      var rest := Drain(data, r.end);
      Drained(rest.result, rest.end, [r.effect] + rest.effects)
    else
      Drained(r.result, r.end, [])
  }

  /** The loop goes on after a True read. */
  lemma DrainContinues(data: seq<Byte>, pos: nat)
    requires pos <= |data| && ReadSpec(data, pos, false).result == Returned(true)
    ensures var r := ReadSpec(data, pos, false); var rest := Drain(data, r.end);
      Drain(data, pos) == Drained(rest.result, rest.end, [r.effect] + rest.effects)
  {
  }

  /** The loop stops at a read that is not True, with no further effects. */
  lemma DrainStops(data: seq<Byte>, pos: nat)
    requires pos <= |data| && ReadSpec(data, pos, false).result != Returned(true)
    ensures var r := ReadSpec(data, pos, false);
      Drain(data, pos) == Drained(r.result, r.end, [])
  {
  }

  /** Identity of a registered callback closure. */
  type CallbackId = nat

  /**
   * The shared state reads touch: config.paired, the pending-callback list,
   * the callbacks invoked so far (oldest call first) and the receive event
   * that every callback sets.
   */
  datatype Session = Session(paired: bool, callbacks: seq<CallbackId>, invoked: seq<CallbackId>, event: bool)

  /** What one read's effect does to the shared state. */
  function Apply(st: Session, e: Effect): (r: Session)
    ensures r.callbacks == st.callbacks
    ensures r.paired <==> st.paired || e == MarkPaired
    ensures r.invoked == st.invoked + (if e == FireOldest && st.callbacks != [] then [st.callbacks[0]] else [])
    ensures r.event <==> st.event || (e == FireOldest && st.callbacks != [])
  {
    match e
    case NoEffect => st
    case MarkPaired => st.(paired := true)
    case FireOldest =>
      if st.callbacks == [] then st else st.(invoked := st.invoked + [st.callbacks[0]], event := true)
  }

  function ApplyAll(st: Session, es: seq<Effect>): Session
    decreases |es|
  {
    if es == [] then st else ApplyAll(Apply(st, es[0]), es[1..])
  }

  lemma ApplyAllCons(st: Session, e: Effect, es: seq<Effect>)
    ensures ApplyAll(st, [e] + es) == ApplyAll(Apply(st, e), es)
  {
    assert ([e] + es)[1..] == es;
  }

  function Acks(es: seq<Effect>): nat
    decreases |es|
  {
    if es == [] then 0 else (if es[0] == FireOldest then 1 else 0) + Acks(es[1..])
  }

  function Repeat(x: CallbackId, n: nat): (r: seq<CallbackId>)
    ensures |r| == n && forall k :: 0 <= k < n ==> r[k] == x
  {
    seq(n, _ => x)
  }

  /** No read removes or adds a pending callback. */
  lemma {:induction false} ApplyAllKeepsCallbacks(st: Session, es: seq<Effect>)
    ensures ApplyAll(st, es).callbacks == st.callbacks
    decreases |es|
  {
    if es != [] {
      ApplyAllKeepsCallbacks(Apply(st, es[0]), es[1..]);
    }
  }

  /** Only an access-granted frame sets paired, and nothing clears it. */
  lemma {:induction false} ApplyAllPaired(st: Session, es: seq<Effect>)
    ensures ApplyAll(st, es).paired <==> st.paired || MarkPaired in es
    decreases |es|
  {
    if es != [] {
      ApplyAllPaired(Apply(st, es[0]), es[1..]);
      assert es == [es[0]] + es[1..];
    }
  }

  /** Every acknowledgement invokes the oldest pending callback, and only it; with none pending, nothing runs. */
  lemma {:induction false} ApplyAllInvokesOldest(st: Session, es: seq<Effect>)
    ensures ApplyAll(st, es).invoked ==
      st.invoked + (if st.callbacks == [] then [] else Repeat(st.callbacks[0], Acks(es)))
    decreases |es|
  {
    if es != [] {
      var st1 := Apply(st, es[0]);
      assert st1.callbacks == st.callbacks;
      ApplyAllInvokesOldest(st1, es[1..]);
      if st.callbacks != [] && es[0] == FireOldest {
        var x := st.callbacks[0];
        assert Repeat(x, Acks(es)) == [x] + Repeat(x, Acks(es[1..]));
      }
    }
  }

  /** A response frame as the TV writes it. */
  function ResponseFrame(h0: Byte, h2: Byte, name: seq<Byte>, l1: Byte, payload: seq<Byte>): seq<Byte>
    requires |name| < 256 && |payload| < 256
  {
    [h0, |name| as Byte, h2] + name + [|payload| as Byte, l1] + payload
  }

  /** Byte k of f, named so that At's quantifier is used only where a proof asks for a byte. */
  function ByteOf(f: seq<Byte>, k: nat): Byte
    requires k < |f|
  {
    f[k]
  }

  /** The bytes f occur in data starting at pos. */
  predicate At(data: seq<Byte>, pos: nat, f: seq<Byte>)
  {
    pos + |f| <= |data| && forall k :: 0 <= k < |f| ==> data[pos + k] == ByteOf(f, k)
  }

  lemma AtByte(data: seq<Byte>, pos: nat, f: seq<Byte>, k: nat)
    requires At(data, pos, f) && k < |f|
    ensures data[pos + k] == f[k]
  {
    assert data[pos + k] == ByteOf(f, k);
  }

  lemma SliceOfAt(data: seq<Byte>, pos: nat, f: seq<Byte>, i: nat, j: nat)
    requires At(data, pos, f) && i <= j <= |f|
    ensures data[pos + i..pos + j] == f[i..j]
  {
    forall k | 0 <= k < j - i
      ensures data[pos + i..pos + j][k] == f[i..j][k]
    {
      AtByte(data, pos, f, i + k);
    }
  }

  /** Where the fields of a response frame sit. */
  lemma ResponseFrameParts(h0: Byte, h2: Byte, name: seq<Byte>, l1: Byte, payload: seq<Byte>)
    requires |name| < 256 && |payload| < 256
    ensures var f, n := ResponseFrame(h0, h2, name, l1, payload), |name|;
      |f| == 5 + n + |payload| && f[1] == n && f[3..3 + n] == name && f[3 + n] == |payload| &&
      f[5 + n..] == payload
  {
  }

  /** ReadFrame completes when every recv gets what it asks for and both lengths decode. */
  lemma ReadFrameComplete(data: seq<Byte>, pos: nat, firstTime: bool, name: seq<Byte>, len: nat, payload: seq<Byte>)
    requires pos + 3 <= |data| && data[pos + 1] == |name| < 0x80
    requires RecvAt(data, pos + 3, |name|) == name && (firstTime ==> Utf8.Valid(name))
    requires pos + 5 + |name| <= |data| && data[pos + 3 + |name|] == len < 0x80
    requires RecvAt(data, pos + 5 + |name|, len) == payload
    ensures ReadFrame(data, pos, firstTime) == Complete(payload, pos + 5 + |name| + |payload|)
  {
    var header := RecvAt(data, pos, 3);
    assert |header| == 3 && header[1] == |name|;
    var lenRaw := RecvAt(data, pos + 3 + |name|, 2);
    assert |lenRaw| == 2 && lenRaw[0] == len;
  }

  /** A frame whose lengths are below 0x80 reads back to exactly its payload. */
  lemma ReadFrameRoundTrip(data: seq<Byte>, pos: nat, h0: Byte, h2: Byte, name: seq<Byte>, l1: Byte, payload: seq<Byte>, firstTime: bool)
    requires |name| < 0x80 && |payload| < 0x80
    requires firstTime ==> Utf8.Valid(name)
    requires At(data, pos, ResponseFrame(h0, h2, name, l1, payload))
    ensures ReadFrame(data, pos, firstTime) == Complete(payload, pos + |ResponseFrame(h0, h2, name, l1, payload)|)
  {
    var f := ResponseFrame(h0, h2, name, l1, payload);
    var n := |name|;
    ResponseFrameParts(h0, h2, name, l1, payload);
    AtByte(data, pos, f, 1);
    AtByte(data, pos, f, 3 + n);
    SliceOfAt(data, pos, f, 3, 3 + n);
    SliceOfAt(data, pos, f, 5 + n, |f|);
    ReadFrameComplete(data, pos, firstTime, name, |payload|, payload);
  }

  /** One step of ReadSpec once the frame has been read. */
  lemma ReadSpecStep(data: seq<Byte>, pos: nat, firstTime: bool, response: seq<Byte>, end: nat)
    requires pos <= |data| && ReadFrame(data, pos, firstTime) == Complete(response, end)
    ensures ReadSpec(data, pos, firstTime) ==
      if Classify(response) == Waiting then ReadSpec(data, end, false) else Settle(response, end)
  {
  }

  /** One step of ReadSpec on a frame cut short. */
  lemma ReadSpecAborted(data: seq<Byte>, pos: nat, firstTime: bool, end: nat)
    requires pos <= |data| && ReadFrame(data, pos, firstTime) == Aborted(end)
    ensures ReadSpec(data, pos, firstTime) == Read(Returned(false), end, NoEffect)
  {
  }

  /** A frame with a terminal payload settles on that payload, right after the frame. */
  lemma ReadTerminalFrame(data: seq<Byte>, pos: nat, h0: Byte, h2: Byte, name: seq<Byte>, l1: Byte, payload: seq<Byte>, firstTime: bool)
    requires |name| < 0x80 && |payload| < 0x80 && Classify(payload) != Waiting
    requires firstTime ==> Utf8.Valid(name)
    requires At(data, pos, ResponseFrame(h0, h2, name, l1, payload))
    ensures ReadSpec(data, pos, firstTime) == Settle(payload, pos + |ResponseFrame(h0, h2, name, l1, payload)|)
  {
    ReadFrameRoundTrip(data, pos, h0, h2, name, l1, payload, firstTime);
    ReadSpecStep(data, pos, firstTime, payload, pos + |ResponseFrame(h0, h2, name, l1, payload)|);
  }

  /**
   * While the TV waits for approval, a "waiting" frame on the wire is skipped and
   * the read goes on at end, the byte after the frame, no longer in first-time mode.
   */
  lemma WaitingStep(data: seq<Byte>, pos: nat, end: nat, h0: Byte, h2: Byte, name: seq<Byte>, l1: Byte, payload: seq<Byte>, firstTime: bool)
    requires |name| < 0x80 && 0 < |payload| < 0x80 && payload[0] == WaitingLead
    requires firstTime ==> Utf8.Valid(name)
    requires At(data, pos, ResponseFrame(h0, h2, name, l1, payload)) && end == pos + |ResponseFrame(h0, h2, name, l1, payload)|
    ensures ReadSpec(data, pos, firstTime) == ReadSpec(data, end, false)
  {
    ReadFrameRoundTrip(data, pos, h0, h2, name, l1, payload, firstTime);
    ReadSpecStep(data, pos, firstTime, payload, end);
  }

  /**
   * Handshake: a "waiting" frame at pos followed by a "granted" frame at mid is
   * one True read that marks the TV paired and ends at end, after both frames.
   * Each frame has its own header bytes and name; only the first name is decoded.
   */
  lemma WaitThenGranted(data: seq<Byte>, pos: nat, mid: nat, end: nat,
                        h0: Byte, h2: Byte, name: seq<Byte>, l1: Byte, payload: seq<Byte>,
                        g0: Byte, g2: Byte, name2: seq<Byte>, m1: Byte)
    requires |name| < 0x80 && Utf8.Valid(name) && 0 < |payload| < 0x80 && payload[0] == WaitingLead
    requires |name2| < 0x80
    requires At(data, pos, ResponseFrame(h0, h2, name, l1, payload)) && mid == pos + |ResponseFrame(h0, h2, name, l1, payload)|
    requires At(data, mid, ResponseFrame(g0, g2, name2, m1, AccessGrantedPayload)) &&
      end == mid + |ResponseFrame(g0, g2, name2, m1, AccessGrantedPayload)|
    ensures ReadSpec(data, pos, true) == Read(Returned(true), end, MarkPaired)
  {
    WaitingStep(data, pos, mid, h0, h2, name, l1, payload, true);
    ReadTerminalFrame(data, mid, g0, g2, name2, m1, AccessGrantedPayload, false);
  }

  /** The first handshake reply "access denied" raises AccessDenied and changes nothing. */
  lemma DeniedHandshake(data: seq<Byte>, pos: nat, h0: Byte, h2: Byte, name: seq<Byte>, l1: Byte)
    requires |name| < 0x80 && Utf8.Valid(name)
    requires At(data, pos, ResponseFrame(h0, h2, name, l1, AccessDeniedPayload))
    ensures ReadSpec(data, pos, true) ==
      Read(Raised(AccessDenied), pos + |ResponseFrame(h0, h2, name, l1, AccessDeniedPayload)|, NoEffect)
  {
    ReadTerminalFrame(data, pos, h0, h2, name, l1, AccessDeniedPayload, true);
  }

  /** A header cut off before its name-length byte: ord() of the empty header[1:2] fails and the read is False. */
  lemma ShortHeaderAborts(data: seq<Byte>, pos: nat, firstTime: bool)
    requires pos <= |data| < pos + 2
    ensures ReadSpec(data, pos, firstTime) == Read(Returned(false), |data|, NoEffect)
  {
  }

  /** A name-length byte of 0x80 or more fails its UTF-8 decode and ends the read with False. */
  lemma HighLengthByteAborts(data: seq<Byte>, pos: nat, firstTime: bool)
    requires pos + 2 <= |data| && data[pos + 1] >= 0x80
    ensures ReadSpec(data, pos, firstTime) == Read(Returned(false), Min(pos + 3, |data|), NoEffect)
  {
    assert RecvAt(data, pos, 3)[1] == data[pos + 1];
  }

  /** Where the header and name of a frame that starts with h0, |name|, h2, name sit. */
  lemma HeaderAt(data: seq<Byte>, pos: nat, f: seq<Byte>, h0: Byte, h2: Byte, name: seq<Byte>)
    requires |name| < 0x80 && At(data, pos, f) && |f| >= 3 + |name| && f[..3 + |name|] == [h0, |name| as Byte, h2] + name
    ensures pos + 3 + |name| <= |data| && data[pos + 1] == |name| && RecvAt(data, pos + 3, |name|) == name
  {
    assert f[1] == |name| && f[3..3 + |name|] == name;
    AtByte(data, pos, f, 1);
    SliceOfAt(data, pos, f, 3, 3 + |name|);
  }

  /** The frame read stops right after a first-time name that is not valid UTF-8. */
  lemma ReadFrameBadName(data: seq<Byte>, pos: nat, h0: Byte, h2: Byte, name: seq<Byte>)
    requires |name| < 0x80 && !Utf8.Valid(name)
    requires At(data, pos, [h0, |name| as Byte, h2] + name)
    ensures ReadFrame(data, pos, true) == Aborted(pos + 3 + |name|)
  {
    var f := [h0, |name| as Byte, h2] + name;
    assert f[..3 + |name|] == f;
    HeaderAt(data, pos, f, h0, h2, name);
    assert RecvAt(data, pos, 3)[1] == data[pos + 1];
  }

  /** The frame read stops right after a payload-length byte of 0x80 or more. */
  lemma ReadFrameBadLength(data: seq<Byte>, pos: nat, h0: Byte, h2: Byte, name: seq<Byte>, l0: Byte, l1: Byte, firstTime: bool)
    requires |name| < 0x80 && l0 >= 0x80
    requires firstTime ==> Utf8.Valid(name)
    requires At(data, pos, [h0, |name| as Byte, h2] + name + [l0, l1])
    ensures ReadFrame(data, pos, firstTime) == Aborted(pos + 5 + |name|)
  {
    var f := [h0, |name| as Byte, h2] + name + [l0, l1];
    assert f[..3 + |name|] == [h0, |name| as Byte, h2] + name;
    AtByte(data, pos, f, 3 + |name|);
    HeaderAt(data, pos, f, h0, h2, name);
    assert RecvAt(data, pos, 3)[1] == data[pos + 1];
    assert RecvAt(data, pos + 3 + |name|, 2)[0] == data[pos + 3 + |name|];
  }

  /** On the first read, a TV name that is not valid UTF-8 fails the decode and the read is False. */
  lemma InvalidNameAborts(data: seq<Byte>, pos: nat, h0: Byte, h2: Byte, name: seq<Byte>)
    requires |name| < 0x80 && !Utf8.Valid(name)
    requires At(data, pos, [h0, |name| as Byte, h2] + name)
    ensures ReadSpec(data, pos, true) == Read(Returned(false), pos + 3 + |name|, NoEffect)
  {
    ReadFrameBadName(data, pos, h0, h2, name);
    ReadSpecAborted(data, pos, true, pos + 3 + |name|);
  }

  /** A payload-length byte of 0x80 or more fails its UTF-8 decode and the read is False. */
  lemma HighResponseLengthAborts(data: seq<Byte>, pos: nat, h0: Byte, h2: Byte, name: seq<Byte>, l0: Byte, l1: Byte, firstTime: bool)
    requires |name| < 0x80 && l0 >= 0x80
    requires firstTime ==> Utf8.Valid(name)
    requires At(data, pos, [h0, |name| as Byte, h2] + name + [l0, l1])
    ensures ReadSpec(data, pos, firstTime) == Read(Returned(false), pos + 5 + |name|, NoEffect)
  {
    ReadFrameBadLength(data, pos, h0, h2, name, l0, l1, firstTime);
    ReadSpecAborted(data, pos, firstTime, pos + 5 + |name|);
  }

  /** A frame cut off inside its payload reads as the bytes that are left. */
  lemma ReadFrameTruncated(data: seq<Byte>, pos: nat, h0: Byte, h2: Byte, name: seq<Byte>, l0: Byte, l1: Byte,
                           cut: seq<Byte>, firstTime: bool)
    requires |name| < 0x80 && |cut| < l0 < 0x80
    requires firstTime ==> Utf8.Valid(name)
    requires At(data, pos, [h0, |name| as Byte, h2] + name + [l0, l1] + cut)
    requires |data| == pos + 5 + |name| + |cut|
    ensures ReadFrame(data, pos, firstTime) == Complete(cut, |data|)
  {
    var f := [h0, |name| as Byte, h2] + name + [l0, l1] + cut;
    var n := |name|;
    assert f[..3 + n] == [h0, n as Byte, h2] + name;
    HeaderAt(data, pos, f, h0, h2, name);
    AtByte(data, pos, f, 3 + n);
    assert f[3 + n] == l0;
    assert f[5 + n..] == cut;
    SliceOfAt(data, pos, f, 5 + n, |f|);
    ReadFrameComplete(data, pos, firstTime, name, l0 as nat, cut);
  }

  /**
   * A stream that ends inside a payload: recv returns the bytes left, and they
   * are classified as the payload.
   */
  lemma TruncatedPayloadSettles(data: seq<Byte>, pos: nat, h0: Byte, h2: Byte, name: seq<Byte>, l0: Byte, l1: Byte,
                                cut: seq<Byte>, firstTime: bool)
    requires |name| < 0x80 && |cut| < l0 < 0x80
    requires firstTime ==> Utf8.Valid(name)
    requires At(data, pos, [h0, |name| as Byte, h2] + name + [l0, l1] + cut)
    requires |data| == pos + 5 + |name| + |cut|
    ensures ReadSpec(data, pos, firstTime) ==
      if Classify(cut) == Waiting then Read(Returned(false), |data|, NoEffect) else Settle(cut, |data|)
  {
    ReadFrameTruncated(data, pos, h0, h2, name, l0, l1, cut, firstTime);
    ReadSpecStep(data, pos, firstTime, cut, |data|);
  }

  /** A cancellation payload cut short by the end of the stream still raises AccessDenied. */
  lemma TruncatedCancelRaises()
    ensures ReadSpec([0x00, 0x00, 0x00, 0x02, 0x00, 0x65], 0, false).result == Raised(AccessDenied)
  {
    var data: seq<Byte> := [0x00, 0x00, 0x00, 0x02, 0x00, 0x65];
    var f: seq<Byte> := [0x00, 0 as Byte, 0x00] + [] + [0x02, 0x00] + [0x65];
    assert f == data;
    assert forall k :: 0 <= k < |f| ==> data[k] == ByteOf(f, k);
    TruncatedPayloadSettles(data, 0, 0x00, 0x00, [], 0x02, 0x00, [0x65], false);
  }

  /** A stream with nothing left reads as False. */
  lemma ExhaustedReadsFalse(data: seq<Byte>, firstTime: bool)
    ensures ReadSpec(data, |data|, firstTime) == Read(Returned(false), |data|, NoEffect)
  {
  }
}
