/**
 * The length-prefixed field framing of the legacy remote protocol and the two
 * packets built from it: the handshake sent by open and the key command sent
 * by control. A field is [length][0x00][bytes]; the length is a single byte,
 * so a field of 256 bytes or more cannot be framed (Python's bytes([n]) raises
 * ValueError for n > 255), modelled as None.
 */
module Framing {
  import opened Bytes
  import Base64

  /** The bytes that actually go into a field: raw, or Base64 text. */
  function FieldBody(s: seq<Byte>, raw: bool): seq<Byte>
  {
    if raw then s else Base64.Encode(s)
  }

  /** _serialize_string: one length byte, one 0x00 filler byte, then the body. */
  function Serialize(s: seq<Byte>, raw: bool): (r: Option<seq<Byte>>)
    ensures r.Some? <==> |FieldBody(s, raw)| <= 255
    ensures r.Some? ==> |r.value| == |FieldBody(s, raw)| + 2
  {
    var t := FieldBody(s, raw);
    if |t| > 255 then None else Some([|t| as Byte, 0] + t)
  }

  /** The receiving side of a field: byte 0 is the length, byte 1 must be the 0x00 filler. */
  function ParseField(b: seq<Byte>): (r: Option<(seq<Byte>, seq<Byte>)>)
    ensures r.Some? ==> |r.value.1| < |b|
    ensures r.Some? ==> |b| >= 2 && b[1] == 0 && b == [b[0], 0] + r.value.0 + r.value.1 && |r.value.0| == b[0]
  {
    if |b| < 2 || b[1] != 0 then None
    else
      var n := b[0] as int;
      if |b| < 2 + n then None else Some((b[2..2 + n], b[2 + n..]))
  }

  /** A framed field parses back to its body, leaving whatever followed it. */
  lemma FieldRoundTrip(s: seq<Byte>, raw: bool, rest: seq<Byte>)
    requires Serialize(s, raw).Some?
    ensures ParseField(Serialize(s, raw).value + rest) == Some((FieldBody(s, raw), rest))
  {
    var t := FieldBody(s, raw);
    var b := Serialize(s, raw).value + rest;
    assert b[0] == |t| && b[1] == 0;
    assert b[2..2 + |t|] == t;
    assert b[2 + |t|..] == rest;
  }

  /** A Base64 field can be framed exactly when the input is at most 189 bytes. */
  lemma Base64FieldLimit(s: seq<Byte>)
    ensures Serialize(s, false).Some? <==> |s| <= 189
  {
    Base64.EncodedLengthFitsByte(|s|);
  }

  /** The opcode that starts a handshake payload. */
  const HandshakeOpcode: seq<Byte> := [0x64, 0x00]
  /** The three zero bytes in front of every packet and of a control payload. */
  const Prefix: seq<Byte> := [0x00, 0x00, 0x00]

  /** Payload of the handshake: opcode, then description, id and name as Base64 fields. */
  function HandshakePayload(description: seq<Byte>, id: seq<Byte>, name: seq<Byte>): (r: Option<seq<Byte>>)
    ensures r.Some? <==> |description| <= 189 && |id| <= 189 && |name| <= 189
    ensures r.Some? ==> (|r.value| ==
      8 + Base64.EncodedLength(|description|) + Base64.EncodedLength(|id|) + Base64.EncodedLength(|name|))
    ensures r.Some? ==> r.value[..2] == HandshakeOpcode
  {
    Base64FieldLimit(description);
    Base64FieldLimit(id);
    Base64FieldLimit(name);
    var d := Serialize(description, false);
    var i := Serialize(id, false);
    var n := Serialize(name, false);
    if d.None? || i.None? || n.None? then None
    else Some(HandshakeOpcode + d.value + i.value + n.value)
  }

  /** Payload of a control command: three zero bytes, then the key as a Base64 field. */
  function ControlPayload(key: seq<Byte>): (r: Option<seq<Byte>>)
    ensures r.Some? <==> |key| <= 189
    ensures r.Some? ==> |r.value| == 5 + Base64.EncodedLength(|key|) && r.value[..3] == Prefix
  {
    Base64FieldLimit(key);
    var k := Serialize(key, false);
    if k.None? then None else Some(Prefix + k.value)
  }

  /** The outer packet: three zero bytes, then the payload as a raw field. */
  function Packet(payload: Option<seq<Byte>>): (r: Option<seq<Byte>>)
    ensures r.Some? <==> payload.Some? && |payload.value| <= 255
    ensures r.Some? ==> |r.value| == |payload.value| + 5
  {
    if payload.None? then None
    else
      var f := Serialize(payload.value, true);
      if f.None? then None else Some(Prefix + f.value)
  }

  /** The packet open sends: the handshake payload in the outer packet. */
  function HandshakePacket(description: seq<Byte>, id: seq<Byte>, name: seq<Byte>): (r: Option<seq<Byte>>)
    ensures r.Some? ==> (|r.value| ==
      13 + Base64.EncodedLength(|description|) + Base64.EncodedLength(|id|) + Base64.EncodedLength(|name|))
  {
    Packet(HandshakePayload(description, id, name))
  }

  /** The packet control sends: the key's control payload in the outer packet. */
  function ControlPacket(key: seq<Byte>): (r: Option<seq<Byte>>)
    ensures r.Some? ==> |r.value| == 10 + Base64.EncodedLength(|key|)
  {
    Packet(ControlPayload(key))
  }

  /** Layout shared by both packets: byte 3 is the payload length, byte 4 is 0x00. */
  lemma PacketLayout(payload: seq<Byte>)
    requires Packet(Some(payload)).Some?
    ensures var p := Packet(Some(payload)).value;
      |p| == |payload| + 5 && p[..3] == Prefix && p[3] == |payload| && p[4] == 0 && p[5..] == payload
  {
  }

  /** A control packet can be built exactly when the key is at most 186 bytes. */
  lemma ControlPacketLimit(key: seq<Byte>)
    ensures ControlPacket(key).Some? <==> |key| <= 186
  {
    Base64.EncodedLengthFitsByte(|key|);
    if |key| <= 186 {
      assert (|key| + 2) / 3 <= 62;
    } else if |key| <= 189 {
      assert (|key| + 2) / 3 >= 63;
    }
  }

  /** A handshake packet can be built exactly when the three encoded fields total at most 247 bytes. */
  lemma HandshakePacketLimit(description: seq<Byte>, id: seq<Byte>, name: seq<Byte>)
    ensures HandshakePacket(description, id, name).Some? <==>
      Base64.EncodedLength(|description|) + Base64.EncodedLength(|id|) + Base64.EncodedLength(|name|) <= 247
  {
  }

  /** The receiving side of the outer packet: the payload carried after the prefix. */
  function DecodePacket(p: seq<Byte>): Option<seq<Byte>>
  {
    if |p| < 3 || p[..3] != Prefix then None
    else match ParseField(p[3..])
      case None => None
      case Some((payload, rest)) => if rest != [] then None else Some(payload)
  }

  /** Base64 text of a field back to bytes; None when it is not whole groups. */
  function DecodeText(text: seq<Byte>): Option<seq<Byte>>
  {
    if |text| % 4 != 0 then None else Some(Base64.Decode(text))
  }

  /** The receiving side of a control packet: the key. */
  function DecodeControlPacket(p: seq<Byte>): Option<seq<Byte>>
  {
    match DecodePacket(p)
    case None => None
    case Some(inner) =>
      if |inner| < 3 || inner[..3] != Prefix then None
      else match ParseField(inner[3..])
        case None => None
        case Some((text, tail)) => if tail != [] then None else DecodeText(text)
  }

  /** Three consecutive Base64 fields filling the whole of b. */
  function DecodeThreeFields(b: seq<Byte>): Option<(seq<Byte>, seq<Byte>, seq<Byte>)>
  {
    match ParseField(b)
    case None => None
    case Some((d, r1)) =>
      match ParseField(r1)
      case None => None
      case Some((i, r2)) =>
        match ParseField(r2)
        case None => None
        case Some((n, r3)) =>
          if r3 != [] || DecodeText(d).None? || DecodeText(i).None? || DecodeText(n).None? then None
          else Some((DecodeText(d).value, DecodeText(i).value, DecodeText(n).value))
  }

  /** The receiving side of a handshake packet: description, id and name. */
  function DecodeHandshakePacket(p: seq<Byte>): Option<(seq<Byte>, seq<Byte>, seq<Byte>)>
  {
    match DecodePacket(p)
    case None => None
    case Some(inner) =>
      if |inner| < 2 || inner[..2] != HandshakeOpcode then None
      else DecodeThreeFields(inner[2..])
  }

  /** The outer packet gives back the payload it was built from. */
  lemma PacketRoundTrip(payload: seq<Byte>)
    requires Packet(Some(payload)).Some?
    ensures DecodePacket(Packet(Some(payload)).value) == Some(payload)
  {
    var p := Packet(Some(payload)).value;
    assert p[3..] == Serialize(payload, true).value + [];
    FieldRoundTrip(payload, true, []);
  }

  /** The key comes back out of the control packet built for it. */
  lemma ControlPacketRoundTrip(key: seq<Byte>)
    requires ControlPacket(key).Some?
    ensures DecodeControlPacket(ControlPacket(key).value) == Some(key)
  {
    var k := Serialize(key, false).value;
    var inner := Prefix + k;
    PacketRoundTrip(inner);
    assert inner[3..] == k + [];
    FieldRoundTrip(key, false, []);
    Base64.DecodeEncode(key);
  }

  /** The three Base64 fields of a handshake payload decode back to their inputs. */
  lemma ThreeFieldsRoundTrip(description: seq<Byte>, id: seq<Byte>, name: seq<Byte>)
    requires HandshakePayload(description, id, name).Some?
    ensures var d, i, n := Serialize(description, false).value, Serialize(id, false).value, Serialize(name, false).value;
      DecodeThreeFields(d + i + n) == Some((description, id, name))
  {
    var d, i, n := Serialize(description, false).value, Serialize(id, false).value, Serialize(name, false).value;
    assert d + i + n == d + (i + n);
    FieldRoundTrip(description, false, i + n);
    FieldRoundTrip(id, false, n);
    assert n == n + [];
    FieldRoundTrip(name, false, []);
    Base64.DecodeEncode(description);
    Base64.DecodeEncode(id);
    Base64.DecodeEncode(name);
  }

  /** Decoding a handshake packet is decoding the three fields after its opcode. */
  lemma DecodeHandshakeUnfold(p: seq<Byte>, fields: seq<Byte>)
    requires DecodePacket(p) == Some(HandshakeOpcode + fields)
    ensures DecodeHandshakePacket(p) == DecodeThreeFields(fields)
  {
    var inner := HandshakeOpcode + fields;
    assert inner[..2] == HandshakeOpcode && inner[2..] == fields;
  }

  /** Description, id and name come back out of the handshake packet built for them. */
  lemma HandshakePacketRoundTrip(description: seq<Byte>, id: seq<Byte>, name: seq<Byte>)
    requires HandshakePacket(description, id, name).Some?
    ensures DecodeHandshakePacket(HandshakePacket(description, id, name).value) == Some((description, id, name))
  {
    var d := Serialize(description, false).value;
    var i := Serialize(id, false).value;
    var n := Serialize(name, false).value;
    var fields := d + i + n;
    assert HandshakePayload(description, id, name) == Some(HandshakeOpcode + fields) by {
      assert HandshakeOpcode + d + i + n == HandshakeOpcode + fields;
    }
    PacketRoundTrip(HandshakeOpcode + fields);
    DecodeHandshakeUnfold(HandshakePacket(description, id, name).value, fields);
    ThreeFieldsRoundTrip(description, id, name);
  }
}
