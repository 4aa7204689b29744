/**
 * Base64 encoding as defined in section 4 of RFC 4648 (the standard alphabet,
 * with '=' padding), which is what Python's base64.b64encode produces.
 * The decoder is the receiving side's inverse, used to state the round trip.
 */
module Base64 {
  import opened Bytes

  /** The ASCII byte for the 6-bit value i, per the alphabet of RFC 4648 section 4. */
  function Symbol(i: int): (c: Byte)
    requires 0 <= i < 64
    ensures c != Pad
  {
    if i < 26 then 65 + i              // 'A'..'Z'
    else if i < 52 then 97 + (i - 26)  // 'a'..'z'
    else if i < 62 then 48 + (i - 52)  // '0'..'9'
    else if i == 62 then 43            // '+'
    else 47                            // '/'
  }

  /** The padding character '='. */
  const Pad: Byte := 61

  /** The 6-bit value of an alphabet byte (0 for a byte outside the alphabet). */
  function Index(c: Byte): (i: int)
    ensures 0 <= i < 64
  {
    if 65 <= c <= 90 then c - 65
    else if 97 <= c <= 122 then c - 71
    else if 48 <= c <= 57 then c + 4
    else if c == 43 then 62
    else if c == 47 then 63
    else 0
  }

  /** Length of the encoding of n bytes: four characters per started group of three. */
  function EncodedLength(n: nat): nat
  {
    4 * ((n + 2) / 3)
  }

  /** Four characters for the three bytes b0 b1 b2. */
  function EncodeGroup(b0: Byte, b1: Byte, b2: Byte): seq<Byte>
  {
    [Symbol(b0 / 4), Symbol((b0 % 4) * 16 + b1 / 16), Symbol((b1 % 16) * 4 + b2 / 64), Symbol(b2 % 64)]
  }

  function Encode(s: seq<Byte>): (t: seq<Byte>)
    ensures |t| == EncodedLength(|s|)
    ensures |t| % 4 == 0
    decreases |s|
  {
    if |s| == 0 then []
    else if |s| == 1 then [Symbol(s[0] / 4), Symbol((s[0] % 4) * 16), Pad, Pad]
    else if |s| == 2 then [Symbol(s[0] / 4), Symbol((s[0] % 4) * 16 + s[1] / 16), Symbol((s[1] % 16) * 4), Pad]
    else EncodeGroup(s[0], s[1], s[2]) + Encode(s[3..])
  }

  /** The three bytes that a group of four 6-bit values a b c d stands for. */
  function GroupBytes(a: int, b: int, c: int, d: int): (bs: seq<Byte>)
    requires 0 <= a < 64 && 0 <= b < 64 && 0 <= c < 64 && 0 <= d < 64
    ensures |bs| == 3
  {
    [a * 4 + b / 16, (b % 16) * 16 + c / 4, (c % 4) * 64 + d]
  }

  /** Reference decoder for text made of whole four-character groups. */
  function Decode(t: seq<Byte>): seq<Byte>
    requires |t| % 4 == 0
    decreases |t|
  {
    if |t| == 0 then []
    else
      var bs := GroupBytes(Index(t[0]), Index(t[1]), Index(t[2]), Index(t[3]));
      if t[2] == Pad then bs[..1]
      else if t[3] == Pad then bs[..2]
      else bs + Decode(t[4..])
  }

  lemma IndexOfSymbol(i: int)
    requires 0 <= i < 64
    ensures Index(Symbol(i)) == i
  {
  }

  lemma SplitBy16(hi: int, lo: int)
    requires 0 <= lo < 16 && 0 <= hi
    ensures (hi * 16 + lo) / 16 == hi && (hi * 16 + lo) % 16 == lo
  {
  }

  lemma SplitBy4(hi: int, lo: int)
    requires 0 <= lo < 4 && 0 <= hi
    ensures (hi * 4 + lo) / 4 == hi && (hi * 4 + lo) % 4 == lo
  {
  }

  /** The three bytes of a group come back from its four characters. */
  lemma GroupRoundTrip(b0: Byte, b1: Byte, b2: Byte)
    ensures var g := EncodeGroup(b0, b1, b2);
      GroupBytes(Index(g[0]), Index(g[1]), Index(g[2]), Index(g[3])) == [b0, b1, b2]
  {
    IndexOfSymbol(b0 / 4);
    IndexOfSymbol((b0 % 4) * 16 + b1 / 16);
    IndexOfSymbol((b1 % 16) * 4 + b2 / 64);
    IndexOfSymbol(b2 % 64);
    SplitBy16(b0 % 4, b1 / 16);
    SplitBy4(b1 % 16, b2 / 64);
  }

  /** The padded encoding of a single trailing byte decodes back to it. */
  lemma OneByteRoundTrip(b0: Byte)
    ensures Decode(Encode([b0])) == [b0]
  {
    IndexOfSymbol(b0 / 4);
    IndexOfSymbol((b0 % 4) * 16);
    SplitBy16(b0 % 4, 0);
  }

  /** The padded encoding of two trailing bytes decodes back to them. */
  lemma TwoBytesRoundTrip(b0: Byte, b1: Byte)
    ensures Decode(Encode([b0, b1])) == [b0, b1]
  {
    IndexOfSymbol(b0 / 4);
    IndexOfSymbol((b0 % 4) * 16 + b1 / 16);
    IndexOfSymbol((b1 % 16) * 4);
    SplitBy16(b0 % 4, b1 / 16);
    SplitBy4(b1 % 16, 0);
  }

  /** An unpadded leading group decodes to its three bytes, then the rest is decoded. */
  lemma DecodeUnpadded(g: seq<Byte>, rest: seq<Byte>)
    requires |g| == 4 && |rest| % 4 == 0 && g[2] != Pad && g[3] != Pad
    ensures Decode(g + rest) == GroupBytes(Index(g[0]), Index(g[1]), Index(g[2]), Index(g[3])) + Decode(rest)
  {
    var t := g + rest;
    assert t[0] == g[0] && t[1] == g[1] && t[2] == g[2] && t[3] == g[3];
    assert t[4..] == rest;
  }

  /** A full group followed by more text decodes to its three bytes followed by the rest. */
  lemma GroupStep(b0: Byte, b1: Byte, b2: Byte, rest: seq<Byte>)
    requires |rest| % 4 == 0
    ensures Decode(EncodeGroup(b0, b1, b2) + rest) == [b0, b1, b2] + Decode(rest)
  {
    var g := EncodeGroup(b0, b1, b2);
    GroupRoundTrip(b0, b1, b2);
    DecodeUnpadded(g, rest);
  }

  /** Decoding an encoding gives back the original bytes. */
  lemma {:induction false} DecodeEncode(s: seq<Byte>)
    ensures Decode(Encode(s)) == s
    decreases |s|
  {
    if |s| == 0 {
    } else if |s| == 1 {
      assert s == [s[0]];
      OneByteRoundTrip(s[0]);
    } else if |s| == 2 {
      assert s == [s[0], s[1]];
      TwoBytesRoundTrip(s[0], s[1]);
    } else {
      GroupStep(s[0], s[1], s[2], Encode(s[3..]));
      DecodeEncode(s[3..]);
      assert s == [s[0], s[1], s[2]] + s[3..];
    }
  }

  /** Encoding n bytes fits a one-byte length exactly when n is at most 189. */
  lemma EncodedLengthFitsByte(n: nat)
    ensures EncodedLength(n) <= 255 <==> n <= 189
  {
    if n <= 189 {
      assert (n + 2) / 3 <= 63;
    } else {
      assert (n + 2) / 3 >= 64;
    }
  }
}
