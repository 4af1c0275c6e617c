/**
 * WebSocket framing (RFC 6455): `WebSocketReader`, which decodes and checks
 * the frame header a client sends, masks payloads and reads close payloads,
 * and `WebSocketWriter`, which encodes the frame header the server sends.
 */
module WebSocketFrames {
  import opened Bytes
  import opened HeaderMaps
  import opened HttpTypes
  import opened Devices

  /** `WebSocketOpcode`. */
  const ContinuationFrame: nat := 0x0
  const TextFrame: nat := 0x1
  const BinaryFrame: nat := 0x2
  const ConnectionClose: nat := 0x8
  const Ping: nat := 0x9
  const Pong: nat := 0xA

  /** `PayloadLengthMagicNumbers`. */
  const Length16Bit: nat := 126
  const Length64Bit: nat := 127

  /** `WebSocketReader::PayloadHardLimit`: 64 MiB. */
  const PayloadHardLimit: nat := 64 * 0x10_0000

  type Nibble = n: nat | n < 16
  type Len7 = n: nat | n < 128
  type UInt64 = n: nat | n < 0x1_0000_0000_0000_0000

  /**
   * The masking key, as the four bytes it occupies in the frame: the code
   * copies them into a `uint32_t` without byte-order conversion and XORs the
   * payload with that word in memory, which is the byte-wise XOR below.
   */
  type MaskKey = k: Bytes | |k| == 4 witness [0, 0, 0, 0]

  const NoMask: MaskKey := [0, 0, 0, 0]

  /** `WebSocketBaseFrame`: the two leading bytes of every frame (section 5.2 of RFC 6455). */
  datatype BaseFrame = BaseFrame(fin: bool, rsv1: bool, rsv2: bool, rsv3: bool, opcode: Nibble,
                                 mask: bool, payloadLen: Len7)

  /** `WebSocketFrame`. */
  datatype Frame = Frame(base: BaseFrame, extPayloadLen: UInt64, maskKey: MaskKey)

  function Bit(b: bool): nat { if b then 1 else 0 }

  lemma Pow256Values()
    ensures Pow256(2) == 0x1_0000 && Pow256(4) == 0x1_0000_0000
    ensures Pow256(8) == 0x1_0000_0000_0000_0000
  {
    assert Pow256(1) == 0x100;
    assert Pow256(2) == 0x1_0000;
    assert Pow256(3) == 0x100_0000;
    assert Pow256(4) == 0x1_0000_0000;
    assert Pow256(5) == 0x100_0000_0000;
    assert Pow256(6) == 0x1_0000_0000_0000;
    assert Pow256(7) == 0x100_0000_0000_0000;
  }

  // ---------------------------------------------------------------------
  // WebSocketReader: the HTTP upgrade request
  // ---------------------------------------------------------------------

  /** `areHttpRequirementsFulfilled`: `version >= Http1_1` over the enum's order, and GET. */
  function AreHttpRequirementsFulfilled(version: HttpVersion, verb: HttpVerb): (r: bool)
    ensures r <==> version == Http1_1 && verb == GET
  {
    VersionOrder(version) >= VersionOrder(Http1_1) && verb == GET
  }

  /** The enumerator values of `HttpClient::HttpVersion`. */
  function VersionOrder(v: HttpVersion): nat
  {
    match v
    case HttpUnknown => 0
    case Http1_0 => 1
    case Http1_1 => 2
  }

  function UpgradeKey(): Bytes { Latin1("Upgrade") }
  function SecWebSocketVersionKey(): Bytes { Latin1("Sec-WebSocket-Version") }
  function SecWebSocketKeyKey(): Bytes { Latin1("Sec-WebSocket-Key") }

  function ConnectionKey(): (r: Bytes)
    ensures r == HeaderName(HeaderConnection)
  {
    Latin1("Connection")
  }

  /**
   * `isWebSocketRequest`: the four handshake headers of section 4.2.1 of
   * RFC 6455, each looked up with `QMap::value`.
   */
  function IsWebSocketRequest(headers: HeaderMap): (r: bool)
    ensures r ==> Value(headers, SecWebSocketVersionKey()) == Latin1("13")
    ensures r ==> Value(headers, SecWebSocketKeyKey()) != []
    ensures r ==> ContainsKey(headers, UpgradeKey()) && ContainsKey(headers, ConnectionKey())
  {
    if !Contains(ToLower(Value(headers, UpgradeKey())), Latin1("websocket")) then false
    else if !Contains(ToLower(Value(headers, ConnectionKey())), Latin1("upgrade")) then false
    else if Value(headers, SecWebSocketVersionKey()) != Latin1("13") then false
    else Value(headers, SecWebSocketKeyKey()) != []
  }

  // ---------------------------------------------------------------------
  // WebSocketReader: frame headers
  // ---------------------------------------------------------------------

  /** `sizeOfFrame`: the header bytes a frame with this base occupies. */
  function SizeOfFrame(base: BaseFrame): (r: nat)
    ensures 2 <= r <= 14
  {
    2 + (if base.payloadLen == Length16Bit then 2 else if base.payloadLen == Length64Bit then 8 else 0)
      + (if base.mask then 4 else 0)
  }

  /**
   * `readBaseFrame`: fin, rsv1, rsv2 and rsv3 are the four high bits of the
   * first byte, most significant first, and the opcode its low four bits;
   * the mask flag is the high bit of the second byte and the length field
   * its low seven bits.
   */
  function ReadBaseFrame(b0: byte, b1: byte): BaseFrame
  {
    var flags := b0 / 16;
    BaseFrame(flags / 8 == 1, (flags / 4) % 2 == 1, (flags / 2) % 2 == 1, flags % 2 == 1,
              (b0 % 16) as nat, b1 / 128 == 1, (b1 % 128) as nat)
  }

  /** The four high bits of the first byte, as a number. */
  function Flags(b: BaseFrame): (r: nat)
    ensures r < 16
  {
    8 * Bit(b.fin) + 4 * Bit(b.rsv1) + 2 * Bit(b.rsv2) + Bit(b.rsv3)
  }

  /**
   * The two bytes `serializeFrame` builds from a base frame: the fields are
   * shifted into disjoint bits, so the bitwise `|` in the code is a sum.
   */
  function EncodeBaseFrame(b: BaseFrame): (r: Bytes)
    ensures |r| == 2
  {
    [(16 * Flags(b) + b.opcode) as byte, (128 * Bit(b.mask) + b.payloadLen) as byte]
  }

  /** Every base frame survives encoding and decoding. */
  lemma BaseFrameRoundTrip(b: BaseFrame)
    ensures ReadBaseFrame(EncodeBaseFrame(b)[0], EncodeBaseFrame(b)[1]) == b
  {
    var e := EncodeBaseFrame(b);
    assert e[0] / 16 == Flags(b) as byte && e[0] % 16 == b.opcode as byte;
    assert e[1] / 128 == Bit(b.mask) as byte && e[1] % 128 == b.payloadLen as byte;
  }

  /** Every pair of bytes is the encoding of the base frame read from it. */
  lemma BaseFrameBytesRoundTrip(b0: byte, b1: byte)
    ensures EncodeBaseFrame(ReadBaseFrame(b0, b1)) == [b0, b1]
  {
    NibbleBits((b0 / 16) as nat);
    assert Flags(ReadBaseFrame(b0, b1)) == (b0 / 16) as nat;
  }

  lemma NibbleBits(h: nat)
    requires h < 16
    ensures h == 8 * (h / 8) + 4 * ((h / 4) % 2) + 2 * ((h / 2) % 2) + h % 2
  {
  }

  /**
   * `readFrameData`, reading the frame that starts `pos` bytes into `data`
   * (the offset `websocketreader.hpp` declares); None where it returns false.
   */
  function ReadFrameData(data: Bytes, pos: nat): (r: Option<Frame>)
    requires pos <= |data|
    ensures r.None? <==> |data| - pos < 2 || |data| - pos < SizeOfFrame(ReadBaseFrame(data[pos], data[pos + 1]))
    ensures r.Some? ==> r.value.base == ReadBaseFrame(data[pos], data[pos + 1])
  {
    var avail := |data| - pos;
    if avail < 2 then None
    else
      var base := ReadBaseFrame(data[pos], data[pos + 1]);
      var ext: Option<(UInt64, nat)> :=
        if base.payloadLen == Length16Bit then
          if avail < 2 + 2 then None else Some((ExtendedLength(data, pos + 2, 2), 2 + 2))
        else if base.payloadLen == Length64Bit then
          if avail < 2 + 8 then None else Some((ExtendedLength(data, pos + 2, 8), 2 + 8))
        else Some((base.payloadLen as UInt64, 2));
      if ext.None? then None
      else
        var offset := ext.value.1;
        if !base.mask then Some(Frame(base, ext.value.0, NoMask))
        else if avail < offset + 4 then None
        else Some(Frame(base, ext.value.0, data[pos + offset..pos + offset + 4]))
  }

  /** The `n`-byte big-endian extended length at `at`. */
  function ExtendedLength(data: Bytes, at: nat, n: nat): (r: UInt64)
    requires n <= 8 && at + n <= |data|
  {
    Pow256Values();
    PowMonotone(n, 8);
    BigEndian(data[at..at + n])
  }

  lemma {:induction false} PowMonotone(n: nat, m: nat)
    requires n <= m
    ensures Pow256(n) <= Pow256(m)
  {
    if n < m {
      PowMonotone(n, m - 1);
    }
  }

  /** `payloadLength`. */
  function PayloadLength(f: Frame): nat
  {
    if f.base.payloadLen >= Length16Bit then f.extPayloadLen else f.base.payloadLen
  }

  /** A frame read from the wire carries its payload length in `extPayloadLen` in every form. */
  lemma ReadPayloadLength(data: Bytes, pos: nat)
    requires pos <= |data| && ReadFrameData(data, pos).Some?
    ensures PayloadLength(ReadFrameData(data, pos).value) == ReadFrameData(data, pos).value.extPayloadLen
    ensures ReadFrameData(data, pos).value.base.payloadLen < Length16Bit ==>
              PayloadLength(ReadFrameData(data, pos).value) == ReadFrameData(data, pos).value.base.payloadLen
  {
  }

  predicate IsReservedOpcode(op: Nibble) { (3 <= op <= 7) || (0xB <= op <= 0xF) }

  predicate IsControlOpcode(op: Nibble) { (op / 8) % 2 == 1 }

  /** `isLegalClientPacket`: the checks in the order the code makes them. */
  function IsLegalClientPacket(f: Frame): (r: bool)
    ensures r <==>
      && !f.base.rsv1 && !f.base.rsv2 && !f.base.rsv3
      && (f.base.payloadLen >= Length16Bit ==> Length16Bit <= f.extPayloadLen <= PayloadHardLimit)
      && !(3 <= f.base.opcode <= 7) && !(0xB <= f.base.opcode)
      && (f.base.opcode >= 8 ==> f.base.fin && f.base.payloadLen <= 125)
      && (f.base.payloadLen > 0 ==> f.base.mask)
  {
    var b := f.base;
    if b.rsv1 || b.rsv2 || b.rsv3 then false
    else if (b.payloadLen == Length16Bit || b.payloadLen == Length64Bit)
         && (f.extPayloadLen < Length16Bit || f.extPayloadLen > PayloadHardLimit) then false
    else if IsReservedOpcode(b.opcode) then false
    else if IsControlOpcode(b.opcode) && (b.payloadLen > 125 || !b.fin) then false
    else if !b.mask && b.payloadLen > 0 then false
    else true
  }

  /**
   * A legal client frame never announces more than the hard limit, and a
   * legal control frame is final and at most 125 bytes long (section 5.5 of
   * RFC 6455).
   */
  lemma LegalPacketBounds(f: Frame)
    requires IsLegalClientPacket(f)
    ensures PayloadLength(f) <= PayloadHardLimit
    ensures f.base.opcode in {ContinuationFrame, TextFrame, BinaryFrame, ConnectionClose, Ping, Pong}
    ensures f.base.opcode >= ConnectionClose ==> f.base.fin && PayloadLength(f) <= 125
    ensures PayloadLength(f) > 0 && f.base.payloadLen > 0 ==> f.base.mask
  {
  }

  // ---------------------------------------------------------------------
  // Masking (section 5.3 of RFC 6455)
  // ---------------------------------------------------------------------

  /** The payload XORed byte by byte with the key, repeated every four bytes. */
  function Masked(payload: Bytes, key: MaskKey): (r: Bytes)
    ensures |r| == |payload|
  {
    seq(|payload|, i requires 0 <= i < |payload| => Xor(payload[i], key[i % 4]))
  }

  /** `maskPayload`: masks `payload` in place. */
  method MaskPayload(key: MaskKey, payload: array<byte>)
    modifies payload
    ensures payload[..] == Masked(old(payload[..]), key)
  {
    ghost var original := payload[..];
    var pos := 0;
    while pos < payload.Length
      invariant 0 <= pos <= payload.Length
      invariant payload[..pos] == Masked(original, key)[..pos]
      invariant payload[pos..] == original[pos..]
    {
      payload[pos] := Xor(payload[pos], key[pos % 4]);
      pos := pos + 1;
    }
  }

  /** Masking twice with the same key restores the payload. */
  lemma MaskInvolution(payload: Bytes, key: MaskKey)
    ensures Masked(Masked(payload, key), key) == payload
  {
    forall i | 0 <= i < |payload|
      ensures Masked(Masked(payload, key), key)[i] == payload[i]
    {
      XorInvolution(payload[i], key[i % 4]);
    }
  }

  /** The all-zero key of an unmasked frame leaves the payload as it is. */
  lemma MaskWithoutKey(payload: Bytes)
    ensures Masked(payload, NoMask) == payload
  {
    forall i | 0 <= i < |payload|
      ensures Masked(payload, NoMask)[i] == payload[i]
    {
      XorZero(payload[i]);
    }
  }

  lemma {:induction false} XorBitsZero(x: nat, n: nat)
    requires x < Pow2(n)
    ensures XorBits(x, 0, n) == x
  {
    if n > 0 {
      XorBitsZero(x / 2, n - 1);
    }
  }

  lemma XorZero(a: byte)
    ensures Xor(a, 0) == a
  {
    assert Pow2(8) == 256;
    XorBitsZero(a as nat, 8);
  }

  // ---------------------------------------------------------------------
  // Close frames (sections 5.5.1 and 7.4 of RFC 6455)
  // ---------------------------------------------------------------------

  datatype Close = Close(code: int, message: Bytes)

  /**
   * `readClose`: None where it returns false. An empty payload gives code -1
   * and leaves the message untouched, which here is empty.
   */
  function ReadClose(payload: Bytes): (r: Option<Close>)
    ensures r.None? <==> |payload| == 1
    ensures r.Some? && payload != [] ==> 0 <= r.value.code < 0x1_0000 && |r.value.message| == |payload| - 2
  {
    if payload == [] then Some(Close(-1, []))
    else if |payload| < 2 then None
    else
      Pow256Values();
      Some(Close(BigEndian(payload[..2]), payload[2..]))
  }

  /** `isLegalCloseCode`. */
  function IsLegalCloseCode(code: int): (r: bool)
    ensures r <==> code < 0 || 1000 <= code <= 1003 || 1007 <= code <= 1011 || 3000 <= code <= 4999
  {
    if code < 0 then true
    else if 1004 <= code <= 1006 then false
    else if code < 1000 || (code > 1011 && code < 3000) then false
    else if code > 4999 then false
    else true
  }

  /** `createClosePayload`: the code truncated to 16 bits, big-endian, then the message. */
  function CreateClosePayload(code: int, message: Bytes): (r: Bytes)
    ensures r == [] <==> code < 0
    ensures code >= 0 ==> |r| == 2 + |message| && r[2..] == message
  {
    if code < 0 then [] else ToBigEndian(code % 0x1_0000, 2) + message
  }

  /** `readClose` recovers what `createClosePayload` wrote, up to the 16-bit truncation. */
  lemma CloseRoundTrip(code: int, message: Bytes)
    ensures ReadClose(CreateClosePayload(code, message))
         == if code < 0 then Some(Close(-1, [])) else Some(Close(code % 0x1_0000, message))
  {
    if code >= 0 {
      var p := CreateClosePayload(code, message);
      assert p[..2] == ToBigEndian(code % 0x1_0000, 2);
      Pow256Values();
      BigEndianRoundTrip(code % 0x1_0000, 2);
    }
  }

  /**
   * Every legal close code is read back unchanged, except that all negative
   * codes mean "no code" and come back as -1.
   */
  lemma LegalCloseRoundTrip(code: int, message: Bytes)
    requires IsLegalCloseCode(code)
    ensures ReadClose(CreateClosePayload(code, message)).value.code == if code < 0 then -1 else code
    ensures IsLegalCloseCode(ReadClose(CreateClosePayload(code, message)).value.code)
  {
    CloseRoundTrip(code, message);
  }

  // ---------------------------------------------------------------------
  // WebSocketWriter
  // ---------------------------------------------------------------------

  /** The length field `serializeFrame` chooses for a payload length. */
  function LengthCode(len: UInt64): Len7
  {
    if len > 0xFFFF then Length64Bit else if len >= Length16Bit then Length16Bit else len
  }

  /**
   * `serializeFrame`: the base frame with the chosen length field, then the
   * extended length big-endian. The mask key is never written.
   */
  function SerializeFrame(f: Frame): (r: Bytes)
    ensures |r| == if f.extPayloadLen > 0xFFFF then 10 else if f.extPayloadLen >= 126 then 4 else 2
    ensures |r| == SizeOfFrame(f.base.(payloadLen := LengthCode(f.extPayloadLen), mask := false))
  {
    var len := f.extPayloadLen;
    EncodeBaseFrame(f.base.(payloadLen := LengthCode(len)))
      + (if len > 0xFFFF then ToBigEndian(len, 8) else if len >= Length16Bit then ToBigEndian(len, 2) else [])
  }

  /**
   * An unmasked frame, serialized anywhere in a buffer, is read back from
   * there with its flags, opcode and payload length.
   */
  lemma SerializeRoundTrip(f: Frame, data: Bytes, pos: nat)
    requires !f.base.mask
    requires pos + |SerializeFrame(f)| <= |data| && data[pos..pos + |SerializeFrame(f)|] == SerializeFrame(f)
    ensures ReadFrameData(data, pos)
         == Some(Frame(f.base.(payloadLen := LengthCode(f.extPayloadLen)), f.extPayloadLen, NoMask))
    ensures PayloadLength(ReadFrameData(data, pos).value) == f.extPayloadLen
  {
    var s := SerializeFrame(f);
    var len := f.extPayloadLen;
    var b := f.base.(payloadLen := LengthCode(len));
    assert data[pos] == s[0] && data[pos + 1] == s[1];
    assert s[..2] == EncodeBaseFrame(b);
    BaseFrameRoundTrip(b);
    Pow256Values();
    if len > 0xFFFF {
      assert data[pos + 2..pos + 2 + 8] == s[2..] == ToBigEndian(len, 8);
      BigEndianRoundTrip(len, 8);
    } else if len >= Length16Bit {
      assert data[pos + 2..pos + 2 + 2] == s[2..] == ToBigEndian(len, 2);
      BigEndianRoundTrip(len, 2);
    }
  }

  /** The bytes `sendToClient` writes: an unmasked, unreserved header, then the payload. */
  function OutgoingFrame(fin: bool, opcode: Nibble, payload: Bytes): Bytes
    requires |payload| < 0x8000_0000
  {
    SerializeFrame(Frame(BaseFrame(fin, false, false, false, opcode, false, 0), |payload|, NoMask)) + payload
  }

  /** `sendToClient`: writes the frame header and then the `len` payload bytes to the device. */
  method SendToClient(device: Device, fin: bool, opcode: Nibble, payload: Bytes)
    requires |payload| < 0x8000_0000
    modifies device
    ensures device.written == old(device.written) + OutgoingFrame(fin, opcode, payload)
    ensures device.closed == old(device.closed)
  {
    device.Write(SerializeFrame(Frame(BaseFrame(fin, false, false, false, opcode, false, 0), |payload|, NoMask)));
    device.Write(payload);
  }

  /**
   * A frame sent to the client is read back with its flag, opcode and
   * length, and its payload follows the header.
   */
  lemma OutgoingFrameRead(fin: bool, opcode: Nibble, payload: Bytes)
    requires |payload| < 0x8000_0000
    ensures ReadFrameData(OutgoingFrame(fin, opcode, payload), 0).Some?
    ensures var f := ReadFrameData(OutgoingFrame(fin, opcode, payload), 0).value;
      && f.base.fin == fin && f.base.opcode == opcode && !f.base.mask
      && !f.base.rsv1 && !f.base.rsv2 && !f.base.rsv3
      && PayloadLength(f) == |payload|
      && OutgoingFrame(fin, opcode, payload)[SizeOfFrame(f.base)..] == payload
  {
    var f := Frame(BaseFrame(fin, false, false, false, opcode, false, 0), |payload|, NoMask);
    var s := SerializeFrame(f);
    assert OutgoingFrame(fin, opcode, payload)[0..|s|] == s;
    SerializeRoundTrip(f, OutgoingFrame(fin, opcode, payload), 0);
  }
}
