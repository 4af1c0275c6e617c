/**
 * `WebSocket` (websocket.cpp): the server's end of an upgraded connection.
 * Incoming bytes land in a receive device, are cut into frames, unmasked and
 * reassembled into messages according to the socket's read mode; outgoing
 * data is framed, fragmented as the caller asks, and written to the HTTP
 * client underneath.
 */
module WebSockets {
  import opened Bytes
  import opened Devices
  import opened WebSocketFrames

  /** `WebSocket::Mode`. */
  datatype Mode = FrameMode | FrameStreaming | Streaming

  /** `WebSocket::FrameType`; `Index` is the enumerator's value. */
  datatype FrameType = TextType | BinaryType
  {
    function Index(): int { if this == TextType then 0 else 1 }
  }

  /** `QIODevice::OpenMode`, as far as the socket uses it. */
  datatype OpenMode = NotOpen | ReadOnly | WriteOnly | ReadWrite

  /** `WebSocket::CloseReason`. */
  datatype CloseReason = CloseRequest | IllegalFrameReceived

  /** `StringUtils::CheckState`, the answer of the UTF-8 checker. */
  datatype Utf8State = Utf8Valid | Utf8Incomplete | Utf8Invalid

  /** The signals the socket emits, in order. */
  datatype Event =
    | PartialFrameReceived(frameType: FrameType, data: Bytes, last: bool)
    | FrameReceived(frameType: FrameType, data: Bytes)
    | ReadyRead
    | PingReceived(challenge: Bytes)
    | PongReceived(challenge: Bytes)
    | ConnectionClosed(code: int, message: Bytes)
    | ConnectionLost(reason: CloseReason)

  /** `WebSocket::StatusCode` values the socket sends itself. */
  const StatusNormal: int := 1000
  const StatusProtocolError: int := 1002
  const StatusBrokenData: int := 1007

  /** `WebSocketRecvDevice::BufferShrinkThresholdHuge` and `BufferShrinkThreshold`. */
  const BufferShrinkThresholdHuge: nat := 1024 * 1024
  const BufferShrinkThreshold: nat := 8 * 1024

  /** Largest payload an `int` length can describe. */
  const MaxLength: nat := 0x7FFF_FFFF

  // ---------------------------------------------------------------------
  // Fragmentation (section 5.4 of RFC 6455)
  // ---------------------------------------------------------------------

  /** The two header fields that matter for fragmentation, of one data frame. */
  datatype DataHeader = DataHeader(fin: bool, opcode: Nibble)

  /** A message is in progress: the last data frame so far was not final. */
  predicate InProgress(s: seq<DataHeader>)
  {
    |s| > 0 && !s[|s| - 1].fin
  }

  /**
   * Every data frame is a continuation exactly when a message is in
   * progress before it.
   */
  predicate WellFragmented(s: seq<DataHeader>)
  {
    s == [] ||
      (WellFragmented(s[..|s| - 1]) && (s[|s| - 1].opcode == ContinuationFrame <==> InProgress(s[..|s| - 1])))
  }

  /** A stream of data frames stays well fragmented exactly when the next frame fits the state. */
  lemma WellFragmentedSnoc(s: seq<DataHeader>, h: DataHeader)
    ensures WellFragmented(s + [h]) <==> WellFragmented(s) && (h.opcode == ContinuationFrame <==> InProgress(s))
    ensures InProgress(s + [h]) <==> !h.fin
  {
    assert (s + [h])[..|s|] == s;
  }

  /** Marking the last frame of an unfinished message as final ends the message. */
  lemma FinishMessage(s: seq<DataHeader>)
    requires WellFragmented(s) && InProgress(s)
    ensures WellFragmented(s[..|s| - 1] + [DataHeader(true, s[|s| - 1].opcode)])
    ensures !InProgress(s[..|s| - 1] + [DataHeader(true, s[|s| - 1].opcode)])
  {
    var init := s[..|s| - 1];
    assert init + [s[|s| - 1]] == s;
    WellFragmentedSnoc(init, s[|s| - 1]);
    WellFragmentedSnoc(init, DataHeader(true, s[|s| - 1].opcode));
  }

  // ---------------------------------------------------------------------
  // Whole frames in the receive buffer
  // ---------------------------------------------------------------------

  /** `readFrameData` at an offset reads what it reads from the buffer's suffix. */
  lemma ReadFrameShift(data: Bytes, pos: nat)
    requires pos <= |data|
    ensures ReadFrameData(data[pos..], 0) == ReadFrameData(data, pos)
  {
    var d := data[pos..];
    if |d| >= 2 {
      assert d[0] == data[pos] && d[1] == data[pos + 1];
      if |d| >= 4 {
        assert d[2..4] == data[pos + 2..pos + 4];
      }
      if |d| >= 6 {
        assert d[2..6] == data[pos + 2..pos + 6];
      }
      if |d| >= 8 {
        assert d[4..8] == data[pos + 4..pos + 8];
      }
      if |d| >= 10 {
        assert d[2..10] == data[pos + 2..pos + 10];
      }
      if |d| >= 14 {
        assert d[10..14] == data[pos + 10..pos + 14];
      }
    }
  }

  /** `readFrameData` reads nothing beyond the frame's header. */
  lemma ReadFramePrefix(data: Bytes, n: nat)
    requires 2 <= n <= |data| && SizeOfFrame(ReadBaseFrame(data[0], data[1])) <= n
    ensures ReadFrameData(data[..n], 0) == ReadFrameData(data, 0)
  {
    var d := data[..n];
    assert d[0] == data[0] && d[1] == data[1];
    if n >= 4 {
      assert d[2..4] == data[2..4];
    }
    if n >= 6 {
      assert d[2..6] == data[2..6];
    }
    if n >= 8 {
      assert d[4..8] == data[4..8];
    }
    if n >= 10 {
      assert d[2..10] == data[2..10];
    }
    if n >= 14 {
      assert d[10..14] == data[10..14];
    }
  }

  /** The frame's header and payload length, taken together. */
  function FrameSize(f: Frame): nat
  {
    SizeOfFrame(f.base) + f.extPayloadLen
  }

  /** The buffer starts with a frame whose header and payload are both present. */
  predicate HasCompleteFrame(data: Bytes)
  {
    ReadFrameData(data, 0).Some? && FrameSize(ReadFrameData(data, 0).value) <= |data|
  }

  /** Exactly one legal client frame, header and payload. */
  predicate WholeFrame(chunk: Bytes)
  {
    ReadFrameData(chunk, 0).Some? && IsLegalClientPacket(ReadFrameData(chunk, 0).value)
    && |chunk| == FrameSize(ReadFrameData(chunk, 0).value)
  }

  /** Every chunk is exactly one legal client frame. */
  predicate WholeFrames(chunks: seq<Bytes>)
  {
    chunks == [] || (WholeFrames(chunks[..|chunks| - 1]) && WholeFrame(chunks[|chunks| - 1]))
  }

  /** Reading the frame at the front of the unread bytes and cutting it off. */
  lemma FrontFrame(data: Bytes, pos: nat, f: Frame)
    requires pos <= |data| && ReadFrameData(data, pos) == Some(f) && IsLegalClientPacket(f)
    requires pos + FrameSize(f) <= |data|
    ensures WholeFrame(data[pos..pos + FrameSize(f)])
    ensures data[pos..] == data[pos..pos + FrameSize(f)] + data[pos + FrameSize(f)..]
  {
    ReadFrameShift(data, pos);
    var rest := data[pos..];
    assert rest[..FrameSize(f)] == data[pos..pos + FrameSize(f)];
    ReadFramePrefix(rest, FrameSize(f));
  }

  /** A whole frame cut off the unread bytes joins the frames consumed, and no byte is lost. */
  lemma AppendChunk(start: Bytes, processed: seq<Bytes>, chunk: Bytes, rest: Bytes, rest': Bytes)
    requires start == Flatten(processed) + rest && rest == chunk + rest'
    requires WholeFrames(processed) && WholeFrame(chunk)
    ensures start == Flatten(processed + [chunk]) + rest'
    ensures WholeFrames(processed + [chunk])
  {
    FlattenSnoc(processed, chunk);
    assert (processed + [chunk])[..|processed|] == processed;
  }

  /** The outcome of one step of `processPacket`. */
  datatype PacketStep = Failed | Incomplete | Consumed

  /** `readFromByteArray`'s result: whether the whole array was read, what was read, and what is left. */
  datatype ByteRead = ByteRead(full: bool, data: Bytes, rest: Bytes)

  /**
   * `readFromByteArray`: at most `maxlen` bytes from the front. A full read
   * leaves the array for the caller to drop; a partial one removes exactly
   * what it copied.
   */
  function ReadFromByteArray(buffer: Bytes, maxlen: nat): (r: ByteRead)
    ensures |r.data| == if maxlen < |buffer| then maxlen else |buffer|
    ensures r.full <==> |r.data| == |buffer|
    ensures r.data == buffer[..|r.data|]
    ensures !r.full ==> r.data + r.rest == buffer
  {
    if maxlen >= |buffer| then ByteRead(true, buffer, buffer)
    else ByteRead(false, buffer[..maxlen], buffer[maxlen..])
  }

  // ---------------------------------------------------------------------
  // WebSocketRecvDevice
  // ---------------------------------------------------------------------

  /** `WebSocketRecvDevice`: the bytes received so far and how far they have been processed. */
  class RecvDevice {
    var buffer: Bytes
    var bufferReadPos: nat

    predicate Valid()
      reads this
    {
      bufferReadPos <= |buffer|
    }

    /** The bytes not yet processed. */
    function Unread(): Bytes
      reads this
      requires Valid()
    {
      buffer[bufferReadPos..]
    }

    constructor ()
      ensures Valid() && buffer == [] && bufferReadPos == 0
    {
      buffer := [];
      bufferReadPos := 0;
    }

    /**
     * Advancing the read position past `n` processed bytes, and shrinking
     * the buffer with the large threshold, as the processing loop does.
     */
    method Skip(n: nat) returns (ghost chunk: Bytes)
      requires Valid() && n <= |Unread()|
      modifies this
      ensures Valid() && chunk == old(buffer[bufferReadPos..bufferReadPos + n])
      ensures old(Unread()) == chunk + Unread() && |chunk| == n
    {
      chunk := buffer[bufferReadPos..bufferReadPos + n];
      ghost var rest := buffer[bufferReadPos + n..];
      assert Unread() == chunk + rest;
      bufferReadPos := bufferReadPos + n;
      ShrinkBuffer(true);
    }

    /**
     * `shrinkBuffer`: once the processed prefix reaches the threshold (1 MiB
     * inside the processing loop, 8 KiB after it), it is dropped.
     */
    method ShrinkBuffer(fast: bool)
      requires Valid()
      modifies this
      ensures Valid() && Unread() == old(Unread())
      ensures bufferReadPos == if old(bufferReadPos) >= (if fast then BufferShrinkThresholdHuge else BufferShrinkThreshold)
                               then 0 else old(bufferReadPos)
    {
      var threshold := if fast then BufferShrinkThresholdHuge else BufferShrinkThreshold;
      if bufferReadPos >= threshold {
        buffer := buffer[bufferReadPos..];
        bufferReadPos := 0;
      }
    }
  }

  // ---------------------------------------------------------------------
  // WebSocket
  // ---------------------------------------------------------------------

  /** The type of an incoming data frame: a continuation keeps the message's type. */
  function IncomingType(curIncoming: int, opcode: Nibble): FrameType
  {
    if opcode == ContinuationFrame then (if curIncoming == 1 then BinaryType else TextType)
    else if opcode == TextFrame then TextType else BinaryType
  }

  /** The opcode `sendFrame` uses. */
  function OutgoingOpcode(curOutgoing: int, t: FrameType): Nibble
  {
    if curOutgoing < 0 then (if t == TextType then TextFrame else BinaryFrame) else ContinuationFrame
  }

  class WebSocket {
    /** The HTTP client the socket writes to and closes. */
    const client: Device
    /** `backendDevice()`, which receives the raw bytes. */
    const backend: RecvDevice
    /** `StringUtils::checkValidUtf8`, which is not part of this model. */
    const checkUtf8: Bytes -> Utf8State

    var mode: Mode
    var frameType: FrameType
    var curIncoming: int
    var curOutgoing: int
    var usingReadBuffer: bool
    /** Completed messages, in Frame mode. */
    var frames: seq<Bytes>
    /** The message being received, or the stream in the streaming modes. */
    var buffer: Bytes
    var openMode: OpenMode
    var events: seq<Event>

    /** The data frames sent so far. */
    ghost var sent: seq<DataHeader>
    /** The data frames accepted so far. */
    ghost var received: seq<DataHeader>

    /**
     * The fragmentation state of each direction is what the frames so far
     * say it is, and both directions are well fragmented.
     */
    ghost predicate Valid()
      reads this, backend
    {
      && backend.Valid()
      && -1 <= curIncoming <= 1 && -1 <= curOutgoing <= 1
      && WellFragmented(sent) && (curOutgoing >= 0 <==> InProgress(sent))
      && WellFragmented(received) && (curIncoming >= 0 <==> InProgress(received))
    }

    constructor (client: Device, checkUtf8: Bytes -> Utf8State)
      ensures Valid() && fresh(backend)
      ensures this.client == client && this.checkUtf8 == checkUtf8
      ensures mode == FrameMode && frameType == TextType && curIncoming == -1 && curOutgoing == -1
      ensures !usingReadBuffer && frames == [] && buffer == [] && openMode == ReadWrite && events == []
      ensures backend.buffer == [] && backend.bufferReadPos == 0
    {
      this.client := client;
      this.checkUtf8 := checkUtf8;
      backend := new RecvDevice();
      mode := FrameMode;
      frameType := TextType;
      curIncoming := -1;
      curOutgoing := -1;
      usingReadBuffer := false;
      frames := [];
      buffer := [];
      openMode := ReadWrite;
      events := [];
      sent := [];
      received := [];
    }

    /** `setMode`: drops what was buffered; the read buffer is used except in Frame mode. */
    method SetMode(m: Mode)
      requires Valid()
      modifies this
      ensures Valid() && mode == m && usingReadBuffer == (m != FrameMode)
      ensures buffer == [] && frames == []
      ensures curIncoming == old(curIncoming) && curOutgoing == old(curOutgoing) && openMode == old(openMode)
      ensures events == old(events) && frameType == old(frameType)
      ensures sent == old(sent) && received == old(received)
    {
      buffer := [];
      frames := [];
      mode := m;
      usingReadBuffer := m != FrameMode;
    }

    method SetFrameType(t: FrameType)
      requires Valid()
      modifies this
      ensures Valid() && frameType == t
      ensures mode == old(mode) && usingReadBuffer == old(usingReadBuffer) && buffer == old(buffer)
      ensures frames == old(frames) && openMode == old(openMode) && events == old(events)
      ensures curIncoming == old(curIncoming) && curOutgoing == old(curOutgoing)
      ensures sent == old(sent) && received == old(received)
    {
      frameType := t;
    }

    /** `setUseReadBuffer`: without the read buffer the socket is write-only and drops what it held. */
    method SetUseReadBuffer(useBuffer: bool)
      requires Valid()
      modifies this
      ensures Valid() && usingReadBuffer == useBuffer
      ensures openMode == if useBuffer then ReadWrite else WriteOnly
      ensures buffer == (if useBuffer then old(buffer) else [])
      ensures frames == (if useBuffer then old(frames) else [])
      ensures mode == old(mode) && frameType == old(frameType) && events == old(events)
      ensures curIncoming == old(curIncoming) && curOutgoing == old(curOutgoing)
      ensures sent == old(sent) && received == old(received)
    {
      usingReadBuffer := useBuffer;
      if useBuffer {
        openMode := ReadWrite;
      } else {
        openMode := WriteOnly;
        buffer := [];
        frames := [];
      }
    }

    /**
     * `sendFrame`: the first frame of a message carries its type, every
     * later one is a continuation whatever `t` says, and the last one ends
     * the message.
     */
    method SendFrame(t: FrameType, data: Bytes, isLast: bool)
      requires Valid() && |data| <= MaxLength
      modifies this, client
      ensures Valid()
      ensures client.written == old(client.written) + OutgoingFrame(isLast, OutgoingOpcode(old(curOutgoing), t), data)
      ensures curOutgoing == if isLast then -1 else if old(curOutgoing) < 0 then t.Index() else old(curOutgoing)
      ensures sent == old(sent) + [DataHeader(isLast, OutgoingOpcode(old(curOutgoing), t))]
      ensures mode == old(mode) && usingReadBuffer == old(usingReadBuffer) && buffer == old(buffer)
      ensures frames == old(frames) && openMode == old(openMode) && events == old(events)
      ensures frameType == old(frameType) && curIncoming == old(curIncoming) && received == old(received)
      ensures client.closed == old(client.closed)
    {
      var op: Nibble;
      if curOutgoing < 0 {
        op := if t == TextType then TextFrame else BinaryFrame;
        curOutgoing := t.Index();
      } else {
        op := ContinuationFrame;
      }
      if isLast {
        curOutgoing := -1;
      }
      WellFragmentedSnoc(sent, DataHeader(isLast, op));
      sent := sent + [DataHeader(isLast, op)];
      SendToClient(client, isLast, op, data);
    }

    /** `writeData`: one final frame of the default type. */
    method WriteData(data: Bytes) returns (n: int)
      requires Valid() && |data| <= MaxLength
      modifies this, client
      ensures Valid() && n == |data|
      ensures client.written == old(client.written) + OutgoingFrame(true, OutgoingOpcode(old(curOutgoing), frameType), data)
      ensures curOutgoing == -1
    {
      SendFrame(frameType, data, true);
      n := |data|;
    }

    /** `sendClose`: a final close frame carrying the code and message. */
    method SendClose(code: int, message: Bytes)
      requires |message| <= MaxLength - 2
      modifies client
      ensures client.written == old(client.written) + OutgoingFrame(true, ConnectionClose, CreateClosePayload(code, message))
      ensures client.closed == old(client.closed)
    {
      SendToClient(client, true, ConnectionClose, CreateClosePayload(code, message));
    }

    /** `sendPing`: challenges of 126 bytes or more do not fit a control frame and are refused. */
    method SendPing(challenge: Bytes) returns (ok: bool)
      requires |challenge| <= MaxLength
      modifies client
      ensures ok <==> |challenge| < Length16Bit
      ensures client.written == old(client.written) + (if ok then OutgoingFrame(true, Ping, challenge) else [])
      ensures client.closed == old(client.closed)
    {
      if |challenge| >= Length16Bit {
        return false;
      }
      SendToClient(client, true, Ping, challenge);
      ok := true;
    }

    /**
     * `close(code, message)`: the close frame goes out only while the socket
     * is open; afterwards it is closed, reports a close request and closes
     * the client.
     */
    method Close(code: int, message: Bytes)
      requires |message| <= MaxLength - 2
      modifies this, client
      ensures openMode == NotOpen && client.closed
      ensures client.written == old(client.written)
        + (if old(openMode) != NotOpen then OutgoingFrame(true, ConnectionClose, CreateClosePayload(code, message)) else [])
      ensures events == old(events) + [ConnectionLost(CloseRequest)]
      ensures mode == old(mode) && usingReadBuffer == old(usingReadBuffer) && buffer == old(buffer)
      ensures frames == old(frames) && frameType == old(frameType)
      ensures curIncoming == old(curIncoming) && curOutgoing == old(curOutgoing)
      ensures sent == old(sent) && received == old(received)
    {
      if openMode != NotOpen {
        SendClose(code, message);
      }
      openMode := NotOpen;
      events := events + [ConnectionLost(CloseRequest)];
      client.Close();
    }

    /** `open`: only "opening" as NotOpen succeeds, and it closes the socket normally. */
    method Open(m: OpenMode) returns (ok: bool)
      requires Valid()
      modifies this, client
      ensures Valid() && ok == (m == NotOpen)
      ensures ok ==> openMode == NotOpen && client.closed
      ensures ok ==> events == old(events) + [ConnectionLost(CloseRequest)]
      ensures ok ==> (client.written == old(client.written)
        + (if old(openMode) != NotOpen then OutgoingFrame(true, ConnectionClose, CreateClosePayload(StatusNormal, [])) else []))
      ensures !ok ==> openMode == old(openMode) && events == old(events) && client.written == old(client.written)
      ensures !ok ==> client.closed == old(client.closed)
      ensures mode == old(mode) && buffer == old(buffer) && frames == old(frames)
    {
      if m == NotOpen {
        Close(StatusNormal, []);
        return true;
      }
      ok := false;
    }

    /** `connLostHandler`: an open socket becomes NotOpen and reports a close request. */
    method ConnLostHandler()
      requires Valid()
      modifies this
      ensures Valid() && openMode == NotOpen
      ensures events == old(events) + (if old(openMode) != NotOpen then [ConnectionLost(CloseRequest)] else [])
      ensures mode == old(mode) && buffer == old(buffer) && frames == old(frames)
      ensures curIncoming == old(curIncoming) && curOutgoing == old(curOutgoing)
      ensures sent == old(sent) && received == old(received)
    {
      if openMode != NotOpen {
        openMode := NotOpen;
        events := events + [ConnectionLost(CloseRequest)];
      }
    }

    /**
     * `bytesAvailable`, on top of the `base` bytes `QIODevice` itself
     * holds: in Frame mode only the first queued message counts.
     */
    function BytesAvailable(base: nat): (r: nat)
      reads this
      ensures !usingReadBuffer ==> r == base
      ensures usingReadBuffer && mode == FrameMode ==> r == base + (if frames == [] then 0 else |frames[0]|)
      ensures usingReadBuffer && mode != FrameMode ==> r == base + |buffer|
    {
      if !usingReadBuffer then base
      else if mode == FrameMode then (if frames == [] then base else base + |frames[0]|)
      else base + |buffer|
    }

    /**
     * `readFrame`: reads from the first queued message only, and drops it
     * once it has been read completely.
     */
    method ReadFrame(maxlen: nat) returns (data: Bytes)
      requires Valid()
      modifies this
      ensures Valid()
      ensures old(frames) == [] ==> data == [] && frames == []
      ensures old(frames) != [] ==> (|data| <= |old(frames[0])| && data == old(frames[0])[..|data|]
        && |data| == (if maxlen < |old(frames[0])| then maxlen else |old(frames[0])|))
      ensures old(frames) != [] && |data| == |old(frames[0])| ==> frames == old(frames[1..])
      ensures old(frames) != [] && |data| < |old(frames[0])| ==> frames == [old(frames[0])[|data|..]] + old(frames[1..])
      ensures old(Flatten(frames)) == data + Flatten(frames)
      ensures mode == old(mode) && buffer == old(buffer) && openMode == old(openMode) && events == old(events)
      ensures curIncoming == old(curIncoming) && curOutgoing == old(curOutgoing)
      ensures sent == old(sent) && received == old(received)
    {
      if frames == [] {
        return [];
      }
      var r := ReadFromByteArray(frames[0], maxlen);
      data := r.data;
      ghost var before := frames;
      if r.full {
        frames := frames[1..];
      } else {
        frames := [r.rest] + frames[1..];
      }
      FlattenFront(before, frames, data);
    }

    /** `readStream`: reads from the front of the stream buffer. */
    method ReadStream(maxlen: nat) returns (data: Bytes)
      requires Valid()
      modifies this
      ensures Valid() && data + buffer == old(buffer)
      ensures |data| == if maxlen < |old(buffer)| then maxlen else |old(buffer)|
      ensures mode == old(mode) && frames == old(frames) && openMode == old(openMode) && events == old(events)
      ensures curIncoming == old(curIncoming) && curOutgoing == old(curOutgoing)
      ensures sent == old(sent) && received == old(received)
    {
      var r := ReadFromByteArray(buffer, maxlen);
      data := r.data;
      if r.full {
        buffer := [];
      } else {
        buffer := r.rest;
      }
    }

    /** `readData`: by message in Frame mode, from the stream otherwise. */
    method ReadData(maxlen: nat) returns (data: Bytes)
      requires Valid()
      modifies this
      ensures Valid() && |data| <= maxlen
      ensures mode == FrameMode ==> (old(frames) == [] && data == []) || (old(frames) != [] && |data| <= |old(frames[0])| && data == old(frames[0])[..|data|])
      ensures mode != FrameMode ==> data + buffer == old(buffer)
    {
      if mode == FrameMode {
        data := ReadFrame(maxlen);
      } else {
        data := ReadStream(maxlen);
      }
    }

    /**
     * `checkUtfValidity`: binary data always passes; text must be valid
     * UTF-8, or merely incomplete while more of the message is to come.
     */
    function CheckUtfValidity(data: Bytes, t: FrameType, last: bool): (r: bool)
      ensures t == BinaryType ==> r
      ensures t == TextType && last ==> (r <==> checkUtf8(data) == Utf8Valid)
      ensures t == TextType && !last ==> (r <==> checkUtf8(data) != Utf8Invalid)
    {
      t != TextType || checkUtf8(data) == Utf8Valid || (!last && checkUtf8(data) == Utf8Incomplete)
    }

    /**
     * `appendDataFrame`: accepts a continuation only while a message is in
     * progress and a new message only while none is, then stores the payload.
     */
    method AppendDataFrame(fin: bool, opcode: Nibble, payload: Bytes) returns (r: bool)
      requires Valid() && opcode <= BinaryFrame
      modifies this, client
      ensures Valid() && mode == old(mode) && usingReadBuffer == old(usingReadBuffer)
      ensures (opcode == ContinuationFrame) != (old(curIncoming) >= 0) ==> !r && unchanged(this, client)
      ensures (opcode == ContinuationFrame) == (old(curIncoming) >= 0) ==>
        (r <==> !old(StoreFails(buffer, IncomingType(curIncoming, opcode), fin, payload)))
      ensures r ==> StoredAs(old(buffer), old(frames), old(events), old(openMode), IncomingType(old(curIncoming), opcode), fin, payload)
      ensures (opcode == ContinuationFrame) == (old(curIncoming) >= 0) && !r ==> ClosedForBrokenData(old(openMode), old(client.written))
      ensures r ==> received == old(received) + [DataHeader(fin, opcode)]
      ensures r ==> curIncoming == if fin then -1 else IncomingType(old(curIncoming), opcode).Index()
      ensures r ==> unchanged(client) && sent == old(sent)
    {
      var append := opcode == ContinuationFrame;
      var t: FrameType;
      if append && curIncoming >= 0 {
        t := if curIncoming == 1 then BinaryType else TextType;
      } else if !append && curIncoming < 0 {
        t := if opcode == TextFrame then TextType else BinaryType;
        curIncoming := t.Index();
      } else {
        return false;
      }
      assert t == IncomingType(old(curIncoming), opcode);
      // Until the frame has been stored, the message counts as unfinished.
      ghost var before := received;
      WellFragmentedSnoc(before, DataHeader(false, opcode));
      received := before + [DataHeader(false, opcode)];
      r := StoreDataFrame(t, fin, payload);
      if r && fin {
        curIncoming := -1;
        WellFragmentedSnoc(before, DataHeader(true, opcode));
        received := before + [DataHeader(true, opcode)];
      }
    }

    /** Storing a data frame of message type `t` fails exactly when it ends a Frame mode message that is not valid. */
    predicate StoreFails(buffer0: Bytes, t: FrameType, fin: bool, payload: Bytes)
      reads this
    {
      mode == FrameMode && fin && !CheckUtfValidity(buffer0 + payload, t, true)
    }

    /**
     * What storing an accepted data frame of message type `t` does to the
     * buffers, the signals and the open mode, given the state before it.
     */
    predicate StoredAs(buffer0: Bytes, frames0: seq<Bytes>, events0: seq<Event>, openMode0: OpenMode,
                       t: FrameType, fin: bool, payload: Bytes)
      reads this
    {
      && frames == (if mode == FrameMode && fin then frames0 + [buffer0 + payload] else frames0)
      && buffer == (if mode == FrameMode && fin then []
                    else if (fin || mode == Streaming) && !usingReadBuffer then []
                    else buffer0 + payload)
      && events == events0 + DataEvents(mode, t, payload, buffer0 + payload, fin, usingReadBuffer)
      && openMode == openMode0
    }

    /**
     * What a refused message does: the socket is closed with code 1007 (the
     * close frame is sent only if it was open) and the loss reported.
     */
    predicate ClosedForBrokenData(openMode0: OpenMode, written0: Bytes)
      reads this, client
    {
      && openMode == NotOpen && client.closed && |events| > 0 && events[|events| - 1] == ConnectionLost(CloseRequest)
      && client.written == written0
           + (if openMode0 != NotOpen then OutgoingFrame(true, ConnectionClose, CreateClosePayload(StatusBrokenData, [])) else [])
    }

    /**
     * The rest of `appendDataFrame`, once the frame has been accepted as
     * part of a message of type `t`: the payload is appended and, in Frame
     * mode, delivered; then the buffer is dropped or readyRead emitted.
     */
    method StoreDataFrame(t: FrameType, fin: bool, payload: Bytes) returns (r: bool)
      modifies this, client
      ensures mode == old(mode) && usingReadBuffer == old(usingReadBuffer)
      ensures curIncoming == old(curIncoming) && curOutgoing == old(curOutgoing)
      ensures sent == old(sent) && received == old(received)
      ensures r <==> !old(StoreFails(buffer, t, fin, payload))
      ensures r ==> StoredAs(old(buffer), old(frames), old(events), old(openMode), t, fin, payload)
      ensures r ==> unchanged(client)
      ensures !r ==> ClosedForBrokenData(old(openMode), old(client.written))
    {
      buffer := buffer + payload;
      if mode == FrameMode {
        r := DeliverMessage(t, fin, payload);
        if !r {
          return;
        }
      }
      EndFrame(fin);
      r := true;
    }

    /**
     * The end of `appendDataFrame`: after a final frame (after every frame
     * in Streaming mode) the buffer is dropped when the read buffer is not
     * used and readyRead emitted when it is.
     */
    method EndFrame(fin: bool)
      modifies this
      ensures mode == old(mode) && usingReadBuffer == old(usingReadBuffer)
      ensures curIncoming == old(curIncoming) && curOutgoing == old(curOutgoing)
      ensures sent == old(sent) && received == old(received)
      ensures frames == old(frames) && openMode == old(openMode)
      ensures buffer == if (fin || mode == Streaming) && !usingReadBuffer then [] else old(buffer)
      ensures events == old(events) + (if (fin || mode == Streaming) && usingReadBuffer then [ReadyRead] else [])
    {
      if fin || mode == Streaming {
        if !usingReadBuffer {
          buffer := [];
        }
        if usingReadBuffer {
          events := events + [ReadyRead];
        }
      }
    }

    /**
     * The Frame mode part of `appendDataFrame`: every frame is reported,
     * and a finished message must be valid before it is queued and
     * reported; one that is not closes the socket with code 1007.
     */
    method DeliverMessage(t: FrameType, fin: bool, payload: Bytes) returns (r: bool)
      modifies this, client
      ensures mode == old(mode) && usingReadBuffer == old(usingReadBuffer)
      ensures curIncoming == old(curIncoming) && curOutgoing == old(curOutgoing)
      ensures sent == old(sent) && received == old(received)
      ensures r <==> !(fin && !CheckUtfValidity(old(buffer), t, true))
      ensures r ==> frames == (if fin then old(frames) + [old(buffer)] else old(frames))
      ensures r ==> buffer == (if fin then [] else old(buffer))
      ensures r ==> events == old(events) + [PartialFrameReceived(t, payload, fin)] + (if fin then [FrameReceived(t, old(buffer))] else [])
      ensures r ==> openMode == old(openMode) && unchanged(client)
      ensures !r ==> ClosedForBrokenData(old(openMode), old(client.written))
    {
      events := events + [PartialFrameReceived(t, payload, fin)];
      if fin {
        if !CheckUtfValidity(buffer, t, true) {
          Close(StatusBrokenData, []);
          return false;
        }
        frames := frames + [buffer];
        events := events + [FrameReceived(t, buffer)];
        buffer := [];
      }
      r := true;
    }

    /** The close payload is well formed, its code legal and its message valid UTF-8. */
    predicate CloseAccepted(payload: Bytes)
    {
      && ReadClose(payload).Some? && IsLegalCloseCode(ReadClose(payload).value.code)
      && CheckUtfValidity(ReadClose(payload).value.message, TextType, true)
    }

    /**
     * `processClose`: a malformed payload, an illegal code or a message that
     * is not UTF-8 fails; otherwise an open socket answers with a normal
     * close, the peer's code and message are reported and the client closed.
     */
    method ProcessClose(payload: Bytes) returns (r: bool)
      requires Valid()
      modifies this, client
      ensures Valid() && r == CloseAccepted(payload)
      ensures !r ==> unchanged(this, client)
      ensures r ==> events == old(events) + [ConnectionClosed(ReadClose(payload).value.code, ReadClose(payload).value.message)]
      ensures r ==> (client.closed && client.written == old(client.written)
        + (if old(openMode) != NotOpen then OutgoingFrame(true, ConnectionClose, CreateClosePayload(StatusNormal, [])) else []))
      ensures openMode == old(openMode) && frames == old(frames) && buffer == old(buffer)
      ensures received == old(received) && curIncoming == old(curIncoming) && mode == old(mode)
    {
      var close := ReadClose(payload);
      if close.None? || !IsLegalCloseCode(close.value.code) || !CheckUtfValidity(close.value.message, TextType, true) {
        return false;
      }
      var code, message := close.value.code, close.value.message;
      assert CloseAccepted(payload) && ReadClose(payload).value.code == code && ReadClose(payload).value.message == message;
      AcceptClose(code, message);
      r := true;
    }

    /**
     * The accepting end of `processClose`: an open socket answers with a
     * normal close, the peer's code and message are reported and the
     * client closed.
     */
    method AcceptClose(code: int, message: Bytes)
      requires Valid()
      modifies this, client
      ensures Valid()
      ensures events == old(events) + [ConnectionClosed(code, message)]
      ensures client.closed && client.written == old(client.written)
        + (if old(openMode) != NotOpen then OutgoingFrame(true, ConnectionClose, CreateClosePayload(StatusNormal, [])) else [])
      ensures openMode == old(openMode) && frames == old(frames) && buffer == old(buffer)
      ensures received == old(received) && curIncoming == old(curIncoming) && mode == old(mode)
    {
      if openMode != NotOpen {
        SendClose(StatusNormal, []);
      }
      events := events + [ConnectionClosed(code, message)];
      client.Close();
    }

    /** `processPing`: reports the ping and answers with a pong carrying the same payload. */
    method ProcessPing(payload: Bytes) returns (r: bool)
      requires Valid() && |payload| <= MaxLength
      modifies this, client
      ensures Valid() && r
      ensures events == old(events) + [PingReceived(payload)]
      ensures client.written == old(client.written) + OutgoingFrame(true, Pong, payload)
      ensures client.closed == old(client.closed) && openMode == old(openMode)
      ensures frames == old(frames) && buffer == old(buffer) && received == old(received)
      ensures curIncoming == old(curIncoming) && mode == old(mode)
    {
      events := events + [PingReceived(payload)];
      SendToClient(client, true, Pong, payload);
      r := true;
    }

    /** `processPong`: only reports the pong. */
    method ProcessPong(payload: Bytes) returns (r: bool)
      requires Valid()
      modifies this
      ensures Valid() && r
      ensures events == old(events) + [PongReceived(payload)]
      ensures openMode == old(openMode) && frames == old(frames) && buffer == old(buffer)
      ensures received == old(received) && curIncoming == old(curIncoming) && mode == old(mode)
    {
      events := events + [PongReceived(payload)];
      r := true;
    }

    /**
     * `processFrame`: unmasks the payload and dispatches on the opcode; any
     * other opcode fails.
     */
    method ProcessFrame(frame: Frame, payload: Bytes) returns (r: bool)
      requires Valid() && |payload| <= MaxLength
      modifies this, client
      ensures Valid() && mode == old(mode)
      ensures frame.base.opcode <= BinaryFrame && r ==> received == old(received) + [DataHeader(frame.base.fin, frame.base.opcode)]
      ensures frame.base.opcode <= BinaryFrame && (frame.base.opcode == ContinuationFrame) != (old(curIncoming) >= 0) ==> !r
      ensures frame.base.opcode == ConnectionClose ==> r == CloseAccepted(Masked(payload, frame.maskKey))
      ensures frame.base.opcode == Ping ==> (r && events == old(events) + [PingReceived(Masked(payload, frame.maskKey))]
        && client.written == old(client.written) + OutgoingFrame(true, Pong, Masked(payload, frame.maskKey)))
      ensures frame.base.opcode == Pong ==> r && events == old(events) + [PongReceived(Masked(payload, frame.maskKey))]
      ensures frame.base.opcode !in {ContinuationFrame, TextFrame, BinaryFrame, ConnectionClose, Ping, Pong} ==>
        !r && unchanged(this, client)
    {
      var data := payload;
      if payload != [] {
        var a := new byte[|payload|](i requires 0 <= i < |payload| => payload[i]);
        assert a[..] == payload;
        MaskPayload(frame.maskKey, a);
        data := a[..];
      }
      assert data == Masked(payload, frame.maskKey);
      var op := frame.base.opcode;
      if op == ContinuationFrame || op == TextFrame || op == BinaryFrame {
        r := AppendDataFrame(frame.base.fin, op, data);
      } else if op == ConnectionClose {
        r := ProcessClose(data);
      } else if op == Ping {
        r := ProcessPing(data);
      } else if op == Pong {
        r := ProcessPong(data);
      } else {
        r := false;
      }
    }

    /**
     * One step of `processPacket` on the frame at the front of the unread
     * bytes: an illegal frame or one the socket refuses fails, a frame not
     * yet complete stops the loop, and a processed frame is cut off the
     * unread bytes as `chunk`.
     */
    method ProcessNextFrame(frame: Frame) returns (step: PacketStep, ghost chunk: Bytes)
      requires Valid() && ReadFrameData(backend.buffer, backend.bufferReadPos) == Some(frame)
      modifies this, client, backend
      ensures Valid() && mode == old(mode)
      ensures step != Consumed ==> backend.Unread() == old(backend.Unread())
      ensures step == Failed ==> ReadFrameData(backend.Unread(), 0) == Some(frame)
      ensures step == Incomplete ==>
        ReadFrameData(backend.Unread(), 0) == Some(frame) && IsLegalClientPacket(frame) && !HasCompleteFrame(backend.Unread())
      ensures step == Consumed ==>
        old(backend.Unread()) == chunk + backend.Unread() && WholeFrame(chunk)
        && |backend.Unread()| < |old(backend.Unread())|
    {
      ghost var buf, pos := backend.buffer, backend.bufferReadPos;
      ReadFrameShift(buf, pos);
      chunk := [];
      if !IsLegalClientPacket(frame) {
        return Failed, chunk;
      }
      var dataLength := frame.extPayloadLen;
      var frameSize := SizeOfFrame(frame.base);
      if frameSize + dataLength > |backend.buffer| - backend.bufferReadPos {
        return Incomplete, chunk;
      }
      var ok := ProcessFrameAt(frame);
      if !ok {
        return Failed, chunk;
      }
      FrontFrame(buf, pos, frame);
      chunk := backend.Skip(frameSize + dataLength);
      assert chunk == buf[pos..pos + FrameSize(frame)];
      step := Consumed;
    }

    /** Processing the legal, complete frame at the read position, whose payload follows its header. */
    method ProcessFrameAt(frame: Frame) returns (ok: bool)
      requires Valid() && ReadFrameData(backend.buffer, backend.bufferReadPos) == Some(frame) && IsLegalClientPacket(frame)
      requires backend.bufferReadPos + FrameSize(frame) <= |backend.buffer|
      modifies this, client
      ensures Valid() && mode == old(mode)
    {
      var frameSize := SizeOfFrame(frame.base);
      LegalPacketBounds(frame);
      ReadPayloadLength(backend.buffer, backend.bufferReadPos);
      ok := ProcessFrame(frame, backend.buffer[backend.bufferReadPos + frameSize..backend.bufferReadPos + frameSize + frame.extPayloadLen]);
    }

    /**
     * `processPacket`: processes every frame that is completely in the
     * receive buffer, stopping at an illegal or unprocessable one. The
     * ghost `processed` lists the frames consumed, in order.
     */
    method ProcessPacket() returns (r: bool, ghost processed: seq<Bytes>)
      requires Valid()
      modifies this, client, backend
      ensures Valid() && mode == old(mode)
      ensures old(backend.Unread()) == Flatten(processed) + backend.Unread()
      ensures WholeFrames(processed)
      ensures r ==> !HasCompleteFrame(backend.Unread())
      ensures r && ReadFrameData(backend.Unread(), 0).Some? ==> IsLegalClientPacket(ReadFrameData(backend.Unread(), 0).value)
      ensures r ==> backend.bufferReadPos < BufferShrinkThreshold
      ensures !r ==> ReadFrameData(backend.Unread(), 0).Some?
    {
      processed := [];
      ghost var start := backend.Unread();
      var more, failed := true, false;
      while more
        invariant Valid() && mode == old(mode)
        invariant start == Flatten(processed) + backend.Unread() && WholeFrames(processed)
        invariant failed ==> !more && ReadFrameData(backend.Unread(), 0).Some?
        invariant !more && !failed ==> Drained(backend.Unread())
        decreases |backend.Unread()| + if more then 1 else 0
      {
        more, failed, processed := FrameTurn(start, processed);
      }
      if failed {
        return false, processed;
      }
      backend.ShrinkBuffer(false);
      r := true;
    }

    /** What `processPacket` leaves when it succeeds: no complete frame, and no illegal one started. */
    predicate Drained(unread: Bytes)
    {
      !HasCompleteFrame(unread) && (ReadFrameData(unread, 0).Some? ==> IsLegalClientPacket(ReadFrameData(unread, 0).value))
    }

    /**
     * One turn of the loop of `processPacket`: the frame at the read
     * position, if there is one, processed and recorded in `processed`;
     * whether to go on, and whether it failed.
     */
    method FrameTurn(ghost start: Bytes, ghost processed: seq<Bytes>) returns (more: bool, failed: bool, ghost processed': seq<Bytes>)
      requires Valid() && start == Flatten(processed) + backend.Unread() && WholeFrames(processed)
      modifies this, client, backend
      ensures Valid() && mode == old(mode)
      ensures start == Flatten(processed') + backend.Unread() && WholeFrames(processed')
      ensures more ==> |backend.Unread()| < |old(backend.Unread())|
      ensures !more ==> backend.Unread() == old(backend.Unread())
      ensures failed ==> !more && ReadFrameData(backend.Unread(), 0).Some?
      ensures !more && !failed ==> Drained(backend.Unread())
    {
      processed' := processed;
      var next := ReadFrameData(backend.buffer, backend.bufferReadPos);
      ReadFrameShift(backend.buffer, backend.bufferReadPos);
      if next.None? {
        return false, false, processed';
      }
      ghost var rest := backend.Unread();
      var step, chunk := ProcessNextFrame(next.value);
      if step == Failed {
        return false, true, processed';
      } else if step == Incomplete {
        return false, false, processed';
      }
      AppendChunk(start, processed, chunk, rest, backend.Unread());
      processed' := processed + [chunk];
      more, failed := true, false;
    }

    /**
     * `processIncoming`: a failure to process closes the socket with a
     * protocol error and reports the illegal frame. The unread bytes are
     * left undrained exactly then: a complete frame that could not be
     * processed, or an illegal header whose payload has not arrived.
     */
    method ProcessIncoming() returns (ghost processed: seq<Bytes>)
      requires Valid()
      modifies this, client, backend
      ensures Valid() && mode == old(mode)
      ensures old(backend.Unread()) == Flatten(processed) + backend.Unread()
      ensures WholeFrames(processed)
      ensures !Drained(backend.Unread()) ==>
        openMode == NotOpen && client.closed && |events| > 0 && events[|events| - 1] == ConnectionLost(IllegalFrameReceived)
        && var out := OutgoingFrame(true, ConnectionClose, CreateClosePayload(StatusProtocolError, []));
           |client.written| >= |out| && client.written[|client.written| - |out|..] == out
      ensures HasCompleteFrame(backend.Unread()) ==>
        openMode == NotOpen && client.closed && |events| > 0 && events[|events| - 1] == ConnectionLost(IllegalFrameReceived)
    {
      var ok;
      ok, processed := ProcessPacket();
      if !ok {
        openMode := NotOpen;
        SendClose(StatusProtocolError, []);
        client.Close();
        events := events + [ConnectionLost(IllegalFrameReceived)];
      }
    }

    /**
     * `WebSocketRecvDevice::writeData`: the bytes are appended to the
     * receive buffer and processed. Nothing is lost: what was unread plus
     * the new bytes is what was processed plus what is still unread.
     */
    method Receive(data: Bytes) returns (ghost processed: seq<Bytes>)
      requires Valid()
      modifies this, client, backend
      ensures Valid() && mode == old(mode)
      ensures old(backend.Unread()) + data == Flatten(processed) + backend.Unread()
      ensures WholeFrames(processed)
    {
      backend.buffer := backend.buffer + data;
      assert backend.Unread() == old(backend.Unread()) + data;
      processed := ProcessIncoming();
    }
  }

  /** The signals `appendDataFrame` emits for a data frame it accepts. */
  function DataEvents(mode: Mode, t: FrameType, payload: Bytes, message: Bytes, fin: bool, usingReadBuffer: bool): seq<Event>
  {
    (if mode == FrameMode then [PartialFrameReceived(t, payload, fin)] + (if fin then [FrameReceived(t, message)] else []) else [])
      + (if (fin || mode == Streaming) && usingReadBuffer then [ReadyRead] else [])
  }

  /** Removing a prefix of the first message removes it from the concatenation of all messages. */
  lemma FlattenFront(before: seq<Bytes>, after: seq<Bytes>, data: Bytes)
    requires before != [] && |data| <= |before[0]| && data == before[0][..|data|]
    requires |data| == |before[0]| ==> after == before[1..]
    requires |data| < |before[0]| ==> after == [before[0][|data|..]] + before[1..]
    ensures Flatten(before) == data + Flatten(after)
  {
    if |data| < |before[0]| {
      var left := before[0][|data|..];
      assert after[0] == left && after[1..] == before[1..];
      assert before[0] == data + left;
    }
  }
}
