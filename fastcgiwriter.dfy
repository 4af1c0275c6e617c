/**
 * `FastCgiWriter`: encoding of name-value pairs (section 3.4 of the FastCGI
 * Specification 1.0) and of the records the application sends: stream
 * records, end-request, unknown-type and get-values-result.
 */
module FastCgiWriter {
  import opened Bytes
  import opened FastCgiRecords
  import opened FastCgiReader
  import opened ByteMaps
  import opened Devices

  /** The lengths a `QByteArray` (an `int` length) can have. */
  predicate PairsWritable(m: Assoc<Bytes>)
  {
    forall i :: 0 <= i < |m| ==> |m[i].0| < 0x8000_0000 && |m[i].1| < 0x8000_0000
  }

  /** `writeNameValueLength`: one byte up to 127, otherwise four big-endian bytes with bit 31 set. */
  function EncodeLength(n: nat): (r: Bytes)
    requires n < 0x8000_0000
    ensures |r| == if n <= NameValueCharLimit then 1 else 4
  {
    if n <= NameValueCharLimit then [n as byte] else ToBigEndian(n + 0x8000_0000, 4)
  }

  /** The first of four big-endian bytes is the value's top byte. */
  lemma TopByte(v: nat)
    requires v < 0x1_0000_0000
    ensures ToBigEndian(v, 4)[0] as int == v / 0x100_0000
  {
    assert ToBigEndian(v, 4)[0] == ToBigEndian(v / 256, 3)[0];
    assert ToBigEndian(v / 256, 3)[0] == ToBigEndian(v / 256 / 256, 2)[0];
    assert ToBigEndian(v / 256 / 256, 2)[0] == ToBigEndian(v / 256 / 256 / 256, 1)[0];
  }

  /** A written length reads back as itself, and the reader moves past exactly its bytes. */
  lemma LengthRoundTrip(source: Bytes, at: nat, n: nat, next: nat)
    requires n < 0x8000_0000 && next == at + |EncodeLength(n)| && next <= |source|
    requires source[at..next] == EncodeLength(n)
    ensures ReadVariableLength(source, at) == LengthRead(n, next)
  {
    assert source[at] == EncodeLength(n)[0];
    if n > NameValueCharLimit {
      TopByte(n + 0x8000_0000);
      Pow256Short();
      BigEndianRoundTrip(n + 0x8000_0000, 4);
    }
  }

  /** `writeNameValuePair`: the bytes it appends. */
  function EncodePair(name: Bytes, value: Bytes): (r: Bytes)
    requires |name| < 0x8000_0000 && |value| < 0x8000_0000
  {
    EncodeLength(|name|) + EncodeLength(|value|) + name + value
  }

  /** Where the two parts of a concatenation lie once it is found between `lo` and `hi`. */
  lemma SliceSplit(source: Bytes, lo: nat, mid: nat, hi: nat, x: Bytes, y: Bytes)
    requires lo <= hi <= |source| && mid == lo + |x| && source[lo..hi] == x + y
    ensures source[lo..mid] == x && source[mid..hi] == y
  {
    assert source[lo..mid] == source[lo..hi][..|x|];
    assert source[mid..hi] == source[lo..hi][|x|..];
  }

  /** Where the four parts of a pair lie once it is found at `at`. */
  lemma PairLayout(source: Bytes, at: nat, a: Bytes, b: Bytes, c: Bytes, d: Bytes, p1: nat, p2: nat, p3: nat, next: nat)
    requires p1 == at + |a| && p2 == p1 + |b| && p3 == p2 + |c| && next == p3 + |d| && next <= |source|
    requires source[at..next] == a + b + c + d
    ensures source[at..p1] == a && source[p1..p2] == b && source[p2..p3] == c && source[p3..next] == d
  {
    SliceSplit(source, at, p3, next, a + b + c, d);
    SliceSplit(source, at, p2, p3, a + b, c);
    SliceSplit(source, at, p1, p2, a, b);
  }

  /** A written pair reads back as itself, and the reader moves past exactly its bytes. */
  lemma PairRoundTrip(source: Bytes, at: nat, name: Bytes, value: Bytes, next: nat)
    requires |name| < 0x8000_0000 && |value| < 0x8000_0000
    requires next == at + |EncodePair(name, value)| && next <= |source|
    requires source[at..next] == EncodePair(name, value)
    ensures ReadNameValuePair(source, at) == PairRead(Some(NameValue(name, value)), next)
  {
    var p1 := at + |EncodeLength(|name|)|;
    var p2 := p1 + |EncodeLength(|value|)|;
    var p3 := p2 + |name|;
    assert ReadVariableLength(source, at) == LengthRead(|name|, p1)
        && ReadVariableLength(source, p1) == LengthRead(|value|, p2)
        && source[p2..p3] == name && source[p3..next] == value by {
      PairLayout(source, at, EncodeLength(|name|), EncodeLength(|value|), name, value, p1, p2, p3, next);
      LengthRoundTrip(source, at, |name|, p1);
      LengthRoundTrip(source, p1, |value|, p2);
    }
  }

  /** Where the first pair and the rest of a body lie once it is found at `at`. */
  lemma HeadLayout(source: Bytes, at: nat, head: Bytes, rest: Bytes, next: nat)
    requires at <= |source| && source[at..] == head + rest && next == at + |head|
    ensures next <= |source| && source[at..next] == head && source[next..] == rest
  {
    assert source[at..next] == source[at..][..|head|];
    assert source[next..] == source[at..][|head|..];
  }

  /** Appending the smallest remaining key keeps the accumulated map sorted below the rest. */
  lemma SortedHead(acc: Assoc<Bytes>, m: Assoc<Bytes>)
    requires m != [] && StrictlySorted(acc + m)
    ensures forall i :: 0 <= i < |acc| ==> Less(acc[i].0, m[0].0)
    ensures (acc + [m[0]]) + m[1..] == acc + m
  {
    forall i | 0 <= i < |acc| ensures Less(acc[i].0, m[0].0) {
      assert (acc + m)[i] == acc[i] && (acc + m)[|acc|] == m[0];
    }
    assert (acc + [m[0]]) + m[1..] == acc + m;
  }

  /** `valueMapToBody`: every pair in the map's (ascending key) order. */
  function Body(m: Assoc<Bytes>): (r: Bytes)
    requires PairsWritable(m)
  {
    if m == [] then [] else EncodePair(m[0].0, m[0].1) + Body(m[1..])
  }

  /** `valueMapToBody`, appending pair after pair to a fresh array. */
  method ValueMapToBody(values: Assoc<Bytes>) returns (data: Bytes)
    requires PairsWritable(values)
    ensures data == Body(values)
  {
    data := [];
    var i := 0;
    while i < |values|
      invariant i <= |values|
      invariant data + Body(values[i..]) == Body(values)
    {
      assert values[i..][1..] == values[i + 1..];
      data := data + EncodePair(values[i].0, values[i].1);
      i := i + 1;
    }
    assert values[i..] == [];
  }

  /** A successful pair is inserted and reading goes on after it. */
  lemma ReadAllStep(source: Bytes, at: nat, acc: Assoc<Bytes>, name: Bytes, value: Bytes, next: nat)
    requires at < |source| && ReadNameValuePair(source, at) == PairRead(Some(NameValue(name, value)), next)
    ensures next <= |source| && ReadAll(source, at, acc) == ReadAll(source, next, Put(acc, name, value))
  {
  }

  /** Reading a body written from `m` after the pairs of `acc` inserts exactly `m`'s pairs. */
  lemma {:induction false} BodyReads(source: Bytes, at: nat, acc: Assoc<Bytes>, m: Assoc<Bytes>)
    requires PairsWritable(m) && StrictlySorted(acc + m)
    requires at <= |source| && source[at..] == Body(m)
    ensures ReadAll(source, at, acc) == Some(acc + m)
    decreases |m|
  {
    if m == [] {
      assert acc + m == acc;
    } else {
      var next := at + |EncodePair(m[0].0, m[0].1)|;
      assert next <= |source| && source[next..] == Body(m[1..])
          && ReadNameValuePair(source, at) == PairRead(Some(NameValue(m[0].0, m[0].1)), next) by {
        HeadLayout(source, at, EncodePair(m[0].0, m[0].1), Body(m[1..]), next);
        PairRoundTrip(source, at, m[0].0, m[0].1, next);
      }
      ReadAllStep(source, at, acc, m[0].0, m[0].1, next);
      assert Put(acc, m[0].0, m[0].1) == acc + [m[0]] && StrictlySorted((acc + [m[0]]) + m[1..]) by {
        SortedHead(acc, m);
        PutAbove(acc, m[0].0, m[0].1);
      }
      assert PairsWritable(m[1..]) by {
        assert forall i :: 0 <= i < |m[1..]| ==> m[1..][i] == m[i + 1];
      }
      BodyReads(source, next, acc + [m[0]], m[1..]);
      assert (acc + [m[0]]) + m[1..] == acc + m by { SortedHead(acc, m); }
    }
  }

  /** Round trip: reading back the body of a map gives exactly that map. */
  lemma BodyRoundTrip(m: Assoc<Bytes>)
    requires PairsWritable(m) && StrictlySorted(m)
    ensures ReadAll(Body(m), 0, []) == Some(m)
  {
    assert [] + m == m;
    BodyReads(Body(m), 0, [], m);
  }

  /** The header the writer gives every record: version 1, no padding. */
  function OutgoingHeader(recordType: byte, requestId: UInt16, length: UInt16): Record
  {
    Record(RecordVersion, recordType, requestId, length, 0, 0)
  }

  /** `writeStreamMessage`: the header and the body. */
  function StreamMessage(recordType: byte, requestId: UInt16, body: Bytes): Bytes
    requires |body| <= 0xFFFF
  {
    HeaderBytes(OutgoingHeader(recordType, requestId, |body|)) + body
  }

  /** `writeGetValuesResult`: a record of type 10 carrying the map, its length cut to 16 bits. */
  function GetValuesResultRecord(values: Assoc<Bytes>): Bytes
    requires PairsWritable(values)
  {
    HeaderBytes(OutgoingHeader(GetValuesResult, 0, |Body(values)| % 0x1_0000)) + Body(values)
  }

  /** `writeUnknownTypeResult`: type 11 with the unknown type and seven zero bytes. */
  function UnknownTypeRecord(unknown: byte): Bytes
  {
    HeaderBytes(OutgoingHeader(UnknownType, 0, BodySize)) + [unknown, 0, 0, 0, 0, 0, 0, 0]
  }

  /** `writeEndRequest`: type 3, the big-endian application status, the protocol status and three zero bytes. */
  function EndRequestRecord(requestId: UInt16, status: UInt32, protocolStatus: byte): Bytes
  {
    HeaderBytes(OutgoingHeader(EndRequest, requestId, BodySize)) + ToBigEndian(status, 4) + [protocolStatus, 0, 0, 0]
  }

  /** A stream record reads back with its type, id and length, and its content is the body. */
  lemma StreamMessageRead(recordType: byte, requestId: UInt16, body: Bytes, rest: Bytes)
    requires |body| <= 0xFFFF
    ensures var data := StreamMessage(recordType, requestId, body) + rest;
            ReadRecord(data) == Some(OutgoingHeader(recordType, requestId, |body|))
            && data[HeaderSize..HeaderSize + |body|] == body
  {
    var h := HeaderBytes(OutgoingHeader(recordType, requestId, |body|));
    assert StreamMessage(recordType, requestId, body) + rest == h + (body + rest);
    ReadRecordRoundTrip(OutgoingHeader(recordType, requestId, |body|), body + rest);
  }

  /** A record laid out as header and content reads back as that header, the content following it. */
  lemma RecordOf(h: Record, content: Bytes, data: Bytes)
    requires data == HeaderBytes(h) + content
    ensures ReadRecord(data) == Some(h) && data[HeaderSize..] == content
  {
    ReadRecordRoundTrip(h, content);
  }

  /** A get-values result whose body fits 16 bits reads back as the same map. */
  lemma GetValuesResultRoundTrip(values: Assoc<Bytes>)
    requires PairsWritable(values) && StrictlySorted(values) && |Body(values)| <= 0xFFFF
    ensures var data := GetValuesResultRecord(values);
            ReadRecord(data) == Some(OutgoingHeader(GetValuesResult, 0, |Body(values)|))
            && ReadAll(data[HeaderSize..], 0, []) == Some(values)
  {
    var b := Body(values);
    assert |b| % 0x1_0000 == |b|;
    RecordOf(OutgoingHeader(GetValuesResult, 0, |b|), b, GetValuesResultRecord(values));
    BodyRoundTrip(values);
  }

  /** An end-request record reads back with its id, the status and the protocol status. */
  lemma EndRequestRead(requestId: UInt16, status: UInt32, protocolStatus: byte)
    ensures var data := EndRequestRecord(requestId, status, protocolStatus);
            |data| == HeaderSize + BodySize
            && ReadRecord(data) == Some(OutgoingHeader(EndRequest, requestId, BodySize))
            && BigEndian(data[8..12]) == status && data[12] == protocolStatus
  {
    var data := EndRequestRecord(requestId, status, protocolStatus);
    var body := ToBigEndian(status, 4) + [protocolStatus, 0, 0, 0];
    assert data == StreamMessage(EndRequest, requestId, body) + [];
    StreamMessageRead(EndRequest, requestId, body, []);
    assert data[8..12] == ToBigEndian(status, 4);
    Pow256Short();
    BigEndianRoundTrip(status, 4);
  }

  /** An unknown-type record reads back with id 0 and names the unknown type. */
  lemma UnknownTypeRead(unknown: byte)
    ensures var data := UnknownTypeRecord(unknown);
            |data| == HeaderSize + BodySize
            && ReadRecord(data) == Some(OutgoingHeader(UnknownType, 0, BodySize)) && data[8] == unknown
  {
    var data := UnknownTypeRecord(unknown);
    assert data == StreamMessage(UnknownType, 0, [unknown, 0, 0, 0, 0, 0, 0, 0]) + [];
    StreamMessageRead(UnknownType, 0, [unknown, 0, 0, 0, 0, 0, 0, 0], []);
  }

  /** `writeGetValuesResult`. */
  method WriteGetValuesResult(device: Device, values: Assoc<Bytes>)
    requires PairsWritable(values)
    modifies device
    ensures device.written == old(device.written) + GetValuesResultRecord(values)
    ensures device.available == old(device.available) && device.closed == old(device.closed)
  {
    var body := ValueMapToBody(values);
    device.Write(HeaderBytes(OutgoingHeader(GetValuesResult, 0, |body| % 0x1_0000)));
    device.Write(body);
  }

  /** `writeUnknownTypeResult`. */
  method WriteUnknownTypeResult(device: Device, unknown: byte)
    modifies device
    ensures device.written == old(device.written) + UnknownTypeRecord(unknown)
    ensures device.available == old(device.available) && device.closed == old(device.closed)
  {
    device.Write(HeaderBytes(OutgoingHeader(UnknownType, 0, BodySize)));
    device.Write([unknown, 0, 0, 0, 0, 0, 0, 0]);
  }

  /** `writeEndRequest`. */
  method WriteEndRequest(device: Device, requestId: UInt16, status: UInt32, protocolStatus: byte)
    modifies device
    ensures device.written == old(device.written) + EndRequestRecord(requestId, status, protocolStatus)
    ensures device.available == old(device.available) && device.closed == old(device.closed)
  {
    device.Write(HeaderBytes(OutgoingHeader(EndRequest, requestId, BodySize)));
    device.Write(ToBigEndian(status, 4) + [protocolStatus, 0, 0, 0]);
  }

  /** `writeStreamMessage`: refuses a body over 0xFFFF bytes and then writes nothing. */
  method WriteStreamMessage(device: Device, recordType: byte, requestId: UInt16, body: Bytes) returns (ok: bool)
    modifies device
    ensures ok <==> |body| <= 0xFFFF
    ensures device.written == old(device.written) + (if ok then StreamMessage(recordType, requestId, body) else [])
    ensures device.available == old(device.available) && device.closed == old(device.closed)
  {
    if |body| > 0xFFFF {
      return false;
    }
    device.Write(HeaderBytes(OutgoingHeader(recordType, requestId, |body|)));
    device.Write(body);
    ok := true;
  }

  /** `ChunkSize` of `writeMultiPartStream`. */
  const ChunkSize: nat := 0xFFFF

  /** The pieces `writeMultiPartStream` cuts a body into. */
  function Chunks(body: Bytes): (r: seq<Bytes>)
    ensures forall c :: c in r ==> 0 < |c| <= ChunkSize
    ensures Flatten(r) == body
    decreases |body|
  {
    if body == [] then []
    else
      var size := if |body| < ChunkSize then |body| else ChunkSize;
      assert body == body[..size] + body[size..];
      [body[..size]] + Chunks(body[size..])
  }

  /** `writeMultiPartStream` sends the ceiling of |body| / 0xFFFF records, none for an empty body. */
  lemma {:induction false} ChunkCount(body: Bytes)
    ensures |Chunks(body)| == (|body| + ChunkSize - 1) / ChunkSize
    decreases |body|
  {
    if body != [] {
      var size := if |body| < ChunkSize then |body| else ChunkSize;
      ChunkCount(body[size..]);
    }
  }

  /** One stream record per chunk, in order. */
  function StreamRecords(recordType: byte, requestId: UInt16, chunks: seq<Bytes>): Bytes
    requires forall c :: c in chunks ==> |c| <= 0xFFFF
  {
    if chunks == [] then [] else StreamMessage(recordType, requestId, chunks[0]) + StreamRecords(recordType, requestId, chunks[1..])
  }

  /** What `writeMultiPartStream` writes: a record per piece of at most `ChunkSize` bytes. */
  function MultiPartRecords(recordType: byte, requestId: UInt16, body: Bytes): Bytes
    decreases |body|
  {
    if body == [] then []
    else
      var size := if |body| < ChunkSize then |body| else ChunkSize;
      StreamMessage(recordType, requestId, body[..size]) + MultiPartRecords(recordType, requestId, body[size..])
  }

  /** The records written are one stream record per chunk of `Chunks(body)`, in order. */
  lemma {:induction false} MultiPartIsChunks(recordType: byte, requestId: UInt16, body: Bytes)
    ensures MultiPartRecords(recordType, requestId, body) == StreamRecords(recordType, requestId, Chunks(body))
    decreases |body|
  {
    if body != [] {
      var size := if |body| < ChunkSize then |body| else ChunkSize;
      MultiPartIsChunks(recordType, requestId, body[size..]);
      assert Chunks(body)[1..] == Chunks(body[size..]);
    }
  }

  /** The bytes `writeMultiPartStream` has still to send once its offset has reached `offset`. */
  function Remaining(body: Bytes, offset: nat): Bytes
  {
    if offset < |body| then body[offset..] else []
  }

  /** One turn of the loop sends the next chunk as one record and moves the offset by `ChunkSize`. */
  lemma RecordsStep(recordType: byte, requestId: UInt16, body: Bytes, offset: nat, size: nat)
    requires offset < |body| && size == if |body| - offset < ChunkSize then |body| - offset else ChunkSize
    ensures MultiPartRecords(recordType, requestId, Remaining(body, offset))
            == StreamMessage(recordType, requestId, body[offset..offset + size])
               + MultiPartRecords(recordType, requestId, Remaining(body, offset + ChunkSize))
  {
    var rest := body[offset..];
    assert rest[..size] == body[offset..offset + size];
    assert rest[size..] == Remaining(body, offset + ChunkSize);
  }

  /** `writeMultiPartStream`: the body as records of at most 0xFFFF bytes each. */
  method WriteMultiPartStream(device: Device, recordType: byte, requestId: UInt16, body: Bytes)
    modifies device
    ensures device.written == old(device.written) + MultiPartRecords(recordType, requestId, body)
    ensures device.available == old(device.available) && device.closed == old(device.closed)
  {
    var offset: nat := 0;
    var len := |body|;
    ghost var total := old(device.written) + MultiPartRecords(recordType, requestId, body);
    assert Remaining(body, 0) == body;
    while offset < len
      invariant total == device.written + MultiPartRecords(recordType, requestId, Remaining(body, offset))
      invariant device.available == old(device.available) && device.closed == old(device.closed)
    {
      var size := if len - offset < ChunkSize then len - offset else ChunkSize;
      RecordsStep(recordType, requestId, body, offset, size);
      ghost var before := device.written;
      var ok := WriteStreamMessage(device, recordType, requestId, body[offset..offset + size]);
      assert ok;
      AppendAssoc(before, StreamMessage(recordType, requestId, body[offset..offset + size]),
                  MultiPartRecords(recordType, requestId, Remaining(body, offset + ChunkSize)));
      offset := offset + ChunkSize;
    }
    assert Remaining(body, offset) == [];
  }
}
