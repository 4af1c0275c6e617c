/**
 * `FastCgiReader`: decoding of record headers, name-value pairs (section 3.4
 * of the FastCGI Specification 1.0) and the begin-request body.
 */
module FastCgiReader {
  import opened Bytes
  import opened FastCgiRecords
  import opened ByteMaps

  /**
   * `readRecord`: peeks at the 8-byte header; the record is consumed later
   * by the caller.
   */
  function ReadRecord(available: Bytes): (r: Option<Record>)
    ensures r.None? <==> |available| < HeaderSize
    ensures r.Some? ==> HeaderBytes(r.value) == available[..HeaderSize]
  {
    if |available| < HeaderSize then None
    else
      Pow256Short();
      var id := BigEndian(available[2..4]);
      var length := BigEndian(available[4..6]);
      var r := Record(available[0], available[1], id, length, available[6], available[7]);
      assert HeaderBytes(r) == available[..HeaderSize] by {
        ToBigEndianRoundTrip(available[2..4]);
        ToBigEndianRoundTrip(available[4..6]);
      }
      Some(r)
  }

  /** Any header read back from its wire form is the same header. */
  lemma ReadRecordRoundTrip(r: Record, rest: Bytes)
    ensures ReadRecord(HeaderBytes(r) + rest) == Some(r)
  {
    Pow256Short();
    var data := HeaderBytes(r) + rest;
    assert data[2..4] == ToBigEndian(r.requestId, 2);
    assert data[4..6] == ToBigEndian(r.contentLength, 2);
    BigEndianRoundTrip(r.requestId, 2);
    BigEndianRoundTrip(r.contentLength, 2);
  }

  /** A length read at some offset, and the offset after it. */
  datatype LengthRead = LengthRead(length: int, next: nat)

  /**
   * `readVariableLength`: one byte up to 127, otherwise four big-endian
   * bytes with the top bit cleared; -1 when the bytes are not there, and
   * then the offset does not move.
   */
  function ReadVariableLength(source: Bytes, offset: nat): (r: LengthRead)
    requires offset <= |source|
    ensures offset <= r.next <= |source|
    ensures r.length < 0 <==> r.next == offset
    ensures r.length >= 0 ==> r.length < 0x8000_0000
    ensures r.next == offset + 1 <==> (offset < |source| && source[offset] as int <= NameValueCharLimit)
  {
    if |source| - offset < 1 then LengthRead(-1, offset)
    else if source[offset] as int <= NameValueCharLimit then LengthRead(source[offset] as int, offset + 1)
    else if |source| - offset < 4 then LengthRead(-1, offset)
    else LengthRead(BigEndian(source[offset..offset + 4]) % 0x8000_0000, offset + 4)
  }

  datatype NameValue = NameValue(name: Bytes, value: Bytes)

  /** A pair read at some offset (`None` on failure), and the offset after it. */
  datatype PairRead = PairRead(pair: Option<NameValue>, next: nat)

  /**
   * `readNameValuePair`: both lengths, then the name and the value. The
   * offset has moved past whatever lengths could be read even when the pair
   * fails. The bounds test compares the exact sum of the two lengths (see
   * `PairFitsAsWritten` for the 32-bit sum `readNameValuePair` computes).
   */
  function ReadNameValuePair(source: Bytes, offset: nat): (r: PairRead)
    requires offset <= |source|
    ensures offset <= r.next <= |source|
    ensures r.pair.Some? ==> offset + 2 <= r.next
  {
    var n := ReadVariableLength(source, offset);
    var v := ReadVariableLength(source, n.next);
    if n.length < 0 || v.length < 0 || |source| - v.next < n.length + v.length then PairRead(None, v.next)
    else
      var at := v.next;
      PairRead(Some(NameValue(source[at..at + n.length], source[at + n.length..at + n.length + v.length])),
               at + n.length + v.length)
  }

  /** The result of `readAllNameValuePairs` as written: its verdict and the map it filled. */
  datatype PairsRead = PairsRead(ok: bool, values: Assoc<Bytes>)

  /**
   * `readAllNameValuePairs` as written: the loop stops at the end of the
   * input or at the first failed pair, and the verdict is whether the offset
   * reached the end. A failed pair still moves the offset past its lengths,
   * so a truncated last pair can end exactly at the end of the input.
   */
  function AllPairsAsWritten(source: Bytes, offset: nat, values: Assoc<Bytes>): (r: PairsRead)
    requires offset <= |source|
    decreases |source| - offset
  {
    if offset == |source| then PairsRead(true, values)
    else
      var p := ReadNameValuePair(source, offset);
      if p.pair.None? then PairsRead(p.next == |source|, values)
      else AllPairsAsWritten(source, p.next, Put(values, p.pair.value.name, p.pair.value.value))
  }

  /** A single length byte of 5 announces a name that is not there, yet `readAllNameValuePairs` as written reports success. */
  lemma TruncatedPairAccepted()
    ensures AllPairsAsWritten([5], 0, []) == PairsRead(true, [])
    ensures ReadAll([5], 0, []) == None
  {
    assert ReadVariableLength([5], 0) == LengthRead(5, 1);
    assert ReadNameValuePair([5], 0) == PairRead(None, 1);
  }

  /**
   * The intended reading: every byte from `offset` on belongs to a whole
   * pair; each pair is inserted into `values`, a repeated name replacing the
   * earlier value.
   */
  function ReadAll(source: Bytes, offset: nat, values: Assoc<Bytes>): (r: Option<Assoc<Bytes>>)
    requires offset <= |source|
    decreases |source| - offset
  {
    if offset == |source| then Some(values)
    else
      var p := ReadNameValuePair(source, offset);
      if p.pair.None? then None
      else ReadAll(source, p.next, Put(values, p.pair.value.name, p.pair.value.value))
  }

  /** Whenever the intended reading succeeds the loop as written agrees with it. */
  lemma {:induction false} AsWrittenAgreesOnSuccess(source: Bytes, offset: nat, values: Assoc<Bytes>)
    requires offset <= |source|
    requires ReadAll(source, offset, values).Some?
    ensures AllPairsAsWritten(source, offset, values) == PairsRead(true, ReadAll(source, offset, values).value)
    decreases |source| - offset
  {
    if offset != |source| {
      var p := ReadNameValuePair(source, offset);
      AsWrittenAgreesOnSuccess(source, p.next, Put(values, p.pair.value.name, p.pair.value.value));
    }
  }

  /** Reading into a sorted map keeps it sorted. */
  lemma {:induction false} ReadAllSorted(source: Bytes, offset: nat, values: Assoc<Bytes>)
    requires offset <= |source| && StrictlySorted(values)
    requires ReadAll(source, offset, values).Some?
    ensures StrictlySorted(ReadAll(source, offset, values).value)
    decreases |source| - offset
  {
    if offset != |source| {
      var p := ReadNameValuePair(source, offset);
      PutSorted(values, p.pair.value.name, p.pair.value.value);
      ReadAllSorted(source, p.next, Put(values, p.pair.value.name, p.pair.value.value));
    }
  }

  /**
   * `readAllNameValuePairs` with the intended verdict: true exactly when the
   * pairs use up the whole input, and then `result` holds `values` with
   * every pair inserted.
   */
  method ReadAllNameValuePairs(source: Bytes, values: Assoc<Bytes>) returns (ok: bool, result: Assoc<Bytes>)
    ensures ok <==> ReadAll(source, 0, values).Some?
    ensures ok ==> result == ReadAll(source, 0, values).value
  {
    var offset := 0;
    result := values;
    while offset != |source|
      invariant offset <= |source|
      invariant ReadAll(source, offset, result) == ReadAll(source, 0, values)
      decreases |source| - offset
    {
      var p := ReadNameValuePair(source, offset);
      if p.pair.None? {
        return false, result;
      }
      result := Put(result, p.pair.value.name, p.pair.value.value);
      offset := p.next;
    }
    ok := true;
  }

  /** A value of the signed 32-bit `int`, wrapping as the hardware does. */
  function Int32(x: int): (r: int)
    ensures -0x8000_0000 <= r < 0x8000_0000
    ensures r % 0x1_0000_0000 == x % 0x1_0000_0000
  {
    var m := x % 0x1_0000_0000;
    if m < 0x8000_0000 then m else m - 0x1_0000_0000
  }

  /**
   * The bounds test of `readNameValuePair` as written: the two lengths are
   * added in 32-bit `int`, so two large lengths add up to a negative number
   * and the test passes.
   */
  predicate PairFitsAsWritten(remaining: int, nameLength: int, valueLength: int)
  {
    !(remaining < Int32(nameLength + valueLength))
  }

  /**
   * Eight bytes announce a name of 0x7FFFFFFF bytes and a value of one byte;
   * nothing follows, yet the guard as written lets the pair through.
   */
  lemma OverflowingLengthsPass()
    ensures var source: Bytes := [0xFF, 0xFF, 0xFF, 0xFF, 0x80, 0, 0, 1];
            var n := ReadVariableLength(source, 0);
            var v := ReadVariableLength(source, n.next);
            n == LengthRead(0x7FFF_FFFF, 4) && v == LengthRead(1, 8)
            && PairFitsAsWritten(|source| - v.next, n.length, v.length)
            && ReadNameValuePair(source, 0).pair.None?
  {
    var source: Bytes := [0xFF, 0xFF, 0xFF, 0xFF, 0x80, 0, 0, 1];
    assert source[0..4] == [0xFF, 0xFF, 0xFF, 0xFF];
    assert source[4..8] == [0x80, 0, 0, 1];
    assert BigEndian([0xFF, 0xFF, 0xFF, 0xFF]) == 0xFFFF_FFFF by {
      assert [0xFF, 0xFF, 0xFF, 0xFF][..3] == [0xFF, 0xFF, 0xFF];
      assert [0xFF, 0xFF, 0xFF][..2] == [0xFF, 0xFF];
      assert [0xFF, 0xFF][..1] == [0xFF];
      assert [0xFF as byte][..0] == [];
    }
    assert BigEndian([0x80, 0, 0, 1]) == 0x8000_0001 by {
      assert [0x80, 0, 0, 1][..3] == [0x80, 0, 0];
      assert [0x80, 0, 0][..2] == [0x80, 0];
      assert [0x80, 0][..1] == [0x80];
      assert [0x80 as byte][..0] == [];
    }
  }

  /**
   * With the exact sum, a successful pair lies inside the input: the name
   * and the value are the bytes right after the two lengths.
   */
  lemma PairInsideInput(source: Bytes, offset: nat)
    requires offset <= |source|
    requires ReadNameValuePair(source, offset).pair.Some?
    ensures var p := ReadNameValuePair(source, offset);
            var at := ReadVariableLength(source, ReadVariableLength(source, offset).next).next;
            at + |p.pair.value.name| + |p.pair.value.value| == p.next <= |source|
            && source[at..p.next] == p.pair.value.name + p.pair.value.value
  {
    var p := ReadNameValuePair(source, offset);
    var at := ReadVariableLength(source, ReadVariableLength(source, offset).next).next;
    assert source[at..p.next] == source[at..at + |p.pair.value.name|] + source[at + |p.pair.value.name|..p.next];
  }

  /**
   * `readBeginRequestBody`: needs the whole 8-byte body; the role is
   * big-endian and the flags are the next byte.
   */
  function ReadBeginRequestBody(source: Bytes): (r: Option<BeginRequestBody>)
    ensures r.None? <==> |source| < BodySize
    ensures r.Some? ==> ToBigEndian(r.value.role, 2) == source[..2] && r.value.flags == source[2]
  {
    if |source| < BodySize then None
    else
      Pow256Short();
      ToBigEndianRoundTrip(source[..2]);
      Some(BeginRequestBody(BigEndian(source[..2]), source[2]))
  }
}
