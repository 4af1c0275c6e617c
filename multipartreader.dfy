/**
 * The `HttpMultiPartReader` object: the parse state of `Multipart` held in
 * fields that each step updates in place, with one buffer device per field
 * that the field's content is written to as it arrives.
 */
module MultipartReaders {
  import opened Bytes
  import opened HeaderMaps
  import opened HttpParser
  import opened Devices
  import opened Multipart
  import PostBodyReaders

  class Reader {
    /** The body as it arrives. */
    const device: Device
    /** The boundary with "--" in front, as the constructor stores it. */
    const delimiter: Bytes
    var fields: map<string, FieldInfo>
    /**
     * The buffer of each field (`FieldInfo::buffer`), the device `fieldStream`
     * hands out; the current field's is `currentBuffer`.
     */
    var buffers: map<string, Device>
    var currentHeaders: HeaderMap
    var chunkBuffer: Bytes
    var state: State
    var lastWasNewline: bool
    var currentField: string
    var currentBufferWritePos: nat
    /** The signals emitted so far. */
    var events: seq<Event>

    function Snapshot(): Parse
      reads this
    {
      Parse(state, chunkBuffer, currentHeaders, fields, currentField, lastWasNewline, currentBufferWritePos, events)
    }

    /**
     * Every field has a buffer of its own, distinct from the body's device,
     * and what was written to it is the field's content.
     */
    ghost predicate Linked()
      reads this, buffers.Values
    {
      buffers.Keys == fields.Keys
      && device !in buffers.Values
      && (forall n | n in buffers :: buffers[n].written == fields[n].content)
      && forall m, n | m in buffers && n in buffers && m != n :: buffers[m] != buffers[n]
    }

    ghost predicate Valid()
      reads this, buffers.Values
    {
      Linked() && Consistent(Snapshot())
    }

    /**
     * The constructor: "--" is put in front of the boundary, and bytes
     * already waiting are read at once.
     */
    constructor (device: Device, boundary: Bytes, received: bool)
      modifies device
      ensures this.device == device && delimiter == Delimiter(boundary)
      ensures Valid() && fresh(buffers.Values)
      ensures Snapshot() == if old(device.available) == [] then Start else Receive(delimiter, Start, old(device.available), received)
      ensures device.available == [] && device.written == old(device.written) && device.closed == old(device.closed)
    {
      this.device := device;
      delimiter := Delimiter(boundary);
      fields := map[];
      buffers := map[];
      currentHeaders := [];
      chunkBuffer := [];
      state := FirstLine;
      lastWasNewline := false;
      currentField := "";
      currentBufferWritePos := 0;
      events := [];
      new;
      StartConsistent();
      if device.available != [] {
        ProcessData(received);
      }
    }

    /**
     * `processData`, for a `readyRead` of the device: `received` says whether
     * the whole body has arrived, so that the device is at its end once it
     * has been read.
     */
    method ProcessData(received: bool)
      requires Valid()
      modifies this, device, buffers.Values
      ensures Valid() && Snapshot() == Receive(delimiter, old(Snapshot()), old(device.available), received)
      ensures old(state).Finished() ==> device.available == old(device.available)
      ensures !old(state).Finished() ==> device.available == []
      ensures device.written == old(device.written) && device.closed == old(device.closed)
      ensures fresh(buffers.Values - old(buffers.Values))
    {
      if state.Finished() {
        return;
      }
      ghost var p0 := Snapshot();
      ghost var input := device.available;
      ReadAvailable();
      EndOfData(received, p0, input);
    }

    /** The end of `processData`: a reader not finished when the body has all arrived fails. */
    method EndOfData(received: bool, ghost p0: Parse, ghost input: Bytes)
      requires Valid() && Consistent(p0) && !p0.state.Finished()
      requires Snapshot() == ReadChunks(delimiter, p0, input)
      modifies this
      ensures Valid() && Snapshot() == Receive(delimiter, p0, input, received)
      ensures buffers == old(buffers)
    {
      ReceiveConsistent(delimiter, p0, input, received);
      if !state.Finished() && received {
        ChangeState(Error);
        assert Linked();
      }
    }

    /** The loop of `processData`: chunk after chunk until the device has no more bytes. */
    method ReadAvailable()
      requires Valid()
      modifies this, device, buffers.Values
      ensures Valid() && Snapshot() == ReadChunks(delimiter, old(Snapshot()), old(device.available))
      ensures device.available == []
      ensures device.written == old(device.written) && device.closed == old(device.closed)
      ensures fresh(buffers.Values - old(buffers.Values))
    {
      ghost var p0 := Snapshot();
      ghost var input := device.available;
      while device.available != []
        invariant Valid() && ReadChunks(delimiter, Snapshot(), device.available) == ReadChunks(delimiter, p0, input)
        invariant device.written == old(device.written) && device.closed == old(device.closed)
        invariant fresh(buffers.Values - old(buffers.Values))
        decreases |device.available|
      {
        ProcessChunk();
      }
    }

    /** `processChunk`: reads up to 4096 bytes into the buffer and steps as far as they allow. */
    method ProcessChunk()
      requires Valid() && device.available != []
      modifies this, device, buffers.Values
      ensures Valid() && ReadChunks(delimiter, Snapshot(), device.available) == ReadChunks(delimiter, old(Snapshot()), old(device.available))
      ensures |device.available| < |old(device.available)|
      ensures device.written == old(device.written) && device.closed == old(device.closed)
      ensures fresh(buffers.Values - old(buffers.Values))
    {
      var chunk := device.Read(ChunkSize);
      assert chunk == old(device.available)[..Min(ChunkSize, |old(device.available)|)];
      chunkBuffer := chunkBuffer + chunk;
      StepBuffer();
    }

    /** The loop of `processChunk`: steps while more than one byte is buffered, each step goes on, and the state is not final. */
    method StepBuffer()
      requires Valid()
      modifies this, buffers.Values
      ensures Valid() && Snapshot() == Steps(delimiter, old(Snapshot()))
      ensures fresh(buffers.Values - old(buffers.Values))
    {
      ghost var target := Steps(delimiter, Snapshot());
      StepsConsistent(delimiter, Snapshot());
      var more := true;
      while more && !state.Finished() && |chunkBuffer| > 1
        invariant Valid() && StepsReach(delimiter, Snapshot(), target)
        invariant !more ==> Snapshot() == target
        invariant fresh(buffers.Values - old(buffers.Values))
        decreases if more then |chunkBuffer| + 1 else 0
      {
        ghost var before := Snapshot();
        more := ProcessChunkStep();
        StepsGoOn(delimiter, before, Snapshot(), more, target);
      }
      if more {
        StepsArrive(delimiter, Snapshot(), target);
      }
    }

    /** `processChunkStep`: one step of the current state; whether to go on. */
    method ProcessChunkStep() returns (more: bool)
      requires Valid() && !state.Finished()
      modifies this, buffers.Values
      ensures Valid() && (Snapshot(), more) == ChunkStep(delimiter, old(Snapshot()), true)
      ensures fresh(buffers.Values - old(buffers.Values))
    {
      ghost var p := Snapshot();
      ChunkStepConsistent(delimiter, p);
      var result := ProcessState();
      if result < 0 {
        chunkBuffer := [];
        more := false;
      } else if result > 0 {
        chunkBuffer := chunkBuffer[result..];
        more := true;
      } else {
        more := false;
      }
    }

    /** The dispatch of `processChunkStep` on the state. */
    method ProcessState() returns (result: int)
      requires Linked() && !state.Finished() && (state == Body ==> currentField in fields)
      modifies this, buffers.Values
      ensures Linked() && (Snapshot(), result) == StateStep(delimiter, old(Snapshot()), true)
      ensures fresh(buffers.Values - old(buffers.Values))
    {
      if state == FirstLine {
        result := ProcessFirstLine();
      } else if state == Headers {
        result := ProcessAllHeaders();
      } else {
        result := ProcessContent();
      }
    }

    /** `setState`: entering a final state emits `completed`. */
    method ChangeState(s: State)
      modifies this
      ensures Snapshot() == SetState(old(Snapshot()), s)
      ensures buffers == old(buffers)
    {
      state := s;
      if s.Finished() {
        events := events + [Completed(s == Complete)];
      }
    }

    /** `processFirstLine`. */
    method ProcessFirstLine() returns (used: int)
      requires state == FirstLine
      modifies this
      ensures (Snapshot(), used) == FirstLineStep(delimiter, old(Snapshot()))
      ensures buffers == old(buffers)
    {
      if |chunkBuffer| < LineLength(delimiter) {
        return 0;
      }
      var line := BoundingLine(delimiter, chunkBuffer, 0);
      if line.0 == 0 {
        ChangeState(Error);
        return -1;
      }
      ChangeState(Headers);
      return line.0;
    }

    /** `processAllHeaders`: header lines while the state stays Headers. */
    method ProcessAllHeaders() returns (used: int)
      requires state == Headers && Linked()
      modifies this
      ensures Linked() && (Snapshot(), used) == AllHeaders(old(Snapshot()), 0)
      ensures fresh(buffers.Values - old(buffers.Values))
    {
      ghost var target := AllHeaders(Snapshot(), 0);
      var offset: nat := 0;
      while true
        invariant state == Headers && Linked() && offset <= |chunkBuffer|
        invariant AllHeadersReach(Snapshot(), offset, target)
        invariant fresh(buffers.Values - old(buffers.Values))
        decreases |chunkBuffer| - offset
      {
        var current, next := HeadersTurn(offset, target);
        if current <= 0 || state != Headers {
          return if current < 0 then -1 else next;
        }
        offset := next;
      }
    }

    /** One turn of the loop of `processAllHeaders`: the line at `offset`, and whether the loop goes on. */
    method HeadersTurn(offset: nat, ghost target: (Parse, int)) returns (current: int, next: nat)
      requires state == Headers && offset <= |chunkBuffer| && Linked() && AllHeadersReach(Snapshot(), offset, target)
      modifies this
      ensures Linked() && fresh(buffers.Values - old(buffers.Values))
      ensures current >= 0 ==> next == offset + current
      ensures current > 0 && state == Headers ==> next <= |chunkBuffer| && AllHeadersReach(Snapshot(), next, target)
      ensures !(current > 0 && state == Headers) ==> target == (Snapshot(), if current < 0 then -1 else next)
    {
      AllHeadersStart(Snapshot(), offset, target);
      current := ProcessHeaders(offset);
      assert AllHeadersFrom((Snapshot(), current), offset) == target;
      next := if current >= 0 then offset + current else offset;
      if current > 0 && state == Headers {
        AllHeadersGoesOn(Snapshot(), current, offset, target);
      } else {
        AllHeadersEnds(Snapshot(), current, offset, target);
      }
    }

    /** `processHeaders(offset)`: the header line at `offset`; the bytes it used, or -1. */
    method ProcessHeaders(offset: nat) returns (used: int)
      requires state == Headers && offset <= |chunkBuffer| && Linked()
      modifies this
      ensures Linked() && (Snapshot(), used) == HeaderLine(old(Snapshot()), offset)
      ensures fresh(buffers.Values - old(buffers.Values))
    {
      var idx := Find(chunkBuffer, CRLF, offset);
      if idx == -1 {
        return 0;
      }
      if idx == offset {
        var ok := ParseHeaders();
        return if ok then 2 else -1;
      }
      var ok := ProcessHeaderLine(chunkBuffer[offset..idx]);
      if !ok {
        return -1;
      }
      return idx - offset + 2;
    }

    /** `processHeaderLine`: a header stored under its key in canonical case. */
    method ProcessHeaderLine(line: Bytes) returns (ok: bool)
      modifies this
      ensures ok <==> ParseHeaderLine(line).Some?
      ensures ok ==> Snapshot() == old(Snapshot()).(headers := Insert(old(currentHeaders), KeyCase(ParseHeaderLine(line).value.0), ParseHeaderLine(line).value.1))
      ensures !ok ==> Snapshot() == old(Snapshot())
      ensures buffers == old(buffers) && fields == old(fields)
    {
      var parsed := ParseHeaderLine(line);
      if parsed.None? {
        return false;
      }
      var key := CorrectHeaderKeyCase(parsed.value.0);
      currentHeaders := Insert(currentHeaders, key, parsed.value.1);
      return true;
    }

    /**
     * `parseHeaders`: the part's field, with a new buffer, or Error for a
     * part whose disposition names no field.
     */
    method ParseHeaders() returns (ok: bool)
      requires Linked()
      modifies this
      ensures Linked() && Snapshot() == PartStart(old(Snapshot())) && (ok <==> state == Body)
      ensures !ok ==> buffers == old(buffers)
      ensures ok ==> fresh(buffers[currentField]) && buffers == old(buffers)[currentField := buffers[currentField]]
      ensures ok ==> buffers[currentField].available == [] && !buffers[currentField].closed
      ensures fresh(buffers.Values - old(buffers.Values))
    {
      var disposition := Value(currentHeaders, DispositionKey);
      var length := Value(currentHeaders, LengthKey);
      var mime := Value(currentHeaders, TypeKey);
      currentHeaders := [];
      var name := DispositionName(disposition);
      if disposition == [] || name == "" {
        ChangeState(Error);
        return false;
      }
      StartField(name, FieldInfo(ContentLength(length), 0, if mime == [] then PlainText else FromLatin1(mime), []));
      return true;
    }

    /** The end of `parseHeaders` for a named field: it is created, the content goes to it, and the state is Body. */
    method StartField(name: string, info: FieldInfo)
      requires Linked() && info.content == []
      modifies this
      ensures Linked()
      ensures Snapshot() == old(Snapshot()).(fields := old(fields)[name := info], current := name, lastWasNewline := true,
                                             writePos := 0, events := old(events) + [FieldFound(name)], state := Body)
      ensures fresh(buffers[name]) && buffers == old(buffers)[name := buffers[name]]
      ensures buffers[name].available == [] && !buffers[name].closed
      ensures fresh(buffers.Values - old(buffers.Values))
    {
      NewField(name, info);
      InitCurrentBuffer(name);
      events := events + [FieldFound(name)];
      ChangeState(Body);
    }

    /** `fields.insert(name, info)` with a new, empty buffer, which replaces the field of that name, if any. */
    method NewField(name: string, info: FieldInfo)
      requires Linked() && info.content == []
      modifies this
      ensures Linked() && Snapshot() == old(Snapshot()).(fields := old(fields)[name := info])
      ensures fresh(buffers[name]) && buffers == old(buffers)[name := buffers[name]]
      ensures buffers[name].available == [] && !buffers[name].closed
      ensures fresh(buffers.Values - old(buffers.Values))
    {
      var buffer := new Device();
      fields := fields[name := info];
      buffers := buffers[name := buffer];
    }

    /** `initCurrentBuffer`: the content that follows goes to the named field, from its start. */
    method InitCurrentBuffer(name: string)
      modifies this
      ensures Snapshot() == old(Snapshot()).(current := name, lastWasNewline := true, writePos := 0)
      ensures buffers == old(buffers)
    {
      currentField := name;
      lastWasNewline := true;
      currentBufferWritePos := 0;
    }

    /**
     * `processContent`, waiting at the start of a line until a bounding line
     * after a leading "\r\n" can be told, and holding back a "\r" at the
     * end of the buffer.
     */
    method ProcessContent() returns (used: int)
      requires state == Body && Linked() && currentField in fields
      modifies this, buffers[currentField]
      ensures Linked() && (Snapshot(), used) == Content(delimiter, old(Snapshot()), true)
      ensures buffers == old(buffers)
    {
      var idx := Find(chunkBuffer, CRLF, 0);
      if lastWasNewline {
        if |chunkBuffer| < LineLength(delimiter) + (if idx == 0 then 2 else 0) {
          return 0;
        }
        used := ProcessContentBoundary(idx);
        if used != 0 {
          return;
        }
        if currentBufferWritePos > 0 {
          AppendToCurrentBuffer(CRLF);
        }
      }
      used := ProcessContentLine(idx);
    }

    /** The end of `processContent`: the line up to `idx`, or what is buffered less a final "\r". */
    method ProcessContentLine(idx: int) returns (used: int)
      requires Linked() && currentField in fields && idx == Find(chunkBuffer, CRLF, 0)
      modifies this, buffers[currentField]
      ensures Linked() && (Snapshot(), used) == ContentLine(old(Snapshot()), idx, true)
      ensures buffers == old(buffers)
    {
      if idx == -1 {
        var n := ContentEnd(chunkBuffer, true);
        AppendToCurrentBuffer(chunkBuffer[..n]);
        lastWasNewline := false;
        chunkBuffer := chunkBuffer[n..];
        used := 0;
      } else {
        AppendToCurrentBuffer(chunkBuffer[..idx]);
        lastWasNewline := true;
        used := idx + 2;
      }
    }

    /** `processContentBoundary`: a bounding line completes the current field. */
    method ProcessContentBoundary(idx: int) returns (used: int)
      requires Linked() && currentField in fields
      modifies this
      ensures Linked() && (Snapshot(), used) == ContentBoundary(delimiter, old(Snapshot()), idx)
      ensures buffers == old(buffers)
    {
      var line := BoundingLine(delimiter, chunkBuffer, if idx == 0 then 2 else 0);
      if line.0 != 0 {
        var size := |buffers[currentField].written|;
        var info := fields[currentField];
        fields := fields[currentField := info.(totalLength := size, transferred := size)];
        events := events + [FieldCompleted(currentField)];
        ChangeState(if line.1 then Complete else Headers);
      }
      return line.0;
    }

    /**
     * `appendToCurrentBuffer`: the bytes are written to the current field's
     * buffer at the write position, the end of what was written, where its
     * reader finds them after anything it has not read yet.
     */
    method AppendToCurrentBuffer(data: Bytes)
      requires Linked() && currentField in fields
      modifies this, buffers[currentField]
      ensures Linked() && Snapshot() == Append(old(Snapshot()), data)
      ensures buffers == old(buffers) && buffers[currentField].available == old(buffers[currentField].available) + data
    {
      var buffer := buffers[currentField];
      buffer.WriteReadable(data);
      var info := fields[currentField];
      fields := fields[currentField := info.(content := info.content + data)];
      currentBufferWritePos := currentBufferWritePos + |data|;
    }

    /** `isComplete`: the state is final. */
    predicate IsComplete()
      reads this
    {
      state.Finished()
    }

    /** `hasFailed`. */
    predicate HasFailed()
      reads this
    {
      state == Error
    }

    /** `hasField`: a field exists once its part's headers have been read. */
    predicate HasField(field: string)
      reads this
    {
      field in fields
    }

    /** `fieldMimeType`: empty for an unknown field. */
    function FieldMimeType(field: string): (r: string)
      reads this
      ensures field !in fields ==> r == ""
    {
      Info(Snapshot(), field).mimeType
    }

    /** `fieldLength`: the announced length, the real one once complete; -1 for an unknown field. */
    function FieldLength(field: string): (r: int)
      reads this
      ensures field !in fields ==> r == -1
    {
      Info(Snapshot(), field).totalLength
    }

    /** `fieldBytesTransferred`: 0 until the field is complete, then its size. */
    function FieldBytesTransferred(field: string): (r: int)
      reads this
      ensures field !in fields ==> r == 0
    {
      Info(Snapshot(), field).transferred
    }

    /** `isFieldComplete`: the length equals the bytes transferred; never for an unknown field. */
    predicate IsFieldComplete(field: string)
      reads this
    {
      FieldLength(field) == FieldBytesTransferred(field)
    }

    /** `fieldStream`: the field's buffer; none for an unknown field. */
    function FieldStream(field: string): (r: Device?)
      reads this
      ensures field in buffers ==> r == buffers[field]
      ensures field !in buffers ==> r == null
    {
      if field in buffers then buffers[field] else null
    }

    /**
     * `fieldValue`, inherited from `HttpPostBodyReader`: for a complete field,
     * whatever its buffer still holds unread, which is then read; otherwise
     * empty. Nothing else changes.
     */
    method FieldValue(field: string) returns (value: Bytes)
      requires Valid()
      modifies buffers.Values
      ensures Valid()
      ensures IsFieldComplete(field) && field in buffers ==>
                value == old(buffers[field].available) && buffers[field].available == []
      ensures !(IsFieldComplete(field) && field in buffers) ==> value == []
      ensures forall n | n in buffers && n != field :: buffers[n].available == old(buffers[n].available)
    {
      var stream := FieldStream(field);
      assert PostBodyReaders.IsFieldComplete(PostBodyReaders.MultipartQueries(Snapshot()), field) <==> IsFieldComplete(field) by {
        PostBodyReaders.MultipartCompleteIsDefault(Snapshot(), field);
      }
      value := PostBodyReaders.FieldValue(PostBodyReaders.MultipartQueries(Snapshot()), field, stream);
      assert Linked();
    }
  }

  /**
   * Successive calls of `processData`, each with the bytes that arrived
   * for it and whether the device was then at its end.
   */
  function ReceiveAll(delimiter: Bytes, p: Parse, deliveries: seq<(Bytes, bool)>): Parse
    decreases |deliveries|
  {
    if deliveries == [] then p
    else ReceiveAll(delimiter, Receive(delimiter, p, deliveries[0].0, deliveries[0].1), deliveries[1..])
  }

  /**
   * The contract of `isComplete` and `hasFailed`: a failed reader reports
   * itself complete, and stays exactly as it is, failed, with no further
   * `completed` emitted and no byte buffered, however many more times
   * `processData` runs and whatever arrives.
   */
  lemma {:induction false} FailedIsComplete(r: Reader, delimiter: Bytes, deliveries: seq<(Bytes, bool)>)
    requires r.HasFailed()
    ensures r.IsComplete()
    ensures ReceiveAll(delimiter, r.Snapshot(), deliveries) == r.Snapshot()
  {
    FailedStays(delimiter, r.Snapshot(), deliveries);
  }

  lemma {:induction false} FailedStays(delimiter: Bytes, p: Parse, deliveries: seq<(Bytes, bool)>)
    requires p.state == Error
    ensures ReceiveAll(delimiter, p, deliveries) == p
    decreases |deliveries|
  {
    if deliveries != [] {
      FailedStays(delimiter, p, deliveries[1..]);
    }
  }
}
