/**
 * `HttpUrlEncodedReader`: reads an "application/x-www-form-urlencoded" POST
 * body as it arrives. It looks for a name ending at '=', then for a value
 * ending at '&' or at the end of the body, percent-decodes both, and stores
 * the value under the name.
 */
module UrlEncoded {
  import opened Bytes
  import opened Percent
  import opened Devices

  const EQUALS: byte := 61
  const AMPERSAND: byte := 38
  /** The most the reader takes from its device at once. */
  const ChunkSize: nat := 4096

  /** What the reader is looking for; `Complete` and `Error` are final. */
  datatype State = Key | Value | Complete | Error
  {
    predicate Finished() { this == Complete || this == Error }
  }

  /** The signals the reader emits. */
  datatype Event = FieldFound(name: string) | FieldCompleted(name: string) | Completed(ok: bool)

  /** The state of a reader: what `HttpUrlEncodedReaderPrivate` holds, and the signals so far. */
  datatype Parse = Parse(state: State, name: string, buffer: Bytes, fields: map<string, Bytes>, events: seq<Event>)

  /** A fresh reader. */
  const Start := Parse(Key, "", [], map[], [])

  /** The first occurrence of `b` in `data`, found or not. */
  lemma IndexOfSplit(data: Bytes, b: byte)
    ensures var i := IndexOf(data, b, 0);
            (i == -1 <==> b !in data) && (i != -1 ==> b !in data[..i] && data[i] == b)
  {
    IndexOfFirst(data, b, 0);
    var i := IndexOf(data, b, 0);
    if i == -1 {
      assert forall j | 0 <= j < |data| :: data[j] != b;
    }
  }

  /** More bytes at the end do not move the first occurrence of a byte already there. */
  lemma IndexOfExtends(data: Bytes, more: Bytes, b: byte)
    requires IndexOf(data, b, 0) != -1
    ensures IndexOf(data + more, b, 0) == IndexOf(data, b, 0)
  {
    IndexOfFirst(data, b, 0);
    var i := IndexOf(data, b, 0);
    IndexOfIs(data + more, b, 0, i);
  }

  /**
   * The clean-up of `processChunkStep`: once the state is final, the name and
   * the buffer are cleared and `completed` is emitted.
   */
  function Settled(p: Parse): Parse
  {
    if p.state.Finished() then p.(name := [], buffer := [], events := p.events + [Completed(p.state == Complete)]) else p
  }

  /**
   * `processChunkStep` for a reader that is not finished; `atEnd` is what the
   * device says about its end.
   */
  function Step(p: Parse, atEnd: bool): Parse
  {
    match p.state
    case Key => KeyTaken(p)
    case Value => Settled(ValueTaken(p, atEnd))
    case _ => p
  }

  /** `processKey`: waits for '='; the name before it is decoded and a value follows. */
  function KeyTaken(p: Parse): Parse
  {
    var i := IndexOf(p.buffer, EQUALS, 0);
    if i == -1 then p
    else
      var name := FromLatin1(PercentDecode(p.buffer[..i]));
      p.(state := Value, name := name, buffer := p.buffer[i + 1..], events := p.events + [FieldFound(name)])
  }

  /**
   * `processValue` and the state it returns: waits for '&' or the end; the
   * value before it is decoded and stored, and a key follows, or at the end
   * the body is complete.
   */
  function ValueTaken(p: Parse, atEnd: bool): Parse
  {
    var i := IndexOf(p.buffer, AMPERSAND, 0);
    if i == -1 && !atEnd then p
    else
      var value := PercentDecode(if i == -1 then p.buffer else p.buffer[..i]);
      var stored := p.(fields := p.fields[p.name := value], events := p.events + [FieldCompleted(p.name)]);
      if i == -1 then stored.(state := Complete)
      else stored.(state := Key, buffer := p.buffer[i + 1..])
  }

  /** A step either changes nothing or moves on to another state, using up buffered bytes unless it finishes. */
  lemma StepProgress(p: Parse, atEnd: bool)
    requires !p.state.Finished()
    ensures var q := Step(p, atEnd);
            (q.state == p.state ==> q == p)
            && (q.state != p.state ==> |q.buffer| < |p.buffer| || (q.state == Complete && q.buffer == []))
            && !q.state.Error?
  {
  }

  function Rank(s: State): nat
  {
    if s.Finished() then 0 else 1
  }

  /** `processChunk` after the read: steps until the state stops changing or is final. */
  function Settle(p: Parse, atEnd: bool): Parse
    decreases |p.buffer|, Rank(p.state)
  {
    if p.state.Finished() then p
    else
      StepProgress(p, atEnd);
      var q := Step(p, atEnd);
      if q.state == p.state then q else Settle(q, atEnd)
  }

  /**
   * `processData`: every byte the device has is buffered and parsed; a body
   * that ended before it was complete is an error. A finished reader ignores
   * the call.
   */
  function Receive(p: Parse, data: Bytes, atEnd: bool): (r: Parse)
  {
    if p.state.Finished() then p
    else
      Ended(Settle(p.(buffer := p.buffer + data), atEnd), atEnd)
  }

  /** The end of `processData`: at the end of the body, anything but Complete becomes Error and emits `completed`. */
  function Ended(q: Parse, atEnd: bool): Parse
  {
    if q.state != Complete && atEnd then q.(state := Error, events := q.events + [Completed(false)]) else q
  }

  /**
   * Without the end in sight, a step that moves on does the same whatever
   * follows in the buffer.
   */
  lemma StepExtends(p: Parse, more: Bytes, atEnd: bool)
    requires p.state == Key || p.state == Value
    requires Step(p, false).state != p.state
    ensures Step(p.(buffer := p.buffer + more), atEnd) == Step(p, false).(buffer := Step(p, false).buffer + more)
  {
    var c := if p.state == Key then EQUALS else AMPERSAND;
    IndexOfExtends(p.buffer, more, c);
    var i := IndexOf(p.buffer, c, 0);
    assert (p.buffer + more)[..i] == p.buffer[..i];
    assert (p.buffer + more)[i + 1..] == p.buffer[i + 1..] + more;
  }

  /** A reader that is not finished stays so without the end. */
  lemma {:induction false} SettleOpen(p: Parse)
    requires p.state == Key || p.state == Value
    ensures Settle(p, false).state == Key || Settle(p, false).state == Value
    decreases |p.buffer|, Rank(p.state)
  {
    StepProgress(p, false);
    var q := Step(p, false);
    if q.state != p.state {
      SettleOpen(q);
    }
  }

  /**
   * Parsing up to the end of `a` and then on with `more` is parsing the
   * whole at once.
   */
  lemma {:induction false} SettleAppend(p: Parse, more: Bytes, atEnd: bool)
    requires p.state == Key || p.state == Value
    ensures var s := Settle(p, false);
            Settle(s.(buffer := s.buffer + more), atEnd) == Settle(p.(buffer := p.buffer + more), atEnd)
    decreases |p.buffer|, Rank(p.state)
  {
    StepProgress(p, false);
    var q := Step(p, false);
    if q.state != p.state {
      StepExtends(p, more, atEnd);
      StepProgress(p.(buffer := p.buffer + more), atEnd);
      if q.state == Key || q.state == Value {
        SettleAppend(q, more, atEnd);
      }
    } else {
      assert q == p;
    }
  }

  /** The next chunk is parsed on from the state the earlier ones left. */
  lemma ChunkOn(p0: Parse, consumed: Bytes, chunk: Bytes, atEnd: bool)
    requires p0.state == Key || p0.state == Value
    ensures var s := Settle(p0.(buffer := p0.buffer + consumed), false);
            Settle(s.(buffer := s.buffer + chunk), atEnd) == Settle(p0.(buffer := p0.buffer + (consumed + chunk)), atEnd)
  {
    var open := p0.(buffer := p0.buffer + consumed);
    SettleAppend(open, chunk, atEnd);
    assert open.buffer + chunk == p0.buffer + (consumed + chunk);
  }

  /**
   * Chunking does not matter: a body delivered in two parts, the first with
   * more to come, leaves the reader as the whole body at once does.
   */
  lemma ReceiveSplit(p: Parse, a: Bytes, b: Bytes, atEnd: bool)
    ensures Receive(Receive(p, a, false), b, atEnd) == Receive(p, a + b, atEnd)
  {
    if !p.state.Finished() {
      var p' := p.(buffer := p.buffer + a);
      SettleOpen(p');
      var s := Settle(p', false);
      assert Receive(p, a, false) == s;
      ChunkOn(p, a, b, atEnd);
    }
  }

  /** `isComplete`. */
  function IsComplete(p: Parse): (r: bool)
    ensures r <==> p.state == Complete || p.state == Error
  {
    p.state.Finished()
  }

  /** `hasFailed`. */
  function HasFailed(p: Parse): (r: bool)
    ensures r ==> IsComplete(p)
    ensures r <==> p.state == Error
  {
    p.state == Error
  }

  /** How many `completed` signals were emitted. */
  function CompletedCount(events: seq<Event>): nat
  {
    if events == [] then 0
    else CompletedCount(events[..|events| - 1]) + if events[|events| - 1].Completed? then 1 else 0
  }

  lemma CompletedCountAppend(events: seq<Event>, e: Event)
    ensures CompletedCount(events + [e]) == CompletedCount(events) + if e.Completed? then 1 else 0
  {
    assert (events + [e])[..|events|] == events;
  }

  /**
   * `completed` is emitted exactly once, when the reader finishes, and it
   * says whether the body was complete.
   */
  predicate SignalledOnce(p: Parse)
  {
    CompletedCount(p.events) == (if p.state.Finished() then 1 else 0)
    && (p.state.Finished() ==> p.events[|p.events| - 1] == Completed(p.state == Complete))
  }

  /** A step emits `fieldFound`, `fieldCompleted`, or `fieldCompleted` and then `completed` when it finishes. */
  lemma StepSignalsOnce(p: Parse, atEnd: bool)
    requires SignalledOnce(p) && !p.state.Finished()
    ensures SignalledOnce(Step(p, atEnd))
  {
    var q := Step(p, atEnd);
    if p.state == Key {
      if q != p {
        assert q.events == p.events + [FieldFound(q.name)];
        CompletedCountAppend(p.events, FieldFound(q.name));
      }
    } else if q != p {
      var e := p.events + [FieldCompleted(p.name)];
      CompletedCountAppend(p.events, FieldCompleted(p.name));
      if q.state == Complete {
        assert q.events == e + [Completed(true)];
        CompletedCountAppend(e, Completed(true));
      } else {
        assert q.events == e;
      }
    }
  }

  lemma {:induction false} SettleSignalsOnce(p: Parse, atEnd: bool)
    requires SignalledOnce(p)
    ensures SignalledOnce(Settle(p, atEnd))
    decreases |p.buffer|, Rank(p.state)
  {
    if !p.state.Finished() {
      StepProgress(p, atEnd);
      StepSignalsOnce(p, atEnd);
      var q := Step(p, atEnd);
      if q.state != p.state {
        SettleSignalsOnce(q, atEnd);
      }
    }
  }

  /** Parsing never fails by itself: only the end of the device does that. */
  lemma {:induction false} SettleNeverFails(p: Parse, atEnd: bool)
    requires p.state != Error
    ensures Settle(p, atEnd).state != Error
    decreases |p.buffer|, Rank(p.state)
  {
    if !p.state.Finished() {
      StepProgress(p, atEnd);
      var q := Step(p, atEnd);
      if q.state != p.state {
        SettleNeverFails(q, atEnd);
      }
    }
  }

  /** `completed` is emitted once whatever arrives, in however many parts. */
  lemma ReceiveSignalsOnce(p: Parse, data: Bytes, atEnd: bool)
    requires SignalledOnce(p)
    ensures SignalledOnce(Receive(p, data, atEnd))
  {
    if !p.state.Finished() {
      var p' := p.(buffer := p.buffer + data);
      SettleSignalsOnce(p', atEnd);
      SettleNeverFails(p', atEnd);
      var q := Settle(p', atEnd);
      if q.state != Complete && atEnd {
        CompletedCountAppend(q.events, Completed(false));
      }
    }
  }

  /**
   * `processKey`: with an '=' buffered, the name is the percent-decoded
   * Latin-1 text before the first one, and what follows it stays buffered;
   * without one, nothing happens.
   */
  lemma KeyStep(p: Parse, name: Bytes, rest: Bytes, atEnd: bool)
    requires p.state == Key && p.buffer == name + [EQUALS] + rest && EQUALS !in name
    ensures var key := FromLatin1(PercentDecode(name));
            Step(p, atEnd) == p.(state := Value, name := key, buffer := rest, events := p.events + [FieldFound(key)])
  {
    FindsByte(p.buffer, EQUALS, [], name, [EQUALS] + rest, 0, |name|);
    assert p.buffer[|name| + 1..] == rest;
  }

  /** `processKey` without an '=' buffered waits for more. */
  lemma KeyWaits(p: Parse, atEnd: bool)
    requires p.state == Key && EQUALS !in p.buffer
    ensures Step(p, atEnd) == p
  {
    IndexOfSplit(p.buffer, EQUALS);
  }

  /**
   * `processValue` with an '&' buffered: the value before the first one is
   * stored percent-decoded under the current name (replacing an earlier
   * value), and the reader looks for the next name in what follows.
   */
  lemma ValueStep(p: Parse, value: Bytes, rest: Bytes, atEnd: bool)
    requires p.state == Value && p.buffer == value + [AMPERSAND] + rest && AMPERSAND !in value
    ensures Step(p, atEnd) == p.(state := Key, buffer := rest, fields := p.fields[p.name := PercentDecode(value)],
                                 events := p.events + [FieldCompleted(p.name)])
  {
    FindsByte(p.buffer, AMPERSAND, [], value, [AMPERSAND] + rest, 0, |value|);
    assert p.buffer[|value| + 1..] == rest;
  }

  /**
   * `processValue` without an '&' buffered: at the end of the device the
   * whole buffer is the last value and the reader completes; otherwise it
   * waits for more.
   */
  lemma ValueAtEnd(p: Parse, atEnd: bool)
    requires p.state == Value && AMPERSAND !in p.buffer
    ensures Step(p, atEnd) == if atEnd then
                                Parse(Complete, [], [], p.fields[p.name := PercentDecode(p.buffer)],
                                      p.events + [FieldCompleted(p.name), Completed(true)])
                              else p
  {
    IndexOfSplit(p.buffer, AMPERSAND);
    assert p.events + [FieldCompleted(p.name)] + [Completed(true)] == p.events + [FieldCompleted(p.name), Completed(true)];
  }

  /** A body with one pair, received with the end: the field is stored decoded and the reader completes. */
  lemma SinglePair(name: Bytes, value: Bytes)
    requires EQUALS !in name && AMPERSAND !in value
    ensures var p := Receive(Start, name + [EQUALS] + value, true);
            p.state == Complete && p.fields == map[FromLatin1(PercentDecode(name)) := PercentDecode(value)]
  {
    var body := name + [EQUALS] + value;
    var p0 := Start.(buffer := [] + body);
    assert [] + body == body;
    KeyStep(p0, name, value, true);
    var p1 := Step(p0, true);
    ValueAtEnd(p1, true);
    assert Settle(p0, true) == Settle(p1, true) == Step(p1, true);
  }

  /** A body that ends inside a name, as "foo=bar&nuria" does, fails. */
  lemma PrematureEndFails(p: Parse, data: Bytes)
    requires p.state == Key || p.state == Value
    requires Settle(p.(buffer := p.buffer + data), true).state == Key
    ensures HasFailed(Receive(p, data, true))
  {
  }

  /**
   * The reader of a body (`HttpUrlEncodedReader`). `device` is the body as it
   * arrives; whether it has all arrived is passed to each read.
   */
  class Reader {
    const mimeType: Bytes
    const device: Device
    var fields: map<string, Bytes>
    /** The read-only devices handed out by `fieldStream`, one per field. */
    var streams: map<string, Device>
    var currentName: string
    var chunkBuffer: Bytes
    var state: State
    var events: seq<Event>

    function Snapshot(): Parse
      reads this
    {
      Parse(state, currentName, chunkBuffer, fields, events)
    }

    /**
     * The constructor: the MIME type of every field is "text/plain; charset="
     * followed by the charset, and bytes already waiting are read at once.
     */
    constructor (device: Device, charset: Bytes, received: bool)
      modifies device
      ensures this.device == device && mimeType == Latin1("text/plain; charset=") + charset && streams == map[]
      ensures Snapshot() == if old(device.available) == [] then Start else Receive(Start, old(device.available), received)
      ensures device.available == []
      ensures device.written == old(device.written) && device.closed == old(device.closed)
    {
      this.device := device;
      mimeType := Latin1("text/plain; charset=") + charset;
      fields := map[];
      streams := map[];
      currentName := [];
      chunkBuffer := [];
      state := Key;
      events := [];
      new;
      if device.available != [] {
        ProcessData(received);
      }
    }

    /**
     * `processData`, for a `readyRead` of the device: `received` says whether
     * the whole body has arrived, so that the device is at its end once it
     * has been read.
     */
    method ProcessData(received: bool)
      modifies this, device
      ensures Snapshot() == Receive(old(Snapshot()), old(device.available), received)
      ensures old(state).Finished() ==> device.available == old(device.available)
      ensures !old(state).Finished() ==> device.available == []
      ensures streams == old(streams)
      ensures device.written == old(device.written) && device.closed == old(device.closed)
    {
      if state.Finished() {
        return;
      }
      ghost var p0 := Snapshot();
      ghost var input := device.available;
      ghost var consumed := ProcessChunk(received);
      assert p0.(buffer := p0.buffer + consumed) == p0.(buffer := old(chunkBuffer) + consumed);
      while device.available != []
        invariant consumed + device.available == input
        invariant Snapshot() == Settle(p0.(buffer := p0.buffer + consumed), received && device.available == [])
        invariant streams == old(streams)
        invariant device.written == old(device.written) && device.closed == old(device.closed)
        decreases |device.available|
      {
        consumed := ReadNext(received, p0, consumed);
      }
      assert consumed == consumed + device.available == input;
      assert Snapshot() == Settle(p0.(buffer := p0.buffer + input), received);
      if state != Complete && received {
        state := Error;
        events := events + [Completed(false)];
      }
    }

    /** One turn of the loop in `processData`: the next chunk, parsed on from where the last one stopped. */
    method ReadNext(received: bool, ghost p0: Parse, ghost consumed: Bytes) returns (ghost next: Bytes)
      requires p0.state == Key || p0.state == Value
      requires device.available != [] && Snapshot() == Settle(p0.(buffer := p0.buffer + consumed), false)
      modifies this, device
      ensures next + device.available == consumed + old(device.available) && |device.available| < |old(device.available)|
      ensures Snapshot() == Settle(p0.(buffer := p0.buffer + next), received && device.available == [])
      ensures streams == old(streams)
      ensures device.written == old(device.written) && device.closed == old(device.closed)
    {
      SettleOpen(p0.(buffer := p0.buffer + consumed));
      var chunk := ProcessChunk(received);
      ChunkOn(p0, consumed, chunk, received && device.available == []);
      next := consumed + chunk;
    }

    /** `processChunk`: reads up to 4096 bytes into the buffer and steps as far as they allow. */
    method ProcessChunk(received: bool) returns (ghost read: Bytes)
      requires !state.Finished()
      modifies this, device
      ensures read + device.available == old(device.available) && |read| <= ChunkSize
      ensures old(device.available) != [] ==> read != []
      ensures Snapshot() == Settle(old(Snapshot()).(buffer := old(chunkBuffer) + read), received && device.available == [])
      ensures streams == old(streams)
      ensures device.written == old(device.written) && device.closed == old(device.closed)
    {
      var chunk := device.Read(ChunkSize);
      read := chunk;
      chunkBuffer := chunkBuffer + chunk;
      var atEnd := received && device.available == [];
      ghost var target := Settle(Snapshot(), atEnd);
      var changed := true;
      while changed && !state.Finished()
        invariant Settle(Snapshot(), atEnd) == target
        invariant !changed ==> Snapshot() == target
        invariant streams == old(streams)
        invariant read + device.available == old(device.available)
        invariant device.written == old(device.written) && device.closed == old(device.closed)
        decreases |chunkBuffer|, Rank(state), changed
      {
        changed := SettleStep(atEnd, target);
      }
    }

    /** One turn of the loop in `processChunk`: a step, which keeps the parse on course for `target`. */
    method SettleStep(atEnd: bool, ghost target: Parse) returns (changed: bool)
      requires !state.Finished() && Settle(Snapshot(), atEnd) == target
      modifies this
      ensures Settle(Snapshot(), atEnd) == target && (!changed ==> Snapshot() == target)
      ensures changed ==> |chunkBuffer| < |old(chunkBuffer)| || (state.Finished() && chunkBuffer == [])
      ensures !changed ==> chunkBuffer == old(chunkBuffer) && state == old(state)
      ensures streams == old(streams)
    {
      ghost var before := Snapshot();
      StepProgress(before, atEnd);
      changed := ProcessChunkStep(atEnd);
      if changed {
        assert Settle(before, atEnd) == Settle(Snapshot(), atEnd);
      } else {
        assert Snapshot() == before;
      }
    }

    /** `processChunkStep`: one step; whether the state changed. */
    method ProcessChunkStep(atEnd: bool) returns (changed: bool)
      requires !state.Finished()
      modifies this
      ensures Snapshot() == Step(old(Snapshot()), atEnd)
      ensures changed <==> state != old(state)
      ensures streams == old(streams)
    {
      var current := state;
      if state == Key {
        ProcessKey();
      } else {
        state := ProcessValue(atEnd);
        if state.Finished() {
          currentName := [];
          chunkBuffer := [];
          events := events + [Completed(state == Complete)];
        }
      }
      changed := current != state;
    }

    /** `processKey`: a name is complete at the first '='. */
    method ProcessKey()
      requires state == Key
      modifies this
      ensures Snapshot() == KeyTaken(old(Snapshot()))
      ensures streams == old(streams)
    {
      var i := IndexOf(chunkBuffer, EQUALS, 0);
      if i != -1 {
        currentName := FromLatin1(PercentDecode(chunkBuffer[..i]));
        chunkBuffer := chunkBuffer[i + 1..];
        state := Value;
        events := events + [FieldFound(currentName)];
      }
    }

    /** `processValue`: a value is complete at the first '&' or at the end; returns the next state. */
    method ProcessValue(atEnd: bool) returns (next: State)
      requires state == Value
      modifies this
      ensures Snapshot().(state := next) == ValueTaken(old(Snapshot()), atEnd)
      ensures state == old(state) && streams == old(streams)
    {
      var i := IndexOf(chunkBuffer, AMPERSAND, 0);
      if i != -1 || atEnd {
        var value := PercentDecode(if i < 0 then chunkBuffer else chunkBuffer[..i]);
        fields := fields[currentName := value];
        events := events + [FieldCompleted(currentName)];
        if i == -1 {
          return Complete;
        }
        chunkBuffer := chunkBuffer[i + 1..];
        return Key;
      }
      return Value;
    }

    /** `hasField` and `isFieldComplete`: a field exists once its value is complete. */
    predicate HasField(field: string)
      reads this
    {
      field in fields
    }

    /** `fieldValue`: the decoded value, empty for an unknown field. */
    function FieldValue(field: string): (r: Bytes)
      reads this
      ensures field in fields ==> r == fields[field]
      ensures field !in fields ==> r == []
    {
      if field in fields then fields[field] else []
    }

    /** `fieldLength` and `fieldBytesTransferred`: the length of the stored value, 0 for an unknown field. */
    function FieldLength(field: string): (r: nat)
      reads this
      ensures r == |FieldValue(field)|
    {
      if field in fields then |fields[field]| else 0
    }

    /** `fieldMimeType`: the same for every name. */
    function FieldMimeType(field: string): (r: Bytes)
      ensures r == mimeType
    {
      mimeType
    }

    /**
     * `fieldStream`: a read-only device holding the value, created on the
     * first request for a field and the same device afterwards; none for an
     * unknown field.
     */
    method FieldStream(field: string) returns (stream: Device?)
      modifies this
      ensures field in old(streams) ==> stream == old(streams)[field] && streams == old(streams)
      ensures field !in old(streams) && field !in fields ==> stream == null && streams == old(streams)
      ensures field !in old(streams) && field in fields ==>
                stream != null && fresh(stream) && stream.available == fields[field] && streams == old(streams)[field := stream]
      ensures Snapshot() == old(Snapshot())
    {
      if field in streams {
        return streams[field];
      }
      if field !in fields {
        return null;
      }
      stream := new Device();
      stream.available := fields[field];
      streams := streams[field := stream];
    }
  }
}
