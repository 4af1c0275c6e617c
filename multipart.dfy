/**
 * `HttpMultiPartReader`: reads a "multipart/form-data" POST body as it
 * arrives (section 5.1.1 of RFC 2046, section 3 of RFC 2388). The body is a
 * first bounding line, then for every part a block of header lines ended by
 * an empty line, the part's content, and the next bounding line; the last
 * bounding line ends in "--". Each part's content is streamed into a buffer
 * of its own while it arrives.
 */
module Multipart {
  import opened Bytes
  import opened Numbers
  import opened HeaderMaps
  import opened HttpParser
  import opened Devices

  const CR: byte := 13
  const LF: byte := 10
  const CRLF: Bytes := [CR, LF]
  /** The most the reader takes from its device at once. */
  const ChunkSize: nat := 4096

  /** The order matters: `Complete` and `Error` are the final states, and only they. */
  datatype State = FirstLine | Headers | Body | Complete | Error
  {
    predicate Finished() { this == Complete || this == Error }
  }

  /**
   * What the reader knows about a field: the length announced by the part
   * (then, once complete, its real length), the bytes stored so far, its MIME
   * type, and everything written to its buffer.
   */
  datatype FieldInfo = FieldInfo(totalLength: int, transferred: int, mimeType: string, content: Bytes)

  /** What `QMap::value` yields for a name that is not there: a default `FieldInfo`. */
  const Unknown := FieldInfo(-1, 0, "", [])

  /** The signals the reader emits. */
  datatype Event = FieldFound(name: string) | FieldCompleted(name: string) | Completed(ok: bool)

  /**
   * The state of a reader: what `HttpMultiPartReaderPrivate` holds, with each
   * field's buffer as the bytes written to it, and the signals so far.
   */
  datatype Parse = Parse(state: State, buffer: Bytes, headers: HeaderMap, fields: map<string, FieldInfo>,
                         current: string, lastWasNewline: bool, writePos: nat, events: seq<Event>)

  /** A fresh reader. */
  const Start := Parse(FirstLine, [], [], map[], "", false, 0, [])

  /** The stored boundary: the constructor puts "--" in front of the one it is given. */
  function Delimiter(boundary: Bytes): (r: Bytes)
    ensures |r| == |boundary| + 2 && r[..2] == [DASH, DASH] && r[2..] == boundary
  {
    [DASH, DASH] + boundary
  }

  /** `boundingLineLength`: the stored boundary and two more bytes. */
  function LineLength(delimiter: Bytes): nat
  {
    |delimiter| + 2
  }

  /** The reference: the stored boundary at `offset`, followed by "\r\n" or, for the last line, by "--". */
  predicate BoundingLineAt(delimiter: Bytes, data: Bytes, offset: nat, last: bool)
  {
    OccursAt(data, delimiter + (if last then [DASH, DASH] else CRLF), offset)
  }

  /**
   * `isBoundingLine`: where the bounding line at `offset` ends, with whether
   * it is the last one; 0 when there is none there.
   */
  function BoundingLine(delimiter: Bytes, data: Bytes, offset: nat): (r: (nat, bool))
    ensures r.0 != 0 <==> BoundingLineAt(delimiter, data, offset, true) || BoundingLineAt(delimiter, data, offset, false)
    ensures r.0 != 0 ==> r.0 == offset + LineLength(delimiter) && BoundingLineAt(delimiter, data, offset, r.1)
    ensures r.0 == 0 ==> !r.1
  {
    var n := LineLength(delimiter);
    var e := offset + n;
    if |data| < e then (0, false)
    else
      assert data[offset..e] == data[offset..e - 2] + [data[e - 2], data[e - 1]];
      if data[offset..e - 2] != delimiter then
        assert (delimiter + [DASH, DASH])[..|delimiter|] == delimiter == (delimiter + CRLF)[..|delimiter|];
        (0, false)
      else if data[e - 2] == DASH && data[e - 1] == DASH then (e, true)
      else if data[e - 2] != CR || data[e - 1] != LF then (0, false)
      else (e, false)
  }

  /** `setState`: entering a final state emits `completed`, with success for `Complete`. */
  function SetState(p: Parse, s: State): (r: Parse)
    ensures r.state == s && r.events == p.events + (if s.Finished() then [Completed(s == Complete)] else [])
    ensures r == p.(state := s, events := r.events)
  {
    p.(state := s, events := p.events + if s.Finished() then [Completed(s == Complete)] else [])
  }

  /**
   * `processFirstLine`: waits for a whole bounding line; anything else there
   * is an error. Returns the new state and the bytes used up, -1 for an error.
   */
  function FirstLineStep(delimiter: Bytes, p: Parse): (r: (Parse, int))
    requires p.state == FirstLine
  {
    if |p.buffer| < LineLength(delimiter) then (p, 0)
    else
      var line := BoundingLine(delimiter, p.buffer, 0);
      var used: int := line.0;
      if used == 0 then (SetState(p, Error), -1) else (SetState(p, Headers), used)
  }

  /** The first line: nothing until a bounding line's length is buffered, then Headers after it or Error. */
  lemma FirstLineOutcome(delimiter: Bytes, p: Parse)
    requires p.state == FirstLine
    ensures var (q, used) := FirstLineStep(delimiter, p);
            (|p.buffer| < LineLength(delimiter) ==> q == p && used == 0)
            && (|p.buffer| >= LineLength(delimiter) && (BoundingLineAt(delimiter, p.buffer, 0, true) || BoundingLineAt(delimiter, p.buffer, 0, false))
                ==> q == p.(state := Headers) && used == LineLength(delimiter))
            && (|p.buffer| >= LineLength(delimiter) && !BoundingLineAt(delimiter, p.buffer, 0, true) && !BoundingLineAt(delimiter, p.buffer, 0, false)
                ==> q == p.(state := Error, events := p.events + [Completed(false)]) && used == -1)
  {
  }

  /** `parseContentLength`: a positive decimal number, or -1. */
  function ContentLength(data: Bytes): (r: int)
    ensures r == -1 || r >= 1
    ensures r >= 1 <==> ParseInt(data).Some? && ParseInt(data).value >= 1
    ensures r >= 1 ==> r == ParseInt(data).value
  {
    var v := ParseInt(data);
    if v.None? || v.value < 1 then -1 else v.value
  }

  /** The text a `Content-Disposition` value must start with. */
  const FormData: Bytes := [102, 111, 114, 109, 45, 100, 97, 116, 97, 59]
  /** `name="`, which `parseContentDispositionFormDataValue` looks for. */
  const NameIs: Bytes := [110, 97, 109, 101, 61, 34]

  /**
   * `parseContentDispositionValue` and `parseContentDispositionFormDataValue`:
   * for a value starting with "form-data;", the Latin-1 text between the first
   * `name="` and the next quote; empty otherwise.
   */
  function DispositionName(data: Bytes): (r: string)
  {
    if !StartsWith(data, FormData) then ""
    else
      var i := Find(data, NameIs, 0);
      if i == -1 then ""
      else
        var e := IndexOf(data, QUOTE, i + 6);
        if e == -1 then "" else FromLatin1(data[i + 6..e])
  }

  /** "form-data; name=\"" + name + "\"" + rest names the field `name`, whatever follows. */
  lemma DispositionNameIs(name: Bytes, rest: Bytes)
    requires QUOTE !in name
    ensures DispositionName(FormData + [SP] + NameIs + name + [QUOTE] + rest) == FromLatin1(name)
  {
    var data := FormData + [SP] + NameIs + name + [QUOTE] + rest;
    assert StartsWith(data, FormData) by { assert data[..|FormData|] == FormData; }
    assert OccursAt(data, NameIs, 11) by { assert data[11..17] == NameIs; }
    forall j | 0 <= j < 11 ensures !OccursAt(data, NameIs, j) {
      assert data[j..j + 6][0] == data[j];
      assert data[..11] == FormData + [SP];
    }
    assert Find(data, NameIs, 0) == 11;
    assert data == data[..17] + name + ([QUOTE] + rest);
    FindsByte(data, QUOTE, data[..17], name, [QUOTE] + rest, 17, 17 + |name|);
    assert data[17..17 + |name|] == name;
  }

  /**
   * The value is searched for the first `name="` anywhere, so a `filename`
   * parameter in front of `name` gives its value as the field name.
   */
  lemma FileNameFirstIsTaken(file: Bytes, name: Bytes)
    requires QUOTE !in file
    ensures DispositionName(FormData + [SP, 102, 105, 108, 101] + NameIs + file + [QUOTE, SEMICOLON, SP] + NameIs + name + [QUOTE])
            == FromLatin1(file)
  {
    var data := FormData + [SP, 102, 105, 108, 101] + NameIs + file + [QUOTE, SEMICOLON, SP] + NameIs + name + [QUOTE];
    assert StartsWith(data, FormData) by { assert data[..|FormData|] == FormData; }
    assert OccursAt(data, NameIs, 15) by { assert data[15..21] == NameIs; }
    forall j | 0 <= j < 15 ensures !OccursAt(data, NameIs, j) {
      assert data[j..j + 6][0] == data[j];
      assert data[..15] == FormData + [SP, 102, 105, 108, 101];
    }
    assert Find(data, NameIs, 0) == 15;
    assert data == data[..21] + file + ([QUOTE, SEMICOLON, SP] + NameIs + name + [QUOTE]);
    FindsByte(data, QUOTE, data[..21], file, [QUOTE, SEMICOLON, SP] + NameIs + name + [QUOTE], 21, 21 + |file|);
    assert data[21..21 + |file|] == file;
  }

  /** The header names a part's headers are looked up under. */
  const DispositionKey: Bytes := Latin1("Content-Disposition")
  const LengthKey: Bytes := Latin1("Content-Length")
  const TypeKey: Bytes := Latin1("Content-Type")
  /** The MIME type of a part without `Content-Type` (section 3 of RFC 2388). */
  const PlainText: string := "text/plain"

  /** What `fields.value(name)` yields. */
  function Info(p: Parse, name: string): (r: FieldInfo)
    ensures name !in p.fields ==> r == Unknown
  {
    if name in p.fields then p.fields[name] else Unknown
  }

  /**
   * `parseHeaders`, at the empty line that ends a part's headers: the
   * collected headers are dropped; without a disposition naming the field the
   * reader fails, otherwise the field is (re)created with an empty buffer,
   * `fieldFound` is emitted and the content follows.
   */
  function PartStart(p: Parse): (r: Parse)
    ensures r.headers == [] && r.buffer == p.buffer
  {
    var disposition := Value(p.headers, DispositionKey);
    var length := Value(p.headers, LengthKey);
    var mime := Value(p.headers, TypeKey);
    var cleared := p.(headers := []);
    var name := DispositionName(disposition);
    if disposition == [] || name == "" then SetState(cleared, Error)
    else
      var info := FieldInfo(ContentLength(length), 0, if mime == [] then PlainText else FromLatin1(mime), []);
      var q := cleared.(fields := p.fields[name := info], current := name, lastWasNewline := true, writePos := 0,
                        events := p.events + [FieldFound(name)]);
      SetState(q, Body)
  }

  /**
   * The end of a part's headers: a disposition that names no field is an
   * error; otherwise the field is there with its announced length, none
   * transferred, its MIME type ("text/plain" when none is given) and an empty
   * buffer, and `fieldFound` is emitted.
   */
  lemma PartStartOutcome(p: Parse)
    ensures var r := PartStart(p);
            var name := DispositionName(Value(p.headers, DispositionKey));
            if name == "" then r == SetState(p.(headers := []), Error)
            else
              var t := Value(p.headers, TypeKey);
              r.state == Body && r.current == name && r.lastWasNewline && r.writePos == 0
              && r.fields == p.fields[name := FieldInfo(ContentLength(Value(p.headers, LengthKey)),
                                                        0, if t == [] then PlainText else FromLatin1(t), [])]
              && r.events == p.events + [FieldFound(name)]
  {
  }

  /**
   * `processHeaders(offset)`: the header line starting at `offset`. Nothing
   * happens until its "\r\n" is buffered; an empty line ends the headers
   * (`PartStart`); a line `parseHeaderLine` refuses is -1 without any change
   * of state; any other line is stored under its key in canonical case.
   */
  function HeaderLine(p: Parse, offset: nat): (r: (Parse, int))
    requires offset <= |p.buffer|
    ensures r.0.buffer == p.buffer && r.1 <= |p.buffer| - offset
  {
    var idx := Find(p.buffer, CRLF, offset);
    if idx == -1 then (p, 0)
    else if idx == offset then
      var q := PartStart(p);
      (q, if q.state == Body then 2 else -1)
    else
      match ParseHeaderLine(p.buffer[offset..idx])
      case None => (p, -1)
      case Some(kv) => (p.(headers := Insert(p.headers, KeyCase(kv.0), kv.1)), idx - offset + 2)
  }

  /**
   * `processAllHeaders`: header lines from `offset` on while the state stays
   * Headers; the bytes used up, or -1.
   */
  function AllHeaders(p: Parse, offset: nat): (r: (Parse, int))
    requires p.state == Headers && offset <= |p.buffer|
    ensures r.0.buffer == p.buffer && r.1 <= |p.buffer|
    ensures r.1 >= 0 ==> r.1 >= offset
    decreases |p.buffer| - offset, 1
  {
    AllHeadersFrom(HeaderLine(p, offset), offset)
  }

  /** The loop of `processAllHeaders` once the line at `offset` has been handled, with `line` its outcome. */
  function AllHeadersFrom(line: (Parse, int), offset: nat): (r: (Parse, int))
    requires offset <= |line.0.buffer| && line.1 <= |line.0.buffer| - offset
    ensures r.0.buffer == line.0.buffer && r.1 <= |line.0.buffer|
    ensures r.1 >= 0 ==> r.1 >= offset
    decreases |line.0.buffer| - offset, 0
  {
    var (q, used) := line;
    if used > 0 && q.state == Headers then AllHeaders(q, offset + used)
    else if used < 0 then (q, -1)
    else (q, offset + used)
  }

  /** The loop of `processAllHeaders`, from the line at `offset` on, ends with `r`. */
  ghost predicate AllHeadersReach(p: Parse, offset: nat, r: (Parse, int))
    requires p.state == Headers && offset <= |p.buffer|
  {
    AllHeaders(p, offset) == r
  }

  /** The loop of `processAllHeaders` from `offset` first handles the line there. */
  lemma AllHeadersStart(p: Parse, offset: nat, r: (Parse, int))
    requires p.state == Headers && offset <= |p.buffer|
    requires AllHeadersReach(p, offset, r)
    ensures AllHeadersFrom(HeaderLine(p, offset), offset) == r
  {
  }

  /** After a line that used bytes and left the state at Headers, the loop goes on at the next line. */
  lemma AllHeadersGoesOn(q: Parse, used: int, offset: nat, r: (Parse, int))
    requires offset <= |q.buffer| && 0 < used <= |q.buffer| - offset && q.state == Headers
    requires AllHeadersFrom((q, used), offset) == r
    ensures AllHeadersReach(q, offset + used, r)
  {
  }

  /** Otherwise the loop ends with the line's outcome: -1 for an error, else the bytes used up to there. */
  lemma AllHeadersEnds(q: Parse, used: int, offset: nat, r: (Parse, int))
    requires offset <= |q.buffer| && used <= |q.buffer| - offset
    requires AllHeadersFrom((q, used), offset) == r
    requires !(used > 0 && q.state == Headers)
    ensures r == (q, if used < 0 then -1 else offset + used)
  {
  }

  /** Appends `data` to the current field's buffer (`appendToCurrentBuffer`). */
  function Append(p: Parse, data: Bytes): (r: Parse)
    ensures r == p.(fields := r.fields, writePos := p.writePos + |data|)
    ensures r.fields == p.fields[p.current := Info(p, p.current).(content := Info(p, p.current).content + data)]
  {
    var info := Info(p, p.current);
    p.(fields := p.fields[p.current := info.(content := info.content + data)], writePos := p.writePos + |data|)
  }

  /** Appending nothing to a field that exists changes nothing. */
  lemma AppendNothing(p: Parse)
    requires p.current in p.fields
    ensures Append(p, []) == p
  {
    assert Info(p, p.current).content + [] == p.fields[p.current].content;
  }

  /** Appending twice is appending both, in order. */
  lemma AppendTwice(p: Parse, a: Bytes, b: Bytes)
    ensures Append(Append(p, a), b) == Append(p, a + b)
    ensures a == [] ==> Append(p, a + b) == Append(p, b)
  {
    assert Info(p, p.current).content + a + b == Info(p, p.current).content + (a + b);
    if a == [] {
      assert a + b == b;
    }
  }

  /** `q` is `p` with something appended to the current field's buffer, and the line flag and the buffer set anew. */
  ghost predicate Appended(p: Parse, q: Parse)
  {
    exists d :: q == Append(p, d).(lastWasNewline := q.lastWasNewline, buffer := q.buffer)
  }

  /**
   * `processContentBoundary(idx)`: whether a bounding line starts the
   * buffer, or follows its "\r\n" when the buffer starts with one. If so the
   * field's length and bytes transferred become its buffer's size,
   * `fieldCompleted` is emitted, and Headers or, after the last line,
   * Complete follows.
   */
  function ContentBoundary(delimiter: Bytes, p: Parse, idx: int): (r: (Parse, int))
    ensures r.1 == 0 ==> r.0 == p
    ensures r.1 != 0 ==> r.0.buffer == p.buffer && 0 < r.1 <= |p.buffer|
  {
    var line := BoundingLine(delimiter, p.buffer, if idx == 0 then 2 else 0);
    if line.0 == 0 then (p, 0)
    else
      var info := Info(p, p.current);
      var size := |info.content|;
      var q := p.(fields := p.fields[p.current := info.(totalLength := size, transferred := size)],
                  events := p.events + [FieldCompleted(p.current)]);
      var used: int := line.0;
      (SetState(q, if line.1 then Complete else Headers), used)
  }

  /**
   * At the start of a line of content, too few bytes are buffered to tell
   * whether a bounding line is there: its length, and when `corrected` and
   * the buffer starts with "\r\n" (the bounding line is looked for after
   * it), two bytes more. The code as written waits for the length alone, so
   * a bounding line after a "\r\n" that has not fully arrived is taken
   * for content.
   */
  predicate Waits(delimiter: Bytes, p: Parse, corrected: bool)
  {
    p.lastWasNewline
    && |p.buffer| < LineLength(delimiter) + (if corrected && Find(p.buffer, CRLF, 0) == 0 then 2 else 0)
  }

  /**
   * How much of a buffer without a line break is content at once: all of
   * it, less a final "\r" when `corrected`, which stays buffered until the
   * next byte shows whether it starts a line break. The code as written
   * takes the "\r" at once.
   */
  function ContentEnd(data: Bytes, corrected: bool): (n: nat)
    ensures n <= |data|
    ensures n == |data| || (corrected && n == |data| - 1 && data[n] == CR)
  {
    if corrected && |data| > 0 && data[|data| - 1] == CR then |data| - 1 else |data|
  }

  /**
   * `processContent`, line by line. At the start of a line it waits (see
   * `Waits`) and checks for a bounding line; otherwise the "\r\n" that
   * ended the previous line is appended, unless nothing has been written
   * yet. Then comes `ContentLine`.
   */
  function Content(delimiter: Bytes, p: Parse, corrected: bool): (r: (Parse, int))
    ensures r.1 != 0 ==> r.0.buffer == p.buffer && 0 < r.1 <= |p.buffer|
  {
    if Waits(delimiter, p, corrected) then (p, 0)
    else
      var idx := Find(p.buffer, CRLF, 0);
      var b := if p.lastWasNewline then ContentBoundary(delimiter, p, idx) else (p, 0);
      if b.1 != 0 then b
      else ContentLine(if p.lastWasNewline && p.writePos > 0 then Append(p, CRLF) else p, idx, corrected)
  }

  /**
   * The end of `processContent`: the line up to the "\r\n" at `idx` is
   * appended and a new line starts after it; without one, what
   * `ContentEnd` allows is appended and dropped from the buffer.
   */
  function ContentLine(p: Parse, idx: int, corrected: bool): (r: (Parse, int))
    requires idx == Find(p.buffer, CRLF, 0)
    ensures r.1 != 0 ==> r.0.buffer == p.buffer && 0 < r.1 <= |p.buffer|
  {
    if idx == -1 then
      var n := ContentEnd(p.buffer, corrected);
      (Append(p, p.buffer[..n]).(lastWasNewline := false, buffer := p.buffer[n..]), 0)
    else
      (Append(p, p.buffer[..idx]).(lastWasNewline := true), idx + 2)
  }

  /** Content either completes the field at a bounding line or appends to its buffer. */
  lemma ContentShape(delimiter: Bytes, p: Parse, corrected: bool)
    ensures var r := Content(delimiter, p, corrected);
            r.0 == ContentBoundary(delimiter, p, Find(p.buffer, CRLF, 0)).0 || Appended(p, r.0)
  {
    var b := ContentBoundary(delimiter, p, Find(p.buffer, CRLF, 0));
    if !Waits(delimiter, p, corrected) && (!p.lastWasNewline || b.1 == 0) {
      ContentAppends(delimiter, p, corrected);
    }
  }

  /** Away from a bounding line, content is appended to the current field's buffer. */
  lemma ContentAppends(delimiter: Bytes, p: Parse, corrected: bool)
    requires !Waits(delimiter, p, corrected)
    requires !p.lastWasNewline || ContentBoundary(delimiter, p, Find(p.buffer, CRLF, 0)).1 == 0
    ensures Appended(p, Content(delimiter, p, corrected).0)
  {
    var idx := Find(p.buffer, CRLF, 0);
    var r := Content(delimiter, p, corrected);
    var pending := if p.lastWasNewline && p.writePos > 0 then CRLF else [];
    var n := if idx != -1 then idx else ContentEnd(p.buffer, corrected);
    AppendTwice(p, pending, p.buffer[..n]);
    AppendedBy(p, r.0, pending + p.buffer[..n]);
  }

  lemma AppendedBy(p: Parse, q: Parse, data: Bytes)
    requires q == Append(p, data).(lastWasNewline := q.lastWasNewline, buffer := q.buffer)
    ensures Appended(p, q)
  {
  }

  /** The step of `processChunkStep` for the current state: the new state and the bytes used, or -1. */
  function StateStep(delimiter: Bytes, p: Parse, corrected: bool): (r: (Parse, int))
    ensures r.1 > 0 ==> r.0.buffer == p.buffer && r.1 <= |p.buffer|
  {
    if p.state == FirstLine then FirstLineStep(delimiter, p)
    else if p.state == Headers then AllHeaders(p, 0)
    else Content(delimiter, p, corrected)
  }

  /**
   * `processChunkStep`: one step of the current state; a negative result
   * empties the buffer, a positive one drops that many bytes from its front.
   * Whether to go on.
   */
  function ChunkStep(delimiter: Bytes, p: Parse, corrected: bool): (r: (Parse, bool))
    ensures r.1 ==> |r.0.buffer| < |p.buffer|
  {
    var (q, used) := StateStep(delimiter, p, corrected);
    if used < 0 then (q.(buffer := []), false)
    else if used > 0 then (q.(buffer := q.buffer[used..]), true)
    else (q, false)
  }

  /**
   * `processChunk` after the read: steps while more than one byte is
   * buffered and each step goes on, stopping once the state is final.
   */
  function Steps(delimiter: Bytes, p: Parse): Parse
    decreases |p.buffer|
  {
    if p.state.Finished() || |p.buffer| <= 1 then p
    else
      var (q, more) := ChunkStep(delimiter, p, true);
      if more then Steps(delimiter, q) else q
  }

  /** `Steps` from `p` ends at `target`. */
  ghost predicate StepsReach(delimiter: Bytes, p: Parse, target: Parse)
  {
    Steps(delimiter, p) == target
  }

  /** `processAllHeaders` that used nothing found no line end, and changed nothing. */
  lemma AllHeadersIdle(p: Parse)
    requires p.state == Headers && AllHeaders(p, 0).1 == 0
    ensures AllHeaders(p, 0).0 == p
  {
    AllHeadersStart(p, 0, AllHeaders(p, 0));
  }

  /** A step that does not go on leaves nothing for `Steps` to do. */
  lemma StepStops(delimiter: Bytes, p: Parse)
    requires !p.state.Finished() && !ChunkStep(delimiter, p, true).1
    ensures var q := ChunkStep(delimiter, p, true).0;
            Steps(delimiter, q) == q
  {
    var q := ChunkStep(delimiter, p, true).0;
    if !q.state.Finished() && |q.buffer| > 1 {
      if p.state == Headers {
        AllHeadersIdle(p);
      }
      assert q == p;
    }
  }

  /** One turn of the loop of `processChunk`: `Steps` goes on from where the step left it, or stops there. */
  lemma StepsGoOn(delimiter: Bytes, p: Parse, q: Parse, more: bool, target: Parse)
    requires !p.state.Finished() && |p.buffer| > 1 && StepsReach(delimiter, p, target)
    requires ChunkStep(delimiter, p, true) == (q, more)
    ensures StepsReach(delimiter, q, target) && (!more ==> q == target)
  {
    if !more {
      StepStops(delimiter, p);
    }
  }

  /** Where the loop of `processChunk` stops, `Steps` has arrived. */
  lemma StepsArrive(delimiter: Bytes, p: Parse, target: Parse)
    requires StepsReach(delimiter, p, target) && (p.state.Finished() || |p.buffer| <= 1)
    ensures p == target
  {
  }

  /**
   * The code's `currentBuffer` starts null and is set only once a part's
   * headers have been parsed, which is when the model's current field
   * comes into being; fields are never removed.
   */
  predicate HasBuffer(p: Parse)
  {
    p.current in p.fields
  }

  /**
   * Whether a step reaches the current buffer while it is still null: in
   * any state after Headers `processContent` runs and, unless it waits at
   * the start of a line, seeks in the current buffer to append to it or
   * asks for its size.
   */
  predicate StepCrashes(delimiter: Bytes, p: Parse, corrected: bool)
  {
    !(p.state == FirstLine || p.state == Headers) && !HasBuffer(p) && !Waits(delimiter, p, corrected)
  }

  /** Whether no step of `Steps` from `p` reaches a null current buffer. */
  predicate StepsSafe(delimiter: Bytes, p: Parse)
    decreases |p.buffer|
  {
    p.state.Finished() || |p.buffer| <= 1
    || (!StepCrashes(delimiter, p, true)
        && var (q, more) := ChunkStep(delimiter, p, true);
           more ==> StepsSafe(delimiter, q))
  }

  /** The step loop never reaches a null current buffer: it stops at a final state, and in Body the field exists. */
  lemma {:induction false} StepsNeverCrash(delimiter: Bytes, p: Parse)
    requires Consistent(p)
    ensures StepsSafe(delimiter, p)
    decreases |p.buffer|
  {
    if !p.state.Finished() && |p.buffer| > 1 {
      ChunkStepConsistent(delimiter, p);
      var (q, more) := ChunkStep(delimiter, p, true);
      if more {
        StepsNeverCrash(delimiter, q);
      }
    }
  }

  /** What the code as written comes to: a reader, or a crash on a null current buffer. */
  datatype Outcome = Ran(reader: Parse) | Crashed

  /**
   * `processChunk` as written: the loop does not look at the state, so a
   * reader that is complete or has failed goes on taking its buffer as
   * content, a "\r" at the end of the buffer is content at once, and a
   * reader that failed before its first part had a buffer crashes.
   */
  function StepsAsWritten(delimiter: Bytes, p: Parse): Outcome
    decreases |p.buffer|
  {
    if |p.buffer| <= 1 then Ran(p)
    else if StepCrashes(delimiter, p, false) then Crashed
    else
      var (q, more) := ChunkStep(delimiter, p, false);
      if more then StepsAsWritten(delimiter, q) else Ran(q)
  }

  function Min(a: nat, b: nat): nat { if a < b then a else b }

  /** The loop of `processData`: the input in reads of at most 4096 bytes, each stepped on. */
  function ReadChunks(delimiter: Bytes, p: Parse, input: Bytes): Parse
    decreases |input|
  {
    if input == [] then p
    else
      var n := Min(ChunkSize, |input|);
      ReadChunks(delimiter, Steps(delimiter, p.(buffer := p.buffer + input[..n])), input[n..])
  }

  /**
   * `processData`: a finished reader ignores the call; otherwise all the
   * input is read, and a body that ended before it was complete is an error,
   * unless the reader has failed already.
   */
  function Receive(delimiter: Bytes, p: Parse, input: Bytes, atEnd: bool): Parse
  {
    if p.state.Finished() then p
    else
      var q := ReadChunks(delimiter, p, input);
      if !q.state.Finished() && atEnd then SetState(q, Error) else q
  }

  /** Whether no read of `ReadChunks` from `p` reaches a null current buffer. */
  predicate ReadChunksSafe(delimiter: Bytes, p: Parse, input: Bytes)
    decreases |input|
  {
    input == []
    || var n := Min(ChunkSize, |input|);
       StepsSafe(delimiter, p.(buffer := p.buffer + input[..n]))
       && ReadChunksSafe(delimiter, Steps(delimiter, p.(buffer := p.buffer + input[..n])), input[n..])
  }

  /** Reading the device, however much is there, never reaches a null current buffer. */
  lemma {:induction false} ReadChunksNeverCrash(delimiter: Bytes, p: Parse, input: Bytes)
    requires Consistent(p)
    ensures ReadChunksSafe(delimiter, p, input)
    decreases |input|
  {
    if input != [] {
      var n := Min(ChunkSize, |input|);
      var a := p.(buffer := p.buffer + input[..n]);
      StepsNeverCrash(delimiter, a);
      StepsConsistent(delimiter, a);
      ReadChunksNeverCrash(delimiter, Steps(delimiter, a), input[n..]);
    }
  }

  /** A finished reader reads what arrives into its buffer and nothing else changes. */
  lemma {:induction false} ReadChunksFinished(delimiter: Bytes, p: Parse, input: Bytes)
    requires p.state.Finished()
    ensures ReadChunks(delimiter, p, input) == p.(buffer := p.buffer + input)
    decreases |input|
  {
    if input != [] {
      var n := Min(ChunkSize, |input|);
      var a := p.(buffer := p.buffer + input[..n]);
      ReadChunksFinished(delimiter, a, input[n..]);
      assert p.buffer + input[..n] + input[n..] == p.buffer + input;
    }
  }

  /** The same loop over the code as written; a crash ends it. */
  function ReadChunksAsWritten(delimiter: Bytes, p: Parse, input: Bytes): Outcome
    decreases |input|
  {
    if input == [] then Ran(p)
    else
      var n := Min(ChunkSize, |input|);
      match StepsAsWritten(delimiter, p.(buffer := p.buffer + input[..n]))
      case Crashed => Crashed
      case Ran(q) => ReadChunksAsWritten(delimiter, q, input[n..])
  }

  /**
   * `processData` as written: at the end of the input any state but Complete
   * becomes Error, an Error included.
   */
  function ReceiveAsWritten(delimiter: Bytes, p: Parse, input: Bytes, atEnd: bool): Outcome
  {
    if p.state.Finished() then Ran(p)
    else
      match ReadChunksAsWritten(delimiter, p, input)
      case Crashed => Crashed
      case Ran(q) => Ran(if q.state != Complete && atEnd then SetState(q, Error) else q)
  }

  /** The number of `completed` signals among the events. */
  function CompletedCount(events: seq<Event>): nat
  {
    if events == [] then 0
    else CompletedCount(events[..|events| - 1]) + if events[|events| - 1].Completed? then 1 else 0
  }

  lemma CompletedCountAppend(events: seq<Event>, e: Event)
    ensures CompletedCount(events + [e]) == CompletedCount(events) + if e.Completed? then 1 else 0
  {
    assert (events + [e])[..|events|] == events;
  }

  /** A field whose closing bounding line has been seen: its length and bytes transferred are its buffer's size. */
  predicate Done(info: FieldInfo)
  {
    info.totalLength == info.transferred == |info.content|
  }

  /**
   * What holds of every reader: `completed` has been emitted exactly once if
   * the state is final, and last, saying whether the body was complete; in
   * Body the current field exists, has nothing transferred, and its size is
   * the write position; every other field, and the current one outside
   * Body and Error, is done.
   */
  predicate Consistent(p: Parse)
  {
    CompletedCount(p.events) == (if p.state.Finished() then 1 else 0)
    && (p.state.Finished() ==> p.events[|p.events| - 1] == Completed(p.state == Complete))
    && (p.state == Body ==> p.current in p.fields && p.writePos == |p.fields[p.current].content|
                            && p.fields[p.current].transferred == 0 && p.fields[p.current].totalLength != 0)
    && (p.state == FirstLine ==> p.fields == map[])
    && forall n | n in p.fields && (n != p.current || !(p.state == Body || p.state == Error)) :: Done(p.fields[n])
  }

  lemma StartConsistent()
    ensures Consistent(Start)
  {
  }

  lemma FirstLineConsistent(delimiter: Bytes, p: Parse)
    requires Consistent(p) && p.state == FirstLine
    ensures Consistent(FirstLineStep(delimiter, p).0)
  {
    var q := FirstLineStep(delimiter, p).0;
    if q.state == Error {
      CompletedCountAppend(p.events, Completed(false));
    } else {
      assert q.events == p.events + [] == p.events;
    }
  }

  lemma PartStartConsistent(p: Parse)
    requires Consistent(p) && p.state == Headers
    ensures var q := PartStart(p);
            Consistent(q) && (q.state == Body || q.state == Error)
  {
    PartStartOutcome(p);
    var q := PartStart(p);
    if q.state == Error {
      CompletedCountAppend(p.events, Completed(false));
    } else {
      CompletedCountAppend(p.events, FieldFound(q.current));
    }
  }

  /** A header line keeps the reader consistent; it stays in Headers unless the line ends the headers. */
  lemma HeaderLineConsistent(p: Parse, offset: nat)
    requires Consistent(p) && p.state == Headers && offset <= |p.buffer|
    ensures var q := HeaderLine(p, offset).0;
            Consistent(q) && (q.state == Headers || q.state == Body || q.state == Error)
  {
    if Find(p.buffer, CRLF, offset) == offset {
      PartStartConsistent(p);
    }
  }

  /** `processAllHeaders` keeps the reader consistent, and does not complete it. */
  lemma {:induction false} AllHeadersConsistent(p: Parse, offset: nat)
    requires Consistent(p) && p.state == Headers && offset <= |p.buffer|
    ensures Consistent(AllHeaders(p, offset).0) && AllHeaders(p, offset).0.state != Complete
    decreases |p.buffer| - offset, 1
  {
    HeaderLineConsistent(p, offset);
    AllHeadersFromConsistent(HeaderLine(p, offset), offset);
  }

  lemma {:induction false} AllHeadersFromConsistent(line: (Parse, int), offset: nat)
    requires offset <= |line.0.buffer| && line.1 <= |line.0.buffer| - offset
    requires Consistent(line.0) && line.0.state != Complete && line.0.state != FirstLine
    ensures Consistent(AllHeadersFrom(line, offset).0) && AllHeadersFrom(line, offset).0.state != Complete
    decreases |line.0.buffer| - offset, 0
  {
    if line.1 > 0 && line.0.state == Headers {
      var next := AllHeaders(line.0, offset + line.1);
      AllHeadersConsistent(line.0, offset + line.1);
      assert AllHeadersFrom(line, offset) == next;
    }
  }

  lemma AppendConsistent(p: Parse, data: Bytes)
    requires Consistent(p) && p.state == Body
    ensures Consistent(Append(p, data))
  {
  }

  lemma BoundaryConsistent(delimiter: Bytes, p: Parse, idx: int)
    requires Consistent(p) && p.state == Body
    ensures Consistent(ContentBoundary(delimiter, p, idx).0)
  {
    var b := ContentBoundary(delimiter, p, idx);
    if b.1 != 0 {
      var e := p.events + [FieldCompleted(p.current)];
      CompletedCountAppend(p.events, FieldCompleted(p.current));
      if b.0.state == Complete {
        CompletedCountAppend(e, Completed(true));
      } else {
        assert b.0.events == e + [] == e;
      }
    }
  }

  lemma ContentConsistent(delimiter: Bytes, p: Parse, corrected: bool)
    requires Consistent(p) && p.state == Body
    ensures Consistent(Content(delimiter, p, corrected).0)
  {
    var q := Content(delimiter, p, corrected).0;
    ContentShape(delimiter, p, corrected);
    BoundaryConsistent(delimiter, p, Find(p.buffer, CRLF, 0));
    if q != ContentBoundary(delimiter, p, Find(p.buffer, CRLF, 0)).0 {
      var d :| q == Append(p, d).(lastWasNewline := q.lastWasNewline, buffer := q.buffer);
      AppendConsistent(p, d);
    }
  }

  lemma ChunkStepConsistent(delimiter: Bytes, p: Parse)
    requires Consistent(p) && !p.state.Finished()
    ensures Consistent(ChunkStep(delimiter, p, true).0)
  {
    if p.state == FirstLine {
      FirstLineConsistent(delimiter, p);
    } else if p.state == Headers {
      AllHeadersConsistent(p, 0);
    } else {
      ContentConsistent(delimiter, p, true);
    }
  }

  lemma {:induction false} StepsConsistent(delimiter: Bytes, p: Parse)
    requires Consistent(p)
    ensures Consistent(Steps(delimiter, p))
    decreases |p.buffer|
  {
    if !p.state.Finished() && |p.buffer| > 1 {
      ChunkStepConsistent(delimiter, p);
      var (q, more) := ChunkStep(delimiter, p, true);
      if more {
        StepsConsistent(delimiter, q);
      }
    }
  }

  lemma {:induction false} ReadChunksConsistent(delimiter: Bytes, p: Parse, input: Bytes)
    requires Consistent(p)
    ensures Consistent(ReadChunks(delimiter, p, input))
    decreases |input|
  {
    if input != [] {
      var n := Min(ChunkSize, |input|);
      StepsConsistent(delimiter, p.(buffer := p.buffer + input[..n]));
      ReadChunksConsistent(delimiter, Steps(delimiter, p.(buffer := p.buffer + input[..n])), input[n..]);
    }
  }

  /**
   * `processData` keeps the reader consistent: in particular `completed` is
   * emitted once, when the state first becomes final, and a reader that has
   * finished has every field done unless it failed in the middle of one.
   */
  lemma ReceiveConsistent(delimiter: Bytes, p: Parse, input: Bytes, atEnd: bool)
    requires Consistent(p)
    ensures var q := Receive(delimiter, p, input, atEnd);
            Consistent(q) && (atEnd ==> q.state.Finished())
  {
    if !p.state.Finished() {
      ReadChunksConsistent(delimiter, p, input);
      var q := ReadChunks(delimiter, p, input);
      if !q.state.Finished() && atEnd {
        CompletedCountAppend(q.events, Completed(false));
      }
    }
  }

  /**
   * Within a line of content: without a "\r\n" buffered, everything
   * buffered is appended, less a final "\r" held back when `corrected`, and
   * the step stops.
   */
  lemma WithinLine(delimiter: Bytes, p: Parse, corrected: bool)
    requires (p.state == Body || p.state.Finished()) && !p.lastWasNewline && Find(p.buffer, CRLF, 0) == -1
    ensures var n := ContentEnd(p.buffer, corrected);
            ChunkStep(delimiter, p, corrected) == (Append(p, p.buffer[..n]).(lastWasNewline := false, buffer := p.buffer[n..]), false)
  {
  }

  /** Within a line of content: at the first "\r\n", the line before it is appended and a new line starts after it. */
  lemma EndOfLine(delimiter: Bytes, p: Parse, corrected: bool, idx: nat)
    requires (p.state == Body || p.state.Finished()) && !p.lastWasNewline && Find(p.buffer, CRLF, 0) == idx
    ensures idx + 2 <= |p.buffer|
    ensures ChunkStep(delimiter, p, corrected) == (Append(p, p.buffer[..idx]).(lastWasNewline := true, buffer := p.buffer[idx + 2..]), true)
  {
  }

  /**
   * At the start of a line of content with a bounding line there (and the
   * buffer not starting with "\r\n"): the field is done, `fieldCompleted`
   * is emitted, and the state becomes Complete after the last bounding line
   * and Headers after any other; the bounding line is used up.
   */
  lemma BoundaryAtLineStart(delimiter: Bytes, p: Parse, corrected: bool, last: bool)
    requires (p.state == Body || p.state.Finished()) && p.lastWasNewline && Find(p.buffer, CRLF, 0) != 0
    requires BoundingLineAt(delimiter, p.buffer, 0, last)
    ensures var info := Info(p, p.current);
            var q := p.(fields := p.fields[p.current := info.(totalLength := |info.content|, transferred := |info.content|)],
                        events := p.events + [FieldCompleted(p.current)]);
            ChunkStep(delimiter, p, corrected)
              == (SetState(q, if last then Complete else Headers).(buffer := p.buffer[LineLength(delimiter)..]), true)
  {
  }

  /** The stored boundary of the examples below: "--b". */
  const ExampleDelimiter: Bytes := [DASH, DASH, 98]

  /**
   * A body whose first line is not a bounding line, received at once: the
   * code as written emits `completed(false)` twice, at the first line and
   * again at the end of `processData`; the model emits it once.
   */
  lemma BadFirstLineSignalsTwice()
    ensures ReceiveAsWritten(ExampleDelimiter, Start, [120, 120, 120, 120, 120], true).Ran?
    ensures ReceiveAsWritten(ExampleDelimiter, Start, [120, 120, 120, 120, 120], true).reader.events == [Completed(false), Completed(false)]
    ensures Receive(ExampleDelimiter, Start, [120, 120, 120, 120, 120], true).events == [Completed(false)]
  {
    var input: Bytes := [120, 120, 120, 120, 120];
    var p := Start.(buffer := [] + input[..5]);
    assert p.buffer == input;
    assert p.buffer[0..3][0] != ExampleDelimiter[0];
    var q := SetState(p, Error).(buffer := []);
    assert ChunkStep(ExampleDelimiter, p, false) == (q, false);
    assert StepsAsWritten(ExampleDelimiter, p) == Ran(q) && q == Steps(ExampleDelimiter, p);
    assert ReadChunksAsWritten(ExampleDelimiter, q, input[5..]) == Ran(q);
    assert ReadChunksAsWritten(ExampleDelimiter, Start, input) == Ran(q) && q == ReadChunks(ExampleDelimiter, Start, input);
  }

  /**
   * A body whose first line is not a bounding line, more than one read of
   * it available at once: as written, the first read fails the reader and
   * empties the buffer, but `processData` goes on reading while bytes are
   * available, and the next step, in Error, appends to the current buffer,
   * which no part has set yet, so the code crashes. The model stops at the
   * failure, emits `completed(false)` once, and never steps without a
   * buffer.
   */
  lemma BufferlessFailureCrashesAsWritten(input: Bytes, atEnd: bool)
    requires |input| >= ChunkSize + 2 && input[0] != DASH
    ensures ReceiveAsWritten(ExampleDelimiter, Start, input, atEnd) == Crashed
    ensures ReadChunksSafe(ExampleDelimiter, Start, input)
    ensures var q := Receive(ExampleDelimiter, Start, input, atEnd);
            q.state == Error && q.events == [Completed(false)]
  {
    var p := Start.(buffer := [] + input[..ChunkSize]);
    assert p.buffer[0..3][0] != ExampleDelimiter[0];
    var q := SetState(p, Error).(buffer := []);
    assert ChunkStep(ExampleDelimiter, p, false) == (q, false) == ChunkStep(ExampleDelimiter, p, true);
    assert StepsAsWritten(ExampleDelimiter, p) == Ran(q);
    var rest := input[ChunkSize..];
    var a := q.(buffer := q.buffer + rest[..Min(ChunkSize, |rest|)]);
    assert StepCrashes(ExampleDelimiter, a, false);
    assert ReadChunksAsWritten(ExampleDelimiter, q, rest) == Crashed;
    assert Steps(ExampleDelimiter, p) == q;
    ReadChunksFinished(ExampleDelimiter, q, rest);
    StartConsistent();
    ReadChunksNeverCrash(ExampleDelimiter, Start, input);
  }

  /**
   * Bytes after the last bounding line, here "\r\n--b\r\n": the code as
   * written takes them as content of the last field, finds a bounding line,
   * and leaves Complete for Headers, so the reader is no longer complete;
   * the model leaves a finished reader alone.
   */
  lemma EpilogueReopens(p: Parse)
    requires p.state == Complete && p.lastWasNewline && p.buffer == [CR, LF, DASH, DASH, 98, CR, LF] && p.current in p.fields
    ensures StepsAsWritten(ExampleDelimiter, p).Ran?
    ensures StepsAsWritten(ExampleDelimiter, p).reader.state == Headers
    ensures StepsAsWritten(ExampleDelimiter, p).reader.events == p.events + [FieldCompleted(p.current)]
    ensures Steps(ExampleDelimiter, p) == p
  {
    assert Find(p.buffer, CRLF, 0) == 0 by { assert p.buffer[0..2] == CRLF; }
    assert p.buffer[2..5] == ExampleDelimiter;
    assert BoundingLine(ExampleDelimiter, p.buffer, 2) == (7, false);
    var q := ChunkStep(ExampleDelimiter, p, false).0;
    assert q.state == Headers && q.buffer == [] && q.events == p.events + [FieldCompleted(p.current)];
  }

  /**
   * A line of content delivered in two reads split between its "\r" and
   * its "\n", just before the last bounding line: as written, the "\r" is
   * content at once, the "\n" no longer starts a line break, and the
   * bounding line is taken as content; read at once, the same bytes
   * complete the field.
   */
  lemma SplitCrLfAsWritten(p: Parse)
    requires p.state == Body && !p.lastWasNewline && p.buffer == [] && p.current in p.fields
    ensures StepsAsWritten(ExampleDelimiter, p.(buffer := [120, CR])).Ran?
    ensures var first := StepsAsWritten(ExampleDelimiter, p.(buffer := [120, CR])).reader;
            var split := StepsAsWritten(ExampleDelimiter, first.(buffer := first.buffer + [LF, DASH, DASH, 98, DASH, DASH]));
            split.Ran? && split.reader.state == Body
            && Info(split.reader, p.current).content == p.fields[p.current].content + ([120, CR] + [LF, DASH, DASH, 98, DASH, DASH])
    ensures var once := StepsAsWritten(ExampleDelimiter, p.(buffer := [120, CR, LF, DASH, DASH, 98, DASH, DASH]));
            once.Ran? && once.reader.state == Complete && Info(once.reader, p.current).content == p.fields[p.current].content + [120]
  {
    SplitAsWritten(p);
    NoLineEndAsWritten(p, [120, CR]);
    OnceAsWritten(p);
  }

  /** The first half of `SplitCrLfAsWritten`: the two reads. */
  lemma SplitAsWritten(p: Parse)
    requires p.state == Body && !p.lastWasNewline && p.buffer == [] && p.current in p.fields
    ensures StepsAsWritten(ExampleDelimiter, p.(buffer := [120, CR])).Ran?
    ensures var first := StepsAsWritten(ExampleDelimiter, p.(buffer := [120, CR])).reader;
            StepsAsWritten(ExampleDelimiter, first.(buffer := first.buffer + [LF, DASH, DASH, 98, DASH, DASH]))
              == Ran(Append(p, [120, CR] + [LF, DASH, DASH, 98, DASH, DASH]))
  {
    NoLineEndAsWritten(p, [120, CR]);
    var first := Append(p, [120, CR]);
    var rest: Bytes := [LF, DASH, DASH, 98, DASH, DASH];
    assert first.(buffer := first.buffer + rest) == first.(buffer := rest);
    NoLineEndAsWritten(first, rest);
    AppendTwice(p, [120, CR], rest);
  }

  /** As written, content with no "\r\n" in it is appended whole, a final "\r" included. */
  lemma NoLineEndAsWritten(p: Parse, data: Bytes)
    requires p.state == Body && !p.lastWasNewline && p.buffer == [] && p.current in p.fields
    requires |data| >= 2 && forall j | 0 <= j < |data| - 1 :: data[j] != CR
    ensures StepsAsWritten(ExampleDelimiter, p.(buffer := data)) == Ran(Append(p, data))
  {
    var a := p.(buffer := data);
    forall j | 0 <= j && j + 2 <= |data| ensures !OccursAt(a.buffer, CRLF, j) {
      assert a.buffer[j..j + 2][0] == data[j] != CR;
    }
    assert Find(a.buffer, CRLF, 0) == -1;
    WithinLine(ExampleDelimiter, a, false);
    assert a.buffer[..|data|] == data && a.buffer[|data|..] == [];
  }

  /** The second half of `SplitCrLfAsWritten`: the same bytes read at once. */
  lemma OnceAsWritten(p: Parse)
    requires p.state == Body && !p.lastWasNewline && p.buffer == [] && p.current in p.fields
    ensures var once := StepsAsWritten(ExampleDelimiter, p.(buffer := [120, CR, LF, DASH, DASH, 98, DASH, DASH]));
            once.Ran? && once.reader.state == Complete && Info(once.reader, p.current).content == p.fields[p.current].content + [120]
  {
    var o := p.(buffer := [120, CR, LF, DASH, DASH, 98, DASH, DASH]);
    assert Find(o.buffer, CRLF, 0) == 1 by {
      assert o.buffer[0..2][0] != CRLF[0];
      assert o.buffer[1..3] == CRLF;
    }
    EndOfLine(ExampleDelimiter, o, false, 1);
    assert o.buffer[..1] == [120] && o.buffer[3..] == [DASH, DASH, 98, DASH, DASH];
    var l := Append(p, [120]).(lastWasNewline := true, buffer := [DASH, DASH, 98, DASH, DASH]);
    assert Append(o, [120]).(lastWasNewline := true, buffer := o.buffer[3..]) == l;
    LastLineAsWritten(l);
  }

  /** As written, the last bounding line at the start of a line completes the reader. */
  lemma LastLineAsWritten(l: Parse)
    requires l.state == Body && l.lastWasNewline && l.buffer == [DASH, DASH, 98, DASH, DASH] && l.current in l.fields
    ensures var once := StepsAsWritten(ExampleDelimiter, l);
            once.Ran? && once.reader.state == Complete && Info(once.reader, l.current).content == l.fields[l.current].content
  {
    assert Find(l.buffer, CRLF, 0) == -1 by {
      forall j | 0 <= j && j + 2 <= 5 ensures !OccursAt(l.buffer, CRLF, j) {
        assert l.buffer[j..j + 2][0] != CRLF[0];
      }
    }
    assert l.buffer[0..5] == ExampleDelimiter + [DASH, DASH];
    BoundaryAtLineStart(ExampleDelimiter, l, false, true);
    var done := ChunkStep(ExampleDelimiter, l, false).0;
    assert done.state == Complete && done.buffer == [];
    assert StepsAsWritten(ExampleDelimiter, l) == StepsAsWritten(ExampleDelimiter, done) == Ran(done);
  }

  /** No "\r\n" in `line`, and none across its end when a "\r" follows it. */
  lemma NoBreakBefore(line: Bytes, after: Bytes)
    requires forall j :: !OccursAt(line, CRLF, j)
    ensures forall j | 0 <= j < |line| :: !OccursAt(line + [CR] + after, CRLF, j)
  {
    var data := line + [CR] + after;
    forall j | 0 <= j < |line| ensures !OccursAt(data, CRLF, j) {
      if j + 2 <= |line| {
        assert !OccursAt(line, CRLF, j);
        assert data[j..j + 2] == line[j..j + 2];
      } else {
        assert data[j..j + 2][1] == CR != CRLF[1];
        assert data[j..j + 2] != CRLF;
      }
    }
  }

  /** A line of content without its "\r\n" and a "\r": the line is appended, the "\r" is held back. */
  lemma HeldBack(delimiter: Bytes, p: Parse, line: Bytes)
    requires p.state == Body && !p.lastWasNewline && p.current in p.fields
    requires forall j :: !OccursAt(line, CRLF, j)
    ensures Steps(delimiter, p.(buffer := line + [CR])) == Append(p, line).(buffer := [CR])
  {
    var a := p.(buffer := line + [CR]);
    NoBreakBefore(line, []);
    assert a.buffer == line + [CR] + [];
    assert Find(a.buffer, CRLF, 0) == -1;
    if line == [] {
      AppendNothing(p);
    } else {
      WithinLine(delimiter, a, true);
      assert a.buffer[..|line|] == line && a.buffer[|line|..] == [CR];
    }
  }

  /** In a line of content, a "\r\n" at `idx` ends the line and stepping goes on after it. */
  lemma LineEnds(delimiter: Bytes, p: Parse, line: Bytes, rest: Bytes)
    requires p.state == Body && !p.lastWasNewline
    requires p.buffer == line + CRLF + rest
    requires forall j | 0 <= j < |line| :: !OccursAt(p.buffer, CRLF, j)
    ensures Steps(delimiter, p) == Steps(delimiter, Append(p, line).(lastWasNewline := true, buffer := rest))
  {
    assert p.buffer[|line|..|line| + 2] == CRLF;
    assert OccursAt(p.buffer, CRLF, |line|);
    assert Find(p.buffer, CRLF, 0) == |line|;
    EndOfLine(delimiter, p, true, |line|);
    assert p.buffer[..|line|] == line && p.buffer[|line| + 2..] == rest;
  }

  /** The second read of a line split between its "\r" and its "\n". */
  lemma SecondRead(delimiter: Bytes, p: Parse, line: Bytes, rest: Bytes)
    requires p.state == Body && !p.lastWasNewline && p.current in p.fields
    requires forall j :: !OccursAt(line, CRLF, j)
    ensures var first := Steps(delimiter, p.(buffer := line + [CR]));
            Steps(delimiter, first.(buffer := first.buffer + [LF] + rest))
            == Steps(delimiter, Append(p, line).(lastWasNewline := true, buffer := rest))
  {
    HeldBack(delimiter, p, line);
    var b := Append(p, line).(buffer := [] + CRLF + rest);
    assert [CR] + [LF] + rest == [] + CRLF + rest;
    LineEnds(delimiter, b, [], rest);
    AppendNothing(b);
  }

  /** The same line read at once. */
  lemma OneRead(delimiter: Bytes, p: Parse, line: Bytes, rest: Bytes)
    requires p.state == Body && !p.lastWasNewline
    requires forall j :: !OccursAt(line, CRLF, j)
    ensures Steps(delimiter, p.(buffer := line + CRLF + rest))
            == Steps(delimiter, Append(p, line).(lastWasNewline := true, buffer := rest))
  {
    var o := p.(buffer := line + CRLF + rest);
    NoBreakBefore(line, [LF] + rest);
    assert o.buffer == line + [CR] + ([LF] + rest);
    LineEnds(delimiter, o, line, rest);
    assert Info(o, o.current) == Info(p, p.current);
    assert Append(o, line).(lastWasNewline := true, buffer := rest) == Append(p, line).(lastWasNewline := true, buffer := rest);
  }

  /**
   * With the "\r" held back, a line of content delivered in two reads split
   * between its "\r" and its "\n" ends up exactly where it does read at
   * once, whatever follows it.
   */
  lemma SplitCrLf(delimiter: Bytes, p: Parse, line: Bytes, rest: Bytes)
    requires p.state == Body && !p.lastWasNewline && p.buffer == [] && p.current in p.fields
    requires forall j :: !OccursAt(line, CRLF, j)
    ensures var first := Steps(delimiter, p.(buffer := line + [CR]));
            Steps(delimiter, first.(buffer := first.buffer + [LF] + rest)) == Steps(delimiter, p.(buffer := line + CRLF + rest))
  {
    SecondRead(delimiter, p, line, rest);
    OneRead(delimiter, p, line, rest);
  }

  /** The bounding line at `offset`, once all of it is buffered, does not depend on what follows. */
  lemma BoundingLineExtended(delimiter: Bytes, data: Bytes, more: Bytes, offset: nat)
    requires offset + LineLength(delimiter) <= |data|
    ensures BoundingLine(delimiter, data + more, offset) == BoundingLine(delimiter, data, offset)
  {
    var e := offset + LineLength(delimiter);
    assert (data + more)[offset..e - 2] == data[offset..e - 2];
  }

  /** `ContentBoundary` on a buffer with more bytes behind it, once the bounding line it looks for is buffered. */
  lemma ContentBoundaryExtended(delimiter: Bytes, p: Parse, more: Bytes, idx: int)
    requires (if idx == 0 then 2 else 0) + LineLength(delimiter) <= |p.buffer|
    ensures var b := ContentBoundary(delimiter, p, idx);
            var c := ContentBoundary(delimiter, p.(buffer := p.buffer + more), idx);
            c.1 == b.1 && (b.1 != 0 ==> c.0 == b.0.(buffer := p.buffer + more))
  {
    BoundingLineExtended(delimiter, p.buffer, more, if idx == 0 then 2 else 0);
  }

  /** `ContentLine` for a line that ends in the buffer, with more bytes behind it. */
  lemma ContentLineExtended(p: Parse, more: Bytes, idx: nat)
    requires idx == Find(p.buffer, CRLF, 0) && idx == Find(p.buffer + more, CRLF, 0)
    ensures var r := ContentLine(p, idx, true);
            ContentLine(p.(buffer := p.buffer + more), idx, true) == (r.0.(buffer := p.buffer + more), r.1)
  {
    var data := p.buffer[..idx];
    assert (p.buffer + more)[..idx] == data;
    AppendKeepsBuffer(p, data, p.buffer + more);
  }

  lemma AppendKeepsBuffer(p: Parse, data: Bytes, buffer: Bytes)
    ensures Append(p.(buffer := buffer), data) == Append(p, data).(buffer := buffer)
  {
  }

  /** `Content` at the start of a line that ends in the buffer, decided on the buffer with more bytes behind it. */
  lemma ContentExtended(delimiter: Bytes, p: Parse, more: Bytes)
    requires p.state == Body && p.lastWasNewline && !Waits(delimiter, p, true) && Find(p.buffer, CRLF, 0) != -1
    ensures var r := Content(delimiter, p, true);
            Content(delimiter, p.(buffer := p.buffer + more), true) == (r.0.(buffer := p.buffer + more), r.1)
  {
    var e := p.(buffer := p.buffer + more);
    var idx := Find(p.buffer, CRLF, 0);
    FindExtended(p.buffer, more, CRLF);
    assert !Waits(delimiter, e, true);
    ContentBoundaryExtended(delimiter, p, more, idx);
    if ContentBoundary(delimiter, p, idx).1 == 0 {
      var q := if p.writePos > 0 then Append(p, CRLF) else p;
      assert (if e.writePos > 0 then Append(e, CRLF) else e) == q.(buffer := e.buffer);
      ContentLineExtended(q, more, idx);
    }
  }

  /**
   * With the wait corrected, a step at the start of a line of content that
   * ends in the buffer is decided by what is buffered: more bytes behind
   * them change nothing but the buffer's tail, so there the outcome does
   * not depend on where the body was split into reads.
   */
  lemma LineStartDecided(delimiter: Bytes, p: Parse, more: Bytes)
    requires p.state == Body && p.lastWasNewline && !Waits(delimiter, p, true) && Find(p.buffer, CRLF, 0) != -1
    ensures var (q, go) := ChunkStep(delimiter, p, true);
            ChunkStep(delimiter, p.(buffer := p.buffer + more), true) == (q.(buffer := q.buffer + more), go)
  {
    ContentExtended(delimiter, p, more);
    var r := Content(delimiter, p, true);
    assert r.1 > 0;
    assert (p.buffer + more)[r.1..] == p.buffer[r.1..] + more;
  }

  /**
   * As written, the same step is not decided by what is buffered: after a
   * line of content, with "\r\n--b-" buffered the "\r\n" is taken as
   * content and the bytes after it start a new line, while one more "-"
   * makes them the last bounding line and completes the field. With the
   * wait corrected, the first buffer is too short to decide on.
   */
  lemma LineStartUndecidedAsWritten(p: Parse)
    requires p.state == Body && p.lastWasNewline && p.writePos > 0 && p.current in p.fields
    requires p.buffer == [CR, LF, DASH, DASH, 98, DASH]
    ensures var q := ChunkStep(ExampleDelimiter, p, false).0;
            q.state == Body && q.buffer == [DASH, DASH, 98, DASH]
            && Info(q, p.current).content == p.fields[p.current].content + CRLF
    ensures ChunkStep(ExampleDelimiter, p.(buffer := p.buffer + [DASH]), false).0.state == Complete
    ensures ChunkStep(ExampleDelimiter, p, true) == (p, false)
  {
    assert Find(p.buffer, CRLF, 0) == 0 by { assert p.buffer[0..2] == CRLF; }
    var e := p.(buffer := p.buffer + [DASH]);
    FindExtended(p.buffer, [DASH], CRLF);
    assert e.buffer[2..5] == ExampleDelimiter;
    assert BoundingLine(ExampleDelimiter, e.buffer, 2) == (7, true);
    var a := Append(p, CRLF);
    assert Append(a, p.buffer[..0]) == Append(p, CRLF + []) by { AppendTwice(p, CRLF, []); }
    assert CRLF + [] == CRLF;
  }
}
