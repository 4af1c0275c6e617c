/**
 * `FastCgiThreadObject`: the per-thread side of the FastCGI backend. It owns
 * the connections handed to its thread, reads whole records off each one and
 * answers them: management queries, the start, parameters, body and abort of
 * requests, and a reply for record types it does not know.
 */
module FastCgiThreadObjects {
  import opened Bytes
  import opened Numbers
  import opened ByteMaps
  import opened Devices
  import opened FastCgiRecords
  import opened FastCgiReader
  import opened FastCgiWriter
  import opened FastCgiTransports

  /** A C++ `int`. */
  type CInt = x: int | -0x8000_0000 <= x < 0x8000_0000

  /**
   * The settings of the backend the thread objects read: the custom
   * management values and the advertised connection and request limits.
   */
  class Settings {
    var config: Assoc<Bytes>
    var maxConns: CInt
    var maxRequests: CInt

    /** A `QMap` of byte arrays: sorted by key, each array shorter than 2^31 bytes. */
    predicate Valid()
      reads this
    {
      StrictlySorted(config) && PairsWritable(config)
    }

    constructor (maxConns: CInt, maxRequests: CInt)
      ensures Valid() && config == [] && this.maxConns == maxConns && this.maxRequests == maxRequests
    {
      config := [];
      this.maxConns := maxConns;
      this.maxRequests := maxRequests;
    }
  }

  /** The management variables every answer to FCGI_GET_VALUES may carry. */
  const MpxsConnsKey: Bytes := Latin1("FCGI_MPXS_CONNS")
  const MaxConnsKey: Bytes := Latin1("FCGI_MAX_CONNS")
  const MaxReqsKey: Bytes := Latin1("FCGI_MAX_REQS")

  /** `getValuesMap`: the custom values, then the three management variables inserted over them. */
  function GetValuesMap(config: Assoc<Bytes>, maxConns: int, maxRequests: int): Assoc<Bytes>
  {
    Put(Put(Put(config, MpxsConnsKey, Latin1("1")), MaxConnsKey, Decimal(maxConns)), MaxReqsKey, Decimal(maxRequests))
  }

  /** The three management variables hold the server's values; every other name keeps its custom value. */
  lemma GetValuesMapValues(config: Assoc<Bytes>, maxConns: int, maxRequests: int, q: Bytes)
    requires StrictlySorted(config)
    ensures StrictlySorted(GetValuesMap(config, maxConns, maxRequests))
    ensures Get(GetValuesMap(config, maxConns, maxRequests), q)
            == if q == MaxReqsKey then Some(Decimal(maxRequests))
               else if q == MaxConnsKey then Some(Decimal(maxConns))
               else if q == MpxsConnsKey then Some(Latin1("1"))
               else Get(config, q)
  {
    var one := Put(config, MpxsConnsKey, Latin1("1"));
    var two := Put(one, MaxConnsKey, Decimal(maxConns));
    PutSorted(config, MpxsConnsKey, Latin1("1"));
    PutSorted(one, MaxConnsKey, Decimal(maxConns));
    PutSorted(two, MaxReqsKey, Decimal(maxRequests));
    GetPut(config, MpxsConnsKey, Latin1("1"), q);
    GetPut(one, MaxConnsKey, Decimal(maxConns), q);
    GetPut(two, MaxReqsKey, Decimal(maxRequests), q);
  }

  /** The decimal text of a natural number is at most about half as long as the number is large. */
  lemma {:induction false} DigitsShort(n: nat)
    ensures |Digits(n)| <= n / 2 + 1
  {
    if n >= 10 {
      DigitsShort(n / 10);
    }
  }

  /** The decimal text of a C `int` fits a `QByteArray`. */
  lemma DecimalWritable(n: CInt)
    ensures |Decimal(n)| < 0x8000_0000
  {
    if n < 0 {
      var m: nat := -(n as int);
      DigitsShort(m);
    } else {
      DigitsShort(n);
    }
  }

  /** Everything `getValuesMap` holds can be written as name-value pairs. */
  lemma GetValuesMapWritable(config: Assoc<Bytes>, maxConns: CInt, maxRequests: CInt)
    requires PairsWritable(config)
    ensures PairsWritable(GetValuesMap(config, maxConns, maxRequests))
  {
    DecimalWritable(maxConns);
    DecimalWritable(maxRequests);
    var one := Put(config, MpxsConnsKey, Latin1("1"));
    var two := Put(one, MaxConnsKey, Decimal(maxConns));
    var m := Put(two, MaxReqsKey, Decimal(maxRequests));
    forall i | 0 <= i < |m| ensures |m[i].0| < 0x8000_0000 && |m[i].1| < 0x8000_0000 {
      assert m[i] in m;
    }
  }

  /**
   * The answer to FCGI_GET_VALUES: for each requested name, in order, the
   * server's value of it when the server knows it; unknown names are left out.
   */
  function Answer(acc: Assoc<Bytes>, request: Assoc<Bytes>, known: Assoc<Bytes>): Assoc<Bytes>
    decreases |request|
  {
    if request == [] then acc
    else
      var k := request[0].0;
      var next := if HasKey(known, k) then Put(acc, k, Get(known, k).value) else acc;
      Answer(next, request[1..], known)
  }

  /** `processGetValues` as written: each known name is answered with the value sent in the request. */
  function AnswerAsWritten(acc: Assoc<Bytes>, request: Assoc<Bytes>, known: Assoc<Bytes>): Assoc<Bytes>
    decreases |request|
  {
    if request == [] then acc
    else
      var k := request[0].0;
      var next := if HasKey(known, k) then Put(acc, k, request[0].1) else acc;
      AnswerAsWritten(next, request[1..], known)
  }

  /** A name is answered exactly when it is both requested and known, and then with the server's value. */
  lemma {:induction false} AnswerGet(acc: Assoc<Bytes>, request: Assoc<Bytes>, known: Assoc<Bytes>, q: Bytes)
    requires StrictlySorted(acc)
    ensures StrictlySorted(Answer(acc, request, known))
    ensures Get(Answer(acc, request, known), q)
            == if HasKey(request, q) && HasKey(known, q) then Get(known, q) else Get(acc, q)
    decreases |request|
  {
    if request != [] {
      var k := request[0].0;
      if HasKey(known, k) {
        PutSorted(acc, k, Get(known, k).value);
        GetPut(acc, k, Get(known, k).value, q);
      }
      var next := if HasKey(known, k) then Put(acc, k, Get(known, k).value) else acc;
      AnswerGet(next, request[1..], known, q);
    }
  }

  /** An answer made of writable pairs is writable. */
  lemma {:induction false} AnswerWritable(acc: Assoc<Bytes>, request: Assoc<Bytes>, known: Assoc<Bytes>)
    requires PairsWritable(acc) && PairsWritable(known)
    ensures PairsWritable(Answer(acc, request, known))
    decreases |request|
  {
    if request != [] {
      var k := request[0].0;
      if HasKey(known, k) {
        var r := Put(acc, k, Get(known, k).value);
        assert (k, Get(known, k).value) in known;
        forall i | 0 <= i < |r| ensures |r[i].0| < 0x8000_0000 && |r[i].1| < 0x8000_0000 {
          assert r[i] in r;
        }
        AnswerWritable(r, request[1..], known);
      } else {
        AnswerWritable(acc, request[1..], known);
      }
    }
  }

  /** The FCGI_GET_VALUES_RESULT record answering `request` from the server's settings. */
  function GetValuesReply(request: Assoc<Bytes>, config: Assoc<Bytes>, maxConns: CInt, maxRequests: CInt): Bytes
    requires PairsWritable(config)
  {
    GetValuesMapWritable(config, maxConns, maxRequests);
    AnswerWritable([], request, GetValuesMap(config, maxConns, maxRequests));
    GetValuesResultRecord(Answer([], request, GetValuesMap(config, maxConns, maxRequests)))
  }

  /**
   * A web server asking for FCGI_MAX_CONNS sends the name with an empty
   * value; the code as written echoes the empty value instead of the limit.
   */
  lemma AnswerEchoesRequest(config: Assoc<Bytes>, maxConns: int, maxRequests: int)
    requires StrictlySorted(config)
    ensures var known := GetValuesMap(config, maxConns, maxRequests);
            AnswerAsWritten([], [(MaxConnsKey, [])], known) == [(MaxConnsKey, [])]
            && Answer([], [(MaxConnsKey, [])], known) == [(MaxConnsKey, Decimal(maxConns))]
  {
    GetValuesMapValues(config, maxConns, maxRequests, MaxConnsKey);
  }

  /** The length of a whole record: header, content and padding. */
  function RecordLength(r: Record): nat
  {
    HeaderSize + r.contentLength + r.paddingLength as nat
  }

  /** A single record, header, content and padding, nothing more. */
  predicate WholeRecord(chunk: Bytes)
  {
    ReadRecord(chunk).Some? && |chunk| == RecordLength(ReadRecord(chunk).value)
  }

  /** `processRecord`'s body: the content, without the header in front and the padding behind. */
  function Content(chunk: Bytes, r: Record): (c: Bytes)
    requires |chunk| == RecordLength(r)
    ensures |c| == r.contentLength
  {
    chunk[HeaderSize..HeaderSize + r.contentLength]
  }

  /** The header of a buffer is the header of any prefix holding it. */
  lemma ReadRecordPrefix(data: Bytes, n: nat)
    requires HeaderSize <= n <= |data|
    ensures ReadRecord(data[..n]) == ReadRecord(data)
  {
    var r := ReadRecord(data).value;
    assert data == HeaderBytes(r) + data[HeaderSize..];
    assert data[..n] == HeaderBytes(r) + data[HeaderSize..n];
    ReadRecordRoundTrip(r, data[HeaderSize..]);
    ReadRecordRoundTrip(r, data[HeaderSize..n]);
  }

  /**
   * Whether the handler of a record returns true, given the request ids open
   * on the connection: a management query whose pairs are well formed; a
   * responder begin-request for an id not in use; every abort; parameters
   * for an open request whose pairs are well formed; stdin for an unknown id,
   * or non-empty stdin for an open one; every other type, which is answered
   * as unknown.
   */
  predicate Accepted(r: Record, content: Bytes, open: set<UInt16>)
  {
    if r.recordType == GetValues then ReadAll(content, 0, []).Some?
    else if r.recordType == BeginRequest then
      ReadBeginRequestBody(content).Some? && ReadBeginRequestBody(content).value.role == Responder
      && r.requestId !in open
    else if r.recordType == Params then r.requestId in open && ReadAll(content, 0, []).Some?
    else if r.recordType == StdIn then r.requestId !in open || content != []
    else true
  }

  /** The class of the device behind a connection. */
  datatype ConnType = Tcp | Pipe | OtherDevice

  /** `SocketData`: the requests running on one connection, by id, and the class of its device. */
  datatype SocketData = SocketData(kind: ConnType, transports: map<UInt16, Transport>)

  class ThreadObject {
    const settings: Settings
    /** The connections of this thread. */
    var sockets: map<Device, SocketData>
    /** `m_socketCount`. */
    var socketCount: int
    /** How often the backend's `connectionClosed` has been emitted. */
    var connectionsClosed: nat
    /** The identity the next client object gets. */
    var nextClient: nat

    /** Every transport is filed under its own connection and request id. */
    predicate Valid()
      reads this
    {
      forall s, id | s in sockets && id in sockets[s].transports ::
        sockets[s].transports[id].device == s && sockets[s].transports[id].requestId == id
    }

    /**
     * What handling the records of `socket` leaves alone: the set of
     * connections, the counters, the class of `socket` and everything filed
     * under the other connections.
     */
    twostate predicate KeepsOthers(socket: Device)
      reads this
    {
      sockets.Keys == old(sockets.Keys) && socketCount == old(socketCount)
      && connectionsClosed == old(connectionsClosed)
      && (socket in sockets ==> sockets[socket].kind == old(sockets[socket].kind))
      && forall s | s in sockets && s != socket :: sockets[s] == old(sockets[s])
    }

    /** The request ids open on a connection. */
    function OpenRequests(socket: Device): set<UInt16>
      reads this
    {
      if socket in sockets then sockets[socket].transports.Keys else {}
    }

    /** The transports of a connection. */
    function TransportsOf(socket: Device): set<Transport>
      reads this
    {
      if socket in sockets then sockets[socket].transports.Values else {}
    }

    /** `getTransport`. */
    function GetTransport(socket: Device, id: UInt16): (t: Option<Transport>)
      reads this
      ensures t.Some? <==> id in OpenRequests(socket)
      ensures t.Some? ==> t.value in TransportsOf(socket)
    {
      if socket in sockets && id in sockets[socket].transports then Some(sockets[socket].transports[id]) else None
    }

    constructor (settings: Settings)
      ensures this.settings == settings && sockets == map[] && socketCount == 0 && connectionsClosed == 0
      ensures Valid()
    {
      this.settings := settings;
      sockets := map[];
      socketCount := 0;
      connectionsClosed := 0;
      nextClient := 0;
    }

    /** `connectionCount`. */
    function ConnectionCount(): int
      reads this
    {
      socketCount
    }

    /** `addDeviceInternal`: files the connection with no requests and handles what it already holds. */
    method AddDeviceInternal(device: Device, kind: ConnType) returns (ghost consumed: seq<Bytes>)
      requires Valid() && settings.Valid()
      modifies this, device
      ensures Valid() && device in sockets && sockets[device].kind == kind
      ensures sockets.Keys == old(sockets.Keys) + {device}
      ensures socketCount == old(socketCount) && connectionsClosed == old(connectionsClosed)
      ensures old(device.available) == Flatten(consumed) + device.available
      ensures forall c | c in consumed :: WholeRecord(c)
      ensures old(device.available) == [] ==>
                sockets == old(sockets)[device := SocketData(kind, map[])] && device.written == old(device.written)
    {
      sockets := sockets[device := SocketData(kind, map[])];
      consumed := ProcessFcgiData(device);
    }

    /**
     * `addSocket`: wraps the handle in a new socket of the given class,
     * counting it when asked to, and adds it.
     */
    method AddSocket(kind: ConnType, increase: bool) returns (socket: Device)
      requires Valid() && settings.Valid()
      modifies this
      ensures fresh(socket) && socket.available == [] && socket.written == []
      ensures Valid() && sockets == old(sockets)[socket := SocketData(kind, map[])]
      ensures socketCount == old(socketCount) + (if increase then 1 else 0)
      ensures connectionsClosed == old(connectionsClosed)
    {
      if increase {
        socketCount := socketCount + 1;
      }
      socket := new Device();
      var consumed := AddDeviceInternal(socket, kind);
    }

    /**
     * `addSocketLater`: counts the connection at once, so that the next one
     * is balanced against it, and adds it without counting it again.
     */
    method AddSocketLater(kind: ConnType) returns (socket: Device)
      requires Valid() && settings.Valid()
      modifies this
      ensures fresh(socket)
      ensures Valid() && sockets == old(sockets)[socket := SocketData(kind, map[])]
      ensures socketCount == old(socketCount) + 1
      ensures connectionsClosed == old(connectionsClosed)
    {
      socketCount := socketCount + 1;
      socket := AddSocket(kind, false);
    }

    /** `transportDestroyed`: forgets the request of a transport being destroyed. */
    method TransportDestroyed(t: Transport)
      requires Valid()
      modifies this
      ensures Valid()
      ensures t.device in old(sockets) ==> sockets == old(sockets)[t.device :=
                SocketData(old(sockets[t.device].kind), old(sockets[t.device].transports) - {t.requestId})]
      ensures t.device !in old(sockets) ==> sockets == old(sockets)
      ensures socketCount == old(socketCount) && connectionsClosed == old(connectionsClosed)
    {
      if t.device in sockets {
        var data := sockets[t.device];
        sockets := sockets[t.device := SocketData(data.kind, data.transports - {t.requestId})];
      }
    }

    /**
     * `connectionLost` as written: only a TCP socket is recognised as the
     * sender; the connection's requests are dropped and `connectionClosed`
     * emitted, and the connection count stays as it was.
     */
    method ConnectionLostAsWritten(socket: Device, kind: ConnType)
      requires Valid()
      modifies this
      ensures Valid()
      ensures kind != Tcp ==> sockets == old(sockets) && connectionsClosed == old(connectionsClosed)
      ensures kind == Tcp ==> sockets == old(sockets) - {socket} && connectionsClosed == old(connectionsClosed) + 1
      ensures socketCount == old(socketCount)
    {
      if kind != Tcp {
        return;
      }
      sockets := sockets - {socket};
      connectionsClosed := connectionsClosed + 1;
    }

    /**
     * `connectionLost` as intended: any connection of the thread is dropped
     * with its requests, and it no longer counts towards the thread's load.
     */
    method ConnectionLost(socket: Device)
      requires Valid()
      modifies this
      ensures Valid()
      ensures sockets == old(sockets) - {socket} && connectionsClosed == old(connectionsClosed) + 1
      ensures socketCount == old(socketCount) - (if socket in old(sockets) then 1 else 0)
    {
      if socket in sockets {
        socketCount := socketCount - 1;
      }
      sockets := sockets - {socket};
      connectionsClosed := connectionsClosed + 1;
    }

    /** `processData` as written: only a TCP socket is recognised as the sender, so a pipe's data is left unread. */
    method ProcessDataAsWritten(socket: Device, kind: ConnType) returns (ghost consumed: seq<Bytes>)
      requires Valid() && settings.Valid()
      modifies this, socket, TransportsOf(socket)
      ensures Valid()
      ensures kind != Tcp ==> consumed == [] && unchanged(this, socket)
      ensures old(socket.available) == Flatten(consumed) + socket.available
      ensures forall c | c in consumed :: WholeRecord(c)
    {
      if kind != Tcp {
        return [];
      }
      consumed := ProcessFcgiData(socket);
    }

    /** `processData` as intended: the records of any connection are handled. */
    method ProcessData(socket: Device) returns (ghost consumed: seq<Bytes>)
      requires Valid() && settings.Valid()
      modifies this, socket, TransportsOf(socket)
      ensures Valid()
      ensures old(socket.available) == Flatten(consumed) + socket.available
      ensures forall c | c in consumed :: WholeRecord(c)
    {
      consumed := ProcessFcgiData(socket);
    }

    /**
     * `processFcgiData`: handles whole records one after the other until too
     * little is left for the next one or a handler refuses its record; what
     * was taken off the connection is a run of whole records.
     */
    method ProcessFcgiData(socket: Device) returns (ghost consumed: seq<Bytes>)
      requires Valid() && settings.Valid()
      modifies this, socket, TransportsOf(socket)
      ensures Valid()
      ensures old(socket.available) == Flatten(consumed) + socket.available
      ensures forall c | c in consumed :: WholeRecord(c)
      ensures socket.closed == old(socket.closed) && KeepsOthers(socket)
      ensures old(socket.available) == [] ==> consumed == [] && unchanged(this, socket)
    {
      consumed := [];
      while true
        invariant Valid()
        invariant old(socket.available) == Flatten(consumed) + socket.available
        invariant forall c | c in consumed :: WholeRecord(c)
        invariant socket.closed == old(socket.closed) && KeepsOthers(socket)
        invariant forall t | t in TransportsOf(socket) :: t in old(TransportsOf(socket)) || fresh(t)
        invariant old(socket.available) == [] ==> consumed == [] && unchanged(this, socket)
        decreases |socket.available|
      {
        var header := ReadRecord(socket.available);
        if header.None? {
          return;
        }
        ghost var before := socket.available;
        var ok, chunk := ProcessRecord(socket, header.value);
        if chunk != [] {
          ReadRecordPrefix(before, |chunk|);
          FlattenSnoc(consumed, chunk);
          AppendAssoc(Flatten(consumed), chunk, socket.available);
          consumed := consumed + [chunk];
        }
        if !ok {
          return;
        }
      }
    }

    /**
     * `processRecord`: when the whole record is there, takes it off the
     * connection and hands its content to the handler for its type; when it
     * is not, leaves everything as it is and reports false.
     */
    method ProcessRecord(socket: Device, r: Record) returns (ok: bool, ghost chunk: Bytes)
      requires Valid() && settings.Valid()
      modifies this, socket, TransportsOf(socket)
      ensures Valid()
      ensures chunk + socket.available == old(socket.available)
      ensures |old(socket.available)| < RecordLength(r) ==> !ok && chunk == [] && unchanged(this, socket)
      ensures |old(socket.available)| >= RecordLength(r) ==>
                |chunk| == RecordLength(r) && ok == Accepted(r, Content(chunk, r), old(OpenRequests(socket)))
      ensures socket.closed == old(socket.closed) && KeepsOthers(socket)
      ensures forall t | t in TransportsOf(socket) :: t in old(TransportsOf(socket)) || fresh(t)
    {
      var expected := RecordLength(r);
      if |socket.available| < expected {
        return false, [];
      }
      var data := socket.Read(expected);
      chunk := data;
      var body := data[HeaderSize..HeaderSize + r.contentLength];
      ok := ProcessCompleteRecord(socket, r, body);
    }

    /** `processCompleteRecord`: dispatches on the record type. */
    method ProcessCompleteRecord(socket: Device, r: Record, body: Bytes) returns (ok: bool)
      requires Valid() && settings.Valid()
      modifies this, socket, TransportsOf(socket)
      ensures Valid() && ok == Accepted(r, body, old(OpenRequests(socket)))
      ensures socket.available == old(socket.available) && socket.closed == old(socket.closed)
      ensures KeepsOthers(socket)
      ensures forall t | t in TransportsOf(socket) :: t in old(TransportsOf(socket)) || fresh(t)
    {
      if r.recordType == GetValues {
        ok := ProcessGetValues(socket, body);
      } else if r.recordType == BeginRequest {
        ok := ProcessBeginRequest(socket, r, body);
      } else if r.recordType == AbortRequest {
        ok := ProcessAbortRequest(socket, r);
      } else if r.recordType == Params {
        ok := ProcessParams(socket, r, body);
      } else if r.recordType == StdIn {
        ok := ProcessStdIn(socket, r, body);
      } else {
        ok := ProcessUnknownType(socket, r.recordType);
      }
    }

    /** `processUnknownType`: answers with an FCGI_UNKNOWN_TYPE record. */
    method ProcessUnknownType(socket: Device, recordType: byte) returns (ok: bool)
      modifies socket
      ensures ok
      ensures socket.written == old(socket.written) + UnknownTypeRecord(recordType)
      ensures socket.available == old(socket.available) && socket.closed == old(socket.closed)
    {
      WriteUnknownTypeResult(socket, recordType);
      ok := true;
    }

    /**
     * `processGetValues`: refuses malformed pairs; otherwise answers every
     * requested variable the server knows with the server's value.
     */
    method ProcessGetValues(socket: Device, body: Bytes) returns (ok: bool)
      requires settings.Valid()
      modifies socket
      ensures ok <==> ReadAll(body, 0, []).Some?
      ensures ok ==> socket.written == old(socket.written)
                       + GetValuesReply(ReadAll(body, 0, []).value, settings.config, settings.maxConns, settings.maxRequests)
      ensures !ok ==> socket.written == old(socket.written)
      ensures socket.available == old(socket.available) && socket.closed == old(socket.closed)
    {
      var values;
      ok, values := ReadAllNameValuePairs(body, []);
      if !ok {
        return;
      }
      var known := GetValuesMap(settings.config, settings.maxConns, settings.maxRequests);
      var response := [];
      var i := 0;
      while i < |values|
        invariant i <= |values|
        invariant Answer(response, values[i..], known) == Answer([], values, known)
      {
        assert values[i..][1..] == values[i + 1..];
        if HasKey(known, values[i].0) {
          response := Put(response, values[i].0, Get(known, values[i].0).value);
        }
        i := i + 1;
      }
      assert values[i..] == [];
      GetValuesMapWritable(settings.config, settings.maxConns, settings.maxRequests);
      AnswerWritable([], values, known);
      WriteGetValuesResult(socket, response);
    }

    /**
     * `processBeginRequest`: accepts a well-formed responder request whose id
     * is not in use, files a new transport for it, and lets the transport own
     * the connection unless the web server asked to keep it open.
     */
    method ProcessBeginRequest(socket: Device, r: Record, body: Bytes) returns (ok: bool)
      requires Valid()
      modifies this
      ensures Valid()
      ensures ok == (ReadBeginRequestBody(body).Some? && ReadBeginRequestBody(body).value.role == Responder
                     && r.requestId !in old(OpenRequests(socket)))
      ensures ok && socket in old(sockets) ==>
                socket in sockets && r.requestId in sockets[socket].transports
                && var t := sockets[socket].transports[r.requestId];
                   fresh(t) && t.headers == [] && t.started == None && t.forwarded == [] && !t.deleted
                   && t.ownsDevice == (ReadBeginRequestBody(body).value.flags % 2 == 0)
                   && sockets == old(sockets)[socket := SocketData(old(sockets[socket].kind),
                                                                   old(sockets[socket].transports)[r.requestId := t])]
      ensures !ok || socket !in old(sockets) ==> sockets == old(sockets)
      ensures KeepsOthers(socket)
    {
      var data := ReadBeginRequestBody(body);
      if data.None? {
        return false;
      }
      if data.value.role != Responder || GetTransport(socket, r.requestId).Some? {
        return false;
      }
      var t := new Transport(r.requestId, socket, nextClient);
      nextClient := nextClient + 1;
      if data.value.flags % 2 == 0 {
        t.ownsDevice := true;
      }
      if socket in sockets {
        var entry := sockets[socket];
        sockets := sockets[socket := SocketData(entry.kind, entry.transports[r.requestId := t])];
      }
      ok := true;
    }

    /** `processAbortRequest`: aborts the request when it is open; an unknown id is ignored. */
    method ProcessAbortRequest(socket: Device, r: Record) returns (ok: bool)
      requires Valid()
      modifies socket, TransportsOf(socket)
      ensures ok
      ensures r.requestId !in OpenRequests(socket) ==> unchanged(socket) && unchanged(TransportsOf(socket))
      ensures r.requestId in OpenRequests(socket) ==>
                var t := sockets[socket].transports[r.requestId];
                t.deleted && socket.written == old(socket.written) + StreamMessage(StdOut, r.requestId, [])
                                               + EndRequestRecord(r.requestId, 0, RequestComplete)
                && t.headers == old(t.headers) && t.started == old(t.started) && t.forwarded == old(t.forwarded)
      ensures socket.available == old(socket.available) && socket.closed == old(socket.closed)
    {
      var t := GetTransport(socket, r.requestId);
      if t.None? {
        return true;
      }
      t.value.Abort();
      ok := true;
    }

    /**
     * `processParams`: refuses parameters for an unknown id or with malformed
     * pairs; otherwise hands them to the request's transport.
     */
    method ProcessParams(socket: Device, r: Record, body: Bytes) returns (ok: bool)
      requires Valid()
      modifies TransportsOf(socket)
      ensures ok <==> r.requestId in OpenRequests(socket) && ReadAll(body, 0, []).Some?
      ensures !ok ==> unchanged(TransportsOf(socket))
      ensures ok ==>
                var t := sockets[socket].transports[r.requestId];
                var params := ReadAll(body, 0, []).value;
                (params != [] ==> t.headers == Unite(old(t.headers), params) && t.started == old(t.started))
                && (params == [] ==> t.headers == [] && t.started == Some(StartOf(old(t.headers))))
                && t.forwarded == old(t.forwarded) && t.deleted == old(t.deleted)
    {
      var t := GetTransport(socket, r.requestId);
      if t.None? {
        return false;
      }
      var values;
      ok, values := ReadAllNameValuePairs(body, []);
      if !ok {
        return;
      }
      t.value.AddFastCgiParams(values);
    }

    /**
     * `processStdIn`: data for an unknown id is ignored; empty data for an
     * open request is refused; anything else goes to the request's transport.
     */
    method ProcessStdIn(socket: Device, r: Record, body: Bytes) returns (ok: bool)
      requires Valid()
      modifies TransportsOf(socket)
      ensures ok <==> r.requestId !in OpenRequests(socket) || body != []
      ensures r.requestId !in OpenRequests(socket) || body == [] ==> unchanged(TransportsOf(socket))
      ensures r.requestId in OpenRequests(socket) && body != [] ==>
                var t := sockets[socket].transports[r.requestId];
                t.forwarded == old(t.forwarded) + [body] && t.headers == old(t.headers)
                && t.started == old(t.started) && t.deleted == old(t.deleted)
    {
      var t := GetTransport(socket, r.requestId);
      if t.None? || body == [] {
        return t.None?;
      }
      t.value.ForwardBodyData(body);
      ok := true;
    }
  }
}
