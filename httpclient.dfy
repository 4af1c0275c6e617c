/**
 * `HttpClient`: one connection's request and response. It reads the request
 * header line by line from the transport, validates the request, accepts the
 * POST body up to its declared length, and keeps the response header, which
 * can be changed until it has been sent and is sent at most once.
 */
module HttpClients {
  import opened Bytes
  import opened Numbers
  import opened HeaderMaps
  import opened HttpTypes
  import opened HttpParser
  import opened HttpWriter
  import opened Devices

  const SLASH: byte := 47
  const QUESTION: byte := 63
  const HASH: byte := 35

  /** The largest POST body accepted when no slot says otherwise: 4 MiB. */
  const DefaultMaxBodyLength: int := 1024 * 1024 * 4

  /** The longest line `readLine` hands out is one byte less than this. */
  const MaxLine: nat := 1024

  function HostKey(): (r: Bytes)
    ensures r == HeaderName(HeaderHost)
  {
    Latin1("Host")
  }

  function ExpectKey(): (r: Bytes)
    ensures r == HeaderName(HeaderExpect)
  {
    Latin1("Expect")
  }

  function ContentTypeKey(): (r: Bytes)
    ensures r == HeaderName(HeaderContentType)
  {
    Latin1("Content-Type")
  }

  function RangeRequestKey(): (r: Bytes)
    ensures r == HeaderName(HeaderRange)
  {
    Latin1("Range")
  }

  /** `requestHasPostBody`: only POST and PUT carry a body. */
  predicate HasPostBody(verb: HttpVerb)
  {
    verb == POST || verb == PUT
  }

  // ---------------------------------------------------------------------------
  // Values read from the request

  /** `parseIntegerHeaderValue`: the number the value spells, or -1 when it is empty or not a number. */
  function ParseIntegerHeaderValue(value: Bytes): (r: int)
    ensures value == [] || ParseInt(value).None? ==> r == -1
    ensures r != -1 ==> ParseInt(value) == Some(r)
  {
    if value == [] then -1
    else match ParseInt(value)
      case None => -1
      case Some(v) => v
  }

  /** A length written in decimal reads back as itself. */
  lemma IntegerHeaderValueRoundTrip(n: int)
    requires 0 <= n <= MaxInt64
    ensures ParseIntegerHeaderValue(Decimal(n)) == n
  {
    DecimalRoundTrip(n);
  }

  /** The first position from `from` on holding one of `bs`, or the end. */
  function IndexOfAny(data: Bytes, bs: set<byte>, from: nat): (r: nat)
    requires from <= |data|
    decreases |data| - from
    ensures from <= r <= |data|
    ensures r < |data| ==> data[r] in bs
    ensures forall j :: from <= j < r ==> data[j] !in bs
  {
    if from == |data| || data[from] in bs then from else IndexOfAny(data, bs, from + 1)
  }

  /** The search stops at the first position holding one of `bs`. */
  lemma {:induction false} IndexOfAnyFinds(data: Bytes, bs: set<byte>, from: nat, k: nat)
    requires from <= k < |data| && data[k] in bs
    requires forall j :: from <= j < k ==> data[j] !in bs
    decreases k - from
    ensures IndexOfAny(data, bs, from) == k
  {
    if from < k {
      IndexOfAnyFinds(data, bs, from + 1, k);
    }
  }

  /**
   * The path of the URL "http://localhost" ++ target, as `QUrl` splits it:
   * the authority runs to the first '/', '?' or '#', and the path from there
   * to the first '?' or '#'.
   */
  function UrlPath(target: Bytes): (r: Bytes)
    ensures r == [] || r[0] == SLASH
    ensures QUESTION !in r && HASH !in r
  {
    var start := IndexOfAny(target, {SLASH, QUESTION, HASH}, 0);
    if start == |target| || target[start] != SLASH then []
    else
      var end := IndexOfAny(target, {QUESTION, HASH}, start);
      assert forall j :: 0 <= j < end - start ==> target[start..end][j] == target[start + j];
      target[start..end]
  }

  /** An absolute path without query or fragment is the URL's path as it stands. */
  lemma UrlPathOfAbsolute(target: Bytes)
    requires target != [] && target[0] == SLASH
    requires QUESTION !in target && HASH !in target
    ensures UrlPath(target) == target
  {
    assert IndexOfAny(target, {SLASH, QUESTION, HASH}, 0) == 0;
    assert IndexOfAny(target, {QUESTION, HASH}, 0) == |target|;
  }

  /** A query string is not part of the path. */
  lemma UrlPathDropsQuery(path: Bytes, query: Bytes)
    requires path != [] && path[0] == SLASH
    requires QUESTION !in path && HASH !in path
    ensures UrlPath(path + [QUESTION] + query) == path
  {
    var t := path + [QUESTION] + query;
    assert t[0] == SLASH;
    assert IndexOfAny(t, {SLASH, QUESTION, HASH}, 0) == 0;
    assert forall j :: 0 <= j < |path| ==> t[j] == path[j];
    IndexOfAnyFinds(t, {QUESTION, HASH}, 0, |path|);
    assert t[0..|path|] == path;
  }

  /** `toLongLong` without a check: the number, or 0 when the text is not one. */
  function LongLong(data: Bytes): int
  {
    match ParseInt(data)
    case None => 0
    case Some(v) => v
  }

  /**
   * What `parseRangeHeaderValue` stores into the begin and end it is given:
   * nothing unless the text has the shape "bytes=<a>-<b>" with both parts
   * non-empty, and then both numbers as read, also when it goes on to refuse
   * them.
   */
  function RangeStored(value: Bytes): Option<(int, int)>
  {
    if !StartsWith(value, Latin1("bytes=")) then None
    else
      var endOfBegin := IndexOf(value, DASH, 6);
      if endOfBegin == -1 || endOfBegin - 6 < 1 || |value| - (endOfBegin + 1) < 1 then None
      else Some((LongLong(value[6..endOfBegin]), LongLong(value[endOfBegin + 1..])))
  }

  /** An accepted range is stored as it is accepted. */
  lemma AcceptedRangeIsStored(value: Bytes)
    requires ParseRange(value).Some?
    ensures RangeStored(value) == ParseRange(value)
  {
  }

  /** "bytes=5-3": a refused range whose numbers are stored all the same. */
  const BackwardsRange: Bytes := Latin1("bytes=5-3")

  /**
   * A refused range is still stored, and a response header written after the
   * refusal (the 400 that follows) then announces a `Content-Range` and a
   * `Content-Length` of -2.
   */
  lemma RefusedRangeIsStored()
    ensures ParseRange(BackwardsRange).None?
    ensures RangeStored(BackwardsRange) == Some((5, 3))
    ensures RangeValues(5, 3, -1).1 == Some(Decimal(-2))
  {
    var v := BackwardsRange;
    assert StartsWith(v, Latin1("bytes="));
    assert v[6] == 53 && v[7] == DASH && v[8] == 51;
    assert IndexOf(v, DASH, 6) == 7;
    assert v[6..7] == Decimal(5) && v[8..] == Decimal(3);
    DecimalRoundTrip(5);
    DecimalRoundTrip(3);
  }

  /** The request line gave a known version, a valid verb and a non-empty path. */
  predicate FirstLineValid(version: HttpVersion, verb: HttpVerb, path: Bytes)
  {
    version != HttpUnknown && verb != InvalidVerb && path != []
  }

  /** `isReceivedHeaderHttp11Compliant`: an HTTP/1.1 request names its host (section 5.4 of RFC 7230). */
  predicate Http11Compliant(version: HttpVersion, headers: HeaderMap)
  {
    version != Http1_1 || ContainsKey(headers, HostKey())
  }

  /** `verifyPostRequestCompliance`: a POST or PUT request declares its length. */
  predicate PostCompliant(verb: HttpVerb, headers: HeaderMap)
  {
    !HasPostBody(verb) || ContainsKey(headers, LengthKey())
  }

  /** The body limit: the slot's when a slot is known, 4 MiB otherwise. */
  function MaxContentLength(slot: SlotInfo): int
  {
    if slot.IsValid() then slot.maxBodyLength else DefaultMaxBodyLength
  }

  /** "100-continue". */
  const Continue100: Bytes := Latin1("100-continue")

  /** The interim response `send100ContinueIfClientExpectsIt` writes. */
  function ContinueResponse(): (r: Bytes)
    ensures r == ResponseLine(Http1_1, 100, []) + CRLF
  {
    ResponseLine(Http1_1, 100, []) + CRLF
  }

  /** `contentTypeIsMultipart`. */
  predicate ContentTypeIsMultipart(value: Bytes)
  {
    StartsWith(value, Latin1("multipart/form-data;"))
  }

  const BoundaryKey: Bytes := Latin1("boundary=")

  /**
   * `createHttpMultiPartReader`: the boundary is everything after the first
   * "boundary="; there is no reader without one or with an empty boundary.
   */
  function MultipartBoundary(header: Bytes): (r: Option<Bytes>)
    ensures r.Some? ==> r.value != [] && Find(header, BoundaryKey, 0) != -1
    ensures r.Some? ==> header == header[..Find(header, BoundaryKey, 0)] + BoundaryKey + r.value
    ensures Find(header, BoundaryKey, 0) == -1 ==> r.None?
  {
    var idx := Find(header, BoundaryKey, 0);
    if idx == -1 then None
    else
      var boundary := header[idx + |BoundaryKey|..];
      assert header == header[..idx] + header[idx..idx + |BoundaryKey|] + boundary;
      if boundary == [] then None else Some(boundary)
  }

  /** "multipart/form-data; ". */
  const MultipartPrefix: Bytes := Latin1("multipart/form-data; ")

  /** The header a form sends names a multipart body and its boundary reads back. */
  lemma MultipartHeaderRead(boundary: Bytes)
    requires boundary != []
    ensures ContentTypeIsMultipart(MultipartPrefix + BoundaryKey + boundary)
    ensures MultipartBoundary(MultipartPrefix + BoundaryKey + boundary) == Some(boundary)
  {
    var h := MultipartPrefix + BoundaryKey + boundary;
    assert h[..20] == Latin1("multipart/form-data;");
    assert h[21..30] == BoundaryKey;
    assert OccursAt(h, BoundaryKey, 21);
    forall j | 0 <= j < 21 ensures !OccursAt(h, BoundaryKey, j) {
      assert h[j] == MultipartPrefix[j];
      if j + 9 <= 21 {
        assert h[j..j + 9] == MultipartPrefix[j..j + 9];
        assert MultipartPrefix[j..j + 9] != BoundaryKey by {
          assert BoundaryKey[0] == 98;
          if MultipartPrefix[j] == 98 { assert false; }
        }
      } else {
        assert h[j] != 98 || j == 21;
        assert h[j..j + 9][0] == h[j];
      }
    }
    assert Find(h, BoundaryKey, 0) == 21;
    assert h[30..] == boundary;
  }

  /**
   * The header map `sendResponseHeader` writes: the range and length headers
   * added where absent, then the `Date` an HTTP/1.1 response needs.
   */
  method CompleteResponseHeaders(version: HttpVersion, now: DateTime, begin: int, end: int, total: int,
                                 headers: HeaderMap) returns (r: HeaderMap)
    requires ValidDateTime(now)
    ensures Values(r, LengthKey()) == AddedIfAbsent(headers, LengthKey(), RangeValues(begin, end, total).1)
    ensures Values(r, RangeKey()) == AddedIfAbsent(headers, RangeKey(), RangeValues(begin, end, total).0)
    ensures version == Http1_1 ==> ContainsKey(r, DateKey())
    ensures forall q :: q != RangeKey() && q != LengthKey() && q != DateKey() ==> Values(r, q) == Values(headers, q)
  {
    var ranged := ApplyRangeHeaders(begin, end, total, headers);
    r := AddComplianceHeaders(version, now, ranged);
    assert DateKey() != LengthKey() && DateKey() != RangeKey() by {
      assert |DateKey()| == 4;
    }
  }

  /** The error text `killConnection` writes: the cause, or the code's reason phrase. */
  function ErrorText(error: int, cause: Bytes): (r: Bytes)
    ensures cause != [] ==> r == cause
    ensures cause == [] ==> r == StatusCodeName(error)
  {
    if cause == [] then StatusCodeName(error) else cause
  }

  /** `readRangeRequestHeader` succeeds: no `Range` header, or one `parseRangeHeaderValue` accepts. */
  predicate RangeAcceptable(headers: HeaderMap)
  {
    !ContainsKey(headers, RangeRequestKey()) || ParseRange(Value(headers, RangeRequestKey())).Some?
  }

  /** What `verifyCompleteHeader` demands of the request before looking at the open mode. */
  predicate HeaderValid(version: HttpVersion, verb: HttpVerb, path: Bytes, headers: HeaderMap)
  {
    FirstLineValid(version, verb, path) && RangeAcceptable(headers)
    && Http11Compliant(version, headers) && PostCompliant(verb, headers)
  }

  /** The declared body length `readPostBodyContentLength` reads. */
  function DeclaredLength(headers: HeaderMap): int
  {
    ParseIntegerHeaderValue(Value(headers, LengthKey()))
  }

  /** `readPostBodyContentLength` succeeds: no body, or a declared length within the limit. */
  predicate LengthAcceptable(verb: HttpVerb, headers: HeaderMap, slot: SlotInfo)
  {
    !HasPostBody(verb) || 0 <= DeclaredLength(headers) <= MaxContentLength(slot)
  }

  /** `send100ContinueIfClientExpectsIt` writes the interim response. */
  predicate ContinueExpected(verb: HttpVerb, headerSent: bool, headers: HeaderMap)
  {
    HasPostBody(verb) && !headerSent && Value(headers, ExpectKey()) != []
    && ToLower(Value(headers, ExpectKey())) == Continue100
  }

  /** `send100ContinueIfClientExpectsIt` succeeds: nothing is expected, or exactly "100-continue". */
  predicate ExpectAcceptable(verb: HttpVerb, headerSent: bool, headers: HeaderMap)
  {
    !HasPostBody(verb) || headerSent || Value(headers, ExpectKey()) == []
    || ToLower(Value(headers, ExpectKey())) == Continue100
  }

  /** Only "100-continue", in any letter case, is accepted as an expectation. */
  lemma ExpectOnlyContinue(verb: HttpVerb, headers: HeaderMap)
    requires HasPostBody(verb) && Value(headers, ExpectKey()) != []
    ensures ExpectAcceptable(verb, false, headers) <==> ContinueExpected(verb, false, headers)
    ensures ExpectAcceptable(verb, false, headers) <==> EqualsIgnoringCase(Value(headers, ExpectKey()), Continue100)
  {
    assert ToLower(Continue100) == Continue100;
  }

  /**
   * The response header `sendResponseHeader` writes: the status line, the
   * headers, one `Set-Cookie` line per cookie, and the blank line.
   */
  function ResponseHead(version: HttpVersion, code: int, name: Bytes, headers: HeaderMap,
                        cookies: Cookies, nowMs: int): Bytes
  {
    ResponseLine(version, code, name) + HeadersText(headers) + HeadersText(CookieEntries(cookies, nowMs)) + CRLF
  }

  /** The path text `parseFirstLine` hands back: between the first two spaces, or nothing. */
  function RawPath(line: Bytes): (r: Bytes)
    ensures ParseFirstLine(line).Some? ==> r == ParseFirstLine(line).value.path
  {
    var endOfVerb := IndexOf(line, SP, 0);
    if endOfVerb == -1 then []
    else
      var endOfPath := IndexOf(line, SP, endOfVerb + 1);
      if endOfPath == -1 then [] else line[endOfVerb + 1..endOfPath]
  }

  /**
   * Everything `postProcessRequestHeader` checks before routing: no body
   * bytes on a request without one, a valid header, an open client, an
   * acceptable length and expectation.
   */
  predicate RequestAcceptable(version: HttpVersion, verb: HttpVerb, path: Bytes, headers: HeaderMap,
                              slot: SlotInfo, pending: Bytes, open: bool, headerSent: bool)
  {
    (HasPostBody(verb) || pending == []) && HeaderValid(version, verb, path, headers) && open
    && LengthAcceptable(verb, headers, slot) && ExpectAcceptable(verb, headerSent, headers)
  }

  /** Whether `readAllAvailableHeaderLines` goes on after a line, or returns what. */
  datatype LineOutcome = MoreLines | Finished(ok: bool)

  /** What a client announces besides its bytes. */
  datatype Event = PostBodyComplete | SlotCalled | ReadyRead

  /** The `postBodyComplete` that `bufferPostBody` announces when the length is reached exactly. */
  function Completion(length: int, transferred: int, ok: bool): seq<Event>
  {
    if ok && transferred == length then [PostBodyComplete] else []
  }

  /** What `receivedData` announces after buffering: the slot call of a complete body, or `readyRead`. */
  function AfterBody(length: int, transferred: int, slot: SlotInfo): seq<Event>
  {
    if !(slot.IsValid() && slot.streamPostBody) && length == transferred
    then (if slot.IsValid() then [SlotCalled] else [])
    else [ReadyRead]
  }

  /**
   * The announcements of a body that arrives in pieces, each handed to
   * `bufferPostBody` in turn, until one is refused.
   */
  function Feed(length: int, transferred: int, pieces: seq<nat>): seq<Event>
    decreases |pieces|
  {
    if pieces == [] then []
    else
      var t := transferred + pieces[0];
      if t > length then [] else Completion(length, t, true) + Feed(length, t, pieces[1..])
  }

  function Sum(pieces: seq<nat>): nat
  {
    if pieces == [] then 0 else pieces[0] + Sum(pieces[1..])
  }

  /** Once the body is complete, any further byte is refused. */
  lemma CompleteBodyTakesNoMore(length: int, pieces: seq<nat>)
    requires pieces != [] && pieces[0] > 0
    ensures Feed(length, length, pieces) == []
  {
  }

  /** Pieces that are never empty announce `postBodyComplete` at most once. */
  lemma {:induction false} CompletesAtMostOnce(length: int, transferred: int, pieces: seq<nat>)
    requires forall i :: 0 <= i < |pieces| ==> pieces[i] > 0
    ensures |Feed(length, transferred, pieces)| <= 1
    decreases |pieces|
  {
    if pieces != [] {
      var t := transferred + pieces[0];
      if t < length {
        CompletesAtMostOnce(length, t, pieces[1..]);
      } else if t == length && pieces[1..] != [] {
        CompleteBodyTakesNoMore(length, pieces[1..]);
      }
    }
  }

  /** A body delivered in non-empty pieces up to exactly its declared length is announced complete once. */
  lemma {:induction false} ExactBodyCompletes(length: int, transferred: int, pieces: seq<nat>)
    requires forall i :: 0 <= i < |pieces| ==> pieces[i] > 0
    requires pieces != [] && transferred + Sum(pieces) == length
    ensures Feed(length, transferred, pieces) == [PostBodyComplete]
    decreases |pieces|
  {
    var t := transferred + pieces[0];
    if pieces[1..] != [] {
      assert pieces[1..][0] == pieces[1];
      ExactBodyCompletes(length, t, pieces[1..]);
    }
  }

  /** The request half of `HttpClientPrivate`, filled while the request header is read. */
  class RequestState {
    var headerReady: bool
    var version: HttpVersion
    var verb: HttpVerb
    /** The path of the request URL. */
    var path: Bytes
    var headers: HeaderMap
    /** The declared POST body length, -1 until it is read. */
    var postBodyLength: int
    var postBodyTransferred: int
    var slotInfo: SlotInfo
    var keepConnectionOpen: bool
    /** Set when the client was told to continue with its body. */
    var chunkedBodyTransfer: bool

    /** Nothing read: unknown version, invalid verb, no headers, no body yet, no slot. */
    constructor ()
      ensures !headerReady && version == HttpUnknown && verb == InvalidVerb && path == [] && headers == []
      ensures postBodyLength == -1 && postBodyTransferred == 0 && !slotInfo.IsValid()
      ensures !keepConnectionOpen && !chunkedBodyTransfer
    {
      headerReady := false;
      version := HttpUnknown;
      verb := InvalidVerb;
      path := [];
      headers := [];
      postBodyLength := -1;
      postBodyTransferred := 0;
      slotInfo := NewSlotInfo(NoCallback);
      keepConnectionOpen := false;
      chunkedBodyTransfer := false;
    }
  }

  /** The response half of `HttpClientPrivate`: what the response header will say. */
  class ResponseState {
    var headerSent: bool
    var headers: HeaderMap
    var cookies: Cookies
    var code: int
    var name: Bytes
    var rangeStart: int
    var rangeEnd: int
    var contentLength: int

    /** Status 200, no range or length, and the header "Connection: Close". */
    constructor ()
      ensures !headerSent && Values(headers, ConnectionKey()) == [Latin1("Close")] && |headers| == 1
      ensures cookies == [] && code == 200 && name == []
      ensures rangeStart == -1 && rangeEnd == -1 && contentLength == -1
    {
      headerSent := false;
      headers := Insert([], ConnectionKey(), Latin1("Close"));
      cookies := [];
      code := 200;
      name := [];
      rangeStart := -1;
      rangeEnd := -1;
      contentLength := -1;
      new;
      InsertOnly([], ConnectionKey(), Latin1("Close"));
    }
  }

  /** `HttpClient`: its two halves of state and the devices it talks through. */
  class Client {
    /** The connection: bytes from the peer wait in `available`, the response goes to `written`. */
    const transport: Device
    /** The buffer the POST body is written to, for the slot to read. */
    const bodyBuffer: Device
    const request: RequestState
    const response: ResponseState
    /** The clock reading used for the `Date` header and for cookie ages. */
    const now: DateTime
    const nowMs: int

    /** The client's own open mode is not `NotOpen`. */
    var open: bool
    var events: seq<Event>

    predicate Valid()
    {
      ValidDateTime(now) && transport != bodyBuffer
    }

    /** A client on a transport, open when the transport is. */
    constructor (transport: Device, bodyBuffer: Device, now: DateTime, nowMs: int)
      requires transport != bodyBuffer && ValidDateTime(now)
      ensures Valid() && this.transport == transport && this.bodyBuffer == bodyBuffer
      ensures fresh(request) && fresh(response)
      ensures open == !transport.closed && events == []
      ensures !request.headerReady && request.version == HttpUnknown && request.headers == []
      ensures !response.headerSent && Values(response.headers, ConnectionKey()) == [Latin1("Close")]
    {
      this.transport := transport;
      this.bodyBuffer := bodyBuffer;
      this.now := now;
      this.nowMs := nowMs;
      request := new RequestState();
      response := new ResponseState();
      open := !transport.closed;
      events := [];
    }

    // -------------------------------------------------------------------------
    // The response header, changeable until it is sent

    /**
     * `setResponseHeader`: refused once the header is sent; otherwise the
     * value is added under `key`, after dropping the key's old values unless
     * `append` is set.
     */
    method SetResponseHeader(key: Bytes, value: Bytes, append: bool) returns (ok: bool)
      modifies response`headers
      ensures ok <==> !old(response.headerSent)
      ensures ok ==> Values(response.headers, key) == [value] + (if append then Values(old(response.headers), key) else [])
      ensures ok ==> OthersUnchanged(old(response.headers), response.headers, key)
      ensures !ok ==> response.headers == old(response.headers)
    {
      if response.headerSent {
        return false;
      }
      var h := response.headers;
      var base := if append then h else Remove(h, key);
      assert Values(base, key) == (if append then Values(h, key) else []) by {
        if !append { RemoveValues(h, key, key); }
      }
      assert OthersUnchanged(h, base, key) by {
        if !append {
          forall q | q != key ensures Values(base, q) == Values(h, q) {
            RemoveValues(h, key, q);
          }
        }
      }
      InsertOnly(base, key, value);
      response.headers := Insert(base, key, value);
      ok := true;
    }

    /** `setResponseHeaders`: replaces the whole header map unless the header is sent. */
    method SetResponseHeaders(headers: HeaderMap) returns (ok: bool)
      modifies response`headers
      ensures ok <==> !old(response.headerSent)
      ensures response.headers == if ok then headers else old(response.headers)
    {
      if response.headerSent {
        return false;
      }
      response.headers := headers;
      ok := true;
    }

    /** `setRangeStart`: refused once the header is sent. */
    method SetRangeStart(pos: int) returns (ok: bool)
      modifies response`rangeStart
      ensures ok <==> !old(response.headerSent)
      ensures response.rangeStart == if ok then pos else old(response.rangeStart)
    {
      if response.headerSent {
        return false;
      }
      response.rangeStart := pos;
      ok := true;
    }

    /** `setRangeEnd`: refused once the header is sent. */
    method SetRangeEnd(pos: int) returns (ok: bool)
      modifies response`rangeEnd
      ensures ok <==> !old(response.headerSent)
      ensures response.rangeEnd == if ok then pos else old(response.rangeEnd)
    {
      if response.headerSent {
        return false;
      }
      response.rangeEnd := pos;
      ok := true;
    }

    /** `setContentLength`: refused once the header is sent. */
    method SetContentLength(length: int) returns (ok: bool)
      modifies response`contentLength
      ensures ok <==> !old(response.headerSent)
      ensures response.contentLength == if ok then length else old(response.contentLength)
    {
      if response.headerSent {
        return false;
      }
      response.contentLength := length;
      ok := true;
    }

    /**
     * `sendResponseHeader`: only once the request header is complete and
     * only once. It adds the range and length headers and the `Date` an
     * HTTP/1.1 response needs, then writes the status line, the headers, the
     * cookies and the blank line.
     */
    method SendResponseHeader() returns (ok: bool)
      requires Valid()
      modifies response`headers, response`headerSent, transport
      ensures ok <==> request.headerReady && !old(response.headerSent)
      ensures !ok ==> response.headerSent == old(response.headerSent) && response.headers == old(response.headers)
                      && transport.written == old(transport.written)
      ensures ok ==> response.headerSent
      ensures ok ==> transport.written == old(transport.written)
                       + ResponseHead(request.version, response.code, response.name, response.headers,
                                      response.cookies, nowMs)
      ensures ok ==> Values(response.headers, LengthKey()) == AddedIfAbsent(old(response.headers), LengthKey(),
                       RangeValues(response.rangeStart, response.rangeEnd, response.contentLength).1)
      ensures ok ==> Values(response.headers, RangeKey()) == AddedIfAbsent(old(response.headers), RangeKey(),
                       RangeValues(response.rangeStart, response.rangeEnd, response.contentLength).0)
      ensures ok && request.version == Http1_1 ==> ContainsKey(response.headers, DateKey())
      ensures transport.available == old(transport.available) && transport.closed == old(transport.closed)
    {
      if !request.headerReady || response.headerSent {
        return false;
      }
      response.headers := CompleteResponseHeaders(request.version, now, response.rangeStart, response.rangeEnd,
                                                  response.contentLength, response.headers);
      var firstLine := ResponseLine(request.version, response.code, response.name);
      var text := WriteHttpHeaders(response.headers);
      var cookies := WriteSetCookies(response.cookies, nowMs);
      transport.Write(firstLine + text + cookies + CRLF);
      response.headerSent := true;
      ok := true;
    }

    /**
     * `close`: once only; a complete request whose response header is still
     * unsent gets it now, then the client and its transport close.
     */
    method Close()
      requires Valid()
      modifies this`open, response`headers, response`headerSent, transport
      ensures old(open) ==> !open && transport.closed
      ensures !old(open) ==> open == old(open) && transport.closed == old(transport.closed)
      ensures old(open) && request.headerReady && !old(response.headerSent) ==>
                response.headerSent && transport.written == old(transport.written)
                   + ResponseHead(request.version, response.code, response.name, response.headers,
                                  response.cookies, nowMs)
      ensures !(old(open) && request.headerReady && !old(response.headerSent)) ==>
                response.headerSent == old(response.headerSent) && response.headers == old(response.headers)
                && transport.written == old(transport.written)
      ensures transport.available == old(transport.available)
    {
      if !open {
        return;
      }
      if request.headerReady && !response.headerSent {
        var _ := SendResponseHeader();
      }
      open := false;
      transport.Close();
    }

    /**
     * `killConnection`: nothing happens on a closed transport. Otherwise,
     * while no header is sent, the status becomes `error`, the header goes
     * out if the request header is complete, and the cause (or the status
     * phrase) follows; then the client closes and the header counts as sent.
     * The result is whether no header had been sent after that first step,
     * so it is true only when the request header was not complete either.
     */
    method KillConnection(error: int, cause: Bytes) returns (success: bool)
      requires Valid()
      modifies this`open, response`headers, response`headerSent, response`code, response`name, transport
      ensures old(transport.closed) ==> !success && unchanged(this`open, response, transport)
      ensures !old(transport.closed) ==> response.headerSent && !open && (old(open) ==> transport.closed)
      ensures success <==> !old(transport.closed) && !old(response.headerSent) && !request.headerReady
      ensures !old(transport.closed) && !old(response.headerSent) ==> response.code == error && response.name == cause
      ensures old(response.headerSent) ==> unchanged(response, transport`written)
      ensures !old(transport.closed) && !old(response.headerSent) && !request.headerReady ==>
                transport.written == old(transport.written) + ErrorText(error, cause)
      ensures !old(transport.closed) && !old(response.headerSent) && request.headerReady ==>
                transport.written == old(transport.written)
                   + ResponseHead(request.version, response.code, response.name, response.headers,
                                  response.cookies, nowMs) + ErrorText(error, cause)
      ensures transport.available == old(transport.available)
    {
      if transport.closed {
        return false;
      }
      if !response.headerSent {
        response.code := error;
        response.name := cause;
        var _ := SendResponseHeader();
        transport.Write(ErrorText(error, cause));
      }
      Close();
      success := !response.headerSent;
      response.headerSent := true;
    }

    // -------------------------------------------------------------------------
    // Reading and checking the request

    /**
     * `readRangeRequestHeader`: without a `Range` header nothing happens;
     * otherwise the range is parsed into the response's range, which keeps
     * the numbers also when the range is then refused.
     */
    method ReadRangeRequestHeader() returns (ok: bool)
      modifies response`rangeStart, response`rangeEnd
      ensures ok <==> RangeAcceptable(request.headers)
      ensures ok && ContainsKey(request.headers, RangeRequestKey()) ==>
                (response.rangeStart, response.rangeEnd) == ParseRange(Value(request.headers, RangeRequestKey())).value
      ensures var stored := RangeStored(Value(request.headers, RangeRequestKey()));
              ContainsKey(request.headers, RangeRequestKey()) && stored.Some? ==>
                (response.rangeStart, response.rangeEnd) == stored.value
      ensures var stored := RangeStored(Value(request.headers, RangeRequestKey()));
              !(ContainsKey(request.headers, RangeRequestKey()) && stored.Some?) ==> unchanged(response)
    {
      if !ContainsKey(request.headers, RangeRequestKey()) {
        return true;
      }
      var value := Value(request.headers, RangeRequestKey());
      match RangeStored(value) {
        case None =>
        case Some(range) =>
          response.rangeStart := range.0;
          response.rangeEnd := range.1;
      }
      ok := ParseRange(value).Some?;
      if ok {
        AcceptedRangeIsStored(value);
      }
    }

    /**
     * `verifyCompleteHeader`: a request line with a known version, a valid
     * verb and a path, an acceptable range, a `Host` on HTTP/1.1 and a
     * length on POST and PUT; otherwise the connection is killed with 400.
     * A client already closed fails without more ado.
     */
    method VerifyCompleteHeader() returns (ok: bool)
      requires Valid()
      modifies this`open, response`headers, response`headerSent, response`code, response`name
      modifies response`rangeStart, response`rangeEnd, transport
      ensures ok <==> HeaderValid(request.version, request.verb, request.path, request.headers) && old(open)
      ensures HeaderValid(request.version, request.verb, request.path, request.headers) ==>
                unchanged(this`open, response`headers, response`headerSent, response`code, response`name, transport)
      ensures HeaderValid(request.version, request.verb, request.path, request.headers)
              && ContainsKey(request.headers, RangeRequestKey()) ==>
                (response.rangeStart, response.rangeEnd) == ParseRange(Value(request.headers, RangeRequestKey())).value
      ensures !HeaderValid(request.version, request.verb, request.path, request.headers) && !old(transport.closed) ==>
                response.headerSent && !open
      ensures !old(transport.closed) && !old(response.headerSent)
              && !HeaderValid(request.version, request.verb, request.path, request.headers) ==>
                response.code == 400
      ensures transport.available == old(transport.available)
    {
      if !FirstLineValid(request.version, request.verb, request.path) {
        var _ := KillConnection(400, []);
        return false;
      }
      var rangeOk := ReadRangeRequestHeader();
      if !rangeOk || !Http11Compliant(request.version, request.headers) || !PostCompliant(request.verb, request.headers) {
        var _ := KillConnection(400, []);
        return false;
      }
      ok := open;
    }

    /**
     * `readPostBodyContentLength`: a POST or PUT request stores its declared
     * length; a missing or malformed length is killed with 400 and one over
     * the limit (the slot's, or 4 MiB) with 413.
     */
    method ReadPostBodyContentLength() returns (ok: bool)
      requires Valid()
      modifies request`postBodyLength, this`open, response`headers, response`headerSent, response`code
      modifies response`name, transport
      ensures ok <==> LengthAcceptable(request.verb, request.headers, request.slotInfo)
      ensures request.postBodyLength
              == if HasPostBody(request.verb) then DeclaredLength(request.headers) else old(request.postBodyLength)
      ensures ok ==> unchanged(this`open, response, transport)
      ensures !ok && !old(transport.closed) ==> response.headerSent && !open
      ensures !ok && !old(transport.closed) && !old(response.headerSent) ==>
                response.code == if DeclaredLength(request.headers) < 0 then 400 else 413
      ensures transport.available == old(transport.available)
    {
      if !HasPostBody(request.verb) {
        return true;
      }
      request.postBodyLength := ParseIntegerHeaderValue(Value(request.headers, LengthKey()));
      if request.postBodyLength < 0 {
        var _ := KillConnection(400, []);
        return false;
      }
      var maxContentLength := DefaultMaxBodyLength;
      if request.slotInfo.IsValid() {
        maxContentLength := request.slotInfo.maxBodyLength;
      }
      if request.postBodyLength > maxContentLength {
        var _ := KillConnection(413, []);
        return false;
      }
      ok := true;
    }

    /**
     * `send100ContinueIfClientExpectsIt`: a request with a body that expects
     * "100-continue" (in any case) before the header is sent is answered
     * with one interim 100 response; no expectation passes, any other fails.
     */
    method Send100ContinueIfClientExpectsIt() returns (ok: bool)
      modifies request`chunkedBodyTransfer, transport
      ensures ok <==> ExpectAcceptable(request.verb, response.headerSent, request.headers)
      ensures request.chunkedBodyTransfer
              == (ContinueExpected(request.verb, response.headerSent, request.headers) || old(request.chunkedBodyTransfer))
      ensures transport.written == old(transport.written)
              + if ContinueExpected(request.verb, response.headerSent, request.headers) then ContinueResponse() else []
      ensures transport.available == old(transport.available) && transport.closed == old(transport.closed)
    {
      if !HasPostBody(request.verb) || response.headerSent {
        return true;
      }
      var expects := Value(request.headers, ExpectKey());
      if expects == [] {
        return true;
      }
      if ToLower(expects) != Continue100 {
        return false;
      }
      request.chunkedBodyTransfer := true;
      transport.Write(ResponseLine(Http1_1, 100, []));
      transport.Write(CRLF);
      ok := true;
    }

    /** `verifyRequestBodyOrClose`: body bytes on a request without a body are killed with 400. */
    method VerifyRequestBodyOrClose() returns (ok: bool)
      requires Valid()
      modifies this`open, response`headers, response`headerSent, response`code, response`name, transport
      ensures ok <==> HasPostBody(request.verb) || old(transport.available) == []
      ensures ok ==> unchanged(this`open, response, transport)
      ensures !ok && !old(transport.closed) ==> response.headerSent && !open
      ensures !ok && !old(transport.closed) && !old(response.headerSent) ==> response.code == 400
      ensures transport.available == old(transport.available)
    {
      if !HasPostBody(request.verb) && |transport.available| > 0 {
        var _ := KillConnection(400, []);
        return false;
      }
      ok := true;
    }

    /**
     * `invokeRequestedPath`: a path the server cannot route is killed with
     * 403; a routed request without a body whose connection need not stay
     * open is closed (`closeConnectionIfNoLongerNeeded`).
     */
    method InvokeRequestedPath(routed: bool) returns (ok: bool)
      requires Valid()
      modifies this`open, response`headers, response`headerSent, response`code, response`name, transport
      ensures ok == routed
      ensures !routed && !old(transport.closed) ==> response.headerSent && !open
      ensures !routed && !old(transport.closed) && !old(response.headerSent) ==> response.code == 403
      ensures routed && (HasPostBody(request.verb) || request.keepConnectionOpen) ==> unchanged(this`open, response, transport)
      ensures routed && !HasPostBody(request.verb) && !request.keepConnectionOpen && old(open) ==>
                !open && transport.closed
      ensures transport.available == old(transport.available)
    {
      if !routed {
        var _ := KillConnection(403, []);
        return false;
      }
      if !HasPostBody(request.verb) && !request.keepConnectionOpen {
        Close();
      }
      ok := true;
    }

    /**
     * The first three checks of `postProcessRequestHeader`: the body, the
     * header, the declared length.
     */
    method ValidateRequest() returns (ok: bool)
      requires Valid()
      modifies request`postBodyLength, this`open, response`headers
      modifies response`headerSent, response`code, response`name, response`rangeStart, response`rangeEnd, transport
      ensures ok <==> (HasPostBody(request.verb) || old(transport.available) == [])
                      && HeaderValid(request.version, request.verb, request.path, request.headers) && old(open)
                      && LengthAcceptable(request.verb, request.headers, request.slotInfo)
      ensures ok ==> request.postBodyLength
                     == if HasPostBody(request.verb) then DeclaredLength(request.headers) else old(request.postBodyLength)
      ensures ok ==> unchanged(this`open, response`headers, response`headerSent, response`code, response`name, transport)
      ensures !ok && !old(transport.closed) && transport.closed ==> response.headerSent && !open
      ensures transport.available == old(transport.available)
    {
      ok := VerifyRequestBodyOrClose();
      if !ok {
        return;
      }
      ok := VerifyCompleteHeader();
      if !ok {
        return;
      }
      ok := ReadPostBodyContentLength();
    }

    /**
     * The checks of `postProcessRequestHeader` in order, then routing; the
     * first that fails stops the rest.
     */
    method RequestChecks(routed: bool) returns (ok: bool)
      requires Valid()
      modifies request`postBodyLength, request`chunkedBodyTransfer, this`open, response`headers
      modifies response`headerSent, response`code, response`name, response`rangeStart, response`rangeEnd, transport
      ensures ok <==> routed && RequestAcceptable(request.version, request.verb, request.path, request.headers,
                        request.slotInfo, old(transport.available), old(open), old(response.headerSent))
      ensures ok ==> request.postBodyLength
                     == if HasPostBody(request.verb) then DeclaredLength(request.headers) else old(request.postBodyLength)
      ensures ok ==> request.chunkedBodyTransfer
                     == (ContinueExpected(request.verb, old(response.headerSent), request.headers)
                         || old(request.chunkedBodyTransfer))
      ensures ok && HasPostBody(request.verb) ==>
                transport.written == old(transport.written)
                  + if ContinueExpected(request.verb, old(response.headerSent), request.headers) then ContinueResponse() else []
      ensures !ok && !old(transport.closed) && transport.closed ==> response.headerSent && !open
      ensures transport.available == old(transport.available)
    {
      ok := ValidateRequest();
      if !ok {
        return;
      }
      ok := Send100ContinueIfClientExpectsIt();
      if !ok {
        return;
      }
      ok := InvokeRequestedPath(routed);
    }

    /**
     * `postProcessRequestHeader`: the request checks and routing; when one
     * fails the connection is killed with 400 (a no-op if an earlier kill
     * closed it already).
     */
    method PostProcessRequestHeader(routed: bool) returns (ok: bool)
      requires Valid()
      modifies request`postBodyLength, request`chunkedBodyTransfer, this`open, response`headers
      modifies response`headerSent, response`code, response`name, response`rangeStart, response`rangeEnd, transport
      ensures ok <==> routed && RequestAcceptable(request.version, request.verb, request.path, request.headers,
                        request.slotInfo, old(transport.available), old(open), old(response.headerSent))
      ensures ok ==> request.postBodyLength
                     == if HasPostBody(request.verb) then DeclaredLength(request.headers) else old(request.postBodyLength)
      ensures ok ==> request.chunkedBodyTransfer
                     == (ContinueExpected(request.verb, old(response.headerSent), request.headers)
                         || old(request.chunkedBodyTransfer))
      ensures ok && HasPostBody(request.verb) ==>
                transport.written == old(transport.written)
                  + if ContinueExpected(request.verb, old(response.headerSent), request.headers) then ContinueResponse() else []
      ensures !ok && !old(transport.closed) ==> response.headerSent && !open
      ensures transport.available == old(transport.available)
    {
      ok := RequestChecks(routed);
      if !ok {
        var _ := KillConnection(400, []);
      }
    }

    /**
     * `readFirstLine`: the verb, the path and the version of the request
     * line, stored as far as they were read; the path is that of the URL
     * "http://localhost" followed by the target.
     */
    method ReadFirstLine(line: Bytes) returns (ok: bool)
      modifies request`verb, request`version, request`path
      ensures ok <==> ParseFirstLineFull(line).Some?
      ensures ok ==> (request.verb, RawPath(line), request.version) == ParseFirstLineFull(line).value
      ensures request.path == UrlPath(RawPath(line))
      ensures request.verb == if ParseFirstLine(line).Some? then ParseVerb(ParseFirstLine(line).value.verb)
                              else old(request.verb)
      ensures request.version == if ParseFirstLine(line).Some? && request.verb != InvalidVerb
                                 then ParseVersion(ParseFirstLine(line).value.version) else old(request.version)
    {
      match ParseFirstLine(line) {
        case None =>
        case Some(l) =>
          request.verb := ParseVerb(l.verb);
          if request.verb != InvalidVerb {
            request.version := ParseVersion(l.version);
          }
      }
      request.path := UrlPath(RawPath(line));
      ok := ParseFirstLineFull(line).Some?;
    }

    /**
     * `readHeader`: a header line adds its value under the key with each
     * word capitalised; a malformed line is killed with 400.
     */
    method ReadHeader(line: Bytes) returns (ok: bool)
      requires Valid()
      modifies request`headers, this`open, response`headers, response`headerSent, response`code, response`name
      modifies transport
      ensures ok <==> ParseHeaderLine(line).Some?
      ensures ok ==> var (key, value) := ParseHeaderLine(line).value;
                     Values(request.headers, KeyCase(key)) == [value] + Values(old(request.headers), KeyCase(key))
                     && OthersUnchanged(old(request.headers), request.headers, KeyCase(key))
      ensures ok ==> unchanged(this`open, response, transport)
      ensures !ok ==> request.headers == old(request.headers)
      ensures !ok && !old(transport.closed) ==> response.headerSent && !open
      ensures transport.available == old(transport.available)
    {
      match ParseHeaderLine(line) {
        case None =>
          var _ := KillConnection(400, []);
          return false;
        case Some(kv) =>
          var key := CorrectHeaderKeyCase(kv.0);
          InsertOnly(request.headers, key, kv.1);
          request.headers := Insert(request.headers, key, kv.1);
          ok := true;
      }
    }

    /**
     * One line of `readAllAvailableHeaderLines`: a line without its newline
     * is too long and killed with 400; the empty line completes the header
     * and hands over to `postProcessRequestHeader`; the first line is the
     * request line, every later one a header line, and either one that is
     * malformed is killed with 400.
     */
    method HeaderLine(raw: Bytes, routed: bool) returns (outcome: LineOutcome)
      requires Valid()
      modifies request`headerReady, request`verb, request`version, request`path, request`headers
      modifies request`postBodyLength, request`chunkedBodyTransfer, this`open, response, transport
      ensures outcome == MoreLines <==> EndsWith(raw, [10]) && RemoveTrailingNewline(raw).1 != []
                                        && (if old(request.version) == HttpUnknown
                                            then ParseFirstLineFull(RemoveTrailingNewline(raw).1).Some?
                                            else ParseHeaderLine(RemoveTrailingNewline(raw).1).Some?)
      ensures outcome == MoreLines ==> request.headerReady == old(request.headerReady)
                                       && unchanged(this`open, response, transport)
      ensures request.headerReady <==> old(request.headerReady) || RemoveTrailingNewline(raw) == (true, [])
      ensures RemoveTrailingNewline(raw) == (true, []) ==>
                outcome.Finished? && (outcome.ok <==> routed && RequestAcceptable(request.version, request.verb,
                  request.path, request.headers, request.slotInfo, transport.available, old(open), old(response.headerSent)))
      ensures outcome == Finished(false) && !old(transport.closed) ==> response.headerSent && !open
      ensures outcome == Finished(true) ==> request.headerReady
      ensures transport.available == old(transport.available)
    {
      var (complete, line) := RemoveTrailingNewline(raw);
      if !complete {
        var _ := KillConnection(400, []);
        return Finished(false);
      } else if line == [] {
        request.headerReady := true;
        var ok := PostProcessRequestHeader(routed);
        return Finished(ok);
      } else if request.version == HttpUnknown {
        var read := ReadFirstLine(line);
        if !read {
          var _ := KillConnection(400, []);
          return Finished(false);
        }
      } else {
        var read := ReadHeader(line);
        if !read {
          var _ := KillConnection(400, []);
          return Finished(false);
        }
      }
      outcome := MoreLines;
    }

    /**
     * `readAllAvailableHeaderLines`: reads complete lines (at most 1023
     * bytes each) while one is waiting, until one ends the reading.
     */
    method ReadAllAvailableHeaderLines(routed: bool) returns (ok: bool)
      requires Valid()
      modifies request`headerReady, request`verb, request`version, request`path, request`headers
      modifies request`postBodyLength, request`chunkedBodyTransfer, this`open, response, transport
      ensures |transport.available| <= |old(transport.available)|
      ensures transport.available == old(transport.available)[|old(transport.available)| - |transport.available|..]
      ensures ok && !request.headerReady ==> 10 !in transport.available
      ensures !ok && !old(transport.closed) ==> response.headerSent && !open
      ensures request.headerReady && !old(request.headerReady) ==>
                (ok <==> routed && RequestAcceptable(request.version, request.verb, request.path, request.headers,
                                                     request.slotInfo, transport.available, old(open),
                                                     old(response.headerSent)))
      ensures 10 !in old(transport.available) ==> ok && unchanged(request, this`open, response, transport)
    {
      ghost var start := transport.available;
      ghost var read := false;
      while 10 in transport.available
        invariant |transport.available| <= |start|
        invariant transport.available == start[|start| - |transport.available|..]
        invariant request.headerReady == old(request.headerReady)
        invariant open == old(open) && response.headerSent == old(response.headerSent)
        invariant transport.closed == old(transport.closed)
        invariant !read ==> unchanged(request, this`open, response, transport)
        invariant read ==> 10 in start
        decreases |transport.available|
      {
        read := true;
        ghost var before := transport.available;
        var raw := transport.ReadLine(MaxLine);
        assert transport.available == before[|raw|..];
        var outcome := HeaderLine(raw, routed);
        if outcome.Finished? {
          return outcome.ok;
        }
      }
      ok := true;
    }

    /**
     * `bufferPostBody`: counts the waiting bytes as transferred; more than
     * the declared length fails, otherwise they move to the body buffer and
     * reaching the length exactly announces `postBodyComplete`.
     */
    method BufferPostBody() returns (ok: bool)
      requires Valid()
      modifies request`postBodyTransferred, transport, bodyBuffer, this`events
      ensures request.postBodyTransferred == old(request.postBodyTransferred) + |old(transport.available)|
      ensures ok <==> request.postBodyTransferred <= request.postBodyLength
      ensures ok ==> transport.available == [] && bodyBuffer.available == old(bodyBuffer.available) + old(transport.available)
      ensures ok ==> bodyBuffer.written == old(bodyBuffer.written) + old(transport.available)
      ensures ok ==> transport.written == old(transport.written) && transport.closed == old(transport.closed)
      ensures ok ==> bodyBuffer.closed == old(bodyBuffer.closed)
      ensures !ok ==> unchanged(transport, bodyBuffer)
      ensures events == old(events) + Completion(request.postBodyLength, request.postBodyTransferred, ok)
    {
      request.postBodyTransferred := request.postBodyTransferred + |transport.available|;
      if request.postBodyTransferred > request.postBodyLength {
        return false;
      }
      var data := transport.Read(|transport.available|);
      bodyBuffer.WriteReadable(data);
      if request.postBodyTransferred == request.postBodyLength {
        events := events + [PostBodyComplete];
      }
      ok := true;
    }

    /**
     * The part of `receivedData` after the header: body bytes on a request
     * without a body are killed with 400 and too many with 413; a body that
     * is not streamed and now complete calls the slot and closes unless the
     * connection is kept open; otherwise `readyRead` is announced.
     */
    method ReceiveBody()
      requires Valid()
      modifies request`postBodyTransferred, this`open, this`events, response, transport, bodyBuffer
      ensures !HasPostBody(request.verb) && !old(transport.closed) ==> response.headerSent && !open
      ensures !HasPostBody(request.verb) && !old(transport.closed) && !old(response.headerSent) ==> response.code == 400
      ensures HasPostBody(request.verb) ==>
                request.postBodyTransferred == old(request.postBodyTransferred) + |old(transport.available)|
      ensures HasPostBody(request.verb) && request.postBodyTransferred > request.postBodyLength
              && !old(transport.closed) ==>
                response.headerSent && !open
      ensures HasPostBody(request.verb) && request.postBodyTransferred > request.postBodyLength
              && !old(transport.closed) && !old(response.headerSent) ==>
                response.code == 413
      ensures HasPostBody(request.verb) && request.postBodyTransferred <= request.postBodyLength ==>
                bodyBuffer.available == old(bodyBuffer.available) + old(transport.available)
                && events == old(events) + Completion(request.postBodyLength, request.postBodyTransferred, true)
                                         + AfterBody(request.postBodyLength, request.postBodyTransferred, request.slotInfo)
    {
      if !HasPostBody(request.verb) {
        var _ := KillConnection(400, []);
        return;
      }
      var buffered := BufferPostBody();
      if !buffered {
        var _ := KillConnection(413, []);
        return;
      }
      if !(request.slotInfo.IsValid() && request.slotInfo.streamPostBody)
         && request.postBodyLength == request.postBodyTransferred {
        if request.slotInfo.IsValid() {
          events := events + [SlotCalled];
        }
        if !request.keepConnectionOpen {
          Close();
        }
      } else {
        events := events + [ReadyRead];
      }
    }

    /**
     * `receivedData` as intended: while the header is incomplete only
     * complete lines are consumed, and a partial line waits for the rest.
     */
    method ReceivedData(routed: bool)
      requires Valid()
      modifies request, this`open, this`events, response, transport, bodyBuffer
      ensures !old(request.headerReady) && 10 !in old(transport.available) ==>
                unchanged(request, this, response, transport, bodyBuffer)
      ensures !request.headerReady ==> events == old(events) && unchanged(bodyBuffer)
      ensures old(request.headerReady) && !HasPostBody(request.verb) && !old(transport.closed) ==>
                response.headerSent && !open
    {
      if !request.headerReady {
        var ok := ReadAllAvailableHeaderLines(routed);
        if !ok || !request.headerReady || |transport.available| == 0 {
          return;
        }
      }
      ReceiveBody();
    }

    /**
     * `receivedData` as written: when reading the header lines leaves a
     * partial line waiting, it is taken for body bytes, so a header split
     * inside a line is killed (400 before the request line names a POST or
     * PUT, 413 after, as no length is known yet).
     */
    method ReceivedDataAsWritten(routed: bool)
      requires Valid()
      modifies request, this`open, this`events, response, transport, bodyBuffer
      ensures !old(request.headerReady) && old(request.postBodyLength) == -1 && old(request.postBodyTransferred) >= 0
              && old(transport.available) != [] && 10 !in old(transport.available) && !old(transport.closed) ==>
                response.headerSent && !open
      ensures old(request.headerReady) && !HasPostBody(request.verb) && !old(transport.closed) ==>
                response.headerSent && !open
    {
      if !request.headerReady {
        var ok := ReadAllAvailableHeaderLines(routed);
        if !ok || |transport.available| == 0 {
          return;
        }
      }
      ReceiveBody();
    }
  }
}
