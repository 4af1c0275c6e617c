/**
 * `FastCgiTransport`: one FastCGI request seen as an HTTP transport. It
 * collects the request's parameters, turns them into the HTTP request the
 * client object is started with, forwards the request body to the client, and
 * wraps the client's response in stdout records.
 */
module FastCgiTransports {
  import opened Bytes
  import opened ByteMaps
  import opened HeaderMaps
  import opened HttpTypes
  import opened HttpParser
  import opened HttpWriter
  import opened Numbers
  import opened Devices
  import opened FastCgiRecords
  import opened FastCgiWriter

  const UNDERSCORE: byte := 95

  /** Whether `paramNameToHttpHeader` upper-cases position `i`: the first byte or one right after '_'. */
  predicate FirstOfWord(name: Bytes, i: int)
    requires 0 <= i < |name|
  {
    i == 0 || name[i - 1] == UNDERSCORE
  }

  /** The header name `paramNameToHttpHeader` makes of a parameter name. */
  function HeaderKey(name: Bytes): (r: Bytes)
    ensures |r| == |name|
  {
    seq(|name|, i requires 0 <= i < |name| =>
      if name[i] == UNDERSCORE then DASH
      else if FirstOfWord(name, i) then ToUpperByte(name[i])
      else ToLowerByte(name[i]))
  }

  /** `paramNameToHttpHeader`: rewrites the name byte by byte, a flag marking the start of a word. */
  method ParamNameToHttpHeader(name: Bytes) returns (r: Bytes)
    ensures r == HeaderKey(name)
  {
    r := name;
    var firstChar := true;
    var i := 0;
    while i < |r|
      invariant 0 <= i <= |r| == |name|
      invariant firstChar <==> (i == 0 || name[i - 1] == UNDERSCORE)
      invariant forall j :: 0 <= j < i ==> r[j] == HeaderKey(name)[j]
      invariant forall j :: i <= j < |r| ==> r[j] == name[j]
    {
      if r[i] == UNDERSCORE {
        r := r[i := DASH];
        firstChar := true;
      } else if firstChar {
        r := r[i := ToUpperByte(r[i])];
        firstChar := false;
      } else {
        r := r[i := ToLowerByte(r[i])];
      }
      i := i + 1;
    }
  }

  /** The documented example: SOME_THING becomes Some-Thing. */
  lemma HeaderKeyExample()
    ensures HeaderKey(Latin1("SOME_THING")) == Latin1("Some-Thing")
  {
  }

  /**
   * A parameter name without dashes becomes a header name with no
   * underscore, already in the case `correctHeaderKeyCase` gives headers.
   */
  lemma HeaderKeyCanonical(name: Bytes)
    requires DASH !in name
    ensures UNDERSCORE !in HeaderKey(name)
    ensures KeyCase(HeaderKey(name)) == HeaderKey(name)
  {
    var r := HeaderKey(name);
    forall i | 0 <= i < |r| ensures KeyCase(r)[i] == r[i] {
      if i > 0 {
        assert r[i - 1] == DASH <==> name[i - 1] == UNDERSCORE;
      }
    }
  }

  /** "HTTP_", the prefix of the parameters carrying request headers. */
  const HttpPrefix: Bytes := [72, 84, 84, 80, 95]

  /** A parameter name with a leading "HTTP_" removed. */
  function StripHttpPrefix(name: Bytes): (r: Bytes)
    ensures StartsWith(name, HttpPrefix) ==> name == HttpPrefix + r
    ensures !StartsWith(name, HttpPrefix) ==> r == name
  {
    if StartsWith(name, HttpPrefix) then name[|HttpPrefix|..] else name
  }

  /** The header entry `processedHeaders` makes of one parameter. */
  function Converted(e: Entry): Entry
  {
    Entry(HeaderKey(StripHttpPrefix(e.key)), e.value)
  }

  /** The entries inserted one after the other, each converted first. */
  function InsertConverted(acc: HeaderMap, entries: HeaderMap): HeaderMap
    decreases |entries|
  {
    if entries == [] then acc
    else InsertConverted(Insert(acc, Converted(entries[0]).key, entries[0].value), entries[1..])
  }

  /** The parameters, each converted to its header entry. */
  function ConvertAll(entries: HeaderMap): (r: HeaderMap)
    ensures |r| == |entries|
  {
    if entries == [] then [] else [Converted(entries[0])] + ConvertAll(entries[1..])
  }

  /** Every parameter reaches the headers once, converted, and nothing else does. */
  lemma {:induction false} InsertConvertedForwardsAll(acc: HeaderMap, entries: HeaderMap)
    ensures multiset(InsertConverted(acc, entries)) == multiset(acc) + multiset(ConvertAll(entries))
    decreases |entries|
  {
    if entries != [] {
      var next := Insert(acc, Converted(entries[0]).key, entries[0].value);
      InsertConvertedForwardsAll(next, entries[1..]);
      assert multiset(next) == multiset(acc) + multiset{Converted(entries[0])};
      assert multiset(ConvertAll(entries)) == multiset{Converted(entries[0])} + multiset(ConvertAll(entries[1..]));
    }
  }

  /** Inserting into a sorted multimap keeps it sorted. */
  lemma {:induction false} InsertConvertedSorted(acc: HeaderMap, entries: HeaderMap)
    requires Sorted(acc)
    ensures Sorted(InsertConverted(acc, entries))
    decreases |entries|
  {
    if entries != [] {
      InsertSorted(acc, Converted(entries[0]).key, entries[0].value);
      InsertConvertedSorted(Insert(acc, Converted(entries[0]).key, entries[0].value), entries[1..]);
    }
  }

  /** `QMultiMap::unite`: every entry of `params` added to `h`, none replaced. */
  function Unite(h: HeaderMap, params: Assoc<Bytes>): HeaderMap
    decreases |params|
  {
    if params == [] then h else Unite(Insert(h, params[0].0, params[0].1), params[1..])
  }

  /** The parameters as header entries. */
  function EntriesOf(params: Assoc<Bytes>): (r: HeaderMap)
    ensures |r| == |params|
  {
    if params == [] then [] else [Entry(params[0].0, params[0].1)] + EntriesOf(params[1..])
  }

  /** Uniting keeps every earlier entry and adds exactly the new parameters. */
  lemma {:induction false} UniteKeepsAll(h: HeaderMap, params: Assoc<Bytes>)
    ensures multiset(Unite(h, params)) == multiset(h) + multiset(EntriesOf(params))
    decreases |params|
  {
    if params != [] {
      var next := Insert(h, params[0].0, params[0].1);
      UniteKeepsAll(next, params[1..]);
      assert multiset(next) == multiset(h) + multiset{Entry(params[0].0, params[0].1)};
      assert multiset(EntriesOf(params)) == multiset{Entry(params[0].0, params[0].1)} + multiset(EntriesOf(params[1..]));
    }
  }

  /** The parameter names `startClient` reads. */
  const RequestMethodKey: Bytes := [82, 69, 81, 85, 69, 83, 84, 95, 77, 69, 84, 72, 79, 68]
  const RequestUriKey: Bytes := [82, 69, 81, 85, 69, 83, 84, 95, 85, 82, 73]
  const ServerProtocolKey: Bytes := [83, 69, 82, 86, 69, 82, 95, 80, 82, 79, 84, 79, 67, 79, 76]

  /** `QByteArray::mid(from)`: empty when `from` is past the end. */
  function MidFrom(data: Bytes, from: nat): (r: Bytes)
    ensures from <= |data| ==> data == data[..from] + r
    ensures from > |data| ==> r == []
  {
    if from <= |data| then data[from..] else []
  }

  /** The protocol parameter with its "HTTP/" cut off, as `parseVersion` reads it. */
  function ProtocolVersion(protocol: Bytes): HttpVersion
  {
    ParseVersion(MidFrom(protocol, 5))
  }

  /** "HTTP/1.0" and "HTTP/1.1" are recognised, and a version never written that way is not. */
  lemma ProtocolVersionRead(v: HttpVersion)
    requires v != HttpUnknown
    ensures ProtocolVersion(VersionString(v)) == v
  {
  }

  /** What the client object is started with. */
  datatype ClientStart = ClientStart(verb: HttpVerb, version: HttpVersion, path: Bytes, headers: HeaderMap,
                                     mode: TransferMode)

  /** `startClient`: the request as the parameters describe it. */
  function StartOf(params: HeaderMap): ClientStart
  {
    ClientStart(ParseVerb(Value(params, RequestMethodKey)), ProtocolVersion(Value(params, ServerProtocolKey)),
                Value(params, RequestUriKey), InsertConverted([], params), Streaming)
  }

  /** "Status:", which replaces the HTTP version of the response line. */
  const StatusPrefix: Bytes := [83, 116, 97, 116, 117, 115, 58]

  /** `replaceFirstLine`: the first 8 bytes (or all, when fewer) replaced by "Status:". */
  function ReplaceFirstLine(data: Bytes): (r: Bytes)
    ensures |data| >= 8 ==> r == StatusPrefix + data[8..]
  {
    StatusPrefix + MidFrom(data, 8)
  }

  /** A response line written for HTTP/1.0 or 1.1 becomes the CGI status line "Status: <code> <reason>". */
  lemma StatusLineOfResponse(v: HttpVersion, code: int, message: Bytes, rest: Bytes)
    requires v != HttpUnknown
    ensures ReplaceFirstLine(ResponseLine(v, code, message) + rest)
            == StatusPrefix + ([SP] + Decimal(code) + [SP] + Reason(code, message) + CRLF + rest)
  {
    var tail := [SP] + Decimal(code) + [SP] + Reason(code, message) + CRLF + rest;
    var version := VersionString(v);
    assert ResponseLine(v, code, message) + rest == version + tail by {
      var d := Decimal(code);
      var m := Reason(code, message);
      calc {
        ResponseLine(v, code, message) + rest;
        (version + [SP] + d + [SP] + m + CRLF) + rest;
        { SeqAssoc6(version, [SP], d, [SP], m, CRLF, rest); }
        version + ([SP] + d + [SP] + m + CRLF + rest);
      }
    }
    assert (version + tail)[8..] == tail;
  }

  /** Moving the first part of a seven-part concatenation out of the nesting. */
  lemma SeqAssoc6(a: Bytes, b: Bytes, c: Bytes, d: Bytes, e: Bytes, f: Bytes, g: Bytes)
    ensures a + b + c + d + e + f + g == a + (b + c + d + e + f + g)
  {
  }

  class Transport {
    const requestId: UInt16
    /** The connection the request came in on. */
    const device: Device
    /** The identity of the client object the transport created. */
    const client: nat
    /** The parameters received so far. */
    var headers: HeaderMap
    var firstLineReplaced: bool
    /** Set once the client object has been started. */
    var started: Option<ClientStart>
    /** The request body pieces handed to the client, in order. */
    var forwarded: seq<Bytes>
    /** Set once `deleteLater` has been requested. */
    var deleted: bool
    /** The request limits the transport sets up for itself. */
    var currentRequestCount: int
    var maxRequests: int
    /** Whether the connection is deleted together with this transport. */
    var ownsDevice: bool

    /** The constructor: one request, no parameters yet. */
    constructor (requestId: UInt16, device: Device, client: nat)
      ensures this.requestId == requestId && this.device == device && this.client == client
      ensures headers == [] && !firstLineReplaced && started == None && forwarded == [] && !deleted
      ensures currentRequestCount == 1 && maxRequests == 1 && !ownsDevice
    {
      this.requestId := requestId;
      this.device := device;
      this.client := client;
      headers := [];
      firstLineReplaced := false;
      started := None;
      forwarded := [];
      deleted := false;
      currentRequestCount := 1;
      maxRequests := 1;
      ownsDevice := false;
    }

    /** `isOpen`. */
    predicate IsOpen()
      reads device
    {
      !device.closed
    }

    /** `processedHeaders`: every parameter under its header name, "HTTP_" removed. */
    method ProcessedHeaders() returns (result: HeaderMap)
      ensures result == InsertConverted([], headers)
    {
      result := [];
      var i := 0;
      while i < |headers|
        invariant i <= |headers|
        invariant InsertConverted(result, headers[i..]) == InsertConverted([], headers)
      {
        assert headers[i..][1..] == headers[i + 1..];
        var name := headers[i].key;
        if StartsWith(name, HttpPrefix) {
          name := name[5..];
        }
        var key := ParamNameToHttpHeader(name);
        result := Insert(result, key, headers[i].value);
        i := i + 1;
      }
      assert headers[i..] == [];
    }

    /** `startClient`: starts the client with the request the parameters describe and forgets them. */
    method StartClient()
      modifies this
      ensures started == Some(StartOf(old(headers))) && headers == []
      ensures firstLineReplaced == old(firstLineReplaced) && forwarded == old(forwarded) && deleted == old(deleted)
      ensures currentRequestCount == old(currentRequestCount) && maxRequests == old(maxRequests)
      ensures ownsDevice == old(ownsDevice)
    {
      var version := ProtocolVersion(Value(headers, ServerProtocolKey));
      var verb := ParseVerb(Value(headers, RequestMethodKey));
      var path := Value(headers, RequestUriKey);
      var processed := ProcessedHeaders();
      headers := [];
      started := Some(ClientStart(verb, version, path, processed, Streaming));
    }

    /** `addFastCgiParams`: collects the parameters; the empty batch that ends them starts the client. */
    method AddFastCgiParams(params: Assoc<Bytes>)
      modifies this
      ensures params != [] ==> headers == Unite(old(headers), params) && started == old(started)
      ensures params == [] ==> headers == [] && started == Some(StartOf(old(headers)))
      ensures firstLineReplaced == old(firstLineReplaced) && forwarded == old(forwarded) && deleted == old(deleted)
      ensures currentRequestCount == old(currentRequestCount) && maxRequests == old(maxRequests)
      ensures ownsDevice == old(ownsDevice)
    {
      headers := Unite(headers, params);
      if params == [] {
        StartClient();
      }
    }

    /** `sendToRemote`: the response as stdout records, its first line made a CGI status line once. */
    method SendToRemote(data: Bytes) returns (open: bool)
      modifies this, device
      ensures firstLineReplaced
      ensures device.written == old(device.written)
              + MultiPartRecords(StdOut, requestId, if old(firstLineReplaced) then data else ReplaceFirstLine(data))
      ensures open == IsOpen() && device.closed == old(device.closed) && device.available == old(device.available)
      ensures headers == old(headers) && started == old(started) && forwarded == old(forwarded)
      ensures deleted == old(deleted) && ownsDevice == old(ownsDevice)
      ensures currentRequestCount == old(currentRequestCount) && maxRequests == old(maxRequests)
    {
      if !firstLineReplaced {
        firstLineReplaced := true;
        WriteMultiPartStream(device, StdOut, requestId, ReplaceFirstLine(data));
      } else {
        WriteMultiPartStream(device, StdOut, requestId, data);
      }
      open := !device.closed;
    }

    /** `forceClose`: ends the request with an empty stdout record and an end-request record. */
    method ForceClose()
      modifies this, device
      ensures deleted
      ensures device.written == old(device.written) + StreamMessage(StdOut, requestId, [])
                                + EndRequestRecord(requestId, 0, RequestComplete)
      ensures device.closed == old(device.closed) && device.available == old(device.available)
      ensures headers == old(headers) && started == old(started) && forwarded == old(forwarded)
      ensures firstLineReplaced == old(firstLineReplaced) && ownsDevice == old(ownsDevice)
      ensures currentRequestCount == old(currentRequestCount) && maxRequests == old(maxRequests)
    {
      var ok := WriteStreamMessage(device, StdOut, requestId, []);
      WriteEndRequest(device, requestId, 0, RequestComplete);
      deleted := true;
    }

    /** `close`: acts only for the transport's own client. */
    method Close(c: nat)
      modifies this, device
      ensures c != client ==> unchanged(this) && unchanged(device)
      ensures c == client ==> deleted && device.written == old(device.written) + StreamMessage(StdOut, requestId, [])
                                                           + EndRequestRecord(requestId, 0, RequestComplete)
      ensures device.closed == old(device.closed) && device.available == old(device.available)
      ensures headers == old(headers) && started == old(started) && forwarded == old(forwarded)
      ensures firstLineReplaced == old(firstLineReplaced) && ownsDevice == old(ownsDevice)
      ensures currentRequestCount == old(currentRequestCount) && maxRequests == old(maxRequests)
    {
      if c == client {
        ForceClose();
      }
    }

    /** `abort`: the connection is going away; closes the request for the transport's client. */
    method Abort()
      modifies this, device
      ensures deleted
      ensures device.written == old(device.written) + StreamMessage(StdOut, requestId, [])
                                + EndRequestRecord(requestId, 0, RequestComplete)
      ensures device.closed == old(device.closed) && device.available == old(device.available)
      ensures headers == old(headers) && started == old(started) && forwarded == old(forwarded)
      ensures firstLineReplaced == old(firstLineReplaced) && ownsDevice == old(ownsDevice)
      ensures currentRequestCount == old(currentRequestCount) && maxRequests == old(maxRequests)
    {
      Close(client);
    }

    /** `forwardBodyData`: hands non-empty stdin data to the client. */
    method ForwardBodyData(data: Bytes)
      modifies this
      ensures forwarded == old(forwarded) + (if data == [] then [] else [data])
      ensures headers == old(headers) && started == old(started) && deleted == old(deleted)
      ensures firstLineReplaced == old(firstLineReplaced) && ownsDevice == old(ownsDevice)
      ensures currentRequestCount == old(currentRequestCount) && maxRequests == old(maxRequests)
    {
      if data != [] {
        forwarded := forwarded + [data];
      }
    }
  }
}
