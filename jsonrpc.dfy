/**
 * `JsonRpcUtil`: the checks and constructors the JSON-RPC 2.0 endpoint uses.
 * A request object is taken apart into its members, and responses are built
 * and turned into JSON objects (sections 4, 5 and 5.1 of the JSON-RPC 2.0
 * specification).
 */
module JsonRpc {
  import opened Bytes

  /**
   * A JSON value as Qt holds it. `Undefined` is what looking up a missing
   * member yields. Numbers are modelled as integers.
   */
  datatype Json =
    | Undefined
    | Null
    | Bool(b: bool)
    | Number(n: int)
    | Str(s: string)
    | Array(items: seq<Json>)
    | Object(members: map<string, Json>)

  /** `QJsonObject::value`: a missing member reads as `Undefined`. */
  function Value(obj: map<string, Json>, key: string): (r: Json)
    ensures key !in obj ==> r == Undefined
  {
    if key in obj then obj[key] else Undefined
  }

  /** `QJsonObject::insert`: inserting `Undefined` removes the member instead. */
  function Insert(obj: map<string, Json>, key: string, value: Json): (r: map<string, Json>)
    ensures forall k :: Value(r, k) == if k == key then value else Value(obj, k)
  {
    if value == Undefined then obj - {key} else obj[key := value]
  }

  /** The error codes of section 5.1 of JSON-RPC 2.0. */
  const ParseError: int := -32700
  const InvalidRequest: int := -32600
  const MethodNotFound: int := -32601
  const InvalidParams: int := -32602
  const InternalError: int := -32603

  /** The versions a request can be recognised as; the error codes above are the others. */
  const InvalidElement: int := 0
  const JsonRpc2_0: int := 1
  const JsonRpc2_0_Resource: int := 2

  /** `jsonRpcErrorToString`: the message of an error code. */
  function ErrorToString(code: int): (r: string)
  {
    if -32099 <= code <= -32000 then "Server error"
    else if code == ParseError then "Parse error"
    else if code == InvalidRequest then "Invalid Request"
    else if code == MethodNotFound then "Method not found"
    else if code == InvalidParams then "Invalid params"
    else if code == InternalError then "Internal error"
    else ""
  }

  /** The five standard codes of section 5.1. */
  predicate StandardCode(code: int)
  {
    code == ParseError || code == InvalidRequest || code == MethodNotFound || code == InvalidParams || code == InternalError
  }

  /**
   * A code has a message exactly when it is one of the five standard codes
   * or lies in the range reserved for server errors; the standard codes have
   * five different messages, none of them "Server error".
   */
  lemma ErrorMessages(code: int, other: int)
    ensures ErrorToString(code) != "" <==> StandardCode(code) || -32099 <= code <= -32000
    ensures ErrorToString(code) == "Server error" <==> -32099 <= code <= -32000
    ensures StandardCode(code) && StandardCode(other) && code != other ==> ErrorToString(code) != ErrorToString(other)
    ensures code >= InvalidElement ==> ErrorToString(code) == ""
  {
  }

  /** What `dissectRequestObject` makes of a request. */
  datatype Request = Request(version: int, methodName: string, path: string, params: map<string, Json>, id: Json)

  /** A request of the given version with every other member at its default. */
  function Rejected(version: int): Request
  {
    Request(version, "", "", map[], Null)
  }

  /** `jsonrpc` is the string "2.0", `method` a string and `id` none of bool, array or object. */
  predicate Sane(obj: map<string, Json>)
  {
    Value(obj, "jsonrpc") == Str("2.0")
    && Value(obj, "method").Str?
    && !Value(obj, "id").Bool? && !Value(obj, "id").Array? && !Value(obj, "id").Object?
  }

  /** `params` is absent or an object. */
  predicate ParamsAllowed(obj: map<string, Json>)
  {
    Value(obj, "params").Undefined? || Value(obj, "params").Object?
  }

  /** The three cases of the resource extension's `path` member. */
  datatype PathKind = NoPath | GivenPath | BadPath

  function PathOf(obj: map<string, Json>): PathKind
  {
    var path := Value(obj, "path");
    if path.Undefined? then NoPath else if path.Str? then GivenPath else BadPath
  }

  /** `QJsonValue::toObject().toVariantMap()`: the members of an object, none for anything else. */
  function ObjectMembers(v: Json): map<string, Json>
  {
    if v.Object? then v.members else map[]
  }

  /** `dissectRequestObject`: the version of the request and, when it is valid, its members. */
  function Dissect(obj: map<string, Json>): (r: Request)
    ensures r.version == InvalidRequest <==> !Sane(obj) || (ParamsAllowed(obj) && PathOf(obj) == BadPath)
    ensures r.version == InvalidParams <==> Sane(obj) && !ParamsAllowed(obj)
    ensures r.version == JsonRpc2_0_Resource <==> Sane(obj) && ParamsAllowed(obj) && PathOf(obj) == GivenPath
    ensures r.version == JsonRpc2_0 <==> Sane(obj) && ParamsAllowed(obj) && PathOf(obj) == NoPath
    ensures r.version == JsonRpc2_0 || r.version == JsonRpc2_0_Resource ==>
              Str(r.methodName) == Value(obj, "method") && r.params == ObjectMembers(Value(obj, "params")) && r.id == Value(obj, "id")
    ensures r.version == JsonRpc2_0_Resource ==> Value(obj, "path") == Str(r.path)
    ensures r.version == JsonRpc2_0 ==> r.path == ""
    ensures r.version == InvalidRequest || r.version == InvalidParams ==> r == Rejected(r.version)
  {
    var jsonrpc := Value(obj, "jsonrpc");
    var methodName := Value(obj, "method");
    var params := Value(obj, "params");
    var id := Value(obj, "id");
    var path := Value(obj, "path");
    if !jsonrpc.Str? || id.Bool? || id.Array? || id.Object? || !methodName.Str? || jsonrpc.s != "2.0" then
      Rejected(InvalidRequest)
    else if !params.Undefined? && !params.Object? then
      Rejected(InvalidParams)
    else if !path.Undefined? && !path.Str? then
      Rejected(InvalidRequest)
    else
      Request(if path.Undefined? then JsonRpc2_0 else JsonRpc2_0_Resource, methodName.s, if path.Str? then path.s else "",
              ObjectMembers(params), id)
  }

  /**
   * A request object as a client writes it: the method, the optional
   * parameters, the optional id and the optional resource path.
   */
  function RequestObject(methodName: string, params: Json, id: Json, path: Json): map<string, Json>
  {
    Insert(Insert(Insert(map["jsonrpc" := Str("2.0"), "method" := Str(methodName)], "params", params), "id", id), "path", path)
  }

  /** Any well-formed request object is taken apart into exactly what it was built from. */
  lemma DissectRoundTrip(methodName: string, params: Json, id: Json, path: Json)
    requires params.Undefined? || params.Object?
    requires !id.Bool? && !id.Array? && !id.Object?
    requires path.Undefined? || path.Str?
    ensures var r := Dissect(RequestObject(methodName, params, id, path));
            r.version == (if path.Undefined? then JsonRpc2_0 else JsonRpc2_0_Resource)
            && r.methodName == methodName && r.params == ObjectMembers(params) && r.id == id
            && (path.Str? ==> r.path == path.s)
  {
    var o := RequestObject(methodName, params, id, path);
    assert Value(o, "jsonrpc") == Str("2.0") && Value(o, "method") == Str(methodName);
    assert Value(o, "params") == params && Value(o, "id") == id && Value(o, "path") == path;
  }

  /** A response: the result or the error object, and the id it answers. */
  datatype Response = Response(error: bool, response: Json, id: Json)

  /**
   * `QJsonValue::fromVariant`: an invalid variant becomes `null`; every other
   * value is already JSON here.
   */
  function FromVariant(v: Json): (r: Json)
    ensures r != Undefined && (v != Undefined ==> r == v)
  {
    if v == Undefined then Null else v
  }

  /** `getSuccessResponse`. */
  function SuccessResponse(id: Json, result: Json): (r: Response)
    ensures !r.error && r.id == id && r.response == FromVariant(result)
  {
    Response(false, FromVariant(result), id)
  }

  /** `getErrorResponse`: `data` is left out of the error object when it is invalid. */
  function ErrorResponse(id: Json, code: int, data: Json): (r: Response)
    ensures r.error && r.id == id && r.response.Object?
    ensures Value(r.response.members, "code") == Number(code)
    ensures Value(r.response.members, "message") == Str(ErrorToString(code))
    ensures Value(r.response.members, "data") == if data == Undefined then Undefined else data
    ensures r.response.members.Keys == if data == Undefined then {"code", "message"} else {"code", "message", "data"}
  {
    var error := map["code" := Number(code), "message" := Str(ErrorToString(code))];
    Response(true, Object(if data == Undefined then error else error["data" := FromVariant(data)]), id)
  }

  /** `serializeResponse`. */
  function Serialize(response: Response): (r: map<string, Json>)
  {
    var obj := map["jsonrpc" := Str("2.0"), "id" := if response.id.Undefined? then Null else response.id];
    Insert(obj, if response.error then "error" else "result", response.response)
  }

  /**
   * A serialized response has "jsonrpc": "2.0", the id (null for none), and
   * the response under "error" or "result" as the flag says; the other of
   * the two is absent.
   */
  lemma SerializeMembers(response: Response)
    ensures var o := Serialize(response);
            Value(o, "jsonrpc") == Str("2.0")
            && Value(o, "id") == (if response.id.Undefined? then Null else response.id)
            && Value(o, if response.error then "error" else "result") == response.response
            && Value(o, if response.error then "result" else "error") == Undefined
            && o.Keys <= {"jsonrpc", "id", "result", "error"}
  {
  }

  /** Reads a response back from its serialized form, as a client would. */
  function ReadResponse(o: map<string, Json>): Option<Response>
  {
    if Value(o, "jsonrpc") != Str("2.0") then None
    else if "error" in o && "result" !in o then Some(Response(true, o["error"], Value(o, "id")))
    else if "result" in o && "error" !in o then Some(Response(false, o["result"], Value(o, "id")))
    else None
  }

  /** Every response built by the two constructors reads back as itself, once it has an id. */
  lemma SerializeRoundTrip(response: Response)
    requires response.response != Undefined && response.id != Undefined
    ensures ReadResponse(Serialize(response)) == Some(response)
  {
    SerializeMembers(response);
  }

  /** The responses built by `SuccessResponse` and `ErrorResponse` always carry a response value. */
  lemma ConstructedResponsesRead(id: Json, result: Json, code: int, data: Json)
    requires id != Undefined
    ensures ReadResponse(Serialize(SuccessResponse(id, result))) == Some(SuccessResponse(id, result))
    ensures ReadResponse(Serialize(ErrorResponse(id, code, data))) == Some(ErrorResponse(id, code, data))
  {
    SerializeRoundTrip(SuccessResponse(id, result));
    SerializeRoundTrip(ErrorResponse(id, code, data));
  }

  /** `serializeResponseList`: the serialized responses, in order. */
  method SerializeList(list: seq<Response>) returns (serialized: seq<Json>)
    ensures |serialized| == |list|
    ensures forall i | 0 <= i < |list| :: serialized[i] == Object(Serialize(list[i]))
  {
    serialized := [];
    var i := 0;
    while i < |list|
      invariant i <= |list| && |serialized| == i
      invariant forall j | 0 <= j < i :: serialized[j] == Object(Serialize(list[j]))
    {
      serialized := serialized + [Object(Serialize(list[i]))];
      i := i + 1;
    }
  }
}
