/**
 * The value-level parts of `RestfulHttpNode`: the five handler slots of a pattern (one per verb), the pattern
 * table kept in `QMap` key order and walked from the greatest key down, and
 * the binding of a handler's parameters to the captures of a match.
 */
module RestfulRoutes {
  import opened HttpTypes
  import opened QStrings
  import B = Bytes
  import HM = HeaderMaps
  import HW = HttpWriter
  import HC = HttpClients

  // ---------------------------------------------------------------------------
  // The five handler slots of a pattern

  const NumberOfHandlers: nat := 5

  /** `InvokeInfo`: the handler's callback, the names of its path arguments, and whether it waits for the body. */
  datatype InvokeInfo = InvokeInfo(callback: Callback, argNames: seq<string>, waitForRequestBody: bool)

  /** A slot no handler was registered in. */
  const Unset := InvokeInfo(NoCallback, [], false)

  /** The `handlers` array of a pattern: one slot per verb. */
  type Slots = h: seq<InvokeInfo> | |h| == NumberOfHandlers witness [Unset, Unset, Unset, Unset, Unset]

  /** The slots of a newly inserted pattern. */
  const NoHandlers: Slots := [Unset, Unset, Unset, Unset, Unset]

  /** The verb whose bit `setRestfulHandler` tests to fill slot `i`. */
  function SlotVerb(i: nat): HttpVerb
    requires i < NumberOfHandlers
  {
    [GET, POST, HEAD, PUT, DELETE][i]
  }

  /**
   * The slots after `setRestfulHandler` with `verbs`: GET writes slot 0,
   * POST 1, HEAD 2, PUT 3 and DELETE 4, and only those.
   */
  function SetHandlers(h: Slots, verbs: int, info: InvokeInfo): (r: Slots)
    ensures forall i :: 0 <= i < NumberOfHandlers ==> r[i] == if VerbIn(verbs, SlotVerb(i)) then info else h[i]
  {
    var h0 := if VerbIn(verbs, GET) then h[0 := info] else h;
    var h1 := if VerbIn(verbs, POST) then h0[1 := info] else h0;
    var h2 := if VerbIn(verbs, HEAD) then h1[2 := info] else h1;
    var h3 := if VerbIn(verbs, PUT) then h2[3 := info] else h2;
    if VerbIn(verbs, DELETE) then h3[4 := info] else h3
  }

  /** `ffs`: one more than the position of the lowest set bit, 0 for 0. */
  function Ffs(x: nat): (r: nat)
    ensures x > 0 ==> r > 0
    decreases x
  {
    if x == 0 then 0 else if x % 2 == 1 then 1 else 1 + Ffs(x / 2)
  }

  /** `findInvokeInfo`: slot `(ffs(verb) - 1) % 5` holds the handler for `verb`. */
  function HandlerIndex(verb: HttpVerb): (i: nat)
    requires verb != InvalidVerb
    ensures i < NumberOfHandlers && SlotVerb(i) == verb
  {
    assert Ffs(1) == 1 && Ffs(2) == 2 && Ffs(4) == 3 && Ffs(8) == 4 && Ffs(16) == 5;
    (Ffs(verb.Bit()) - 1) % NumberOfHandlers
  }

  /** A handler registered for a set of verbs is found for exactly the verbs in the set. */
  lemma HandlerFoundForVerbs(h: Slots, verbs: int, info: InvokeInfo, verb: HttpVerb)
    requires verb != InvalidVerb
    ensures VerbIn(verbs, verb) ==> SetHandlers(h, verbs, info)[HandlerIndex(verb)] == info
    ensures !VerbIn(verbs, verb) ==> SetHandlers(h, verbs, info)[HandlerIndex(verb)] == h[HandlerIndex(verb)]
  {
  }

  /** `AllVerbs` sets every slot. */
  lemma AllVerbsFillEverySlot(h: Slots, info: InvokeInfo)
    ensures SetHandlers(h, AllVerbs, info) == [info, info, info, info, info]
  {
  }

  // ---------------------------------------------------------------------------
  // The pattern table, a QMap from compiled pattern to its slots

  datatype Entry = Entry(pattern: string, handlers: Slots)

  /** `QMap` order: strictly ascending keys. */
  predicate Table(es: seq<Entry>)
  {
    forall i, j :: 0 <= i < j < |es| ==> Less(es[i].pattern, es[j].pattern)
  }

  /** The slots stored under `key`. */
  function Lookup(es: seq<Entry>, key: string): B.Option<Slots>
  {
    if es == [] then B.None
    else if es[0].pattern == key then B.Some(es[0].handlers)
    else Lookup(es[1..], key)
  }

  /** `QMap::insert` of a new key: before the first greater key. */
  function InsertEntry(es: seq<Entry>, e: Entry): seq<Entry>
  {
    if es == [] || Less(e.pattern, es[0].pattern) then [e] + es
    else [es[0]] + InsertEntry(es[1..], e)
  }

  /** The slots under `key` replaced, the table otherwise as it was. */
  function ReplaceEntry(es: seq<Entry>, key: string, handlers: Slots): (r: seq<Entry>)
    ensures |r| == |es| && forall i :: 0 <= i < |es| ==> r[i].pattern == es[i].pattern
  {
    if es == [] then []
    else if es[0].pattern == key then [Entry(key, handlers)] + es[1..]
    else [es[0]] + ReplaceEntry(es[1..], key, handlers)
  }

  /**
   * The table after `setRestfulHandler(verbs, path, ...)` with `key` the
   * compiled path: the key's slots (five empty ones for a new key) with the
   * verbs' slots set to `info`.
   */
  function WithHandler(es: seq<Entry>, key: string, verbs: int, info: InvokeInfo): (r: seq<Entry>)
  {
    match Lookup(es, key)
    case Some(h) => ReplaceEntry(es, key, SetHandlers(h, verbs, info))
    case None => InsertEntry(es, Entry(key, SetHandlers(NoHandlers, verbs, info)))
  }

  /**
   * Registering a handler keeps the table in key order, gives the key the
   * verbs' slots and keeps its other slots, and leaves every other key alone.
   */
  lemma WithHandlerSpec(es: seq<Entry>, key: string, verbs: int, info: InvokeInfo)
    requires Table(es)
    ensures Table(WithHandler(es, key, verbs, info))
    ensures Lookup(WithHandler(es, key, verbs, info), key)
         == B.Some(SetHandlers(if Lookup(es, key).Some? then Lookup(es, key).value else NoHandlers,
                               verbs, info))
    ensures forall k :: k != key ==> Lookup(WithHandler(es, key, verbs, info), k) == Lookup(es, k)
  {
    match Lookup(es, key)
    case Some(h) =>
      ReplaceSpec(es, key, SetHandlers(h, verbs, info));
    case None =>
      InsertSpec(es, Entry(key, SetHandlers(NoHandlers, verbs, info)));
  }

  lemma {:induction false} ReplaceSpec(es: seq<Entry>, key: string, handlers: Slots)
    requires Table(es) && Lookup(es, key).Some?
    ensures Table(ReplaceEntry(es, key, handlers))
    ensures Lookup(ReplaceEntry(es, key, handlers), key) == B.Some(handlers)
    ensures forall k :: k != key ==> Lookup(ReplaceEntry(es, key, handlers), k) == Lookup(es, k)
  {
    if es[0].pattern != key {
      ReplaceSpec(es[1..], key, handlers);
    }
  }

  lemma {:induction false} InsertSpec(es: seq<Entry>, e: Entry)
    requires Table(es) && Lookup(es, e.pattern).None?
    ensures Table(InsertEntry(es, e))
    ensures Lookup(InsertEntry(es, e), e.pattern) == B.Some(e.handlers)
    ensures forall k :: k != e.pattern ==> Lookup(InsertEntry(es, e), k) == Lookup(es, k)
    ensures forall x :: x in InsertEntry(es, e) <==> x in es || x == e
  {
    if es == [] || Less(e.pattern, es[0].pattern) {
      var r := [e] + es;
      assert r[1..] == es;
      forall i, j | 0 <= i < j < |r| ensures Less(r[i].pattern, r[j].pattern) {
        if i == 0 && j > 1 {
          LessTransitive(e.pattern, es[0].pattern, es[j - 1].pattern);
        }
      }
    } else {
      LessTotal(e.pattern, es[0].pattern);
      InsertSpec(es[1..], e);
      var rest := InsertEntry(es[1..], e);
      var r := [es[0]] + rest;
      assert r[1..] == rest;
      forall j | 0 < j < |r| ensures Less(es[0].pattern, r[j].pattern) {
        assert r[j] in rest;
        if r[j] != e {
          var k :| 0 <= k < |es[1..]| && es[1..][k] == r[j];
        }
      }
    }
  }

  // ---------------------------------------------------------------------------
  // The reverse walk of invokePath

  /** The named captures of a match; `captured(name)` of an unknown group is empty. */
  datatype NamedMatch = NamedMatch(named: map<string, string>)
  {
    function Captured(name: string): string
    {
      if name in named then named[name] else ""
    }
  }

  /** The regular expression engine, a parameter: the match of `pattern` on a subject, if any. */
  type PatternMatcher = (string, string) -> B.Option<NamedMatch>

  /** The greatest position below `n` whose pattern matches, or -1. */
  function LastMatch(es: seq<Entry>, subject: string, mt: PatternMatcher, n: nat): (r: int)
    requires n <= |es|
    ensures -1 <= r < n && (r >= 0 ==> mt(es[r].pattern, subject).Some?)
    ensures forall j :: r < j < n ==> mt(es[j].pattern, subject).None?
  {
    if n == 0 then -1
    else if mt(es[n - 1].pattern, subject).Some? then n - 1
    else LastMatch(es, subject, mt, n - 1)
  }

  /**
   * The do-while walk of `invokePath`: from the greatest key down, the
   * first pattern that matches; -1 when none does (or the table is empty).
   */
  method FindPattern(es: seq<Entry>, subject: string, mt: PatternMatcher) returns (found: int)
    ensures found == LastMatch(es, subject, mt, |es|)
  {
    var i := |es|;
    while i > 0
      invariant 0 <= i <= |es|
      invariant LastMatch(es, subject, mt, |es|) == LastMatch(es, subject, mt, i)
    {
      i := i - 1;
      if mt(es[i].pattern, subject).Some? {
        return i;
      }
    }
    return -1;
  }

  /** The walk takes the matching pattern with the greatest key: every greater key fails to match. */
  lemma LastMatchIsGreatestKey(es: seq<Entry>, subject: string, mt: PatternMatcher)
    requires Table(es)
    ensures var r := LastMatch(es, subject, mt, |es|);
            r >= 0 ==> forall j :: 0 <= j < |es| && Less(es[r].pattern, es[j].pattern) ==> mt(es[j].pattern, subject).None?
    ensures LastMatch(es, subject, mt, |es|) == -1 ==> forall j :: 0 <= j < |es| ==> mt(es[j].pattern, subject).None?
  {
    var r := LastMatch(es, subject, mt, |es|);
    if r >= 0 {
      forall j | 0 <= j < |es| && Less(es[r].pattern, es[j].pattern) ensures mt(es[j].pattern, subject).None? {
        if j <= r {
          if j < r { LessAsymmetric(es[j].pattern, es[r].pattern); }
          else { LessIrreflexive(es[j].pattern); }
        }
      }
    }
  }

  /**
   * The walk as written: it decrements `end()` before the first test, which
   * is undefined for a node with no pattern; None stands for that case.
   */
  function WalkAsWritten(es: seq<Entry>, subject: string, mt: PatternMatcher): B.Option<int>
  {
    if es == [] then B.None else B.Some(LastMatch(es, subject, mt, |es|))
  }

  /** With no pattern registered the walk as written is undefined, where the fallback was intended. */
  lemma EmptyTableWalk(subject: string, mt: PatternMatcher)
    ensures WalkAsWritten([], subject, mt).None?
    ensures LastMatch([], subject, mt, 0) == -1
  {
  }

  /** With at least one pattern the walk as written is the intended one. */
  lemma WalkAsWrittenAgrees(es: seq<Entry>, subject: string, mt: PatternMatcher)
    requires es != []
    ensures WalkAsWritten(es, subject, mt) == B.Some(LastMatch(es, subject, mt, |es|))
  {
  }

  // ---------------------------------------------------------------------------
  // argumentValues

  /** A parameter type of a handler: `Nuria::HttpClient*` or another meta-type. */
  datatype ArgType = ClientParam | Other(id: int)

  /** An argument: the client, or the variant converted from captured text to a type. */
  datatype Argument = ClientArgument | Converted(data: string, targetType: int)

  /** `Some(args)` prefixed by `args0`; None stays None. */
  function Prefixed(args0: seq<Argument>, rest: B.Option<seq<Argument>>): B.Option<seq<Argument>>
  {
    if rest.None? then B.None else B.Some(args0 + rest.value)
  }

  /**
   * The arguments for `types`, the path arguments named by `names` in
   * order: the client for a `HttpClient*` parameter; for any other the
   * capture of the next name, converted, which must be non-empty and
   * convertible (`valid`, a parameter: `QVariant` conversion is not
   * modelled). None when a parameter cannot be bound.
   */
  function Bind(names: seq<string>, types: seq<ArgType>, m: NamedMatch, valid: (string, int) -> bool)
    : (r: B.Option<seq<Argument>>)
    ensures r.Some? ==> |r.value| == |types|
    decreases |types|
  {
    if types == [] then B.Some([])
    else if types[0].ClientParam? then Prefixed([ClientArgument], Bind(names, types[1..], m, valid))
    else
      var data := if names == [] then "" else m.Captured(names[0]);
      if data == "" || !valid(data, types[0].id) then B.None
      else Prefixed([Converted(data, types[0].id)], Bind(names[1..], types[1..], m, valid))
  }

  /**
   * `argumentValues` with a cursor into `names` that only non-client
   * parameters advance: the bound arguments, or the empty list when a
   * parameter cannot be bound.
   */
  method ArgumentValues(names: seq<string>, types: seq<ArgType>, m: NamedMatch, valid: (string, int) -> bool)
    returns (list: seq<Argument>)
    ensures var b := Bind(names, types, m, valid); list == if b.Some? then b.value else []
  {
    list := [];
    var i := 0;
    var k := 0;
    assert names[0..] == names && types[0..] == types;
    PrefixedNone(Bind(names, types, m, valid));
    while i < |types|
      invariant 0 <= i <= |types| && 0 <= k <= |names|
      invariant Bind(names, types, m, valid) == Prefixed(list, Bind(names[k..], types[i..], m, valid))
    {
      assert types[i..][0] == types[i] && types[i..][1..] == types[i + 1..];
      if types[i].ClientParam? {
        PrefixedTwice(list, [ClientArgument], Bind(names[k..], types[i + 1..], m, valid));
        list := list + [ClientArgument];
        i := i + 1;
        continue;
      }
      var data := if k < |names| then m.Captured(names[k]) else "";
      assert k < |names| ==> names[k..][0] == names[k] && names[k..][1..] == names[k + 1..];
      if data == "" || !valid(data, types[i].id) {
        return [];
      }
      PrefixedTwice(list, [Converted(data, types[i].id)], Bind(names[k + 1..], types[i + 1..], m, valid));
      list := list + [Converted(data, types[i].id)];
      i := i + 1;
      k := k + 1;
    }
    assert types[i..] == [];
  }

  lemma PrefixedNone(b: B.Option<seq<Argument>>)
    ensures Prefixed([], b) == b
  {
    if b.Some? {
      assert [] + b.value == b.value;
    }
  }

  lemma PrefixedTwice(a: seq<Argument>, c: seq<Argument>, b: B.Option<seq<Argument>>)
    ensures Prefixed(a, Prefixed(c, b)) == Prefixed(a + c, b)
  {
    if b.Some? {
      assert a + (c + b.value) == (a + c) + b.value;
    }
  }

  /** The result of `argumentValues` as written: bound, refused, or undefined (`names.at(i)` out of range). */
  datatype Binding = Bound(args: seq<Argument>) | Refused | Undefined

  /**
   * `argumentValues` as written: a non-client parameter at position `i`
   * takes the capture of `names[i]`, although the names leave out the
   * client parameters.
   */
  function BindAsWritten(names: seq<string>, types: seq<ArgType>, i: nat, m: NamedMatch, valid: (string, int) -> bool)
    : Binding
    requires i <= |types|
    decreases |types| - i
  {
    if i == |types| then Bound([])
    else if types[i].ClientParam? then
      match BindAsWritten(names, types, i + 1, m, valid)
      case Bound(rest) => Bound([ClientArgument] + rest)
      case other => other
    else if i >= |names| then Undefined
    else
      var data := m.Captured(names[i]);
      if data == "" || !valid(data, types[i].id) then Refused
      else
        match BindAsWritten(names, types, i + 1, m, valid)
        case Bound(rest) => Bound([Converted(data, types[i].id)] + rest)
        case other => other
  }

  /**
   * A handler `(HttpClient *client, int id)` with the argument name "id":
   * as written the integer parameter reads `names.at(1)`, past the end of
   * the list; with a cursor over the names it gets the capture of "id".
   */
  lemma ClientFirstAsWritten(m: NamedMatch, valid: (string, int) -> bool, intType: int)
    requires m.Captured("id") != "" && valid(m.Captured("id"), intType)
    ensures BindAsWritten(["id"], [ClientParam, Other(intType)], 0, m, valid) == Undefined
    ensures Bind(["id"], [ClientParam, Other(intType)], m, valid)
         == B.Some([ClientArgument, Converted(m.Captured("id"), intType)])
  {
    var types := [ClientParam, Other(intType)];
    assert types[1..] == [Other(intType)];
    assert ["id"][1..] == [] && types[1..][1..] == [];
    var arg := Converted(m.Captured("id"), intType);
    assert Bind([], [], m, valid) == B.Some([]);
    assert [Other(intType)][1..] == [] && ["id"][0] == "id" && [arg] + [] == [arg];
    assert Bind(["id"], [Other(intType)], m, valid) == B.Some([arg]);
    assert [ClientArgument] + [arg] == [ClientArgument, arg];
  }

  /** When every path parameter comes before the client parameters, the two bindings agree. */
  lemma {:induction false} AsWrittenAgreesWhenClientLast(names: seq<string>, types: seq<ArgType>, i: nat,
                                                         m: NamedMatch, valid: (string, int) -> bool)
    requires i <= |types| && i <= |names|
    requires forall a, b :: 0 <= a < b < |types| && types[a].ClientParam? ==> types[b].ClientParam?
    requires forall a :: 0 <= a < |types| && types[a].Other? ==> a < |names|
    ensures var b := Bind(names[i..], types[i..], m, valid);
            BindAsWritten(names, types, i, m, valid) == if b.Some? then Bound(b.value) else Refused
    decreases |types| - i
  {
    if i < |types| {
      assert types[i..][0] == types[i] && types[i..][1..] == types[i + 1..];
      if types[i].ClientParam? {
        AllClients(names[i..], types[i..], m, valid);
        AllClientsAsWritten(names, types, i, m, valid);
        assert BindAsWritten(names, types, i, m, valid).args == Bind(names[i..], types[i..], m, valid).value;
      } else {
        assert names[i..][0] == names[i] && names[i..][1..] == names[i + 1..];
        AsWrittenAgreesWhenClientLast(names, types, i + 1, m, valid);
      }
    } else {
      assert types[i..] == [];
    }
  }

  /** Only client parameters: both bindings give the client everywhere. */
  lemma {:induction false} AllClients(names: seq<string>, types: seq<ArgType>, m: NamedMatch, valid: (string, int) -> bool)
    requires forall a :: 0 <= a < |types| ==> types[a].ClientParam?
    ensures Bind(names, types, m, valid).Some?
    ensures forall a :: 0 <= a < |types| ==> Bind(names, types, m, valid).value[a] == ClientArgument
    decreases |types|
  {
    if types != [] {
      assert forall a :: 0 <= a < |types[1..]| ==> types[1..][a] == types[a + 1];
      AllClients(names, types[1..], m, valid);
    }
  }

  lemma {:induction false} AllClientsAsWritten(names: seq<string>, types: seq<ArgType>, i: nat,
                                               m: NamedMatch, valid: (string, int) -> bool)
    requires i <= |types| && forall a :: i <= a < |types| ==> types[a].ClientParam?
    ensures BindAsWritten(names, types, i, m, valid).Bound?
    ensures |BindAsWritten(names, types, i, m, valid).args| == |types| - i
    ensures forall a :: 0 <= a < |types| - i ==> BindAsWritten(names, types, i, m, valid).args[a] == ClientArgument
    decreases |types| - i
  {
    if i < |types| {
      AllClientsAsWritten(names, types, i + 1, m, valid);
    }
  }

  /** A path parameter with no name left is refused by the intended binding; as written it is out of range. */
  lemma NoNameLeft(names: seq<string>, types: seq<ArgType>, i: nat, m: NamedMatch, valid: (string, int) -> bool)
    requires i < |types| && |names| <= i && types[i].Other?
    ensures BindAsWritten(names, types, i, m, valid) == Undefined
    ensures Bind([], types[i..], m, valid).None?
  {
    assert types[i..][0] == types[i];
  }

  // ---------------------------------------------------------------------------
  // argumentNamesWithoutClient

  const ClientTypeName := "Nuria::HttpClient*"

  /** The names of the parameters whose type is not `Nuria::HttpClient*`, in order. */
  function Kept(names: seq<string>, typeNames: seq<string>): (r: seq<string>)
    requires |names| == |typeNames|
    ensures |r| <= |names|
  {
    if names == [] then []
    else (if typeNames[0] == ClientTypeName then [] else [names[0]]) + Kept(names[1..], typeNames[1..])
  }

  /** `argumentNamesWithoutClient`: the loop over the method's parameter names. */
  method ArgumentNamesWithoutClient(names: seq<string>, typeNames: seq<string>) returns (list: seq<string>)
    requires |names| == |typeNames|
    ensures list == Kept(names, typeNames)
  {
    list := [];
    var i := 0;
    while i < |names|
      invariant 0 <= i <= |names|
      invariant Kept(names, typeNames) == list + Kept(names[i..], typeNames[i..])
    {
      assert names[i..][1..] == names[i + 1..] && typeNames[i..][1..] == typeNames[i + 1..];
      if typeNames[i] != ClientTypeName {
        list := list + [names[i]];
      }
      i := i + 1;
    }
  }

  /** The parameter types agree with the type names: `HttpClient*` exactly where the name says so. */
  predicate Described(types: seq<ArgType>, typeNames: seq<string>)
  {
    |types| == |typeNames| && forall a :: 0 <= a < |types| ==> (types[a].ClientParam? <==> typeNames[a] == ClientTypeName)
  }

  /**
   * For a registered method, binding with the names `argumentNamesWithoutClient`
   * keeps gives every path parameter the capture named after that parameter,
   * and fails only when one of those captures is empty or not convertible.
   */
  lemma {:induction false} BindByOwnName(argNames: seq<string>, typeNames: seq<string>, types: seq<ArgType>,
                                         m: NamedMatch, valid: (string, int) -> bool)
    requires |argNames| == |typeNames| && Described(types, typeNames)
    ensures var b := Bind(Kept(argNames, typeNames), types, m, valid);
            b.Some? <==> forall a :: 0 <= a < |types| && types[a].Other? ==>
                           m.Captured(argNames[a]) != "" && valid(m.Captured(argNames[a]), types[a].id)
    ensures var b := Bind(Kept(argNames, typeNames), types, m, valid);
            b.Some? ==> forall a :: 0 <= a < |types| ==>
                          b.value[a] == if types[a].ClientParam? then ClientArgument
                                        else Converted(m.Captured(argNames[a]), types[a].id)
  {
    if types != [] {
      var rest := Kept(argNames[1..], typeNames[1..]);
      assert Described(types[1..], typeNames[1..]) by {
        forall a | 0 <= a < |types[1..]| ensures types[1..][a].ClientParam? <==> typeNames[1..][a] == ClientTypeName {
          assert types[1..][a] == types[a + 1] && typeNames[1..][a] == typeNames[a + 1];
        }
      }
      BindByOwnName(argNames[1..], typeNames[1..], types[1..], m, valid);
      if types[0].ClientParam? {
        assert Kept(argNames, typeNames) == rest;
      } else {
        assert Kept(argNames, typeNames) == [argNames[0]] + rest;
        assert ([argNames[0]] + rest)[1..] == rest;
      }
    }
  }

  // ---------------------------------------------------------------------------
  // addJsonContentTypeHeaderToResponse

  function JsonType(): B.Bytes
  {
    B.Latin1("application/json")
  }

  /** Sets `Content-Type: application/json` only when the response has no Content-Type yet. */
  method AddJsonContentTypeHeader(client: HC.Client)
    modifies client.response`headers
    ensures HM.ContainsKey(old(client.response.headers), HC.ContentTypeKey()) || client.response.headerSent
            ==> client.response.headers == old(client.response.headers)
    ensures !HM.ContainsKey(old(client.response.headers), HC.ContentTypeKey()) && !client.response.headerSent
            ==> HM.Values(client.response.headers, HC.ContentTypeKey()) == [JsonType()]
                && HW.OthersUnchanged(old(client.response.headers), client.response.headers, HC.ContentTypeKey())
  {
    if !HM.ContainsKey(client.response.headers, HC.ContentTypeKey()) {
      var _ := client.SetResponseHeader(HC.ContentTypeKey(), JsonType(), false);
    }
  }
}
