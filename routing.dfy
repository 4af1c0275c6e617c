/**
 * How a request path travels through the node tree: `HttpNode::invokePath`
 * with `callSlotByName` and `sendStaticResource`, the overrides of
 * `RewriteHttpNode` (rewrite after the plain lookup failed) and of
 * `RestfulHttpNode` (patterns first, longest key first), `invokeMatch`, and
 * `HttpServer::invokeByPath`, which answers 404 when nothing else did.
 *
 * Routing is written as functions from the tree and the request to an
 * `Outcome`: whether the request was taken, what happened to the client in
 * order, and whether a response header went out. The access check, the
 * file system, the regular expression engine, the callbacks and the
 * conversion of arguments are parameters (`Env`).
 */
module HttpRouting {
  import opened HttpTypes
  import opened QStrings
  import B = Bytes
  import RW = RewriteRules
  import RR = RestfulRoutes
  import opened HttpNodes

  /** What routing reads of the client. */
  datatype Request = Request(verb: HttpVerb, secure: bool, rangeStart: int, rangeEnd: int,
                             postBodyLength: int, postBodyTransferred: int, headerSent: bool)

  /** What routing does to the client. */
  datatype Event =
    | Killed(code: int)                                          // killConnection(code)
    | RedirectedToEncryption                                     // the server's redirectClientToUseEncryption
    | SlotAssigned(info: SlotInfo)                               // the client keeps the slot to call once the body is in
    | SlotCalled(info: SlotInfo)                                 // the slot's callback is called now
    | FilePiped(file: string, maxLen: int)                       // pipeToClient of the static file
    | HandlerDeferred(callback: Callback, args: seq<RR.Argument>) // invokeMatchLater
    | HandlerCalled(callback: Callback, args: seq<RR.Argument>)   // invokeMatchNow
    | Rerouted(path: string)                                     // a rewrite routes the new path
    | OutOfFuel                                                  // the bound on re-routing was reached

  datatype Outcome = Outcome(ok: bool, events: seq<Event>, headerSent: bool)

  /** What routing consults beyond the tree and the request. */
  datatype Env = Env(
    allow: (Node, string, seq<string>, int) -> bool,          // allowAccessToClient of a node
    opens: (string, string) -> bool,                          // the file opens in the resource directory
    seeks: (string, string, int) -> bool,                     // the opened file seeks to the range start
    redirectSends: bool,                                      // the redirect to encryption sends a header
    rewriteMatcher: RW.Matcher,
    patternMatcher: RR.PatternMatcher,
    argTypes: Callback -> seq<RR.ArgType>,                    // Callback::argumentTypes
    converts: (string, int) -> bool,                          // QVariant::convert succeeds
    handler: (Callback, seq<RR.Argument>) -> (bool, bool))    // invokeMatchNow: its result, and whether it sent a header

  /** The client after `o`: the same request, with the header state `o` left. */
  function After(c: Request, o: Outcome): (c': Request)
    ensures c'.verb == c.verb && c'.secure == c.secure && c'.headerSent == o.headerSent
  {
    c.(headerSent := o.headerSent)
  }

  /** Nothing happened and nothing was taken. */
  function Declined(c: Request): (r: Outcome)
    ensures !r.ok && r.events == [] && r.headerSent == c.headerSent
  {
    Outcome(false, [], c.headerSent)
  }

  /** `killConnection(code)` and `return false`: the connection is closed with a header sent. */
  function Kill(events: seq<Event>, code: int): (r: Outcome)
    ensures !r.ok && r.headerSent && r.events == events + [Killed(code)]
  {
    Outcome(false, events + [Killed(code)], true)
  }

  /** `first || second`, where `second` ran on the client as `first` left it. */
  function OrElse(first: Outcome, second: Outcome): (r: Outcome)
    ensures first.ok ==> r == first
    ensures !first.ok ==> r.ok == second.ok && r.events == first.events + second.events && r.headerSent == second.headerSent
  {
    if first.ok then first else Outcome(second.ok, first.events + second.events, second.headerSent)
  }

  /** A re-routed outcome, with the new path noted first. */
  function Rerouting(path: string, o: Outcome): Outcome
  {
    o.(events := [Rerouted(path)] + o.events)
  }

  lemma ReroutingSound(path: string, o: Outcome, c: Request, env: Env)
    requires Sound(o, c, env)
    ensures Sound(Rerouting(path, o), c, env)
  {
    assert forall e :: e in Rerouting(path, o).events ==> e == Rerouted(path) || e in o.events;
  }

  /** The parts of a request path: the non-empty sections between slashes. */
  predicate Segments(parts: seq<string>)
  {
    forall i :: 0 <= i < |parts| ==> '/' !in parts[i]
  }

  /** A file name none of whose sections is "." or "..", so it stays below the resource directory. */
  predicate Confined(file: string)
  {
    forall part :: part in Split(file, '/') ==> part != "." && part != ".."
  }

  /** A slot may run for this request: a valid callback, an allowed verb, and encryption if demanded. */
  predicate SlotMayRun(info: SlotInfo, verb: HttpVerb, secure: bool)
  {
    info.IsValid() && VerbIn(info.allowedVerbs, verb) && (info.forceEncrypted ==> secure)
  }

  /** What routing may do to a client that made a request with this verb over this connection. */
  predicate Permitted(e: Event, verb: HttpVerb, secure: bool, env: Env)
  {
    match e
    case Killed(code) => code == 403 || code == 404 || code == 405 || code == 416
    case RedirectedToEncryption => !secure
    case SlotAssigned(info) => SlotMayRun(info, verb, secure)
    case SlotCalled(info) => SlotMayRun(info, verb, secure) && (info.streamPostBody || (verb != POST && verb != PUT))
    case FilePiped(file, _) => verb == GET && Confined(file)
    case HandlerDeferred(cb, args) => |args| == |env.argTypes(cb)|
    case HandlerCalled(cb, args) => |args| == |env.argTypes(cb)|
    case Rerouted(_) => true
    case OutOfFuel => true
  }

  /** Every event is permitted, and a header once sent stays sent. */
  predicate Sound(o: Outcome, c: Request, env: Env)
  {
    (forall e :: e in o.events ==> Permitted(e, c.verb, c.secure, env)) && (c.headerSent ==> o.headerSent)
  }

  lemma OrElseSound(first: Outcome, second: Outcome, c: Request, env: Env)
    requires Sound(first, c, env) && Sound(second, After(c, first), env)
    ensures Sound(OrElse(first, second), c, env)
  {
  }

  /**
   * `callSlotByName`: a missing slot or one without a valid callback
   * declines; a verb the slot does not allow is killed with 405; a slot
   * demanding encryption on a plain connection has the client redirected.
   * Otherwise the slot is assigned to the client and called, except that a
   * POST or PUT without streaming waits for the body; either way the slot
   * is taken. A slot that has been called may itself send the header; the
   * outcome keeps the header state the request came with, which routing
   * never looks at again once a slot has taken the request.
   */
  function CallSlotByName(n: Node, slot: string, c: Request, env: Env): (r: Outcome)
    reads n
    ensures Sound(r, c, env)
    ensures r.ok <==> slot in n.slots && SlotMayRun(n.slots[slot], c.verb, c.secure)
    ensures r.ok ==> |r.events| > 0 && r.events[0] == SlotAssigned(n.slots[slot]) && r.headerSent == c.headerSent
  {
    if slot !in n.slots then Declined(c)
    else
      var info := n.slots[slot];
      if !info.IsValid() then Declined(c)
      else if !VerbIn(info.allowedVerbs, c.verb) then Kill([], 405)
      else if info.forceEncrypted && !c.secure then Outcome(false, [RedirectedToEncryption], c.headerSent || env.redirectSends)
      else if !info.streamPostBody && (c.verb == POST || c.verb == PUT) then Outcome(true, [SlotAssigned(info)], c.headerSent)
      else Outcome(true, [SlotAssigned(info), SlotCalled(info)], c.headerSent)
  }

  /** The file `sendStaticResource` opens: "index.html" for no path, else the parts from `index` on. */
  function StaticFile(path: seq<string>, index: nat): string
  {
    if path == [] then "index.html" else Join(if index <= |path| then path[index..] else [], '/')
  }

  /**
   * `sendStaticResource(path, index)`: nothing without a resource
   * directory; a path with a "." or ".." part anywhere, or of more than one
   * part from `index` on when nested resources are off, declines; a file
   * that does not open declines; a range whose start cannot be sought is
   * killed with 416, and any verb but GET with 405. A GET has the file
   * piped, limited to the range.
   */
  function StaticResource(n: Node, path: seq<string>, index: nat, c: Request, env: Env): (r: Outcome)
    reads n
    ensures r.ok ==> n.mode != NoStaticResources && c.verb == GET && r.headerSent == c.headerSent
    ensures r.ok ==> path == [] || ("." !in path && ".." !in path)
    ensures r.ok && path != [] && n.mode == UseStaticResources ==> |path| - index <= 1
    ensures r.ok ==> r.events == [FilePiped(StaticFile(path, index), if c.rangeStart != -1 then c.rangeEnd - c.rangeStart else -1)]
    ensures !r.ok ==> r.events == [] || r.events == [Killed(405)] || r.events == [Killed(416)]
    ensures c.headerSent ==> r.headerSent
    ensures r.ok && Segments(path) ==> Confined(StaticFile(path, index))
    ensures r.ok && Segments(path) && n.mode == UseStaticResources ==> '/' !in StaticFile(path, index)
  {
    if n.mode == NoStaticResources then Declined(c)
    else if path != [] && (".." in path || "." in path) then Declined(c)
    else if path != [] && n.mode == UseStaticResources && |path| - index > 1 then Declined(c)
    else
      var file := StaticFile(path, index);
      if Segments(path) then StaticFileConfined(path, index); Served(n, file, c, env) else Served(n, file, c, env)
  }

  /** The end of `sendStaticResource` once the path is accepted: open, seek, and pipe for a GET. */
  function Served(n: Node, file: string, c: Request, env: Env): (r: Outcome)
    reads n
    ensures r.ok ==> c.verb == GET && r.headerSent == c.headerSent
    ensures r.ok ==> r.events == [FilePiped(file, if c.rangeStart != -1 then c.rangeEnd - c.rangeStart else -1)]
    ensures !r.ok ==> r.events == [] || r.events == [Killed(405)] || r.events == [Killed(416)]
    ensures c.headerSent ==> r.headerSent
  {
    if !env.opens(n.resourceDir, file) then Declined(c)
    else if c.rangeStart != -1 && !env.seeks(n.resourceDir, file, c.rangeStart) then Kill([], 416)
    else if c.verb == GET then
      Outcome(true, [FilePiped(file, if c.rangeStart != -1 then c.rangeEnd - c.rangeStart else -1)], c.headerSent)
    else Kill([], 405)
  }

  /**
   * For parts split at slashes and free of "." and "..", the file name
   * stays inside the resource directory, and of at most one part it is a
   * single name.
   */
  lemma StaticFileConfined(path: seq<string>, index: nat)
    requires Segments(path) && (path != [] ==> "." !in path && ".." !in path)
    ensures Confined(StaticFile(path, index))
    ensures path != [] && |path| - index <= 1 ==> '/' !in StaticFile(path, index)
  {
    if path == [] {
      SplitNoSep("index.html", '/');
    } else if index < |path| {
      var rest := path[index..];
      assert "." !in rest && ".." !in rest && Segments(rest) by {
        forall part | part in rest ensures part in path { }
      }
      JoinSplit(rest, '/');
      if |path| - index <= 1 {
        assert rest == [path[index]];
      }
    } else {
      assert StaticFile(path, index) == "";
    }
  }

  function Rank(parts: seq<string>, index: nat): nat
  {
    if index <= |parts| then |parts| - index else 0
  }

  /**
   * `invokePath` of node `n`, by its class. A rewrite node first routes as
   * a plain node, and rewrites only when that failed without sending
   * anything. `root` is the server's root node, which a path rewrite routes
   * from again; `fuel` bounds the number of re-routings.
   */
  function Invoke(n: Node, path: string, parts: seq<string>, index: nat, c: Request, env: Env, root: Node, fuel: nat)
    : Outcome
    reads *
    decreases fuel, Rank(parts, index), 2
  {
    match n.kind
    case Plain => BaseInvoke(n, path, parts, index, c, env, root, fuel)
    case Rewrite(behaviour, rules) =>
      var base := BaseInvoke(n, path, parts, index, c, env, root, fuel);
      if base.ok || base.headerSent then base
      else OrElse(base, RewriteFallback(n, behaviour, rules, path, parts, index, After(c, base), env, root, fuel))
    case Restful(methods) => RestfulInvoke(n, methods, path, parts, index, c, env, root, fuel)
  }

  /**
   * `HttpNode::invokePath`: a refused client is killed with 403. Past the
   * last part the "index" slot is tried, then "index.html". Otherwise a
   * child named like the current part takes over at the next part; without
   * one, the last part is tried as a slot and then as a static file, and
   * an earlier part as a static path.
   */
  function BaseInvoke(n: Node, path: string, parts: seq<string>, index: nat, c: Request, env: Env, root: Node, fuel: nat)
    : Outcome
    reads *
    decreases fuel, Rank(parts, index), 0
  {
    if !env.allow(n, path, parts, index) then Kill([], 403)
    else if |parts| == 0 || index >= |parts| then
      var s := CallSlotByName(n, "index", c, env);
      OrElse(s, StaticResource(n, [], 0, After(c, s), env))
    else
      var child := FindChild(n.nodes, parts[index]);
      if child != null then Invoke(child, path, parts, index + 1, c, env, root, fuel)
      else if index == |parts| - 1 then
        var s := CallSlotByName(n, parts[index], c, env);
        OrElse(s, StaticResource(n, parts, index, After(c, s), env))
      else StaticResource(n, parts, index, c, env)
  }

  /** The path a rewrite node routes next: the rewritten sub-path under the parent path, or the rewritten path. */
  function RewriteTarget(behaviour: RW.Behaviour, rules: Rules, path: string, length: int, index: nat,
                         matcher: RW.Matcher): B.Option<string>
  {
    if behaviour == RW.RewriteSubpath then RW.SubpathTarget(rules, path, length, index, matcher)
    else RW.Rewritten(rules, path, matcher)
  }

  /**
   * `rewriteSubpathAndInvoke` and `rewritePathAndInvoke`: without a
   * matching rule the node declines. A rewritten sub-path is appended to
   * the parent path and routed again through this node as a plain node,
   * at the same index; a rewritten path is routed from the root.
   */
  function RewriteFallback(n: Node, behaviour: RW.Behaviour, rules: Rules, path: string, parts: seq<string>,
                           index: nat, c: Request, env: Env, root: Node, fuel: nat): Outcome
    reads *
    decreases fuel, Rank(parts, index), 1
  {
    var target := RewriteTarget(behaviour, rules, path, |parts|, index, env.rewriteMatcher);
    if target.None? then Declined(c)
    else if fuel == 0 then Outcome(false, [OutOfFuel], c.headerSent)
    else if behaviour == RW.RewriteSubpath then
      Rerouting(target.value, BaseInvoke(n, target.value, SplitSkipEmpty(target.value, '/'), index, c, env, root, fuel - 1))
    else
      Rerouting(target.value, Route(root, target.value, c, env, fuel - 1))
  }

  /** The parts from `index` on, joined: the subject the patterns are matched against. */
  function Subject(parts: seq<string>, index: nat): string
  {
    Join(if index <= |parts| then parts[index..] else [], '/')
  }

  /**
   * `RestfulHttpNode::invokePath`: an invalid verb or a refused client is
   * killed with 403. The patterns are tried from the greatest key down; the
   * first that matches the rest of the path takes the request. Without a
   * match the node routes as a plain node.
   */
  function RestfulInvoke(n: Node, methods: seq<RR.Entry>, path: string, parts: seq<string>, index: nat,
                         c: Request, env: Env, root: Node, fuel: nat): Outcome
    reads *
    decreases fuel, Rank(parts, index), 1
  {
    if c.verb == InvalidVerb || !env.allow(n, path, parts, index) then Kill([], 403)
    else
      var subject := Subject(parts, index);
      var found := RR.LastMatch(methods, subject, env.patternMatcher, |methods|);
      if found >= 0 then InvokeMatch(methods[found], env.patternMatcher(methods[found].pattern, subject).value, c, env)
      else BaseInvoke(n, path, parts, index, c, env, root, fuel)
  }

  /**
   * `invokeMatch`: the handler registered for the request's verb, with its
   * arguments bound from the match. When they cannot all be bound the node
   * declines; a handler waiting for a body still underway is deferred;
   * otherwise it is called now and its result is the node's.
   */
  function InvokeMatch(e: RR.Entry, m: RR.NamedMatch, c: Request, env: Env): (r: Outcome)
    requires c.verb != InvalidVerb
    ensures Sound(r, c, env)
    ensures r.events != [] ==>
              && |r.events| == 1
              && (r.events[0].HandlerCalled? || r.events[0].HandlerDeferred?)
              && r.events[0].callback == e.handlers[RR.HandlerIndex(c.verb)].callback
    ensures r.events != [] && r.events[0].HandlerDeferred? ==>
              r.ok && e.handlers[RR.HandlerIndex(c.verb)].waitForRequestBody && c.postBodyTransferred < c.postBodyLength
  {
    var info := e.handlers[RR.HandlerIndex(c.verb)];
    var types := env.argTypes(info.callback);
    var bound := RR.Bind(info.argNames, types, m, env.converts);
    var args := if bound.Some? then bound.value else [];
    if |types| != |args| then Declined(c)
    else if info.waitForRequestBody && c.postBodyLength > 0 && c.postBodyLength > c.postBodyTransferred then
      Outcome(true, [HandlerDeferred(info.callback, args)], c.headerSent)
    else
      var result := env.handler(info.callback, args);
      Outcome(result.0, [HandlerCalled(info.callback, args)], c.headerSent || result.1)
  }

  /**
   * `HttpServer::invokeByPath`: the path split at slashes, empty parts
   * skipped, is routed from the root; when that fails and nothing was
   * sent the client is killed with 404. Every request is answered.
   */
  function Route(root: Node, path: string, c: Request, env: Env, fuel: nat): (r: Outcome)
    reads *
    ensures r.ok || r.headerSent
    decreases fuel, |SplitSkipEmpty(path, '/')|, 3
  {
    var o := Invoke(root, path, SplitSkipEmpty(path, '/'), 0, c, env, root, fuel);
    if o.ok || o.headerSent then o else Kill(o.events, 404)
  }

  lemma {:induction false} InvokeSound(n: Node, path: string, parts: seq<string>, index: nat, c: Request, env: Env,
                                       root: Node, fuel: nat)
    requires Segments(parts)
    ensures Sound(Invoke(n, path, parts, index, c, env, root, fuel), c, env)
    decreases fuel, Rank(parts, index), 2
  {
    match n.kind
    case Plain =>
      BaseInvokeSound(n, path, parts, index, c, env, root, fuel);
    case Rewrite(behaviour, rules) =>
      BaseInvokeSound(n, path, parts, index, c, env, root, fuel);
      var base := BaseInvoke(n, path, parts, index, c, env, root, fuel);
      if !(base.ok || base.headerSent) {
        RewriteFallbackSound(n, behaviour, rules, path, parts, index, After(c, base), env, root, fuel);
        OrElseSound(base, RewriteFallback(n, behaviour, rules, path, parts, index, After(c, base), env, root, fuel), c, env);
      }
    case Restful(methods) =>
      RestfulInvokeSound(n, methods, path, parts, index, c, env, root, fuel);
  }

  lemma {:induction false} BaseInvokeSound(n: Node, path: string, parts: seq<string>, index: nat, c: Request,
                                           env: Env, root: Node, fuel: nat)
    requires Segments(parts)
    ensures Sound(BaseInvoke(n, path, parts, index, c, env, root, fuel), c, env)
    decreases fuel, Rank(parts, index), 0
  {
    if !env.allow(n, path, parts, index) {
    } else if |parts| == 0 || index >= |parts| {
      var s := CallSlotByName(n, "index", c, env);
      OrElseSound(s, StaticResource(n, [], 0, After(c, s), env), c, env);
    } else {
      var child := FindChild(n.nodes, parts[index]);
      if child != null {
        InvokeSound(child, path, parts, index + 1, c, env, root, fuel);
      } else if index == |parts| - 1 {
        var s := CallSlotByName(n, parts[index], c, env);
        OrElseSound(s, StaticResource(n, parts, index, After(c, s), env), c, env);
      }
    }
  }

  lemma {:induction false} RewriteFallbackSound(n: Node, behaviour: RW.Behaviour, rules: Rules, path: string,
                                                parts: seq<string>, index: nat, c: Request, env: Env, root: Node, fuel: nat)
    requires Segments(parts)
    ensures Sound(RewriteFallback(n, behaviour, rules, path, parts, index, c, env, root, fuel), c, env)
    decreases fuel, Rank(parts, index), 1
  {
    var target := RewriteTarget(behaviour, rules, path, |parts|, index, env.rewriteMatcher);
    if target.Some? && fuel > 0 {
      if behaviour == RW.RewriteSubpath {
        var parts' := SplitSkipEmpty(target.value, '/');
        BaseInvokeSound(n, target.value, parts', index, c, env, root, fuel - 1);
        ReroutingSound(target.value, BaseInvoke(n, target.value, parts', index, c, env, root, fuel - 1), c, env);
      } else {
        RouteSound(root, target.value, c, env, fuel - 1);
        ReroutingSound(target.value, Route(root, target.value, c, env, fuel - 1), c, env);
      }
    }
  }

  lemma {:induction false} RestfulInvokeSound(n: Node, methods: seq<RR.Entry>, path: string, parts: seq<string>,
                                              index: nat, c: Request, env: Env, root: Node, fuel: nat)
    requires Segments(parts)
    ensures Sound(RestfulInvoke(n, methods, path, parts, index, c, env, root, fuel), c, env)
    decreases fuel, Rank(parts, index), 1
  {
    if c.verb != InvalidVerb && env.allow(n, path, parts, index) {
      if RR.LastMatch(methods, Subject(parts, index), env.patternMatcher, |methods|) < 0 {
        BaseInvokeSound(n, path, parts, index, c, env, root, fuel);
      }
    }
  }

  /**
   * Whatever a request path, routing from the root only kills with 403,
   * 404, 405 or 416, runs a slot only for a verb it allows and over
   * encryption when it demands it, pipes only GET requests and only files
   * with no "." or ".." section, calls a handler only with one argument
   * per parameter, and never takes back a sent header.
   */
  lemma {:induction false} RouteSound(root: Node, path: string, c: Request, env: Env, fuel: nat)
    ensures Sound(Route(root, path, c, env, fuel), c, env)
    decreases fuel, |SplitSkipEmpty(path, '/')|, 3
  {
    InvokeSound(root, path, SplitSkipEmpty(path, '/'), 0, c, env, root, fuel);
  }

  /**
   * A slot is reached by the last part of the path when no child has that
   * name: it is assigned to the client and the node takes the request.
   */
  lemma SlotTakesLastPart(n: Node, path: string, parts: seq<string>, c: Request, env: Env, root: Node, fuel: nat)
    requires |parts| > 0 && env.allow(n, path, parts, |parts| - 1)
    requires parts[|parts| - 1] !in Names(n.nodes) && parts[|parts| - 1] in n.slots
    requires SlotMayRun(n.slots[parts[|parts| - 1]], c.verb, c.secure)
    ensures var r := BaseInvoke(n, path, parts, |parts| - 1, c, env, root, fuel);
            r.ok && r.events[0] == SlotAssigned(n.slots[parts[|parts| - 1]])
  {
    assert FindChild(n.nodes, parts[|parts| - 1]) == null;
  }

  /**
   * A child named like the current part takes the request over, so a slot
   * of the same name on this node is never consulted.
   */
  lemma ChildTakesOver(n: Node, path: string, parts: seq<string>, index: nat, c: Request, env: Env, root: Node, fuel: nat)
    requires index < |parts| && env.allow(n, path, parts, index) && parts[index] in Names(n.nodes)
    ensures FindChild(n.nodes, parts[index]) != null
    ensures BaseInvoke(n, path, parts, index, c, env, root, fuel)
         == Invoke(FindChild(n.nodes, parts[index]), path, parts, index + 1, c, env, root, fuel)
  {
  }

  /**
   * A slot made by `connectSlot` does not stream the body, so for a POST
   * it is assigned to the client and called only once the body is in.
   */
  lemma PostWaitsForBody(n: Node, slot: string, cb: Callback, c: Request, env: Env)
    requires slot in n.slots && n.slots[slot] == NewSlotInfo(cb) && cb.Callback?
    requires c.verb == POST
    ensures CallSlotByName(n, slot, c, env) == Outcome(true, [SlotAssigned(NewSlotInfo(cb))], c.headerSent)
  {
    assert VerbIn(0xFF, POST) by {
      assert POST.Bit() == 2 && (0xFF / 2) % 2 == 1;
    }
  }

  /**
   * A RESTful node without handlers routes as a plain node; a rewrite node
   * none of whose rules match does too.
   */
  lemma EmptyRestfulNodeIsPlain(n: Node, path: string, parts: seq<string>, index: nat, c: Request, env: Env,
                                root: Node, fuel: nat)
    requires n.kind == Restful([]) && c.verb != InvalidVerb
    ensures Invoke(n, path, parts, index, c, env, root, fuel) == BaseInvoke(n, path, parts, index, c, env, root, fuel)
  {
    RR.EmptyTableWalk(Subject(parts, index), env.patternMatcher);
  }

  lemma UnmatchedRewriteIsPlain(n: Node, path: string, parts: seq<string>, index: nat, c: Request, env: Env,
                                root: Node, fuel: nat)
    requires n.kind.Rewrite?
    requires RewriteTarget(n.kind.behaviour, n.kind.rules, path, |parts|, index, env.rewriteMatcher).None?
    ensures var r := Invoke(n, path, parts, index, c, env, root, fuel);
            var base := BaseInvoke(n, path, parts, index, c, env, root, fuel);
            r.ok == base.ok && r.events == base.events && r.headerSent == base.headerSent
  {
    var base := BaseInvoke(n, path, parts, index, c, env, root, fuel);
    assert base.events + [] == base.events;
  }

  /**
   * A rewrite node rewrites only after routing as a plain node failed
   * without sending a header; otherwise its outcome is the plain one.
   */
  lemma RewriteOnlyAfterSilentFailure(n: Node, path: string, parts: seq<string>, index: nat, c: Request, env: Env,
                                      root: Node, fuel: nat)
    requires n.kind.Rewrite?
    ensures var base := BaseInvoke(n, path, parts, index, c, env, root, fuel);
            var r := Invoke(n, path, parts, index, c, env, root, fuel);
            (base.ok || base.headerSent ==> r == base) &&
            (!base.ok && !base.headerSent ==> base.events <= r.events)
  {
  }

  /** A node of any class that refuses the client kills it with 403. */
  lemma RefusedIsForbidden(n: Node, path: string, parts: seq<string>, index: nat, c: Request, env: Env,
                           root: Node, fuel: nat)
    requires !env.allow(n, path, parts, index)
    ensures Invoke(n, path, parts, index, c, env, root, fuel) == Kill([], 403)
  {
  }
}
