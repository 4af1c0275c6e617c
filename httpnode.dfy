/**
 * `HttpNode` and its two subclasses, `RewriteHttpNode` and
 * `RestfulHttpNode`, as one class whose `kind` holds what a subclass adds.
 * The first half is the tree: children and slots under unique names, kept
 * so by `addNode`, `setResourceName` and `connectSlot`. The second half is
 * routing (`invokePath` and the overrides of both subclasses, with
 * `callSlotByName`, `sendStaticResource`, `invokeMatch` and the server's
 * `invokeByPath`), written as functions from the tree and the request to
 * what happened to the client, in order.
 */
module HttpNodes {
  import opened HttpTypes
  import opened QStrings
  import B = Bytes
  import RW = RewriteRules
  import RR = RestfulRoutes
  import PathPatterns

  /** `HttpNode::StaticResourcesMode`. */
  datatype StaticResourcesMode = NoStaticResources | UseStaticResources | UseNestedStaticResources

  /** The stored rules of a rewrite node: each carries the references of its own template. */
  type Rules = rs: seq<RW.Rule> | RW.WellFormed(rs) witness []

  /** The class of a node, with the state its subclass adds. */
  datatype Kind =
    | Plain
    | Rewrite(behaviour: RW.Behaviour, rules: Rules)
    | Restful(methods: seq<RR.Entry>)

  /** Which constructor is run. */
  datatype NodeClass = PlainNode | RewriteNode | RestfulNode

  /** A new rewrite node rewrites the sub-path and has no rules; a new RESTful node has no handlers. */
  function InitialKind(cls: NodeClass): (k: Kind)
    ensures cls == PlainNode <==> k.Plain?
    ensures cls == RewriteNode <==> k == Rewrite(RW.RewriteSubpath, [])
    ensures cls == RestfulNode <==> k == Restful([])
  {
    match cls
    case PlainNode => Plain
    case RewriteNode => Rewrite(RW.RewriteSubpath, [])
    case RestfulNode => Restful([])
  }

  /** The resource names of `ns`, in order. */
  function Names(ns: seq<Node>): (r: seq<string>)
    reads ns`name
    ensures |r| == |ns| && forall i :: 0 <= i < |ns| ==> r[i] == ns[i].name
  {
    if ns == [] then [] else [ns[0].name] + Names(ns[1..])
  }

  /** `findNode`: the first child with the name, or null. */
  function FindChild(ns: seq<Node>, name: string): (r: Node?)
    reads ns`name
    ensures r == null <==> name !in Names(ns)
    ensures r != null ==> r in ns && r.name == name
  {
    if ns == [] then null
    else if ns[0].name == name then ns[0]
    else
      assert Names(ns) == [ns[0].name] + Names(ns[1..]);
      FindChild(ns[1..], name)
  }

  /** `connectSlot` as written: a non-empty name, a valid callback, no slot of that name yet. */
  predicate SlotAcceptedAsWritten(name: string, callback: Callback, slots: map<string, SlotInfo>)
  {
    name != "" && callback.Callback? && name !in slots
  }

  /** `connectSlot` as its declaration promises: also refused when a child node has the name. */
  predicate SlotAccepted(name: string, callback: Callback, slots: map<string, SlotInfo>, children: seq<string>)
  {
    SlotAcceptedAsWritten(name, callback, slots) && name !in children
  }

  /**
   * As written, a slot named like an existing child is accepted, although
   * the child always wins when routing reaches that name, so the slot can
   * never be reached; the correction refuses it. Otherwise the two agree.
   */
  lemma SlotShadowedByChild(name: string, callback: Callback, slots: map<string, SlotInfo>, children: seq<string>)
    ensures name in children && name != "" && callback.Callback? && name !in slots ==>
              SlotAcceptedAsWritten(name, callback, slots) && !SlotAccepted(name, callback, slots, children)
    ensures name !in children ==>
              (SlotAccepted(name, callback, slots, children) <==> SlotAcceptedAsWritten(name, callback, slots))
  {
  }

  /** The concrete case: a child "users" and a slot "users" both accepted as written. */
  lemma SlotShadowedExample()
    ensures SlotAcceptedAsWritten("users", Callback(1), map[])
    ensures !SlotAccepted("users", Callback(1), map[], ["users"])
  {
  }

  /** Names that may sit side by side under one node: non-empty, pairwise distinct, none a slot's. */
  predicate UniqueNames(names: seq<string>, slots: map<string, SlotInfo>)
  {
    (forall i, j :: 0 <= i < j < |names| ==> names[i] != names[j]) &&
    (forall i :: 0 <= i < |names| ==> names[i] != "" && names[i] !in slots)
  }

  /** Appending a node adds its name at the end. */
  lemma NamesAppend(ns: seq<Node>, n: Node)
    ensures Names(ns + [n]) == Names(ns) + [n.name]
  {
  }

  /** Two positions hold two names. */
  lemma UniqueDistinct(names: seq<string>, slots: map<string, SlotInfo>, i: nat, k: nat)
    requires UniqueNames(names, slots) && i < |names| && k < |names| && i != k
    ensures names[i] != names[k]
  {
    if k < i {
      assert names[k] != names[i];
    }
  }

  /** Under unique names a child sits at one position only. */
  lemma OnlyAt(ns: seq<Node>, slots: map<string, SlotInfo>, x: Node) returns (k: nat)
    requires x in ns && UniqueNames(Names(ns), slots)
    ensures k < |ns| && ns[k] == x
    ensures forall i :: 0 <= i < |ns| && i != k ==> ns[i] != x
  {
    k :| 0 <= k < |ns| && ns[k] == x;
    forall i | 0 <= i < |ns| && i != k
      ensures ns[i] != x
    {
      UniqueDistinct(Names(ns), slots, i, k);
    }
  }

  /** A new non-empty name, neither a child's nor a slot's, can join. */
  lemma UniqueAppend(names: seq<string>, slots: map<string, SlotInfo>, n: string)
    requires UniqueNames(names, slots) && n != "" && n !in names && n !in slots
    ensures UniqueNames(names + [n], slots)
  {
    var r := names + [n];
    forall i, j | 0 <= i < j < |r| ensures r[i] != r[j] {
      if j == |names| {
        assert r[i] == names[i];
      }
    }
  }

  /** A child may take a new non-empty name that is neither a child's nor a slot's. */
  lemma UniqueRename(names: seq<string>, slots: map<string, SlotInfo>, k: nat, n: string)
    requires UniqueNames(names, slots) && k < |names| && n != "" && n !in names && n !in slots
    ensures UniqueNames(names[k := n], slots)
  {
    var r := names[k := n];
    forall i, j | 0 <= i < j < |r| ensures r[i] != r[j] {
      if i == k {
        assert r[j] == names[j];
      } else if j == k {
        assert r[i] == names[i];
      }
    }
  }

  /** A slot may take a name no child has. */
  lemma UniqueWithSlot(names: seq<string>, slots: map<string, SlotInfo>, n: string, info: SlotInfo)
    requires UniqueNames(names, slots) && n !in names
    ensures UniqueNames(names, slots[n := info])
  {
    forall i | 0 <= i < |names| ensures names[i] !in slots[n := info] {
      assert names[i] != n;
    }
  }

  /** Removing a slot keeps the names unique. */
  lemma UniqueWithoutSlot(names: seq<string>, slots: map<string, SlotInfo>, n: string)
    requires UniqueNames(names, slots)
    ensures UniqueNames(names, slots - {n})
  {
  }

  class Node {
    var name: string
    var parent: Node?
    var nodes: seq<Node>
    var slots: map<string, SlotInfo>
    var resourceDir: string
    var mode: StaticResourcesMode
    var kind: Kind

    /**
     * The rule the tree keeps: the children have non-empty names, no two
     * alike, and no slot shares a child's name.
     */
    ghost predicate NamesUnique()
      reads this`nodes, this`slots, nodes`name
    {
      UniqueNames(Names(nodes), slots)
    }

    /**
     * `HttpNode(resourceName, parent)` (and the subclass constructors with
     * the same arguments): a node without slots or static resources, which
     * the parent then adopts if `addNode` accepts its name.
     */
    constructor (resourceName: string, parentNode: Node?, cls: NodeClass)
      modifies parentNode
      ensures name == resourceName && nodes == [] && slots == map[] && kind == InitialKind(cls)
      ensures mode == NoStaticResources && resourceDir == ""
      ensures parentNode == null ==> parent == null
      ensures parentNode != null ==>
                var adopted := resourceName != "" && resourceName !in old(Names(parentNode.nodes))
                               && resourceName !in parentNode.slots;
                (adopted ==> parent == parentNode && parentNode.nodes == old(parentNode.nodes) + [this]) &&
                (!adopted ==> parent == null && parentNode.nodes == old(parentNode.nodes))
      ensures parentNode != null ==>
                parentNode.name == old(parentNode.name) && parentNode.slots == old(parentNode.slots) &&
                parentNode.parent == old(parentNode.parent) && parentNode.kind == old(parentNode.kind) &&
                parentNode.mode == old(parentNode.mode) && parentNode.resourceDir == old(parentNode.resourceDir)
      ensures parentNode != null && old(parentNode.NamesUnique()) ==> parentNode.NamesUnique()
    {
      name := resourceName;
      parent := null;
      nodes := [];
      slots := map[];
      resourceDir := "";
      mode := NoStaticResources;
      kind := InitialKind(cls);
      new;
      if parentNode != null {
        var _ := parentNode.AddNode(this);
      }
    }

    /** `HttpNode(QObject *parent)`: a node with an empty name and no parent node. */
    constructor Orphan(cls: NodeClass)
      ensures name == "" && parent == null && nodes == [] && slots == map[] && kind == InitialKind(cls)
      ensures mode == NoStaticResources && resourceDir == ""
    {
      name := "";
      parent := null;
      nodes := [];
      slots := map[];
      resourceDir := "";
      mode := NoStaticResources;
      kind := InitialKind(cls);
    }

    /** `hasNode`: whether a child has the name. */
    method HasNode(child: string) returns (b: bool)
      ensures b <==> child in Names(nodes)
    {
      var i := 0;
      while i < |nodes|
        invariant 0 <= i <= |nodes|
        invariant forall j :: 0 <= j < i ==> nodes[j].name != child
      {
        if nodes[i].name == child {
          return true;
        }
        i := i + 1;
      }
      return false;
    }

    /** `findNode`: the first child with the name, or null. */
    method FindNode(child: string) returns (r: Node?)
      ensures r == FindChild(nodes, child)
      ensures r != null <==> child in Names(nodes)
    {
      var i := 0;
      while i < |nodes|
        invariant 0 <= i <= |nodes|
        invariant forall j :: 0 <= j < i ==> nodes[j].name != child
        invariant FindChild(nodes, child) == FindChild(nodes[i..], child)
      {
        if nodes[i].name == child {
          return nodes[i];
        }
        assert nodes[i..][1..] == nodes[i + 1..];
        i := i + 1;
      }
      return null;
    }

    /** `hasSlot`. */
    method HasSlot(slot: string) returns (b: bool)
      ensures b <==> slot in slots
    {
      return slot in slots;
    }

    /**
     * `connectSlot(name, callback)`, with the check its declaration
     * promises and the code omits: a slot is refused when a child already
     * has the name. An accepted slot gets the default settings; a refused
     * one leaves the slots alone and answers an invalid `SlotInfo`.
     */
    method ConnectSlot(slot: string, callback: Callback) returns (info: SlotInfo)
      modifies this`slots
      ensures SlotAccepted(slot, callback, old(slots), Names(nodes)) ==>
                slots == old(slots)[slot := NewSlotInfo(callback)] && info == NewSlotInfo(callback) && info.IsValid()
      ensures !SlotAccepted(slot, callback, old(slots), Names(nodes)) ==>
                slots == old(slots) && info == NewSlotInfo(NoCallback) && !info.IsValid()
      ensures old(NamesUnique()) ==> NamesUnique()
    {
      var taken := HasNode(slot);
      if slot == "" || !callback.Callback? || slot in slots || taken {
        return NewSlotInfo(NoCallback);
      }
      info := NewSlotInfo(callback);
      if NamesUnique() {
        UniqueWithSlot(Names(nodes), slots, slot, info);
      }
      slots := slots[slot := info];
    }

    /** `disconnectSlot`: removes the slot, answering whether there was one. */
    method DisconnectSlot(slot: string) returns (found: bool)
      modifies this`slots
      ensures found <==> slot in old(slots)
      ensures slots == old(slots) - {slot}
      ensures old(NamesUnique()) ==> NamesUnique()
    {
      found := slot in slots;
      if NamesUnique() {
        UniqueWithoutSlot(Names(nodes), slots, slot);
      }
      slots := slots - {slot};
    }

    /**
     * `addNode`: a node already among the children is accepted as it is;
     * otherwise its name must be non-empty and free among the children and
     * the slots, and then it is appended and gets this node as its parent.
     */
    method AddNode(node: Node) returns (ok: bool)
      modifies this`nodes, node`parent
      ensures node in old(nodes) ==> ok && nodes == old(nodes) && node.parent == old(node.parent)
      ensures node !in old(nodes) ==>
                (ok <==> node.name != "" && node.name !in old(Names(nodes)) && node.name !in slots)
      ensures node !in old(nodes) && ok ==> nodes == old(nodes) + [node] && node.parent == this
      ensures !ok ==> nodes == old(nodes) && node.parent == old(node.parent)
      ensures old(NamesUnique()) ==> NamesUnique()
    {
      if node in nodes {
        return true;
      }
      if node.name == "" {
        return false;
      }
      var hasNode := HasNode(node.name);
      var hasSlot := HasSlot(node.name);
      if hasNode || hasSlot {
        return false;
      }
      Adopt(node);
      return true;
    }

    /** The end of `addNode` once the name is found free: append the node and become its parent. */
    method Adopt(node: Node)
      requires node !in nodes && node.name != "" && node.name !in Names(nodes) && node.name !in slots
      modifies this`nodes, node`parent
      ensures nodes == old(nodes) + [node] && node.parent == this
      ensures old(NamesUnique()) ==> NamesUnique()
    {
      ghost var before := Names(nodes);
      NamesAppend(nodes, node);
      nodes := nodes + [node];
      node.parent := this;
      assert Names(nodes) == before + [node.name];
      if UniqueNames(before, slots) {
        UniqueAppend(before, slots, node.name);
      }
    }

    /**
     * `setResourceName`: a non-empty name that the parent, if any, has
     * neither as a child nor as a slot; so renaming to the current name
     * under a parent fails.
     */
    method SetResourceName(newName: string) returns (ok: bool)
      modifies this`name
      ensures ok <==> newName != "" &&
                      (parent != null ==> newName !in old(Names(parent.nodes)) && newName !in parent.slots)
      ensures name == if ok then newName else old(name)
      ensures old(parent != null && this in parent.nodes && parent.NamesUnique()) ==> parent.NamesUnique()
    {
      if newName == "" {
        return false;
      }
      if parent != null {
        var hasNode := parent.HasNode(newName);
        var hasSlot := parent.HasSlot(newName);
        if hasNode || hasSlot {
          return false;
        }
      }
      TakeName(newName);
      return true;
    }

    /** The end of `setResourceName` once the parent has accepted the name. */
    method TakeName(newName: string)
      requires newName != "" && (parent != null ==> newName !in Names(parent.nodes) && newName !in parent.slots)
      modifies this`name
      ensures name == newName
      ensures old(parent != null && this in parent.nodes && parent.NamesUnique()) ==> parent.NamesUnique()
    {
      ghost var unique := parent != null && this in parent.nodes && parent.NamesUnique();
      ghost var siblings := if parent != null then Names(parent.nodes) else [];
      ghost var k: nat := 0;
      if unique {
        k := OnlyAt(parent.nodes, parent.slots, this);
      }
      name := newName;
      if unique {
        assert Names(parent.nodes) == siblings[k := newName];
        UniqueRename(siblings, parent.slots, k, newName);
      }
    }

    /** `setStaticResourceDir`: sets the directory, and turns static resources on if they were off. */
    method SetStaticResourceDir(dir: string)
      modifies this`resourceDir, this`mode
      ensures resourceDir == dir
      ensures mode == if old(mode) == NoStaticResources then UseStaticResources else old(mode)
      ensures mode != NoStaticResources
    {
      if mode == NoStaticResources {
        mode := UseStaticResources;
      }
      resourceDir := dir;
    }

    /** `setStaticResourceMode`. */
    method SetStaticResourceMode(m: StaticResourcesMode)
      modifies this`mode
      ensures mode == m
    {
      mode := m;
    }

    /**
     * `RewriteHttpNode::addRewrite`: a rule is stored, after the others,
     * when the expression is valid and no reference in the template names
     * a capture it does not have.
     */
    method AddRewrite(rx: RW.Regex, replace: string) returns (ok: bool)
      requires kind.Rewrite?
      modifies this`kind
      ensures ok <==> RW.Acceptable(rx, replace)
      ensures ok ==> kind == Rewrite(old(kind.behaviour), old(kind.rules) + [RW.Rule(rx, replace, RW.RefsFrom(replace, 0))])
      ensures !ok ==> kind == old(kind)
    {
      var refs, highest := RW.ReplaceReferences(replace, 0);
      if rx.captureCount == -1 || highest > rx.captureCount {
        assert !RW.Acceptable(rx, replace);
        return false;
      }
      var rules: Rules := kind.rules + [RW.Rule(rx, replace, refs)];
      kind := Rewrite(kind.behaviour, rules);
      return true;
    }

    /** `RewriteHttpNode::clearRules`. */
    method ClearRules()
      requires kind.Rewrite?
      modifies this`kind
      ensures kind == Rewrite(old(kind.behaviour), [])
    {
      kind := Rewrite(kind.behaviour, []);
    }

    /** `RewriteHttpNode::setRewriteBehaviour`. */
    method SetRewriteBehaviour(b: RW.Behaviour)
      requires kind.Rewrite?
      modifies this`kind
      ensures kind == Rewrite(b, old(kind.rules))
    {
      kind := Rewrite(b, kind.rules);
    }

    /**
     * `RestfulHttpNode::setRestfulHandler`: the path is compiled into its
     * anchored pattern, and the handler fills the slots of the given verbs
     * under that pattern, a new pattern being added in key order.
     */
    method SetRestfulHandler(verbs: int, path: string, argNames: seq<string>, callback: Callback, wait: bool)
      requires kind.Restful?
      modifies this`kind
      ensures var key := "^" + PathPatterns.Compiled(path, 0) + "$";
              kind == Restful(RR.WithHandler(old(kind.methods), key, verbs, RR.InvokeInfo(callback, argNames, wait)))
      ensures old(RR.Table(kind.methods)) ==> RR.Table(kind.methods)
      ensures old(RR.Table(kind.methods)) ==>
                var key := "^" + PathPatterns.Compiled(path, 0) + "$";
                var before := RR.Lookup(old(kind.methods), key);
                var slots := if before.Some? then before.value else RR.NoHandlers;
                RR.Lookup(kind.methods, key) == B.Some(RR.SetHandlers(slots, verbs, RR.InvokeInfo(callback, argNames, wait)))
    {
      var key := PathPatterns.CompilePathRegEx(path);
      var info := RR.InvokeInfo(callback, argNames, wait);
      if RR.Table(kind.methods) {
        RR.WithHandlerSpec(kind.methods, key, verbs, info);
      }
      kind := Restful(RR.WithHandler(kind.methods, key, verbs, info));
    }

    /** The overload without verbs registers the handler for all of them. */
    method SetRestfulHandlerForAllVerbs(path: string, argNames: seq<string>, callback: Callback, wait: bool)
      requires kind.Restful?
      modifies this`kind
      ensures var key := "^" + PathPatterns.Compiled(path, 0) + "$";
              kind == Restful(RR.WithHandler(old(kind.methods), key, AllVerbs, RR.InvokeInfo(callback, argNames, wait)))
      ensures old(RR.Table(kind.methods)) ==>
                RR.Lookup(kind.methods, "^" + PathPatterns.Compiled(path, 0) + "$")
                  == B.Some(RR.SetHandlers(RR.NoHandlers, AllVerbs, RR.InvokeInfo(callback, argNames, wait)))
    {
      SetRestfulHandler(AllVerbs, path, argNames, callback, wait);
      RR.AllVerbsFillEverySlot(RR.NoHandlers, RR.InvokeInfo(callback, argNames, wait));
      var key := "^" + PathPatterns.Compiled(path, 0) + "$";
      var before := RR.Lookup(old(kind.methods), key);
      if before.Some? {
        RR.AllVerbsFillEverySlot(before.value, RR.InvokeInfo(callback, argNames, wait));
      }
    }
  }
}
