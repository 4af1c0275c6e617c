/**
 * `HttpServer`: the owner of the root node and of the backends that accept
 * connections. A new server's root is a node named "ROOT"; `invokeByPath`
 * routes a client's path from it (module `HttpRouting`).
 */
module HttpServers {
  import opened HttpNodes
  import HttpRouting

  /** An `HttpBackend`, seen through the port it listens on. */
  class Backend {
    const port: int

    constructor (listenPort: int)
      ensures port == listenPort
    {
      port := listenPort;
    }
  }

  /** The position of the first backend listening on `port`, or `|bs|`. */
  function FirstOnPort(bs: seq<Backend>, port: int): (i: nat)
    ensures i <= |bs| && (i < |bs| ==> bs[i].port == port)
    ensures forall j :: 0 <= j < i ==> bs[j].port != port
  {
    if bs == [] then 0
    else if bs[0].port == port then 0
    else 1 + FirstOnPort(bs[1..], port)
  }

  /** The backends after `stopListening(port)`: the first on that port removed, if any. */
  function WithoutFirstOnPort(bs: seq<Backend>, port: int): seq<Backend>
  {
    var i := FirstOnPort(bs, port);
    if i < |bs| then bs[..i] + bs[i + 1..] else bs
  }

  /**
   * Only the first backend on the port goes: every other backend stays,
   * in order, and one fewer remains exactly when one was on the port.
   */
  lemma {:induction false} StopsOnlyFirst(bs: seq<Backend>, port: int)
    ensures var r := WithoutFirstOnPort(bs, port);
            |r| == (if exists j :: 0 <= j < |bs| && bs[j].port == port then |bs| - 1 else |bs|)
    ensures forall b :: b in bs && b.port != port ==> b in WithoutFirstOnPort(bs, port)
    ensures forall b :: b in WithoutFirstOnPort(bs, port) ==> b in bs
  {
    var i := FirstOnPort(bs, port);
    if i < |bs| {
      var r := bs[..i] + bs[i + 1..];
      forall b | b in bs && b.port != port ensures b in r {
        var j :| 0 <= j < |bs| && bs[j] == b;
        if j < i {
          assert r[j] == b;
        } else {
          assert j != i;
          assert r[j - 1] == b;
        }
      }
    }
  }

  class Server {
    var root: Node
    var fqdn: string
    var backends: seq<Backend>

    /** A server whose root is a fresh, parentless node named "ROOT", without backends. */
    constructor ()
      ensures fresh(root) && root.name == "ROOT" && root.parent == null && root.kind == Plain
      ensures root.nodes == [] && root.slots == map[] && root.mode == NoStaticResources
      ensures backends == [] && fqdn == ""
    {
      var node := new Node.Orphan(PlainNode);
      var _ := node.SetResourceName("ROOT");
      root := node;
      fqdn := "";
      backends := [];
    }

    /** `setRoot`: nothing for the current root; another node becomes the root and loses its parent node. */
    method SetRoot(node: Node)
      modifies this`root, node`parent
      ensures node == old(root) ==> root == old(root) && node.parent == old(node.parent)
      ensures node != old(root) ==> root == node && node.parent == null
    {
      if root == node {
        return;
      }
      root := node;
      node.parent := null;
    }

    method SetFqdn(name: string)
      modifies this`fqdn
      ensures fqdn == name
    {
      fqdn := name;
    }

    /** `addBackend`: the backend is appended. */
    method AddBackend(b: Backend)
      modifies this`backends
      ensures backends == old(backends) + [b]
    {
      backends := backends + [b];
    }

    /** `stopListening`: the first backend on the port is removed; the others stay. */
    method StopListening(port: int)
      modifies this`backends
      ensures backends == WithoutFirstOnPort(old(backends), port)
    {
      var i := 0;
      while i < |backends|
        invariant 0 <= i <= |backends| && backends == old(backends)
        invariant forall j :: 0 <= j < i ==> backends[j].port != port
      {
        if backends[i].port == port {
          assert FirstOnPort(backends, port) == i by { FirstOnPortIs(backends, port, i); }
          backends := backends[..i] + backends[i + 1..];
          return;
        }
        i := i + 1;
      }
      assert FirstOnPort(backends, port) == |backends|;
    }

    /**
     * `invokeByPath`: the client's path routed from the root, with 404 when
     * that fails and nothing was sent; every request is answered.
     */
    method InvokeByPath(path: string, c: HttpRouting.Request, env: HttpRouting.Env, fuel: nat)
      returns (o: HttpRouting.Outcome)
      ensures o == HttpRouting.Route(root, path, c, env, fuel)
      ensures o.ok || o.headerSent
      ensures HttpRouting.Sound(o, c, env)
    {
      o := HttpRouting.Route(root, path, c, env, fuel);
      HttpRouting.RouteSound(root, path, c, env, fuel);
    }
  }

  lemma {:induction false} FirstOnPortIs(bs: seq<Backend>, port: int, i: nat)
    requires i < |bs| && bs[i].port == port && forall j :: 0 <= j < i ==> bs[j].port != port
    ensures FirstOnPort(bs, port) == i
  {
    if i > 0 {
      FirstOnPortIs(bs[1..], port, i - 1);
    }
  }
}
