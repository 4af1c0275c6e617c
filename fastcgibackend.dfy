/**
 * `FastCgiBackend`: the FastCGI backend of an HTTP server. It keeps one thread
 * object per server thread, hands each new connection to the thread with the
 * fewest connections, and holds the settings the thread objects advertise.
 */
module FastCgiBackends {
  import opened Bytes
  import opened Numbers
  import opened ByteMaps
  import opened FastCgiReader
  import opened FastCgiWriter
  import opened Devices
  import opened FastCgiThreadObjects

  /** The number of requests allowed per connection slot by default. */
  const ConnMultiplier: int := 10

  /** The sum of the numbers, the last one added last. */
  function Sum(xs: seq<int>): int
  {
    if xs == [] then 0 else Sum(xs[..|xs| - 1]) + xs[|xs| - 1]
  }

  /** The numbers with the one at `k` increased by one. */
  function Increment(xs: seq<int>, k: nat): (r: seq<int>)
    requires k < |xs|
    ensures |r| == |xs| && r[k] == xs[k] + 1 && forall j | 0 <= j < |xs| && j != k :: r[j] == xs[j]
  {
    xs[k := xs[k] + 1]
  }

  /** Adding one to any entry adds one to the sum. */
  lemma {:induction false} SumIncrement(xs: seq<int>, k: nat)
    requires k < |xs|
    ensures Sum(Increment(xs, k)) == Sum(xs) + 1
    decreases |xs|
  {
    var ys := Increment(xs, k);
    if k < |xs| - 1 {
      assert ys[..|ys| - 1] == Increment(xs[..|xs| - 1], k);
      SumIncrement(xs[..|xs| - 1], k);
    } else {
      assert ys[..|ys| - 1] == xs[..|xs| - 1];
    }
  }

  /** `k` is the first position holding the least number. */
  predicate FirstMinimum(xs: seq<int>, k: nat)
  {
    k < |xs| && (forall j | 0 <= j < |xs| :: xs[k] <= xs[j]) && forall j | 0 <= j < k :: xs[k] < xs[j]
  }

  /** The connection counts of the thread objects, in order. */
  function Counts(threads: seq<ThreadObject>): (r: seq<int>)
    reads set t | t in threads
    ensures |r| == |threads| && forall i | 0 <= i < |threads| :: r[i] == threads[i].socketCount
  {
    if threads == [] then [] else Counts(threads[..|threads| - 1]) + [threads[|threads| - 1].socketCount]
  }

  /** The counts after the thread at `k` counted one more connection. */
  lemma CountsUpdated(threads: seq<ThreadObject>, counts: seq<int>, k: nat)
    requires |counts| == |threads| && k < |threads| && threads[k].socketCount == counts[k] + 1
    requires forall j | 0 <= j < |threads| && j != k :: threads[j].socketCount == counts[j]
    ensures Counts(threads) == Increment(counts, k)
  {
  }

  class Backend {
    const settings: Settings
    /** One thread object per server thread, in the order the threads were created. */
    var threads: seq<ThreadObject>

    /** The thread objects are distinct, well formed and share the backend's settings. */
    predicate Valid()
      reads this, settings, set t | t in threads
    {
      settings.Valid()
      && (forall i | 0 <= i < |threads| :: threads[i].settings == settings && threads[i].Valid())
      && forall i, j | 0 <= i < j < |threads| :: threads[i] != threads[j]
    }

    /**
     * The constructor: as many connections as the machine has cores (none
     * when the count is unknown, reported as negative) and ten requests per
     * connection, multiplied in a C `int`.
     */
    constructor (idealThreadCount: CInt)
      ensures Valid() && fresh(settings) && threads == [] && settings.config == []
      ensures settings.maxConns == (if idealThreadCount < 0 then 0 else idealThreadCount)
      ensures settings.maxRequests == Int32(settings.maxConns * ConnMultiplier)
    {
      var maxConns: CInt := if idealThreadCount < 0 then 0 else idealThreadCount;
      settings := new Settings(maxConns, Int32(maxConns * ConnMultiplier));
      threads := [];
    }

    /** `setMaxConcurrentConnections`. */
    method SetMaxConcurrentConnections(count: CInt)
      modifies settings
      ensures settings.maxConns == count
      ensures settings.config == old(settings.config) && settings.maxRequests == old(settings.maxRequests)
    {
      settings.maxConns := count;
    }

    /** `setMaxConcurrentRequests`. */
    method SetMaxConcurrentRequests(count: CInt)
      modifies settings
      ensures settings.maxRequests == count
      ensures settings.config == old(settings.config) && settings.maxConns == old(settings.maxConns)
    {
      settings.maxRequests := count;
    }

    /**
     * `setCustomConfiguration`: sets a value answered to FCGI_GET_VALUES,
     * replacing an earlier value of the same name; the three management
     * variables are always answered with the server's own values.
     */
    method SetCustomConfiguration(name: Bytes, value: Bytes)
      requires Valid() && |name| < 0x8000_0000 && |value| < 0x8000_0000
      modifies settings
      ensures Valid() && settings.config == Put(old(settings.config), name, value)
      ensures settings.maxConns == old(settings.maxConns) && settings.maxRequests == old(settings.maxRequests)
      ensures forall q :: Get(settings.config, q) == if q == name then Some(value) else Get(old(settings.config), q)
    {
      var before := settings.config;
      PutSorted(before, name, value);
      forall q ensures Get(Put(before, name, value), q) == if q == name then Some(value) else Get(before, q) {
        GetPut(before, name, value, q);
      }
      var after := Put(before, name, value);
      forall i | 0 <= i < |after| ensures |after[i].0| < 0x8000_0000 && |after[i].1| < 0x8000_0000 {
        assert after[i] in after;
      }
      settings.config := after;
    }

    /** `isListening`: whether any server thread has been set up. */
    predicate IsListening()
      reads this
    {
      threads != []
    }

    /** `serverThreadCreated`: a new thread object for the new server thread. */
    method ServerThreadCreated() returns (t: ThreadObject)
      requires Valid()
      modifies this
      ensures Valid() && fresh(t) && threads == old(threads) + [t] && t.sockets == map[] && t.socketCount == 0
    {
      t := new ThreadObject(settings);
      threads := threads + [t];
    }

    /** `currentConnectionCount`: the connection counts of all threads added up. */
    method CurrentConnectionCount() returns (count: int)
      ensures count == Sum(Counts(threads))
    {
      count := 0;
      var i := 0;
      while i < |threads|
        invariant i <= |threads|
        invariant count == Sum(Counts(threads[..i]))
      {
        assert threads[..i + 1][..i] == threads[..i];
        count := count + threads[i].ConnectionCount();
        i := i + 1;
      }
      assert threads[..i] == threads;
    }

    /** `leastUsedThread`: the first thread with the fewest connections, none when there are no threads. */
    method LeastUsedThread() returns (r: Option<nat>)
      ensures r.None? <==> threads == []
      ensures r.Some? ==> FirstMinimum(Counts(threads), r.value)
    {
      if threads == [] {
        return None;
      }
      var counts := Counts(threads);
      var leastUsed := 0;
      var least := threads[0].ConnectionCount();
      var i := 1;
      while i < |threads|
        invariant 1 <= i <= |threads| && leastUsed < i && least == counts[leastUsed]
        invariant forall j | 0 <= j < i :: least <= counts[j]
        invariant forall j | 0 <= j < leastUsed :: least < counts[j]
      {
        var current := threads[i].ConnectionCount();
        if current < least {
          leastUsed := i;
          least := current;
        }
        i := i + 1;
      }
      r := Some(leastUsed);
    }

    /**
     * `addTcpConnection` and `addLocalConnection`: the connection goes to the
     * first thread with the fewest connections, which counts it, and
     * `connectionAdded` is emitted (`emitted`); without threads nothing
     * happens.
     */
    method AddConnection(kind: ConnType) returns (emitted: bool, ghost chosen: Option<(nat, Device)>)
      requires Valid() && kind != OtherDevice
      modifies set t | t in threads
      ensures Valid() && threads == old(threads)
      ensures emitted <==> threads != []
      ensures chosen.None? <==> threads == []
      ensures chosen.None? ==> Counts(threads) == old(Counts(threads))
      ensures chosen.Some? ==> FirstMinimum(old(Counts(threads)), chosen.value.0)
      ensures chosen.Some? ==> Counts(threads) == Increment(old(Counts(threads)), chosen.value.0)
      ensures chosen.Some? ==> fresh(chosen.value.1) && chosen.value.1 in threads[chosen.value.0].sockets
                               && threads[chosen.value.0].sockets[chosen.value.1] == SocketData(kind, map[])
      ensures Sum(Counts(threads)) == old(Sum(Counts(threads))) + (if threads == [] then 0 else 1)
    {
      var obj := LeastUsedThread();
      if obj.None? {
        return false, None;
      }
      var k := obj.value;
      ghost var counts := Counts(threads);
      var socket := AddToThread(k, kind);
      chosen := Some((k, socket));
      emitted := true;
      SumIncrement(counts, k);
    }

    /** Hands a new connection to the thread at `k`, which counts it. */
    method AddToThread(k: nat, kind: ConnType) returns (socket: Device)
      requires Valid() && k < |threads| && kind != OtherDevice
      modifies threads[k]
      ensures Valid() && Counts(threads) == Increment(old(Counts(threads)), k)
      ensures fresh(socket) && socket in threads[k].sockets && threads[k].sockets[socket] == SocketData(kind, map[])
    {
      ghost var counts := Counts(threads);
      var t := threads[k];
      socket := t.AddSocketLater(kind);
      forall j | 0 <= j < |threads| && j != k ensures threads[j].socketCount == counts[j] && threads[j].Valid() {
        assert threads[j] != t;
      }
      CountsUpdated(threads, counts, k);
    }

    /**
     * `listen()` for a process started by the web server: the listening
     * socket's descriptor comes from the FCGI_LISTENSOCK_FILENO environment
     * variable (empty when unset); without a positive number there, nothing
     * is listened on.
     */
    method ListenInherited(listenSocket: Bytes) returns (ok: bool, emitted: bool)
      requires Valid()
      modifies set t | t in threads
      ensures Valid() && threads == old(threads)
      ensures ok <==> ParseInt(listenSocket).Some? && 1 <= ParseInt(listenSocket).value < 0x8000_0000
      ensures emitted <==> ok && threads != []
      ensures Sum(Counts(threads)) == old(Sum(Counts(threads))) + (if emitted then 1 else 0)
    {
      var parsed := ParseInt(listenSocket);
      if parsed.None? || parsed.value < -0x8000_0000 || parsed.value >= 0x8000_0000 || parsed.value < 1 {
        return false, false;
      }
      ghost var chosen;
      emitted, chosen := AddConnection(Tcp);
      ok := true;
    }
  }
}
