/**
 * `HttpTransport`: the older transport base class. It stores a request count,
 * the keep-alive request limit and three timeout lengths, announcing each
 * changed length.
 */
module HttpTransports {
  import AT = AbstractTransports

  /** `HttpTransport::Timeout`: three categories, no `Disabled`. */
  datatype Timeout = ConnectTimeout | DataTimeout | KeepAliveTimeout

  const MaxRequestsDefault: AT.CInt := 5

  /** The length stored for a category (`timeout(which)`). */
  function Get(t: AT.Timeouts, which: Timeout): (msec: AT.CInt)
    ensures msec in {t.connect, t.data, t.keepAlive}
  {
    match which
    case ConnectTimeout => t.connect
    case DataTimeout => t.data
    case KeepAliveTimeout => t.keepAlive
  }

  /** The lengths after `setTimeout(which, msec)`: only the named one changes. */
  function Set(t: AT.Timeouts, which: Timeout, msec: AT.CInt): (r: AT.Timeouts)
    ensures Get(r, which) == msec
    ensures forall other :: other != which ==> Get(r, other) == Get(t, other)
  {
    match which
    case ConnectTimeout => t.(connect := msec)
    case DataTimeout => t.(data := msec)
    case KeepAliveTimeout => t.(keepAlive := msec)
  }

  /** The signal `setTimeout` emits. */
  datatype Event = TimeoutChanged(which: Timeout, msec: AT.CInt)

  /** `HttpTransportPrivate`. */
  class Transport {
    var requestCount: AT.CInt
    /** Requests allowed on one keep-alive connection; -1 means no limit. */
    var maxRequests: AT.CInt
    var timeouts: AT.Timeouts
    var events: seq<Event>

    /** A new transport: no requests yet, limit 5, lengths 2000/5000/30000 ms. */
    constructor ()
      ensures requestCount == 0 && maxRequests == MaxRequestsDefault
      ensures timeouts == AT.DefaultTimeouts && events == []
    {
      requestCount := 0;
      maxRequests := MaxRequestsDefault;
      timeouts := AT.DefaultTimeouts;
      events := [];
    }

    /** `timeout(which)`: the last length set for `which`, or its default. */
    method GetTimeout(which: Timeout) returns (msec: AT.CInt)
      ensures msec == Get(timeouts, which)
    {
      match which
      case ConnectTimeout => msec := timeouts.connect;
      case DataTimeout => msec := timeouts.data;
      case KeepAliveTimeout => msec := timeouts.keepAlive;
    }

    /** `setTimeout`: stores the length and emits `timeoutChanged`. */
    method SetTimeout(which: Timeout, msec: AT.CInt)
      modifies this
      ensures timeouts == Set(old(timeouts), which, msec)
      ensures events == old(events) + [TimeoutChanged(which, msec)]
      ensures requestCount == old(requestCount) && maxRequests == old(maxRequests)
    {
      match which {
        case ConnectTimeout => timeouts := timeouts.(connect := msec);
        case DataTimeout => timeouts := timeouts.(data := msec);
        case KeepAliveTimeout => timeouts := timeouts.(keepAlive := msec);
      }
      events := events + [TimeoutChanged(which, msec)];
    }

    /** `setMaxRequests`: a plain store. */
    method SetMaxRequests(count: AT.CInt)
      modifies this
      ensures maxRequests == count
      ensures requestCount == old(requestCount) && timeouts == old(timeouts) && events == old(events)
    {
      maxRequests := count;
    }

    /** `setCurrentRequestCount`: a plain store. */
    method SetCurrentRequestCount(count: AT.CInt)
      modifies this
      ensures requestCount == count
      ensures maxRequests == old(maxRequests) && timeouts == old(timeouts) && events == old(events)
    {
      requestCount := count;
    }
  }
}
