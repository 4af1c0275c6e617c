/**
 * `AbstractTransport`: the bookkeeping every transport shares. It keeps a
 * timeout length per category, the category currently armed, the data-timeout
 * rule (enough traffic since the last check keeps the connection open), and
 * the request and traffic counters.
 */
module AbstractTransports {

  /** A C++ `int`. */
  type CInt = x: int | -0x8000_0000 <= x < 0x8000_0000

  const TWO_TO_64: int := 0x1_0000_0000_0000_0000

  /** A `quint64`/`uint64_t`. */
  type UInt64 = x: int | 0 <= x < 0x1_0000_0000_0000_0000

  /** The timeout categories, in the order of their enum values 0..3. */
  datatype Timeout = Disabled | ConnectTimeout | DataTimeout | KeepAliveTimeout

  const DefaultConnectTimeout: CInt := 2000
  const DefaultDataTimeout: CInt := 5000
  const DefaultKeepAliveTimeout: CInt := 30000
  const DefaultMinimumBytesReceived: CInt := 512

  /** The three configurable timeout lengths, in msec; a negative length disables that timer. */
  datatype Timeouts = Timeouts(connect: CInt, data: CInt, keepAlive: CInt)

  const DefaultTimeouts: Timeouts := Timeouts(DefaultConnectTimeout, DefaultDataTimeout, DefaultKeepAliveTimeout)

  /** `timeout(which)`: the configured length of a category; `Disabled` has none and reads -1. */
  function Get(t: Timeouts, which: Timeout): (msec: CInt)
    ensures which == Disabled ==> msec == -1
    ensures which != Disabled ==> msec in {t.connect, t.data, t.keepAlive}
  {
    match which
    case Disabled => -1
    case ConnectTimeout => t.connect
    case DataTimeout => t.data
    case KeepAliveTimeout => t.keepAlive
  }

  /**
   * The lengths after `setTimeout(which, msec)`: only the named category
   * changes, and `Disabled` is ignored.
   */
  function Set(t: Timeouts, which: Timeout, msec: CInt): (r: Timeouts)
    ensures which != Disabled ==> Get(r, which) == msec
    ensures forall other :: other != which ==> Get(r, other) == Get(t, other)
    ensures which == Disabled ==> r == t
  {
    match which
    case Disabled => t
    case ConnectTimeout => t.(connect := msec)
    case DataTimeout => t.(data := msec)
    case KeepAliveTimeout => t.(keepAlive := msec)
  }

  /** What a transport announces: a changed timeout, a forced close, a timed-out connection. */
  datatype Event = TimeoutChanged(which: Timeout, msec: CInt) | ForceClose(mode: Timeout) | ConnectionTimedout(mode: Timeout)

  /** Unsigned 64-bit arithmetic keeps the value modulo 2^64. */
  function Wrap64(x: int): (r: UInt64)
    ensures 0 <= x < TWO_TO_64 ==> r == x
  {
    x % TWO_TO_64
  }

  /** An `int` compared with a `uint64_t` is converted to unsigned: a negative value becomes at least 2^63. */
  function AsUnsigned(x: CInt): (u: UInt64)
    ensures x >= 0 ==> u == x
    ensures x < 0 ==> u >= 0x8000_0000_0000_0000 && u == x + TWO_TO_64
  {
    if x < 0 then x + TWO_TO_64 else x
  }

  /**
   * Whether `triggerTimeout` closes the connection: always, except in
   * `DataTimeout` mode when the bytes received since the snapshot (counted
   * modulo 2^64) reach `minBytes` read as unsigned.
   */
  predicate Expires(mode: Timeout, minBytes: CInt, received: UInt64, last: UInt64)
  {
    mode != DataTimeout || AsUnsigned(minBytes) > Wrap64(received - last)
  }

  /** With a non-negative minimum and no wrap, a data timeout fires iff fewer than `minBytes` arrived. */
  lemma ExpiresIffTooLittle(minBytes: CInt, received: UInt64, last: UInt64)
    requires minBytes >= 0 && last <= received
    ensures Expires(DataTimeout, minBytes, received, last) <==> received - last < minBytes
  {
  }

  /** Every other category fires unconditionally. */
  lemma OtherModesExpire(mode: Timeout, minBytes: CInt, received: UInt64, last: UInt64)
    requires mode != DataTimeout
    ensures Expires(mode, minBytes, received, last)
  {
  }

  /**
   * A negative minimum (documented as -1, "regardless of how much data")
   * makes a data timeout fire for any plausible amount of traffic: fewer
   * than 2^63 bytes since the snapshot.
   */
  lemma NegativeMinimumExpires(minBytes: CInt, received: UInt64, last: UInt64)
    requires minBytes < 0
    requires Wrap64(received - last) < 0x8000_0000_0000_0000
    ensures Expires(DataTimeout, minBytes, received, last)
  {
  }

  /**
   * The unsigned difference counts the bytes added since the snapshot even
   * when the traffic counter has wrapped past 2^64 in between.
   */
  lemma DeltaSurvivesWrap(last: UInt64, n: UInt64)
    ensures Wrap64(Wrap64(last + n) - last) == n
  {
    if last + n < TWO_TO_64 {
      assert Wrap64(last + n) == last + n;
    } else {
      assert Wrap64(last + n) == last + n - TWO_TO_64;
      assert Wrap64(last + n) - last == n - TWO_TO_64;
    }
  }

  /** Receiving at least `minBytes` after the snapshot keeps a data-timeout connection open. */
  lemma EnoughTrafficKeepsOpen(minBytes: CInt, last: UInt64, n: UInt64)
    requires 0 <= minBytes <= n
    ensures !Expires(DataTimeout, minBytes, Wrap64(last + n), last)
  {
    DeltaSurvivesWrap(last, n);
  }

  /** The shared state of a transport (`AbstractTransportPrivate`) and the timer it drives. */
  class Transport {
    var requestCount: int
    var currentTimeoutMode: Timeout
    var timeouts: Timeouts
    var minBytesReceived: CInt
    var trafficReceivedLast: UInt64
    var trafficReceived: UInt64
    var trafficSent: UInt64
    /** The timeout timer: whether it runs, and its interval. */
    var timerRunning: bool
    var timerInterval: int
    /** Signals emitted and `forceClose` requests, oldest first. */
    var events: seq<Event>

    /** A new transport: no timer armed, default lengths and minimum, all counters 0. */
    constructor ()
      ensures requestCount == 0 && currentTimeoutMode == Disabled
      ensures timeouts == DefaultTimeouts && minBytesReceived == DefaultMinimumBytesReceived
      ensures trafficReceivedLast == 0 && trafficReceived == 0 && trafficSent == 0
      ensures !timerRunning && events == []
    {
      requestCount := 0;
      currentTimeoutMode := Disabled;
      timeouts := DefaultTimeouts;
      minBytesReceived := DefaultMinimumBytesReceived;
      trafficReceivedLast := 0;
      trafficReceived := 0;
      trafficSent := 0;
      timerRunning := false;
      timerInterval := 0;
      events := [];
    }

    /** `timeout(which)`. */
    method GetTimeout(which: Timeout) returns (msec: CInt)
      ensures msec == Get(timeouts, which)
      ensures which == Disabled ==> msec == -1
    {
      match which
      case Disabled => msec := -1;
      case ConnectTimeout => msec := timeouts.connect;
      case DataTimeout => msec := timeouts.data;
      case KeepAliveTimeout => msec := timeouts.keepAlive;
    }

    /** `setTimeout`: changes only the named length and announces it; `Disabled` does nothing. */
    method SetTimeout(which: Timeout, msec: CInt)
      modifies this
      ensures timeouts == Set(old(timeouts), which, msec)
      ensures events == old(events) + (if which == Disabled then [] else [TimeoutChanged(which, msec)])
      ensures currentTimeoutMode == old(currentTimeoutMode) && timerRunning == old(timerRunning)
      ensures timerInterval == old(timerInterval) && minBytesReceived == old(minBytesReceived)
      ensures requestCount == old(requestCount) && trafficReceived == old(trafficReceived)
      ensures trafficReceivedLast == old(trafficReceivedLast) && trafficSent == old(trafficSent)
    {
      match which {
        case ConnectTimeout => timeouts := timeouts.(connect := msec);
        case DataTimeout => timeouts := timeouts.(data := msec);
        case KeepAliveTimeout => timeouts := timeouts.(keepAlive := msec);
        case Disabled => return;
      }
      events := events + [TimeoutChanged(which, msec)];
    }

    /** `setMinimumBytesReceived`. */
    method SetMinimumBytesReceived(bytes: CInt)
      modifies this
      ensures minBytesReceived == bytes
      ensures timeouts == old(timeouts) && currentTimeoutMode == old(currentTimeoutMode) && events == old(events)
      ensures requestCount == old(requestCount) && trafficReceived == old(trafficReceived)
      ensures trafficReceivedLast == old(trafficReceivedLast) && trafficSent == old(trafficSent)
      ensures timerRunning == old(timerRunning) && timerInterval == old(timerInterval)
    {
      minBytesReceived := bytes;
    }

    /** `setCurrentRequestCount`. */
    method SetCurrentRequestCount(count: CInt)
      modifies this
      ensures requestCount == count
      ensures timeouts == old(timeouts) && currentTimeoutMode == old(currentTimeoutMode) && events == old(events)
      ensures minBytesReceived == old(minBytesReceived) && trafficReceived == old(trafficReceived)
      ensures trafficReceivedLast == old(trafficReceivedLast) && trafficSent == old(trafficSent)
      ensures timerRunning == old(timerRunning) && timerInterval == old(timerInterval)
    {
      requestCount := count;
    }

    /** `incrementRequestCount`: one more request served on this connection. */
    method IncrementRequestCount()
      modifies this
      ensures requestCount == old(requestCount) + 1
      ensures timeouts == old(timeouts) && currentTimeoutMode == old(currentTimeoutMode) && events == old(events)
      ensures minBytesReceived == old(minBytesReceived) && trafficReceived == old(trafficReceived)
      ensures trafficReceivedLast == old(trafficReceivedLast) && trafficSent == old(trafficSent)
      ensures timerRunning == old(timerRunning) && timerInterval == old(timerInterval)
    {
      requestCount := requestCount + 1;
    }

    /** `addBytesReceived`: the counter grows by `bytes`, modulo 2^64. */
    method AddBytesReceived(bytes: UInt64)
      modifies this
      ensures trafficReceived == Wrap64(old(trafficReceived) + bytes)
      ensures old(trafficReceived) + bytes < TWO_TO_64 ==> trafficReceived == old(trafficReceived) + bytes
      ensures Wrap64(trafficReceived - old(trafficReceived)) == bytes
      ensures timeouts == old(timeouts) && currentTimeoutMode == old(currentTimeoutMode) && events == old(events)
      ensures minBytesReceived == old(minBytesReceived) && requestCount == old(requestCount)
      ensures trafficReceivedLast == old(trafficReceivedLast) && trafficSent == old(trafficSent)
      ensures timerRunning == old(timerRunning) && timerInterval == old(timerInterval)
    {
      DeltaSurvivesWrap(trafficReceived, bytes);
      trafficReceived := Wrap64(trafficReceived + bytes);
    }

    /** `addBytesSent`: the counter grows by `bytes`, modulo 2^64. */
    method AddBytesSent(bytes: UInt64)
      modifies this
      ensures trafficSent == Wrap64(old(trafficSent) + bytes)
      ensures old(trafficSent) + bytes < TWO_TO_64 ==> trafficSent == old(trafficSent) + bytes
      ensures timeouts == old(timeouts) && currentTimeoutMode == old(currentTimeoutMode) && events == old(events)
      ensures minBytesReceived == old(minBytesReceived) && requestCount == old(requestCount)
      ensures trafficReceivedLast == old(trafficReceivedLast) && trafficReceived == old(trafficReceived)
      ensures timerRunning == old(timerRunning) && timerInterval == old(timerInterval)
    {
      trafficSent := Wrap64(trafficSent + bytes);
    }

    /**
     * `startTimeout`: arms `mode`, snapshots the received counter, and runs
     * the timer with that category's length, or stops it when the length is
     * negative (always so for `Disabled`).
     */
    method StartTimeout(mode: Timeout)
      modifies this
      ensures currentTimeoutMode == mode && trafficReceivedLast == trafficReceived
      ensures timerRunning <==> Get(timeouts, mode) >= 0
      ensures timerRunning ==> timerInterval == Get(timeouts, mode)
      ensures mode == Disabled ==> !timerRunning
      ensures timeouts == old(timeouts) && events == old(events) && minBytesReceived == old(minBytesReceived)
      ensures requestCount == old(requestCount) && trafficReceived == old(trafficReceived)
      ensures trafficSent == old(trafficSent)
    {
      trafficReceivedLast := trafficReceived;
      currentTimeoutMode := mode;
      var msec := GetTimeout(mode);
      if msec < 0 {
        timerRunning := false;
      } else {
        timerRunning := true;
        timerInterval := msec;
      }
    }

    /** `disableTimeout`: no category armed and the timer stopped. */
    method DisableTimeout()
      modifies this
      ensures currentTimeoutMode == Disabled && !timerRunning
      ensures timeouts == old(timeouts) && events == old(events) && minBytesReceived == old(minBytesReceived)
      ensures requestCount == old(requestCount) && trafficReceived == old(trafficReceived)
      ensures trafficReceivedLast == old(trafficReceivedLast) && trafficSent == old(trafficSent)
    {
      currentTimeoutMode := Disabled;
      timerRunning := false;
    }

    /**
     * `triggerTimeout`, run when the timer fires. In `DataTimeout` mode the
     * snapshot advances to the current count, and the connection survives if
     * enough bytes arrived; otherwise `handleTimeout` forces the connection
     * closed and `connectionTimedout` is emitted with the armed category.
     */
    method TriggerTimeout()
      modifies this
      ensures var fired := Expires(old(currentTimeoutMode), old(minBytesReceived), old(trafficReceived), old(trafficReceivedLast));
        events == old(events) + (if fired then [ForceClose(old(currentTimeoutMode)), ConnectionTimedout(old(currentTimeoutMode))] else [])
      ensures trafficReceivedLast == (if old(currentTimeoutMode) == DataTimeout then old(trafficReceived) else old(trafficReceivedLast))
      ensures currentTimeoutMode == old(currentTimeoutMode) && timeouts == old(timeouts)
      ensures minBytesReceived == old(minBytesReceived) && requestCount == old(requestCount)
      ensures trafficReceived == old(trafficReceived) && trafficSent == old(trafficSent)
      ensures timerRunning == old(timerRunning) && timerInterval == old(timerInterval)
    {
      if currentTimeoutMode == DataTimeout {
        var delta := Wrap64(trafficReceived - trafficReceivedLast);
        trafficReceivedLast := trafficReceived;
        if AsUnsigned(minBytesReceived) <= delta {
          return;
        }
      }
      events := events + [ForceClose(currentTimeoutMode), ConnectionTimedout(currentTimeoutMode)];
    }
  }
}
