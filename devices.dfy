/**
 * A `QIODevice` seen through the bytes waiting to be read from it and the
 * bytes written to it so far.
 */
module Devices {
  import opened Bytes

  class Device {
    /** The bytes received and not yet read, oldest first. */
    var available: Bytes
    /** Everything written to the device, in order. */
    var written: Bytes
    /** Set once `close` has been called. */
    var closed: bool

    constructor ()
      ensures available == [] && written == [] && !closed
    {
      available := [];
      written := [];
      closed := false;
    }

    /** `close`: nothing more is written. */
    method Close()
      modifies this
      ensures closed && written == old(written) && available == old(available)
    {
      closed := true;
    }

    /** `QIODevice::write`: appends `data` to the output. */
    method Write(data: Bytes)
      modifies this
      ensures written == old(written) + data && closed == old(closed) && available == old(available)
    {
      written := written + data;
    }

    /**
     * A write to a buffer device whose reader reads what is written to it
     * (`TemporaryBufferDevice`): the bytes are output and become waiting to
     * be read, after any not yet read.
     */
    method WriteReadable(data: Bytes)
      modifies this
      ensures written == old(written) + data && available == old(available) + data && closed == old(closed)
    {
      written := written + data;
      available := available + data;
    }

    /** `QIODevice::read(n)`: removes and returns at most `n` bytes from the front of the input. */
    method Read(n: nat) returns (data: Bytes)
      modifies this
      ensures data + available == old(available)
      ensures |data| == if n < |old(available)| then n else |old(available)|
      ensures written == old(written) && closed == old(closed)
    {
      var k := if n < |available| then n else |available|;
      data := available[..k];
      available := available[k..];
    }

    /**
     * `QIODevice::readLine(maxlen)`: removes and returns the input up to and
     * including the first '\n', at most `maxlen - 1` bytes of it.
     */
    method ReadLine(maxlen: nat) returns (line: Bytes)
      requires maxlen >= 2
      modifies this
      ensures line + available == old(available)
      ensures |line| == LineTaken(old(available), maxlen)
      ensures written == old(written) && closed == old(closed)
    {
      var k := LineTaken(available, maxlen);
      line := available[..k];
      available := available[k..];
    }
  }

  /** How many bytes `readLine(maxlen)` takes: through the first '\n', capped at `maxlen - 1`. */
  function LineTaken(data: Bytes, maxlen: nat): (n: nat)
    requires maxlen >= 2
    ensures n <= |data| && n < maxlen
    ensures 10 in data ==> n > 0
  {
    var end := IndexOf(data, 10, 0);
    var through := if end == -1 then |data| else end + 1;
    if through < maxlen - 1 then through else maxlen - 1
  }
}
