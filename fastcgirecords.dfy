/**
 * The FastCGI wire structures (section 3.3 and section 5 of the FastCGI
 * Specification 1.0): the 8-byte record header, the record types, roles and
 * protocol statuses, and the bodies of the fixed-size records. Every 16-bit
 * and 32-bit field is big-endian on the wire.
 */
module FastCgiRecords {
  import opened Bytes

  type UInt16 = x: int | 0 <= x < 0x1_0000
  type UInt32 = x: int | 0 <= x < 0x1_0000_0000

  /** `FastCgiRecord::Version`. */
  const RecordVersion: byte := 1

  /** `FastCgiType`. */
  const BeginRequest: byte := 1
  const AbortRequest: byte := 2
  const EndRequest: byte := 3
  const Params: byte := 4
  const StdIn: byte := 5
  const StdOut: byte := 6
  const StdErr: byte := 7
  const Data: byte := 8
  const GetValues: byte := 9
  const GetValuesResult: byte := 10
  const UnknownType: byte := 11

  /** `FastCgiRole`. */
  const Responder: UInt16 := 1
  const Authorizer: UInt16 := 2
  const Filter: UInt16 := 3

  /** `FastCgiProtocolStatus`. */
  const RequestComplete: byte := 0
  const CantMultiplexConn: byte := 1
  const Overloaded: byte := 2
  const UnknownRole: byte := 3

  /** `sizeof(FastCgiRecord)`. */
  const HeaderSize: nat := 8

  /** `NameValueCharLimit`: the longest length written in a single byte. */
  const NameValueCharLimit: nat := 127

  /** `FastCgiRecord`: the record header. */
  datatype Record = Record(version: byte, recordType: byte, requestId: UInt16, contentLength: UInt16,
                           paddingLength: byte, reserved: byte)

  /** The header as the packed structure lays it out on the wire. */
  function HeaderBytes(r: Record): (b: Bytes)
    ensures |b| == HeaderSize
    ensures b[0] == r.version && b[1] == r.recordType && b[6] == r.paddingLength && b[7] == r.reserved
  {
    [r.version, r.recordType] + ToBigEndian(r.requestId, 2) + ToBigEndian(r.contentLength, 2)
      + [r.paddingLength, r.reserved]
  }

  /** `FastCgiBeginRequestBody`, without its reserved bytes. */
  datatype BeginRequestBody = BeginRequestBody(role: UInt16, flags: byte)

  /** `sizeof(FastCgiBeginRequestBody)`, `sizeof(FastCgiEndRequestBody)` and `sizeof(FastCgiUnknownTypeBody)`. */
  const BodySize: nat := 8

  /** The `KeepConnection` bit of the begin-request flags. */
  const KeepConnectionFlag: byte := 1
}
