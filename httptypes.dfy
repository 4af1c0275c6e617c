/**
 * The value types `HttpClient` declares (versions, verbs, transfer and
 * connection modes, the well-known header names, cookies) together with its
 * two static lookup tables, `httpStatusCodeName` and `httpHeaderName`.
 */
module HttpTypes {
  import opened Bytes
  import opened ByteMaps

  datatype HttpVersion = HttpUnknown | Http1_0 | Http1_1

  datatype HttpVerb = InvalidVerb | GET | POST | HEAD | PUT | DELETE
  {
    /** The enumerator's value: one bit per verb, 0 for InvalidVerb. */
    function Bit(): nat
    {
      match this
      case InvalidVerb => 0
      case GET => 1
      case POST => 2
      case HEAD => 4
      case PUT => 8
      case DELETE => 16
    }
  }

  /** A `Callback`: none (invalid), or one identified by a number. */
  datatype Callback = NoCallback | Callback(id: nat)

  /**
   * A `SlotInfo` (declared with `HttpNode`): the callback of a slot and its
   * settings, 4 MiB and all verbs by default. It is valid iff its callback is.
   */
  datatype SlotInfo = SlotInfo(callback: Callback, streamPostBody: bool, maxBodyLength: int,
                               allowedVerbs: int, forceEncrypted: bool)
  {
    predicate IsValid() { callback.Callback? }
  }

  /** A `SlotInfo` made from a callback: nothing streamed, a 4 MiB limit, verbs 0xFF, no encryption required. */
  function NewSlotInfo(callback: Callback): (r: SlotInfo)
    ensures r.IsValid() <==> callback.Callback?
  {
    SlotInfo(callback, false, 4096 * 1024, 0xFF, false)
  }

  /** `HttpClient::AllVerbs`. */
  const AllVerbs: int := 31

  /** `mask & verb` is non-zero: the verb's bit is set in the flag set. */
  predicate VerbIn(mask: int, verb: HttpVerb)
  {
    verb.Bit() != 0 && mask >= 0 && (mask / verb.Bit()) % 2 == 1
  }

  datatype TransferMode = Streaming | ChunkedStreaming

  datatype ConnectionMode = ConnectionClose | ConnectionKeepAlive

  /** A `QNetworkCookie`; `expires` is None for a session cookie (milliseconds otherwise). */
  datatype Cookie = Cookie(name: Bytes, value: Bytes, domain: Bytes, path: Bytes,
                           expires: Option<int>, secure: bool, httpOnly: bool)

  /** `HttpClient::Cookies`, a `QMap` from cookie name to cookie. */
  type Cookies = Assoc<Cookie>

  datatype HttpHeader =
    | HeaderCacheControl | HeaderContentLength | HeaderContentType | HeaderConnection | HeaderDate
    | HeaderHost | HeaderUserAgent | HeaderAccept | HeaderAcceptCharset | HeaderAcceptEncoding
    | HeaderAcceptLanguage | HeaderAuthorization | HeaderCookie | HeaderRange | HeaderReferer
    | HeaderDoNotTrack | HeaderExpect
    | HeaderContentEncoding | HeaderContentLanguage | HeaderContentDisposition | HeaderContentRange
    | HeaderLastModified | HeaderRefresh | HeaderSetCookie | HeaderTransferEncoding | HeaderLocation

  /** `HttpClient::httpHeaderName`: the header's name as sent on the wire. */
  function HeaderName(h: HttpHeader): (r: Bytes)
    ensures |r| > 0
  {
    Latin1(match h
      case HeaderCacheControl => "Cache-Control"
      case HeaderContentLength => "Content-Length"
      case HeaderContentType => "Content-Type"
      case HeaderConnection => "Connection"
      case HeaderDate => "Date"
      case HeaderHost => "Host"
      case HeaderUserAgent => "User-Agent"
      case HeaderAccept => "Accept"
      case HeaderAcceptCharset => "Accept-Charset"
      case HeaderAcceptEncoding => "Accept-Encoding"
      case HeaderAcceptLanguage => "Accept-Language"
      case HeaderAuthorization => "Authorization"
      case HeaderCookie => "Cookie"
      case HeaderRange => "Range"
      case HeaderReferer => "Referer"
      case HeaderDoNotTrack => "Do-Not-Track"
      case HeaderExpect => "Expect"
      case HeaderContentEncoding => "Content-Encoding"
      case HeaderContentLanguage => "Content-Language"
      case HeaderContentDisposition => "Content-Disposition"
      case HeaderContentRange => "Content-Range"
      case HeaderLastModified => "Last-Modified"
      case HeaderRefresh => "Refresh"
      case HeaderSetCookie => "Set-Cookie"
      case HeaderTransferEncoding => "Transfer-Encoding"
      case HeaderLocation => "Location")
  }

  /** The status codes `httpStatusCodeName` knows. */
  predicate KnownStatus(code: int)
  {
    code in {100, 101, 200, 201, 202, 203, 204, 205, 206, 300, 301, 302, 303, 304, 305, 307}
    || 400 <= code <= 418 || 500 <= code <= 505
  }

  /**
   * `HttpClient::httpStatusCodeName`: the reason phrase of section 6.1.1 of
   * RFC 2616 (and 418 of RFC 2324), or empty for any other code.
   */
  function StatusCodeName(code: int): (r: Bytes)
    ensures r != [] <==> KnownStatus(code)
  {
    Latin1(ReasonPhrase(code))
  }

  function ReasonPhrase(code: int): (r: string)
    ensures r != [] <==> KnownStatus(code)
  {
      if code == 100 then "Continue"
      else if code == 101 then "Switching Protocols"
      else if code == 200 then "OK"
      else if code == 201 then "Created"
      else if code == 202 then "Accepted"
      else if code == 203 then "Non-Authorative Information"
      else if code == 204 then "No Content"
      else if code == 205 then "Reset Content"
      else if code == 206 then "Partial Content"
      else if code == 300 then "Multiple Choices"
      else if code == 301 then "Moved Permanently"
      else if code == 302 then "Found"
      else if code == 303 then "See Other"
      else if code == 304 then "Not Modified"
      else if code == 305 then "Use Proxy"
      else if code == 307 then "Temporary Redirect"
      else if code == 400 then "Bad Request"
      else if code == 401 then "Unauthorized"
      else if code == 402 then "Payment Required"
      else if code == 403 then "Forbidden"
      else if code == 404 then "Not Found"
      else if code == 405 then "Method Not Allowed"
      else if code == 406 then "Not Acceptable"
      else if code == 407 then "Proxy Authentication Required"
      else if code == 408 then "Request Timeout"
      else if code == 409 then "Conflict"
      else if code == 410 then "Gone"
      else if code == 411 then "Length Required"
      else if code == 412 then "Precondition Failed"
      else if code == 413 then "Request Entity Too Large"
      else if code == 414 then "Request-URI Too Long"
      else if code == 415 then "Unsupported Media Type"
      else if code == 416 then "Requested Range Not Satisfiable"
      else if code == 417 then "Expectation Failed"
      else if code == 418 then "I'm a teapot"
      else if code == 500 then "Internal Server Error"
      else if code == 501 then "Not Implemented"
      else if code == 502 then "Bad Gateway"
      else if code == 503 then "Service Unavailable"
      else if code == 504 then "Gateway Timeout"
      else if code == 505 then "HTTP Version Not Supported"
      else ""
  }
}
