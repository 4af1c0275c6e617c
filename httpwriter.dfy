/**
 * `HttpWriter`: the status line and the header block of a response,
 * `Set-Cookie` values (section 4.1 of RFC 2109), the `Date` and
 * `Content-Range` texts, and the helpers that add the standard headers to a
 * response's header multimap.
 */
module HttpWriter {
  import opened Bytes
  import opened Numbers
  import opened Percent
  import opened ByteMaps
  import opened HeaderMaps
  import opened HttpTypes
  import opened HttpParser

  const CRLF: Bytes := [13, 10]
  const SLASH: byte := 47
  const STAR: byte := 42

  lemma NoSpaceInDecimal(n: int)
    ensures SP !in Decimal(n)
  {
    DecimalHasNoSpace(n);
  }

  /** A non-negative number is written with digits only. */
  lemma NoneButDigits(n: int, b: byte)
    requires n >= 0 && !IsDigit(b)
    ensures b !in Decimal(n)
  {
    assert forall i :: 0 <= i < |Decimal(n)| ==> IsDigit(Decimal(n)[i]);
  }

  // ---------------------------------------------------------------------------
  // Status line

  /** `httpVersionToString`: "HTTP/1.0", "HTTP/1.1", or nothing for an unknown version. */
  function VersionString(v: HttpVersion): (r: Bytes)
    ensures r == [] <==> v == HttpUnknown
    ensures v != HttpUnknown ==> |r| == 8 && r[..5] == HTTP_SLASH && ParseVersion(r[5..]) == v
  {
    if v == HttpUnknown then []
    else
      assert (HTTP_SLASH + VersionNumber(v))[5..] == VersionNumber(v);
      ParseVersionExact(VersionNumber(v), v);
      HTTP_SLASH + VersionNumber(v)
  }

  lemma NoSpaceInVersion(v: HttpVersion)
    ensures SP !in VersionString(v)
  {
    if v != HttpUnknown {
      var s := VersionString(v);
      assert s == [72, 84, 84, 80, 47, 49, 46, s[7]];
    }
  }

  /** The reason phrase: the caller's message, else the standard phrase of the code. */
  function Reason(code: int, message: Bytes): (r: Bytes)
    ensures r == [] <==> message == [] && !KnownStatus(code)
    ensures message != [] ==> r == message
  {
    if message == [] then StatusCodeName(code) else message
  }

  /** `writeResponseLine`: "<version> <code> <reason>\r\n". */
  function ResponseLine(version: HttpVersion, code: int, message: Bytes): Bytes
  {
    VersionString(version) + [SP] + Decimal(code) + [SP] + Reason(code, message) + CRLF
  }

  /**
   * A client reading the status line finds the version before the first
   * space, the status code before the second and the reason phrase before
   * the final CRLF.
   */
  lemma ResponseLineRead(line: Bytes, version: HttpVersion, code: int, message: Bytes, a: nat, b: nat)
    requires line == ResponseLine(version, code, message)
    requires version != HttpUnknown && MinInt64 <= code <= MaxInt64
    requires a == |VersionString(version)| && b == a + 1 + |Decimal(code)|
    ensures a == 8 && ParseVersion(line[5..a]) == version
    ensures IndexOf(line, SP, 0) == a && IndexOf(line, SP, a + 1) == b
    ensures ParseInt(line[a + 1..b]) == Some(code)
    ensures RemoveTrailingNewline(line[b + 1..]) == (true, Reason(code, message))
  {
    StatusLineRead(line, version, code, Reason(code, message), a, b);
  }

  lemma StatusLineLayout(line: Bytes, vs: Bytes, num: Bytes, rest: Bytes, a: nat, b: nat)
    requires line == vs + [SP] + num + [SP] + rest && SP !in vs && SP !in num
    requires a == |vs| && b == a + 1 + |num|
    ensures IndexOf(line, SP, 0) == a && line[0..a] == vs
    ensures IndexOf(line, SP, a + 1) == b && line[a + 1..b] == num && line[b + 1..] == rest
  {
    assert line == [] + vs + [SP] + num + [SP] + rest;
    TwoFields(line, [], vs, SP, num, SP, rest, a, b);
  }

  lemma StatusLineRead(line: Bytes, version: HttpVersion, code: int, reason: Bytes, a: nat, b: nat)
    requires line == VersionString(version) + [SP] + Decimal(code) + [SP] + reason + CRLF
    requires version != HttpUnknown && MinInt64 <= code <= MaxInt64
    requires a == |VersionString(version)| && b == a + 1 + |Decimal(code)|
    ensures a == 8 && ParseVersion(line[5..a]) == version
    ensures IndexOf(line, SP, 0) == a && IndexOf(line, SP, a + 1) == b
    ensures ParseInt(line[a + 1..b]) == Some(code)
    ensures RemoveTrailingNewline(line[b + 1..]) == (true, reason)
  {
    NoSpaceInVersion(version);
    NoSpaceInDecimal(code);
    assert line == VersionString(version) + [SP] + Decimal(code) + [SP] + (reason + CRLF);
    StatusLineLayout(line, VersionString(version), Decimal(code), reason + CRLF, a, b);
    assert line[5..a] == line[0..a][5..];
    DecimalRoundTrip(code);
    RemoveTrailingNewlineInverse(reason);
  }

  // ---------------------------------------------------------------------------
  // Header block

  /** One header line: "key: value\r\n". */
  function HeaderLine(e: Entry): Bytes
  {
    e.key + [COLON, SP] + e.value + CRLF
  }

  /** The header block: one line per entry, in the multimap's iteration order. */
  function HeadersText(h: HeaderMap): Bytes
  {
    if h == [] then [] else HeaderLine(h[0]) + HeadersText(h[1..])
  }

  /** `writeHttpHeaders`, appending line after line. */
  method WriteHttpHeaders(headers: HeaderMap) returns (data: Bytes)
    ensures data == HeadersText(headers)
  {
    data := [];
    var i := 0;
    while i < |headers|
      invariant 0 <= i <= |headers|
      invariant data + HeadersText(headers[i..]) == HeadersText(headers)
    {
      assert headers[i..][1..] == headers[i + 1..];
      data := data + HeaderLine(headers[i]);
      i := i + 1;
    }
    assert headers[i..] == [];
  }

  /** The block of two runs of entries is the two blocks one after the other. */
  lemma {:induction false} HeadersTextAppend(a: HeaderMap, b: HeaderMap)
    ensures HeadersText(a + b) == HeadersText(a) + HeadersText(b)
  {
    if a != [] {
      assert (a + b)[1..] == a[1..] + b;
      HeadersTextAppend(a[1..], b);
    } else {
      assert a + b == b;
    }
  }

  /** Every written line is read back by the request-side header parser. */
  lemma HeaderLineRead(e: Entry)
    requires e.key != [] && COLON !in e.key && e.value != []
    ensures RemoveTrailingNewline(HeaderLine(e)) == (true, e.key + [COLON, SP] + e.value)
    ensures ParseHeaderLine(e.key + [COLON, SP] + e.value) == Some((e.key, e.value))
  {
    RemoveTrailingNewlineInverse(e.key + [COLON, SP] + e.value);
    ParseHeaderLineInverse(e.key, e.value);
  }

  // ---------------------------------------------------------------------------
  // Set-Cookie

  /** C++ `qint64` division by 1000, which truncates toward zero. */
  function Seconds(ms: int): (r: int)
    ensures ms >= 0 ==> 0 <= r * 1000 <= ms < r * 1000 + 1000
    ensures ms < 0 ==> r * 1000 - 1000 < ms <= r * 1000 <= 0
  {
    if ms >= 0 then ms / 1000 else -((-ms) / 1000)
  }

  /** The lifetime of a cookie expiring at `expiresMs`, seen at `nowMs`, never negative. */
  function MaxAge(expiresMs: int, nowMs: int): (r: nat)
    ensures r == 0 <==> Seconds(expiresMs) <= Seconds(nowMs)
    ensures r != 0 ==> Seconds(nowMs) + r == Seconds(expiresMs)
  {
    var lifetime := Seconds(expiresMs) - Seconds(nowMs);
    if lifetime < 0 then 0 else lifetime
  }

  /** The attributes after the pair, in the fixed order Domain, Path, Max-Age, Secure, HttpOnly. */
  function CookieAttributes(c: Cookie, nowMs: int): Bytes
  {
    (if c.domain != [] then Latin1("; Domain=") + c.domain else [])
    + (if c.path != [] then Latin1("; Path=") + c.path else [])
    + (if c.expires.Some? then Latin1("; Max-Age=") + Decimal(MaxAge(c.expires.value, nowMs)) else [])
    + (if c.secure then Latin1("; Secure") else [])
    + (if c.httpOnly then Latin1("; HttpOnly") else [])
  }

  /** `writeSetCookieValue`: "name=" and the percent-encoded value, then the attributes. */
  function SetCookieValue(c: Cookie, nowMs: int): Bytes
  {
    c.name + [EQUALS] + PercentEncode(c.value) + CookieAttributes(c, nowMs)
  }

  /**
   * The value starts with the name and '=', and what follows up to the
   * attributes decodes to the cookie's value.
   */
  lemma SetCookieValueParts(c: Cookie, nowMs: int, n: nat, e: nat)
    requires n == |c.name| && e == n + 1 + |PercentEncode(c.value)|
    ensures e <= |SetCookieValue(c, nowMs)|
    ensures SetCookieValue(c, nowMs)[..n] == c.name && SetCookieValue(c, nowMs)[n] == EQUALS
    ensures PercentDecode(SetCookieValue(c, nowMs)[n + 1..e]) == c.value
    ensures SetCookieValue(c, nowMs)[e..] == CookieAttributes(c, nowMs)
  {
    var enc := PercentEncode(c.value);
    assert SetCookieValue(c, nowMs)[n + 1..e] == enc;
    PercentRoundTrip(c.value);
  }

  /** A cookie without attributes has no text after its pair. */
  predicate NoAttributes(c: Cookie)
  {
    c.domain == [] && c.path == [] && c.expires.None? && !c.secure && !c.httpOnly
  }

  /**
   * Round trip: a cookie without attributes, sent with `Set-Cookie` and
   * returned by the client in a `Cookie` header, is read back under its name
   * with its value.
   */
  lemma SetCookieRoundTrip(c: Cookie, nowMs: int, target: Cookies)
    requires PlainCookieName(c.name) && NoAttributes(c)
    ensures CookiesFrom(SetCookieValue(c, nowMs), 0, target)
         == CookieParse(true, Put(target, c.name, RequestCookie(c.name, c.value)))
  {
    var p := CookiePair(c.name, c.value);
    assert CookieHeader([p]) == SetCookieValue(c, nowMs);
    assert StoreAll(target, [p]) == StoreAll(Put(target, c.name, RequestCookie(c.name, c.value)), []);
    CookieHeaderRoundTrip([p], target);
  }

  /** "Set-Cookie". */
  const SetCookieKey: Bytes := [83, 101, 116, 45, 67, 111, 111, 107, 105, 101]

  /** The header entries `writeSetCookies` writes, one per cookie in key order. */
  function CookieEntries(cookies: Cookies, nowMs: int): (r: HeaderMap)
  {
    seq(|cookies|, i requires 0 <= i < |cookies| => Entry(SetCookieKey, SetCookieValue(cookies[i].1, nowMs)))
  }

  /** `writeSetCookies`: one "Set-Cookie: " line per cookie. */
  method WriteSetCookies(cookies: Cookies, nowMs: int) returns (data: Bytes)
    ensures data == HeadersText(CookieEntries(cookies, nowMs))
  {
    ghost var entries := CookieEntries(cookies, nowMs);
    data := [];
    var i := 0;
    while i < |cookies|
      invariant 0 <= i <= |cookies|
      invariant data + HeadersText(entries[i..]) == HeadersText(entries)
    {
      var line := SetCookieKey + [COLON, SP] + SetCookieValue(cookies[i].1, nowMs) + CRLF;
      assert line == HeaderLine(entries[i]);
      assert entries[i..][1..] == entries[i + 1..];
      data := data + line;
      i := i + 1;
    }
    assert entries[i..] == [];
  }

  /** Every `Set-Cookie` line reads back as that header with the cookie's value. */
  lemma SetCookieLineRead(c: Cookie, nowMs: int)
    ensures ParseHeaderLine(SetCookieKey + [COLON, SP] + SetCookieValue(c, nowMs))
         == Some((SetCookieKey, SetCookieValue(c, nowMs)))
  {
    assert SetCookieValue(c, nowMs)[|c.name|] == EQUALS;
    ParseHeaderLineInverse(SetCookieKey, SetCookieValue(c, nowMs));
  }

  // ---------------------------------------------------------------------------
  // Date

  /** A broken-down UTC time as `QDate` and `QTime` report it (Monday is day 1). */
  datatype DateTime = DateTime(dayOfWeek: int, day: int, month: int, year: int,
                               hour: int, minute: int, second: int)

  predicate ValidDateTime(d: DateTime)
  {
    1 <= d.dayOfWeek <= 7 && 1 <= d.day <= 31 && 1 <= d.month <= 12 && 0 <= d.year <= 9999
    && 0 <= d.hour <= 23 && 0 <= d.minute <= 59 && 0 <= d.second <= 59
  }

  const DayNames: seq<Bytes> := [Latin1("Mon"), Latin1("Tue"), Latin1("Wed"), Latin1("Thu"),
                                 Latin1("Fri"), Latin1("Sat"), Latin1("Sun")]

  /** The month abbreviations of section 7.1.1.1 of RFC 7231. */
  const MonthNames: seq<Bytes> := [Latin1("Jan"), Latin1("Feb"), Latin1("Mar"), Latin1("Apr"),
                                   Latin1("May"), Latin1("Jun"), Latin1("Jul"), Latin1("Aug"),
                                   Latin1("Sep"), Latin1("Oct"), Latin1("Nov"), Latin1("Dec")]

  /** The month table of `dateTimeToHttpDateHeader`, which spells May "Mai". */
  const MonthNamesAsWritten: seq<Bytes> := [Latin1("Jan"), Latin1("Feb"), Latin1("Mar"), Latin1("Apr"),
                                            Latin1("Mai"), Latin1("Jun"), Latin1("Jul"), Latin1("Aug"),
                                            Latin1("Sep"), Latin1("Oct"), Latin1("Nov"), Latin1("Dec")]

  /** `%02i` of a value below 100. */
  function Two(n: int): (r: Bytes)
    requires 0 <= n < 100
    ensures |r| == 2 && IsDigit(r[0]) && IsDigit(r[1])
  {
    [(48 + n / 10) as byte, (48 + n % 10) as byte]
  }

  /** `%04i` of a value below 10000. */
  function Four(n: int): (r: Bytes)
    requires 0 <= n < 10000
    ensures |r| == 4 && forall i :: 0 <= i < 4 ==> IsDigit(r[i])
  {
    Two(n / 100) + Two(n % 100)
  }

  /** The time of day and the zone: " hh:mm:ss GMT". */
  function ClockText(d: DateTime): (r: Bytes)
    requires ValidDateTime(d)
    ensures |r| == 13
  {
    [SP] + Two(d.hour) + [COLON] + Two(d.minute) + [COLON] + Two(d.second) + Latin1(" GMT")
  }

  /**
   * `dateTimeToHttpDateHeader` as written: "%s, %i %s %i %02i:%02i:%02i GMT"
   * over its day and month tables.
   */
  function HttpDateAsWritten(d: DateTime): Bytes
    requires ValidDateTime(d)
  {
    DayNames[d.dayOfWeek - 1] + Latin1(", ") + Decimal(d.day) + [SP] + MonthNamesAsWritten[d.month - 1]
    + [SP] + Decimal(d.year) + ClockText(d)
  }

  /** The IMF-fixdate form of section 7.1.1.1 of RFC 7231, e.g. "Sun, 06 Nov 1994 08:49:37 GMT". */
  ghost predicate ImfFixdate(s: Bytes)
  {
    |s| == 29 && s[..3] in DayNames && s[3..5] == Latin1(", ") && IsDigit(s[5]) && IsDigit(s[6])
    && s[7] == SP && s[8..11] in MonthNames && s[11] == SP
    && IsDigit(s[12]) && IsDigit(s[13]) && IsDigit(s[14]) && IsDigit(s[15])
    && s[16] == SP && IsDigit(s[17]) && IsDigit(s[18]) && s[19] == COLON
    && IsDigit(s[20]) && IsDigit(s[21]) && s[22] == COLON && IsDigit(s[23]) && IsDigit(s[24])
    && s[25..] == Latin1(" GMT")
  }

  /** The `Date` value with the RFC's month names and a two-digit day. */
  function HttpDate(d: DateTime): Bytes
    requires ValidDateTime(d)
  {
    DayNames[d.dayOfWeek - 1] + Latin1(", ") + Two(d.day) + [SP] + MonthNames[d.month - 1]
    + [SP] + Four(d.year) + ClockText(d)
  }

  /** Every valid date is written as an IMF-fixdate. */
  lemma HttpDateIsImfFixdate(d: DateTime)
    requires ValidDateTime(d)
    ensures ImfFixdate(HttpDate(d))
  {
    var day, month := DayNames[d.dayOfWeek - 1], MonthNames[d.month - 1];
    var front := day + Latin1(", ") + Two(d.day) + [SP] + month + [SP];
    var s := HttpDate(d);
    assert |day| == 3 && |month| == 3;
    assert s == front + Four(d.year) + ClockText(d);
    assert s[..3] == day && s[3..5] == Latin1(", ") && s[8..11] == month;
    assert s[12..16] == Four(d.year);
    assert s[16..] == ClockText(d);
    assert ClockText(d)[9..] == Latin1(" GMT");
  }

  /** A date in May is written with "Mai", which is no month name of the RFC. */
  lemma MayIsMisspelled()
    ensures !ImfFixdate(HttpDateAsWritten(DateTime(4, 15, 5, 2014, 8, 30, 0)))
  {
    var s := HttpDateAsWritten(DateTime(4, 15, 5, 2014, 8, 30, 0));
    assert Decimal(15) == [49, 53];
    assert s[8..11] == Latin1("Mai");
    assert Latin1("Mai") !in MonthNames by {
      assert forall i :: 0 <= i < |MonthNames| ==>
        (MonthNames[i][2] != Latin1("Mai")[2] || MonthNames[i][0] != Latin1("Mai")[0]);
    }
  }

  /** A day before the tenth is written with one digit, one byte short of the fixed form. */
  lemma DayIsNotPadded()
    ensures !ImfFixdate(HttpDateAsWritten(DateTime(5, 6, 6, 2014, 8, 30, 0)))
  {
    assert Decimal(6) == [54];
    assert |Decimal(2014)| == 4 by {
      assert Digits(2014) == Digits(201) + [52];
      assert Digits(201) == Digits(20) + [49];
      assert Digits(20) == Digits(2) + [48];
    }
    assert |HttpDateAsWritten(DateTime(5, 6, 6, 2014, 8, 30, 0))| == 28;
  }

  // ---------------------------------------------------------------------------
  // Content-Range

  /** The total length, or "*" when it is unknown. */
  function TotalText(total: int): Bytes
  {
    if total > -1 then Decimal(total) else [STAR]
  }

  /** `buildRangeHeader`: "bytes <begin>-<end>/<total>". */
  function RangeHeader(begin: int, end: int, total: int): Bytes
  {
    Latin1("bytes ") + Decimal(begin) + [DASH] + Decimal(end) + [SLASH] + TotalText(total)
  }

  lemma TotalRead(total: int)
    requires total <= MaxInt64
    ensures ParseInt(TotalText(total)) == if total > -1 then Some(total) else None
  {
    if total > -1 {
      DecimalRoundTrip(total);
    } else {
      assert Trimmed([STAR]) == [STAR];
    }
  }

  /** A client splitting the value at '-' and '/' reads the three numbers back. */
  lemma RangeHeaderRead(text: Bytes, begin: int, end: int, total: int, a: nat, b: nat)
    requires text == RangeHeader(begin, end, total)
    requires 0 <= begin <= MaxInt64 && 0 <= end <= MaxInt64 && total <= MaxInt64
    requires a == 6 + |Decimal(begin)| && b == a + 1 + |Decimal(end)|
    ensures text[..6] == Latin1("bytes ")
    ensures IndexOf(text, DASH, 6) == a && ParseInt(text[6..a]) == Some(begin)
    ensures IndexOf(text, SLASH, a + 1) == b && ParseInt(text[a + 1..b]) == Some(end)
    ensures ParseInt(text[b + 1..]) == if total > -1 then Some(total) else None
  {
    assert text[..6] == Latin1("bytes ") && text[6..a] == Decimal(begin) && IndexOf(text, DASH, 6) == a
      && text[a + 1..b] == Decimal(end) && IndexOf(text, SLASH, a + 1) == b && text[b + 1..] == TotalText(total) by {
      NoneButDigits(begin, DASH);
      NoneButDigits(end, SLASH);
      TwoFields(text, Latin1("bytes "), Decimal(begin), DASH, Decimal(end), SLASH, TotalText(total), a, b);
    }
    DecimalRoundTrip(begin);
    DecimalRoundTrip(end);
    TotalRead(total);
  }

  // ---------------------------------------------------------------------------
  // Headers added to a response

  /** Every key other than `k` keeps exactly its values. */
  ghost predicate OthersUnchanged(before: HeaderMap, after: HeaderMap, k: Bytes)
  {
    forall q :: q != k ==> Values(after, q) == Values(before, q)
  }

  lemma InsertOnly(h: HeaderMap, k: Bytes, v: Bytes)
    ensures Values(Insert(h, k, v), k) == [v] + Values(h, k)
    ensures OthersUnchanged(h, Insert(h, k, v), k)
  {
    InsertValues(h, k, v, k);
    forall q | q != k ensures Values(Insert(h, k, v), q) == Values(h, q) {
      InsertValues(h, k, v, q);
    }
  }

  function DateKey(): (r: Bytes)
    ensures r == HeaderName(HeaderDate)
  {
    Latin1("Date")
  }

  function RangeKey(): (r: Bytes)
    ensures r == HeaderName(HeaderContentRange) && |r| == 13
  {
    Latin1("Content-Range")
  }

  function LengthKey(): (r: Bytes)
    ensures r == HeaderName(HeaderContentLength) && |r| == 14
  {
    Latin1("Content-Length")
  }

  function EncodingKey(): (r: Bytes)
    ensures r == HeaderName(HeaderTransferEncoding)
  {
    Latin1("Transfer-Encoding")
  }

  function ConnectionKey(): (r: Bytes)
    ensures r == HeaderName(HeaderConnection)
  {
    Latin1("Connection")
  }

  /**
   * `addComplianceHeaders`: an HTTP/1.1 response gets a `Date` entry when it
   * has none; nothing else changes.
   */
  method AddComplianceHeaders(version: HttpVersion, now: DateTime, headers: HeaderMap) returns (r: HeaderMap)
    requires ValidDateTime(now)
    ensures version != Http1_1 || ContainsKey(headers, DateKey()) ==> r == headers
    ensures version == Http1_1 && !ContainsKey(headers, DateKey()) ==>
      Values(r, DateKey()) == [HttpDate(now)] && OthersUnchanged(headers, r, DateKey())
    ensures version == Http1_1 ==> ContainsKey(r, DateKey())
    ensures Sorted(headers) ==> Sorted(r)
  {
    r := headers;
    if version != Http1_1 {
      return;
    }
    if !ContainsKey(headers, DateKey()) {
      r := Insert(headers, DateKey(), HttpDate(now));
      InsertOnly(headers, DateKey(), HttpDate(now));
      if Sorted(headers) {
        InsertSorted(headers, DateKey(), HttpDate(now));
      }
    }
  }

  /** The `Content-Range` and `Content-Length` values a response with this range and length gets. */
  function RangeValues(begin: int, end: int, total: int): (Option<Bytes>, Option<Bytes>)
  {
    if begin != -1 && end != -1 then (Some(RangeHeader(begin, end, total)), Some(Decimal(end - begin)))
    else if total != -1 then (None, Some(Decimal(total)))
    else (None, None)
  }

  /** The values of `k` after adding `v` only when `k` has none. */
  function AddedIfAbsent(h: HeaderMap, k: Bytes, v: Option<Bytes>): seq<Bytes>
  {
    if v.Some? && !ContainsKey(h, k) then [v.value] else Values(h, k)
  }

  /** `if (!headers.contains(k)) headers.insert(k, v)`. */
  method InsertIfAbsent(headers: HeaderMap, k: Bytes, v: Bytes) returns (r: HeaderMap)
    ensures Values(r, k) == AddedIfAbsent(headers, k, Some(v))
    ensures OthersUnchanged(headers, r, k)
    ensures Sorted(headers) ==> Sorted(r)
  {
    r := headers;
    if !ContainsKey(headers, k) {
      r := Insert(headers, k, v);
      InsertOnly(headers, k, v);
      if Sorted(headers) { InsertSorted(headers, k, v); }
    }
  }

  /**
   * `applyRangeHeaders`: with a range, `Content-Range` and a `Content-Length`
   * of end - begin; without one, a `Content-Length` of the total when it is
   * known; each only when the response has no value for it yet.
   */
  method ApplyRangeHeaders(begin: int, end: int, total: int, headers: HeaderMap) returns (r: HeaderMap)
    ensures Values(r, RangeKey()) == AddedIfAbsent(headers, RangeKey(), RangeValues(begin, end, total).0)
    ensures Values(r, LengthKey()) == AddedIfAbsent(headers, LengthKey(), RangeValues(begin, end, total).1)
    ensures forall q :: q != RangeKey() && q != LengthKey() ==> Values(r, q) == Values(headers, q)
    ensures Sorted(headers) ==> Sorted(r)
  {
    assert RangeKey() != LengthKey();
    r := headers;
    if begin != -1 && end != -1 {
      var withRange := InsertIfAbsent(headers, RangeKey(), RangeHeader(begin, end, total));
      assert Values(withRange, LengthKey()) == Values(headers, LengthKey());
      r := InsertIfAbsent(withRange, LengthKey(), Decimal(end - begin));
      assert Values(r, RangeKey()) == Values(withRange, RangeKey());
    } else if total != -1 {
      r := InsertIfAbsent(headers, LengthKey(), Decimal(total));
    }
  }

  /** "chunked". */
  const Chunked: Bytes := [99, 104, 117, 110, 107, 101, 100]

  /**
   * The `Transfer-Encoding` value after announcing chunked coding: "chunked"
   * alone, the previous value with ", chunked" appended, or the previous value when it
   * already mentions it.
   */
  function WithChunked(prev: Bytes): (r: Bytes)
    ensures Contains(r, Chunked)
    ensures StartsWith(r, prev)
    ensures Contains(prev, Chunked) ==> r == prev
  {
    if prev == [] then Chunked
    else if Contains(prev, Chunked) then prev
    else
      var r := prev + Latin1(", chunked");
      assert r[|prev| + 2..|prev| + 9] == Chunked;
      assert OccursAt(r, Chunked, |prev| + 2);
      assert r[..|prev|] == prev;
      r
  }

  /**
   * `addTransferEncodingHeader`: in chunked mode a new newest
   * `Transfer-Encoding` entry mentioning "chunked" is added; otherwise
   * nothing changes.
   */
  method AddTransferEncodingHeader(mode: TransferMode, headers: HeaderMap) returns (r: HeaderMap)
    ensures mode != ChunkedStreaming ==> r == headers
    ensures mode == ChunkedStreaming ==>
      Values(r, EncodingKey()) == [WithChunked(Value(headers, EncodingKey()))] + Values(headers, EncodingKey())
      && OthersUnchanged(headers, r, EncodingKey())
      && Contains(Value(r, EncodingKey()), Chunked)
    ensures Sorted(headers) ==> Sorted(r)
  {
    r := headers;
    if mode != ChunkedStreaming {
      return;
    }
    var value := Value(headers, EncodingKey());
    if value == [] {
      value := Chunked;
    } else if !Contains(value, Chunked) {
      value := value + Latin1(", chunked");
    }
    r := Insert(headers, EncodingKey(), value);
    InsertOnly(headers, EncodingKey(), value);
    if Sorted(headers) { InsertSorted(headers, EncodingKey(), value); }
  }

  /** Whether the connection may stay open: keep-alive requested and requests left. */
  predicate KeepsAlive(mode: ConnectionMode, count: int, max: int)
  {
    mode == ConnectionKeepAlive && (count < max || max == -1)
  }

  /**
   * `addConnectionHeader`: a new `Connection` entry, "keep-alive" exactly
   * when the connection may stay open, "close" otherwise.
   */
  method AddConnectionHeader(mode: ConnectionMode, count: int, max: int, headers: HeaderMap) returns (r: HeaderMap)
    ensures Values(r, ConnectionKey()) ==
      [if KeepsAlive(mode, count, max) then Latin1("keep-alive") else Latin1("close")] + Values(headers, ConnectionKey())
    ensures OthersUnchanged(headers, r, ConnectionKey())
    ensures Sorted(headers) ==> Sorted(r)
  {
    var value := Latin1("close");
    if count < max || max == -1 {
      if mode == ConnectionKeepAlive {
        value := Latin1("keep-alive");
      }
    }
    r := Insert(headers, ConnectionKey(), value);
    InsertOnly(headers, ConnectionKey(), value);
    if Sorted(headers) { InsertSorted(headers, ConnectionKey(), value); }
  }
}
