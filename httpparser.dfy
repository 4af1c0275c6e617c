/**
 * `HttpParser`: the request line (section 3.1.1 of RFC 7230), header lines
 * (section 3.2 of RFC 7230), `Range` values (section 2.1 of RFC 7233) and
 * `Cookie` headers (section 4.2 of RFC 6265).
 */
module HttpParser {
  import opened Bytes
  import opened Numbers
  import opened Percent
  import opened ByteMaps
  import opened HttpTypes

  const SP: byte := 32
  const COLON: byte := 58
  const SEMICOLON: byte := 59
  const EQUALS: byte := 61
  const QUOTE: byte := 34
  const DASH: byte := 45
  /** "HTTP/". */
  const HTTP_SLASH: Bytes := [72, 84, 84, 80, 47]

  /**
   * `removeTrailingNewline`: whether a trailing "\r\n" or "\n" was chopped,
   * and the data after chopping.
   */
  function RemoveTrailingNewline(data: Bytes): (r: (bool, Bytes))
    ensures r.0 <==> EndsWith(data, [10])
    ensures r.0 ==> r.1 + (if EndsWith(data, [13, 10]) then [13, 10] else [10]) == data
    ensures !r.0 ==> r.1 == data
  {
    if EndsWith(data, [13, 10]) then (true, data[..|data| - 2])
    else if EndsWith(data, [10]) then (true, data[..|data| - 1])
    else (false, data)
  }

  /** Chopping undoes appending "\r\n", and undoes appending "\n" after anything but '\r'. */
  lemma RemoveTrailingNewlineInverse(line: Bytes)
    ensures RemoveTrailingNewline(line + [13, 10]) == (true, line)
    ensures !EndsWith(line, [13]) ==> RemoveTrailingNewline(line + [10]) == (true, line)
  {
    assert (line + [13, 10])[..|line|] == line;
    assert (line + [10])[..|line|] == line;
    if !EndsWith(line, [13]) && |line| > 0 {
      assert (line + [10])[|line| - 1..] == [line[|line| - 1], 10];
      assert line[|line| - 1..] == [line[|line| - 1]];
    }
  }

  datatype RequestLine = RequestLine(verb: Bytes, path: Bytes, version: Bytes)

  /** "<verb> <path> HTTP/<version>". */
  function FirstLineText(l: RequestLine): Bytes
  {
    l.verb + [SP] + l.path + [SP] + HTTP_SLASH + l.version
  }

  predicate WellFormedRequestLine(l: RequestLine)
  {
    l.verb != [] && l.path != [] && l.version != [] && SP !in l.verb && SP !in l.path
  }

  /**
   * `parseFirstLine`: the verb runs to the first space, the path to the next
   * one, and the rest must be "HTTP/" and a non-empty version.
   */
  function ParseFirstLine(data: Bytes): (r: Option<RequestLine>)
    ensures r.Some? ==> WellFormedRequestLine(r.value) && FirstLineText(r.value) == data
  {
    var endOfVerb := IndexOf(data, SP, 0);
    if endOfVerb == -1 then None
    else
      var endOfPath := IndexOf(data, SP, endOfVerb + 1);
      if endOfPath == -1 then None
      else
        IndexOfFirst(data, SP, 0);
        IndexOfFirst(data, SP, endOfVerb + 1);
        var verb := data[..endOfVerb];
        var path := data[endOfVerb + 1..endOfPath];
        var rawVersion := data[endOfPath + 1..];
        if verb == [] || path == [] || !StartsWith(rawVersion, HTTP_SLASH) then None
        else
          var version := rawVersion[5..];
          if version == [] then None
          else
            assert rawVersion == HTTP_SLASH + version;
            assert data == verb + [SP] + path + [SP] + rawVersion;
            Some(RequestLine(verb, path, version))
  }

  /** Where the two spaces of a request line are and what lies around them. */
  predicate LineLaidOut(data: Bytes, a: nat, b: nat, verb: Bytes, path: Bytes, rest: Bytes)
  {
    a < b < |data| && IndexOf(data, SP, 0) == a && data[0..a] == verb
    && IndexOf(data, SP, a + 1) == b && data[a + 1..b] == path && data[b + 1..] == rest
  }

  /** A field ended by the first `sep` after `start`. */
  lemma FieldBefore(data: Bytes, sep: byte, pre: Bytes, field: Bytes, tail: Bytes, start: nat, end: nat)
    requires data == pre + field + [sep] + tail && sep !in field
    requires start == |pre| && end == start + |field|
    ensures end < |data| && IndexOf(data, sep, start) == end
    ensures data[start..end] == field && data[end + 1..] == tail
  {
    assert data == pre + field + ([sep] + tail);
    FindsByte(data, sep, pre, field, [sep] + tail, start, end);
  }

  /** Two fields, each ended by the first occurrence of its separator. */
  lemma TwoFields(data: Bytes, pre: Bytes, x: Bytes, s1: byte, y: Bytes, s2: byte, tail: Bytes, a: nat, b: nat)
    requires data == pre + x + [s1] + y + [s2] + tail && s1 !in x && s2 !in y
    requires a == |pre| + |x| && b == a + 1 + |y|
    ensures b < |data| && IndexOf(data, s1, |pre|) == a && data[|pre|..a] == x
    ensures IndexOf(data, s2, a + 1) == b && data[a + 1..b] == y && data[b + 1..] == tail
  {
    assert data == pre + x + [s1] + (y + [s2] + tail);
    FieldBefore(data, s1, pre, x, y + [s2] + tail, |pre|, a);
    FieldBefore(data, s2, pre + x + [s1], y, tail, a + 1, b);
  }

  lemma LineLayout(data: Bytes, verb: Bytes, path: Bytes, rest: Bytes, a: nat, b: nat)
    requires data == verb + [SP] + path + [SP] + rest && SP !in verb && SP !in path
    requires a == |verb| && b == a + 1 + |path|
    ensures LineLaidOut(data, a, b, verb, path, rest)
  {
    assert data == [] + verb + [SP] + (path + [SP] + rest);
    FieldBefore(data, SP, [], verb, path + [SP] + rest, 0, a);
    FieldBefore(data, SP, verb + [SP], path, rest, a + 1, b);
  }

  lemma ReadsLine(data: Bytes, a: nat, b: nat, verb: Bytes, path: Bytes, version: Bytes)
    requires LineLaidOut(data, a, b, verb, path, HTTP_SLASH + version)
    requires verb != [] && path != [] && version != []
    ensures ParseFirstLine(data) == Some(RequestLine(verb, path, version))
  {
    assert (HTTP_SLASH + version)[..5] == HTTP_SLASH && (HTTP_SLASH + version)[5..] == version;
  }

  /** Every well-formed request line is read back exactly. */
  lemma ParseFirstLineInverse(l: RequestLine)
    requires WellFormedRequestLine(l)
    ensures ParseFirstLine(FirstLineText(l)) == Some(l)
  {
    assert FirstLineText(l) == l.verb + [SP] + l.path + [SP] + (HTTP_SLASH + l.version);
    LineLayout(FirstLineText(l), l.verb, l.path, HTTP_SLASH + l.version, |l.verb|, |l.verb| + 1 + |l.path|);
    ReadsLine(FirstLineText(l), |l.verb|, |l.verb| + 1 + |l.path|, l.verb, l.path, l.version);
  }

  /**
   * `parseHeaderLine`: the name runs to the first ':', one space after the
   * colon is skipped, and at least two bytes must follow the colon.
   */
  function ParseHeaderLine(data: Bytes): (r: Option<(Bytes, Bytes)>)
    ensures r.Some? ==> r.value.0 != [] && r.value.1 != [] && COLON !in r.value.0
    ensures r.Some? ==> |data| > |r.value.0| + 1
    ensures r.Some? ==>
      if data[|r.value.0| + 1] == SP then data == r.value.0 + [COLON, SP] + r.value.1
      else data == r.value.0 + [COLON] + r.value.1
  {
    var endOfName := IndexOf(data, COLON, 0);
    if endOfName == -1 || |data| - (endOfName + 1) < 2 then None
    else
      var beginOfValue := if data[endOfName + 1] == SP then endOfName + 2 else endOfName + 1;
      var name := data[..endOfName];
      var value := data[beginOfValue..];
      if name == [] || value == [] then None
      else
        IndexOfFirst(data, COLON, 0);
        assert data == name + data[endOfName..beginOfValue] + value;
        Some((name, value))
  }

  /** "Name: value" reads back as its name and value. */
  lemma ParseHeaderLineInverse(name: Bytes, value: Bytes)
    requires name != [] && value != [] && COLON !in name
    ensures ParseHeaderLine(name + [COLON, SP] + value) == Some((name, value))
  {
    var data := name + [COLON, SP] + value;
    assert data == [] + name + ([COLON, SP] + value);
    FindsByte(data, COLON, [], name, [COLON, SP] + value, 0, |name|);
    assert data[|name| + 2..] == value;
  }

  /** Without the space the value must still be at least two bytes long. */
  lemma ParseHeaderLineWithoutSpace(name: Bytes, value: Bytes)
    requires name != [] && COLON !in name && (|value| < 2 || value[0] != SP)
    ensures ParseHeaderLine(name + [COLON] + value) == if |value| < 2 then None else Some((name, value))
  {
    var data := name + [COLON] + value;
    assert data == [] + name + ([COLON] + value);
    FindsByte(data, COLON, [], name, [COLON] + value, 0, |name|);
    assert data[|name| + 1..] == value;
  }

  /** `parseVersion`: exact, case-sensitive. */
  function ParseVersion(version: Bytes): HttpVersion
  {
    if version == Latin1("1.1") then Http1_1
    else if version == Latin1("1.0") then Http1_0
    else HttpUnknown
  }

  /** The version number each known version is written with. */
  function VersionNumber(v: HttpVersion): Bytes
  {
    match v
    case HttpUnknown => []
    case Http1_0 => Latin1("1.0")
    case Http1_1 => Latin1("1.1")
  }

  /** `parseVersion` recognises exactly the two version numbers. */
  lemma ParseVersionExact(version: Bytes, v: HttpVersion)
    requires v != HttpUnknown
    ensures ParseVersion(version) == v <==> version == VersionNumber(v)
  {
    assert Latin1("1.1") != Latin1("1.0") by { assert Latin1("1.1")[2] != Latin1("1.0")[2]; }
  }

  /** `parseVerb`: exact, case-sensitive. */
  function ParseVerb(verb: Bytes): HttpVerb
  {
    if verb == Latin1("GET") then GET
    else if verb == Latin1("POST") then POST
    else if verb == Latin1("HEAD") then HEAD
    else if verb == Latin1("PUT") then PUT
    else if verb == Latin1("DELETE") then DELETE
    else InvalidVerb
  }

  /** The method token of each verb. */
  function VerbName(v: HttpVerb): Bytes
  {
    match v
    case InvalidVerb => []
    case GET => Latin1("GET")
    case POST => Latin1("POST")
    case HEAD => Latin1("HEAD")
    case PUT => Latin1("PUT")
    case DELETE => Latin1("DELETE")
  }

  /** `parseVerb` recognises exactly the five method tokens. */
  lemma ParseVerbExact(verb: Bytes, v: HttpVerb)
    requires v != InvalidVerb
    ensures ParseVerb(verb) == v <==> verb == VerbName(v)
  {
    assert Latin1("GET") != Latin1("PUT") by { assert Latin1("GET")[0] != Latin1("PUT")[0]; }
    assert Latin1("POST") != Latin1("HEAD") by { assert Latin1("POST")[0] != Latin1("HEAD")[0]; }
  }

  /** `parseFirstLineFull`: the request line with a known verb and version. */
  function ParseFirstLineFull(line: Bytes): (r: Option<(HttpVerb, Bytes, HttpVersion)>)
    ensures r.Some? <==>
      ParseFirstLine(line).Some?
      && ParseVerb(ParseFirstLine(line).value.verb) != InvalidVerb
      && ParseVersion(ParseFirstLine(line).value.version) != HttpUnknown
    ensures r.Some? ==> r.value.1 == ParseFirstLine(line).value.path
  {
    match ParseFirstLine(line)
    case None => None
    case Some(l) =>
      var verb := ParseVerb(l.verb);
      var version := ParseVersion(l.version);
      if verb == InvalidVerb || version == HttpUnknown then None
      else Some((verb, l.path, version))
  }

  /** The text `qstricmp` sees: up to the first '\0'. */
  function CString(data: Bytes): (r: Bytes)
    ensures 0 !in r && StartsWith(data, r)
  {
    var end := IndexOf(data, 0, 0);
    IndexOfFirst(data, 0, 0);
    if end == -1 then data else data[..end]
  }

  predicate EqualsIgnoringCase(a: Bytes, b: Bytes)
  {
    ToLower(a) == ToLower(b)
  }

  /**
   * `decideTransferMode`: "close" streams, "keep-alive" streams chunked, and
   * otherwise HTTP/1.0 streams and every other version streams chunked.
   */
  function DecideTransferMode(version: HttpVersion, connection: Bytes): (r: TransferMode)
    ensures EqualsIgnoringCase(CString(connection), Latin1("close")) ==> r == Streaming
    ensures EqualsIgnoringCase(CString(connection), Latin1("keep-alive")) ==> r == ChunkedStreaming
    ensures !EqualsIgnoringCase(CString(connection), Latin1("close"))
         && !EqualsIgnoringCase(CString(connection), Latin1("keep-alive"))
         ==> (r == Streaming <==> version == Http1_0)
  {
    var c := CString(connection);
    if EqualsIgnoringCase(c, Latin1("close")) then Streaming
    else if EqualsIgnoringCase(c, Latin1("keep-alive")) then ChunkedStreaming
    else if version == Http1_0 then Streaming
    else ChunkedStreaming
  }

  /** `parseRangeHeaderValue`: "bytes=<begin>-<end>" with 0 <= begin < end. */
  function ParseRange(value: Bytes): (r: Option<(int, int)>)
    ensures r.Some? ==> 0 <= r.value.0 < r.value.1 <= MaxInt64
    ensures r.Some? ==> StartsWith(value, Latin1("bytes="))
  {
    if !StartsWith(value, Latin1("bytes=")) then None
    else
      var endOfBegin := IndexOf(value, DASH, 6);
      if endOfBegin == -1 || endOfBegin - 6 < 1 || |value| - (endOfBegin + 1) < 1 then None
      else
        var b := ParseInt(value[6..endOfBegin]);
        var e := ParseInt(value[endOfBegin + 1..]);
        ParseIntBounds(value[endOfBegin + 1..]);
        if b.Some? && e.Some? && b.value >= 0 && e.value >= 0 && b.value < e.value
        then Some((b.value, e.value)) else None
  }

  /** The text a client sends for a range ("bytes=<begin>-<end>"). */
  function RangeText(b: nat, e: nat): Bytes
  {
    Latin1("bytes=") + Decimal(b) + [DASH] + Decimal(e)
  }

  lemma RangeTextParts(b: nat, e: nat)
    ensures var v := RangeText(b, e); var k := 6 + |Decimal(b)|;
      StartsWith(v, Latin1("bytes=")) && IndexOf(v, DASH, 6) == k
      && v[6..k] == Decimal(b) && v[k + 1..] == Decimal(e)
  {
    var v := RangeText(b, e);
    var db := Decimal(b);
    var k := 6 + |db|;
    assert v[..6] == Latin1("bytes=");
    forall j | 6 <= j < k ensures v[j] != DASH {
      assert v[j] == db[j - 6];
      assert IsDigit(db[j - 6]);
    }
    assert v[k] == DASH;
    IndexOfIs(v, DASH, 6, k);
    assert v[6..k] == db;
    assert v[k + 1..] == Decimal(e);
  }

  /** Every valid closed range written in decimal is read back. */
  lemma ParseRangeInverse(b: nat, e: nat)
    requires b < e <= MaxInt64
    ensures ParseRange(RangeText(b, e)) == Some((b, e))
  {
    RangeTextParts(b, e);
    DecimalRoundTrip(b);
    DecimalRoundTrip(e);
  }

  /** Whether `correctHeaderKeyCase` upper-cases position `i`. */
  predicate StartsWord(key: Bytes, i: int)
    requires 0 <= i < |key|
  {
    i == 0 || key[i - 1] == DASH
  }

  /** What `correctHeaderKeyCase` computes: each word's first letter upper-cased. */
  function KeyCase(key: Bytes): (r: Bytes)
    ensures |r| == |key|
  {
    seq(|key|, i requires 0 <= i < |key| => if IsLower(key[i]) && StartsWord(key, i) then ToUpperByte(key[i]) else key[i])
  }

  /** `correctHeaderKeyCase`, which rewrites the key byte by byte. */
  method CorrectHeaderKeyCase(key: Bytes) returns (r: Bytes)
    ensures r == KeyCase(key)
  {
    r := key;
    var i := 0;
    while i < |r|
      invariant 0 <= i <= |r| == |key|
      invariant forall j :: 0 <= j < i ==> r[j] == KeyCase(key)[j]
      invariant forall j :: i <= j < |r| ==> r[j] == key[j]
    {
      if IsLower(r[i]) && (i == 0 || r[i - 1] == DASH) {
        r := r[i := ToUpperByte(r[i])];
      }
      i := i + 1;
    }
  }

  /** Correcting the case twice changes nothing more, and only letters change. */
  lemma KeyCaseIdempotent(key: Bytes)
    ensures KeyCase(KeyCase(key)) == KeyCase(key)
    ensures forall i :: 0 <= i < |key| ==> KeyCase(key)[i] == key[i] || (IsLower(key[i]) && KeyCase(key)[i] == key[i] - 32)
  {
    var k := KeyCase(key);
    forall i | 0 <= i < |key| ensures KeyCase(k)[i] == k[i] {
      if i > 0 {
        assert k[i - 1] == DASH <==> key[i - 1] == DASH;
      }
    }
  }

  /** The cookie `parseCookies` stores: a session cookie with only a name and value. */
  function RequestCookie(name: Bytes, value: Bytes): Cookie
  {
    Cookie(name, value, [], [], None, false, false)
  }

  /** A cookie value read from the header, and where reading goes on (-1: malformed). */
  datatype ValueRead = ValueRead(value: Bytes, next: int)

  /** `readUnquotedCookieValue`: up to the next ';' or the end; the offset after the ';'. */
  function UnquotedValue(data: Bytes, offset: nat): (r: ValueRead)
    requires offset <= |data|
    ensures r.next > offset
  {
    var semi := IndexOf(data, SEMICOLON, offset);
    var end := if semi == -1 then |data| else semi;
    ValueRead(PercentDecode(data[offset..end]), end + 1)
  }

  /**
   * `readQuotedCookieValue`, with `offset` at the opening quote: the closing
   * quote must end the data or be followed by ';'.
   */
  function QuotedValue(data: Bytes, offset: nat): (r: ValueRead)
    requires offset < |data|
    ensures r.next == -1 || r.next > offset
  {
    var end := IndexOf(data, QUOTE, offset + 1);
    if end == -1 || (end + 1 < |data| && data[end + 1] != SEMICOLON) then ValueRead([], -1)
    else ValueRead(PercentDecode(data[offset + 1..end]), end + 2)
  }

  /** One cookie read from the header, and where reading goes on (-1: malformed). */
  datatype CookieRead = CookieRead(name: Bytes, value: Bytes, next: int)

  /** `parseSingleCookie`. */
  function SingleCookie(data: Bytes, offset: nat): (r: CookieRead)
    requires offset <= |data|
    ensures r.next == -1 || r.next > offset
  {
    var equalSign := IndexOf(data, EQUALS, offset);
    if equalSign < 1 then CookieRead([], [], -1)
    else
      var name := Trimmed(data[offset..equalSign]);
      if SEMICOLON in name then CookieRead(name, [], -1)
      else
        var v := if At(data, equalSign + 1) == QUOTE then QuotedValue(data, equalSign + 1)
                 else UnquotedValue(data, equalSign + 1);
        CookieRead(name, v.value, v.next)
  }

  /** Whether the whole header was well-formed, and the cookie map after it. */
  datatype CookieParse = CookieParse(ok: bool, cookies: Cookies)

  /**
   * What the loop of `parseCookies` does from `offset` on: cookies are stored
   * until a cookie without a name, a malformed cookie or the end of the data.
   */
  function CookiesFrom(data: Bytes, offset: nat, target: Cookies): (r: CookieParse)
    requires offset <= |data|
    decreases |data| - offset
  {
    var c := SingleCookie(data, offset);
    if c.name == [] || c.next == -1 then CookieParse(c.next != -1, target)
    else
      var t := Put(target, c.name, RequestCookie(c.name, c.value));
      if c.next >= |data| then CookieParse(true, t) else CookiesFrom(data, c.next, t)
  }

  /** `parseCookies`. */
  method ParseCookies(data: Bytes, target: Cookies) returns (ok: bool, result: Cookies)
    ensures CookieParse(ok, result) == CookiesFrom(data, 0, target)
  {
    var offset := 0;
    result := target;
    while true
      invariant offset <= |data|
      invariant CookiesFrom(data, offset, result) == CookiesFrom(data, 0, target)
      decreases |data| - offset
    {
      var c := SingleCookie(data, offset);
      if c.name == [] || c.next == -1 {
        ok := c.next != -1;
        return;
      }
      result := Put(result, c.name, RequestCookie(c.name, c.value));
      if c.next >= |data| {
        ok := true;
        return;
      }
      offset := c.next;
    }
  }

  /** A cookie name the parser reads back: non-empty, already trimmed, no ';' or '='. */
  predicate PlainCookieName(name: Bytes)
  {
    name != [] && IsTrimmed(name) && SEMICOLON !in name && EQUALS !in name
  }

  datatype CookiePair = CookiePair(name: Bytes, value: Bytes)

  predicate AllPlain(pairs: seq<CookiePair>)
  {
    pairs == [] || (PlainCookieName(pairs[0].name) && AllPlain(pairs[1..]))
  }

  /** "name=value" pairs joined by ';', each value percent-encoded. */
  function CookieHeader(pairs: seq<CookiePair>): Bytes
  {
    if pairs == [] then []
    else
      pairs[0].name + [EQUALS] + PercentEncode(pairs[0].value)
      + (if |pairs| == 1 then [] else [SEMICOLON] + CookieHeader(pairs[1..]))
  }

  /** The cookie map after storing the pairs in order. */
  function StoreAll(target: Cookies, pairs: seq<CookiePair>): Cookies
    decreases pairs
  {
    if pairs == [] then target
    else StoreAll(Put(target, pairs[0].name, RequestCookie(pairs[0].name, pairs[0].value)), pairs[1..])
  }

  lemma NoSeparatorsInEncoding(v: Bytes)
    ensures SEMICOLON !in PercentEncode(v) && QUOTE !in PercentEncode(v)
  {
    PercentEncodeAlphabet(v);
  }

  /**
   * How a plain pair "name=enc" lies in `data` from `at`: the '=' at `eq` and
   * the ';' at `end` (none when `last`) are the first ones, and no quote opens
   * the value.
   */
  predicate PairLaidOut(data: Bytes, at: nat, eq: nat, end: nat, name: Bytes, enc: Bytes, last: bool)
  {
    eq == at + |name| && end == eq + 1 + |enc| && end <= |data| && (last <==> end == |data|)
    && IndexOf(data, EQUALS, at) == eq && data[at..eq] == name
    && At(data, eq + 1) != QUOTE
    && IndexOf(data, SEMICOLON, eq + 1) == (if last then -1 else end)
    && data[eq + 1..end] == enc
  }

  lemma PairLayout(data: Bytes, pre: Bytes, name: Bytes, enc: Bytes, tail: Bytes,
                   at: nat, eq: nat, end: nat, last: bool)
    requires EQUALS !in name && data == pre + name + [EQUALS] + enc + tail
    requires SEMICOLON !in enc && QUOTE !in enc && (tail == [] || tail[0] == SEMICOLON)
    requires at == |pre| && eq == at + |name| && end == eq + 1 + |enc| && (last <==> tail == [])
    ensures PairLaidOut(data, at, eq, end, name, enc, last)
  {
    assert data == pre + name + ([EQUALS] + enc + tail);
    FindsByte(data, EQUALS, pre, name, [EQUALS] + enc + tail, at, eq);
    FindsByte(data, SEMICOLON, pre + name + [EQUALS], enc, tail, eq + 1, end);
    if enc != [] {
      assert At(data, eq + 1) == enc[0] && enc[0] in enc;
    } else if tail != [] {
      assert At(data, eq + 1) == tail[0];
    }
  }

  lemma UnquotedValueIs(data: Bytes, offset: nat, end: nat, enc: Bytes, next: int)
    requires offset <= end <= |data| && data[offset..end] == enc && next == end + 1
    requires IndexOf(data, SEMICOLON, offset) == (if end == |data| then -1 else end)
    ensures UnquotedValue(data, offset) == ValueRead(PercentDecode(enc), next)
  {
  }

  lemma TrimmedNameIs(data: Bytes, offset: nat, end: nat, name: Bytes)
    requires offset <= end <= |data| && data[offset..end] == name && IsTrimmed(name)
    ensures Trimmed(data[offset..end]) == name
  {
    TrimmedUnchanged(name);
  }

  /**
   * `parseSingleCookie` on a laid-out plain pair whose value decodes to
   * `value` reads the pair and goes on at `next`, just past its ';'.
   */
  lemma PairCookie(data: Bytes, at: nat, eq: nat, end: nat, name: Bytes, enc: Bytes, last: bool,
                   value: Bytes, next: int)
    requires PairLaidOut(data, at, eq, end, name, enc, last) && PlainCookieName(name)
    requires PercentDecode(enc) == value && next == end + 1
    ensures SingleCookie(data, at) == CookieRead(name, value, next)
  {
    TrimmedNameIs(data, at, eq, name);
    UnquotedValueIs(data, eq + 1, end, enc, next);
    UnquotedCookie(data, at, eq, name);
  }

  /** How `parseSingleCookie` goes on once the '=' and the name are known and no quote follows. */
  lemma UnquotedCookie(data: Bytes, offset: nat, eq: nat, name: Bytes)
    requires offset < eq < |data| && IndexOf(data, EQUALS, offset) == eq
    requires Trimmed(data[offset..eq]) == name && SEMICOLON !in name && At(data, eq + 1) != QUOTE
    ensures SingleCookie(data, offset)
      == CookieRead(name, UnquotedValue(data, eq + 1).value, UnquotedValue(data, eq + 1).next)
  {
  }

  /** One step of the loop: a named, well-formed cookie is stored and reading goes on. */
  lemma CookiesFromStep(data: Bytes, offset: nat, target: Cookies, name: Bytes, value: Bytes, next: int)
    requires offset <= |data| && SingleCookie(data, offset) == CookieRead(name, value, next)
    requires name != [] && next != -1
    ensures next >= |data| ==>
      CookiesFrom(data, offset, target) == CookieParse(true, Put(target, name, RequestCookie(name, value)))
    ensures offset < next < |data| ==>
      CookiesFrom(data, offset, target) == CookiesFrom(data, next, Put(target, name, RequestCookie(name, value)))
  {
  }

  /** The first pair of a header, and what follows it. */
  function HeaderTail(pairs: seq<CookiePair>): Bytes
    requires pairs != []
  {
    if |pairs| == 1 then [] else [SEMICOLON] + CookieHeader(pairs[1..])
  }

  lemma CookieHeaderFirst(pairs: seq<CookiePair>)
    requires pairs != []
    ensures CookieHeader(pairs) == pairs[0].name + [EQUALS] + PercentEncode(pairs[0].value) + HeaderTail(pairs)
  {
  }

  lemma Regroup(pre: Bytes, name: Bytes, enc: Bytes, tail: Bytes)
    ensures pre + (name + [EQUALS] + enc + tail) == pre + name + [EQUALS] + enc + tail
  {
  }

  lemma RegroupNext(front: Bytes, rest: Bytes)
    ensures front + ([SEMICOLON] + rest) == front + [SEMICOLON] + rest
  {
  }

  /** The text before the second pair: `pre`, the first pair and its ';'. */
  function NextPrefix(pre: Bytes, p: CookiePair): Bytes
  {
    pre + p.name + [EQUALS] + PercentEncode(p.value) + [SEMICOLON]
  }

  /** `parseSingleCookie` reads the first pair of a header after `pre`. */
  lemma FirstPair(pre: Bytes, pairs: seq<CookiePair>)
    requires pairs != [] && PlainCookieName(pairs[0].name)
    ensures SingleCookie(pre + CookieHeader(pairs), |pre|)
      == CookieRead(pairs[0].name, pairs[0].value, |NextPrefix(pre, pairs[0])|)
  {
    assert pre + CookieHeader(pairs) == pre + pairs[0].name + [EQUALS] + PercentEncode(pairs[0].value) + HeaderTail(pairs) by {
      CookieHeaderFirst(pairs);
      Regroup(pre, pairs[0].name, PercentEncode(pairs[0].value), HeaderTail(pairs));
    }
    NoSeparatorsInEncoding(pairs[0].value);
    PercentRoundTrip(pairs[0].value);
    PairLayout(pre + CookieHeader(pairs), pre, pairs[0].name, PercentEncode(pairs[0].value), HeaderTail(pairs),
               |pre|, |pre| + |pairs[0].name|, |NextPrefix(pre, pairs[0])| - 1, |pairs| == 1);
    PairCookie(pre + CookieHeader(pairs), |pre|, |pre| + |pairs[0].name|, |NextPrefix(pre, pairs[0])| - 1,
               pairs[0].name, PercentEncode(pairs[0].value), |pairs| == 1, pairs[0].value, |NextPrefix(pre, pairs[0])|);
  }

  /** Where the header goes on after its first pair. */
  lemma RestOfHeader(pre: Bytes, pairs: seq<CookiePair>)
    requires pairs != [] && pairs[0].name != []
    ensures |pairs| == 1 ==> |NextPrefix(pre, pairs[0])| > |pre + CookieHeader(pairs)|
    ensures |pairs| > 1 ==> pre + CookieHeader(pairs) == NextPrefix(pre, pairs[0]) + CookieHeader(pairs[1..])
    ensures |pairs| > 1 ==> |NextPrefix(pre, pairs[0])| < |pre + CookieHeader(pairs)|
  {
    var p := pairs[0];
    CookieHeaderFirst(pairs);
    Regroup(pre, p.name, PercentEncode(p.value), HeaderTail(pairs));
    if |pairs| > 1 {
      RegroupNext(pre + p.name + [EQUALS] + PercentEncode(p.value), CookieHeader(pairs[1..]));
      CookieHeaderFirst(pairs[1..]);
    }
  }

  lemma {:induction false} CookieHeaderFrom(pre: Bytes, pairs: seq<CookiePair>, target: Cookies)
    requires pairs != [] && AllPlain(pairs)
    ensures CookiesFrom(pre + CookieHeader(pairs), |pre|, target) == CookieParse(true, StoreAll(target, pairs))
    decreases |pairs|
  {
    var p := pairs[0];
    var pre' := NextPrefix(pre, p);
    FirstPair(pre, pairs);
    RestOfHeader(pre, pairs);
    CookiesFromStep(pre + CookieHeader(pairs), |pre|, target, p.name, p.value, |pre'|);
    var t := Put(target, p.name, RequestCookie(p.name, p.value));
    assert StoreAll(target, pairs) == StoreAll(t, pairs[1..]);
    if |pairs| > 1 {
      CookieHeaderFrom(pre', pairs[1..], t);
    }
  }

  /**
   * Round trip: a header of plain names and percent-encoded values parses
   * successfully and stores every pair in order, a later name overwriting an
   * earlier one.
   */
  lemma CookieHeaderRoundTrip(pairs: seq<CookiePair>, target: Cookies)
    requires pairs != [] && AllPlain(pairs)
    ensures CookiesFrom(CookieHeader(pairs), 0, target) == CookieParse(true, StoreAll(target, pairs))
  {
    CookieHeaderFrom([], pairs, target);
    assert [] + CookieHeader(pairs) == CookieHeader(pairs);
  }

  /** A header without any '=' is refused and stores nothing. */
  lemma CookiesWithoutEquals(data: Bytes, target: Cookies)
    requires EQUALS !in data
    ensures CookiesFrom(data, 0, target) == CookieParse(false, target)
  {
  }

  /** Where the closing quote of `name="value...` is searched for. */
  lemma FindsClosingQuote(name: Bytes, value: Bytes, after: Bytes)
    requires PlainCookieName(name) && QUOTE !in value
    requires after == [] || after[0] == QUOTE
    ensures var d := name + [EQUALS, QUOTE] + value + after; var q := |name| + 1;
      IndexOf(d, EQUALS, 0) == |name| && d[..|name|] == name && At(d, q) == QUOTE
      && d[q + 1..q + 1 + |value|] == value
      && IndexOf(d, QUOTE, q + 1) == if after == [] then -1 else q + 1 + |value|
  {
    var d := name + [EQUALS, QUOTE] + value + after;
    assert d == [] + name + ([EQUALS, QUOTE] + value + after);
    FindsByte(d, EQUALS, [], name, [EQUALS, QUOTE] + value + after, 0, |name|);
    FindsByte(d, QUOTE, name + [EQUALS, QUOTE], value, after, |name| + 2, |name| + 2 + |value|);
  }

  /** The value read at the opening quote of `name="value...`. */
  lemma QuotedRead(name: Bytes, value: Bytes, after: Bytes)
    requires PlainCookieName(name) && QUOTE !in value
    requires after == [] || after[0] == QUOTE
    ensures var d := name + [EQUALS, QUOTE] + value + after;
      SingleCookie(d, 0) == CookieRead(name, QuotedValue(d, |name| + 1).value, QuotedValue(d, |name| + 1).next)
    ensures var d := name + [EQUALS, QUOTE] + value + after; var close := |name| + 2 + |value|;
      QuotedValue(d, |name| + 1) ==
        if after == [] || (|after| > 1 && after[1] != SEMICOLON) then ValueRead([], -1)
        else ValueRead(PercentDecode(value), close + 2)
  {
    FindsClosingQuote(name, value, after);
    TrimmedUnchanged(name);
  }

  /** A quoted value may hold ';' and is stored without its quotes. */
  lemma QuotedCookie(name: Bytes, value: Bytes, target: Cookies)
    requires PlainCookieName(name) && QUOTE !in value
    ensures CookiesFrom(name + [EQUALS, QUOTE] + value + [QUOTE], 0, target)
         == CookieParse(true, Put(target, name, RequestCookie(name, PercentDecode(value))))
  {
    QuotedRead(name, value, [QUOTE]);
    CookiesFromStep(name + [EQUALS, QUOTE] + value + [QUOTE], 0, target, name, PercentDecode(value), |name| + |value| + 4);
  }

  /** Text right after the closing quote other than ';' makes the header malformed. */
  lemma TextAfterQuote(name: Bytes, value: Bytes, rest: Bytes, target: Cookies)
    requires PlainCookieName(name) && QUOTE !in value && rest != [] && rest[0] != SEMICOLON
    ensures !CookiesFrom(name + [EQUALS, QUOTE] + value + [QUOTE] + rest, 0, target).ok
  {
    assert name + [EQUALS, QUOTE] + value + [QUOTE] + rest == name + [EQUALS, QUOTE] + value + ([QUOTE] + rest);
    QuotedRead(name, value, [QUOTE] + rest);

  }

  /** A quote that is never closed makes the header malformed. */
  lemma UnclosedQuote(name: Bytes, value: Bytes, target: Cookies)
    requires PlainCookieName(name) && QUOTE !in value
    ensures !CookiesFrom(name + [EQUALS, QUOTE] + value, 0, target).ok
  {
    assert name + [EQUALS, QUOTE] + value == name + [EQUALS, QUOTE] + value + [];
    QuotedRead(name, value, []);
  }
}
