# NuriaProject network server, modelled in Dafny

This project models the core of the NuriaProject network library, a Qt-based
HTTP/1.x server that also speaks WebSocket and FastCGI. It has five parts:

- **The HTTP/1.x wire codec.** `HttpParser` reads request lines, header
  lines, `Range` values and `Cookie` headers. `HttpWriter` writes status
  lines, header blocks, `Set-Cookie` values, dates and the standard response
  headers. `HttpClient` reads and validates a request and accepts its body.
  It keeps a response header that can change until it is sent, and it is
  sent at most once.
- **WebSocket framing.** `WebSocketFrames` decodes and checks the frame
  header a client sends, masks payloads, and encodes the header the server
  sends. `WebSockets` reassembles fragmented messages, answers pings and
  closes the connection.
- **FastCGI.** `FastCgiRecords`, `FastCgiReader` and `FastCgiWriter` cover
  record headers, name-value pairs and the records the application sends.
  `FastCgiThreadObjects` dispatches records per connection and keeps the
  request table. `FastCgiTransports` turns a FastCGI request into an HTTP
  request. `FastCgiBackends` hands each new connection to the least-used
  thread.
- **Streaming readers.** `UrlEncoded` and `Multipart`/`MultipartReaders` read
  POST bodies as they arrive, and `PostBodyReaders` holds their default
  queries. `StreamingJson` cuts a JSON stream into values. `JsonRpc` checks
  JSON-RPC 2.0 requests and builds responses.
- **Routing and transports.** `HttpNodes` is the node tree: slots and
  children under unique names, plus the rewrite and RESTful subclasses.
  `RewriteRules` handles back-references and rule matching.
  `RestfulRoutes` and `PathPatterns` handle handler tables, path patterns
  and argument binding. `HttpRouting` routes a path through the tree, and
  `HttpServers` owns the root. `AbstractTransports` and `HttpTransports`
  keep timeouts and counters.

## Modelling choices

- Byte strings (`QByteArray`) are `seq<byte>`, and `QString` is `string`.
  `QMultiMap` headers are a key-sorted sequence in which the newest entry
  comes first among equal keys. `QMap` is a sequence with one entry per key.
  A `QIODevice` is the bytes waiting to be read plus the bytes written so far.
- Where the code updates an object in place, the model is a class with the
  same fields. This covers the WebSocket, the FastCGI thread object,
  transport and backend, both body readers, the JSON stream helper, the HTTP
  client, the nodes, the server and the transports. Each method states its
  new state against a function of its inputs and old state, and lemmas about
  those functions carry the promised properties.
- Signals become `events` fields, appended in order. Timers, sockets,
  threads, the regular expression engine, callbacks, `QVariant` conversion
  and the file system are parameters.
- Several readers keep an invariant called "consistent". For the multipart
  reader it means: `completed` is emitted exactly once, when and only when
  the state is final, with the right verdict; and every field except the
  current one is complete.
- Where the code and the intended behaviour differ, the model carries both.
  The as-written half comes with a lemma that shows the difference on a
  concrete input. The corrected half is the one the rest of the model uses,
  and its "## Model" row says so.
- `Route` takes a `fuel` bound on re-routing by rewrite nodes. The bound ends
  the recursion when rules rewrite a path back to itself.


### Functions stated through lemmas

These functions only compute, so they have no contract of their own. The
lemmas in the rows named after each one state their properties.

- `Numbers.ParseInt`: `Numbers.ParseIntBounds`, `Numbers.DecimalRoundTrip`.
- `HeaderMaps.Values`, `HeaderMaps.Value`: `HeaderMaps.InsertValues`,
  `HeaderMaps.InsertValue`, `HeaderMaps.RemoveValues`.
- `WebSocketFrames.ReadBaseFrame`: `WebSocketFrames.BaseFrameRoundTrip`,
  `WebSocketFrames.BaseFrameBytesRoundTrip`, `WebSocketFrames.ReadFrameData`.
- `Multipart.Steps`: `Multipart.StepsGoOn`, `Multipart.StepsArrive`,
  `Multipart.StepStops`, `Multipart.StepsConsistent`,
  `Multipart.StepsNeverCrash`.
- `Multipart.ReadChunks`: `Multipart.ReadChunksConsistent`,
  `Multipart.ReadChunksNeverCrash`, `Multipart.ReadChunksFinished`.
- `Multipart.Receive`: `Multipart.ReceiveConsistent`,
  `MultipartReaders.FailedIsComplete`.
- `MultipartReaders.ReceiveAll`: `MultipartReaders.FailedIsComplete`,
  `MultipartReaders.FailedStays`.
- `Multipart.StepsAsWritten`, `Multipart.ReadChunksAsWritten`,
  `Multipart.ReceiveAsWritten`, `Multipart.StepCrashes`: the as-written
  lemmas `Multipart.BadFirstLineSignalsTwice`,
  `Multipart.BufferlessFailureCrashesAsWritten`, `Multipart.EpilogueReopens`,
  `Multipart.SplitCrLfAsWritten`.
- `UrlEncoded.Step`: `UrlEncoded.StepProgress`, `UrlEncoded.StepExtends`,
  `UrlEncoded.StepSignalsOnce`, `UrlEncoded.KeyStep`, `UrlEncoded.ValueStep`,
  `UrlEncoded.ValueAtEnd`.
- `UrlEncoded.Settle`: `UrlEncoded.SettleOpen`, `UrlEncoded.SettleAppend`,
  `UrlEncoded.SettleSignalsOnce`, `UrlEncoded.SettleNeverFails`.
- `UrlEncoded.Receive`: `UrlEncoded.ReceiveSplit`,
  `UrlEncoded.ReceiveSignalsOnce`, `UrlEncoded.SinglePair`,
  `UrlEncoded.PrematureEndFails`.
- `StreamingJson.Run`: `StreamingJson.RunExtends`, `StreamingJson.RunAppend`,
  `StreamingJson.RunKeepsText`, `StreamingJson.RunKeepsDepth`,
  `StreamingJson.RunJoin`, `StreamingJson.RunAt`, `StreamingJson.RunQueue`.
- `JsonRpc.Serialize`: `JsonRpc.SerializeMembers`, `JsonRpc.SerializeRoundTrip`.
- `JsonRpc.ErrorToString`: `JsonRpc.ErrorMessages`.
- `FastCgiThreadObjects.Answer`: `FastCgiThreadObjects.AnswerGet`; the
  as-written `FastCgiThreadObjects.AnswerAsWritten`:
  `FastCgiThreadObjects.AnswerEchoesRequest`.
- `FastCgiWriter.Body`: `FastCgiWriter.ValueMapToBody`,
  `FastCgiWriter.BodyRoundTrip`, `FastCgiWriter.BodyReads`.
- `FastCgiWriter.EncodePair`: `FastCgiWriter.PairRoundTrip`.
- `RewriteRules.ParentPath`, `RewriteRules.ParentPathAsWritten`:
  `RewriteRules.SubpathOfChild`, `RewriteRules.RootParentAsWritten`,
  `RewriteRules.RootTargetIsRewrittenPath`.
- `RestfulRoutes.WalkAsWritten`: `RestfulRoutes.EmptyTableWalk`,
  `RestfulRoutes.WalkAsWrittenAgrees`.
- `RestfulRoutes.BindAsWritten`: `RestfulRoutes.ClientFirstAsWritten`,
  `RestfulRoutes.AsWrittenAgreesWhenClientLast`,
  `RestfulRoutes.AllClientsAsWritten`, `RestfulRoutes.NoNameLeft`.
- `HttpRouting.Invoke`: `HttpRouting.InvokeSound`,
  `HttpRouting.RefusedIsForbidden`.
- `HttpRouting.BaseInvoke`: `HttpRouting.BaseInvokeSound`,
  `HttpRouting.SlotTakesLastPart`, `HttpRouting.ChildTakesOver`.
## Model

| member | source | states |
|---|---|---|
| Numbers.Decimal | src/httpwriter.cpp:42 | `QByteArray::number`: never empty, and starts with '-' exactly for a negative value |
| Numbers.DecimalRoundTrip | src/httpparser.cpp:180-181 | reading back with `toLongLong` what `QByteArray::number` wrote gives the same 64-bit value |
| Numbers.ParseIntBounds | src/httpclient.cpp:119 | a value `toLongLong` accepts lies in the 64-bit range and its text held a digit |
| Percent.PercentRoundTrip | src/httpwriter.cpp:72 | `fromPercentEncoding` undoes `toPercentEncoding` for every byte string |
| Percent.PercentEncodeAlphabet | src/httpwriter.cpp:72 | a percent-encoded cookie value holds only unreserved bytes and '%' |
| Percent.PercentDecodePlain | src/httpurlencodedreader.cpp:173 | text without '%' decodes to itself |
| Percent.PercentDecode | src/httpurlencodedreader.cpp:173 | `fromPercentEncoding` never lengthens its input |
| Percent.PercentEncode | src/httpwriter.cpp:72 | `toPercentEncoding` never shortens its input |
| HeaderMaps.InsertSorted | src/nuria/httpclient.hpp:271 | `QMultiMap::insert` keeps the header multimap in key order |
| HeaderMaps.InsertValues | src/nuria/httpclient.hpp:271 | after `insert(k, v)`, `values(k)` is `v` followed by the old values; other keys keep theirs |
| HeaderMaps.InsertValue | src/nuria/httpclient.hpp:271 | after `insert(k, v)`, `value(k)` is `v`; `value` of any other key is unchanged |
| HeaderMaps.RemoveValues | src/nuria/httpclient.hpp:271 | `remove(k)` drops exactly the values of `k` |
| HeaderMaps.RemoveSorted | src/nuria/httpclient.hpp:271 | `remove` keeps the multimap in key order |
| HeaderMaps.Insert | src/nuria/httpclient.hpp:271 | `QMultiMap::insert` adds exactly one entry, the new key and value, and keeps every old one |
| HeaderMaps.Remove | src/nuria/httpclient.hpp:271 | `QMultiMap::remove(k)` keeps only old entries, none of them under `k` |
| ByteMaps.GetPut | src/private/fastcgireader.cpp:85 | after `QMap::insert(k, v)` the key maps to `v` and every other key is unchanged |
| ByteMaps.PutSorted | src/private/fastcgireader.cpp:85 | inserting keeps one entry per key in ascending key order |
| ByteMaps.Get | src/private/fastcgireader.cpp:85 | `QMap::value(k)` is absent exactly when no entry has the key, and otherwise a value stored under it |
| ByteMaps.Put | src/private/fastcgireader.cpp:85 | `QMap::insert(k, v)` adds no entry other than the new pair |
| Devices.Device.Read | src/httpclient.cpp:186 | `QIODevice::read(n)` removes and returns the first min(n, available) bytes of the input and writes nothing |
| Devices.Device.ReadLine | src/httpclient.cpp:186 | `readLine(maxlen)` removes and returns the input through the first '\n', at most `maxlen - 1` bytes |
| Devices.LineTaken | src/httpclient.cpp:186 | the length `readLine` takes is below `maxlen`, within the input, and non-zero when a '\n' is present |
| Devices.Device.Write | src/httpwriter.cpp:28-53 | `write` appends the bytes to the output and leaves the input alone |
| HttpTypes.NewSlotInfo | src/httpnode.cpp:28-34 | a `SlotInfo` built from a callback is valid exactly when the callback is |
| HttpTypes.HeaderName | src/httpclient.cpp:1061-1094 | `httpHeaderName` gives a non-empty wire name for every header |
| HttpTypes.StatusCodeName | src/httpclient.cpp:1010-1059 | `httpStatusCodeName` is non-empty exactly for the codes of its table |
| HttpTypes.ReasonPhrase | src/httpclient.cpp:1010-1059 | the reason phrase of the status code table is non-empty exactly for the codes the table holds |
| HttpParser.RemoveTrailingNewline | src/httpparser.cpp:27-37 | succeeds exactly when the data ends in '\n'; then the data is the result followed by the "\r\n" or "\n" that was chopped; otherwise the data is unchanged |
| HttpParser.RemoveTrailingNewlineInverse | src/httpparser.cpp:27-37 | chopping undoes appending "\r\n", and undoes appending "\n" to a line not ending in '\r' |
| HttpParser.ParseFirstLine | src/httpparser.cpp:39-73 | a line it accepts has a non-empty verb and path without spaces and a non-empty version, and is exactly "verb path HTTP/version" |
| HttpParser.ParseFirstLineInverse | src/httpparser.cpp:39-73 | every well-formed request line is read back exactly (the partner of `ParseFirstLine`) |
| HttpParser.ParseHeaderLine | src/httpparser.cpp:75-99 | an accepted line is a non-empty name without ':', the colon, an optional skipped space and a non-empty value, and nothing else |
| HttpParser.ParseHeaderLineInverse | src/httpparser.cpp:75-99 | "Name: value" reads back as its name and value |
| HttpParser.ParseHeaderLineWithoutSpace | src/httpparser.cpp:75-99 | without the space after the colon the line is refused when fewer than two bytes follow the colon and read back otherwise |
| HttpParser.ParseVersionExact | src/httpparser.cpp:101-112 | `parseVersion` yields a version exactly for its own number "1.0" or "1.1" |
| HttpParser.ParseVerbExact | src/httpparser.cpp:114-136 | `parseVerb` yields a verb exactly for its own case-sensitive token |
| HttpParser.ParseFirstLineFull | src/httpparser.cpp:263-287 | succeeds exactly when `parseFirstLine` does and both verb and version are known; the path is the one `parseFirstLine` read |
| HttpParser.DecideTransferMode | src/httpparser.cpp:138-152 | case-insensitive "close" streams, "keep-alive" streams chunked, and otherwise the mode is plain streaming exactly for HTTP/1.0 |
| HttpParser.ParseRange | src/httpparser.cpp:154-185 | an accepted value starts with "bytes=" and gives 0 <= begin < end within 64 bits |
| HttpParser.ParseRangeInverse | src/httpparser.cpp:154-185 | every valid closed range "bytes=b-e" written in decimal is read back |
| HttpParser.CorrectHeaderKeyCase | src/httpparser.cpp:187-196 | the byte-by-byte loop computes `KeyCase` (the first letter of each '-'-separated word upper-cased) |
| HttpParser.KeyCaseIdempotent | src/httpparser.cpp:187-196 | correcting twice changes nothing more, and every byte is unchanged or a lower-case letter made upper-case |
| HttpParser.ParseCookies | src/httpparser.cpp:249-261 | the loop over `parseSingleCookie` returns the verdict and cookie map of `CookiesFrom` on the whole header |
| HttpParser.CookieHeaderRoundTrip | src/httpparser.cpp:198-261 | a header of plain names and percent-encoded values parses successfully and stores every pair in order, a later name overwriting an earlier one |
| HttpParser.CookiesWithoutEquals | src/httpparser.cpp:222-247 | a header without '=' is refused and stores nothing |
| HttpParser.QuotedCookie | src/httpparser.cpp:209-220 | a quoted value may hold ';' and is stored percent-decoded without its quotes |
| HttpParser.TextAfterQuote | src/httpparser.cpp:209-220 | text after the closing quote other than ';' makes the header malformed |
| HttpParser.UnclosedQuote | src/httpparser.cpp:209-220 | a quote that is never closed makes the header malformed |
| HttpWriter.VersionString | src/httpwriter.cpp:28-36 | empty exactly for an unknown version; otherwise "HTTP/" and a number that `parseVersion` reads back as the same version |
| HttpWriter.Reason | src/httpwriter.cpp:38-53 | the caller's message when given, else the standard phrase; empty only when there is neither |
| HttpWriter.ResponseLineRead | src/httpwriter.cpp:38-53 | a client reading the `writeResponseLine` output finds the version before the first space, the decimal code before the second, and the reason phrase before the final "\r\n" |
| HttpWriter.WriteHttpHeaders | src/httpwriter.cpp:114-127 | the loop writes "key: value\r\n" for every entry in map order and nothing else (`HeadersText`) |
| HttpWriter.HeadersTextAppend | src/httpwriter.cpp:114-127 | the block of two runs of entries is the two blocks one after the other |
| HttpWriter.HeaderLineRead | src/httpwriter.cpp:114-127 | every written header line is read back by `removeTrailingNewline` and `parseHeaderLine` as its key and value |
| HttpWriter.Seconds | src/httpwriter.cpp:88-89 | `qint64` division by 1000 truncates toward zero, for negative milliseconds too |
| HttpWriter.MaxAge | src/httpwriter.cpp:88-97 | the Max-Age is 0 exactly when the cookie has expired by the current second, and otherwise the seconds left, never negative |
| HttpWriter.SetCookieValueParts | src/httpwriter.cpp:68-112 | `writeSetCookieValue` starts with the name and '=', then a value that percent-decodes to the cookie's value, then the attributes |
| HttpWriter.SetCookieRoundTrip | src/httpwriter.cpp:68-112 | a cookie without attributes, returned by the client in a `Cookie` header, is read back by `parseCookies` under its name with its value |
| HttpWriter.WriteSetCookies | src/httpwriter.cpp:55-66 | one "Set-Cookie: " line per cookie, in map order, and nothing else |
| HttpWriter.SetCookieLineRead | src/httpwriter.cpp:55-66 | every `Set-Cookie` line reads back through `parseHeaderLine` as that header with the cookie's value |
| HttpWriter.HttpDateIsImfFixdate | src/httpwriter.cpp:129-147 | the date is an IMF-fixdate (section 7.1.1.1 of RFC 7231) for every valid date; models the intended behaviour (see Findings) |
| HttpWriter.MayIsMisspelled | src/httpwriter.cpp:129-147 | as written, a date in May is not an IMF-fixdate ("Mai") |
| HttpWriter.DayIsNotPadded | src/httpwriter.cpp:129-147 | as written, a day before the tenth is not an IMF-fixdate (one digit) |
| HttpWriter.RangeHeaderRead | src/httpwriter.cpp:149-162 | a client splitting `buildRangeHeader`'s "bytes b-e/t" at '-' and '/' reads begin, end and the total back, and '*' for an unknown total |
| HttpWriter.AddComplianceHeaders | src/httpwriter.cpp:164-178 | an HTTP/1.1 response without `Date` gets exactly one `Date` value (the corrected date) and nothing else changes; any other response is untouched; key order is kept; models the intended behaviour (see Findings) |
| HttpWriter.InsertIfAbsent | src/httpwriter.cpp:180-204 | a value is added only when the key has none; other keys are unchanged |
| HttpWriter.ApplyRangeHeaders | src/httpwriter.cpp:180-204 | with a range, `Content-Range` and `Content-Length` of end - begin; without one, `Content-Length` of a known total; each only when absent; other keys unchanged |
| HttpWriter.WithChunked | src/httpwriter.cpp:206-225 | the new `Transfer-Encoding` value extends the old one and mentions "chunked", and is the old one when that already does |
| HttpWriter.AddTransferEncodingHeader | src/httpwriter.cpp:206-225 | only chunked mode changes the headers: a newest `Transfer-Encoding` value mentioning "chunked"; other keys unchanged |
| HttpWriter.AddConnectionHeader | src/httpwriter.cpp:227-244 | a new newest `Connection` value, "keep-alive" exactly when the mode is keep-alive and the request count is below the maximum or the maximum is -1, else "close"; other keys unchanged |
| WebSocketFrames.AreHttpRequirementsFulfilled | src/private/websocketreader.cpp:22-25 | holds exactly for HTTP/1.1 and GET |
| WebSocketFrames.IsWebSocketRequest | src/private/websocketreader.cpp:27-50 | an accepted request has `Sec-WebSocket-Version: 13`, a non-empty `Sec-WebSocket-Key`, and `Upgrade` and `Connection` headers |
| WebSocketFrames.SizeOfFrame | src/private/websocketreader.cpp:57-73 | a frame header takes between 2 and 14 bytes |
| WebSocketFrames.BaseFrameRoundTrip | src/private/websocketreader.cpp:75-88 | every base frame survives the two header bytes `serializeFrame` builds and `readBaseFrame` decodes |
| WebSocketFrames.BaseFrameBytesRoundTrip | src/private/websocketreader.cpp:75-88 | every pair of header bytes is the encoding of the base frame read from it |
| WebSocketFrames.EncodeBaseFrame | src/private/websocketwriter.cpp:43-46 | `serializeFrame` packs the base frame into exactly two header bytes |
| WebSocketFrames.ReadFrameData | src/private/websocketreader.cpp:90-141 | fails exactly when fewer than two bytes, or fewer than `sizeOfFrame` of the base frame, are there; the base frame is the one read from the first two bytes |
| WebSocketFrames.ReadPayloadLength | src/private/websocketreader.cpp:143-149 | `payloadLength` of a read frame is its extended length, which for a short form is the 7-bit length |
| WebSocketFrames.IsLegalClientPacket | src/private/websocketreader.cpp:151-184 | holds exactly when no reserved bit is set, an extended length lies between 126 and the hard limit, the opcode is not reserved, a control frame is final and at most 125 bytes, and a payload is masked |
| WebSocketFrames.LegalPacketBounds | src/private/websocketreader.cpp:151-184 | a legal client frame never announces more than the hard limit, has a known opcode, and as a control frame is final and at most 125 bytes (section 5.5 of RFC 6455) |
| WebSocketFrames.Masked | src/private/websocketreader.cpp:188-202 | masking keeps the length |
| WebSocketFrames.MaskPayload | src/private/websocketreader.cpp:204-210 | the array is masked in place: its new contents are `Masked` of the old ones |
| WebSocketFrames.MaskInvolution | src/private/websocketreader.cpp:188-210 | masking twice with the same key restores the payload (section 5.3 of RFC 6455) |
| WebSocketFrames.MaskWithoutKey | src/private/websocketreader.cpp:188-210 | the all-zero key leaves the payload as it is |
| WebSocketFrames.ReadClose | src/private/websocketreader.cpp:212-231 | fails exactly for a one-byte payload; otherwise a non-empty payload gives a 16-bit code and the rest as message |
| WebSocketFrames.IsLegalCloseCode | src/private/websocketreader.cpp:233-255 | holds exactly for negative codes, 1000-1003, 1007-1011 and 3000-4999 |
| WebSocketFrames.CreateClosePayload | src/private/websocketwriter.cpp:59-72 | empty exactly for a negative code; otherwise two code bytes followed by the message |
| WebSocketFrames.CloseRoundTrip | src/private/websocketwriter.cpp:59-72 | `readClose` recovers what `createClosePayload` wrote, the code truncated to 16 bits, and -1 for a negative code |
| WebSocketFrames.LegalCloseRoundTrip | src/private/websocketwriter.cpp:59-72 | every legal close code is read back as itself (negative ones as -1), which is legal again |
| WebSocketFrames.SerializeFrame | src/private/websocketwriter.cpp:22-50 | 2 bytes up to 125, 4 bytes up to 0xFFFF, 10 bytes beyond, which is `sizeOfFrame` of the unmasked base frame written |
| WebSocketFrames.SerializeRoundTrip | src/private/websocketwriter.cpp:22-50 | an unmasked frame serialized anywhere in a buffer is read back from there with its flags, opcode and payload length |
| WebSocketFrames.SendToClient | src/private/websocketwriter.cpp:52-57 | the device receives the frame header followed by exactly the payload |
| WebSocketFrames.OutgoingFrameRead | src/private/websocketwriter.cpp:52-57 | a frame sent to the client is read back with its flag, opcode, no reserved bits and its length, and the payload follows the header |
| WebSockets.WellFragmentedSnoc | src/websocket.cpp:437-447 | a stream of data frames stays well fragmented exactly when a continuation arrives while a message is in progress and a new message only when none is; a non-final frame leaves one in progress |
| WebSockets.ReadFrameShift | src/websocket.cpp:358-394 | reading a frame at the read position is reading it at the front of the unread bytes |
| WebSockets.ReadFramePrefix | src/private/websocketreader.cpp:90-141 | `readFrameData` reads nothing beyond the frame header |
| WebSockets.ReadFromByteArray | src/websocket.cpp:288-302 | copies min(maxlen, size) bytes from the front; the read is full exactly when it took everything, and a partial read removes exactly the copied prefix |
| WebSockets.RecvDevice.constructor | src/websocket.cpp:68-73 | the receive buffer starts empty with the read position at 0 |
| WebSockets.RecvDevice.Skip | src/websocket.cpp:387-388 | advancing past `n` processed bytes removes exactly those bytes from the unread ones |
| WebSockets.RecvDevice.ShrinkBuffer | src/websocket.cpp:98-106 | the processed prefix is dropped once it reaches 1 MiB (fast) or 8 KiB; the unread bytes are unchanged |
| WebSockets.WebSocket.constructor | src/websocket.cpp:110-121 | a new socket is in Frame mode with text frames, no message in progress either way, nothing buffered, open for reading and writing |
| WebSockets.WebSocket.SetMode | src/websocket.cpp:135-142 | the mode is set, what was buffered is dropped, and the read buffer is used exactly outside Frame mode |
| WebSockets.WebSocket.SetFrameType | src/websocket.cpp:148-150 | only the default frame type changes |
| WebSockets.WebSocket.SetUseReadBuffer | src/websocket.cpp:156-166 | without the read buffer the socket is write-only and drops what it held; with it, it is read-write and keeps it |
| WebSockets.WebSocket.SendFrame | src/websocket.cpp:172-188 | the first frame of a message carries its type and every later one is a continuation; the last ends the message; exactly that frame is written |
| WebSockets.WebSocket.WriteData | src/websocket.cpp:271-274 | one final frame of the default type carrying all the data, whose length is returned |
| WebSockets.WebSocket.SendClose | src/websocket.cpp:326-330 | a final close frame carrying `createClosePayload(code, message)` is written |
| WebSockets.WebSocket.SendPing | src/websocket.cpp:206-214 | a challenge of 126 bytes or more is refused and nothing is sent; otherwise exactly one ping frame carrying it |
| WebSockets.WebSocket.Close | src/websocket.cpp:237-245 | the close frame goes out only if the socket was open; afterwards it is NotOpen, reports a close request and closes the client |
| WebSockets.WebSocket.Open | src/websocket.cpp:224-231 | only opening as NotOpen succeeds, and it closes as `close()` does; any other mode changes nothing |
| WebSockets.WebSocket.ConnLostHandler | src/websocket.cpp:280-286 | an open socket becomes NotOpen and reports a close request once; a closed one reports nothing |
| WebSockets.WebSocket.BytesAvailable | src/websocket.cpp:247-261 | in Frame mode with a read buffer only the first queued message counts; otherwise the whole stream buffer counts; without the read buffer nothing is added |
| WebSockets.WebSocket.ReadFrame | src/websocket.cpp:304-316 | reads a prefix of the first queued message only, drops it once read completely, and loses no byte of the queued messages |
| WebSockets.WebSocket.ReadStream | src/websocket.cpp:318-324 | reads min(maxlen, size) bytes from the front of the stream buffer and removes exactly those |
| WebSockets.WebSocket.ReadData | src/websocket.cpp:263-269 | never reads more than asked: from the first message in Frame mode, from the front of the stream otherwise |
| WebSockets.WebSocket.CheckUtfValidity | src/websocket.cpp:419-435 | binary data always passes; text must be valid UTF-8 when the message ends and not invalid while more is to come |
| WebSockets.WebSocket.AppendDataFrame | src/websocket.cpp:437-487 | a continuation is accepted only during a message and a new message only outside one; an accepted frame is stored, a refused one changes nothing, and a message failing the UTF-8 check closes the socket |
| WebSockets.WebSocket.StoreDataFrame | src/websocket.cpp:449-483 | the accepted payload is appended, delivered in Frame mode, and the buffer then dropped or readyRead emitted |
| WebSockets.WebSocket.EndFrame | src/websocket.cpp:474-483 | after a final frame, or any frame in Streaming mode, the buffer is dropped without a read buffer and readyRead emitted with one |
| WebSockets.WebSocket.DeliverMessage | src/websocket.cpp:453-467 | in Frame mode every frame is reported, and a finished message is queued and reported only when valid; otherwise the socket is closed with 1007 |
| WebSockets.WebSocket.ProcessClose | src/websocket.cpp:501-521 | fails on a malformed payload, an illegal code or an invalid message; otherwise an open socket answers with close 1000, the peer's code and message are reported and the client closed |
| WebSockets.WebSocket.AcceptClose | src/websocket.cpp:512-520 | an open socket answers with one final close frame of code 1000 and a closed one writes nothing; the peer's code and message are reported as the last event, the client is closed, and the mode, queued frames and message state are unchanged |
| WebSockets.WebSocket.ProcessPing | src/websocket.cpp:523-527 | the ping is reported and answered with a pong carrying the same payload |
| WebSockets.WebSocket.ProcessPong | src/websocket.cpp:529-533 | the pong is only reported |
| WebSockets.WebSocket.ProcessFrame | src/websocket.cpp:396-417 | the payload is unmasked and dispatched on the opcode: data frames by fragmentation state, close, ping and pong as their handlers say |
| WebSockets.WebSocket.ProcessNextFrame | src/websocket.cpp:362-388 | an illegal or refused frame fails, an incomplete one stops the loop, and a processed one is cut off the unread bytes as a whole frame |
| WebSockets.WebSocket.ProcessPacket | src/websocket.cpp:358-394 | consumes only whole frames, in order and losing no byte, and stops at an incomplete frame (success) or an illegal or unprocessable one (failure) |
| WebSockets.WebSocket.ProcessIncoming | src/websocket.cpp:342-352 | when processPacket fails, on a complete frame it could not process or on an illegal header whose payload has not arrived (src/websocket.cpp:367-368), the socket becomes NotOpen, the last bytes written to the client are a final close frame with code 1002 (protocol error), the client is closed and IllegalFrameReceived is reported last |
| WebSockets.WebSocket.Receive | src/websocket.cpp:92-96 | the unread bytes plus the new ones are exactly the whole frames processed plus what is still unread |
| FastCgiRecords.HeaderBytes | src/private/fastcgistructures.hpp:74-87 | the 8-byte record header laid out as the packed structure: version, type, big-endian id and length, padding, reserved |
| FastCgiReader.ReadRecord | src/private/fastcgireader.cpp:22-36 | fails exactly when fewer than 8 bytes are available; otherwise the header is the first 8 bytes, which are only peeked at |
| FastCgiReader.ReadRecordRoundTrip | src/private/fastcgireader.cpp:22-36 | any header is read back from its wire form, whatever follows it (section 3.3 of the FastCGI Specification) |
| FastCgiReader.ReadVariableLength | src/private/fastcgireader.cpp:38-58 | one byte for values up to 127, otherwise four bytes with the top bit cleared (below 2^31); -1 with the offset unmoved when the bytes are missing |
| FastCgiReader.ReadNameValuePair | src/private/fastcgireader.cpp:60-76 | the offset never moves backwards nor past the input, and a read pair has consumed at least its two length bytes |
| FastCgiReader.PairInsideInput | src/private/fastcgireader.cpp:60-76 | a read pair's name and value are exactly the bytes after its two lengths, and the offset lands right after them, inside the input |
| FastCgiReader.ReadAllNameValuePairs | src/private/fastcgireader.cpp:78-90 | succeeds exactly when the pairs use up the whole input, and then holds the old map with every pair inserted, a later name winning; models the intended behaviour (see Findings) |
| FastCgiReader.ReadAllSorted | src/private/fastcgireader.cpp:78-90 | reading pairs into a map keeps one entry per name in key order |
| FastCgiReader.TruncatedPairAccepted | src/private/fastcgireader.cpp:78-90 | as written, the body [5] is accepted with an empty map, while the intended reading refuses it |
| FastCgiReader.AsWrittenAgreesOnSuccess | src/private/fastcgireader.cpp:78-90 | whenever the intended reading succeeds, the loop as written gives the same verdict and map |
| FastCgiReader.Int32 | src/private/fastcgireader.cpp:66 | a signed 32-bit value congruent to the exact one modulo 2^32 |
| FastCgiReader.OverflowingLengthsPass | src/private/fastcgireader.cpp:60-76 | as written, the 32-bit sum of a 0x7FFFFFFF-byte name and a 1-byte value lets a pair through the bounds test with nothing after it |
| FastCgiReader.ReadBeginRequestBody | src/private/fastcgireader.cpp:93-107 | fails exactly when fewer than 8 bytes are there; otherwise the role is the first two bytes big-endian and the flags the third (section 5.1) |
| FastCgiWriter.EncodeLength | src/private/fastcgiwriter.cpp:39-46 | one byte up to 127, four bytes otherwise |
| FastCgiWriter.LengthRoundTrip | src/private/fastcgiwriter.cpp:39-46 | a written length is read back by `readVariableLength` as itself, which moves past exactly its bytes (section 3.4 of the FastCGI Specification) |
| FastCgiWriter.PairRoundTrip | src/private/fastcgiwriter.cpp:48-54 | a written pair is read back by `readNameValuePair` as itself, which moves past exactly its bytes |
| FastCgiWriter.ValueMapToBody | src/private/fastcgiwriter.cpp:56-64 | the loop writes the pairs of the map in ascending key order, one after the other (`Body`) |
| FastCgiWriter.BodyRoundTrip | src/private/fastcgiwriter.cpp:56-64 | reading back the body of a map succeeds and gives exactly that map |
| FastCgiWriter.BodyReads | src/private/fastcgiwriter.cpp:56-64 | reading a body written from `m` after the pairs already read inserts exactly `m`'s pairs |
| FastCgiWriter.StreamMessageRead | src/private/fastcgiwriter.cpp:119-137 | a stream record reads back with version 1, its type, id and length, and its content is the body |
| FastCgiWriter.GetValuesResultRoundTrip | src/private/fastcgiwriter.cpp:66-79 | a get-values result reads back as type 10, id 0, and content that reads back as the same map (section 4.1) |
| FastCgiWriter.EndRequestRead | src/private/fastcgiwriter.cpp:100-117 | an end-request record reads back as type 3 with its id, an 8-byte body holding the big-endian status and the protocol status (section 5.5) |
| FastCgiWriter.UnknownTypeRead | src/private/fastcgiwriter.cpp:81-97 | an unknown-type record reads back as type 11, id 0, and an 8-byte body naming the unknown type (section 4.2) |
| FastCgiWriter.WriteGetValuesResult | src/private/fastcgiwriter.cpp:66-79 | exactly the get-values result record is appended to the device |
| FastCgiWriter.WriteUnknownTypeResult | src/private/fastcgiwriter.cpp:81-97 | exactly the unknown-type record is appended to the device |
| FastCgiWriter.WriteEndRequest | src/private/fastcgiwriter.cpp:100-117 | exactly the end-request record is appended to the device |
| FastCgiWriter.WriteStreamMessage | src/private/fastcgiwriter.cpp:119-137 | refuses a body over 0xFFFF bytes and then writes nothing; otherwise appends exactly the record |
| FastCgiWriter.Chunks | src/private/fastcgiwriter.cpp:139-151 | the pieces are non-empty, at most 0xFFFF bytes each, and concatenate to the body |
| FastCgiWriter.ChunkCount | src/private/fastcgiwriter.cpp:139-151 | the body is sent as the ceiling of its length over 0xFFFF records, none for an empty body (section 5.3) |
| FastCgiWriter.MultiPartIsChunks | src/private/fastcgiwriter.cpp:139-151 | the records written are one stream record per piece of `Chunks(body)`, in order |
| FastCgiWriter.WriteMultiPartStream | src/private/fastcgiwriter.cpp:139-151 | the loop appends exactly the records of `MultiPartRecords` for the body |
| FastCgiThreadObjects.Settings.constructor | src/fastcgibackend.cpp:49-58 | the settings start with no custom configuration and the given limits |
| FastCgiThreadObjects.GetValuesMapValues | src/private/fastcgithreadobject.cpp:189-200 | `getValuesMap` holds FCGI_MAX_REQS and FCGI_MAX_CONNS as the decimal limits and FCGI_MPXS_CONNS as "1", every other name keeps its custom value, and the map stays sorted |
| FastCgiThreadObjects.GetValuesMapWritable | src/private/fastcgithreadobject.cpp:189-200 | everything `getValuesMap` holds can be written as name-value pairs |
| FastCgiThreadObjects.AnswerGet | src/private/fastcgithreadobject.cpp:207-226 | a name is answered exactly when it is both requested and known, and then with the server's value; models the intended behaviour (see Findings) |
| FastCgiThreadObjects.AnswerEchoesRequest | src/private/fastcgithreadobject.cpp:216-219 | as written, a request for FCGI_MAX_CONNS with an empty value is answered with the empty value; the intended answer carries the limit |
| FastCgiThreadObjects.Content | src/private/fastcgithreadobject.cpp:156-172 | the content handed on has exactly the announced length, without header or padding |
| FastCgiThreadObjects.ReadRecordPrefix | src/private/fastcgithreadobject.cpp:156-172 | the header of a buffer is the header of any prefix holding it |
| FastCgiThreadObjects.ThreadObject.GetTransport | src/private/fastcgithreadobject.cpp:98-105 | a transport is found exactly for an open request id of that connection |
| FastCgiThreadObjects.ThreadObject.constructor | src/private/fastcgithreadobject.cpp:27-33 | a new thread object has no connections and counts none |
| FastCgiThreadObjects.ThreadObject.AddDeviceInternal | src/private/fastcgithreadobject.cpp:61-64 | the connection is filed with no requests, and what it already holds is handled as whole records |
| FastCgiThreadObjects.ThreadObject.AddSocket | src/private/fastcgithreadobject.cpp:53-59 | a fresh socket of the given class is filed with no requests, counted when asked to |
| FastCgiThreadObjects.ThreadObject.AddSocketLater | src/private/fastcgithreadobject.cpp:39-47 | the connection is counted once, at once, and filed |
| FastCgiThreadObjects.ThreadObject.TransportDestroyed | src/private/fastcgithreadobject.cpp:116-122 | exactly the destroyed transport's request id is forgotten |
| FastCgiThreadObjects.ThreadObject.ConnectionLostAsWritten | src/private/fastcgithreadobject.cpp:124-135 | as written, only a TCP connection is dropped with its requests and reported, and the connection count never goes down |
| FastCgiThreadObjects.ThreadObject.ConnectionLost | src/private/fastcgithreadobject.cpp:124-135 | any lost connection is dropped with its requests, reported, and no longer counted; models the intended behaviour (see Findings) |
| FastCgiThreadObjects.ThreadObject.ProcessDataAsWritten | src/private/fastcgithreadobject.cpp:137-145 | as written, a pipe connection's data is left unread; a TCP connection's is handled as whole records |
| FastCgiThreadObjects.ThreadObject.ProcessData | src/private/fastcgithreadobject.cpp:137-145 | the data of any connection is handled, and what is taken off it is a run of whole records; models the intended behaviour (see Findings) |
| FastCgiThreadObjects.ThreadObject.ProcessFcgiData | src/private/fastcgithreadobject.cpp:147-154 | whole records are handled one after the other until one is incomplete or refused; what was taken off the connection is a run of whole records |
| FastCgiThreadObjects.ThreadObject.ProcessRecord | src/private/fastcgithreadobject.cpp:156-172 | an incomplete record consumes nothing and fails; a complete one consumes exactly 8 + content + padding bytes and the handler's verdict on the content is returned |
| FastCgiThreadObjects.ThreadObject.ProcessCompleteRecord | src/private/fastcgithreadobject.cpp:174-187 | the verdict is that of the handler for the record type, and no input is consumed |
| FastCgiThreadObjects.ThreadObject.ProcessUnknownType | src/private/fastcgithreadobject.cpp:202-205 | answers with an unknown-type record naming the type, and succeeds |
| FastCgiThreadObjects.ThreadObject.ProcessGetValues | src/private/fastcgithreadobject.cpp:207-226 | refuses malformed pairs and writes nothing; otherwise writes one get-values result answering the requested variables the server knows with its values; models the intended behaviour (see Findings) |
| FastCgiThreadObjects.ThreadObject.ProcessBeginRequest | src/private/fastcgithreadobject.cpp:228-253 | accepts exactly a well-formed responder request whose id is not in use, and files a fresh transport with no headers for it |
| FastCgiThreadObjects.ThreadObject.ProcessAbortRequest | src/private/fastcgithreadobject.cpp:255-266 | an open request is ended with an empty stdout record and an end-request record of status 0, and its transport deleted; an unknown id is ignored |
| FastCgiThreadObjects.ThreadObject.ProcessParams | src/private/fastcgithreadobject.cpp:268-280 | refuses an unknown id or malformed pairs (the intended reading, see Findings); non-empty parameters are added to the transport's headers, and the empty record starts the client |
| FastCgiThreadObjects.ThreadObject.ProcessStdIn | src/private/fastcgithreadobject.cpp:282-292 | data for an unknown id is ignored, empty data for an open request is refused, and anything else is forwarded to the request's transport |
| FastCgiTransports.ParamNameToHttpHeader | src/private/fastcgitransport.cpp:188-207 | the byte-by-byte loop computes `HeaderKey`: '_' becomes '-', the first letter of each word is kept and every other letter lower-cased |
| FastCgiTransports.HeaderKeyExample | src/private/fastcgitransport.cpp:188-207 | SOME_THING becomes Some-Thing |
| FastCgiTransports.HeaderKeyCanonical | src/private/fastcgitransport.cpp:188-207 | a parameter name without '-' becomes a header name without '_' that `correctHeaderKeyCase` leaves as it is |
| FastCgiTransports.StripHttpPrefix | src/private/fastcgitransport.cpp:209-223 | a leading "HTTP_" is removed and nothing else |
| FastCgiTransports.InsertConvertedForwardsAll | src/private/fastcgitransport.cpp:209-223 | every parameter reaches the headers once, converted, and nothing else does |
| FastCgiTransports.InsertConvertedSorted | src/private/fastcgitransport.cpp:209-223 | the resulting header multimap stays in key order |
| FastCgiTransports.UniteKeepsAll | src/private/fastcgitransport.cpp:103-112 | `QMap::unite` keeps every earlier parameter and adds exactly the new ones |
| FastCgiTransports.MidFrom | src/private/fastcgitransport.cpp:225-231 | `mid(from)` is the data after `from`, and empty past the end |
| FastCgiTransports.ProtocolVersionRead | src/private/fastcgitransport.cpp:245-263 | the SERVER_PROTOCOL values "HTTP/1.0" and "HTTP/1.1" are recognised as those versions |
| FastCgiTransports.ReplaceFirstLine | src/private/fastcgitransport.cpp:225-231 | the first 8 bytes are replaced by "Status:" |
| FastCgiTransports.StatusLineOfResponse | src/private/fastcgitransport.cpp:225-231 | a response line written for HTTP/1.0 or 1.1 becomes the CGI line "Status: <code> <reason>" with the rest of the response after it |
| FastCgiTransports.Transport.constructor | src/private/fastcgitransport.cpp:60-77 | a transport serves one request and starts with no parameters, not started, nothing forwarded |
| FastCgiTransports.Transport.ProcessedHeaders | src/private/fastcgitransport.cpp:209-223 | every parameter is inserted under its header name, "HTTP_" removed |
| FastCgiTransports.Transport.StartClient | src/private/fastcgitransport.cpp:245-263 | the client is started with the request the parameters describe, and the parameters are forgotten |
| FastCgiTransports.Transport.AddFastCgiParams | src/private/fastcgitransport.cpp:103-112 | non-empty parameters are collected; the empty batch starts the client |
| FastCgiTransports.Transport.SendToRemote | src/private/fastcgitransport.cpp:147-157 | the data goes out as stdout records, its first line replaced by a CGI status line the first time only |
| FastCgiTransports.Transport.ForceClose | src/private/fastcgitransport.cpp:126-134 | the request is ended with an empty stdout record and an end-request record of status 0, and the transport deleted |
| FastCgiTransports.Transport.Close | src/private/fastcgitransport.cpp:140-145 | only the transport's own client closes it, as `forceClose` does |
| FastCgiTransports.Transport.Abort | src/private/fastcgitransport.cpp:88-93 | aborting closes the request as `forceClose` does |
| FastCgiTransports.Transport.ForwardBodyData | src/private/fastcgitransport.cpp:180-186 | non-empty stdin data is handed to the client; empty data is not |
| FastCgiBackends.SumIncrement | src/fastcgibackend.cpp:144-151 | one more connection on any thread adds one to `currentConnectionCount` |
| FastCgiBackends.Backend.constructor | src/fastcgibackend.cpp:49-58 | as many connections as `idealThreadCount` (0 when negative), ten times as many requests in a C `int`, no custom configuration and no threads |
| FastCgiBackends.Backend.SetMaxConcurrentConnections | src/fastcgibackend.cpp:124-126 | only the connection limit changes |
| FastCgiBackends.Backend.SetMaxConcurrentRequests | src/fastcgibackend.cpp:132-134 | only the request limit changes |
| FastCgiBackends.Backend.SetCustomConfiguration | src/fastcgibackend.cpp:136-138 | the name now maps to the value, every other name keeps its value, and the limits are unchanged |
| FastCgiBackends.Backend.ServerThreadCreated | src/fastcgibackend.cpp:165-173 | a fresh thread object without connections is appended |
| FastCgiBackends.Backend.CurrentConnectionCount | src/fastcgibackend.cpp:144-151 | the loop returns the sum of the threads' connection counts |
| FastCgiBackends.Backend.LeastUsedThread | src/fastcgibackend.cpp:175-194 | none exactly when there are no threads; otherwise the first thread with the fewest connections |
| FastCgiBackends.Backend.AddConnection | src/fastcgibackend.cpp:196-214 | the connection goes to the first least-used thread, which counts one more, and `connectionAdded` is emitted; without threads nothing happens |
| FastCgiBackends.Backend.AddToThread | src/private/fastcgithreadobject.cpp:39-47 | the chosen thread counts exactly one more connection and files a fresh socket of the given kind |
| FastCgiBackends.Backend.ListenInherited | src/fastcgibackend.cpp:65-76 | succeeds exactly when FCGI_LISTENSOCK_FILENO holds a number from 1 up, and then adds one connection when a thread exists |
| StreamingJson.Pop | src/private/streamingjsonhelper.cpp:99-115 | an error exactly when nothing is open or the innermost open bracket is not the matching one; the innermost bracket is removed either way; the element is complete exactly when the only open bracket is closed |
| StreamingJson.Step | src/private/streamingjsonhelper.cpp:36-69 | an error only on a closing bracket outside a string; a completed element only when the last open bracket closes; a backslash outside an escape escapes the next byte |
| StreamingJson.RunExtends | src/private/streamingjsonhelper.cpp:36-71 | scanning only appends to the queue of elements |
| StreamingJson.RunAppend | src/private/streamingjsonhelper.cpp:36-71 | scanning `a + b` is scanning `a` and then, unless that failed, `b` |
| StreamingJson.RunKeepsText | src/private/streamingjsonhelper.cpp:36-71 | without a completed element the scan only grows the text since the last cut |
| StreamingJson.RunKeepsDepth | src/private/streamingjsonhelper.cpp:36-71 | with a bracket open, bytes that complete no element leave a bracket open |
| StreamingJson.Feed | src/private/streamingjsonhelper.cpp:29-85 | unless it is an error, the verdict is "complete" exactly when elements wait; the waiting elements are only appended to |
| StreamingJson.FeedSplit | src/private/streamingjsonhelper.cpp:29-85 | feeding `a` then `b` gives the state of feeding `a + b`, under the conditions listed in its requires |
| StreamingJson.RunJoin | src/private/streamingjsonhelper.cpp:73-81 | whether the text since the last cut sits in the buffer or in the current chunk does not change the elements or the scanner |
| StreamingJson.StreamingJsonHelper.constructor | src/private/streamingjsonhelper.cpp:21-23 | an empty helper: nothing buffered, queued or open |
| StreamingJson.StreamingJsonHelper.PushStack | src/private/streamingjsonhelper.cpp:95-97 | the bracket is pushed and nothing else changes |
| StreamingJson.StreamingJsonHelper.PopStack | src/private/streamingjsonhelper.cpp:99-115 | the stack and the verdict are those of `Pop`; nothing else changes |
| StreamingJson.StreamingJsonHelper.AppendElement | src/private/streamingjsonhelper.cpp:117-123 | the buffer followed by `left` is queued and the buffer emptied |
| StreamingJson.StreamingJsonHelper.HasWaitingElement | src/private/streamingjsonhelper.cpp:87-89 | true exactly when an element is queued |
| StreamingJson.StreamingJsonHelper.NextWaitingElement | src/private/streamingjsonhelper.cpp:91-93 | the oldest queued element is taken off the front; nothing else changes |
| StreamingJson.StreamingJsonHelper.AppendData | src/private/streamingjsonhelper.cpp:29-85 | the new state and the verdict are those of `Feed` on the old state |
| StreamingJson.StreamingJsonHelper.ScanChunk | src/private/streamingjsonhelper.cpp:30-71 | the loop leaves the state of the pure scan `Run` from the old state, and a pending escape exactly when the chunk ends in one |
| StreamingJson.StreamingJsonHelper.ScanByte | src/private/streamingjsonhelper.cpp:37-68 | one pass of the loop keeps the remaining scan's outcome unchanged, moves forward, and stops on an error |
| StreamingJson.StreamingJsonHelper.ScanStructural | src/private/streamingjsonhelper.cpp:50-68 | a byte outside strings changes the stack as `Step` says; a completed element is cut off at that byte and queued |
| StreamingJson.RunAt | src/private/streamingjsonhelper.cpp:36-69 | a scan is the step at its first byte followed by the scan of the rest |
| StreamingJson.RunQueue | src/private/streamingjsonhelper.cpp:117-123 | elements queued before a scan stay in front of those it queues |
| StreamingJson.ElementsInOrder | src/private/streamingjsonhelper.cpp:29-85 | two whole elements in one chunk are queued in order, nothing stays buffered |
| StreamingJson.StringHidesBrackets | src/private/streamingjsonhelper.cpp:48-50 | inside a string, bytes other than quotes and backslashes change nothing |
| StreamingJson.UnopenedCloseIsError | src/private/streamingjsonhelper.cpp:100-102 | a closing bracket with nothing open is an error, and queue and buffer are untouched |
| StreamingJson.EmptyObjectIsElement | src/private/streamingjsonhelper.cpp:53-66 | `{}` is one complete element |
| StreamingJson.StringBytesPass | src/private/streamingjsonhelper.cpp:48-50 | brackets inside a string are not counted |
| StreamingJson.UnfinishedIsPremature | src/private/streamingjsonhelper.cpp:74-84 | an unfinished object is premature, queues nothing and stays buffered |
| StreamingJson.RootValueAlsoBuffered | src/private/streamingjsonhelper.cpp:74-81 | a root value that is not an object or array is queued at the chunk's end and also stays buffered, so it precedes the next element |
| StreamingJson.EscapeAcrossChunks | src/private/streamingjsonhelper.cpp:39-47 | a backslash ending a chunk escapes the first byte of the next |
| JsonRpc.Value | src/private/jsonrpcutil.cpp:45-49 | a member the object lacks reads as undefined |
| JsonRpc.Insert | src/private/jsonrpcutil.cpp:133-136 | after inserting, the key reads as the inserted value and every other key as before |
| JsonRpc.ErrorMessages | src/private/jsonrpcutil.cpp:19-33 | a code has a message exactly when it is one of the five standard codes or in -32099..-32000 ("Server error" exactly there); the five standard messages differ |
| JsonRpc.Dissect | src/private/jsonrpcutil.cpp:35-89 | each of the four verdicts exactly when its condition holds (sanity check, params an object or absent, path absent, a string or neither); a valid request carries method, params, id and path as given |
| JsonRpc.DissectRoundTrip | src/private/jsonrpcutil.cpp:35-89 | a request object built from valid parts is taken apart into exactly those parts |
| JsonRpc.FromVariant | src/private/jsonrpcutil.cpp:96 | an invalid value becomes null, every other value is kept |
| JsonRpc.SuccessResponse | src/private/jsonrpcutil.cpp:91-99 | not an error, with the given id and the result as JSON |
| JsonRpc.ErrorResponse | src/private/jsonrpcutil.cpp:101-124 | an error whose object holds the code, the code's message and the data when it is valid, and nothing else |
| JsonRpc.SerializeMembers | src/private/jsonrpcutil.cpp:126-139 | "jsonrpc" is "2.0", "id" is the id or null, the response sits under "error" or "result" as flagged and the other is absent |
| JsonRpc.SerializeRoundTrip | src/private/jsonrpcutil.cpp:126-139 | a serialized response with an id and a value reads back as itself |
| JsonRpc.ConstructedResponsesRead | src/private/jsonrpcutil.cpp:91-139 | success and error responses built for an id read back as themselves once serialized |
| JsonRpc.SerializeList | src/private/jsonrpcutil.cpp:141-149 | the array holds each response serialized, in order |
| UrlEncoded.IndexOfSplit | src/httpurlencodedreader.cpp:171 | `indexOf` is -1 exactly when the byte is absent, and otherwise the position of its first occurrence |
| UrlEncoded.IndexOfExtends | src/httpurlencodedreader.cpp:186 | bytes appended later do not move a first occurrence already buffered |
| UrlEncoded.StepProgress | src/httpurlencodedreader.cpp:143-166 | a step that returns "unchanged" changes nothing; one that moves on uses up buffered bytes or completes; parsing itself never fails |
| UrlEncoded.StepExtends | src/httpurlencodedreader.cpp:168-209 | a step that was decided by the buffered bytes is decided the same way whatever arrives after them |
| UrlEncoded.SettleOpen | src/httpurlencodedreader.cpp:139 | before the end of the device the step loop never finishes the reader |
| UrlEncoded.SettleAppend | src/httpurlencodedreader.cpp:137-141 | running the step loop on part of the body and then on with the rest equals running it on the whole |
| UrlEncoded.ChunkOn | src/httpurlencodedreader.cpp:125-127 | each 4096-byte chunk is parsed on from the state the earlier chunks left, as if all were buffered at once |
| UrlEncoded.ReceiveSplit | src/httpurlencodedreader.cpp:119-135 | a body delivered in two parts, the first with more to come, leaves the reader as the whole body at once does |
| UrlEncoded.IsComplete | src/httpurlencodedreader.cpp:69-71 | complete exactly in the complete and the error state |
| UrlEncoded.HasFailed | src/httpurlencodedreader.cpp:73-75 | failed exactly in the error state, which is also complete |
| UrlEncoded.CompletedCountAppend | src/httpurlencodedreader.cpp:160 | a `completed` signal adds one to the count of those emitted |
| UrlEncoded.StepSignalsOnce | src/httpurlencodedreader.cpp:143-166 | a step keeps "`completed` emitted exactly once when finished, never before" |
| UrlEncoded.SettleSignalsOnce | src/httpurlencodedreader.cpp:137-141 | the step loop keeps the same |
| UrlEncoded.SettleNeverFails | src/httpurlencodedreader.cpp:137-141 | the step loop never fails; only the premature end of the device does |
| UrlEncoded.ReceiveSignalsOnce | src/httpurlencodedreader.cpp:119-135 | `completed` is emitted once, whatever arrives in however many parts |
| UrlEncoded.KeyStep | src/httpurlencodedreader.cpp:168-181 | with an '=' buffered, the name is the percent-decoded Latin-1 text before the first one, `fieldFound` is emitted and the rest stays buffered |
| UrlEncoded.KeyWaits | src/httpurlencodedreader.cpp:171-172 | without an '=' the key step changes nothing |
| UrlEncoded.ValueStep | src/httpurlencodedreader.cpp:183-202 | with an '&' buffered, the decoded value before it is stored under the current name (replacing an earlier one), `fieldCompleted` is emitted and the next name is looked for in the rest |
| UrlEncoded.ValueAtEnd | src/httpurlencodedreader.cpp:186-207 | without an '&', at the end the whole buffer is the last value and the reader completes successfully; before the end it waits |
| UrlEncoded.SinglePair | src/httpurlencodedreader.cpp:119-209 | a body with one pair, received whole, completes with exactly that decoded field |
| UrlEncoded.PrematureEndFails | src/httpurlencodedreader.cpp:129-133 | a body that ends inside a name fails |
| UrlEncoded.Reader.constructor | src/httpurlencodedreader.cpp:50-63 | the MIME type is "text/plain; charset=" and the charset; bytes already available are read at once |
| UrlEncoded.Reader.ProcessData | src/httpurlencodedreader.cpp:119-135 | the new state is `Receive` of the old one on everything available; a finished reader reads nothing |
| UrlEncoded.Reader.ReadNext | src/httpurlencodedreader.cpp:125-127 | one turn of the loop reads more and leaves the state of parsing everything read so far |
| UrlEncoded.Reader.ProcessChunk | src/httpurlencodedreader.cpp:137-141 | reads at most 4096 bytes, at least one when any are available, and runs the step loop on the buffer |
| UrlEncoded.Reader.SettleStep | src/httpurlencodedreader.cpp:139 | one step keeps the loop on course for its outcome, and it stops only there |
| UrlEncoded.Reader.ProcessChunkStep | src/httpurlencodedreader.cpp:143-166 | the new state is `Step` of the old one; the result says whether the state changed |
| UrlEncoded.Reader.ProcessKey | src/httpurlencodedreader.cpp:168-181 | the new state is the key step's |
| UrlEncoded.Reader.ProcessValue | src/httpurlencodedreader.cpp:183-209 | stores the value as the value step says and returns the next state without setting it |
| UrlEncoded.Reader.FieldValue | src/httpurlencodedreader.cpp:115-117 | the stored value, empty for an unknown field |
| UrlEncoded.Reader.FieldLength | src/httpurlencodedreader.cpp:89-95 | the length of the stored value, 0 for an unknown field |
| UrlEncoded.Reader.FieldMimeType | src/httpurlencodedreader.cpp:85-87 | the same MIME type for every name |
| UrlEncoded.Reader.FieldStream | src/httpurlencodedreader.cpp:101-113 | a read-only device holding the value, created on the first request and the same device after; none for an unknown field |
| Multipart.Delimiter | src/httpmultipartreader.cpp:66-67 | the stored boundary is "--" followed by the given one |
| Multipart.BoundingLine | src/httpmultipartreader.cpp:374-399 | non-zero exactly when the delimiter followed by "\r\n" or "--" is at the offset, and then the end of that line, with "last" exactly for "--" |
| Multipart.SetState | src/httpmultipartreader.cpp:118-125 | the state is set, and `completed` (true exactly for Complete) is emitted exactly when it is final |
| Multipart.FirstLineOutcome | src/httpmultipartreader.cpp:177-196 | nothing until a bounding line's length is buffered; then Headers after a bounding line, else Error with `completed(false)` |
| Multipart.ContentLength | src/httpmultipartreader.cpp:297-301 | the number when it parses and is at least 1, else -1 |
| Multipart.DispositionNameIs | src/httpmultipartreader.cpp:303-326 | `form-data; name="x"` names the field `x`, whatever follows |
| Multipart.FileNameFirstIsTaken | src/httpmultipartreader.cpp:312 | the first `name="` anywhere is taken, so a `filename` before `name` gives the field name |
| Multipart.Info | src/httpmultipartreader.cpp:97-116 | an unknown field reads as the default field record |
| Multipart.PartStart | src/httpmultipartreader.cpp:254-295 | the collected headers are dropped and the buffer is untouched |
| Multipart.PartStartOutcome | src/httpmultipartreader.cpp:254-295 | no field name is an error; otherwise the field is (re)created with the announced length, nothing transferred, its MIME type or "text/plain", an empty buffer, and the content follows |
| Multipart.HeaderLine | src/httpmultipartreader.cpp:215-237 | uses at most what is buffered past the offset and never touches the buffer |
| Multipart.AllHeaders | src/httpmultipartreader.cpp:198-213 | the bytes used (at least the offset) or -1, within the buffer |
| Multipart.AllHeadersFrom | src/httpmultipartreader.cpp:202-212 | the same for the loop after its first line |
| Multipart.AllHeadersStart | src/httpmultipartreader.cpp:202-203 | the loop first handles the line at the offset |
| Multipart.AllHeadersGoesOn | src/httpmultipartreader.cpp:202-205 | after a line that used bytes and stayed in Headers, the loop goes on at the next line |
| Multipart.AllHeadersEnds | src/httpmultipartreader.cpp:207-212 | otherwise the loop ends with -1 for an error and the bytes used so far else |
| Multipart.Append | src/httpmultipartreader.cpp:410-423 | the data is added to the end of the current field's content and the write position moves by its length; nothing else changes |
| Multipart.AppendNothing | src/httpmultipartreader.cpp:410-423 | appending nothing changes nothing |
| Multipart.AppendTwice | src/httpmultipartreader.cpp:410-423 | appending twice is appending both, in order |
| Multipart.ContentBoundary | src/httpmultipartreader.cpp:425-439 | nothing changes when no bounding line is found; otherwise the bytes used lie within the buffer |
| Multipart.ContentEnd | src/httpmultipartreader.cpp:356-362 | all of a buffer without a line break is content, less a final "\r" when corrected (models the intended behaviour, see Findings) |
| Multipart.Content | src/httpmultipartreader.cpp:328-372 | the bytes used lie within the buffer and the buffer is untouched |
| Multipart.ContentLine | src/httpmultipartreader.cpp:355-371 | the same, for the end of `processContent` |
| Multipart.ContentShape | src/httpmultipartreader.cpp:328-372 | content either completes the field at a bounding line or appends to it |
| Multipart.ContentAppends | src/httpmultipartreader.cpp:347-368 | away from a bounding line content is appended to the current field |
| Multipart.AppendedBy | src/httpmultipartreader.cpp:410-423 | an append is a change that only appends |
| Multipart.StateStep | src/httpmultipartreader.cpp:157-164 | a positive count of used bytes lies within the buffer |
| Multipart.ChunkStep | src/httpmultipartreader.cpp:152-175 | a step that says "go on" has shortened the buffer, so the loop ends |
| Multipart.AllHeadersIdle | src/httpmultipartreader.cpp:215-222 | headers that used nothing found no line end and changed nothing |
| Multipart.StepStops | src/httpmultipartreader.cpp:148 | a step that says "stop" leaves the step loop nothing to do |
| Multipart.StepsGoOn | src/httpmultipartreader.cpp:148 | one turn of the loop keeps it on course for its outcome |
| Multipart.StepsArrive | src/httpmultipartreader.cpp:148 | where the loop stops, its outcome is reached |
| Multipart.CompletedCountAppend | src/httpmultipartreader.cpp:122 | a `completed` signal adds one to the count of those emitted |
| Multipart.StartConsistent | src/httpmultipartreader.cpp:53-57 | a new reader is consistent: `completed` is emitted exactly once when and only when the state is final, with the right verdict; every field but the one being read is done |
| Multipart.FirstLineConsistent | src/httpmultipartreader.cpp:177-196 | the first line keeps the reader consistent |
| Multipart.PartStartConsistent | src/httpmultipartreader.cpp:254-295 | the end of the headers keeps it consistent and leads to Body or Error |
| Multipart.HeaderLineConsistent | src/httpmultipartreader.cpp:215-252 | a header line keeps it consistent |
| Multipart.AllHeadersConsistent | src/httpmultipartreader.cpp:198-213 | the header loop keeps it consistent and never completes it |
| Multipart.AllHeadersFromConsistent | src/httpmultipartreader.cpp:202-212 | the same for the loop after its first line |
| Multipart.AppendConsistent | src/httpmultipartreader.cpp:410-423 | appending content keeps it consistent |
| Multipart.BoundaryConsistent | src/httpmultipartreader.cpp:425-439 | a bounding line in the content keeps it consistent: the field is done |
| Multipart.ContentConsistent | src/httpmultipartreader.cpp:328-372 | content keeps it consistent |
| Multipart.ChunkStepConsistent | src/httpmultipartreader.cpp:152-175 | a step keeps it consistent (models the intended behaviour, see Findings) |
| Multipart.StepsConsistent | src/httpmultipartreader.cpp:144-150 | the step loop keeps it consistent (models the intended behaviour, see Findings) |
| Multipart.ReadChunksConsistent | src/httpmultipartreader.cpp:133-135 | reading all available chunks keeps it consistent (models the intended behaviour, see Findings) |
| Multipart.ReceiveConsistent | src/httpmultipartreader.cpp:127-142 | `processData` keeps it consistent, so `completed` is emitted once, and at the end of the device the reader is finished (models the intended behaviour, see Findings) |
| Multipart.StepsNeverCrash | src/httpmultipartreader.cpp:144-164 | the step loop of a consistent reader never appends to a current buffer that no part has set: it stops at a final state, and in Body the current field exists (the corrected half declared under Findings) |
| Multipart.ReadChunksNeverCrash | src/httpmultipartreader.cpp:133-135 | reading all available chunks of a consistent reader never reaches an unset current buffer (the corrected half declared under Findings) |
| Multipart.ReadChunksFinished | src/httpmultipartreader.cpp:127-135 | a finished reader takes further chunks into its buffer and changes nothing else: no state change and no signal (the corrected half declared under Findings) |
| Multipart.WithinLine | src/httpmultipartreader.cpp:356-362 | within a line without a "\r\n" buffered, all of it is appended (less a final "\r" held back when corrected) and the step stops |
| Multipart.EndOfLine | src/httpmultipartreader.cpp:363-368 | within a line, at the first "\r\n" the line before it is appended and a new line starts after it |
| Multipart.BoundaryAtLineStart | src/httpmultipartreader.cpp:425-439 | a bounding line at a line start completes the field with its length and bytes transferred set to its size, emits `fieldCompleted`, and leads to Complete after the last one and Headers otherwise |
| Multipart.BadFirstLineSignalsTwice | src/httpmultipartreader.cpp:137-140 | as written, a bad first line received whole emits `completed(false)` twice; the model once |
| Multipart.BufferlessFailureCrashesAsWritten | src/httpmultipartreader.cpp:133-164 | as written, a bad first line followed by more than one read's worth of bytes in the same `processData` makes the failed reader append to the unset current buffer (a crash); the model ends in Error with one `completed(false)` and never reaches the unset buffer |
| Multipart.EpilogueReopens | src/httpmultipartreader.cpp:148-164 | as written, bytes after the last bounding line move a complete reader back to Headers; the model leaves it alone |
| Multipart.SplitCrLfAsWritten | src/httpmultipartreader.cpp:356-362 | as written, a line split between "\r" and "\n" across two reads turns the last bounding line into content, while the same bytes in one read complete the field |
| Multipart.SplitAsWritten | src/httpmultipartreader.cpp:356-362 | as written, the two reads append everything as content |
| Multipart.NoLineEndAsWritten | src/httpmultipartreader.cpp:356-362 | as written, content without a "\r\n" is appended whole, a final "\r" included |
| Multipart.OnceAsWritten | src/httpmultipartreader.cpp:328-372 | as written, the same bytes read at once complete the field without the line break |
| Multipart.LastLineAsWritten | src/httpmultipartreader.cpp:333-345 | as written, the last bounding line at a line start completes the reader |
| Multipart.NoBreakBefore | src/httpmultipartreader.cpp:332 | a "\r" after a line without "\r\n" adds none inside that line |
| Multipart.HeldBack | src/httpmultipartreader.cpp:356-362 | corrected, a line and a trailing "\r": the line is appended and the "\r" kept (models the intended behaviour, see Findings) |
| Multipart.LineEnds | src/httpmultipartreader.cpp:363-368 | a "\r\n" ends the line and stepping goes on after it |
| Multipart.SecondRead | src/httpmultipartreader.cpp:144-150 | the second read of a line split between "\r" and "\n" ends the line as one read would (models the intended behaviour, see Findings) |
| Multipart.OneRead | src/httpmultipartreader.cpp:144-150 | the same line read at once |
| Multipart.SplitCrLf | src/httpmultipartreader.cpp:144-150 | corrected, a split between "\r" and "\n" ends where reading at once does, whatever follows (models the intended behaviour, see Findings) |
| Multipart.BoundingLineExtended | src/httpmultipartreader.cpp:374-399 | once a bounding line is wholly buffered, bytes after it do not change the verdict |
| Multipart.ContentBoundaryExtended | src/httpmultipartreader.cpp:425-439 | the same for the check in the content |
| Multipart.ContentLineExtended | src/httpmultipartreader.cpp:355-371 | a line ending in the buffer is handled the same with more bytes behind it |
| Multipart.AppendKeepsBuffer | src/httpmultipartreader.cpp:410-423 | appending to a field does not touch the buffer of unread bytes |
| Multipart.ContentExtended | src/httpmultipartreader.cpp:328-372 | corrected, content at a line start with a line end buffered is decided the same with more bytes behind it |
| Multipart.LineStartDecided | src/httpmultipartreader.cpp:333-345 | corrected, a step at a line start is decided by what is buffered, so where reads split the body does not matter there (models the intended behaviour, see Findings) |
| Multipart.LineStartUndecidedAsWritten | src/httpmultipartreader.cpp:337-339 | as written, "\r\n--b-" makes the "\r\n" content while one more "-" completes the field; corrected, the step waits |
| MultipartReaders.Reader.constructor | src/httpmultipartreader.cpp:61-75 | the stored boundary is "--" and the given one; bytes already available are read at once, as `Receive` says (models the intended behaviour, see Findings) |
| MultipartReaders.Reader.ProcessData | src/httpmultipartreader.cpp:127-142 | the new state is `Receive` of the old one on everything available; a finished reader reads nothing; new buffers are fresh (models the intended behaviour, see Findings) |
| MultipartReaders.Reader.ReadAvailable | src/httpmultipartreader.cpp:133-135 | the loop reads chunk after chunk until the device has no bytes left, and leaves the state ReadChunks gives for everything that was available |
| MultipartReaders.Reader.EndOfData | src/httpmultipartreader.cpp:137-140 | a reader still unfinished when the device is at its end fails, emitting completed(false) once; afterwards the reader is in the state Receive gives and stays consistent (models the intended behaviour, see Findings) |
| MultipartReaders.Reader.ProcessChunk | src/httpmultipartreader.cpp:144-150 | reads at least one byte and leaves the outcome of reading the rest unchanged (models the intended behaviour, see Findings) |
| MultipartReaders.Reader.StepBuffer | src/httpmultipartreader.cpp:148 | the loop leaves the state `Steps` gives (models the intended behaviour, see Findings) |
| MultipartReaders.Reader.ProcessChunkStep | src/httpmultipartreader.cpp:152-175 | the new state and the verdict are `ChunkStep`'s (models the intended behaviour, see Findings) |
| MultipartReaders.Reader.ProcessState | src/httpmultipartreader.cpp:157-164 | the state and the bytes used are `StateStep`'s |
| MultipartReaders.Reader.ChangeState | src/httpmultipartreader.cpp:118-125 | the new state is `SetState`'s; no buffer changes |
| MultipartReaders.Reader.ProcessFirstLine | src/httpmultipartreader.cpp:177-196 | the state and the bytes used are `FirstLineStep`'s |
| MultipartReaders.Reader.ProcessAllHeaders | src/httpmultipartreader.cpp:198-213 | the state and the bytes used are `AllHeaders`'s |
| MultipartReaders.Reader.HeadersTurn | src/httpmultipartreader.cpp:202-205 | one turn of the loop keeps it on course for `AllHeaders`'s outcome, and it ends only there |
| MultipartReaders.Reader.ProcessHeaders | src/httpmultipartreader.cpp:215-237 | the state and the bytes used are `HeaderLine`'s |
| MultipartReaders.Reader.ProcessHeaderLine | src/httpmultipartreader.cpp:239-252 | succeeds exactly when the line parses, and then stores the value under the key in canonical case; otherwise nothing changes |
| MultipartReaders.Reader.ParseHeaders | src/httpmultipartreader.cpp:254-295 | the new state is `PartStart`'s; success exactly when the content follows, and then the field has a fresh, empty, open buffer |
| MultipartReaders.Reader.StartField | src/httpmultipartreader.cpp:287-292 | the field is created with a fresh empty buffer, becomes current from its start, `fieldFound` is emitted and the state is Body |
| MultipartReaders.Reader.NewField | src/httpmultipartreader.cpp:280-288 | the field of that name is replaced, with a fresh empty buffer |
| MultipartReaders.Reader.InitCurrentBuffer | src/httpmultipartreader.cpp:441-448 | the named field becomes current, at a line start, written from its start |
| MultipartReaders.Reader.ProcessContent | src/httpmultipartreader.cpp:328-372 | the state and the bytes used are `Content`'s, corrected (models the intended behaviour, see Findings) |
| MultipartReaders.Reader.ProcessContentLine | src/httpmultipartreader.cpp:355-371 | the state and the bytes used are `ContentLine`'s, corrected (models the intended behaviour, see Findings) |
| MultipartReaders.Reader.ProcessContentBoundary | src/httpmultipartreader.cpp:425-439 | the state and the bytes used are `ContentBoundary`'s |
| MultipartReaders.Reader.AppendToCurrentBuffer | src/httpmultipartreader.cpp:410-423 | the state is `Append`'s, and the field's buffer gives the bytes to its reader after anything not yet read |
| MultipartReaders.Reader.FieldMimeType | src/httpmultipartreader.cpp:97-99 | empty for an unknown field |
| MultipartReaders.Reader.FieldLength | src/httpmultipartreader.cpp:101-103 | -1 for an unknown field |
| MultipartReaders.Reader.FieldBytesTransferred | src/httpmultipartreader.cpp:105-107 | 0 for an unknown field |
| MultipartReaders.Reader.FieldStream | src/httpmultipartreader.cpp:114-116 | the field's buffer; none for an unknown field |
| MultipartReaders.Reader.FieldValue | src/httppostbodyreader.cpp:42-50 | a complete field gives everything its buffer still holds, which is then read; otherwise empty; other buffers are untouched |
| MultipartReaders.FailedIsComplete | src/httpmultipartreader.cpp:81-87 | a failed reader reports itself complete (`isComplete` holds in Error as well as Complete), and any number of later `processData` calls, whatever bytes they bring and whether or not the device has ended, leave it exactly as it was: still failed, no second `completed`, and none of the new bytes buffered |
| MultipartReaders.FailedStays | src/httpmultipartreader.cpp:127-130 | from the Error state, every run of `processData` calls returns at once and leaves the whole reader unchanged |
| PostBodyReaders.FieldValue | src/httppostbodyreader.cpp:42-50 | a complete field with a stream gives all the stream still holds, which is then read; otherwise empty and nothing is read; a complete field exists |
| PostBodyReaders.MultipartQueries | src/httpmultipartreader.cpp:89-107 | the field names are exactly those of the parse |
| PostBodyReaders.MultipartCompleteIsDefault | src/httpmultipartreader.cpp:109-112 | the multipart `isFieldComplete` (length equals bytes transferred) agrees with the default, which first asks `hasField` |
| PostBodyReaders.UrlEncodedQueries | src/httpurlencodedreader.cpp:77-95 | the field names are exactly those of the parse |
| PostBodyReaders.UrlEncodedCompleteIsDefault | src/httpurlencodedreader.cpp:97-99 | the URL-encoded `isFieldComplete` (`contains`) agrees with the default |
| HttpClients.ParseIntegerHeaderValue | src/httpclient.cpp:112-121 | -1 for an empty value or one that is not a number; any other result is the number the value spells |
| HttpClients.IntegerHeaderValueRoundTrip | src/httpclient.cpp:112-121 | a length written in decimal reads back as itself |
| HttpClients.IndexOfAny | src/httpclient.cpp:219-233 | the first position from `from` on holding one of the bytes, or the end |
| HttpClients.IndexOfAnyFinds | src/httpclient.cpp:219-233 | the search stops at the first such position |
| HttpClients.UrlPath | src/httpclient.cpp:227-229 | the URL's path is empty or absolute, and holds no '?' or '#' |
| HttpClients.UrlPathOfAbsolute | src/httpclient.cpp:227-229 | an absolute path without query or fragment is the path as it stands |
| HttpClients.UrlPathDropsQuery | src/httpclient.cpp:227-229 | a query string is not part of the path |
| HttpClients.AcceptedRangeIsStored | src/httpclient.cpp:78-89 | an accepted range is stored as parsed |
| HttpClients.RefusedRangeIsStored | src/httpclient.cpp:78-89 | a refused backwards range is still stored, so a header written afterwards announces a `Content-Length` of -2 |
| HttpClients.ContinueResponse | src/httpclient.cpp:153-180 | the interim response is the HTTP/1.1 status line for 100 and an empty line |
| HttpClients.MultipartBoundary | src/httpclient.cpp:333-349 | the boundary is everything after the first "boundary=", and there is none without one or when it is empty |
| HttpClients.MultipartHeaderRead | src/httpclient.cpp:329-349 | a `multipart/form-data` header names a multipart body and its boundary reads back |
| HttpClients.CompleteResponseHeaders | src/httpclient.cpp:953-979 | the range and length headers are added where absent, an HTTP/1.1 response has a `Date`, every other header is kept |
| HttpClients.ErrorText | src/httpclient.cpp:994-997 | the cause, or the status code's reason phrase when there is none |
| HttpClients.ExpectOnlyContinue | src/httpclient.cpp:153-180 | an expectation is accepted exactly when it is "100-continue" in any letter case |
| HttpClients.RawPath | src/httpclient.cpp:219-233 | the path text of a request line that parses |
| HttpClients.CompleteBodyTakesNoMore | src/httpclient.cpp:423-450 | once the body is complete, further bytes announce nothing |
| HttpClients.CompletesAtMostOnce | src/httpclient.cpp:423-450 | non-empty pieces announce `postBodyComplete` at most once |
| HttpClients.ExactBodyCompletes | src/httpclient.cpp:423-450 | a body delivered up to exactly its declared length is announced complete once |
| HttpClients.RequestState.constructor | src/private/httpprivate.hpp:38-74 | nothing read: unknown version, invalid verb, no headers, length -1, nothing transferred, no slot |
| HttpClients.ResponseState.constructor | src/httpclient.cpp:60-61 | status 200, no range or length, and only the header "Connection: Close" |
| HttpClients.Client.constructor | src/httpclient.cpp:41-68 | open exactly when the transport is, with a fresh request and response |
| HttpClients.Client.SetResponseHeader | src/httpclient.cpp:608-625 | refused exactly once the header is sent; otherwise the value is added under the key, the old values kept only when appending, other keys untouched |
| HttpClients.Client.SetResponseHeaders | src/httpclient.cpp:627-635 | the whole map is replaced exactly when the header is not sent |
| HttpClients.Client.SetRangeStart | src/httpclient.cpp:701-708 | refused exactly once the header is sent |
| HttpClients.Client.SetRangeEnd | src/httpclient.cpp:710-717 | refused exactly once the header is sent |
| HttpClients.Client.SetContentLength | src/httpclient.cpp:719-726 | refused exactly once the header is sent |
| HttpClients.Client.SendResponseHeader | src/httpclient.cpp:953-979 | succeeds exactly when the request header is complete and the response header not yet sent, and then writes the status line, headers, cookies and blank line; otherwise nothing changes |
| HttpClients.Client.Close | src/httpclient.cpp:728-740 | closes once; a complete request whose header is unsent gets it first |
| HttpClients.Client.KillConnection | src/httpclient.cpp:981-1007 | nothing on a closed transport; otherwise the status becomes the error, the header goes out or the error text follows, and the client closes; true exactly when no header could be sent |
| HttpClients.Client.ReadRangeRequestHeader | src/httpclient.cpp:78-89 | succeeds exactly when the range is acceptable, and stores what was parsed even when refused |
| HttpClients.Client.VerifyCompleteHeader | src/httpclient.cpp:266-290 | succeeds exactly for a known version, valid verb and path, acceptable range, `Host` on HTTP/1.1 and a length on POST and PUT; otherwise killed with 400 |
| HttpClients.Client.ReadPostBodyContentLength | src/httpclient.cpp:123-151 | a body request stores its declared length; a missing or malformed one is killed with 400 and one over the limit with 413 |
| HttpClients.Client.Send100ContinueIfClientExpectsIt | src/httpclient.cpp:153-180 | an expectation of "100-continue" gets one interim 100 response; no expectation passes, any other fails |
| HttpClients.Client.VerifyRequestBodyOrClose | src/httpclient.cpp:302-309 | body bytes on a request without a body are killed with 400 |
| HttpClients.Client.InvokeRequestedPath | src/httpclient.cpp:388-396 | an unrouted path is killed with 403; a routed request without a body whose connection need not stay open closes |
| HttpClients.Client.ValidateRequest | src/httpclient.cpp:315-327 | passes exactly when the body, the header and the declared length pass |
| HttpClients.Client.RequestChecks | src/httpclient.cpp:315-327 | passes exactly when every check passes and the path is routed, in order |
| HttpClients.Client.PostProcessRequestHeader | src/httpclient.cpp:315-327 | the same, a failure killing the connection with 400 |
| HttpClients.Client.ReadFirstLine | src/httpclient.cpp:219-233 | succeeds exactly when the request line parses; verb, path and version are stored as far as they were read |
| HttpClients.Client.ReadHeader | src/httpclient.cpp:235-248 | a header line adds its value under the key in canonical case and nothing else; a malformed line is killed with 400 |
| HttpClients.Client.HeaderLine | src/httpclient.cpp:186-211 | reading goes on exactly after a complete, well-formed line; the empty line completes the header |
| HttpClients.Client.ReadAllAvailableHeaderLines | src/httpclient.cpp:182-217 | only a prefix of the input is consumed, only whole lines while the header is incomplete, and a completed header passes exactly when the request checks do |
| HttpClients.Client.BufferPostBody | src/httpclient.cpp:423-450 | the waiting bytes count as transferred; more than declared fails and moves nothing, otherwise they move to the body buffer |
| HttpClients.Client.ReceiveBody | src/httpclient.cpp:477-510 | body bytes without a body request are killed with 400, too many with 413; the rest is counted |
| HttpClients.Client.ReceivedData | src/httpclient.cpp:465-511 | a partial header line waits for the rest and changes nothing (models the intended behaviour, see Findings) |
| HttpClients.Client.ReceivedDataAsWritten | src/httpclient.cpp:465-511 | as written, a header split inside a line is taken for body bytes and the connection killed |
| AbstractTransports.Get | src/abstracttransport.cpp:81-90 | `Disabled` reads -1; every other category reads its own configured length |
| AbstractTransports.Set | src/abstracttransport.cpp:92-108 | only the named category's length changes; `Disabled` changes nothing |
| AbstractTransports.Wrap64 | src/abstracttransport.cpp:138-144 | 64-bit unsigned arithmetic keeps values that fit |
| AbstractTransports.AsUnsigned | src/abstracttransport.cpp:170 | the `int` minimum compared with an unsigned delta is converted: a negative one becomes at least 2^63 |
| AbstractTransports.ExpiresIffTooLittle | src/abstracttransport.cpp:164-179 | with a non-negative minimum a data timeout fires exactly when fewer bytes than the minimum arrived |
| AbstractTransports.OtherModesExpire | src/abstracttransport.cpp:164-179 | every other category fires unconditionally |
| AbstractTransports.NegativeMinimumExpires | src/abstracttransport.cpp:170 | a negative minimum makes a data timeout fire for any traffic below 2^63 bytes |
| AbstractTransports.DeltaSurvivesWrap | src/abstracttransport.cpp:166 | the unsigned difference counts the bytes since the snapshot even across a wrap of the counter |
| AbstractTransports.EnoughTrafficKeepsOpen | src/abstracttransport.cpp:166-172 | receiving at least the minimum after the snapshot keeps a data-timeout connection open |
| AbstractTransports.Transport.constructor | src/private/transportprivate.hpp:34-48 | no timer armed, default lengths and minimum, counters at 0 |
| AbstractTransports.Transport.GetTimeout | src/abstracttransport.cpp:81-90 | the configured length, -1 for `Disabled` |
| AbstractTransports.Transport.SetTimeout | src/abstracttransport.cpp:92-108 | only the named length changes and `timeoutChanged` is emitted; `Disabled` does nothing |
| AbstractTransports.Transport.SetMinimumBytesReceived | src/abstracttransport.cpp:114-116 | only the minimum changes |
| AbstractTransports.Transport.SetCurrentRequestCount | src/abstracttransport.cpp:130-132 | only the request count changes |
| AbstractTransports.Transport.IncrementRequestCount | src/abstracttransport.cpp:134-136 | the request count grows by one, nothing else changes |
| AbstractTransports.Transport.AddBytesReceived | src/abstracttransport.cpp:138-140 | the received counter grows by the bytes modulo 2^64, and the difference is exactly the bytes |
| AbstractTransports.Transport.AddBytesSent | src/abstracttransport.cpp:142-144 | the sent counter grows by the bytes modulo 2^64 |
| AbstractTransports.Transport.StartTimeout | src/abstracttransport.cpp:146-157 | arms the category and snapshots the received count; the timer runs exactly when the length is not negative, with that length |
| AbstractTransports.Transport.DisableTimeout | src/abstracttransport.cpp:159-162 | no category armed and the timer stopped |
| AbstractTransports.Transport.TriggerTimeout | src/abstracttransport.cpp:164-179 | the connection is force-closed and `connectionTimedout` emitted exactly when the armed category expires; a data timeout advances the snapshot |
| HttpTransports.Get | src/httptransport.cpp:87-95 | the length stored for the category |
| HttpTransports.Set | src/httptransport.cpp:97-111 | only the named category's length changes |
| HttpTransports.Transport.constructor | src/httptransport.cpp:23-35 | no requests, the default request limit and timeout lengths |
| HttpTransports.Transport.GetTimeout | src/httptransport.cpp:87-95 | the last length set for the category, or its default |
| HttpTransports.Transport.SetTimeout | src/httptransport.cpp:97-111 | stores the length and emits `timeoutChanged` |
| HttpTransports.Transport.SetMaxRequests | src/httptransport.cpp:83-85 | only the limit changes |
| HttpTransports.Transport.SetCurrentRequestCount | src/httptransport.cpp:122-124 | only the request count changes |
| PathPatterns.CloseAt | src/restfulhttpnode.cpp:340 | the search for '}' stays within the string |
| PathPatterns.CloseAtFirst | src/restfulhttpnode.cpp:340 | `[^}]+` stops at the first '}' |
| PathPatterns.PlaceholderAt | src/restfulhttpnode.cpp:340 | a match of `{([^}]+)}(.\|$)` has a non-empty name and ends at most one character after its '}' |
| PathPatterns.PlaceholderShapeOf | src/restfulhttpnode.cpp:340 | a match is '{', a name without '}', and the closing '}' |
| PathPatterns.NextPlaceholder | src/restfulhttpnode.cpp:304-308 | the global match finds the next placeholder from the position on, or none |
| PathPatterns.CompilePathRegEx | src/restfulhttpnode.cpp:339-347 | the pattern with its placeholders compiled, anchored by "^" and "$" |
| PathPatterns.ReplaceInString | src/restfulhttpnode.cpp:303-318 | replacing each match at its start shifted by the earlier replacements' growth gives the compiled pattern |
| PathPatterns.ReplaceNextPlaceholder | src/restfulhttpnode.cpp:308-314 | one replacement moves on and keeps the loop on course for the compiled pattern |
| PathPatterns.ScanStep | src/restfulhttpnode.cpp:308-314 | the same, as a lemma on the strings |
| PathPatterns.ScanSplit | src/restfulhttpnode.cpp:308-314 | the compiled rest is the text before the next match, its group, and the compiled text after |
| PathPatterns.ShiftedSplice | src/restfulhttpnode.cpp:311-314 | replacing at the shifted start in the working copy is splicing the group into the compiled prefix |
| PathPatterns.CompiledAt | src/restfulhttpnode.cpp:320-337 | compiling copies text up to the next placeholder, inserts its group and goes on after it |
| PathPatterns.CompiledLiteral | src/restfulhttpnode.cpp:303-318 | a pattern without '{' is copied as it is |
| PathPatterns.CompiledLiteralPrefix | src/restfulhttpnode.cpp:303-318 | text without '{' before a position is copied, and compiling resumes there |
| PathPatterns.CompiledSplit | src/restfulhttpnode.cpp:303-318 | the compiled text is the literal text up to the next placeholder followed by its group |
| PathPatterns.NoPlaceholderBefore | src/restfulhttpnode.cpp:340 | no match starts where there is no '{' |
| PathPatterns.NextPlaceholderFrom | src/restfulhttpnode.cpp:304 | with no match between two positions, the search from either finds the same one |
| PathPatterns.PlaceholderFollowed | src/restfulhttpnode.cpp:329-334 | "{name}c" becomes a named group matching anything but `c`, then `c` |
| PathPatterns.PlaceholderAtEnd | src/restfulhttpnode.cpp:327-328 | a trailing "{name}" becomes a named group matching the rest |
| PathPatterns.PlaceholderShape | src/restfulhttpnode.cpp:340 | the placeholder spans the name and its closing brace |
| PathPatterns.CloseSkipsName | src/restfulhttpnode.cpp:340 | the '}' after a name without one closes it |
| QStrings.Split | src/httpnode.cpp:381 | `split('/')` gives at least one part, none holding the separator |
| QStrings.SplitNoSep | src/httpnode.cpp:381 | a string without the separator is one part |
| QStrings.SplitLeadingSep | src/httpnode.cpp:381 | a leading separator starts with an empty part |
| QStrings.SplitJoin | src/httpnode.cpp:425-428 | joining the parts of a split gives the string back |
| QStrings.SplitAfterPart | src/httpnode.cpp:381 | a part and a separator come off the front of the split |
| QStrings.JoinSplit | src/restfulhttpnode.cpp:206 | splitting what was joined from parts without the separator gives them back |
| QStrings.NonEmpty | src/httpserver.cpp:127 | the kept parts are non-empty, and no more than the parts |
| QStrings.SplitSkipEmpty | src/httpserver.cpp:127 | `split('/', SkipEmptyParts)` gives non-empty parts without the separator |
| QStrings.NonEmptyKeeps | src/httpserver.cpp:127 | dropping empty parts keeps parts free of the separator |
| QStrings.EmptyCount | src/rewritehttpnode.cpp:142-143 | at most as many empty parts as parts |
| QStrings.LessIrreflexive | src/restfulhttpnode.cpp:84-89 | `QMap` key order: no key before itself |
| QStrings.LessTotal | src/restfulhttpnode.cpp:84-89 | `QMap` key order: any two keys are ordered or equal |
| QStrings.LessAsymmetric | src/restfulhttpnode.cpp:84-89 | `QMap` key order: never both ways |
| QStrings.LessTransitive | src/restfulhttpnode.cpp:84-89 | `QMap` key order is transitive |
| RestfulRoutes.SetHandlers | src/restfulhttpnode.cpp:99-103 | exactly the slots of the given verbs (GET 0, POST 1, HEAD 2, PUT 3, DELETE 4) take the new handler; the others keep theirs |
| RestfulRoutes.Ffs | src/restfulhttpnode.cpp:181 | a non-zero value has a set bit |
| RestfulRoutes.HandlerIndex | src/restfulhttpnode.cpp:189-192 | `(ffs(verb) - 1) % 5` is the slot that `setRestfulHandler` fills for that verb |
| RestfulRoutes.HandlerFoundForVerbs | src/restfulhttpnode.cpp:78-105 | a handler registered for a set of verbs is found for exactly the verbs in the set |
| RestfulRoutes.AllVerbsFillEverySlot | src/restfulhttpnode.cpp:107-110 | registering for all verbs fills every slot |
| RestfulRoutes.ReplaceEntry | src/restfulhttpnode.cpp:84-89 | replacing a key's slots keeps the table's keys and their order |
| RestfulRoutes.WithHandlerSpec | src/restfulhttpnode.cpp:78-105 | registering keeps the table in key order, gives the compiled pattern the verbs' slots on top of its earlier ones, and leaves every other pattern alone |
| RestfulRoutes.ReplaceSpec | src/restfulhttpnode.cpp:84 | an existing key's slots are replaced, other keys untouched, order kept |
| RestfulRoutes.InsertSpec | src/restfulhttpnode.cpp:85-90 | a new key is inserted in key order, other keys untouched |
| RestfulRoutes.LastMatch | src/restfulhttpnode.cpp:209-219 | the greatest position whose pattern matches, no later one matching, or -1 |
| RestfulRoutes.FindPattern | src/restfulhttpnode.cpp:209-219 | the reverse walk finds the last matching entry, -1 when none does or the table is empty (models the intended behaviour, see Findings) |
| RestfulRoutes.LastMatchIsGreatestKey | src/restfulhttpnode.cpp:208-219 | the pattern taken is the matching one with the greatest key; -1 only when no pattern matches |
| RestfulRoutes.EmptyTableWalk | src/restfulhttpnode.cpp:209-212 | as written, an empty table is walked from before its start (undefined); the intended walk finds nothing |
| RestfulRoutes.WalkAsWrittenAgrees | src/restfulhttpnode.cpp:209-219 | with at least one pattern the walk as written is the intended one |
| RestfulRoutes.Bind | src/restfulhttpnode.cpp:395-421 | a binding gives one argument per parameter (models the intended behaviour, see Findings) |
| RestfulRoutes.ArgumentValues | src/restfulhttpnode.cpp:395-421 | the loop gives the bound arguments, or the empty list when a parameter cannot be bound (models the intended behaviour, see Findings) |
| RestfulRoutes.PrefixedNone | src/restfulhttpnode.cpp:397-402 | prefixing nothing changes nothing |
| RestfulRoutes.PrefixedTwice | src/restfulhttpnode.cpp:397-402 | prefixing twice is prefixing both |
| RestfulRoutes.ClientFirstAsWritten | src/restfulhttpnode.cpp:400-407 | as written, `(HttpClient*, int id)` reads past the end of the names; the intended binding gets the capture of "id" |
| RestfulRoutes.AsWrittenAgreesWhenClientLast | src/restfulhttpnode.cpp:395-421 | with every path parameter before the client parameters, both bindings agree |
| RestfulRoutes.AllClients | src/restfulhttpnode.cpp:401-403 | only client parameters bind to the client everywhere |
| RestfulRoutes.AllClientsAsWritten | src/restfulhttpnode.cpp:401-403 | as written, the same |
| RestfulRoutes.NoNameLeft | src/restfulhttpnode.cpp:407 | a path parameter with no name left is refused by the intended binding and out of range as written |
| RestfulRoutes.Kept | src/restfulhttpnode.cpp:287-300 | no more names than parameters |
| RestfulRoutes.ArgumentNamesWithoutClient | src/restfulhttpnode.cpp:287-300 | the loop keeps the names of the parameters that are not `Nuria::HttpClient*`, in order |
| RestfulRoutes.BindByOwnName | src/restfulhttpnode.cpp:271-300 | binding with those names gives each path parameter the capture named after it, and fails exactly when one of those is empty or not convertible (models the intended behaviour, see Findings) |
| RestfulRoutes.AddJsonContentTypeHeader | src/restfulhttpnode.cpp:439-446 | `Content-Type: application/json` is set exactly when the response has none and the header is unsent; other headers untouched |
| RewriteRules.RefLength | src/rewritehttpnode.cpp:72-90 | a reference is a backslash and one or two digits, inside the template |
| RewriteRules.RefIndex | src/rewritehttpnode.cpp:77-86 | a reference number is below 100 |
| RewriteRules.PlacedWeaken | src/rewritehttpnode.cpp:67-98 | references placed after a position are placed after any earlier one |
| RewriteRules.SkipDigits | src/rewritehttpnode.cpp:72 | digits hold no backslash, so the scan may resume after a reference's digits |
| RewriteRules.RefsPlaced | src/rewritehttpnode.cpp:67-98 | the recorded references are in order, do not overlap and lie inside the template |
| RewriteRules.RefsFromExact | src/rewritehttpnode.cpp:67-98 | every recorded reference is a backslash with one or two digits (two when a second follows) and its number, and every backslash followed by a digit is recorded |
| RewriteRules.ReplaceReferences | src/rewritehttpnode.cpp:67-98 | the loop records exactly the references, and `highestRef` becomes the largest of its old value and their numbers |
| RewriteRules.HighestRefSnoc | src/rewritehttpnode.cpp:92 | one more reference raises the highest number to its own when larger |
| RewriteRules.HighestRefIsMax | src/rewritehttpnode.cpp:92 | the highest number bounds every reference and is reached by one |
| RewriteRules.ReplaceMatch | src/rewritehttpnode.cpp:176-191 | replacing each reference at its offset shifted by the earlier replacements' growth fills the template |
| RewriteRules.ReplaceNext | src/rewritehttpnode.cpp:183-187 | one replacement keeps the loop on course for the filled template |
| RewriteRules.Step | src/rewritehttpnode.cpp:183-187 | the same, as a lemma on the strings |
| RewriteRules.Advance | src/rewritehttpnode.cpp:182-188 | filling the next reference moves its gap and capture into the done part |
| RewriteRules.Splice | src/rewritehttpnode.cpp:186 | replacing at the shifted offset splices the capture after the gap |
| RewriteRules.FillIsRender | src/rewritehttpnode.cpp:176-191 | filling the recorded references gives the template with every reference replaced by its capture and all other text kept |
| RewriteRules.RestIsRender | src/rewritehttpnode.cpp:176-191 | the same from any position |
| RewriteRules.RestAtRef | src/rewritehttpnode.cpp:184-186 | at a reference the result starts with its capture and resumes after its digits |
| RewriteRules.GapShift | src/rewritehttpnode.cpp:186 | text before the first reference is copied |
| RewriteRules.FirstMatching | src/rewritehttpnode.cpp:193-208 | the first rule, in insertion order, whose expression matches; none before it matches |
| RewriteRules.Rewritten | src/rewritehttpnode.cpp:193-208 | a rewrite exists exactly when some rule matches |
| RewriteRules.FirstRuleWins | src/rewritehttpnode.cpp:193-208 | the first matching rule decides, even when a later one matches, and the result is its template filled from that match |
| RewriteRules.FirstMatchingIs | src/rewritehttpnode.cpp:197-203 | the loop stops at the first matching rule |
| RewriteRules.FindMatchingRule | src/rewritehttpnode.cpp:193-208 | found exactly when some rule matches, and then the path is rewritten by the first; otherwise it is kept |
| RewriteRules.UnknownCaptureRefused | src/rewritehttpnode.cpp:100-107 | a template referring to a capture the expression lacks is refused |
| RewriteRules.JoinedPath | src/rewritehttpnode.cpp:151-161 | the new path starts with '/' |
| RewriteRules.SubpathOfChild | src/rewritehttpnode.cpp:136-164 | a rewrite node "r" on "/r/foo" rewrites "foo" and routes "/r/echo/bar" |
| RewriteRules.SplitChildPath | src/rewritehttpnode.cpp:142-143 | "/r/foo" has the fields "", "r" and "foo" |
| RewriteRules.RootParentAsWritten | src/rewritehttpnode.cpp:142 | as written, at the root the parent path is the whole path, so "foo" rewritten to "bar" routes "/foo/bar"; intended, the parent is empty and it routes "/bar" |
| RewriteRules.RootTargetIsRewrittenPath | src/rewritehttpnode.cpp:136-164 | at the root the rewritten sub-path is routed as it stands below "/" (models the intended behaviour, see Findings) |
| HttpNodes.InitialKind | src/rewritehttpnode.cpp:43-53 | a new plain node is plain, a new rewrite node rewrites the sub-path and has no rules, a new RESTful node has no handlers |
| HttpNodes.Names | src/httpnode.cpp:253-261 | the children's names, one per child, in order |
| HttpNodes.FindChild | src/httpnode.cpp:267-279 | null exactly when no child has the name; otherwise a child with that name |
| HttpNodes.SlotShadowedByChild | src/httpnode.cpp:129-140 | as written, a slot named like an existing child is accepted although routing always reaches the child; the correction refuses it, and the two agree on every other name |
| HttpNodes.SlotShadowedExample | src/httpnode.cpp:131 | a child "users" and a new slot "users": accepted as written, refused by the correction |
| HttpNodes.NamesAppend | src/httpnode.cpp:196-197 | appending a node adds its name at the end |
| HttpNodes.UniqueDistinct | src/httpnode.cpp:188-193 | under unique names two positions hold two names |
| HttpNodes.OnlyAt | src/httpnode.cpp:182-184 | under unique names a child sits at one position only |
| HttpNodes.UniqueAppend | src/httpnode.cpp:187-197 | a new non-empty name, neither a child's nor a slot's, keeps the names unique |
| HttpNodes.UniqueRename | src/httpnode.cpp:218-237 | a child renamed to a non-empty name free among the children and slots keeps the names unique |
| HttpNodes.UniqueWithSlot | src/httpnode.cpp:129-140 | a slot whose name no child has keeps the names unique |
| HttpNodes.UniqueWithoutSlot | src/httpnode.cpp:163-177 | removing a slot keeps the names unique |
| HttpNodes.Node.constructor | src/httpnode.cpp:91-104 | a node without children, slots or static resources, adopted by the parent exactly when its name is non-empty and free there |
| HttpNodes.Node.Orphan | src/httpnode.cpp:106-114 | a node with an empty name, no parent, no children and no slots |
| HttpNodes.Node.HasNode | src/httpnode.cpp:253-261 | true exactly when a child has the name |
| HttpNodes.Node.FindNode | src/httpnode.cpp:267-279 | a child with the name, null exactly when there is none |
| HttpNodes.Node.HasSlot | src/httpnode.cpp:263-265 | true exactly when a slot has the name |
| HttpNodes.Node.ConnectSlot | src/httpnode.cpp:129-140 | a non-empty new name with a valid callback, not a child's, is bound to a slot with the default settings and answers a valid SlotInfo; otherwise nothing changes and an invalid SlotInfo is answered; names stay unique (models the intended behaviour, see Findings) |
| HttpNodes.Node.DisconnectSlot | src/httpnode.cpp:163-177 | the slot is removed, answering whether it existed; names stay unique |
| HttpNodes.Node.AddNode | src/httpnode.cpp:179-204 | a current child is accepted unchanged; another node is appended and re-parented exactly when its name is non-empty and free among the children and slots, otherwise nothing changes; names stay unique |
| HttpNodes.Node.Adopt | src/httpnode.cpp:196-201 | the node is appended and re-parented, keeping the names unique |
| HttpNodes.Node.SetResourceName | src/httpnode.cpp:218-237 | succeeds exactly for a non-empty name the parent, if any, has neither as a child nor as a slot; the name changes only then; the parent's names stay unique |
| HttpNodes.Node.TakeName | src/httpnode.cpp:235 | the accepted name is taken and the parent's names stay unique |
| HttpNodes.Node.SetStaticResourceDir | src/httpnode.cpp:239-247 | the directory is set and static resources are on, the mode kept if already on |
| HttpNodes.Node.SetStaticResourceMode | src/httpnode.cpp:249-251 | the mode is set |
| HttpNodes.Node.AddRewrite | src/rewritehttpnode.cpp:100-112 | the rule is appended exactly when the expression is valid and references no missing capture; otherwise the rules are unchanged |
| HttpNodes.Node.ClearRules | src/rewritehttpnode.cpp:114-116 | no rules remain and the behaviour is kept |
| HttpNodes.Node.SetRewriteBehaviour | src/rewritehttpnode.cpp:63-65 | the behaviour is set and the rules are kept |
| HttpNodes.Node.SetRestfulHandler | src/restfulhttpnode.cpp:78-105 | the handler fills the given verbs' slots under the compiled anchored pattern, keeping the other slots and the table's key order |
| HttpNodes.Node.SetRestfulHandlerForAllVerbs | src/restfulhttpnode.cpp:107-110 | the handler fills every verb's slot under the compiled pattern |
| HttpRouting.After | src/httpnode.cpp:295 | the client after one attempt keeps its verb and encryption and carries the header state that attempt left |
| HttpRouting.Declined | src/httpnode.cpp:338-346 | declining does nothing and sends nothing |
| HttpRouting.Kill | src/httpnode.cpp:285-287 | a kill fails the request, sends the header and records the status code |
| HttpRouting.OrElse | src/httpnode.cpp:295 | `first \|\| second`: a success of the first stands alone; otherwise the second's verdict, after both attempts' effects |
| HttpRouting.ReroutingSound | src/rewritehttpnode.cpp:160-173 | noting a re-routing keeps an outcome permitted |
| HttpRouting.OrElseSound | src/httpnode.cpp:295 | two permitted attempts in a row give a permitted outcome |
| HttpRouting.CallSlotByName | src/httpnode.cpp:332-378 | succeeds exactly for an existing slot with a valid callback that allows the verb and, when it demands encryption, runs on a secure connection; the slot is then assigned to the client first; every outcome is permitted |
| HttpRouting.StaticResource | src/httpnode.cpp:396-471 | succeeds only with static resources on, for a GET, on a path with no "." or ".." part and, when nested resources are off, of one part from the index on; the file piped is confined to the resource directory and limited to the range; failures only decline, or kill with 405 or 416 |
| HttpRouting.Served | src/httpnode.cpp:433-470 | an opened file is piped for a GET, limited to the range; a failed seek kills with 416 and another verb with 405 |
| HttpRouting.StaticFileConfined | src/httpnode.cpp:411-429 | parts without "." or ".." join to a name inside the resource directory, a single name when one part is left |
| HttpRouting.InvokeMatch | src/restfulhttpnode.cpp:372-393 | the only event is a call or deferral of the handler registered for the verb; a deferral only for a handler waiting for a body still underway |
| HttpRouting.Route | src/httpserver.cpp:124-142 | every request routed from the root is either taken or answered |
| HttpRouting.InvokeSound | src/httpnode.cpp:281-321 | routing by a node of any class gives a permitted outcome |
| HttpRouting.BaseInvokeSound | src/httpnode.cpp:281-321 | routing as a plain node gives a permitted outcome |
| HttpRouting.RewriteFallbackSound | src/rewritehttpnode.cpp:118-174 | rewriting and routing again gives a permitted outcome |
| HttpRouting.RestfulInvokeSound | src/restfulhttpnode.cpp:194-224 | RESTful routing gives a permitted outcome |
| HttpRouting.RouteSound | src/httpserver.cpp:124-142 | whatever the path, routing only kills with 403, 404, 405 or 416, runs a slot only for an allowed verb and with encryption when demanded, pipes only GET requests and only confined files, calls a handler with one argument per parameter, and never takes back a sent header |
| HttpRouting.SlotTakesLastPart | src/httpnode.cpp:304-311 | a slot named by the last part, no child having that name, is assigned and takes the request |
| HttpRouting.ChildTakesOver | src/httpnode.cpp:301-319 | a child named by the current part takes the request over at the next part |
| HttpRouting.PostWaitsForBody | src/httpnode.cpp:366-375 | a default slot takes a POST and is assigned, and its call waits for the body |
| HttpRouting.EmptyRestfulNodeIsPlain | src/restfulhttpnode.cpp:194-224 | a RESTful node without handlers routes as a plain node |
| HttpRouting.UnmatchedRewriteIsPlain | src/rewritehttpnode.cpp:118-134 | a rewrite node none of whose rules matches routes as a plain node |
| HttpRouting.RewriteOnlyAfterSilentFailure | src/rewritehttpnode.cpp:118-134 | a rewrite node keeps the plain outcome when that succeeded or sent a header, and otherwise only adds to its effects |
| HttpRouting.RefusedIsForbidden | src/httpnode.cpp:285-288 | a node of any class that refuses the client kills it with 403 |
| HttpServers.Backend.constructor | src/httpbackend.cpp:21-25 | a backend listening on the given port |
| HttpServers.FirstOnPort | src/httpserver.cpp:113-122 | the first backend on the port, no earlier one being on it, or the count when none is |
| HttpServers.StopsOnlyFirst | src/httpserver.cpp:113-122 | one backend fewer exactly when one was on the port; every backend on another port stays, and none is added |
| HttpServers.Server.constructor | src/httpserver.cpp:47-58 | a fresh parentless plain root named "ROOT" without children, slots or static resources, and no backends |
| HttpServers.Server.SetRoot | src/httpserver.cpp:68-81 | the current root is left alone; another node becomes the root and loses its parent node |
| HttpServers.Server.SetFqdn | src/httpserver.cpp:100-102 | the name is set |
| HttpServers.Server.AddBackend | src/httpserver.cpp:104-107 | the backend is appended |
| HttpServers.Server.StopListening | src/httpserver.cpp:113-122 | the first backend on the port is removed and the others stay in order |
| HttpServers.Server.InvokeByPath | src/httpserver.cpp:124-142 | the path is routed from the root; every request is taken or answered, and the outcome is permitted |
| HttpServers.FirstOnPortIs | src/httpserver.cpp:114-118 | the loop's stopping point is the first backend on the port |

## Left out

- Sockets, TLS, local servers, threads and the event loop are not modelled. These are `HttpTcpTransport`, `SslServer`, `LocalServer`, `HttpTcpBackend` and `HttpThread`; they only move bytes and signals. Connection counts are plain integers. The queued `addSocketLater` call is modelled as an immediate one.
- `HttpServer::listen`, `listenSecure`, `addQTcpServerBackend` and `addTransport` open sockets or do nothing, so they are not modelled. A backend is seen only through its port.
- `FastCgiBackend::addTcpConnection` and `addLocalConnection` are modelled as one `AddConnection` that takes the connection kind. The moves of sockets between threads are left out.
- Foreign code is not modelled; each piece becomes a parameter of the model:
  - SHA-1/Base64 for the WebSocket handshake key;
  - UTF-8 validation (`StringUtils::checkValidUtf8`);
  - the compression filters;
  - `QMimeDatabase`;
  - the `QRegularExpression` engine, given as matchers;
  - `Callback`, `MetaObject` and `QVariant` conversion;
  - `QJsonDocument` text output;
  - the clock, passed in as "now".
- Routing functions stand in for routing on objects. `HttpRouting` reads the node tree as values and returns an `Outcome`: the request's fate, the events that happened to the client, and whether a header was sent. It does not model the callbacks' own effects, `invokeMatchNow`'s JSON reply (`writeResponse`, `serializeVariant`, `sendVariantAsJson`) or `redirectClientToUseEncryption`. These appear as events or `Env` parameters, as does `allowAccessToClient`, a hook that subclasses override.
- HttpRouting.Route: a rewrite node in path mode routes the new path from the root again, which stands in for `HttpClient::invokePath`. Re-routing is bounded by `fuel`; when it runs out, the outcome is a failure marked `OutOfFuel`. The code has no bound and can recurse forever on rules that rewrite a path to itself.
- Static files are not modelled beyond the file-system checks. `sendStaticResource` consults `Env.opens` and `Env.seeks` for the file system. The MIME type header and the pipe itself are left out.
- `HttpNode` ownership is not modelled: `QObject` parents, deletion of a replaced root or a removed backend. The `connectSlot(receiver, slot)` overload is left out too, because it needs the meta-object system. `SlotInfo` is a value here, where the code shares one data block between copies.
- `RestfulHttpNode::registerAnnotatedHandlers`, `delayedRegisterMetaObject` and `registerMetaMethod` are not modelled; they read annotations through the meta-object system. `argumentNamesWithoutClient` is modelled on the parameter type names they would yield.
- HttpTypes.VerbIn: a negative verb mask is treated as allowing no verb. In C++ a negative `int` mask has its low bits set. Masks come from the `HttpVerb` flags and are never negative there.
- `HttpClient` pipes are not modelled: `pipeToClient`, `pipeFromPostBody` and the `QProcess` handling (`sendPipeChunkToClient`, `pipeToClientReadyRead`). Neither is its `QIODevice` read side (`readData`, `seek`, `atEnd`). `FilePiped` records only that a file was handed over and its length limit.
- `HttpClient` cookies are not modelled: `readRequestCookies`, `setCookie`, `removeCookie`, `cookies`. They are `QNetworkCookie` glue around the parser's `ParseCookies` and the writer's `WriteSetCookies`, which are modelled. The plain accessors and setters, such as `setResponseCode` and `setKeepConnectionOpen`, are left out; they only store a field.
- HttpClients.UrlPath: `QUrl` parsing is approximated as the text from the first '/' up to the first '?' or '#'. Percent-decoding and normalisation of the path are left out.
- HttpClients.Client.InvokeRequestedPath: whether routing succeeded is a parameter (`routed`). The transport's `readFromRemote`/`bytesSent` delegation is left out, as is `HttpClientPrivate`'s split into public and private parts.
- AbstractTransports.Transport.IncrementRequestCount: the request count is an unbounded integer, so the `int` overflow after 2^31 requests is not modelled. The traffic counters do wrap modulo 2^64, as `quint64` does.
- FastCgiReader.ReadNameValuePair: the bounds test adds the name and value lengths exactly. The code adds them as 32-bit `int`s, and lengths near 2^31 wrap. After that the code would read past the end and wrap the offset, and that path is not modelled. `OverflowingLengthsPass` shows that the 32-bit test lets such a pair through.
- JsonRpc.Dissect: numbers of the `Json` datatype are integers, where Qt holds them as `double`, so fractional or huge ids are not represented. The response builders that copy an id share this limit.
- StreamingJson.FeedSplit: chunking invariance is proved under stated conditions:
  - no error occurs;
  - no top-level scalar value ends exactly at the cut;
  - an escape is not left pending before an empty chunk.
  Outside them, feeding in two chunks can differ from feeding at once. A top-level scalar at the cut is queued and also stays buffered. An escape pending before an empty chunk is dropped.
- Multipart.SplitCrLf and Multipart.LineStartDecided: chunking invariance of the multipart reader is proved for two cases, not for every split of the body:
  - a content line split between its "\r" and "\n";
  - any step at a line start that the buffered bytes decide.
  The full statement over every split is not proved.
- `WebSocketPrivate::getFramePayload` is never called in the code, so it is not modelled.
- FastCgiBackends.Backend.IsListening: the listening socket is seen only as a flag.
- RewriteRules.IsDigit: only '0' to '9' count as digits. `QChar::isDigit` also accepts the other Unicode decimal digits, so in the code a backslash before one of those is a back-reference, while here it is plain text.
- QStrings.Less: keys are ordered by code point. `QString` compares UTF-16 code units, so for characters above U+FFFF, which are stored as surrogates, the order differs from the code's `QMap` key order.
- FastCgiTransports.Transport.StartClient: `preparePeerData` (src/private/fastcgitransport.cpp:233-243) is not modelled. It reads the local and peer addresses and ports from the FastCGI parameters, and the model's client carries no addresses.
- FastCgiThreadObjects.ThreadObject.AddSocket: a connection of kind `OtherDevice` is filed like any other. In the code `handleToDevice` returns a null device for it, with the comment "Must not happen" (src/private/fastcgithreadobject.cpp:69), and that null device would then be used. The backend never passes this kind, because its `AddConnection` and `AddToThread` require another kind.

## Findings

| source | as written | input that shows it | evidently intended | confidence | as-written member | corrected member |
|---|---|---|---|---|---|---|
| src/httpwriter.cpp:129-147 | the month table spells May "Mai", and the day is printed with `%i`, without padding | Thursday 15 May 2014 gives "Thu, 15 Mai 2014 08:30:00 GMT"; Friday 6 June 2014 gives "Fri, 6 Jun 2014 …" | an IMF-fixdate (section 7.1.1.1 of RFC 7231): "May", and a two-digit day | not executed | HttpWriter.MayIsMisspelled, HttpWriter.DayIsNotPadded | HttpWriter.HttpDateIsImfFixdate, HttpWriter.AddComplianceHeaders |
| src/private/fastcgireader.cpp:78-90 | a pair that fails to read has already moved the offset to the end, so the loop ends and reports success | a Params body of the single byte 5 (a name length with nothing after it) is accepted with no pairs | a truncated pair is refused; success exactly when whole pairs use up the body | not executed | FastCgiReader.TruncatedPairAccepted | FastCgiReader.ReadAllNameValuePairs |
| src/private/fastcgireader.cpp:60-76 | the bounds test adds the name and value lengths as 32-bit `int`s | bytes FF FF FF FF 80 00 00 01 (name length 0x7FFFFFFF, value length 1, nothing after) pass the test | the lengths compared exactly against the bytes left, so the pair is refused | not executed | FastCgiReader.OverflowingLengthsPass | FastCgiReader.PairInsideInput |
| src/private/fastcgithreadobject.cpp:216-219 | a known variable is answered with the value the request carried | FCGI_GET_VALUES asking for FCGI_MAX_CONNS with an empty value is answered with the empty value | the server's own value (section 4.1 of the FastCGI Specification 1.0) | not executed | FastCgiThreadObjects.AnswerEchoesRequest | FastCgiThreadObjects.AnswerGet, FastCgiThreadObjects.ThreadObject.ProcessGetValues |
| src/private/fastcgithreadobject.cpp:137-145 | the sender is cast to `QTcpSocket`, so data arriving on a local (pipe) connection is never read | any record arriving on a pipe connection | read the data of every connection the object owns | not executed | FastCgiThreadObjects.ThreadObject.ProcessDataAsWritten | FastCgiThreadObjects.ThreadObject.ProcessData |
| src/private/fastcgithreadobject.cpp:124-135 | the same cast skips pipe connections, and the connection count is never lowered | a pipe connection closing; any connection closing | drop every lost connection and count one fewer | not executed | FastCgiThreadObjects.ThreadObject.ConnectionLostAsWritten | FastCgiThreadObjects.ThreadObject.ConnectionLost |
| src/httpmultipartreader.cpp:137-140 | a failed reader is signalled once in the step and again at the end of `processData` | boundary "b", body "xxxxx" received at once: `completed(false)` twice | `completed` emitted exactly once | not executed | Multipart.BadFirstLineSignalsTwice | Multipart.ReceiveConsistent |
| src/httpmultipartreader.cpp:127-164 | `currentBuffer` starts null (line 55) and is set only once a part's headers are parsed. After a failure before that, `processData` keeps reading while bytes are available, and `processChunkStep` sends the failed reader to `processContent`, whose `appendToCurrentBuffer` calls `currentBuffer->pos()` (line 413) | boundary "b", a body of 4098 bytes starting with "x", all available at once: the first read of 4096 bytes fails the first line, and the second read appends to the null buffer | a failed reader reads no further content; no step reaches an unset buffer | not executed | Multipart.BufferlessFailureCrashesAsWritten | Multipart.ReadChunksNeverCrash, Multipart.StepsNeverCrash |
| src/httpmultipartreader.cpp:148-164 | the step loop runs whatever the state, so bytes after the last bounding line are parsed again | boundary "b", "\r\n--b\r\n" after the last bounding line: the reader goes from Complete back to Headers | a complete reader stays complete | not executed | Multipart.EpilogueReopens | Multipart.StepsConsistent |
| src/httpmultipartreader.cpp:356-362 | content without a line break is appended whole, a final "\r" included | boundary "b", content "x\r" then "\n--b--" in a second read: the last bounding line becomes content | hold the "\r" back until the next byte shows whether a line break starts | not executed | Multipart.SplitCrLfAsWritten | Multipart.SplitCrLf |
| src/httpmultipartreader.cpp:333-345 | after a line break it waits only for a bounding line's length, not counting a leading "\r\n" | boundary "b", "x\r\n\r\n--b-" then "-": the field's content gains "\r\n", which it does not when read at once | wait for two more bytes when the buffer starts with "\r\n" | not executed | Multipart.LineStartUndecidedAsWritten | Multipart.LineStartDecided |
| src/restfulhttpnode.cpp:209-212 | the walk decrements `end()` before checking for an empty map | a RESTful node with no handler receiving any request | fall back to plain routing | not executed | RestfulRoutes.EmptyTableWalk | RestfulRoutes.FindPattern, HttpRouting.EmptyRestfulNodeIsPlain |
| src/restfulhttpnode.cpp:400-407 | a path parameter reads the argument name at its own parameter index, which counts the client parameters too | handler `(HttpClient *client, int id)` with the argument names ["id"] reads past the end of the names | the i-th name goes with the i-th non-client parameter | not executed | RestfulRoutes.ClientFirstAsWritten | RestfulRoutes.ArgumentValues, RestfulRoutes.BindByOwnName |
| src/rewritehttpnode.cpp:141-144 | `section(0, index - 1)` with index 0 asks for section -1, the last one, so the parent path is the whole path | a sub-path rewrite node as root, path "/foo", rule "foo" to "bar": routes "/foo/bar" | an empty parent path at the root, routing "/bar" | not executed | RewriteRules.RootParentAsWritten | RewriteRules.RootTargetIsRewrittenPath |
| src/httpclient.cpp:465-474 | with the header incomplete, the bytes of a partial line are taken for body bytes | a request header arriving in two reads split inside a line: killed with 400 or 413 | wait for the rest of the line | not executed | HttpClients.Client.ReceivedDataAsWritten | HttpClients.Client.ReceivedData |
| src/httpnode.cpp:129-140 | `connectSlot` does not check the child nodes' names, which its declaration promises | a child "users" and `connectSlot("users", cb)`: accepted, though routing always reaches the child | refuse a name a child already has | not executed | HttpNodes.SlotShadowedExample, HttpNodes.SlotShadowedByChild | HttpNodes.Node.ConnectSlot |
