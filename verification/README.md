# cndl: the byte-stream engine, modelled and proved in Dafny

The project models how the server turns the bytes of a connection into requests, messages and back:

- `Frames`, `FrameBytes`, `Websockets`, `WebsocketRuns`, `WebsocketOrder`: the WebSocket frame format, in and out byte by
  byte, the incremental parser with its reassembly state, the frame senders, whole runs over a stream that arrives in
  arbitrary reads, and frames out of order.
- `Transmit`, `TransmitRuns`, `TransmitProgress`, `ConnectionOutput`, `EndToEnd`: the transmit queue with callbacks
  that write again, its byte counter, how it empties, and what the peer reads off the wire.
- `Wakeup`, `Closing`: the one-shot epoll interest, and the life of a connection up to the close of its socket.
- `Text`, `Requests`, `Escapes`, `FieldRoundTrips`, `UrlArguments`, `Parameters`, `Responses`, `HeaderLines`,
  `RequestRoundTrips`, `CookieRoundTrips`, `Multipart`: the HTTP parsers, the response printer, and what the parsers read
  back from printed lists, heads and bodies.
- `Http`, `HttpRuns`, `HttpTurns`, `HttpSlicing`, `HttpVersions`, `HttpForms`, `HttpHandshake`, `HttpEndToEnd`: cutting a
  stream into requests, the loop turn by turn, its slicing as written, the end of old connections, form posts and upgrades,
  and responses on the wire.
- `Connection`: the input buffer shared by both protocols and the switch between them.
- `Base64`, `Base64Alphabet`: the two regrouping loops, and every character they write and read.
- `Bytes`: bytes, big-endian numbers, exclusive or, 32-bit wrap-around.

Each parser, printer and queue operation is a function of values; the loops and the field updates are methods and
classes proved equal to those functions, and the theorems are about the functions. The socket is a list of answers of
the coming `send` calls (0 is would-block) and the reads of a run are an arbitrary list of chunks. A completion
callback is the finite tree of writes it makes. Handlers, routing and the upgrade handshake are arbitrary functions of
everything that happened before.

## Where the code does less than it means to

The code is modelled as it is. For each of these the project proves when it does what is meant.

- Websocket.cpp:18 waits for 6 bytes, an extended header needs 8 or 14. A read that ends in between makes a
  `substr` throw. `ChunkIndependence`, `SameAsWholeIff`, `CutHeaderThrows`.
- Websocket.cpp:66-88 does not keep the order of section 5.4 of RFC 6455: of the frames out of order only an unfinished
  text or binary frame is refused, and only while bytes are gathered. `OutOfOrderRefusedIff`, `BegunInside`,
  `DeliveredInside`, `ContinuedFromNothing`.
- ConnectionHandler.cpp:88-93 hands frames that came in the read of an upgrade on with the next read only.
  `UpgradeThenMessages`, `UpgradeKeeps`.
- HttpProtocol.cpp:103 drops the running total of the call instead of the header that was read. `CallRightIff`,
  `BodilessRightIff`, `CallRightByCoincidenceIff`, `RunRightIff`, `SecondInOneRead`, `PipelinedGets`, `OneAfterTheOther`.
- HttpProtocol.cpp:101 and 174-178: a header refused with 400 stays in view, and the loop answers it without end. `StuckIff`,
  `StuckAfterServing`, `RefusedInput`.
- HttpProtocol.cpp:167 reads a version after it was moved from. `OldClients`, `OnlyRefusalsEnd`, `OldGet`.
- ConnectionHandler.cpp:118 closes without a look at the queue. `CloseLosesBytesIff`, `CloseLosesBytes`. And where
  nothing had to wait it never comes to that branch: `DroppedClosesIff`, `NeverClosed`.
- ConnectionHandler.cpp:123-133 tests the queue under the lock and rearms outside it. `WindowLosesIff`, `LostWakeup`.
- Request.cpp:58-63 cuts npos to 32 bits: a list that ends in a delimiter fails. `ListRoundTrip`.
- Request.cpp:146-161 looks for the first '?' after unescaping the URL, and unescapes its arguments twice.
  `ResourceRightIff`, `UrlArgsRightIff`.
- Request.cpp:117 and 73 unescape cookies twice, the first time before they are cut apart. `CookiesArriveIff`,
  `ValuesIff`, `EscapedSemicolon`.
- Request.cpp:174-181 takes a content length of 2^64 and more as 0. `ContentLengthRightIff`.
- Websocket.cpp:161-173 lets a close frame exceed the limit of section 5.5 of RFC 6455. `CloseWithinControlLimit`.

## Model

| member | source | states |
|---|---|---|
| Frames.ReadSerialized | Websocket.cpp:22-64 | Section 5.2 of RFC 6455: every valid frame, in any length code, masked or not, is read back from its printed form whatever follows it, with the exact size. |
| Frames.SerializeRead | Websocket.cpp:22-64 | Conversely, what the reader takes is exactly the printed form of the frame it reports: reader and printer are inverse. |
| Frames.ReadAllConserves | Websocket.cpp:52-58 | Reading all complete frames loses nothing: printed again and followed by the rest they are the input, and the rest holds no complete frame. |
| Frames.ShortestFits | Websocket.cpp:121-135 | The sender's length code exists for every 64-bit length and no length code that fits is shorter. |
| Websockets.Websocket.OnDataReceived | Websocket.cpp:15-104 | One call over the fields does what `Feed` says: same fragment state, same handler calls, same close frames, same end, and the count as an `int`. |
| Websockets.FeedIsReadThenReact | Websocket.cpp:15-104 | Maximal exact consumption: the parser equals reading all complete frames first and reacting afterwards; the count is the size of exactly the frames handled, and unless closed the rest holds no complete frame. |
| Websockets.ReportedCount | Websocket.cpp:16-58 | The `int` count is exact if and only if it is below 2^31. |
| Websockets.ClosesOnce | Websocket.cpp:24-91 | A call drops the protocol if and only if its last handler call is onClose; there is never another one and exactly one close frame is sent. |
| Websockets.ReactCloses | Websocket.cpp:66-91 | A frame closes exactly if it is a final close frame (1000), or an unfinished text or binary frame while the fragments gathered so far are not empty (1002), and the code sent tells which. |
| WebsocketOrder.OrderlyIsPlayed | Websocket.cpp:66-101 | Frames in the order of section 5.4 of RFC 6455 are never refused, and the fragment buffer is at every moment what the open message has gathered. |
| WebsocketOrder.OutOfOrderRefusedIff | Websocket.cpp:66-88 | After any orderly frames, the first frame out of order is refused, with 1002, if and only if it is an unfinished text or binary frame and the open message has gathered at least one byte. |
| WebsocketOrder.BegunInside | Websocket.cpp:66-75 | An input: a second message begun behind an empty first fragment is accepted and takes its place. |
| WebsocketOrder.DeliveredInside | Websocket.cpp:85-88 | An input: a whole message inside an unfinished one is delivered ahead of it. |
| WebsocketOrder.ContinuedFromNothing | Websocket.cpp:77-84 | An input: a final continuation with nothing begun is delivered as a binary message. |
| Websockets.CloseFrameReads | Websocket.cpp:183-191 | The peer reads back the code and the reason from a close frame. |
| Websockets.CloseWithinControlLimit | Websocket.cpp:161-187 | A close frame keeps the 125-byte limit of section 5.5 if and only if its reason has at most 123 bytes. |
| Websockets.Websocket.Close | Websocket.cpp:161-192 | A reason over 125 bytes throws before anything happens; else onClose is called and one close frame is written. |
| Websockets.SendPing | Websocket.cpp:151-159 | Over 125 bytes nothing is sent; else one frame with a two-byte header. |
| Websockets.Send | Websocket.cpp:115-138 | The appended bytes are the printed frame with the shortest length code. |
| Websockets.Unmask | Websocket.cpp:60-64 | The in-place loop applies the key cyclically. |
| Bytes.XorBit | Websocket.cpp:60-64 | A bit of the exclusive or of two bytes is set if and only if it is set in one of them and not in the other. |
| FrameBytes.ArrivedIsRead | Websocket.cpp:22-64 | From the bytes: where header, key and payload stand in each of the three length forms, the frame is found, with exactly its size, and bit by bit the payload has the key taken off. |
| FrameBytes.FinalFrameIsTold | Websocket.cpp:76-101 | What the handler is told of every final frame, by the opcode in its first byte: message, ping, pong, the gathered fragments, or the close with 1000. |
| FrameBytes.PartIsGathered | Websocket.cpp:66-75 | What every unfinished frame adds to the gathered bytes and the opcode, or that it closes with 1002. |
| FrameBytes.BareFrameCloses | Websocket.cpp:18-27 | Fewer than six bytes wait; six bytes of a frame without a key close with 1002. |
| FrameBytes.SentBytes | Websocket.cpp:115-138 | Every byte of every frame that is sent: opcode and final bit, the length in each of its three forms, the payload. |
| FrameBytes.CloseBytes | Websocket.cpp:183-193 | The bytes of a close frame, code and reason. |
| FrameBytes.PingBytes | Websocket.cpp:151-159 | The bytes of a ping. |
| FrameBytes.MaskedHello | Websocket.cpp:15-104 | An input: the masked "Hello" of section 5.7 of RFC 6455 is delivered as that text. |
| WebsocketRuns.FeedSplits | ConnectionHandler.cpp:88-89 | A call on a + b equals a call on a followed by one on its rest and b. |
| WebsocketRuns.ChunkIndependence | Websocket.cpp:15-104 | For every split of every stream: the run throws if and only if some read ends inside an extended header; every other run gives the handler calls, end, state and kept bytes of one call on the whole stream. |
| WebsocketRuns.SameAsWholeIff | Websocket.cpp:18-50 | For a stream that one call takes, splitting makes no difference if and only if no read ends inside an extended header. |
| WebsocketRuns.CutHeaderThrows | Websocket.cpp:35-50 | Every frame with a 16- or 64-bit length, cut anywhere between its sixth byte and the end of its header, makes the parser throw, though it is taken whole. |
| WebsocketRuns.ShortFramesChunkIndependent | Websocket.cpp:15-58 | A client whose frames carry at most 125 bytes is understood the same way under every split. |
| WebsocketRuns.Reassembly | Websocket.cpp:66-101 | Section 5.4 of RFC 6455: any messages in any fragments, with pings and pongs before any fragment and behind the last message, are delivered as exactly those messages with their types, in order, controls in place, and the fragment buffer ends empty. |
| WebsocketRuns.PayloadConserved | Websocket.cpp:66-101 | For frames in any order, fragments of any kind mixed: what goes past the fragment buffer, and what goes through it with the rest still in it, reaches the handler byte for byte and in order, and nothing else does. |
| WebsocketRuns.DeliveredExactly | Websocket.cpp:15-104 | The same from the bytes of any client, under any keys and any safe split; the connection stays open if and only if the split is safe. |
| ConnectionOutput.Output.WriteBuffer | ConnectionHandler.cpp:48-61 | A write over the fields, callbacks re-entering it, is `Submit`; consistency is kept and the write is logged before all its callback writes. |
| ConnectionOutput.Output.OnWritable | ConnectionHandler.cpp:96-114 | The EPOLLOUT loop is `Drain`; afterwards the queue is empty if and only if the counter is zero. |
| ConnectionOutput.Output.Flush | ConnectionHandler.cpp:12-20 | The send loop gets as far as the answers of the socket let it. |
| TransmitRuns.SubmitConsistent | ConnectionHandler.cpp:48-61 | Every write keeps the invariant, whatever the callbacks it triggers write in turn. |
| TransmitRuns.DrainConsistent | ConnectionHandler.cpp:96-114 | So does working off the queue, through partial sends, re-entrant enqueues and removals. |
| TransmitRuns.Conservation | ConnectionHandler.cpp:48-114 | What is on the wire followed by the unsent parts of the queue is everything written, in lock order; the counter is the number of unsent bytes. |
| TransmitRuns.EveryRun | ConnectionHandler.cpp:12-114 | For every run of writes, partial sends and EPOLLOUT steps, from a fresh connection (`InitialConsistent`) or any state of a run: conservation, exact counter, and the callbacks that ran are exactly those of the completed writes, in order, each when the wire held the writes up to its own and no byte more. |
| TransmitRuns.SubmitLogs | ConnectionHandler.cpp:48-61 | A write enters the order before the writes of its own callback. |
| TransmitRuns.EveryWriteLogged | ConnectionHandler.cpp:12-114 | In every run each write made from outside, and each made by a callback that ran, enters the order once, and nothing else does. |
| TransmitProgress.EveryByteDue | ConnectionHandler.cpp:12-114 | In every run: what is on the wire, what waits and what the waiting callbacks will write are together all bytes written from outside and by their callbacks. |
| TransmitProgress.DrainProgress | ConnectionHandler.cpp:99-114 | Whatever the callbacks write: a step whose first send takes a byte empties the queue or lowers the bytes due, and no step raises them. |
| TransmitProgress.FairSocketDrains | ConnectionHandler.cpp:96-114 | A socket that takes at least one byte per EPOLLOUT empties the queue within as many steps as bytes are due, with all callbacks and all they write, and then all of it is on the wire. |
| TransmitProgress.EmptiedIff | ConnectionHandler.cpp:96-114 | An EPOLLOUT step empties the queue if and only if the answers before the first would-block accept all bytes due. |
| TransmitProgress.DrainTakes | ConnectionHandler.cpp:12-20 | The wire grows by exactly what the answers accept of the buffers in the order in which they are offered. |
| Closing.CloseLosesBytesIff | ConnectionHandler.cpp:96-120 | When the socket is closed, bytes are lost if and only if its answers before the first would-block accept fewer bytes than were due before the branch. |
| Closing.CloseLosesBytes | ConnectionHandler.cpp:63-120 | A run from the accepted connection that closes the socket with one of two written bytes on the wire. |
| Closing.DroppedClosesIff | ConnectionHandler.cpp:96-134 | After the protocol is dropped, some run of the handler closes the socket if and only if a job waits. |
| Closing.NeverClosed | ConnectionHandler.cpp:63-135 | With nothing waiting then, no sequence of handler runs ever closes it or changes anything. |
| Closing.AlwaysAtRest | ConnectionHandler.cpp:51-134 | In every run the interest says between handlers exactly whether a job waits, and bytes, order and counter are kept. |
| Wakeup.OneShot | ConnectionHandler.cpp:59-71 | A reported event disarms the descriptor and is reported to a resting handler alone; none follows before the rearming. |
| Wakeup.NoLostWakeup | ConnectionHandler.cpp:51-60 | In every run in which no write that has to queue falls between a test that saw an empty queue and the rearming, a waiting job has EPOLLOUT armed whenever the handler rests. |
| Wakeup.RunConsistent | ConnectionHandler.cpp:51-134 | Whatever falls in between, every state of every run keeps bytes, order and counter. |
| Wakeup.WindowLosesIff | ConnectionHandler.cpp:123-134 | After test, any writes, rearm: waiting bytes are armed if and only if the test saw a job, or the answers of the socket to each write in between accept all of it and all that its callbacks write. |
| TransmitProgress.SentAtOnceIff | ConnectionHandler.cpp:48-61 | A write to an idle connection leaves nothing waiting if and only if the answers before the first would-block accept its bytes and those of all its callbacks, nested ones included. |
| Wakeup.LostWakeup | ConnectionHandler.cpp:123-134 | A run of four steps that loses the wakeup. |
| EndToEnd.PeerReadsPrefix | Websocket.cpp:115-138 | At every moment the peer, reading by the same length rules, finds exactly the frames of the completed writes, and the sent part of the next one behind them. |
| EndToEnd.SendsArrive | Websocket.cpp:115-138 | For any sends and any schedule of the socket, the payloads read are a prefix of those sent, and all of them once the queue is empty. |
| Requests.UrlUnescape | Request.cpp:10-31 | The loop computes `Unescape`, with its leniencies and its two kinds of failure. |
| Requests.ExtractFieldVals | Request.cpp:42-85 | The loop over 32-bit positions computes `FieldVals`. |
| Requests.ParseFields | Request.cpp:87-121 | The loop computes `ReadFields`: first bad line, first failure. |
| Requests.ParseHeader | Request.cpp:123-195 | Filling the header field by field computes `ReadHeader`, including the wrapped length of the version. |
| FieldRoundTrips.UnescapeEscape | Request.cpp:10-31 | Section 2.1 of RFC 3986: unescaping an escaped text followed by anything gives the text and the unescaped rest. |
| FieldRoundTrips.UnescapeFixedIff | Request.cpp:10-31 | A text is left alone if and only if it holds no percent sign. |
| Escapes.HexValues | Request.cpp:22-23 | The digits are '0' to '9' and the letters of both cases, each with its value; no other byte is one. |
| Escapes.PairMeans | Request.cpp:22-27 | Two bytes behind a percent sign: two digits, one digit and anything else, or a minus sign and a digit, and what each of them means. |
| Escapes.SpellingReads | Request.cpp:10-31 | Every way to write a text with such escapes is read back, with what follows it. |
| Escapes.UnescapeIff | Request.cpp:10-31 | A text is read as another if and only if it is such a way to write it. |
| Escapes.UnescapeFailsIff | Request.cpp:19-26 | It fails in a way if and only if, behind a part that is read, a percent sign begins no escape, cut off after one digit or otherwise. |
| FieldRoundTrips.ReadList | Request.cpp:58-82 | Any list of clean chunks is read chunk by chunk; a closing delimiter, with or without blanks, is an out-of-range failure. |
| FieldRoundTrips.BlanksBehind | Request.cpp:61-70 | Blanks between a chunk and its delimiter make no difference. |
| FieldRoundTrips.NothingEnds | Request.cpp:64-70 | A delimiter with nothing but blanks in front of it ends the list, whatever follows. |
| FieldRoundTrips.ListRoundTrip | Request.cpp:42-85 | Key/value lists over all byte strings, escaped and joined, are read back as they were if and only if no delimiter closes them. |
| UrlArguments.UrlArgsRightIff | Request.cpp:150-170 | URL arguments, flags without a value among them and a fragment behind them, arrive as they were written if and only if none of them holds a percent sign. |
| UrlArguments.ArgsTextIs | Request.cpp:150-153 | The arguments stand behind the first '?', up to a '#' or the end of the URL; without a '?' there are none. |
| Responses.Serialize | Response.cpp:242-281 | The appends give the printed response. |
| HeaderLines.FieldLineIs | Response.cpp:262-267 | A field is written as name, colon, space and value. |
| HeaderLines.NumberIs | Response.cpp:252 | Numbers are written in decimal digits without a zero in front, status codes as their three digits. |
| HeaderLines.PrintedOk | Response.cpp:242-281 | An output: the bytes of a 200 response with one field and a body. |
| Responses.FirstEmptyLine | HttpProtocol.cpp:98-104 | The first CRLFCRLF behind clean lines is the one that ends them. |
| Responses.ReadPrintedFields | Request.cpp:87-121 | parse_fields on printed fields gives all of them, in order, names in lower case. |
| Responses.ContentLengthRightIff | Request.cpp:174-181 | A printed length is taken as it is if and only if it is below 2^64; every longer one is taken as 0. |
| Responses.ParsePrinted | Request.cpp:123-195 | parse_header on a printed response cut at its first empty line recovers version, code, reason, fields and the length of the body. |
| Responses.LengthIsAdded | Response.cpp:262-279 | A length is written with a body if and only if no field of exactly that name is set, and never a second one. |
| Responses.OwnLengthRightIff | Response.cpp:269-279 | A response with a length of its own is read with that length; its body is cut off in the right place if and only if the length is that of the body. |
| Responses.ReadThreeParts | Request.cpp:123-195 | Any three parts on a first line land each in its place, whatever lines follow; failures are those of the escapes in the second part, of its arguments, and of the lines, in this order. |
| HeaderLines.FirstLineIs | Request.cpp:128-148 | The first line of every request with a line break and two spaces, byte by byte, also where the second space stands behind the first line and the version becomes all that follows. |
| HeaderLines.FirstLineIsRefused | Request.cpp:128-141 | All other requests are refused with 400. |
| HeaderLines.LineIsRead | Request.cpp:96-117 | A field line: what stands in front of the first colon, in lower case, and what stands behind it without white space around it, both without escapes. |
| HeaderLines.LineCases | Request.cpp:97-114 | Every line either has that form or lacks a colon, a name or a value, or has white space in its name, and is refused with 400. |
| HeaderLines.LowerIs | Request.cpp:33-36 | Lower case maps 'A' to 'Z' to 'a' to 'z' and no other byte. |
| HeaderLines.FieldsAre | Request.cpp:90-120 | The lines are read one by one; what stands behind the last line break is passed over. |
| HeaderLines.ContentLengthIs | Request.cpp:174-181 | Any zeros, any number and anything but a digit behind it are taken as the number, or as 0 from 2^64 on; what does not begin with a digit is refused with 400. |
| HeaderLines.LengthOfRequest | Request.cpp:174-181 | A request whose content length is refused is refused with it; without that field its length is 0. |
| HeaderLines.CookiesAre | Request.cpp:183-192 | Every cookie field adds its pairs to those of the fields before it. |
| HeaderLines.LookupIs | Request.cpp:174-175 | `find` as it is modelled: the first field of a name. |
| RequestRoundTrips.ReadRequest | Request.cpp:123-195 | A printed request with any path, one argument or more, with or without values, a fragment or none, and clean fields is read back: method, URL, version, fields, length; the arguments if and only if none holds a percent sign, the resource if and only if the path holds no '?'. |
| RequestRoundTrips.ReadPathRequest | Request.cpp:123-195 | The same for a request without arguments. |
| RequestRoundTrips.ResourceRightIff | Request.cpp:146-147 | The resource is the path that was written if and only if that path holds no '?', escaped or not. |
| CookieRoundTrips.ReadCookieHeader | Request.cpp:87-195 | From the header line on, for every list of keys and values: the cookies are what extractFieldVals makes of the list without its escapes, or the request fails as that does. |
| CookieRoundTrips.CookiesArriveIff | Request.cpp:87-192 | From the header line to the map: cookies of distinct keys arrive as they were written if and only if each is intact (no percent sign, delimiter, quotes around it or blank at its ends; no '=' in a key); intact ones always do. |
| CookieRoundTrips.ValuesIff | Request.cpp:183-192 | The list that extractFieldVals makes of a field without its escapes is the list written if and only if all entries are intact, keys distinct or not. |
| CookieRoundTrips.EscapedSemicolon | Request.cpp:117-192 | An input: a cookie value of one escaped semicolon is answered with 500 and ends the protocol. |
| HttpRuns.ResponsesSplit | HttpProtocol.cpp:98-114 | Printed responses joined together are cut apart again by the framing rule of the request parser. |
| HttpRuns.SplitIsUnique | Response.cpp:242-281 | Equal bytes come from equally many responses, equal in version, code, reason, body and fields but for the letter case of field names. |
| Multipart.ReadMultipartBody | Request.cpp:198-258 | The loop computes `ReadBody`; its index strictly grows. |
| Multipart.BodyRoundTrip | Request.cpp:198-258 | Section 5.1.1 of RFC 2046: a body whose boundary stands only where a delimiter puts it is read as its parts, every name, field and byte of content, even when contents hold empty lines. |
| Multipart.BodyIs | Request.cpp:202-204 | A body is read from behind the first place where its boundary stands; without one it has no parts. |
| Multipart.PartIs | Request.cpp:222-252 | A part is cut at its first empty line. |
| Multipart.PartIsRefused | Request.cpp:222-225 | A part without an empty line is refused with 400. |
| Multipart.DescribeIsRefused | Request.cpp:228-239 | So is one without a disposition, or without a pair "name" in it. |
| Multipart.FormPartDescribed | Request.cpp:226-252 | Every form part with a plain disposition, whatever parameters stand before and behind its name, and any clean further fields meets what the round trip asks of parts. |
| Multipart.FormRoundTrip | Request.cpp:198-258 | Together: any list of form parts under such a boundary is read back, names, every parameter such as a file name, header fields and contents, in order. |
| Multipart.NameIs | Request.cpp:233-239 | A part is named by the first pair whose key is "name". |
| Multipart.ValFieldsAre | Request.cpp:241-247 | Every value of the disposition becomes a field: a pair with its key and value, a single text with an empty value. |
| Parameters.ReadValue | Request.cpp:42-85 | A header value of a word and parameters, in quotes or not, is read as that word and those parameters, in order. |
| Multipart.SeparatedIff | Request.cpp:202-217 | A boundary stands only where the delimiters put it if and only if it does so behind each part taken alone. |
| Multipart.PlainBoundaryArrives | Request.cpp:198-258 | So a form arrives (any boundary line that does not begin with a dash is plain: `BoundaryWithoutDash`) if its boundary is one line, occurs in no part and in the preamble not too early, and is not found early behind its own dashes. |
| Http.HttpProtocol.OnDataReceived | HttpProtocol.cpp:88-188 | One call over the `header` field does what `Call` says, line 103 as written. |
| HttpRuns.ScanSplits | HttpProtocol.cpp:94-173 | With the header alone dropped, a call on a + b equals a call on a followed by one on its rest and b. |
| HttpRuns.ChunkIndependence | HttpProtocol.cpp:88-188 | With the header alone dropped, every split of every stream gives what one call gives: actions, end, pending header, kept bytes. |
| HttpRuns.RequestsInOrder | HttpProtocol.cpp:88-188 | And for a stream of requests and any part of a next one that is handling those requests one at a time, in order, and being in the middle of the next: each is handled once, with its last byte. |
| HttpRuns.OneResponseEach | HttpProtocol.cpp:159-185 | Every request handled gets exactly one response. |
| HttpVersions.OldClients | HttpProtocol.cpp:157-169 | From the bytes of answered requests: if a moved-from version reads empty, the protocol outlives every HTTP/1.0 request and answers all; if it kept its value, it would end exactly behind the first. |
| HttpVersions.OnlyRefusalsEnd | HttpProtocol.cpp:157-185 | If it reads empty, requests of any kind drop the protocol if and only if the last thing written is a refusal with 500 or more. |
| HttpVersions.OldGet | HttpProtocol.cpp:157-169 | An HTTP/1.0 request that is answered and leaves the protocol in place. |
| HttpSlicing.SliceIsRightIff | HttpProtocol.cpp:102-103 | Line 103 leaves the right bytes if and only if nothing was consumed before in the call. |
| HttpSlicing.CallRightIff | HttpProtocol.cpp:94-173 | A call in which no third header ends does what it is meant to do if and only if, where a second one ends, at least as many bytes stand behind it as were consumed before it, and, if its body is there, the body shifted by that many bytes is there, too, and is handled the same way. |
| HttpSlicing.BodilessRightIff | HttpProtocol.cpp:94-114 | If the second request has no body or its body is still to come, that is if and only if as many bytes stand behind its header as were consumed before it; else it is refused and the protocol ended. |
| HttpSlicing.CallRightByCoincidenceIff | HttpProtocol.cpp:94-173 | With more headers behind a complete second body it is right if and only if the shifted body leads to the same events, and what is read behind it does, too. |
| HttpSlicing.RunRightIff | HttpProtocol.cpp:94-114 | A run in which no read brings a second body, or a third header, is as it is meant to be if and only if every read with a second header has that many bytes behind it. |
| HttpSlicing.SecondInOneRead | HttpProtocol.cpp:94-114 | For every first request, second head and bytes behind it in one read: the second request is refused with 500 if and only if those are fewer than the first request has; else its body starts that many bytes too late. |
| HttpSlicing.PipelinedGets | HttpProtocol.cpp:94-114 | An input: two GET requests in one read, with too few bytes behind the second header; the second is refused with 500. |
| HttpRuns.KeptUntilLast | HttpProtocol.cpp:94-118 | As long as a read of the last request is missing, requests that keep the protocol keep it, at every read of the run. |
| HttpRuns.OneAfterTheOther | HttpProtocol.cpp:94-114 | As written: when no read spans two requests, each is handled exactly as on its own, however its bytes were cut. |
| HttpTurns.StuckIff | HttpProtocol.cpp:94-186 | The loop of a call never ends if and only if it comes, after serving some requests, to a header refused with 400; every further turn then writes one more 400 and changes nothing else. |
| HttpTurns.Progress | HttpProtocol.cpp:94-173 | Every other turn leaves the loop, or shortens what is ahead and writes exactly one response. |
| HttpTurns.TurnsToEnd | HttpProtocol.cpp:88-188 | A call that ends does so within as many turns as bytes in view, and one or two more, with the state, count and events that `Call` says. |
| HttpTurns.RefusesForever | HttpProtocol.cpp:174-178 | Any number of turns on a refused header: as many 400 responses, the same bytes in view. |
| HttpTurns.StuckAfterServing | HttpProtocol.cpp:88-188 | Requests in reads of their own and then a refused header: the loop never ends if and only if no request ended the protocol; all of them were answered before. |
| HttpTurns.RefusedInput | HttpProtocol.cpp:94-178 | An input: a line without a space, answered with 400 in every turn. |
| HttpForms.FormPostIsDispatched | HttpProtocol.cpp:119-164 | A form post leads to one call of the dispatcher, with every part under its name and the body as sent, then to its response, and nothing else. |
| HttpForms.FormPostArrives | HttpProtocol.cpp:119-164 | The same from the text of the content type and from form parts under a plain boundary. |
| HttpForms.ContentTypeIs | HttpProtocol.cpp:119-147 | Every content type: an empty one fails, a multipart one without a boundary fails, the first boundary takes the body apart, any other type leaves it alone. |
| HttpForms.NoBoundaryIsRefused | HttpProtocol.cpp:124-139 | A multipart post without a boundary is answered with 400, and the protocol stays. |
| HttpForms.FailureIsAnswered | HttpProtocol.cpp:174-185 | Behind a complete body a bad request is answered with 400 and keeps the protocol; out of range is answered with 500 and ends it. |
| HttpForms.UpgradeIff | HttpProtocol.cpp:149-160 | A request is an upgrade if and only if a word of its connection field is "upgrade", letter by letter, in any case. |
| HttpHandshake.HandshakeSwitchesIff | HttpProtocol.cpp:94-164 | From the bytes of a request with a connection field: the protocol is switched if and only if a word of it is "upgrade"; else the request goes to the dispatcher. |
| HttpHandshake.GetUpgrade | HttpProtocol.cpp:149-160 | An input: the bytes of a GET with "Connection: Upgrade" switch the protocol. |
| Connection.Input.OnReadable | ConnectionHandler.cpp:73-94 | An EPOLLIN event over the fields is `Read` of every byte that its recv calls deliver, up to the first that fills less than the buffer; no byte is lost. |
| Connection.Input.Receive | ConnectionHandler.cpp:74-87 | The recv loop appends what every call delivers, a short last one included, and stops exactly behind the first short one or at would-block. |
| Connection.RunConserves | ConnectionHandler.cpp:73-94 | In every run, through a protocol switch and up to an exception, the bytes consumed followed by those kept are the bytes received. |
| Connection.HealthIff | ConnectionHandler.cpp:73-94 | A connection hangs if and only if its HTTP call never ends and throws if and only if its WebSocket call does; from then on, and once the protocol is gone, nothing is read. |
| Connection.UpgradeThenMessages | ConnectionHandler.cpp:88-93 | From the first byte: requests one after the other, an upgrade, frames that came with it in its read, then messages in any fragments and safe reads. The HTTP side did what the requests ask; the handler saw exactly the messages if and only if a further read came or nothing was sent. |
| Connection.UpgradeKeeps | HttpProtocol.cpp:159-187 | Bytes behind an upgrade in its read, any bytes, are kept for the WebSocket and seen by nobody until the next read. |
| HttpEndToEnd.RequestsToResponses | HttpProtocol.cpp:88-188 | Requests in, any schedule of the socket out: at every moment the wire is a prefix of the answers in the order of the requests, and the client cuts it into exactly the completed ones. |
| Base64.Encode | base64.cpp:24-52 | The loop over the wrapping accumulator computes the regrouping of section 4 of RFC 4648. |
| Base64.Decode | base64.cpp:54-84 | So does the decoding loop, up to the first character that is no digit. |
| Base64.RoundTrip | base64.cpp:24-84 | Decoding undoes encoding for every byte string. |
| Base64.EncodedAppend | base64.cpp:24-52 | Behind a multiple of three bytes, the encodings join. |
| Base64.EncodedShape | base64.cpp:30-49 | Four characters for every three bytes begun, with exactly the right number of '=' at the end. |
| Base64Alphabet.EncodedIs | base64.cpp:10-49 | Every character of every encoding, by the bytes it stands for and the alphabet of section 4 of RFC 4648, the last group included. |
| Base64Alphabet.DigitIff | base64.cpp:56-61 | The value of every character: its place in the alphabet, or 62, 63 and 0 for '-', '_' and '<'. |
| Base64Alphabet.DecodedIs | base64.cpp:66-82 | Every byte of everything that is decoded, by the digits in front of the first character that is none. |
| Base64.ShiftIn | base64.cpp:36-38 | The wrapping shift keeps the pending bits as long as they fit in 32 bits. |

## Left out

- Sockets, epoll, timers, automatic pings, accept loops: input and output; a would-block answer is kept, fatal errors of send and recv are not.
- Closing: writes that fall into the middle of a running handler, and events of an error or of the peer's close, which close the socket as well.
- Two event handlers of one connection at a time: a write arms the descriptor while the handler still runs; here one handler runs at a time and only writes fall in between.
- The iterator held across a callback in ConnectionHandler.cpp:100-113: the front job is taken by index, as the code means.
- ConnectionHandler::close inside a completion callback: a send on a closed socket is a fatal error of the operating system.
- Callbacks that never return or write forever: a callback is a finite tree of writes.
- Websockets.Websocket.OnDataReceived: the bytes of an extended length that the parser reads behind a view that is too short are not modelled; the substr that follows throws in every such case.
- Requests.UrlUnescape: the byte behind the view, read for an escape cut short, is taken to be no hexadecimal digit and no minus sign, which holds for every call in the repository.
- Requests.ExtractFieldVals: texts of 2^32 - 1 bytes and more, where the 32-bit position wraps around, are excluded.
- Requests.ParseFields: the same, for its 32-bit position.
- Requests.ParseHeader: the same, as it hands its text on to both.
- Multipart.ReadMultipartBody: the same, for the header of a part.
- Http.HttpProtocol.OnDataReceived: views of 2^31 bytes and more, where the `int` count overflows, are excluded.
- Connection.Input.OnReadable: the same, for the bytes kept and read.
- Hash order: header fields are a list in the order of the text, and `find` takes the first field of a name; which one the unordered map returns is not specified.
- The order in which a key and its value are unescaped, when both fail in different ways: the key comes first.
- Responses.ParsePrinted: parts with percent signs and cookies are excluded, as the two grammars differ there; a length of the handler's own has `OwnLengthRightIff`.
- HttpSlicing.RunRightIff: runs in which one read brings a second body or a third header are left to the statements about single calls.
- SHA1 and the contents of the handshake, regular expressions and routes, static files, dates, the tables of reason phrases and content types, setCookie: library calls and lookups that add only easy claims.
