# Verified model of foxreq

This Dafny project models the parts of foxreq that keep state across calls, and proves what they promise. foxreq
sends HTTP requests with the TLS fingerprint of a Firefox build; around its HTTP/1.1 engine stand a native TLS
runtime, worker threads and processes, and tools that capture and compare ClientHello messages.

`dafny verify dfyconfig.toml` checks everything.

## Approach

Code that changes state step by step is written as methods and classes over that state. Each is proved against a
specification function of its inputs, and the promises are proved of that function. Protocols between threads or
processes are step relations, with invariants proved over every run.

**HTTP/1.1 responses.** `ResponseModel` is a parser that takes one octet at a time; `ResponseParsing` is the real
one, with a line buffer that survives calls and three bulk-copy branches, and it refines the first. Independence
of fragmentation and the invariants are proved of the octet machine. `ResponseGrammar` then says what a response
message is without reference to any parser, and `ResponseMessages` shows that the parser reads exactly those
messages, with exactly the response they spell, and that no text has two readings.

**HTTP/1.1 requests.** `RequestWriter` is the serializer with its loops and fixed buffers; `RequestDecoder` is a
strict receiver written independently. Requests are self-delimiting, with one exception that is a property of the
code: a chunked body for which the caller also supplies a Content-Length passes `validate_framing`, and is sent
with both framing fields. `FramingFieldsSent` states the exact condition, `RequestRoundTrip` holds if and only if
that case does not arise, and `BothFramingFieldsAccepted` is a concrete request.

**The client.** `Client` runs both over pooled streams whose reads and writes may be short, fail, or overreport.
Every pooled stream is *aligned*: what was written are the serialized requests in order, what was read are exactly
that many messages, and the k-th response is the k-th message. The pool neither loses nor duplicates a connection.

**TLS capture.** `CaptureModel` and `Capture` treat the ClientHello accumulator as the parser is treated: an octet
machine, a class that refines it, independence of fragmentation, and agreement with the strict parser of
`ClientHelloParser` in both directions. `ClientHelloCodec` proves that parser to be the inverse of an encoder.

**Lifecycles.** `NssRuntime` and `NssLifecycle` cover the process-global NSS runtime with its two levels of
reference counts, `NssConnection` the ownership of one connect call, `Worker` the native session thread, including
that every call returns, and `Ipc` and `WorkerSession` the parent and its profile worker processes. One finding is
stated exactly: a request that finds its child already exited with a non-zero status fails without discarding the
process, and so does every later request until the session is closed. The only other failure that keeps the process
is an exception that the parent does not handle; it may leave a reply behind, which the id check then refuses.

**Trust anchors.** `TrustAnchors` and `NssRuntime.DeliverAnchors` follow anchors through the parent's frame body, the
child's decoder, the native bundle, the C validator and the install loop, which checks no bounds itself.

**Evidence.** `Permutation` and `ProfileComparison` prove the extension-order policy exact and equal to the check of
the frozen baselines; `Fingerprints` characterises when two raw JA3 or JA4 strings are equal and what JA4 ignores.

`Bytes`, `Numerals`, `BigEndian`, `Sorting`, `DelimitedText` and `WireReader` hold what these share. A Rust `usize` is a
64-bit word; Python integers are unbounded.

## Model

| member | source | states |
|---|---|---|
| ResponseModel.StepKeepsValid | crates/foxreq-core/src/http1/response.rs:113-128 | Every octet that does not raise an error keeps the parser invariant: line, head, trailer and body octets and header, trailer and informational counts within their limits, body length plus `remaining` within the body limit, `offset` equal to line start plus line length plus pending CR in line states, and no pending CR in a body state |
| ResponseModel.RunKeepsValid | crates/foxreq-core/src/http1/response.rs:151-307 | The invariant holds after any input, for all limits and request semantics |
| ResponseModel.ReachedIsValid | crates/foxreq-core/src/http1/response.rs:151-315 | Every state a new parser reaches, however it is fed, satisfies the invariant and has counted exactly the octets fed; end of input then completes it exactly in a close-delimited body |
| ResponseModel.EofGuardIsRedundant | crates/foxreq-core/src/http1/response.rs:309-315 | In every valid state the `pending_cr` guard of `finish_eof` changes nothing |
| ResponseModel.FragmentationIndependence | crates/foxreq-core/src/http1/response.rs:151-307 | For every cutting of every input, feeding the pieces gives the outcome of feeding the whole: the same response or the same error kind at the same offset, with the same number of octets consumed |
| ResponseModel.RunConcat | crates/foxreq-core/src/http1/response.rs:151-307 | Reading one text and then another is reading their concatenation, from any parser state |
| ResponseModel.RunShift | crates/foxreq-core/src/http1/response.rs:151-307 | A run depends only on the octets still to be read, not on where they stand |
| ResponseModel.RunWithin | crates/foxreq-core/src/http1/response.rs:151-307 | A completed run is the same whatever follows the octets it read |
| ResponseModel.BulkBody | crates/foxreq-core/src/http1/response.rs:185-203 | Copying k octets of a fixed or chunk body at once equals k single-octet steps |
| ResponseModel.BulkBodyLast | crates/foxreq-core/src/http1/response.rs:228-243 | A bulk copy that ends the body equals the single-octet steps, including the state or completion it ends in |
| ResponseModel.BulkClose | crates/foxreq-core/src/http1/response.rs:282-303 | The close-delimited bulk branch, which checks the limit first and computes the error offset, equals octet-by-octet copying that fails at the first octet over the limit |
| ResponseParsing.ResponseParser.Feed | crates/foxreq-core/src/http1/response.rs:151-307 | One `feed` over the mutable parser ends in the state, result, error offset and consumed count of the octet machine run over the same input |
| ResponseParsing.ResponseParser.Eof | crates/foxreq-core/src/http1/response.rs:309-315 | End of input completes a close-delimited body and is an error in every other state |
| ResponseParsing.ResponseParser.ReadLine | crates/foxreq-core/src/http1/response.rs:317-374 | The line loop, which may stop and resume inside a line and between CR and LF, delivers the line or error the octet machine delivers, after the same octets |
| ResponseParsing.ResponseParser.TakeLineByte | crates/foxreq-core/src/http1/response.rs:317-374 | One round of the line loop is one step of the octet machine |
| ResponseParsing.ResponseParser.EnsureLineFits | crates/foxreq-core/src/http1/response.rs:376-399 | The limit of a line is checked before the octet is stored, with the error kind and offset of the section it belongs to |
| ResponseParsing.ResponseParser.TakeStatusLine | crates/foxreq-core/src/http1/response.rs:436-481 | A status line becomes the current head or the error at its start that the specification gives |
| ResponseParsing.ResponseParser.ApplyHeaderSemantics | crates/foxreq-core/src/http1/response.rs:549-603 | Content-Length, Transfer-Encoding and Connection fields change the current head, or fail, as the specification gives |
| ResponseParsing.ResponseParser.TakeHeaderLine | crates/foxreq-core/src/http1/response.rs:483-547 | A header or trailer line is appended in order, with its semantics applied, or fails at its start |
| ResponseParsing.ResponseParser.FinishHead | crates/foxreq-core/src/http1/response.rs:605-692 | The empty line after a head discards an informational head, completes a message without body, or selects the one body framing |
| ResponseParsing.ResponseParser.TakeChunkSize | crates/foxreq-core/src/http1/response.rs:204-227 | A chunk-size line opens a chunk of exactly that size within the body limit, or the trailer section for size zero |
| ResponseParsing.ResponseParser.TakeLine | crates/foxreq-core/src/http1/response.rs:158-184 | What a complete line does in each line state |
| ResponseParsing.ResponseParser.CopyBody | crates/foxreq-core/src/http1/response.rs:189-193 | A bulk copy appends exactly the next octets and advances the offset by their number |
| ResponseParsing.ResponseParser.TakeFixed | crates/foxreq-core/src/http1/response.rs:185-203 | A round of the fixed-body branch |
| ResponseParsing.ResponseParser.TakeChunkData | crates/foxreq-core/src/http1/response.rs:228-243 | A round of the chunk-data branch |
| ResponseParsing.ResponseParser.TakeTerminator | crates/foxreq-core/src/http1/response.rs:244-266 | CR and LF after chunk data, possibly in different pieces; any other octet fails at its own offset |
| ResponseParsing.ResponseParser.TakeClose | crates/foxreq-core/src/http1/response.rs:282-303 | A round of the close-delimited branch |
| ResponseParsing.ResponseParser.CompleteResponse | crates/foxreq-core/src/http1/response.rs:709-722 | The response is moved out, and the parser is done |
| ResponseParsing.ReadOptions | crates/foxreq-core/src/http1/response.rs:590-600 | The loop over Connection tokens records exactly the options named, or fails on an empty or non-token piece |
| ResponseGrammar.StatusLineExact | crates/foxreq-core/src/http1/response.rs:436-481 | A status line parses to a version, code and reason if and only if it is the line that spells them |
| ResponseGrammar.FieldLineSound | crates/foxreq-core/src/http1/response.rs:483-547 | Every accepted field line is a token, a colon and field octets, the value being what is left without surrounding whitespace |
| ResponseGrammar.FieldLineComplete | crates/foxreq-core/src/http1/response.rs:483-547 | Every such line is accepted with that name and value |
| ResponseGrammar.FieldMeaning | crates/foxreq-core/src/http1/response.rs:549-603 | One more field is accepted exactly when the fields read so far still agree on framing, and the head then knows exactly what they declare |
| ResponseMeaning.NextLine | crates/foxreq-core/src/http1/response.rs:317-374 | If a run from the start of a line completes later, a whole line within the limits, ended by CRLF, stands there, and the run is what the parser does with that line and then with what follows it |
| ResponseMessages.FinishMeaning | crates/foxreq-core/src/http1/response.rs:605-692 | The body kind chosen at the end of a final head is the one the declared fields prescribe, in the order of section 6.3 of RFC 9112 |
| ResponseMessages.ParserSound | crates/foxreq-core/src/http1/response.rs:151-315 | If the parser completes, the octets read are a message of the grammar: at most the allowed number of informational heads, one final head with its fields in order, and the body its framing prescribes; the response is what it spells; only a close-delimited message completes at end of input |
| ResponseMessages.ParserComplete | crates/foxreq-core/src/http1/response.rs:151-315 | Every message of the grammar within the limits is read to its last octet and no further, whatever follows, and yields the response it spells |
| ResponseMessages.MessagesAreUnambiguous | crates/foxreq-core/src/http1/response.rs:151-315 | Two messages of the grammar that stand at the start of one input have the same octets and the same response |
| Chunked.ReadChunkSize | crates/foxreq-core/src/http1/chunked.rs:7-27 | The chunk-size line parser with its scanning loops computes the specification function |
| Chunked.CheckExtensions | crates/foxreq-core/src/http1/chunked.rs:29-76 | The extension loop accepts exactly what the specification accepts |
| Chunked.SkipExtension | crates/foxreq-core/src/http1/chunked.rs:29-76 | One extension with its optional value ends where the specification says, or is refused |
| Chunked.ConsumeQuotedString | crates/foxreq-core/src/http1/chunked.rs:78-103 | The quoted-string loop stops after the closing quote, or reports that there is none |
| Chunked.SizeLineSound | crates/foxreq-core/src/http1/chunked.rs:7-76 | Every accepted line is hexadecimal digits followed by extensions of the grammar of section 7.1.1 of RFC 9112, and the result is the value of the digits |
| Chunked.SizeLineComplete | crates/foxreq-core/src/http1/chunked.rs:7-76 | Every line of that grammar is accepted exactly when its value is below 2^64 |
| Numerals.CheckedFoldExact | crates/foxreq-core/src/http1/request.rs:224-234 | The checked multiply-and-add fold returns the positional value if and only if it fits the machine word |
| Numerals.ParseDecimalExact | crates/foxreq-core/src/http1/response.rs:744-753 | A Content-Length value parses to n if and only if it is non-empty, all digits, and has the value n below 2^64 |
| Numerals.ParseHexExact | crates/foxreq-core/src/http1/chunked.rs:7-27 | The same for hexadecimal chunk sizes |
| Numerals.DecimalRoundTrip | crates/foxreq-core/src/http1/request.rs:343-353 | Every length written in decimal is parsed back to itself |
| Numerals.HexRoundTrip | crates/foxreq-core/src/http1/request.rs:365-378 | Every chunk size written in hexadecimal is parsed back to itself |
| Numerals.NumeralsFitBuffers | crates/foxreq-core/src/http1/request.rs:320-378 | No machine word needs more digits than the fixed buffers hold |
| Numerals.WriteDecimal | crates/foxreq-core/src/http1/request.rs:343-353 | The buffer is filled from its end without underflow, and what stands from the returned position on is the decimal numeral |
| Numerals.AppendHex | crates/foxreq-core/src/http1/request.rs:365-378 | Exactly the hexadecimal numeral is appended |
| ChunkedExchange.MessageSurvivesFragmentation | crates/foxreq-core/src/http1/response.rs:151-315 | A message of the grammar, cut anywhere and followed by anything, is read as that one message; a close-delimited one, which nothing may follow, is completed by end of input |
| ChunkedExchange.ChunkedRoundTrip | crates/foxreq-core/src/http1/request.rs:355-363 | After a head that selects the chunked coding, the written form of any non-empty chunks within the limits, in any fragmentation, completes with the concatenated chunks |
| RequestWriter.SerializeRequest | crates/foxreq-core/src/http1/request.rs:45-153 | The serializer returns exactly the octets or the first error of the specification function |
| RequestWriter.ScanHeaders | crates/foxreq-core/src/http1/request.rs:49-80 | The header loop finds the first invalid or duplicate field, or the counts and framing fields |
| RequestWriter.CheckFraming | crates/foxreq-core/src/http1/request.rs:236-290 | Body, declared length and declared coding are reconciled to one framing, or refused, within the body limit |
| RequestWriter.CheckChunks | crates/foxreq-core/src/http1/request.rs:273-284 | The chunk loop sums the lengths, refusing an empty chunk or a sum over the limit |
| RequestWriter.AppendHeaderBytes | crates/foxreq-core/src/http1/request.rs:331-341 | An append that would pass the head limit is refused and nothing else is |
| RequestWriter.AppendUsizeHeader | crates/foxreq-core/src/http1/request.rs:320-329 | A length field carries the decimal numeral of the length |
| RequestWriter.AppendChunkedBody | crates/foxreq-core/src/http1/request.rs:355-363 | Each chunk is written with its hexadecimal length, then the last chunk |
| RequestDecoder.RequestRoundTrip | crates/foxreq-core/src/http1/request.rs:45-153 | For every accepted request and every trailing octets, a strict decoder recovers method, target, fields in order, body and exactly the trailing octets if and only if the request is not framed twice |
| RequestDecoder.FramingFieldsSent | crates/foxreq-core/src/http1/request.rs:78-143 | Exactly one Host is sent, and at most one framing field unless a chunked body comes with a Content-Length of the caller, in which case both are sent |
| RequestDecoder.BothFramingFieldsAccepted | crates/foxreq-core/src/http1/request.rs:267-288 | A concrete accepted request that is sent with both Content-Length and Transfer-Encoding |
| RequestDecoder.ScanMeaning | crates/foxreq-core/src/http1/request.rs:49-80 | An accepted header list has valid fields, at most one Host and at most one framing field of either kind |
| Client.ReadAll | crates/foxreq-core/src/http1/client.rs:233-263 | The read loop, over any short reads, returns the response of the octet machine on the stream from where reading began, and reports the stream reusable exactly when the response ended with the last octet read and announced no close |
| Client.DoExchange | crates/foxreq-core/src/http1/client.rs:177-263 | The write loop, over any short writes, sends exactly the serialized request before the response is read |
| Client.ReuseKeepsAligned | crates/foxreq-core/src/http1/client.rs:141-157 | A reusable exchange keeps the stream aligned: the octets written are the serialized requests in order, and the octets read are exactly that many messages |
| Client.Http1Client.Obtain | crates/foxreq-core/src/http1/client.rs:120-140 | A pooled stream is taken out of the pool, aligned and opened for exactly this scheme, host, port, profile and verification mode; otherwise one connection is made |
| Client.Http1Client.Execute | crates/foxreq-core/src/http1/client.rs:102-158 | The response comes from one stream of exactly this origin, read from a message boundary; the stream is pooled again if and only if it is reusable, never replacing another, and on every path each opened stream is idle or has had its one close call |
| Client.Http1Client.Close | crates/foxreq-core/src/http1/client.rs:160-168 | Every idle stream is closed, connects equal closes, and the pool stays empty |
| Client.Http1Client.constructor | crates/foxreq-core/src/http1/client.rs:92-100 | A new client has an empty pool and has connected nothing |
| Client.ServerReadsEveryRequest | crates/foxreq-core/src/http1/client.rs:183-231 | A strict server reading an aligned stream finds the k-th request of the client at the k-th boundary, and the next boundary right behind it |
| Client.ResponseIsItsMessage | crates/foxreq-core/src/http1/client.rs:233-263 | The k-th response returned on an aligned stream is the k-th message of its incoming octets |
| CaptureModel.FragmentationIndependence | tests/fixtures/capture_server.py:60-77 | However the input is cut into feeds, the capture reaches the same completion with the same records, or the same kind of error |
| CaptureModel.RunKeepsConsistent | tests/fixtures/capture_server.py:60-97 | The raw octets held are exactly the octets accepted; on completion the octets taken are full records, then a header and the payload up to the end of the message, which is exactly what the result holds |
| CaptureModel.StepKeepsConsistent | tests/fixtures/capture_server.py:99-137 | Every accepted octet keeps the joined payload, the declared length and the limits consistent |
| CaptureModel.CaptureSound | tests/fixtures/capture_server.py:87-90 | A completed result passes every record and handshake check of the strict parser, and its joined payload is exactly the first declared-length handshake octets of the input |
| CaptureModel.CaptureComplete | tests/fixtures/capture_server.py:99-171 | Every wire image the strict parser accepts within the limits completes the capture, and parsing the result gives the same ClientHello |
| CaptureModel.AcceptedParts | tools/fingerprint/tls.py:86-127 | Every accepted wire image is a sequence of handshake records whose payload is one ClientHello message |
| Capture.NewAccumulator | tests/fixtures/capture_server.py:34-58 | An accumulator is made exactly for limits of at least five, and holds nothing |
| Capture.ClientHelloAccumulator.RawBytesHeld | tests/fixtures/capture_server.py:92-97 | The sum over all parts is the number of octets accepted |
| Capture.ClientHelloAccumulator.ObserveHandshake | tests/fixtures/capture_server.py:144-161 | The first four octets seen fix type and total length, with the errors of the code |
| Capture.ClientHelloAccumulator.TakeHeader | tests/fixtures/capture_server.py:99-137 | A waiting record header opens a record of its declared length or is refused |
| Capture.ClientHelloAccumulator.TakePayload | tests/fixtures/capture_server.py:99-137 | A bulk move of payload equals taking the octets one by one |
| Capture.ClientHelloAccumulator.Process | tests/fixtures/capture_server.py:99-137 | Draining the pending octets equals running the octet machine over them |
| Capture.ClientHelloAccumulator.Feed | tests/fixtures/capture_server.py:60-77 | One feed accepts octets up to the capture limit and ends where the octet machine ends; a completed capture holds the message spelled by the octets taken from the input, and takes no more |
| Capture.ClientHelloAccumulator.Result | tests/fixtures/capture_server.py:87-90 | Only a completed capture has a result, and it is the handshake message of the octets taken, with the length of the last record rewritten to what was taken of it |
| Capture.ClientHelloAccumulator.Finish | tests/fixtures/capture_server.py:79-85 | End of input before completion is an error, otherwise the result of the octets taken is returned |
| Capture.CaptureSocket | tests/fixtures/capture_server.py:174-199 | The receiving loop returns the result or error of one feed of the whole text, however the peer cut it, or the error of the timeout, the broken socket or the early close; a result holds the message of the octets taken, which are a front of what was received |
| WireReader.Reader.TakeBytes | tools/fingerprint/binary.py:33-41 | A read returns exactly the next octets and moves the cursor, or fails at the current offset without moving it |
| WireReader.Reader.ReadVector16 | tools/fingerprint/binary.py:55-56 | A length-prefixed vector is read as the specification function reads it |
| ClientHelloCodec.ParseOfEncode | tools/fingerprint/tls.py:25-83 | Every well-formed ClientHello, encoded with or without an explicit empty extension block, parses back to itself |
| ClientHelloCodec.EncodeOfParse | tools/fingerprint/tls.py:25-83 | Every accepted body is the encoding of the result, up to an absent versus an empty extension block |
| ClientHelloParser.ParseClientHelloRecords | tools/fingerprint/tls.py:86-127 | The record and handshake loops compute the specification function, including error kinds and offsets |
| ClientHelloParser.ReadHello | tools/fingerprint/tls.py:25-83 | The body parser computes the specification function |
| ClientHelloParser.ReadU16Values | tools/fingerprint/tls.py:14-22 | Odd lengths are refused, otherwise the values are read in order |
| ClientHelloParser.ReadExtensions | tools/fingerprint/tls.py:53-73 | The extension loop reads all extensions in order and refuses a repeated type at its offset |
| ClientHelloParser.ReadRecords | tools/fingerprint/tls.py:89-109 | The record loop joins the payloads of all records |
| ClientHelloParser.ParseOfRecords | tools/fingerprint/tls.py:86-127 | A well-formed ClientHello split over any non-empty sequence of handshake records parses back to itself |
| ClientHelloParser.RecordsOfParse | tools/fingerprint/tls.py:86-127 | Every accepted input is a sequence of handshake records whose joined payload is the encoding of the result |
| TrustAnchors.EncodeAnchors | python/foxreq/_worker_session.py:280-291 | The parent encodes exactly the lists within the count, size and body limits, as the framed list |
| TrustAnchors.DecodeAnchors | python/foxreq/_profile_worker.py:88-108 | The child accepts exactly the frame bodies of lists within the count limit, and returns such a list |
| TrustAnchors.FrameBodyInjective | python/foxreq/_profile_worker.py:88-108 | A frame body is the body of one anchor list only, so decoding inverts encoding |
| TrustAnchors.EncodeBundle | crates/foxreq-core/src/tls/mod.rs:326-355 | The native bundle is refused exactly for an empty anchor, one of 2^32 octets or more, or a total beyond a machine word |
| TrustAnchors.TrustBundleIsValid | native/nss-shim/src/runtime.c:78-110 | The C validator stays in bounds, accepts exactly what parses, and counts the anchors |
| TrustAnchors.AnchorsExact | native/nss-shim/src/runtime.c:78-110 | A bundle parses to a list of anchors if and only if it is the framing of that list of non-empty anchors |
| NssRuntime.NextAnchor | native/nss-shim/src/runtime.c:330-357 | In an accepted bundle the install loop finds the next anchor, inside the bundle, where it looks for it |
| NssRuntime.GlobalRuntime.InstallTrustLocked | native/nss-shim/src/runtime.c:297-363 | Either every anchor of the bundle is installed, in order, with one certificate each, or every certificate imported so far is destroyed and nothing changes |
| NssRuntime.GlobalRuntime.DestroyImported | native/nss-shim/src/runtime.c:342-354 | The cleanup loop destroys exactly the certificates imported so far |
| NssRuntime.GlobalRuntime.ClearTrustLocked | native/nss-shim/src/runtime.c:279-295 | All installed certificates are destroyed and the bundle is dropped |
| NssRuntime.DeliverAnchors | python/foxreq/_worker_session.py:280-291 | Anchors given to the parent pass all three codecs unchanged: within the limits nothing on the way refuses them, and what NSS gets installed is what was given, in order |
| NssRuntime.GlobalRuntime.Acquire | native/nss-shim/src/runtime.c:374-418 | Acquiring counts one reference exactly on success; while references are held it succeeds exactly for the same directory, profile and bundle below the count limit; what is loaded is never replaced |
| NssRuntime.GlobalRuntime.Release | native/nss-shim/src/runtime.c:420-433 | Releasing the last reference destroys the anchors and keeps the loaded runtime |
| NssLifecycle.StepKeeps | native/nss-shim/src/runtime.c:447-576 | Every step of every thread keeps the counts, the shared configuration and the liveness of what calls use |
| NssLifecycle.RunKeeps | native/nss-shim/src/runtime.c:374-576 | Over every interleaving: each runtime counts its owner and its live caches and connections, and the global count is the number of allocated runtimes plus creates and releases in flight |
| NssLifecycle.LoadedIsPermanent | native/nss-shim/src/runtime.c:374-433 | Directory and profile never change once loaded |
| NssLifecycle.OneConfiguration | native/nss-shim/src/runtime.c:374-418 | Any two runtimes of a process, at any two moments, have one directory and profile, and at one moment one trust bundle |
| NssLifecycle.HoldersNeverDangle | native/nss-shim/src/runtime.c:447-456 | No cache or connection refers to a freed runtime, and no call in progress does if callers do not free a runtime that they are using |
| NssLifecycle.AnchorsFollowHolders | native/nss-shim/src/runtime.c:420-433 | A zero global count means that no anchors are installed and nobody holds anything; otherwise the installed anchors are those of the shared bundle |
| NssConnection.Establish | native/nss-shim/src/connection.c:225-339 | The stages of a connect leave at most one open descriptor, in the connection, and record the category of what failed |
| NssConnection.Connect | native/nss-shim/src/connection.c:185-362 | Refused arguments open and retain nothing; otherwise, on every path, the descriptor is closed exactly once or owned by a successful connection, and a connection is returned holding one runtime reference unless memory ran out |
| NssConnection.FreeConnection | native/nss-shim/src/connection.c:364-377 | Freeing closes the descriptor, if any, and gives back the one reference |
| NssConnection.ConnectThenFree | native/nss-shim/src/connection.c:185-377 | Connecting and freeing leaves no descriptor and no reference behind, whatever is refused or fails |
| Worker.StepKeeps | crates/foxreq-py/src/worker.rs:182-268 | Every step of every interleaving keeps the lock, flight, order and reply invariants |
| Worker.AtMostOneInFlight | crates/foxreq-py/src/worker.rs:182-206 | At most one command is in flight, and its issuer is the caller that holds the sender lock and waits |
| Worker.BackendOrder | crates/foxreq-py/src/worker.rs:246-268 | Each command reaches the backend at most once, and none after a close or a panic |
| Worker.ReplyGoesToIssuer | crates/foxreq-py/src/worker.rs:190-206 | A request returns what the backend made of that very request; only one the backend never got is reported as a stopped worker instead |
| Worker.NobodyWaitsOnTheGone | crates/foxreq-py/src/worker.rs:199-206 | When the worker thread is gone, every waiting caller has a reply or a closed channel |
| Worker.SomeStepIsEnabled | crates/foxreq-py/src/worker.rs:182-238 | While any call is unfinished, some step is possible: there is no deadlock between the two locks, the channel and the join |
| Worker.StepsRunOut | crates/foxreq-py/src/worker.rs:182-268 | Every step other than a new call lowers a measure |
| Worker.RunsAreBounded | crates/foxreq-py/src/worker.rs:182-268 | A run with n calls has at most 10 n + 3 steps, so every call returns if the backend does |
| Worker.StuckMeansDone | crates/foxreq-py/src/worker.rs:208-238 | A run that cannot go on has answered every request and every close |
| Ipc.ReadExact | python/foxreq/_ipc.py:72-88 | Over any short reads, exactly the next octets; on a faultless pipe it fails only if the input ends too soon |
| Ipc.WriteAll | python/foxreq/_ipc.py:91-99 | Over any short writes, everything is written, or an error leaves a prefix written |
| Ipc.WriteFrame | python/foxreq/_ipc.py:11-41 | Nothing is written for metadata that cannot be encoded; otherwise its frame is written whole and flushed, or an error leaves a prefix of it |
| Ipc.ReadFrame | python/foxreq/_ipc.py:44-69 | The frame at the front is read, with its metadata decoded, and nothing behind it; on a faultless pipe it fails exactly when a limit is negative, there is no frame within the limits, or the metadata does not decode |
| Ipc.FirstFrameExact | python/foxreq/_ipc.py:44-64 | An octet string starts with a frame within the limits if and only if the reader finds that frame |
| Ipc.FrameThenRest | python/foxreq/_ipc.py:11-64 | A written frame is read back whatever follows it, exactly when it is within the limits |
| Ipc.CutFrameIsNoFrame | python/foxreq/_ipc.py:44-88 | A frame cut short is never read as a frame |
| WorkerSession.StepKeeps | python/foxreq/_worker_session.py:53-277 | Every step of parent and children, also one in which an exception leaves the parent unhandled, keeps the records: each id is issued once, to one child, read there in order and answered at most once, and what callers got are such answers |
| WorkerSession.ResponsesMatchRequests | python/foxreq/_worker_session.py:172-209 | In every run, a result handed to a caller is the one answer a child gave to that very request id and payload, also where unhandled exceptions left stale replies in the pipe |
| WorkerSession.ReturnedIsAwaited | python/foxreq/_worker_session.py:172-209 | A frame that arrives is returned, for the awaited id and payload, if and only if it carries that id and is no report of a failed worker; anything else drops the process and returns nothing |
| WorkerSession.IdsAlwaysMatch | python/foxreq/_worker_session.py:172-178 | As long as no exception escaped unhandled, the reply read for a request always carries its id, so only the child reporting its own failure makes decoding abort |
| WorkerSession.FrameBoundaryAtRest | python/foxreq/_worker_session.py:72-89 | As long as no exception escaped unhandled, between calls a kept process has both pipes empty, on a frame boundary, in particular after a remote native error |
| WorkerSession.StaleReplyExists | python/foxreq/_worker_session.py:252-277 | A run in which an exception escapes while a response is awaited: the process rests with a reply outstanding, and the next request reads it and is refused by the id check |
| WorkerSession.DiscardedStaysDiscarded | python/foxreq/_worker_session.py:211-237 | A process given up after a timeout or a framing error is never used again, and nothing it writes later reaches a request |
| WorkerSession.FailureDiscards | python/foxreq/_worker_session.py:53-126 | A failed request keeps its process if and only if it found the child already exited with a non-zero status, or ended by an exception that the parent does not handle |
| WorkerSession.CrashedUntilClosed | python/foxreq/_worker_session.py:239-249 | After a child was found exited with a non-zero status, no request succeeds and the process is not replaced until the session is closed |
| WorkerSession.CrashedSessionExists | python/foxreq/_worker_session.py:120-126 | A run that gets there: one answered request, then a crash between requests |
| Permutation.KeysOrderIdentifiers | tools/fingerprint/compare.py:55-56 | The sort key of type name and text orders identifiers totally and tells any two apart |
| Permutation.SamplesAccepted | tools/fingerprint/compare.py:76-103 | A policy is built exactly from two or more rearrangements of one list of distinct types, and it accepts every one of its samples |
| Permutation.PolicyExact | tools/fingerprint/compare.py:76-155 | A policy accepts an order if and only if it rearranges the same types and keeps every position on which all samples agreed |
| Permutation.Compare | tools/fingerprint/compare.py:105-155 | The comparison reports nothing exactly when the policy accepts, and reports a fixed position exactly when it differs |
| ProfileComparison.ValidateExtensionPolicy | scripts/capture/compare_profile.py:113-159 | A baseline is refused exactly when it does not cover every type and every position once, or its mode does not fit |
| ProfileComparison.CompareOrder | scripts/capture/compare_profile.py:86-107 | The per-order check reports nothing exactly on accepted orders |
| ProfileComparison.CompareExtensionOrder | scripts/capture/compare_profile.py:56-110 | No difference is reported exactly when count and types agree and every candidate order, of at least one, is accepted |
| ProfileComparison.SameOrders | scripts/capture/compare_profile.py:71-107 | For every valid baseline the per-order check accepts exactly the orders the permutation policy accepts |
| ProfileComparison.SummaryIsExact | scripts/capture/summarize_capture.py:279-309 | The baseline made from samples is valid unless it was made from a single sample that repeats a type; a valid one accepts an order if and only if it rearranges the sampled types and keeps every position on which all samples agreed, which for a single sample is that sample only |
| Fingerprints.GreaseValues | tools/fingerprint/normalize.py:13-16 | The GREASE test holds of exactly the sixteen values of section 2 of RFC 8701 |
| Fingerprints.ReadRawU16Vector | tools/fingerprint/fingerprints.py:19-27 | The vector decoder computes the specification function, including trailing and truncated input |
| Fingerprints.ReadProtocols | tools/fingerprint/fingerprints.py:62-83 | The ALPN loop decodes the protocols in order, or fails at the first that is not ASCII |
| Fingerprints.SameJa3 | tools/fingerprint/fingerprints.py:86-130 | Two ClientHellos have the same raw JA3 string if and only if version, non-GREASE ciphers, non-GREASE extension types, non-GREASE groups and point formats are the same, in order |
| Fingerprints.SameJa4 | tools/fingerprint/fingerprints.py:133-206 | Two ClientHellos have the same raw JA4 string if and only if they agree on the highest version, the presence of a server name, the capped number of real extensions, the marks of the first protocol, the multisets of real ciphers and of real extension types other than server name and ALPN, and the list of real signature algorithms |
| Fingerprints.Ja4RawExact | tools/fingerprint/fingerprints.py:133-206 | Two raw JA4 strings are equal if and only if version tag, server name marker, capped counts, ALPN marker, sorted ciphers, sorted extensions and signature list are equal |
| Fingerprints.Ja4FitsFormat | tools/fingerprint/fingerprints.py:133-206 | The parts of every ClientHello with 16-bit identifiers fit the fixed-width fields |
| Fingerprints.Ja4Invariant | tools/fingerprint/fingerprints.py:133-206 | JA4 depends only on the legacy version and the multisets of non-GREASE ciphers and extensions: permuting either, or adding or removing GREASE, changes neither the result nor the error |
| Fingerprints.GreaseIsInvisible | tools/fingerprint/fingerprints.py:86-206 | Inserting GREASE ciphers and extensions anywhere leaves JA3 and JA4 unchanged, be they parts or an error |

## Left out

- ResponseParsing.ResponseParser.Feed: assumes that the offset after the input stays below 2^64; at that boundary a bulk copy reports the overflow at another offset than octet-by-octet reading would.
- Client.Http1Client.Execute: assumes that the peer of a connection sends fewer than 2^64 octets; whether time has run out is a free choice before each blocking call, the answer of the URL parser is an argument, and the URL copied into the response is not modelled.
- WireReader.Reader.TakeBytes: the `path` label of a parse error is not modelled, kind and offset are.
- Worker.StepKeeps: starting the thread and the initial handshake are not modelled, nor are poisoned locks, since no lock holder panics.
- WorkerSession.StepKeeps: frames are whole messages here, `Ipc` relates them to octets; the octets of a torn frame, completed with those of the next, are taken not to decode to an operation the child performs, other than the request they were torn from, and a frame shared between two readers counts as unreadable; closing pipes and terminating a child are reduced to dropping the handle, and a child that was given up may go on.
- NssLifecycle.StepKeeps: callers are taken to respect the C interface, freeing a cache or connection once and no runtime that a call of theirs still uses; wrap-around of a runtime's own 32-bit count is not modelled.
- NssLifecycle.HoldersNeverDangle: that no call in progress uses a freed runtime rests on the discipline of the callers just named.
- NssConnection.Connect: the argument checks are one given answer, and the runtime reference is a number here.
- NssRuntime.GlobalRuntime.LoadLocked: symbol lookup, version checks and NSS initialisation are one step that may fail.
- TrustAnchors.TrustBundleIsValid: a null data pointer is not modelled.
- Permutation.SamplesAccepted: a sample without a list of extensions, which the code refuses, is not modelled; a label is a string of octets.
- ProfileComparison.ValidateExtensionPolicy: type tests on the JSON values of the baseline are not modelled.
- ProfileComparison.CompareExtensionOrder: type tests on the JSON values of baseline and candidate are not modelled.
- Fingerprints.SameJa3: speaks of the raw string, as the JA4 results do; the MD5 and SHA-256 digests are not modelled.
- Behaviour of a parser after it has reported an error: callers close the stream.
- JSON inside the frames: its encoding and decoding are given functions that may fail.
- Sockets, DNS, TLS, NSS itself and dynamic loading: foreign code, present as calls that may fail.
- Content decoders, HTTP/2 prefix parsing, the URL parser, the projection of stable evidence, the generic evidence comparison, capture orchestration, command lines and build scripts: little to prove, or easier than what is here.
