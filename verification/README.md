# A verified model of Wardex's capture core

Wardex watches an agent's traffic, reassembles it, masks what must not leave, and exports spans. This
project models the parts of it that keep state and make a claim over every input or every run, and proves
those claims. `dafny verify dfyconfig.toml` checks all of it.

* **HTTP/2** (`Http2Frames`, `Http2Headers`, `Http2Streams`, `Http2Eviction`, `Http2Feed`,
  `Http2Transactions`, `Http2Reports`, `Http2Conversation`, `Http2Connection`). Frames are carved, header blocks
  assembled with byte accounting, and streams kept in three bounded tables whose whole eviction history is two
  integers; what is reported is told against what both sides sent. The specification layers are pure; the
  classes are the mutable objects, proved against them. HPACK is an arbitrary function of the blocks decoded
  so far in its direction.
* **HTTP/1** (`Http1Message`, `Http1Machine`, `Http1Cutting`, `Http1Answers`, `Http1Framing`, `Http1Sizes`,
  `Http1Bodies`, `Http1Sent`, `Http1Residues`, `Http1Parser`). A state machine of single moves; a pass is the moves until none is left.
  The header parser is an arbitrary function that more bytes never change (`PrefixStable`). The residue ceiling
  is measured after each read, so cutting a stream is harmless only under a condition, which is stated exactly:
  on the machine, and on the lengths of heads and lines, which a sender can check.
* **WebSocket** (`WebSocketFrames`, `WebSocket`, `WebSocketParser`) and **JSON-RPC lines** (`JsonRpc`).
* **Masking** (`EscapedJson`, `SecretContainer`, `SecretDocument`, `JsonReader`, `Percent`, `NameScan`,
  `ScanOrder`, `NestedArguments`, `SecretMembers`, `NamedSecrets`, `QuotedMembers`, `SecretArguments`,
  `NameWords`, `NameReadings`, `Cards`, `Checksums`, `Userinfo`, `MaskEdits`, `MaskedText`).
  JSON inside JSON strings, percent-encoding inside arguments, the card pattern, and the merge of all hits into
  edits. Other regular expressions are a list of hits in range; which names are secret is a parameter.
* **OTLP size control** (`OtlpAttributes`, `OtlpPayloads`, `OtlpSpan`, `OtlpSplit`, `OtlpRequests`). The
  truncation pass and the base64 rewrite after it, and the splitter. Protobuf encoding and gzip are
  arbitrary functions, with an inverse only where a receiver is spoken of.
* `Bytes`, `Options`, `Characters`, `Splices`, `Utf8` and `Base64` hold what the others share.

Where a claim is not true of every input the code stays as it is, a concrete input shows it, and the exact
condition is proved: the residue ceilings of HTTP/1 and JSON-RPC depend on where a stream is cut
(`Http1Residues.ATornLineCanCostAMessage` and `OnlyFittingMessagesRoundTrip`, `JsonRpc.CrAtTheCutLoses`); a
number behind an escaped line break in nested JSON is passed over, and a key before one is masked
(`SecretDocument.BrokenContainerIsMasked`); a number with a letter against its end is kept, unless a part of
it is a card by itself (`Cards.OnlyCardsAreHit`); two one-letter words in camelCase run together
(`NameWords.CamelNamesRead`); a payload filed under another's companion key is lost
(`OtlpPayloads.StripRoundTrips`), and so is one that sits in the place of the truncation marker on a span
something was cut from (`OtlpSpan.SpanPayloadsReadBack` and `SquattedPayloadIsLost`).

## Model

| member | source | states |
|---|---|---|
| `Http2Eviction.EvictionIsExact` | crates/wardex-protocol/src/http2.rs:404-444 | Over every run of conformant peers, the transaction the next event completes is flagged `requestEvicted` exactly when an earlier eviction lost that decoded request, and is otherwise the transaction an unbounded table would have given; streams opened before the run and even ids are never flagged. |
| `Http2Eviction.EventKeeps` | crates/wardex-protocol/src/http2.rs:576-604 | One event keeps the invariant that ties the two integers of the eviction summary to the whole history of opened, lost, ended and reset streams. |
| `Http2Eviction.EvictKeeps` | crates/wardex-protocol/src/http2.rs:430-444 | Evicting past the bound keeps that invariant, the newly trimmed request halves joining the lost ones. |
| `Http2Eviction.TransactionIsExact` | crates/wardex-protocol/src/http2.rs:721-764 | From any state the invariant describes, a completed transaction is flagged if and only if its stream is among the lost ones. |
| `Http2Streams.EvictStreamsKeepsHighest` | crates/wardex-protocol/src/http2.rs:430-444 | Trimming one lowest id at a time keeps exactly the highest ids up to the bound. |
| `Http2Streams.MarkIsHighestLost` | crates/wardex-protocol/src/http2.rs:430-444 | The mark left by trimming is the old mark or the highest lost request, whichever is higher. |
| `Http2Streams.RunKeepsTables` | crates/wardex-protocol/src/http2.rs:404-444 | Streams, orphans and remembered resets stay mutually disjoint and each within max(1, max_streams) over every run of events. |
| `Http2Streams.ResetStreamsStaySilent` | crates/wardex-protocol/src/http2.rs:593-601 | Over any run, an id that is among the highest ever reset, as many as the table holds, stays remembered, and no event announces its stream or completes a transaction on it. |
| `Http2Streams.HighestResetsAreRemembered` | crates/wardex-protocol/src/http2.rs:482-494 | After any run the remembered ids are exactly the highest of all that were reset, however early the lower ones were dropped. |
| `Http2Headers.AssembleKeeps` | crates/wardex-protocol/src/http2.rs:499-574 | Every frame leaves `pendingBytes` the sum of the open header blocks, never below zero, within the stream buffer, and the open blocks within the stream bound. |
| `Http2Feed.AnyCutting` | crates/wardex-protocol/src/http2.rs:351-375 | Two runs with the same bytes from the same sides in the same order give the same announcements, transactions, latch reason and state, wherever either was cut, torn preface and torn frames included. |
| `Http2Feed.ConnectionIsAFold` | crates/wardex-protocol/src/http2.rs:351-375 | A whole run is the fold of the table step (an event, then evicting past the bound) over the events its frames amount to. |
| `Http2Feed.RunsStaySound` | crates/wardex-protocol/src/http2.rs:377-393 | After every read of every run the bounds, the disjointness and the byte accounting all hold. |
| `Http2Feed.TransactionsAreFaithful` | crates/wardex-protocol/src/http2.rs:721-764 | From bytes to history: whatever the cuts, every transaction of a conformant run is what an unbounded table would have given after the event that completed it, or is flagged because its request half was lost. |
| `Http2Conversation.ConversationIsReported` | crates/wardex-protocol/src/http2.rs:351-764 | A conversation written as frames, each header block padded, prioritised, continued or not, read in any pieces after the preface: a stream that is not reset and whose response ends is told in exactly one transaction, announced once if and only if the client ended its side. Method, path, status and the rest are the last values of their header names, each body is the start of that side's concatenated DATA up to its cap, and each truncation flag holds exactly when its cap was passed. |
| `Http2Reports.TransactionsTell` | crates/wardex-protocol/src/http2.rs:721-764 | Evictions included: every transaction of a conformant run on a stream opened since the watch began and never reset is flagged exactly when its request half was lost, and otherwise tells what both sides sent on the stream up to the event that completed it. |
| `Http2Reports.StreamIsReported` | crates/wardex-protocol/src/http2.rs:576-764 | In any run of events whose streams fit the table, exactly one transaction and at most one announcement come of a stream, and the transaction tells what was sent. |
| `Http2Reports.WantedIsEntry` | crates/wardex-protocol/src/http2.rs:404-428 | The entry of an unbounded table is the fold of the stream's own events, whatever the others did. |
| `Http2Transactions.EntryTells` | crates/wardex-protocol/src/http2.rs:606-764 | What a stream's events say and what its transaction holds, field by field: the last header values, the content type of each side's own blocks, the two bodies, the flags, and whether the request ended. |
| `Http2Transactions.EntryHeaders` | crates/wardex-protocol/src/http2.rs:606-636 | Each header field kept is the last value its name was given, by the sides the field is read from. |
| `Http2Transactions.EntryBody` | crates/wardex-protocol/src/http2.rs:650-691 | A body kept is the start of that side's concatenated DATA up to the cap of its content type, and truncated exactly when there was more, when no block after its DATA names another type. |
| `Http2Conversation.PartReads` | crates/wardex-protocol/src/http2.rs:499-719 | The frames a part is written as mean exactly that part, in the state its direction's HPACK decoder has reached. |
| `Http2Frames.CarveSplit` | crates/wardex-protocol/src/http2.rs:44-75 | Carving a read in two gives the frames and the residue of carving it whole. |
| `Http2Frames.CarveInvertsEncode` | crates/wardex-protocol/src/http2.rs:44-75 | Carving undoes encoding for every list of frames and whatever partial frame follows. |
| `Http2Frames.Http2FrameDecoder.Feed` | crates/wardex-protocol/src/http2.rs:44-75 | Returns the frames, keeps the residue, and moves at most twice the bytes it was given. |
| `Http2Connection.Http2Connection.Feed` | crates/wardex-protocol/src/http2.rs:351-375 | One read from one side takes the connection to the state the specification says and reports what it says; two bytes of movement pay for each byte read. |
| `Http2Connection.Http2Connection.HandleFrame` | crates/wardex-protocol/src/http2.rs:468-497 | A frame changes the assembler and the tables as specified, and a frame that fails reports nothing. |
| `Http2Connection.Http2Connection.OnHeaders` | crates/wardex-protocol/src/http2.rs:499-548 | Padding, priority, END_HEADERS and both ceilings, against the assembler. |
| `Http2Connection.Http2Connection.OnContinuation` | crates/wardex-protocol/src/http2.rs:550-574 | A continuation extends the open block of its id, or fails when there is none or the buffer bound is passed. |
| `Http2Connection.Http2Connection.DecodeBlock` | crates/wardex-protocol/src/http2.rs:576-636 | A block reaches HPACK before the reset and eviction checks, so the two directions' tables stay in step. |
| `Http2Connection.Http2Connection.OnData` | crates/wardex-protocol/src/http2.rs:638-691 | Body bytes are stored up to the cap their content type chooses, and END_STREAM ends that half. |
| `Http2Connection.Http2Connection.OnPushPromise` | crates/wardex-protocol/src/http2.rs:693-719 | A pushed block is decoded for its effect on the HPACK state alone. |
| `Http2Connection.Http2Connection.MarkEnded` | crates/wardex-protocol/src/http2.rs:721-764 | Ending the response completes the transaction of the entry, which `Http2Transactions.EntryTells` spells out, and drops the entry; ending the request announces it once. |
| `Http2Connection.Http2Connection.EvictPastBound` | crates/wardex-protocol/src/http2.rs:430-444 | The trimming loops compute the specified eviction of both tables and the mark. |
| `Http2Connection.Http2Connection.StripPreface` | crates/wardex-protocol/src/http2.rs:449-466 | Bytes wait until they are or are not the client preface, which is then dropped once. |
| `Http1Machine.DriveSplit` | crates/wardex-protocol/src/http1.rs:324-344 | Two passes over the parts of a read end where one pass over the whole does, with the same messages, from every state of the machine. |
| `Http1Machine.SwallowTwice` | crates/wardex-protocol/src/http1.rs:425-456 | Taking part of a body now and the rest later is taking both at once, cap and truncation marker included. |
| `Http1Answers.HeadAnswerHasNoBody` | crates/wardex-protocol/src/http1.rs:378-392 | After any number of interim responses, the final response to HEAD completes with no body whatever its headers declare, and the bytes after it are framed with the slot used up. |
| `Http1Answers.ConnectOpensATunnel` | crates/wardex-protocol/src/http1.rs:378-392 | After a 2xx to CONNECT no later byte makes a message or is kept. |
| `Http1Answers.RefusedConnectIsFramed` | crates/wardex-protocol/src/http1.rs:378-423 | Any other answer to CONNECT, 304 aside, is framed by its own headers, and uses the slot up. |
| `Http1Answers.InterimsKeepTheSlot` | crates/wardex-protocol/src/http1.rs:378-392 | Interim responses are messages of their own and leave the slot for the final one. |
| `Http1Framing.FramingIsRead` | crates/wardex-protocol/src/http1.rs:646-661 | Chunked framing exactly when some transfer-encoding header, named in any case, holds `chunked` in any case; otherwise the length the first declaring header declares; otherwise none. |
| `Http1Framing.LengthIsDeclared` | crates/wardex-protocol/src/http1.rs:653-659 | A header declares n exactly when its name spells content-length in any case and its value is a decimal numeral of n (zeros and one plus allowed) that an address can hold, with any Unicode white space around it. |
| `Http1Framing.HeadLeadsTo` | crates/wardex-protocol/src/http1.rs:378-423 | 1xx, 204 and 304 complete without a body whatever their headers say; any other head goes to the chunked, counted or unframed body its headers spell, a request without framing being complete. |
| `Http1Sizes.SizeIsWritten` | crates/wardex-protocol/src/http1.rs:467-477 | A size line gives n exactly when it is well-formed text of a hexadecimal numeral of n in either case, with white space around it and an extension or none behind it. |
| `Http1Sizes.SizeLineDecides` | crates/wardex-protocol/src/http1.rs:458-485 | A whole size line starts that much data, or the trailers when zero; past the bound, or anything but a size, it stops the stream with its own reason. |
| `Http1Cutting.CuttingOnlyLoses` | crates/wardex-protocol/src/http1.rs:194-243 | For every cutting the messages are a prefix of those of one read; all of them come, with the same final state, if and only if no piece leaves more than the ceiling unused with something still to come of it. |
| `Http1Cutting.SmallStreamsAreCutFree` | crates/wardex-protocol/src/http1.rs:218-241 | When the whole stream fits the ceiling every cutting is harmless. |
| `Http1Cutting.ConversationsAreCutFree` | crates/wardex-protocol/src/http1.rs:146-157 | Keep-alive conversations with HEAD and CONNECT announced between reads do not depend on how each exchange was cut. |
| `Http1Residues.MessagesRoundTrip` | crates/wardex-protocol/src/http1.rs:324-526 | Keep-alive messages with chunked bodies, bodies of declared length or none, fed in any pieces, come back in order, each with the start of its body under its cap and one marker exactly when the cap was passed, when the ceiling holds every head but its last byte and every size and trailer line with its carriage return. Body lengths do not matter. |
| `Http1Residues.OnlyFittingMessagesRoundTrip` | crates/wardex-protocol/src/http1.rs:219-241 | Messages survive every cutting if and only if their heads and lines fit the ceiling so. |
| `Http1Residues.ATornLineCanCostAMessage` | crates/wardex-protocol/src/http1.rs:219-241 | From a fresh stream under a ceiling of one: two reads torn in the CRLF of a size line lose the message that one read completes. |
| `Http1Residues.TameConcat` | crates/wardex-protocol/src/http1.rs:218-241 | What a stream can leave unread at any cut is what its parts can: a later part counts from the state the earlier one leads to. |
| `Http1Sent.MessagesRead` | crates/wardex-protocol/src/http1.rs:324-526 | Read whole, a conversation gives its messages in order and leaves the machine fresh, whatever each head frames. |
| `Http1Bodies.ChunkedBodyRead` | crates/wardex-protocol/src/http1.rs:458-540 | One chunked body leaves the machine at the byte after its last CRLF, whatever the cap. |
| `Http1Bodies.HexIsSizeLine` | crates/wardex-protocol/src/http1.rs:467-477 | The plain hexadecimal numeral of a size up to 1 TiB is read as that size. |
| `Http1Bodies.RunsStayInShape` | crates/wardex-protocol/src/http1.rs:219-241 | After every run of reads nothing is buffered in a body, an unframed body, a tunnel or chunk data, at most one byte after a chunk, and no CRLF in a size or trailer line. |
| `Http1Bodies.LengthEnding` | crates/wardex-protocol/src/http1.rs:271-297 | A body of declared length is handed over by reading exactly when its last byte arrived; otherwise the end of the stream hands over what came, incomplete. |
| `Http1Bodies.UnframedEnding` | crates/wardex-protocol/src/http1.rs:271-297 | An unframed body is whole exactly when the peer's end of stream was seen. |
| `Http1Bodies.ChunkedEnding` | crates/wardex-protocol/src/http1.rs:271-297 | Cut short anywhere, a chunked body is incomplete exactly when the line of its last chunk had not arrived; past it the message is whole. |
| `Http1Message.AppendTwice` | crates/wardex-protocol/src/http1.rs:532-540 | Storing two parts under a cap is storing their concatenation, with one marker. |
| `Http1Message.ReadFraming` | crates/wardex-protocol/src/http1.rs:646-661 | The two header loops compute the framing that `Http1Framing.FramingIsRead` spells out. |
| `Http1Parser.Http1Stream.Feed` | crates/wardex-protocol/src/http1.rs:194-243 | A read takes the parser to the state of the machine's pass and returns its messages; the ceiling is measured after the pass. |
| `Http1Parser.Http1Stream.BufferedLen` | crates/wardex-protocol/src/http1.rs:171-173 | Between reads what is buffered fits the ceiling and has the shape its state allows. |
| `Http1Parser.Http1Stream.StepHeaders` | crates/wardex-protocol/src/http1.rs:346-423 | A header block: 1xx keeps the request waiting, the one-slot HEAD and CONNECT rules, 204 and 304, then the framing. |
| `Http1Parser.Http1Stream.StepBody` | crates/wardex-protocol/src/http1.rs:425-443 | A step through a body of known length is the machine's. |
| `Http1Parser.Http1Stream.StepUntilClose` | crates/wardex-protocol/src/http1.rs:447-456 | A step through an unframed body is the machine's. |
| `Http1Parser.Http1Stream.StepChunked` | crates/wardex-protocol/src/http1.rs:458-526 | The chunk loop passes through the states the machine does, and reports its message, wait or failure. |
| `Http1Parser.Http1Stream.ExpectResponseTo` | crates/wardex-protocol/src/http1.rs:151-157 | Sets the one slot the next final response takes. |
| `Http1Parser.Http1Stream.End` | crates/wardex-protocol/src/http1.rs:271-297 | Hands over the response in flight as the specification of `finish` says, and leaves the stream idle. |
| `WebSocketFrames.FramesSplit` | crates/wardex-protocol/src/websocket.rs:99-120 | Frames, residue and latch of a read cut in two are those of the read whole. |
| `WebSocketFrames.FramesInvertSerialise` | crates/wardex-protocol/src/websocket.rs:158-269 | Parsing undoes serialising for every mask, length form, reserved bit and opcode, whatever bytes follow. |
| `WebSocketFrames.ReceivedSays` | crates/wardex-protocol/src/websocket.rs:19-30 | A frame sent under the code of an opcode is received under that opcode, with its wire length and payload start, and a close frame with the code its first two bytes spell. |
| `WebSocketFrames.ParseIsLocal` | crates/wardex-protocol/src/websocket.rs:158-260 | A frame is read from its own bytes alone. |
| `WebSocketFrames.ResidueIsUnfinished` | crates/wardex-protocol/src/websocket.rs:122-151 | What stays buffered is one unfinished frame, below 14 bytes plus the frame limit. |
| `WebSocketFrames.MaskedTwice` | crates/wardex-protocol/src/websocket.rs:222-230 | Masking undoes itself under one key. |
| `WebSocket.CuttingIsInvisible` | crates/wardex-protocol/src/websocket.rs:99-120 | However the bytes are cut, frames, messages, latch and state are those of one read. |
| `WebSocket.MessageIsAssembled` | crates/wardex-protocol/src/websocket.rs:238-269 | A fragmented message with control frames between its parts comes back as the start of its concatenated payloads, whatever was being reassembled before. |
| `WebSocket.MessagesRoundTrip` | crates/wardex-protocol/src/websocket.rs:99-120 | Any messages, serialised in any way and fed in any pieces, come back: every frame with its wire length, every message as its sample. |
| `WebSocket.OversizeLatches` | crates/wardex-protocol/src/websocket.rs:191-194 | A frame over the limit latches the parser after exactly the frames before it, for every cutting and whatever follows. |
| `WebSocketParser.WsParser.Feed` | crates/wardex-protocol/src/websocket.rs:99-120 | A read gives the specified frames and messages, no message over the sample cap, and moves at most twice its bytes. |
| `WebSocketParser.WsParser.TryParseOne` | crates/wardex-protocol/src/websocket.rs:158-260 | Parses the frame at the cursor, waits, or reports it oversized, as the one-frame specification says. |
| `WebSocketParser.WsParser.AppendFrag` | crates/wardex-protocol/src/websocket.rs:262-269 | Appends within what room the sample cap leaves. |
| `JsonRpc.CuttingOnlyLoses` | crates/wardex-protocol/src/json_rpc.rs:107-157 | For every cutting the lines read are a prefix of those of one read; all of them are read, with the same final state, if and only if every cut leaves an unterminated part within the cap or no newline is still to come. |
| `JsonRpc.CrAtTheCutLoses` | crates/wardex-protocol/src/json_rpc.rs:126-156 | A line that fills the cap exactly is read whole in one read, and latches the stream when a read ends between its carriage return and newline. |
| `JsonRpc.ReadingsInvertPrint` | crates/wardex-protocol/src/json_rpc.rs:107-139 | Printed lines of any length, ended either way, are read back in order: blank when empty, over the cap when longer than it, parsed otherwise, whatever unfinished line follows. |
| `JsonRpc.LinesAreCounted` | crates/wardex-protocol/src/json_rpc.rs:126-139 | The lines counted as over the cap are those longer than it, and the messages are those of the remaining lines that are not blank. |
| `JsonRpc.ParsedLinesFit` | crates/wardex-protocol/src/json_rpc.rs:126-139 | No blank line and no line over the cap is ever parsed. |
| `JsonRpc.JsonRpcStream.Feed` | crates/wardex-protocol/src/json_rpc.rs:107-157 | A read gives the messages of its lines and counts those over the cap, moves at most twice its bytes and searches each byte once. |
| `EscapedJson.NestedLiteralIsRead` | crates/wardex-pipeline/src/pii/names.rs:480-518 | At every nesting depth a re-escaped string literal is read as exactly its content and the byte after its real closing quote, whatever quotes and backslashes it holds. |
| `EscapedJson.NestedStringIsRead` | crates/wardex-pipeline/src/pii/names.rs:480-518 | For every string and every depth, the scalar read where its literal stands decodes, escape by escape, to exactly that string, and the scan goes on at the byte after its real closing quote. |
| `EscapedJson.NestIsExpand` | crates/wardex-pipeline/src/pii/names.rs:470-518 | Escaping n times doubles backslashes n times: the closed form behind the levels 0, 1, 3 and 7. |
| `EscapedJson.FindCloseIsFirst` | crates/wardex-pipeline/src/pii/names.rs:500-516 | The close found is the first quote whose run of backslashes closes at this level; none is found only when there is none. |
| `EscapedJson.ReadScalar` | crates/wardex-pipeline/src/pii/names.rs:480-518 | The loop reads the specified scalar, with the run of backslashes taken modulo 2(level + 1). |
| `EscapedJson.BackslashesBefore` | crates/wardex-pipeline/src/pii/names.rs:631-637 | Counts the run of backslashes that ends at a position. |
| `SecretContainer.MaskContainer` | crates/wardex-pipeline/src/pii/names.rs:523-587 | The walk's hits and the byte it stops after are those of its specification. |
| `SecretDocument.ContainerIsMasked` | crates/wardex-pipeline/src/pii/names.rs:523-587 | Wherever an object or list stands, printed at any depth with any whitespace, applying the hits gives the same printing of the document with every non-empty string and number replaced and every key, word and shape kept. |
| `JsonReader.MaskedContainerReadsBack` | crates/wardex-pipeline/src/pii/names.rs:523-621 | Undoing the escapes of its depth and reading the container as JSON gives the document before masking and, after it, the same document with every non-empty string and every number replaced. |
| `JsonReader.ValueReads` | crates/wardex-pipeline/src/pii/names.rs:523-621 | The reader inverts printing for every document and every choice of whitespace, so the printed bytes stand for one document only. |
| `SecretDocument.BrokenContainerIsMasked` | crates/wardex-pipeline/src/pii/names.rs:523-587 | The same with escaped line breaks anywhere among the tokens: exactly what is masked, and that it is the masked document if and only if no break stands before a number or between a key and its colon. |
| `SecretDocument.EscapedBreakHidesNumber` | crates/wardex-pipeline/src/pii/names.rs:565-569 | A concrete nested list whose number, after an escaped line break, gets no hit. |
| `SecretDocument.MaskIsTokenwise` | crates/wardex-pipeline/src/pii/names.rs:570-579 | Telling keys from values by the colon after them masks the document and nothing else. |
| `MaskEdits.EditsHold` | crates/wardex-pipeline/src/pii/mod.rs:379-421 | The edits are in order and disjoint, and cover exactly the bytes of the retained hits: the name hits, the userinfo hits, and the value hits that start in no userinfo and not at its `@`. |
| `MaskEdits.MergeHolds` | crates/wardex-pipeline/src/pii/mod.rs:404-421 | Merging sorted hits covers what they cover, neither more nor less. |
| `MaskedText.EditsWrite` | crates/wardex-pipeline/src/pii/mod.rs:404-421 | Each edit writes the replacement of one retained hit that reaches from before it to its end, and that hit wins over every other hit reaching into the edit. |
| `MaskedText.CredentialsAreRedacted` | crates/wardex-pipeline/src/pii/mod.rs:368-421 | Every byte of every credential is replaced; where no other hit reaches its start, what stands there afterwards is `REDACTED:REDACTED` if it held a colon and `REDACTED` otherwise. |
| `MaskedText.HitsAreMasked` | crates/wardex-pipeline/src/pii/mod.rs:379-421 | Every hit found is masked to its last byte, but for a nameless one that begins inside a credential or at its `@`. |
| `MaskEdits.RetainHits` | crates/wardex-pipeline/src/pii/mod.rs:380-393 | The binary search keeps exactly the hits the rule keeps. |
| `MaskEdits.PartitionPoint` | crates/wardex-pipeline/src/pii/mod.rs:389-391 | Bisection finds how many spans start at or before a position. |
| `MaskEdits.MaskText` | crates/wardex-pipeline/src/pii/mod.rs:282-296 | The text with its edits made, every byte outside them copied; none when there is nothing to change. |
| `MaskEdits.MaskBytes` | crates/wardex-pipeline/src/pii/mod.rs:302-319 | Bytes that are not text are judged as a valid text of the same length, and the edits land on the bytes themselves. |
| `Userinfo.FindSpans` | crates/wardex-pipeline/src/pii/mod.rs:130-204 | The loop finds the spans that `Userinfo.SpansAreCredentials` spells out, in order. |
| `Userinfo.SpansAreApart` | crates/wardex-pipeline/src/pii/mod.rs:130-204 | The spans are in order with at least the `@` between them. |
| `Userinfo.SpansAreCredentials` | crates/wardex-pipeline/src/pii/mod.rs:130-204 | The spans of a text are its credentials and nothing else: non-empty, behind a separator whose scheme has a letter, up to the last `@` before a terminator, and not already redacted. |
| `Userinfo.WrittenCredential` | crates/wardex-pipeline/src/pii/mod.rs:130-204 | A scheme with a letter, `://`, a userinfo free of terminators, `@`, and no further `@` before the next terminator is such a credential, whatever stands before and behind. |
| `Utf8.StandInKeepsOffsets` | crates/wardex-pipeline/src/pii/mod.rs:208-215 | The stand-in has the same length and keeps every ASCII byte where it was. |
| `Utf8.StandInIsValid` | crates/wardex-pipeline/src/pii/mod.rs:208-215 | The stand-in is well-formed UTF-8. |
| `Utf8.TextStandsIn` | crates/wardex-pipeline/src/pii/mod.rs:208-215 | Well-formed text at the front stands in for itself whatever follows, and a byte that starts no character becomes one question mark (`Utf8.StrayByteStandsIn`). |
| `Utf8.ValidIsEncoded` | crates/wardex-pipeline/src/pii/mod.rs:302-319 | Well-formed text is what encoding some sequence of Unicode scalar values gives. |
| `Cards.NoCardSurvives` | crates/wardex-pipeline/src/pii/mod.rs:325-366 | Every Luhn-valid number of 13 to 19 digits with single separators, between word boundaries, meets an accepted hit, through the shrink probe and the retry one character on. |
| `Cards.LoneRunIsHitBetweenWordBoundaries` | crates/wardex-pipeline/src/pii/patterns.rs:107-107 | A valid unbroken run of digits alone in a text is hit, whole, if and only if no word character touches either end. |
| `Cards.HitsAreCards` | crates/wardex-pipeline/src/pii/mod.rs:325-366 | Every hit is itself a valid number of the card's shape between word boundaries, shrunk or not, and overlaps no other. |
| `Cards.OnlyCardsAreHit` | crates/wardex-pipeline/src/pii/mod.rs:325-366 | With separators or without, a text is changed if and only if there is a valid number of the card's shape between word boundaries in it. |
| `Cards.ShapedReaches` | crates/wardex-pipeline/src/pii/patterns.rs:107-107 | Digits with at most one separator between two of them are what the pattern's repetition matches. |
| `Cards.ScanCards` | crates/wardex-pipeline/src/pii/mod.rs:325-366 | The scan loop ends and yields the specified hits. |
| `Cards.ShrinkToValid` | crates/wardex-pipeline/src/pii/mod.rs:433-451 | The probes find the longest shorter candidate that ends a digit run, keeps 13 digits and passes. |
| `Checksums.LuhnValid` | crates/wardex-pipeline/src/pii/patterns.rs:246-265 | The running sum decides the checksum that `Checksums.LuhnIsByPosition` spells out, of 13 to 19 digits. |
| `Checksums.LuhnIsByPosition` | crates/wardex-pipeline/src/pii/patterns.rs:246-265 | A number passes exactly when it has 13 to 19 digits and, each digit at an odd distance from the right end doubled and its own digits added, they sum to a multiple of ten. |
| `Checksums.LuhnCatchesOneDigit` | crates/wardex-pipeline/src/pii/patterns.rs:246-265 | Changing one digit of a valid number always makes it invalid. |
| `Checksums.IbanValid` | crates/wardex-pipeline/src/pii/patterns.rs:295-313 | The remainder carried from character to character is that of the whole number the rearranged text spells. |
| `Percent.DecodingMaskedIsMaskingDecoded` | crates/wardex-pipeline/src/pii/names.rs:310-353 | Masking the encoded bytes through the map and then decoding gives what decoding and then masking gives. |
| `Percent.RangeMapsBack` | crates/wardex-pipeline/src/pii/names.rs:310-353 | A decoded range maps back to whole encoded units that decode to exactly that range. |
| `Percent.OffsetIncreases` | crates/wardex-pipeline/src/pii/names.rs:310-338 | The map from decoded to encoded offsets is strictly increasing. |
| `Percent.DecodeInvertsEncode` | crates/wardex-pipeline/src/pii/names.rs:315-337 | Decoding gives a text back whatever an encoder chose for each of its bytes. |
| `Percent.EscapesAre` | crates/wardex-pipeline/src/pii/names.rs:623-629 | The escapes of a byte are a percent sign and its two hexadecimal digits in either case, high one first, and nothing else. |
| `Percent.DecodeMapped` | crates/wardex-pipeline/src/pii/names.rs:310-338 | The loop builds the decoded bytes and the map. |
| `NestedArguments.NoSecretArgumentSurvives` | crates/wardex-pipeline/src/pii/names.rs:187-260 | Every value under a secret name is replaced to its last byte by one hit, or lies in what a JSON member under a secret name already took. |
| `SecretArguments.SecretArgumentsAreReplaced` | crates/wardex-pipeline/src/pii/names.rs:187-260 | In any text, an argument whose whole name is a secret's, or is one behind the rest of a JSON escape, has every byte of its value replaced, unless the value of a quoted secret member that began before it reaches past it. |
| `SecretArguments.ArgumentIsHit` | crates/wardex-pipeline/src/pii/names.rs:208-260 | At the equals sign of such an argument the scan hits the value, the whole of it, and resumes behind it, unless it is empty or the placeholder. |
| `SecretArguments.OrdinaryIsKept` | crates/wardex-pipeline/src/pii/names.rs:208-260 | An argument with no such name and nothing percent-encoded in its value yields nothing. |
| `SecretArguments.OnlySecretMembersYield` | crates/wardex-pipeline/src/pii/names.rs:420-472 | A colon yields something only behind a quoted secret name of 1 to 128 plain bytes at level 0, 1, 3 or 7, in double quotes or, at level 0, in single ones. |
| `NestedArguments.MaskingSeesThroughEncoding` | crates/wardex-pipeline/src/pii/names.rs:243-353 | However deep any text is percent-encoded inside ordinary arguments, masking the outermost text and decoding it all the way gives the masked text. |
| `NestedArguments.EncodedSecretIsMasked` | crates/wardex-pipeline/src/pii/names.rs:243-353 | A secret argument under any number of encodings comes out as its name and the placeholder. |
| `NestedArguments.WrappedHits` | crates/wardex-pipeline/src/pii/names.rs:310-353 | The hits of an encoded argument are the hits of what it carries, moved. |
| `ScanOrder.ScanInOrder` | crates/wardex-pipeline/src/pii/names.rs:187-260 | For every text and from every position the hits of the name scan come in text order, apart from each other and within the text, those found inside encoded values included. |
| `ScanOrder.QuietScan` | crates/wardex-pipeline/src/pii/names.rs:187-260 | A stretch with no `=` and no quote in it or just before it yields nothing, colons or not, so an encoded value is scanned once. |
| `NameScan.Scan` | crates/wardex-pipeline/src/pii/names.rs:187-203 | The scan loop ends, resumes past replaced values, and yields the specified hits. |
| `NameScan.ScanForm` | crates/wardex-pipeline/src/pii/names.rs:208-260 | A `name=value` argument: the bounded name, a secret when either reading of an escape before it is one, the two value ends. |
| `NameScan.ScanEncoded` | crates/wardex-pipeline/src/pii/names.rs:310-353 | The decoded value is strictly shorter than the text, so the recursion ends; its hits are carried back. |
| `NameScan.ScanJson` | crates/wardex-pipeline/src/pii/names.rs:420-472 | A `"name": value` member at levels 0, 1, 3 and 7, its container or scalar. |
| `NamedSecrets.DocumentIsMaskedByName` | crates/wardex-pipeline/src/pii/names.rs:187-621 | A JSON document of any shape, printed at any depth with any white space: making the scan's hits gives the same printing with the values under secret names masked leaf by leaf, and nothing else changed. |
| `NamedSecrets.MaskedDocumentReadsBack` | crates/wardex-pipeline/src/pii/names.rs:187-621 | Undoing the escapes of its depth and reading it, the text after masking is the document with its secret members masked. |
| `NamedSecrets.WrittenMember` | crates/wardex-pipeline/src/pii/names.rs:420-472 | One member anywhere in a text, at depth 0 to 3: from its colon on, a secret name has exactly the leaves of its value hit and the scan resumes behind it, and any other name yields nothing. The scan reaches the colon when no `=` or colon stands before it. |
| `SecretMembers.MemberIsRead` | crates/wardex-pipeline/src/pii/names.rs:420-456 | Before a colon, a quoted name of 1 to 128 plain bytes is read back exactly at each level and in either quote, and a longer or empty one is none. |
| `QuotedMembers.QuotedStringIsHit` | crates/wardex-pipeline/src/pii/names.rs:420-472 | A secret member with its name and its string each in single or double quotes: the string's content is the one hit. |
| `QuotedMembers.QuotedNumberIsHit` | crates/wardex-pipeline/src/pii/names.rs:420-472 | A secret number becomes the placeholder in the name's own quotes. |
| `QuotedMembers.QuotedContainerIsHit` | crates/wardex-pipeline/src/pii/names.rs:420-587 | Under a name in either quotes, the leaves hit in an object or list are those that masking the document replaces. |
| `NameWords.Words` | crates/wardex-pipeline/src/pii/names.rs:729-781 | The two loops split a name into the specified words. |
| `NameWords.SeparatedNamesRead` | crates/wardex-pipeline/src/pii/names.rs:724-781 | `api_key`, `API-KEY` and `Api.Key` read as the same words for every list of words and separators. |
| `NameWords.CamelNamesRead` | crates/wardex-pipeline/src/pii/names.rs:724-781 | A camelCase name reads as its words if and only if no two one-letter words adjoin after the first. |
| `NameReadings.JudgeFormName` | crates/wardex-pipeline/src/pii/names.rs:273-306 | Judging both readings of a name, split once where the escape's letter only joins the first word, gives what splitting both gives, and records the reading the source records. |
| `NameReadings.LetterJoinsFirstWord` | crates/wardex-pipeline/src/pii/names.rs:291-302 | A small letter in front of a name that begins with one is put before its first word and changes no other word. |
| `OtlpSplit.ExportIsFaithful` | crates/wardex-codec/src/otlp/split.rs:65-91 | Spans leave in order under their own resource and scope, unchanged, without payload, or not at all; one whose own request is within the cap, encoded and compressed, is always unchanged, one is lost only if even its payload-free request is not, and every body and message is within the cap. |
| `OtlpSplit.FitIsExact` | crates/wardex-codec/src/otlp/split.rs:220-234 | An attempt gives a body exactly when the encoded request is within the cap and, when compressing, gzip yields a body within it; it fails exactly when gzip fails on a request within it. |
| `OtlpSplit.FittingScopeIsOneRequest` | crates/wardex-codec/src/otlp/split.rs:137-154 | A whole scope that fits one request leaves as exactly that request, every span as it was, in one attempt. |
| `OtlpSplit.ExportSucceeds` | crates/wardex-codec/src/otlp/split.rs:65-91 | Unless compressing fails, every export gives its requests, whatever the cap, zero included. |
| `OtlpSplit.ChunksAreEven` | crates/wardex-codec/src/otlp/split.rs:178-199 | The number of parts is the least that could bring the size under the cap, at least two and at most one for each span, and the chunk is the least that makes no more parts. |
| `OtlpSplit.SentAndDroppedAddUp` | crates/wardex-codec/src/otlp/split.rs:65-91 | What is sent and what is counted dropped add up to what went in. |
| `OtlpSplit.ReceiverGetsTheRest` | crates/wardex-codec/src/otlp/split.rs:220-234 | Flattening what a receiver decodes from the bodies gives exactly the spans not dropped. |
| `OtlpSplit.ChunkShrinks` | crates/wardex-codec/src/otlp/split.rs:178-199 | A chunk is never empty and strictly smaller than what it is cut from, whatever the cap, zero included. |
| `OtlpSplit.EmitIsCheap` | crates/wardex-codec/src/otlp/split.rs:137-199 | n spans of one scope cost at most 3n - 1 attempts. |
| `OtlpRequests.Requests.Emit` | crates/wardex-codec/src/otlp/split.rs:137-199 | Adds exactly the specified bodies, losses and attempts, or fails with the codec. |
| `OtlpRequests.Requests.EmitAlone` | crates/wardex-codec/src/otlp/split.rs:155-177 | A span alone is retried without its payload, and counted dropped or trimmed. |
| `OtlpRequests.EncodeRequests` | crates/wardex-codec/src/otlp/split.rs:65-91 | An export's requests, losses and counts are the specified ones. |
| `OtlpPayloads.PayloadsReadBack` | crates/wardex-codec/src/otlp/map.rs:1182-1276 | Through both passes a payload of an event, a link or a nested list, under no other payload's companion key, reads back as a prefix of what was captured, and whole if and only if it leaves within the cap. |
| `OtlpPayloads.StripRoundTrips` | crates/wardex-codec/src/otlp/map.rs:1204-1230 | With keys distinct, reading a rewritten list gives a payload back byte for byte if and only if its key is no other payload's companion (or it spells the marker put in its place). |
| `OtlpPayloads.ShadowedPayloadIsDropped` | crates/wardex-codec/src/otlp/map.rs:1216-1229 | A payload filed under another's companion key is dropped; all a consumer can find there is the other's marker. |
| `OtlpPayloads.CapThenStripIsBounded` | crates/wardex-codec/src/otlp/map.rs:1305-1329 | Of any list that nothing is added to between the passes: no bytes value is left at any depth and every string is within the cap, the rewrite's own markers aside. |
| `OtlpPayloads.CapThenStripIsText` | crates/wardex-codec/src/otlp/map.rs:1238-1248 | Both passes take text to text at any depth: no string is cut inside a character, and a payload leaves as well-formed text whatever its bytes. |
| `OtlpPayloads.ListCutIffOver` | crates/wardex-codec/src/otlp/map.rs:1426-1489 | A list reports a cut if and only if some value was over the cap, and then everything fits. |
| `OtlpPayloads.StringCut` | crates/wardex-codec/src/otlp/map.rs:1440-1511 | A string is cut exactly when it is over the cap, to its longest well-formed prefix within it. |
| `OtlpPayloads.SmallPayloadsFit` | crates/wardex-codec/src/otlp/map.rs:1440-1511 | The early return at three quarters of the cap skips no cut that is needed. |
| `OtlpSpan.SpanCutIffOver` | crates/wardex-codec/src/otlp/map.rs:1305-1329 | A span with nothing over the cap is left alone; any other is marked truncated. |
| `OtlpSpan.BothPassesHold` | crates/wardex-codec/src/otlp/map.rs:1182-1202 | A span after both passes, the marking between them included: no bytes value anywhere, everything within the cap on its attributes, events and links, and the one thing past it the truncation marker, on a span something was cut from. |
| `OtlpSpan.SpanPayloadsReadBack` | crates/wardex-codec/src/otlp/map.rs:1305-1329 | A payload among a span's own attributes, shadowed by none, survives as `PayloadsReadBack` says if and only if it is not under the limitations key of a span something was cut from; there nothing is read. |
| `OtlpSpan.SquattedPayloadIsLost` | crates/wardex-codec/src/otlp/map.rs:1409-1421 | A concrete span whose payload under the limitations key is lost because another attribute was cut. |
| `OtlpSpan.MarkingHolds` | crates/wardex-codec/src/otlp/map.rs:1397-1424 | The marker is there afterwards, marking twice is marking once, and no other attribute changes. |
| `OtlpSpan.DroppingHolds` | crates/wardex-codec/src/otlp/map.rs:1354-1392 | A payload goes whole or not at all, the limit is named, and every other attribute reads as before. |
| `OtlpSpan.OtlpSpan.CapAttributes` | crates/wardex-codec/src/otlp/map.rs:1305-1329 | Cuts in place as the specification says. |
| `OtlpSpan.OtlpSpan.StripBytes` | crates/wardex-codec/src/otlp/map.rs:1182-1202 | Rewrites every attribute list of a span in place. |
| `OtlpSpan.OtlpSpan.DropPayloadAttributes` | crates/wardex-codec/src/otlp/map.rs:1354-1384 | Drops the payload in place and says whether there was one. |
| `OtlpAttributes.StripList` | crates/wardex-codec/src/otlp/map.rs:1204-1230 | Rewrite, drop stale companions, add markers: the specified list. |
| `OtlpAttributes.CapList` | crates/wardex-codec/src/otlp/map.rs:1426-1434 | Cuts each value of a list and says whether any was cut. |
| `OtlpAttributes.CapOne` | crates/wardex-codec/src/otlp/map.rs:1440-1489 | Cuts one value of any kind at any depth. |
| `Utf8.FloorBoundaryIsHighest` | crates/wardex-codec/src/otlp/map.rs:1502-1511 | The cut is the highest character boundary not above the index, and leaves well-formed text. |
| `Base64.DecodeInvertsEncode` | crates/wardex-codec/src/otlp/map.rs:1252-1276 | Decoding undoes the encoding a payload leaves under. |
| `Base64.EncodedLength` | crates/wardex-codec/src/otlp/map.rs:1493-1495 | The length predicted is the length encoded. |

## Left out

- HPACK, the header parser, JSON parsing, protobuf, gzip and every regular expression but the card's: not shown
  in the repository, so arbitrary functions here, under the assumptions named above.
- `catch_unwind` around HPACK, the engine cache and its mutex, diagnostics records, and `Limits` defaults: limits are arbitrary naturals.
- `http2.rs` content types: the cap a content type chooses, and the numbers a status or gRPC status spells, are functions given to the model.
- `http1.rs` header values: a header's value is its bytes, with no lossy UTF-8 conversion; the body cap of a content type is a function given to the model.
- `bytes_scanned` of the HTTP/1 parser, `is_idle` and `method_in_flight`: counters and accessors beside the state machine.
- Http1Residues.MessagesRoundTrip: every head answers an ordinary request; answers to HEAD and CONNECT are `Http1Answers`, and an unframed response, which only the end of the stream ends, is `Http1Bodies.UnframedEnding`.
- Http2Eviction.EvictionIsExact: speaks of the transaction's flag and contents for streams never reset, because a reset drops the entry by design.
- Http2Connection.Http2Connection.Feed: bounds movement by an amortised count that charges bytes held for the preface in advance, not by a bound on each read.
- Http2Conversation.ConversationIsReported: the streams fit the table, so nothing is evicted (`Http2Reports.TransactionsTell` covers eviction), the frames of one header block come together, and no PUSH_PROMISE is sent; what a body holds is said of a side that names no other content type after its DATA began, since the cap is chosen anew for each frame.
- NamedSecrets.DocumentIsMaskedByName: names hold no escape, and outside the secret values no `=` or colon stands inside a name or a string, where the scan would look for another argument or member.
- Http1Framing.HeadLeadsTo: the answer to a request that was neither HEAD nor CONNECT; those two are `Http1Answers`.
- JsonReader.MaskedContainerReadsBack: speaks of JSON as printed, in double quotes; single-quoted containers (a Python repr) are walked by the model but not covered by this theorem.
- NameScan.Scan: leaves out the multipart form fields, which the source scans first, and the rule and name recorded with each hit; the choice of the recorded name is `NameReadings.JudgeFormName`, given whether the name stands inside a double-quoted string.
- NestedArguments.MaskingSeesThroughEncoding: writes the placeholder over every hit, so a bare JSON number of the innermost text takes no quotes, as in an encoded value.
- NameWords.Words: characters outside ASCII are whatever the parameter says of them; the lists of secret words are not modelled.
- Cards.NoCardSurvives: positions count characters, not UTF-8 bytes, which are the same inside a candidate.
- MaskEdits.MaskText: `found` stands for the hits of the value and name rules, each within the text; the report of rules and names is only counted.
- OtlpAttributes.CapOne: nested lists are values that a call returns, where the source updates them in place.
- OtlpSpan.OtlpSpan.StripBytes: the source pass also rewrites the attributes of each resource and scope, lists like any other (`OtlpAttributes.StripList`) that the cap never touches.
- OtlpSplit.ExportIsFaithful: a codec error gives no result, and nothing is claimed of the requests made before it.
- Idempotence of masking: not claimed, since a redacted userinfo no longer protects what follows it from the value rules.
- Everything else in the repository: Python bindings, the envelope-to-span field mapping, gRPC and SSE decoding, semantic fills and configuration, which would only add easy members.
