# A verified model of the proxy client's protocol core

The program is a proxy client that sits between applications and a gateway. Most of it moves bytes; the parts
that decide what becomes of those bytes are small state machines, and this project models them and proves what
they promise. `dfyconfig.toml` takes in all modules.

**The request rewriter** (`ProtocolSniff`, `Http2Frames`, `Http2Stream`, `Http1Body`, `ChunkGrammar`, `Http1Stream`,
`Watcher`, with `Codec` and `Net`). A connection's `Read` sniffs the protocol, then edits HTTP/1 heads, re-encodes
HTTP/2 header blocks, or passes bytes through; bytes wait in two buffers, and the operating system may cut the
client's stream anywhere. `WatcherConn` is the connection with the fields the program gives it. `Transduce` says what
is owed for a stream as a function of the stream alone, and `ReadWith` proves that any script of reads, passing faults
included, any sequence of buffer sizes and any writes that announce no settings deliver it. `OutputIsUnitByUnit` and
`Http2Conserved` say what that output is made of on HTTP/2, for any codec and the settings the server announced in
between; `EveryStream` and `PipelineIsOwed` say it for HTTP/1, where `AcceptedIsAnyBody` and `AnyBodyIsAccepted` give
the language of chunked bodies the tracker takes. Header edits and HPACK are arbitrary functions that thread a state
and may fail; framing, buffering, chunk parsing and fragmentation are concrete (RFC 9112 section 7.1; RFC 9113
sections 3.4, 4.1, 4.3, 6.2 and 6.10).

**ClientHello parsing and replay** (`Sni`, `Replay`). The parser is an offset chase over a buffer, proved against a
staged function and against encoded hellos (RFC 8446 sections 4.1.2 and 5.1, RFC 6066 section 3). What is read
while peeking is given back exactly, except after a fault, and `PeekThenRead` says what is lost then.

**The IP-domain cache** (`CacheModel`, `IpDomainCache`). A class with a map of list elements, a recency list and a
reverse index of shared, mutable entries refines a plain cache value; the laws are proved about every run of that
value.

**Two protocols between goroutines** (`AsyncLog`, `RelayTeardown`). Each is a system of interleaved steps with an
invariant of every reachable state.

**DNS messages** (`DnsWire`; RFC 1035 section 4.1), **routing** (`RoutingRules`, `Routing`) from the user's
configuration to a decision, and **the configuration commit** (`CommitCoordinator`) with failing callbacks.

## Where the code does not do what one would expect

Each of these is kept as the code has it, and stated exactly.

- Priority bytes are not counted when the first header fragment is cut, so a frame can exceed the server's limit
  (`FrameSizesRespectLimitExactlyWhen`, with `OversizedHeadersFrame` as the instance).
- A server that announces a maximum frame size of zero, which the code accepts, makes the fragmentation loop spin
  on any block that is not empty (`FragmentationEndsExactlyWhen`). A read fails to return exactly when what is
  buffered, with what that read adds, holds such a block behind units that are forwarded (`Read`, with `Hits`), and
  then the server has announced that limit (`SpinsOnlyWhenAnnounced`).
- A chunk size may carry a sign, and a negative one counts as a chunk without data (`NegativeChunkIsAccepted`).
  Neither chunk extensions nor trailer lines are looked at, so any text passes as either
  (`AnyExtensionTextIsAccepted`). Which accepted bodies section 7.1 of RFC 9112 allows is `GrammaticalExactlyWhen`; of
  those in order otherwise, the ones without a sign (`UnsignedIsGrammaticalExactlyWhen`). Which have its outline, with
  the text of extensions and trailers left open, is `ConformsExactlyWhen` for a line and `BodyConformsExactlyWhen` for
  a body.
- The cut-off of 8192 bytes for sniffing is never reached: a decision falls by the 24th byte (`ClassifyMeaning`).
- The extension loop of the ClientHello parser does not stop at the end of the record. So "not found" is never
  final: any such buffer can be continued to any name (`NotFoundIsNotStable`), and for one stream the answer can
  depend on how the reads cut it. How long an answer lasts is `AnswerLastsExactlyWhile`; for which streams the cut
  matters is `CutMattersExactlyWhen`.
- An entry stored under two keys is lost to lookups by IP when one of them is removed (`AliasedEntryIsUnindexed`,
  reached in three operations by `AliasedEntryIsReached`, with the exact condition in `RemovalUnindexesExactly`). A
  store can take another key's reverse entry as well (`StoringAgainUnindexes`, exactly when in
  `StoringUnindexesExactly`).
- A preference for one address family still lets in the first address of the other
  (`OnlyPreferredExactlyWhen`).
- The DNS builder writes out of bounds exactly for names whose labels take more than 495 bytes
  (`BuildDnsQuery`, `QueryFitsExactlyWhen`), eight labels of 63 bytes among them (`LongNameDoesNotFit`).
- A commit that the database refuses leaves its file behind when the committed snapshot lives at another path
  (`RefusedContentStaysExactlyWhen`, `RefusedFileIsLeftBehind`).

## Model

| member | source | states |
|---|---|---|
| ProtocolSniff.ClassificationIsFinal | processor/watcher/wrapped_tls_watcher.go:212-239 | a prefix once classified is classified alike in every extension |
| ProtocolSniff.ClassifyMeaning | processor/watcher/wrapped_tls_watcher.go:187-239 | HTTP/2 exactly on the preface, HTTP/1 exactly on a method and a space in any case, undecided only below 24 bytes, so the sniff cut-off never applies |
| ProtocolSniff.MeaningOf | processor/watcher/wrapped_tls_watcher.go:217-236 | the branch order and the method loop come to a closed form, for any tables with the stated shape |
| ProtocolSniff.UpperMeaning | processor/watcher/wrapped_tls_watcher.go:217-236 | small letters are compared as capitals, and so are the two characters outside ASCII whose capitals are I and S |
| ProtocolSniff.Http1ByEndOfLine | processor/watcher/wrapped_tls_watcher.go:212-239 | a stream of HTTP/1 is known as such by the end of its first line |
| Http2Frames.ExtractionIsFinal | processor/watcher/http2_wrapper.go:520-565 | a header sequence found complete or broken is found so whatever follows |
| Http2Frames.NextUnitIsFinal | processor/watcher/http2_wrapper.go:276-303 | the same for whatever the request loop takes off its buffer |
| Http2Frames.NextUnitTruncated | processor/watcher/http2_wrapper.go:520-565 | a unit is self-delimiting: alone it is read the same |
| Http2Frames.NextUnitMeaning | processor/watcher/http2_wrapper.go:520-565 | what is found at the front of a buffer, by the frames a reader finds there: a frame alone, or HEADERS up to the first frame that does not leave the block open, which completes it or breaks it by its type or stream |
| Http2Frames.EncodedFrameReadsBack | processor/watcher/http2_wrapper.go:584-594 | a written frame has the length, type, flags, stream and payload that the reader finds, and nothing more |
| Http2Frames.FramesReadBack | processor/watcher/http2_wrapper.go:584-594 | a reader finds the frames written, in order, whatever follows them |
| Http2Frames.FrameOnTheWire | processor/watcher/http2_wrapper.go:668-680 | the bytes of a HEADERS frame with END_STREAM, END_HEADERS and a priority, and of a CONTINUATION |
| Http2Frames.FragmentBlock | processor/watcher/http2_wrapper.go:651-687 | the loop writes exactly the frames of a header block, fails exactly when the frame writer refuses one, and goes on for ever exactly when a limit of zero meets a block that is not empty |
| Http2Frames.FragmentsCarryBlock | processor/watcher/http2_wrapper.go:657-685 | the frames are one header sequence: priority and block between them, HEADERS and then CONTINUATIONs on one stream, the flags as they must be, every frame but the last full |
| Http2Frames.WrittenCarriesBlock | processor/watcher/http2_wrapper.go:657-687 | a reader of the bytes written finds such frames |
| Http2Frames.WrittenExactlyWhen | processor/watcher/http2_wrapper.go:659-685 | bytes come out if and only if the stream is not 0, the limit carries the block, and no payload has 2^24 bytes |
| Http2Frames.FrameSizesRespectLimitExactlyWhen | processor/watcher/http2_wrapper.go:659-677 | every frame is within the server's limit if and only if there is no priority or it fits beside the whole block |
| Http2Frames.OversizedHeadersFrame | processor/watcher/http2_wrapper.go:668-677 | a block of 16384 bytes with priority makes a payload of 16389 bytes under a limit of 16384 |
| Http2Frames.FragmentsReassemble | processor/watcher/http2_wrapper.go:520-565 | the extractor takes back exactly the bytes the fragmentation loop wrote, whatever follows |
| Http2Frames.OneTurnPerFrame | processor/watcher/http2_wrapper.go:659-685 | the loop takes one turn for each frame it has to write |
| Http2Frames.FragmentationEndsExactlyWhen | processor/watcher/http2_wrapper.go:652-663 | the loop ends if and only if the limit is positive or the block is empty, and that is when FragmentBlock does not report spinning |
| Http2Stream.RewriteIsHeaderSequence | processor/watcher/http2_wrapper.go:295-355 | a rewritten header sequence is one header sequence of the same stream with the same END_STREAM |
| Http2Stream.RewriteCarriesBlock | processor/watcher/http2_wrapper.go:295-355 | a rewrite, read frame by frame, carries the whole re-encoded block and its priority, cut by the limit; the codec moves on and the limit stays |
| Http2Stream.ForwardsExactlyWhen | processor/watcher/http2_wrapper.go:276-355 | a unit is forwarded if and only if it is no header sequence, or one that decodes and can be written; any other frame as it is |
| Http2Stream.ContextAfter | processor/watcher/http2_wrapper.go:49-79 | after any history, the codec has seen each header sequence and each announced table size in order, and the limit is the one announced last |
| Http2Stream.OutputIsUnitByUnit | processor/watcher/http2_wrapper.go:276-436 | over any history, output is one piece per unit in order; frames outside header sequences are byte-identical; each header sequence is replaced by frames that carry what the codec makes of it at that moment, cut by the limit announced last |
| Http2Stream.ReplayIsRelay | processor/watcher/wrapped_tls_watcher.go:143-158 | while settings do not change, output is determined by the bytes and not by how they were cut |
| Http2Stream.RelayExtended | processor/watcher/wrapped_tls_watcher.go:254-270 | what is relayed of a prefix, fallback included, is a prefix of what is relayed of the whole |
| Http2Stream.HangsExactlyWhen | processor/watcher/http2_wrapper.go:652-663 | a rewrite spins if and only if a block that is not empty meets a limit of zero, and then it yields nothing |
| Http2Stream.LimitIsLastAnnounced | processor/watcher/http2_wrapper.go:652-655 | that limit is the value of the last announcement of a maximum frame size, or the first limit while there is none |
| Http1Body.FeedSplit | processor/watcher/http1_wrapper.go:154-244 | chunk parsing of a concatenation is parsing the parts in turn: total, done, error and state |
| Http1Body.TrackSplit | processor/watcher/http1_wrapper.go:131-244 | split invariance in every body mode; an unfinished part is consumed completely |
| Http1Body.SpaceExactlyWhen | processor/watcher/http1_wrapper.go:169-175 | what is trimmed is the UTF-8 of the code points that count as white space |
| Http1Body.TrimLeftMeaning | processor/watcher/http1_wrapper.go:169-175 | trimming on the left takes white space only, and all of it |
| Http1Body.TrimRightMeaning | processor/watcher/http1_wrapper.go:169-175 | so does trimming on the right |
| Http1Body.HexReadsBack | processor/watcher/http1_wrapper.go:180-183 | the digits of a number in base 16, of either case, are read as that number |
| Http1Body.DigitsAreOfValue | processor/watcher/http1_wrapper.go:180-183 | any digits are, but for case and leading zeros, those of the number they are read as |
| Http1Body.SizeReadsBack | processor/watcher/http1_wrapper.go:169-183 | a size line written in base 16, with any extension, gives that size below 2^63 and is refused from there on |
| Http1Body.SizeLineReadsBack | processor/watcher/http1_wrapper.go:169-187 | the size of a line with any blanks and extension is its hex digits' value |
| Http1Body.SignedTokenIsRead | processor/watcher/http1_wrapper.go:180-183 | a sign before hex digits is accepted and a minus negates the size |
| Http1Body.TokenIsHexExactlyWhen | processor/watcher/http1_wrapper.go:175-183 | an accepted size token is all hex digits if and only if it carries no sign |
| Http1Body.SignedSizeLineReadsBack | processor/watcher/http1_wrapper.go:169-183 | the same for a line with blanks and an extension behind the signed size |
| Http1Body.ConformsExactlyWhen | processor/watcher/http1_wrapper.go:169-183 | an accepted size line is hex digits, blanks and, behind a semicolon, any text if and only if it starts with a hex digit and only blanks follow the digits |
| Http1Body.AnyBodyIsAccepted | processor/watcher/http1_wrapper.go:154-244 | every body of accepted lines, with no data where a size is negative, is consumed exactly and its end reported |
| Http1Body.AcceptedIsAnyBody | processor/watcher/http1_wrapper.go:154-244 | nothing else is: whatever is consumed up to a reported end is such a body |
| Http1Body.FailsExactlyWhen | processor/watcher/http1_wrapper.go:154-244 | the parser fails if and only if accepted chunks are followed by a line that is no size or by a chunk whose data no line break follows, and there |
| Http1Body.SameBody | processor/watcher/http1_wrapper.go:154-244 | an accepted body can be read in one way only |
| Http1Body.BodyConformsExactlyWhen | processor/watcher/http1_wrapper.go:154-244 | an accepted body has the outline of section 7.1, the text of extensions and trailers left open, if and only if all its size lines have |
| Http1Body.UnsignedExactlyWhen | processor/watcher/http1_wrapper.go:169-191 | of bodies without white space in other places, those with that outline are exactly those without a sign |
| Http1Body.NegativeChunkIsAccepted | processor/watcher/http1_wrapper.go:188-197 | a chunk of negative size is accepted without data though no body with that outline, so none of section 7.1, reads like it |
| Http1Body.ChunkedRoundTrip | processor/watcher/http1_wrapper.go:154-244 | of chunks sent behind the number of their bytes in base 16, zero and trailer lines, followed by anything, exactly the body is consumed and its end reported |
| ChunkGrammar.GrammaticalExactlyWhen | processor/watcher/http1_wrapper.go:154-244 | an accepted body is one that the grammar of section 7.1 gives if and only if its size lines start with a hex digit, what follows the size is a chunk-ext of the grammar, and its trailer lines are field lines |
| ChunkGrammar.UnsignedIsGrammaticalExactlyWhen | processor/watcher/http1_wrapper.go:169-191 | of accepted bodies with such extensions and trailers and no white space in front of a size, the grammar gives exactly those without a sign |
| ChunkGrammar.AnyExtensionTextIsAccepted | processor/watcher/http1_wrapper.go:169-187 | a size line whose extension has no name is accepted, outside the grammar |
| Http1Body.BodyTracker.constructor | processor/watcher/http1_wrapper.go:83-95 | a new tracker starts at a chunk-size line with the given mode and length |
| Http1Body.BodyTracker.Consume | processor/watcher/http1_wrapper.go:131-152 | the tracker object does what the split-invariant function says, result and new fields |
| Http1Body.BodyTracker.ConsumeChunks | processor/watcher/http1_wrapper.go:154-244 | the loop with its runs over data does what feeding byte by byte does |
| Http1Body.BodyTracker.ConsumeData | processor/watcher/http1_wrapper.go:192-206 | the case of chunk data, a run at a time, agrees with feeding byte by byte |
| Http1Body.BodyTracker.ConsumeTerminator | processor/watcher/http1_wrapper.go:209-224 | the inner loop over CRLF, in its three outcomes, agrees with feeding byte by byte |
| Http1Body.BodyTracker.SizeLineByte | processor/watcher/http1_wrapper.go:159-191 | one byte of a size line |
| Http1Body.BodyTracker.TrailerByte | processor/watcher/http1_wrapper.go:226-239 | one byte of a trailer line; an empty line ends the body |
| Http1Stream.HeadLengthExtended | processor/watcher/http1_wrapper.go:246-254 | a complete head stays the same head when more arrives |
| Http1Stream.HeadLengthMeaning | processor/watcher/http1_wrapper.go:248-254 | a head is over where two line breaks first meet |
| Http1Stream.HeadOfLines | processor/watcher/http1_wrapper.go:248-254 | a head of lines is taken whole, whatever follows, and nothing of it before it is complete |
| Http1Stream.HeadHasLines | processor/watcher/http1_wrapper.go:248-254 | and every head is one of lines |
| Http1Stream.TransformSplit | processor/watcher/http1_wrapper.go:246-324 | segmentation independence: handling what has come and then the rest is handling it all, and a malformed stream is so however it is cut |
| Http1Stream.BodyTaken | processor/watcher/http1_wrapper.go:102-129 | the body bytes a turn takes are handled alike on their own, with nothing left over |
| Http1Stream.HeadTaken | processor/watcher/http1_wrapper.go:246-324 | so are a head and the body bytes that a turn takes with it |
| Http1Stream.PipelineIsRewritten | processor/watcher/http1_wrapper.go:102-129 | pipelined requests, with heads of any lines and any bodies the tracker accepts, come out as rewritten head and unchanged body, each in order, with nothing left over |
| Http1Stream.EveryStream | processor/watcher/http1_wrapper.go:246-324 | every stream is complete requests and a rest; the requests come out rewritten, the rest waits, is passed on as far as it is body, or makes the stream malformed, by its head or by its chunks |
| Watcher.WatcherConn.constructor | processor/watcher/wrapped_tls_watcher.go:60-73 | a new connection satisfies the invariant with nothing received or delivered |
| Watcher.WatcherConn.ReadFromPending | processor/watcher/wrapped_tls_watcher.go:134-141 | delivers a prefix of the pending bytes as long as the buffer allows and keeps the rest |
| Watcher.WatcherConn.ExtractCompleteHeaderSequence | processor/watcher/http2_wrapper.go:520-565 | the offset loop finds what the extraction function finds |
| Watcher.WatcherConn.RewriteHeaders | processor/watcher/http2_wrapper.go:596-688 | decoding, editing and fragmenting one sequence gives its rewrite and the next codec state, fails, or spins exactly when the loop would |
| Watcher.WatcherConn.ProcessHttp2RequestFrames | processor/watcher/http2_wrapper.go:276-436 | forwards units until one is incomplete, or stops at one that can never be forwarded, with the buffer at that unit, or spins, exactly when one that hangs stands behind units that are forwarded; adds only units taken to the history |
| Watcher.WatcherConn.FallbackHttp2ToPassthrough | processor/watcher/wrapped_tls_watcher.go:254-270 | sends the preface if unsent, what was forwarded, and the whole buffer |
| Watcher.WatcherConn.GiveUp | processor/watcher/wrapped_tls_watcher.go:144-149 | from the offending unit on everything is owed verbatim |
| Watcher.WatcherConn.ConsumeHttp1Body | processor/watcher/http1_wrapper.go:102-129 | body bytes leave the buffer unchanged and the stream's meaning is kept |
| Watcher.WatcherConn.ConsumeInlineBody | processor/watcher/http1_wrapper.go:291-310 | the part of a body that came with its head is taken as if it had come alone |
| Watcher.WatcherConn.NewTracker | processor/watcher/http1_wrapper.go:78-100 | a tracker for chunked or sized bodies and none otherwise |
| Watcher.WatcherConn.ProcessH1ReqHeaders | processor/watcher/http1_wrapper.go:246-324 | a complete head and the body bytes at hand leave together; an error suppresses both and changes nothing |
| Watcher.WatcherConn.PrepareHttp2 | processor/watcher/wrapped_tls_watcher.go:144-158 | the preface goes out once, before anything forwarded; spins exactly when the buffer holds a block that hangs |
| Watcher.WatcherConn.Sniff | processor/watcher/wrapped_tls_watcher.go:187-209 | a decision sets exactly the mode it names, takes off only the preface, and keeps the invariant |
| Watcher.WatcherConn.PrepareBufferedOutput | processor/watcher/wrapped_tls_watcher.go:143-210 | every branch keeps the invariant and what was announced, no progress means that nothing can be made of the buffer, and it spins exactly on HTTP/2 with a block that hangs |
| Watcher.WatcherConn.FillBuffer | processor/watcher/wrapped_tls_watcher.go:113-131 | bytes read join the end of the buffer and keep the invariant |
| Watcher.WatcherConn.MoveToPending | processor/watcher/wrapped_tls_watcher.go:92-98 | what was buffered when the connection became transparent is delivered first |
| Watcher.WatcherConn.ReadThrough | processor/watcher/wrapped_tls_watcher.go:99-100 | a transparent connection delivers what it reads |
| Watcher.WatcherConn.Produce | processor/watcher/wrapped_tls_watcher.go:102-111 | output made is pending for the next read; without output an HTTP/2 buffer is unchanged; spins exactly when the buffer holds a block that hangs |
| Watcher.WatcherConn.Advance | processor/watcher/wrapped_tls_watcher.go:102-131 | one turn keeps the invariant and what was announced, comes closer to a result, and spins exactly when the buffer holds a block that hangs |
| Watcher.WatcherConn.Round | processor/watcher/wrapped_tls_watcher.go:87-131 | one turn of the reading loop: what it returns, what it adds to the buffer, and that it comes closer to a result |
| Watcher.WatcherConn.Read | processor/watcher/wrapped_tls_watcher.go:86-132 | keeps the invariant and the history, to which it only adds units taken; gives data or uses up input; reports an error of the connection only when nothing is owed; and fails to return exactly when the buffer with what this read adds holds a block that hangs |
| Watcher.WatcherConn.SettledMeansDelivered | processor/watcher/wrapped_tls_watcher.go:86-158 | when nothing more can be made of what has come, all that is owed for it was delivered |
| Watcher.WatcherConn.DeliveredIsOwed | processor/watcher/wrapped_tls_watcher.go:160-185 | at any time, delivered and pending bytes are owed for a part of what has come in which nothing is malformed, on HTTP/1 exactly for what has left the buffer |
| Watcher.WatcherConn.DeliveredIsPrefix | processor/watcher/wrapped_tls_watcher.go:86-210 | at any time, delivered and pending bytes are a prefix of what is owed for all that has come, unless that is malformed |
| Watcher.WatcherConn.Http2Conserved | processor/watcher/wrapped_tls_watcher.go:86-158 | in every reachable state, received is preface, units taken and buffer; delivered and pending are preface, the units forwarded, header sequences by frames that carry what the codec makes of them, and, after a failure, the rest verbatim; the announcements in between are exactly those in the server's bytes observed since the connection was taken for HTTP/2, and codec and limit are what the history leaves |
| Watcher.WatcherConn.SpinsOnlyWhenAnnounced | processor/watcher/http2_wrapper.go:652-663 | that happens only after the server has announced a maximum frame size of zero |
| Watcher.WatcherConn.BrokenMeansMalformed | processor/watcher/wrapped_tls_watcher.go:160-185 | a request error is raised only for a malformed stream |
| Watcher.WatcherConn.ApplyHttp2Setting | processor/watcher/http2_wrapper.go:49-79 | a setting enters the history; a table size resizes the codec, a maximum frame size becomes the limit, others change neither |
| Watcher.WatcherConn.ParseSettingsFrame | processor/watcher/http2_wrapper.go:81-93 | the entries of a payload are applied in order, none of a payload with a broken entry |
| Watcher.WatcherConn.TakeResponseFrame | processor/watcher/http2_wrapper.go:441-459 | SETTINGS frames that are no acknowledgements are applied, and the frame leaves the buffer |
| Watcher.WatcherConn.ObserveHttp2ResponseFrames | processor/watcher/http2_wrapper.go:438-518 | announcements come out in order and the incomplete frame stays buffered |
| Watcher.WatcherConn.Write | processor/watcher/wrapped_tls_watcher.go:272-281 | the server's bytes go through unchanged; on an HTTP/2 connection that is rewritten they are observed, so that history and buffer stay those of all bytes observed, and otherwise they are not |
| Watcher.AnnouncementsSplit | processor/watcher/http2_wrapper.go:438-518 | what a response announces does not depend on how it is cut |
| Watcher.FrameAnnounces | processor/watcher/http2_wrapper.go:438-459 | a frame announces the entries of its payload if it is SETTINGS without ACK and whole, and nothing otherwise |
| Watcher.SettingsReadBack | processor/watcher/http2_wrapper.go:81-93 | settings written in one frame are announced as written, whatever follows |
| Watcher.SettingsOnTheWire | processor/watcher/http2_wrapper.go:81-93 | a table of 4096 bytes and frames of 32768, from the bytes |
| Watcher.CannotForwardIsFinal | processor/watcher/http2_wrapper.go:276-321 | a unit that cannot be forwarded stays so when more arrives |
| Watcher.CannotForwardExactlyWhen | processor/watcher/http2_wrapper.go:276-355 | forwarding ends for good if and only if a header block is broken into, does not decode, is on stream 0 or needs a payload of 2^24 bytes |
| Watcher.MalformedExtended | processor/watcher/http1_wrapper.go:246-324 | a malformed stream stays malformed |
| Watcher.TransduceExtended | processor/watcher/wrapped_tls_watcher.go:143-210 | what is owed for a prefix of a stream is a prefix of what is owed for the stream |
| Watcher.PipelineIsOwed | processor/watcher/http1_wrapper.go:246-324 | for pipelined requests, what is owed is each rewritten head and unchanged body in order |
| Watcher.ReadWith | processor/watcher/wrapped_tls_watcher.go:86-132 | any cutting of the stream, any buffer sizes, any passing faults and any writes without announcements in between deliver the same function of the stream, never more on the way; of a stream malformed somewhere, what is owed for a part before that; no request error without malformed input, and the end within a bounded number of reads |
| Sni.ParseSniFromBuffer | processor/tls/tls_sni_helper.go:12-105 | all reads are in bounds, the loop ends, and every answer is that of the staged definition |
| Sni.ParseFromCiphers | processor/tls/tls_sni_helper.go:41-64 | the same from the cipher suites on |
| Sni.ParseExtensions | processor/tls/tls_sni_helper.go:66-104 | the same for the extension loop |
| Sni.SuccessIsStable | processor/tls/tls_sni_helper.go:12-105 | a name found is found again whatever is appended |
| Sni.AnswerBecomes | processor/tls/tls_sni_helper.go:12-105 | a final answer stays for ever, any other while the failing guard is short of bytes, then it is another, except that after "not found" the loop goes on with what it had not looked at |
| Sni.AnswerLastsExactlyWhile | processor/tls/tls_sni_helper.go:12-105 | an answer survives all continuations of up to k bytes if and only if it is final or k is less than what is missing |
| Sni.SameAtEveryCutExactlyWhen | processor/tls/tls_sni_helper.go:66-104 | the answer is the same however many of the following bytes have come if and only if it is final, they are too few, or nothing was found and they make only empty extensions |
| Sni.NotFoundReadsOn | processor/tls/tls_sni_helper.go:66-104 | after "not found" any further bytes are read behind the fewer than four that the loop left |
| Sni.FindInExtensions | processor/tls/tls_sni_helper.go:66-104 | the first server_name extension decides, wherever it stands; without one, what follows the extensions does |
| Sni.HelloReachesExtensions | processor/tls/tls_sni_helper.go:12-64 | a well-formed hello is read up to its extensions |
| Sni.HostNameIsFound | processor/tls/tls_sni_helper.go:12-105 | a well-formed hello's host name is returned, whatever follows the record |
| Sni.HelloOnTheWire | processor/tls/tls_sni_helper.go:12-105 | a hello for a.io, from the bytes |
| Sni.NamelessHelloReadsOn | processor/tls/tls_sni_helper.go:66-104 | behind a hello without the extension the bytes after its record are read as extensions, so fewer than four change nothing |
| Sni.NoHostNameIsFound | processor/tls/tls_sni_helper.go:66-104 | without the extension the hello alone has no name |
| Sni.NotFoundIsNotStable | processor/tls/tls_sni_helper.go:66-104 | every buffer without a name can be continued to give any name |
| Replay.ExtractSni | processor/tls/tls_sni_helper.go:107-155 | the bytes returned are exactly those consumed, or none after a failure; answer and bytes are a function of the reads, and on a sound connection they are the parse of a cut of the stream |
| Replay.PeekIsAnswer | processor/tls/tls_sni_helper.go:107-155 | however a stream without faults is cut, its complete record is parsed with less than one read more |
| Replay.AnyCutHappens | processor/tls/tls_sni_helper.go:107-155 | and each such cut is what some sequence of reads leads to |
| Replay.CutMattersExactlyWhen | processor/tls/tls_sni_helper.go:107-155 | two ways of cutting a stream get different answers if and only if the record alone has no final one and the bytes behind it complete what is missing and are not only empty extensions |
| Replay.AnyReadOfHelloFindsHostName | processor/tls/tls_sni_helper.go:107-155 | however much was read with the hello, its host name is found |
| Replay.SeenEnoughExactlyWhen | processor/tcp/handler.go:868-885 | prefetching stops on a blank line, with or without carriage returns, or when no method begins as the bytes do |
| Replay.PrefetchApplicationData | processor/tcp/handler.go:801-856 | at most the limit is read, on every return path exactly the bytes consumed are returned, and bytes and error are a function of the reads |
| Replay.PrefetchMeaning | processor/tcp/handler.go:801-856 | without faults, no less is returned than the first bytes that are enough, and less than one read more |
| Replay.WrapBufferedConn | processor/tcp/handler.go:858-866 | a wrapper exactly where there is something to replay, with the whole stream ahead |
| Replay.WrappedConn.constructor | processor/tcp/handler.go:862-865 | a new wrapper shows the buffer and then the connection |
| Replay.WrappedConn.Read | processor/tcp/types.go:78-98 | a read takes its bytes off the front of the remaining stream, buffer first |
| Replay.PeekThenRead | processor/tcp/handler.go:801-866 | after either way of peeking, any reads yield the original stream less the bytes lost, which are none unless the search for a name met a fault or the end within five bytes |
| CacheModel.StepKeepsInv | processor/cache/ipdomain.go:61-245 | every operation keeps the bijection, the bound, and sound buckets |
| CacheModel.ReachableInv | processor/cache/ipdomain.go:61-245 | so they hold in every reachable state, for any capacity |
| CacheModel.RemovalUnindexesExactly | processor/cache/ipdomain.go:179-195 | removing a key takes another's reverse entry exactly when they share IP and domain |
| CacheModel.AddingUnindexesExactly | processor/cache/ipdomain.go:129-146 | storing an entry in the reverse index takes another's place exactly when they share IP and domain |
| CacheModel.StoringUnindexesExactly | processor/cache/ipdomain.go:92-146 | a store takes another key's reverse entry exactly when the stored entry is another of the same IP and domain, or when the evicted one is of them and the stored one is not that entry itself |
| CacheModel.StoringAgainUnindexes | processor/cache/ipdomain.go:129-146 | two stores of different entries with one IP and domain leave the first one outside its bucket |
| CacheModel.AliasedEntryIsUnindexed | processor/rules/engine.go:318-339 | an entry under two keys is lost to lookups by IP once one key goes |
| CacheModel.AliasedEntryIsReached | processor/rules/engine.go:318-339 | storing one entry under two keys and deleting one of them gets there |
| CacheModel.ReachableIndexed | processor/cache/ipdomain.go:92-211 | where each key is its entry's domain, every forward entry is in its IP's bucket |
| CacheModel.OrderIsRecency | processor/cache/ipdomain.go:61-125 | list order is the order of last successful Get or Set |
| CacheModel.EvictedIsLeastRecent | processor/cache/ipdomain.go:113-124 | a full cache loses exactly the least recently used key |
| CacheModel.FoundIsLastStored | processor/cache/ipdomain.go:61-125 | what is found was the last stored there, and nothing ended it since |
| CacheModel.RecentlyUsedIsKept | processor/cache/ipdomain.go:61-125 | a key used and not dropped since is kept as long as fewer other keys than the capacity have been used |
| CacheModel.HitsAndMissesCountGets | processor/cache/ipdomain.go:61-89 | hits and misses add up to the lookups since the last Clear |
| CacheModel.StatisticsMeaning | processor/cache/ipdomain.go:61-124 | hits are the lookups that found a live entry, misses the others, evictions the stores without room for their new key, each since the last Clear |
| IpDomainCache.IPDomainCache.constructor | processor/cache/ipdomain.go:44-57 | a new cache is the empty one |
| IpDomainCache.IPDomainCache.Get | processor/cache/ipdomain.go:61-89 | refines the plain lookup; returns the stored object, counted, while the clock has not passed its expiry, and drops it when it has |
| IpDomainCache.IPDomainCache.Set | processor/cache/ipdomain.go:92-125 | refines the plain store; times are filled in only when unset |
| IpDomainCache.IPDomainCache.Replace | processor/cache/ipdomain.go:105-111 | an existing key gets the new entry in place and moves to the front |
| IpDomainCache.IPDomainCache.Insert | processor/cache/ipdomain.go:113-124 | a new key evicts the oldest when there is no room |
| IpDomainCache.IPDomainCache.UpdateIPIndex | processor/cache/ipdomain.go:129-146 | the entry replaces that of its domain in its IP's bucket |
| IpDomainCache.IPDomainCache.SetWithTTL | processor/cache/ipdomain.go:149-152 | stores with the given lifetime |
| IpDomainCache.IPDomainCache.Delete | processor/cache/ipdomain.go:155-175 | refines the plain removal and says whether the key was there |
| IpDomainCache.IPDomainCache.RemoveFromIPIndex | processor/cache/ipdomain.go:179-195 | the domain leaves the bucket, an empty bucket goes |
| IpDomainCache.IPDomainCache.EvictOldest | processor/cache/ipdomain.go:199-211 | the last list element leaves list, map and index, and is counted |
| IpDomainCache.IPDomainCache.Cleanup | processor/cache/ipdomain.go:224-245 | exactly the keys whose expiry the clock has passed go, in whatever order the map yields them |
| IpDomainCache.IPDomainCache.GetByIP | processor/cache/ipdomain.go:253-272 | the live entries of the bucket, in order |
| IpDomainCache.IPDomainCache.AliveMeaning | processor/cache/ipdomain.go:253-272 | each entry of a bucket is listed, in its place, exactly if the clock has not passed its expiry |
| IpDomainCache.IPDomainCache.Clear | processor/cache/ipdomain.go:430-440 | back to the empty cache, statistics included |
| IpDomainCache.IPDomainCache.Size | processor/cache/ipdomain.go:443-447 | list length and map size agree |
| IpDomainCache.CacheResult | processor/rules/engine.go:318-339 | one object is stored under domain and IP |
| AsyncLog.StepKeepsInv | common/logger/async_writer.go:42-126 | every atomic step of any caller or the worker keeps the invariant |
| AsyncLog.Reachable | common/logger/async_writer.go:42-126 | so it holds after any interleaving |
| AsyncLog.HandedInOrder | common/logger/async_writer.go:115-126 | exactly the non-empty payloads enqueued so far are handed over, once each and in order |
| AsyncLog.PayloadsMeaning | common/logger/async_writer.go:115-126 | payloads are those of the items in order, none of barriers and none that are empty |
| AsyncLog.FlushIsBarrier | common/logger/async_writer.go:64-90 | an acknowledged Flush: all that was enqueued before its barrier has been handed over |
| AsyncLog.WriteReportsEnqueued | common/logger/async_writer.go:42-62 | a Write reports bytes exactly for a payload that is on the queue's record |
| AsyncLog.OpenWriterAccepts | common/logger/async_writer.go:42-90 | while nothing has been closed, a Write that has returned reports all its bytes, which are on the record, and a Flush that has returned was acknowledged |
| AsyncLog.RefusedExactlyWhenClosed | common/logger/async_writer.go:42-62 | a Write reports the writer as closed exactly when it was so as the call looked |
| AsyncLog.SendWaitsExactlyWhenFull | common/logger/async_writer.go:42-62 | a caller waits to send exactly while 1024 items are queued |
| AsyncLog.CloseDrains | common/logger/async_writer.go:92-113 | when a Close has returned, the queue is drained and all was handed over |
| AsyncLog.NothingAfterStop | common/logger/async_writer.go:92-126 | after the worker's end nothing is enqueued or handed over |
| AsyncLog.WriterClosedLast | common/logger/async_writer.go:104-108 | the underlying writer is closed only when everything has been handed over |
| AsyncLog.NoDeadlock | common/logger/async_writer.go:42-126 | while a call is open, somebody can move |
| AsyncLog.StepsLowerMeasure | common/logger/async_writer.go:42-126 | every step that changes the state, other than a new call, lowers one measure |
| AsyncLog.EffectiveStepsAreBounded | common/logger/async_writer.go:42-126 | so without new calls only so many steps can change anything, in any schedule |
| AsyncLog.AllCallsReturn | common/logger/async_writer.go:42-126 | and from every reachable state some such steps bring all open calls to their return |
| AsyncLog.AnyCallReturns | common/logger/async_writer.go:42-126 | in every reachable state another call can be made, and can be brought to return |
| AsyncLog.WorkerDrains | common/logger/async_writer.go:115-126 | the worker alone hands over everything enqueued |
| RelayTeardown.StepKeepsInv | processor/tcp/relay.go:53-92 | every atomic store, load and guarded step keeps the invariant |
| RelayTeardown.ClosesOnlyWhenBothDone | processor/tcp/relay.go:53-92 | no connection is closed before both directions are done |
| RelayTeardown.BothReturnedMeansClosedOnce | processor/tcp/relay.go:53-92 | once both calls have returned each connection has been closed exactly once |
| RelayTeardown.NeverClosedTwice | processor/tcp/relay.go:76-91 | at no time has a connection been closed twice |
| RelayTeardown.SomebodyProgresses | processor/tcp/relay.go:53-92 | until both have returned, one of them can go on |
| RelayTeardown.BothCanReturn | processor/tcp/relay.go:53-92 | from every reachable state both calls can be brought to return |
| RelayTeardown.TeardownHappens | processor/tcp/relay.go:53-92 | one direction after the other: the first leaves the connections alone, the second closes them |
| DnsWire.BuildDnsQuery | processor/dns/dialer_resolver.go:138-205 | writes the query when it fits 512 bytes and goes out of bounds exactly when it does not |
| DnsWire.QueryReadsBack | processor/dns/dialer_resolver.go:138-205 | a query holds its ID, recursion desired, one question, the labels of the name as far as they are sent, type and class |
| DnsWire.SplitMeaning | processor/dns/dialer_resolver.go:173-174 | labels are what stands between the dots |
| DnsWire.QueryFitsExactlyWhen | processor/dns/dialer_resolver.go:138-205 | the query fits if and only if its labels, cut and with their length bytes, take at most 495 bytes |
| DnsWire.LongNameDoesNotFit | processor/dns/dialer_resolver.go:174-188 | eight labels of 63 bytes do not fit |
| DnsWire.PutLabels | processor/dns/dialer_resolver.go:174-188 | the label loop: empty labels skipped, long ones cut |
| DnsWire.EncodedLength | processor/dns/dialer_resolver.go:174-190 | encoding adds at most one byte to a name |
| DnsWire.QueryFitsAndIsSkipped | processor/dns/dialer_resolver.go:138-205 | names up to 253 bytes fit, and the parser's question skip stops exactly at QTYPE |
| DnsWire.SkipQuestion | processor/dns/dialer_resolver.go:240-254 | the skip loop ends, never reads out of bounds, and stops where the name does |
| DnsWire.SkipName | processor/dns/dialer_resolver.go:262-276 | the same for a record's name |
| DnsWire.ParseRecords | processor/dns/dialer_resolver.go:260-319 | the answer loop reads in bounds and collects what the definition collects |
| DnsWire.ParseDnsResponse | processor/dns/dialer_resolver.go:208-326 | every error and result is that of the definition, on every input |
| DnsWire.HeaderErrors | processor/dns/dialer_resolver.go:208-238 | each error of the header comes exactly from the bytes it is about |
| DnsWire.RecordParsed | processor/dns/dialer_resolver.go:262-319 | an encoded record with plain or pointer name is taken apart exactly |
| DnsWire.AnswersParsed | processor/dns/dialer_resolver.go:260-319 | encoded records give the selection among them |
| DnsWire.CutAnswersParsed | processor/dns/dialer_resolver.go:260-319 | a response cut off in one of its answers gives the selection from those before it |
| DnsWire.ResponseParsed | processor/dns/dialer_resolver.go:208-326 | a well-formed response gives exactly the selection from its answers, whatever sections follow |
| DnsWire.SelectionMeaning | processor/dns/dialer_resolver.go:302-316 | all preferred addresses in order, after the very first address when that is not preferred |
| DnsWire.OnlyPreferredExactlyWhen | processor/dns/dialer_resolver.go:302-316 | only preferred addresses are returned if and only if the first one is preferred |
| RoutingRules.NormalizedIsIdempotent | processor/routing/snapshot.go:444-444 | normalising twice is normalising once |
| RoutingRules.CharactersMeaning | processor/routing/snapshot.go:444-444 | which characters are blanks, and which are made small to what |
| RoutingRules.NormalFormMeaning | processor/routing/snapshot.go:444-444 | a normal form is what stands between the outer blanks, made small |
| RoutingRules.MatchDomainMeaning | processor/routing/decision_engine.go:211-231 | equality, or a wildcard whose suffix has something non-empty before it |
| RoutingRules.DedupeNormalizedDomains | processor/routing/snapshot.go:436-455 | each normal form where it first occurs, blanks dropped |
| RoutingRules.DedupeFromMembers | processor/routing/snapshot.go:436-455 | exactly the non-blank normal forms are kept |
| RoutingRules.DedupeSnoc | processor/routing/snapshot.go:436-455 | one more entry is listed last, unless it is blank or its normal form is listed already |
| RoutingRules.DedupeWithOwnNormalForm | processor/routing/snapshot.go:333-357 | a list with its own normal form appended dedupes as the list alone |
| Routing.ValidateMeaning | processor/config/routing_schema.go:140-198 | a schema passes if and only if mode, upstream, every rule target and the default are available |
| Routing.ComplaintMeaning | processor/config/routing_schema.go:140-198 | what is complained of, check by check, and of several rules at fault the first |
| Routing.MatchesExactlyWhen | processor/routing/decision_engine.go:167-231 | a rule matches by its domain or its prefix, and a rule of any other type never |
| Routing.TargetsMeaning | processor/routing/decision_engine.go:130-143 | what a target stands for, and when it can be taken |
| Routing.DecideRouteFromSnapshot | processor/routing/decision_engine.go:54-85 | the loop takes the first match whose branch is available, a strict snapshot denying where it is not, and else the default |
| Routing.DeniesExactlyWhen | processor/routing/decision_engine.go:54-128 | a denial comes exactly from the first rule to end the search, by its target or its absent branch, or from the default |
| Routing.CompileRuntimeSnapshot | processor/routing/snapshot.go:168-211 | rules are compiled in order and normalised; an invalid schema is refused |
| Routing.CollectEnabledDomains | processor/routing/snapshot.go:339-350 | the domains of explicitly enabled rules, provider by provider |
| Routing.EffectiveAIAllowlist | processor/config/types.go:661-676 | their normal forms without repetition |
| Routing.CollectAIDomains | processor/routing/snapshot.go:333-357 | gathered twice, they come out as if gathered once |
| Routing.CollectProxyRuleDomains | processor/routing/snapshot.go:359-378 | the domains named by proxy rules without repetition |
| Routing.ProxyRuleNames | processor/routing/snapshot.go:380-410 | which of its parts a proxy rule names: the only one, the one behind "domain", the last, or the one before a closing "proxy" |
| Routing.ClosingProxyIsNoDomain | processor/routing/snapshot.go:380-410 | "domain,a.io,proxy" names a.io |
| Routing.SocksBranchOnExactlyWhen | processor/routing/snapshot.go:412-427 | the SOCKS branch is on if and only if the switch is, a proxy is there and not off, and its type is one of two |
| Routing.ParsedIsNormal | processor/routing/snapshot.go:380-410 | a parsed proxy rule is non-blank and in normal form |
| Routing.CompileCanonicalRouting | processor/routing/snapshot.go:279-331 | the schema of the user's inputs, or its first complaint |
| Routing.CompileRuntimeSnapshotFromRuntimeInputs | processor/routing/snapshot.go:270-277 | schema and snapshot together |
| Routing.CompilationFailsExactlyWhen | processor/routing/snapshot.go:279-331 | it fails if and only if Aliang is off and an enabled AI rule lists a non-blank domain |
| Routing.RuntimeDecisionMeaning | processor/routing/decision_engine.go:54-128 | Aliang if an AI pattern matches, else SOCKS if a proxy rule matches and that branch is on, else direct; never a denial |
| Routing.CompileRuntimeSnapshotFromLegacyConfig | processor/routing/snapshot.go:213-268 | the three rule sets in order, with their switches |
| Routing.DecideRoute | processor/routing/decision_engine.go:35-52 | direct without configuration or context, else the compiled decision |
| Routing.LegacyDecisionIsCascade | processor/routing/decision_engine.go:147-165 | the compiled loop decides as the cascade of rule-set checks over normalised rules, and never denies |
| Routing.SwitchingOffIsLocal | processor/routing/decision_engine.go:35-85 | turning a switch off changes only decisions that took that branch |
| CommitCoordinator.EffectiveConfigCommitCoordinator.Commit | processor/config/runtime_commit_coordinator.go:50-93 | the new snapshots, version, files and result for any failures; only a success changes what is committed |
| CommitCoordinator.EffectiveConfigCommitCoordinator.RollbackFileToCommittedSnapshot | processor/config/runtime_commit_coordinator.go:95-113 | back to the committed file, or to none before the first commit |
| CommitCoordinator.OutcomeMeaning | processor/config/runtime_commit_coordinator.go:50-113 | what each call comes to by what went wrong, and what it leaves alone |
| CommitCoordinator.ActiveIsLastCommitted | processor/config/runtime_commit_coordinator.go:50-93 | after any run, active equals committed, which is the last success, and the version counts successes |
| CommitCoordinator.FileHoldsCommitted | processor/config/runtime_commit_coordinator.go:50-113 | with one path, harmless failed writes and working rollbacks, the file holds the committed content or is absent |
| CommitCoordinator.RefusedContentStaysExactlyWhen | processor/config/runtime_commit_coordinator.go:77-87 | refused content stays in its file exactly under the stated condition on paths and contents |
| CommitCoordinator.RefusedFileIsLeftBehind | processor/config/runtime_commit_coordinator.go:77-87 | two paths and one refusal leave the refused file on disk |

## Left out

- Watcher.ReadWith: once the server has announced a setting, what is delivered is no function of the client's stream alone; the method then only keeps the state of which `Watcher.WatcherConn.Http2Conserved` speaks. For a malformed HTTP/1 stream it does not say how much is delivered before the error: that depends on the cut, as an error in a body that came with its head suppresses the head (`Watcher.WatcherConn.ProcessH1ReqHeaders`).
- Watcher.WatcherConn.Read: returns the bytes instead of copying them into the caller's slice; of a connection whose reader goes on after a request error it keeps only the invariant.
- Http2Frames.FragmentBlock: the frame writer's refusals (stream 0, payloads of 2^24 bytes or more) follow the HTTP/2 library, which is not part of this model. A loop that goes on for ever is the result `Spinning`, not a loop.
- ProtocolSniff.ClassifyMeaning: upper-casing is modelled as far as a comparison with ASCII words can tell.
- RoutingRules.NormalizedIsIdempotent: lower-casing is that of ASCII letters; Unicode case folding is not modelled.
- Replay.PrefetchApplicationData: how often a deadline can be set is a parameter; which time it names is not modelled.
- IpDomainCache.IPDomainCache.Set: an entry's domain and IP are taken as constant, time is a parameter with zero as the unset value, and the hit counter does not wrap.
- AsyncLog.CloseDrains: errors of the underlying writer are ignored as in the code, and setting the closed flag and closing the queue, which happen under one lock, are one step.
- CommitCoordinator.EffectiveConfigCommitCoordinator.Commit: snapshots are values, so what a callback might do to the pointer it is given is not modelled.
- HPACK, net/http parsing and the header edits are arbitrary functions of `Codec`; the current authorization header, which the edits read from elsewhere, is taken not to change while a connection lasts.
- The HTTP/2 stream table, request summaries, stored bodies and all logging text.
- Statistics, hotspot lists and the timer of the cache's cleanup; locks of the cache, whose methods are each one critical section.
- Copying in the relay, half-close and deadlines, and the teardown without a tracker.
- DNS over TCP framing, compressed question names, sockets and timeouts.
- IDs of routing rules, GeoIP (which never matches in the code), and the parsing of IP prefixes, which is an arbitrary predicate; providers may come in any order, of which the code's sorted one is an instance.
- JSON, persistence, dialing, TLS handshakes, certificates, HTTP handlers and the user interface.
- `RuleEngine.EvaluateRoute` with its cache, which falls back to an IP key shared between domains and therefore does not equal evaluation without it.
