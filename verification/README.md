# Verification models for Pion

Dafny models of the message-handling core of Pion: the incremental HTTP parser with the
components that feed it and print for it, the log codec, the caches and shared tables of the
server and the plug-in loader, and the codecs around them. `dafny verify dfyconfig.toml`
checks everything.

## What is modelled

**HTTP parsing.** `HttpMachine` says what `HTTPParser` computes, one byte at a time and without
buffers. `HttpRuns` proves laws of that machine: how a stream is cut does not matter, the byte
accounting holds in every reachable state, and a gap of lost data acts like dummy bytes.
`HttpGaps` extends the last one to whole messages with any number of gaps. `HttpScans` follows
the scanners over whole buffers and says what a call of `parse` reports, failed calls included;
`HttpCalls` puts such calls together to whole streams. `HttpParser` holds the objects as they
are, `HTTPParser` with its read pointer and counters and `HTTPMessage` with its content buffer;
`Parse` and `ParseMissingData` are proved to compute what the machine computes. `HttpReader` adds sockets, byte-at-a-time reading and pipelining.
`HttpCanonical` and `HttpResponses` print requests and responses and prove that they, and
pipelines of requests, are read back. `HttpLayouts` does the same for what other programs may
print: other line ends, missing spaces or versions, chunk sizes in any form. `HttpEdges` says
where reading ends otherwise: at bad input, behind the headers, or where a stream breaks off.

**Sending files.** `FileSender` has `HTTPWriter` and `DiskFileSender`: the bytes that a chain of
`send` and `handleWrite` calls emits, and the proof that the parser gets the file back.
`FileCache` and `FileService` model the file cache, as values over whole runs and as the object.

**Logs.** `LogFormat`, `LogRoundTrip` and `LogCodec` print and read event records with
delimiters, escapes, comments and in-stream format changes.

**Sniffed connections.** `Packets` and `HttpProtocol` turn packets of both directions into
events. `PacketRuns` proves laws of whole runs of packets, and `PacketEvents` what an event says
of the two streams it is made from.

**Access.** `ResourceMap`, `HttpServer` and `HttpAuth` find handlers and restrictions by
longest prefix; `CookieAuth`, `BasicAuth` and `UserCache` hold the session caches.

**Plug-ins.** `PluginRegistry` and `PionPlugin` count references; a registry without counts says
what that must come to.

**Codecs.** `Base64`, `UrlCodec` and `CookieCodec`.

Each object that the program updates in place is a class whose methods are proved against a
specification function; the laws are lemmas about those functions, over all inputs and runs.

## Conventions

- A byte is the character with its code. Integers are unbounded unless a width matters: version
  and status numbers wrap at 16 bits, `strtol` saturates at the largest 64-bit long,
  `Content-Length` must fit a 64-bit `size_t`, event durations and packet counters wrap at 32 bits.
- A multimap of headers or cookies is the sequence of its pairs in insertion order; a lookup
  finds the first match. `std::map` keyed by resources is a sequence in key order, because the
  prefix search depends on that order; other maps are Dafny maps.
- Clock readings, random bytes, disk contents, dates, socket reads and whether a file is a
  plug-in library are parameters.
- Exceptions and error codes are values: `Option`, `Verdict`, `Response` or an outcome type.

## Where the code departs from what one expects

- When `parse` fails, the bytes of the failing scan are not counted (HTTPParser.cpp:236-238): of
  that call only a complete header block is (`Kept`, part of the contract of `Parse`). How a
  stream is cut therefore shows in the counters of a failure (`CutShowsInCounters`), and in
  nothing else; `CutsShowExactlyWhen` says which cuts show.
- A request line that ends behind the space before its version sets its next state at
  HTTPParser.cpp:313 and 322, but line 327 overwrites it: the next byte must be a 'T'
  (`NoVersionWantsT`). White space before a header name is refused at the name, because of the
  `if` without braces at lines 534-536, and without an error code (`SpaceBeforeNameFails`,
  `WhitespaceFailsExactlyWhen`).
- A gap that crosses the content cap leaves the buffer unfilled (lines 171-177), where reading
  the same bytes fills it up to the cap. `LostDataIsDummyData` and `GapsAreDummies` show that
  this is the only case in which the buffers differ.
- A delimited log value that ends in the escape character does not survive;
  `DelimitedReadsBack` gives the exact condition.
- An event can be made before any response packet with data has been seen: behind a HEAD request
  without a version, the response counts as complete at once, so a lost response packet makes
  one. generateEvent then gives the response the end of the request as its time stamps, and a
  response packet that arrives later does not replace the start (`LentStartIsNotTheFirst`).
  `Loan` is that time stamp; `LentExactlyWhen` says when there is one, and `NoEarlyLossNoLoan`
  that without response packets lost before the first one with data the times are its own.
- After a 100 (Continue) response the response forgets which request it answers, as
  `clear()` also clears the request method (HTTPResponse.hpp:73-78): `SkippingForgetsTheMethod`.
- Assigning a plug-in handle to itself empties it (`GrabCopiesExactlyWhen`); `open` of a
  registered name on a handle that is in use would wait for its own mutex, so `Open` asks for
  that case to be excluded.
- A session cookie can be accepted for up to twice the documented hour, as the sweep is lazy
  (`BoundIsReached`).
- A file that has grown above the cache's size limit since it was read is held in memory all
  the same, as only the first read looks at the limit (`LimitIsPassedExactlyWhen`).
- A file that is replaced by one of the same size and time is served from the cache as it was
  (`StaleExactlyWhen`).
- If the last line of a header block ends in a single character, the one behind it is saved with
  the raw headers though it is not consumed (`RawIsTheHeader`).
- In a Set-Cookie header a quote inside the value cuts it off (`SetCookieReadsBack`).

## Model

| member | source | states |
|---|---|---|
| HttpCalls.CutsShowExactlyWhen | net/src/HTTPParser.cpp:42-113 | any two ways of cutting one stream into calls of parse give the same verdict, error and message; the counters are the same too unless the stream fails, and then exactly if as many bytes came in earlier calls or the failing call began within the header block both times |
| HttpCalls.FeedCallsIsRun | net/src/HTTPMessage.cpp:75-105 | calling parse on piece after piece comes to the verdict on the joined stream, what is left unread included, but for the counters of a failure |
| HttpCalls.FailureCounts | net/src/HTTPParser.cpp:232-238 | the counters after a failing stream: the bytes of the earlier calls, or of the header block if the failing call completed it |
| HttpCalls.CutShowsInCounters | net/src/HTTPParser.cpp:232-238 | a two-byte request that fails with nothing counted in one piece and one byte counted in two |
| HttpRuns.CutsAgree | net/src/HTTPParser.cpp:42-113 | any two ways of cutting one stream give the same verdict of the byte machine; for verdicts that are not failures, that is the one the calls come to |
| HttpRuns.FeedIsRun | net/src/HTTPMessage.cpp:75-105 | feeding the byte machine piece after piece is one run over the joined stream, what is left unread included |
| HttpRuns.RestIsSuffix | net/src/HTTPParser.cpp:90-112 | a decided run leaves a suffix of its input, and a fresh parser has consumed something |
| HttpRuns.InvConsume | net/src/HTTPParser.cpp:695-777 | in every state reached by any mix of bytes and gaps, failed ones included, read plus remaining is the declared length, remaining is positive, and buffer and chunk cache respect the cap |
| HttpGaps.ConsumeCounts | net/src/HTTPParser.cpp:1000-1146 | the total counter grows by exactly the bytes consumed and lost, over any mix of inputs, undecided or completing a message, and what is left is not counted |
| HttpRuns.FinishAnywhere | net/src/HTTPParser.cpp:1166-1196 | wherever a body of known length is cut off, finish leaves a content length of min(read, cap), all of it stored when nothing was lost |
| HttpRuns.LostDataIsDummyData | net/src/HTTPParser.cpp:115-213 | an accepted gap of n bytes has the effect of parsing n dummy bytes, apart from the missing-data marks; the buffers are equal exactly unless the gap begins below the content cap and ends above it |
| HttpGaps.GapsAreDummies | net/src/HTTPParser.cpp:115-213 | a whole message with any accepted gaps is parsed as the stream with every gap filled with dummy bytes: verdict, state and rest, and the counters of a verdict that is not a failure; the buffers are equal exactly if no gap crosses the cap |
| HttpGaps.GapAcceptedExactlyWhen | net/src/HTTPParser.cpp:123-206 | a gap is accepted exactly if it is in a body and dummy bytes in its place would all be taken |
| HttpGaps.MarksAreHarmless | net/src/HTTPParser.cpp:42-113 | parsers that differ only in the marks of lost packets go on alike on every input |
| HttpScans.HeaderStretch | net/src/HTTPParser.cpp:65-77 | where a scan of the headers leads: to the body with the same verdict ahead, to the end, or to a failure that counts nothing, or the header block if only its Content-Length is refused |
| HttpScans.ChunkStretch | net/src/HTTPParser.cpp:79-87 | where a scan of chunks leads: on, to the completed message, or to a failure that counts nothing |
| HttpScans.InvParsed | net/src/HTTPParser.cpp:42-113 | a call of parse keeps the accounting right whether or not it fails, so parse may be called again |
| HttpScans.SpaceBeforeNameFails | net/src/HTTPParser.cpp:527-543 | white space at the start of a header line is refused at the first other character that ends no line, and without an error code if that could be part of a name |
| HttpScans.WhitespaceFailsExactlyWhen | net/src/HTTPParser.cpp:527-543 | in leading white space exactly white space and line ends are let through |
| HttpScans.NoVersionWantsT | net/src/HTTPParser.cpp:307-335 | when the version is missing behind its space, the byte after the line break is refused exactly unless it is a T |
| HttpScans.PartsFailExactlyWhen | net/src/HTTPParser.cpp:246-302 | a method, resource, query, status text, header name or value is taken exactly if all of it is allowed and fits its limit, and otherwise refused at the first character that is not, with the error for that reason |
| HttpParser.HttpParser.Parse | net/src/HTTPParser.cpp:42-113 | parse on a whole buffer gives the verdict, error, state, message and unread rest of the byte-at-a-time machine, an undecided result means the buffer is used up, and the counters after a failure are those of the complete scans |
| HttpParser.HttpParser.ParseMissingData | net/src/HTTPParser.cpp:115-213 | the object ends in the state, result and error that the specification of a gap gives |
| HttpParser.HttpParser.ParseHeaders | net/src/HTTPParser.cpp:215-639 | the loop stops where the header machine stops, with its scanned fields, and counts bytes only if it does not fail |
| HttpParser.HttpParser.ParseChunks | net/src/HTTPParser.cpp:965-1104 | the loop stops where the chunk machine stops, with its cache, and counts bytes only if it does not fail |
| HttpParser.HttpParser.UpdateMessageWithHeaderData | net/src/HTTPParser.cpp:641-693 | the message gets the request line or the status line, and nothing else changes |
| HttpParser.HttpParser.ChooseBody | net/src/HTTPParser.cpp:705-771 | chunked coding, implied length, Content-Length, none: the body is delimited in this order of precedence |
| HttpParser.HttpParser.FinishHeaderParsing | net/src/HTTPParser.cpp:695-777 | header data is published, the body chosen and a buffer of exactly the content length allocated |
| HttpParser.HttpParser.ConsumeContent | net/src/HTTPParser.cpp:1106-1147 | min(available, remaining) bytes are taken, stored below the cap and never outside the buffer |
| HttpParser.HttpParser.ConsumeContentAsNextChunk | net/src/HTTPParser.cpp:1149-1164 | the whole buffer is consumed, and cached as far as it fits below the cap |
| HttpParser.HttpParser.Finish | net/src/HTTPParser.cpp:1166-1215 | the message of a parser stopped in any state: validity, content length, content and status |
| HttpParser.HttpParser.CheckPrematureEof | net/include/pion/net/HTTPParser.hpp:199-206 | the end of input is premature except in a body that lasts until then, which is completed |
| HttpParser.HttpMessage.ConcatenateChunks | net/src/HTTPMessage.cpp:206-212 | the cached chunks become the content, in a new buffer of that length |
| HttpParser.HttpMessage.ComputeMsgStatus | net/src/HTTPParser.cpp:1217-1229 | the status follows from lost packets, data after them, and success |
| HttpReader.Receive | net/src/HTTPReader.cpp:27-121 | one message read from any socket reads is the one in the uncut stream; a kept connection goes on right behind it |
| HttpReader.ConsumeBytes | net/src/HTTPReader.cpp:66-121 | the verdict on the whole stream, the lifecycle from checkKeepAlive, and the saved read position at the message's end |
| HttpReader.Read | net/src/HTTPMessage.cpp:163-204 | reading byte by byte gives the message and outcome of one big buffer |
| HttpReader.Serve | net/src/HTTPReader.cpp:27-121 | a server loop over a connection sees exactly the messages of the uncut stream, in order |
| HttpReader.RestShrinks | net/src/HTTPReader.cpp:66-121 | every decoded message consumes input, so decoding a stream ends |
| HttpCanonical.RequestReadsBack | net/src/HTTPParser.cpp:215-777 | a printed request is parsed into its parts, headers and body, stopping exactly at its end whatever follows |
| HttpCanonical.ReadHeaders | net/src/HTTPParser.cpp:520-639 | a printed header block is read back as its headers in order |
| HttpCanonical.ReadChunks | net/src/HTTPParser.cpp:965-1104 | a printed chunked body is read back as its joined data, up to the cap |
| HttpCanonical.FramingValid | net/src/HTTPParser.cpp:705-750 | the header that announces a body fits the parser's limits, for every body |
| HttpCanonical.PipelineReadsBack | net/src/HTTPReader.cpp:66-121 | requests of any version laid back to back, with no body, a sized or a chunked one, are decoded into exactly those requests in order, up to the first whose version is below 1.1 or which asks to close the connection |
| HttpResponses.ResponseReadsBack | net/src/HTTPParser.cpp:303-777 | a printed response of any version, status and text is parsed into them, its headers and body, stopping exactly at its end; behind the headers if it never has a body, and where the connection closes if it has no length |
| HttpResponses.ReadStatusLine | net/src/HTTPParser.cpp:366-475 | every printed status line is read back: major and minor version, status and text, as far as 16 bits hold the numbers |
| HttpResponses.ImpliedExactlyWhen | net/include/pion/net/HTTPResponse.hpp:81-87 | no body is implied exactly by a HEAD request or a status 1xx, 204, 205 or 304 |
| HttpLayouts.RequestInAnyLayout | net/src/HTTPParser.cpp:215-639 | a request is read back whichever of the four line ends it has, with or without the space behind a colon, without a version or with spaces behind it, and with blank lines before it |
| HttpLayouts.ResponseInAnyLayout | net/src/HTTPParser.cpp:215-639 | the same for a response, also without the space before an empty status text |
| HttpLayouts.AnyChunksReadBack | net/src/HTTPParser.cpp:982-1092 | a chunked body is read back however its sizes are written: letters of either case, leading zeros, white space around them |
| HttpLayouts.ShortLineEndsBlock | net/src/HTTPParser.cpp:620-631 | an empty line may end in a single character, and the one behind it is left |
| HttpEdges.BadLengthIsRefused | net/src/HTTPParser.cpp:723-738 | a request whose Content-Length is no number that fits is refused with that error |
| HttpEdges.StatusLineBreaksOff | net/src/HTTPParser.cpp:303-428 | a response without a version or without a status is refused with the error for that |
| HttpEdges.VersionIsSpelled | net/src/HTTPParser.cpp:303-365 | a wrong character where the name of the protocol is expected is refused |
| HttpEdges.NumbersAreDigits | net/src/HTTPParser.cpp:366-462 | anything else in a version number or status is refused with the error for that |
| HttpEdges.HeadersOnlyStop | net/src/HTTPParser.cpp:710-766 | a parser that wants only the headers of a request stops behind them, with the announced length |
| HttpEdges.RawIsTheHeader | net/src/HTTPParser.cpp:229-230 | the saved raw headers are the bytes read, and one more exactly when the last line ends in a single character |
| HttpEdges.CutInHeaders | net/src/HTTPParser.cpp:1166-1185 | a request cut off in its headers is not valid and empty, but has its method, resource and query; before its first byte it has no status |
| HttpEdges.CutInChunks | net/src/HTTPParser.cpp:1166-1197 | a chunked body cut off between chunks is valid with all its data, inside a chunk it is not |
| HttpTypes.HexRoundTrip | net/src/HTTPWriter.cpp:41-50 | the value of a number printed in hexadecimal is the number |
| HttpTypes.PrintedHexParses | net/src/HTTPParser.cpp:1024-1034 | strtol undoes the printed chunk size, and gives the largest long for a larger one |
| HttpTypes.PrintedLengthParses | net/include/pion/net/HTTPMessage.hpp:297-303 | a printed content length is accepted and gives the number back |
| HttpTypes.LengthsParse | net/include/pion/net/HTTPMessage.hpp:297-305 | a Content-Length of digits between white space, after an optional sign, is their number if that fits, wrapped around by a minus sign |
| HttpTypes.BadLengths | net/include/pion/net/HTTPMessage.hpp:297-305 | a Content-Length with anything but digits is bad |
| HttpTypes.SameNameExactlyWhen | common/include/pion/PionHashMap.hpp:60-76 | header names are the same exactly if they have the same letters in either case |
| HttpTypes.MentionsExactlyWhen | net/src/HTTPMessage.cpp:26 | a coding is chunked exactly if the word stands somewhere in it, in letters of either case |
| HttpTypes.TokensAreStandard | net/include/pion/net/HTTPParser.hpp:619-640 | the characters of methods and header names are the letters, the digits and the fifteen others of the standard |
| FileSender.HttpWriter.PrepareWriteBuffers | net/src/HTTPWriter.cpp:21-74 | the buffers hold the head once, then the payload, framed as a chunk and closed by the last chunk when due |
| FileSender.HttpWriter.SendChunk | net/include/pion/net/HTTPWriter.hpp:189-198 | the bytes one chunk adds to the wire |
| FileSender.HttpWriter.SendFinalChunk | net/include/pion/net/HTTPWriter.hpp:212-215 | the bytes the last piece adds to the wire |
| FileSender.DiskFileSender.Send | net/services/FileService.cpp:768-848 | from any position, the chain of sends terminates and emits exactly the remaining wire bytes of the file |
| FileSender.DiskFileSender.HandleWrite | net/services/FileService.cpp:850-888 | after a write the rest of the file follows, and nothing after the end |
| FileSender.DiskFileSender.FetchContent | net/services/FileService.cpp:786-826 | the buffer for a piece is never too small and holds that piece of the file |
| FileSender.FileArrives | net/services/FileService.cpp:768-888 | for every file, chunk size and client, the wire bytes parse into the file's bytes up to the cap, with no byte left over; the headers announce the length exactly if the file fits one piece, chunks exactly if the client takes them otherwise, and whether the connection stays open |
| FileSender.SplitJoins | net/services/FileService.cpp:768-784 | the pieces of a file are non-empty, within the chunk size, and join to the file |
| FileCache.CacheIsTransparent | net/services/FileService.cpp:207-347 | over any run of requests and file changes without deletions, cache settings 0 and 1 give the same responses for every scan setting |
| FileCache.AnswersAreCurrent | net/services/FileService.cpp:207-347 | with cache setting 0 or 1 every answer over any run is for the file as it is on disk then: not modified exactly if its date is the one named, else headers for HEAD and its bytes for GET; not found exactly if it is not there or not listed |
| FileCache.HeldForGood | net/services/FileService.cpp:269-295 | with cache setting 2 a file held in memory is answered as it was read, whatever happens on disk |
| FileCache.StartReads | net/services/FileService.cpp:564-657 | the start reads no file with scan setting 1, and else exactly those within the size limit |
| FileCache.LimitIsKept | net/services/FileService.cpp:269-281 | unless changed files are read again, no run holds a file above the size limit |
| FileCache.LimitIsPassedExactlyWhen | net/services/FileService.cpp:719-740 | with cache setting 1 a request holds a file above the limit exactly if it was held already or has changed since it was first read |
| FileCache.ServeAgrees | net/services/FileService.cpp:207-347 | one request is answered alike with and without the cache, and cached bytes stay those of their size and time |
| FileCache.PathsAreFixed | net/services/FileService.cpp:217-228 | with scan setting 1 or 3 the set of cached paths never changes after the start |
| FileCache.HitIsRightExactlyWhen | net/services/FileService.cpp:719-740 | a cached file is served as from disk exactly when its size or time has changed or its bytes have not |
| FileCache.StaleExactlyWhen | net/services/FileService.cpp:719-740 | for every scan setting, when a file is asked for, replaced and asked for again after a start with cache setting 1, an answer is stale exactly if the old bytes were held in memory and the new file has their size and time but other bytes |
| FileCache.UncachedIsFresh | net/services/FileService.cpp:238-262 | with cache setting 0 both answers are those of the file on disk |
| FileService.FileService.Handle | net/services/FileService.cpp:207-360 | the object answers and updates its map as specified, and no buffer in use by an earlier response is altered |
| FileService.FileService.Refresh | net/services/FileService.cpp:269-286 | an entry is read for the first time, read again after a change, or left alone |
| FileService.FileService.HandleCached | net/services/FileService.cpp:233-304 | the response and map for a request that finds an entry, in both cache modes |
| FileService.FileService.HandleUncached | net/services/FileService.cpp:307-347 | the response and map for a request that is looked up on disk |
| FileService.FileService.AddCacheEntry | net/services/FileService.cpp:626-657 | a placeholder, the file's bytes or its size and time are inserted, unless an entry exists |
| FileService.FileService.StartUp | net/services/FileService.cpp:564-624 | after the start the map has one entry for each file, or none without scanning |
| FileService.ReadContent | net/services/FileService.cpp:704-717 | reading allocates a new buffer that holds the file's bytes |
| LogRoundTrip.DelimitedReadsBack | platform/codecs/LogCodec.cpp:169-186 | a delimited value comes back, with its end delimiters unescaped, exactly when it survives: no trailing escape, no delimiter that is its own escape |
| LogRoundTrip.ReadPrintedFields | platform/codecs/LogCodec.cpp:144-203 | the fields of a printed record are read back into the event, with every delimiter style |
| LogRoundTrip.StreamReadsBack | platform/codecs/LogCodec.cpp:129-222 | any list of written events is read back as that list and then the end of input |
| LogRoundTrip.RecordReadsBack | platform/codecs/LogCodec.cpp:129-222 | a record gives its event, with or without the delimiters that are optional, whatever columns follow that the format lacks, and with or without a line end; the stream is then at the next record |
| LogRoundTrip.BrokenRecordReadsBack | platform/codecs/LogCodec.cpp:192-210 | a record that breaks off behind a delimiter gives the columns before it, and its rest is skipped |
| LogRoundTrip.ReadColumnsBack | platform/codecs/LogCodec.cpp:144-203 | the columns of an event are read by a format that may expect further ones, which stay empty if the record ends |
| LogRoundTrip.ReadStopsAtRecord | platform/codecs/LogCodec.cpp:205-217 | whatever the text, a read that gives an event takes something and leaves the stream at its end or just behind a line end, at the start of a record |
| LogRoundTrip.OtherComment | platform/codecs/LogCodec.hpp:531-565 | a comment other than the fields header changes nothing, nor does that one without support for headers |
| LogRoundTrip.HeadersSetFormat | platform/codecs/LogCodec.hpp:496-565 | behind the written headers, a reader with any column order has the writer's |
| LogRoundTrip.OtherOrderReadsBack | platform/codecs/LogCodec.hpp:496-565 | events behind the headers are read back by a reader configured with the columns in another order |
| LogRoundTrip.NamesReadBack | platform/codecs/LogCodec.hpp:496-516 | the field names of a header name the format they were printed from |
| LogRoundTrip.NameIsLookedUp | platform/codecs/LogCodec.hpp:496-516 | the first name of a header is looked up, however many spaces stand before it, and an unknown one makes the format bad |
| LogCodec.LogCodec.Write | platform/codecs/LogCodec.cpp:92-127 | the text of a record, preceded by the headers the first time |
| LogCodec.LogCodec.WriteField | platform/codecs/LogCodec.hpp:570-673 | one value between its delimiters, encoded and escaped, or the empty marker |
| LogCodec.LogCodec.ReadContents | platform/codecs/LogCodec.cpp:168-186 | the buffer holds the field's text and the stream stands behind it, for every delimiter and escape |
| LogCodec.LogCodec.ReadColumns | platform/codecs/LogCodec.cpp:144-203 | the loop over the fields sets the values and stops where the specification does |
| LogCodec.LogCodec.ChangeElfFormat | platform/codecs/LogCodec.hpp:496-516 | the format becomes the named fields; it fails exactly on an unknown name |
| LogCodec.LogCodec.ConsumeVoidsAndComments | platform/codecs/LogCodec.hpp:531-565 | blank records and comments are skipped, and a format comment takes effect |
| LogCodec.LogCodec.Read | platform/codecs/LogCodec.cpp:129-222 | one event, the end of input or a bad format, and the position behind it |
| LogCodec.WriteThenRead | platform/codecs/LogCodec.cpp:92-222 | writing events with one codec and reading with another until the end returns exactly those events |
| Packets.RunKeepsSummaries | platform/protocols/HTTPProtocol.cpp:167-266 | over any packets since a reset, each side's start is its first time stamp and its end the latest, where the response's may begin with one lent by an event; counters are packets seen, and a 100 response starts the response side anew |
| Packets.EventsAreComplete | platform/protocols/HTTPProtocol.cpp:233-265 | a call adds one event exactly when it returns true, and then request and response are complete; a skipped 100 leaves the request side alone |
| Packets.EventDescribesRun | platform/protocols/HTTPProtocol.cpp:417-469 | the counters in an event are those of the packets of the run, and its times are those between the first and latest of their time stamps, a lent one included |
| PacketEvents.EventDescribesStreams | platform/protocols/HTTPProtocol.cpp:350-352 | as long as no packet is refused, the request bytes of an event are those that the request takes of its joined stream, the response bytes those of the response packets since the last skipped 100 but for what is left, and the status is that of the response the joined bytes lead to; lost packets count as dummy bytes |
| PacketEvents.EventStatuses | platform/protocols/HTTPProtocol.cpp:471-473 | over any run, the outcome of either side of an event is whole if none of its packets was lost, partial if data came after a loss, and truncated otherwise |
| PacketEvents.RequestTakes | platform/protocols/HTTPProtocol.cpp:176-212 | as long as no packet is refused, the request's parser is where its packets lead, and keeps the bytes counted once they complete it |
| PacketEvents.BaseCounts | platform/protocols/HTTPProtocol.cpp:232-252 | what the response had read when it was told of the request is what had come since the last skipped 100 |
| Packets.DataCenterTime | platform/protocols/HTTPProtocol.cpp:438-458 | in every event that a run adds, data-center time is reply plus send time if the response starts no earlier than the request ends, and below overflow only then or if the response takes no time |
| PacketRuns.RequestIsOneStream | platform/protocols/HTTPProtocol.cpp:190-230 | however a request is cut into packets and interleaved with responses, its parser is where the whole stream leads |
| PacketRuns.RequestCompletes | platform/protocols/HTTPProtocol.cpp:190-230 | the packet that completes the request does so as the whole stream would |
| PacketRuns.ResponseIsOneStream | platform/protocols/HTTPProtocol.cpp:208-252 | however a response is cut into packets and interleaved with requests, its parser is where the joined bytes lead from where it was last told of the request or made ready after a 100 |
| PacketRuns.ResponseCompletes | platform/protocols/HTTPProtocol.cpp:208-266 | the packet that completes a response does so as the joined bytes would, and a complete 100, and only that, is skipped |
| PacketRuns.RequestIsOneStreamWithGaps | platform/protocols/HTTPProtocol.cpp:176-207 | with lost packets the request's parser is where the stream with dummy bytes leads, up to the marks of loss, and with the same buffer exactly if no gap has crossed the cap |
| PacketRuns.ResponseIsOneStreamWithGaps | platform/protocols/HTTPProtocol.cpp:176-230 | the same for the response |
| PacketRuns.ParsersStaySound | platform/protocols/HTTPProtocol.cpp:167-266 | after any packets, refused ones included, both parsers satisfy what parse and parseMissingData require |
| PacketRuns.SkippingForgetsTheMethod | platform/protocols/HTTPProtocol.cpp:232-252 | the response carries the method of the complete request exactly if no 100 was skipped since it was told of it, and otherwise none |
| Packets.SummaryIsPlain | platform/protocols/HTTPProtocol.cpp:213-222 | without a loan the response's times are those of its own packets; before its first packet, exactly then |
| PacketRuns.LentExactlyWhen | platform/protocols/HTTPProtocol.cpp:417-424 | a time stamp is lent exactly if a response packet is lost before any with data, behind a complete HEAD request without a version that the response has been told of |
| PacketRuns.UnseenIsCompleteExactlyWhen | platform/protocols/HTTPProtocol.cpp:233-243 | before any response data the response counts as complete exactly behind such a request |
| PacketRuns.NoEarlyLossNoLoan | platform/protocols/HTTPProtocol.cpp:213-222 | when no response packet is lost before the first one with data, start and end are its own first and latest time stamps |
| PacketRuns.LentStartIsNotTheFirst | platform/protocols/HTTPProtocol.cpp:417-424 | a run of three packets in which the response's start is not its first time stamp |
| Packets.CloseDescribesRun | platform/protocols/HTTPProtocol.cpp:141-165 | closing makes an event exactly if request bytes were read, and its times and counters are those of the packets of the run |
| Packets.CloseEndsResponse | platform/protocols/HTTPProtocol.cpp:141-165 | closing completes a response without length and yields its event, with all cached bytes |
| Packets.CloseCutsResponse | platform/protocols/HTTPProtocol.cpp:141-165 | a response cut off in a sized body counts as complete exactly if a side has reset the connection, and is reported truncated |
| HttpProtocol.HttpProtocol.ReadNext | platform/protocols/HTTPProtocol.cpp:167-266 | the object's fields, result and added event after a packet are the specified ones |
| HttpProtocol.HttpProtocol.GenerateEvent | platform/protocols/HTTPProtocol.cpp:417-473 | the time stamps are settled and the event reports durations and counters |
| HttpProtocol.HttpProtocol.Close | platform/protocols/HTTPProtocol.cpp:141-165 | both messages are finished, and an event made if request bytes were read |
| HttpProtocol.HttpProtocol.Reset | platform/protocols/HTTPProtocol.cpp:126-138 | all fields return to their initial values |
| ResourceMap.FindResource | net/src/HTTPAuth.cpp:65-81 | the backward scan succeeds exactly when some listed resource is a whole-segment prefix of the request |
| ResourceMap.LastCoverIsLongest | net/src/HTTPServer.cpp:127-142 | the first match found backwards from upper_bound is the longest covering resource |
| ResourceMap.LessIsTotal | net/src/HTTPServer.cpp:128 | the key order compares any two different keys one way only |
| ResourceMap.CoversExactlyWhen | net/src/HTTPServer.cpp:127-142 | a resource covers a request exactly if it is the request or the request is below it |
| ResourceMap.TrailingSlashIsIgnored | net/include/pion/net/HTTPServer.hpp:159-164 | a resource is the same with and without a slash at its end |
| ResourceMap.InsertInserts | net/src/HTTPServer.cpp:145-152 | insertion adds one entry and never replaces one |
| ResourceMap.EraseErases | net/src/HTTPServer.cpp:154-160 | erasing removes the entries of that key and no other |
| HttpServer.HttpServer.FindRequestHandler | net/src/HTTPServer.cpp:119-143 | the handler of the longest covering resource, or none exactly if no resource covers the request |
| HttpServer.HttpServer.FollowRedirects | net/src/HTTPServer.cpp:55-70 | the resource after all redirects, or refusal exactly if ten redirects do not reach one |
| HttpServer.CyclesAreRefused | net/src/HTTPServer.cpp:55-70 | no number of redirects leads out of a cycle |
| HttpServer.HttpServer.AddResource | net/src/HTTPServer.cpp:145-152 | the cleaned resource is registered unless it is already |
| HttpServer.HttpServer.RemoveResource | net/src/HTTPServer.cpp:154-160 | the cleaned resource, and only it, is removed |
| HttpServer.HttpServer.AddRedirect | net/src/HTTPServer.cpp:162-170 | a redirect between cleaned resources is added and never replaced |
| HttpAuth.HttpAuth.NeedAuthentication | net/src/HTTPAuth.cpp:37-63 | a user is needed exactly if users exist, some restricted resource covers the request and no permitted one does |
| HttpAuth.NeedsUserExactlyWhen | net/src/HTTPAuth.cpp:37-81 | a user is needed exactly if there are users and the path is, or is below, a restricted resource and no permitted one; a slash at its end makes no difference |
| HttpAuth.HttpAuth.AddRestrict | net/src/HTTPAuth.cpp:21-27 | the cleaned resource joins the restricted set, which stays in order |
| HttpAuth.HttpAuth.AddPermit | net/src/HTTPAuth.cpp:29-35 | the cleaned resource joins the permitted set, which stays in order |
| CookieAuth.SessionLifetime | net/src/HTTPCookieAuth.cpp:53-91 | an accepted cookie was issued to its user by a login with the name and password that the table has for that user, not logged out since and used within twice the expiration time; one used within the expiration time is always accepted; and acceptance is exactly survival of the last sweep |
| CookieAuth.LoggedInExactlyWhen | net/src/HTTPCookieAuth.cpp:118-143 | the login page logs in a user exactly if the table has the decoded name with the decoded password and that user, and otherwise refuses |
| CookieAuth.LoginFormReadsBack | net/src/HTTPCookieAuth.cpp:118-143 | an encoded name and password log in exactly the user that the table has for them |
| CookieAuth.LogoutForgets | net/src/HTTPCookieAuth.cpp:144-157 | the logout page sends the client to the decoded address and forgets its cookie and no other |
| CookieAuth.OpenExactlyWhen | net/src/HTTPCookieAuth.cpp:53-91 | a request is let through without a user exactly if it is not for the login or logout page and needs none or is for the page that refused ones are sent to |
| CookieAuth.RunMatches | net/src/HTTPCookieAuth.cpp:53-169 | after any run the cache holds exactly the sessions of the history that no sweep has found expired |
| CookieAuth.LoggedOutIsRefused | net/src/HTTPCookieAuth.cpp:144-157 | a cookie not in use is refused until a login issues it |
| CookieAuth.BoundIsReached | net/src/HTTPCookieAuth.cpp:261-278 | runs in which a session is accepted exactly twice the expiration time after its last use |
| CookieAuth.HttpCookieAuth.HandleRequest | net/src/HTTPCookieAuth.cpp:53-91 | the answer and cache after a request are the specified ones |
| CookieAuth.HttpCookieAuth.ProcessLogin | net/src/HTTPCookieAuth.cpp:105-169 | login and logout change the cache as specified; other pages are not processed |
| CookieAuth.HttpCookieAuth.ExpireCache | net/src/HTTPCookieAuth.cpp:261-278 | a sweep at most once per expiration time removes exactly the expired sessions |
| UserCache.RemoveExpired | net/src/HTTPCookieAuth.cpp:264-275 | the loop keeps exactly the entries that are not expired |
| BasicAuth.CacheIsTransparent | net/src/HTTPBasicAuth.cpp:35-94 | over any run with fixed users, every decision and user equals that of a check without a cache |
| BasicAuth.GrantedExactlyWhen | net/src/HTTPBasicAuth.cpp:35-94 | in every run a guarded request is granted to a user exactly if its header presents a name and the password that the table has for it and for that user, and is refused otherwise |
| BasicAuth.PasswordsDecide | net/include/pion/net/PionUser.hpp:274-281 | the header a client makes for a name and a password opens a guarded resource to exactly the user that the table has under that name with that password, in every run |
| BasicAuth.CredentialsReadBack | net/src/HTTPBasicAuth.cpp:104-131 | a header made for a name and password is read as those exactly when the name is non-empty and has no colon |
| BasicAuth.HttpBasicAuth.HandleRequest | net/src/HTTPBasicAuth.cpp:35-94 | the answer and cache are the specified ones, and the answer is that of the check without a cache |
| BasicAuth.HttpBasicAuth.ReadCredentials | net/src/HTTPBasicAuth.cpp:114-131 | the decoded text split at its first colon, or nothing |
| PluginRegistry.CountsAreRight | common/src/PionPlugin.cpp:76-168 | after any interleaving of operations each count is the number of handles, everything pointed to is registered, and an unused library still registered is static |
| PluginRegistry.RunIsPlain | common/src/PionPlugin.cpp:76-168 | over any interleaving, every handle points where it would if nothing were counted, and the libraries in the map are the static ones and those pointed to, each with the number of its handles |
| PluginRegistry.OpenSucceedsExactlyWhen | common/src/PionPlugin.cpp:76-98 | open succeeds exactly if the name is static or pointed to, or the file found can be opened; the handle then points to it and is counted, and nothing has changed if no file is found |
| PluginRegistry.OpenFileSucceedsExactlyWhen | common/src/PionPlugin.cpp:100-128 | openFile succeeds exactly if the library is still there once the handle has let go of its own, or loads; the handle then points to it, and to nothing otherwise |
| PluginRegistry.ApplyKeeps | common/src/PionPlugin.cpp:76-168 | every single operation keeps that |
| PluginRegistry.OthersKeepTheirLibrary | common/src/PionPlugin.cpp:130-168 | no operation changes or unloads what another handle points to |
| PluginRegistry.GrabCopiesExactlyWhen | common/src/PionPlugin.cpp:159-168 | grabbing copies what the other handle points to exactly if it is another handle or there was nothing to lose |
| PionPlugin.PionPlugin.ReleaseData | common/src/PionPlugin.cpp:130-157 | the handle is emptied, and a dynamic library without references leaves the map |
| PionPlugin.PionPlugin.OpenFile | common/src/PionPlugin.cpp:100-128 | the handle points to the registered or newly loaded library; a failed load leaves it empty |
| PionPlugin.PionPlugin.Open | common/src/PionPlugin.cpp:76-98 | a registered name is shared, otherwise the file found is opened; nothing changes if none is found |
| PionPlugin.PionPlugin.GrabData | common/src/PionPlugin.cpp:159-168 | the handle shares what another points to |
| PionPlugin.PionPlugin.Destroy | common/include/pion/PionPlugin.hpp:133 | a destroyed handle gives its reference back |
| PionPlugin.PionPluginConfig.AddStaticEntryPoint | common/src/PionPlugin.cpp:357-374 | a static library is registered once and never replaces another |
| Base64.DecodeUndoesEncode | common/src/PionAlgorithms.cpp:18-145 | decoding undoes encoding for every byte string |
| Base64.EncodeUndoesDecode | common/src/PionAlgorithms.cpp:18-145 | encoding undoes decoding exactly on the canonical padded texts |
| Base64.EncodedLength | common/src/PionAlgorithms.cpp:98-145 | the encoded length is four times the number of groups of three, rounded up |
| Base64.AcceptedExactlyWhen | common/src/PionAlgorithms.cpp:49-95 | which texts the decoder accepts, letter by letter |
| Base64.AlphabetIsStandard | common/src/PionAlgorithms.cpp:20-38 | the letters and their codes are those of the standard table, and nothing else has a code |
| Base64.GroupKeepsNumber | common/src/PionAlgorithms.cpp:109-142 | the letters of a group spell the number that its bytes spell, padded with zero bits and equals signs |
| Base64.EncodeBase64 | common/src/PionAlgorithms.cpp:98-145 | the encoding loop computes the encoding |
| Base64.DecodeBase64 | common/src/PionAlgorithms.cpp:18-96 | the decoding loop computes result and output, also where it fails |
| UrlCodec.UrlRoundTrip | common/src/PionAlgorithms.cpp:147-212 | url_decode undoes url_encode for every byte string |
| UrlCodec.AnyEncodingDecodes | common/src/PionAlgorithms.cpp:147-178 | however each byte of a text is encoded, as itself, a space as a plus sign, or an escape in either case, decoding gives the text |
| UrlCodec.ShortEscapeIsKept | common/src/PionAlgorithms.cpp:147-178 | a percent sign too close to the end stands for itself |
| UrlCodec.EscapesAreNumbers | common/src/PionAlgorithms.cpp:147-178 | any two characters behind a percent sign are read as strtol reads them, white space and signs included, to one byte |
| UrlCodec.EncodedIsPlain | common/src/PionAlgorithms.cpp:180-212 | encoded text has no character with a meaning in a query, and is at most three times as long |
| UrlCodec.EscapedExactlyWhen | common/src/PionAlgorithms.cpp:180-212 | exactly letters, digits and eight marks are not escaped |
| UrlCodec.EncodeUrl | common/src/PionAlgorithms.cpp:180-212 | the loop computes the encoding |
| UrlCodec.DecodeUrl | common/src/PionAlgorithms.cpp:147-178 | the loop computes the decoding |
| UrlCodec.MakeQueryString | net/src/HTTPTypes.cpp:111-122 | the loop joins the encoded pairs |
| UrlCodec.ParseUrlEncoded | net/src/HTTPParser.cpp:779-849 | the scan yields the result and pairs of its byte-wise specification |
| UrlCodec.QueryRoundTrip | net/src/HTTPTypes.cpp:111-122 | parsing a printed query string and decoding its parts gives the pairs back |
| UrlCodec.ItemsReadBack | net/src/HTTPParser.cpp:779-849 | every query of names with or without values, folded over lines or not, gives the pairs that have a name |
| CookieCodec.SetCookieReadsBack | net/src/HTTPTypes.cpp:124-145 | for a legal name and quote-free path the parser returns exactly the one pair, exactly when the value has no quote and fits |
| CookieCodec.CookiesReadBack | net/src/HTTPParser.cpp:851-963 | a header with any number of cookies, unquoted, in either kind of quotes or without a value, separated by a semicolon or a comma and spaces, gives their names and values in order; exactly names that are empty, start with a dollar sign or, in Set-Cookie, are one of seven attributes leave no pair |
| CookieCodec.AttributesAreIgnored | net/src/HTTPParser.cpp:851-963 | the attributes after the value, any path and any age, leave no pair |
| CookieCodec.MakeSetCookieHeader | net/src/HTTPTypes.cpp:124-145 | the text of the header, with path and age when given |
| CookieCodec.ParseCookieHeader | net/src/HTTPParser.cpp:851-963 | the scan yields the result and pairs of its character-wise specification |

## Left out

- HttpParser.HttpParser.UpdateMessageWithHeaderData: the query and cookie dictionaries that are filled from the headers are not part of the message; their parsers are modelled by themselves.
- HttpParser.HttpMessage.ConcatenateChunks: bytes of a content buffer that were never written are not described; a message shows the part written so far.
- HttpProtocol.HttpProtocol.ReadNext: its parsers are the values that Parse and ParseMissingData are proved to compute, so their aliasing is not captured; time stamps that are not a date are not given.
- HttpProtocol.HttpProtocol.GenerateEvent: only what comes from time stamps, counters and outcomes is modelled.
- HttpParser.HttpParser.Finish: form content is not parsed into query pairs; ParseUrlEncoded models that parser by itself.
- HttpReader.Read: reading headers only is a setting of the parser's configuration that this loop does not turn on.
- LogCodec.LogCodec.WriteField: of the type switch only the string cases are modelled.
- HttpGaps.GapsAreDummies: the comparison ends at a gap that the parser refuses, since dummy bytes may well be accepted there.
- HttpProtocol.HttpProtocol.Reset: scratch fields that are written before they are read again start from their initial values.
- FileSender.DiskFileSender.Send: reads and writes always succeed, and a write buffer is a copy of the bytes it points to.
- FileCache.CacheIsTransparent: files are not deleted, reads succeed and every change of a file's bytes alters its size or time, without which the claim fails as StaleExactlyWhen shows.
- LogCodec.LogCodec.Write: only fields of text type; numeric, date and blob conversions, time offsets and flushing are not modelled, and delimiters are ASCII.
- LogCodec.LogCodec.ConsumeVoidsAndComments: a comment of just "#Fields:" makes the source read stale bytes of its buffer; the model takes it to name no fields.
- CookieCodec.SetCookieReadsBack: a path with quotes is excluded rather than analysed.
- Base64.DecodeBase64: the debug assertions on unused bits are not modelled; characters above 127, which index outside the table where char is signed, count as not in the alphabet.
- PionPlugin.PionPlugin.Open: the search for plug-in files and dynamic loading are parameters; each operation is atomic.
- BasicAuth.PasswordsDecide: the table of users holds passwords as they are compared; their hashing is not modelled.
- PacketEvents.EventDescribesStreams: once a packet is refused there is no joined stream to compare with; and a response that counts as complete before its first packet is excluded.
- HttpLayouts.RequestInAnyLayout: all lines of a message end alike, and all headers are spaced alike.
- BasicAuth.HttpBasicAuth.HandleRequest: users do not change while the object lives; realm and the response pages are not modelled.
- HttpServer.HttpServer.FollowRedirects: authentication and the handlers' own behaviour are not part of the request loop.
- lexical_cast of a sign follows Boost: a leading minus wraps an unsigned number around.
- GET and HEAD of the file service only: POST, PUT, DELETE, directory containment checks, MIME types and HTML pages are left out.
- Events carry only what comes from time stamps, counters and outcomes; header fields, authentication names and extracted content are left out.
- XML, JSON and database codecs, schedulers, timers, sockets, logging and configuration files are left out.
