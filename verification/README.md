# Cloudesk protocol and codec model

A Dafny model of the algorithms at the two ends of Cloudesk's HTTP API: the generated TypeScript
client and the Go server it talks to. Every model follows the code branch by branch; the proofs say
what whole runs, whole round trips and whole tables do. `dafny verify dfyconfig.toml` checks it all.

- **Server-sent events** (`SseParser`, `SseClient`, `SseDelay`, `SseRetry`, `SseWire`, `SseBreaks`,
  `SseExact`, `SseResume`, `SseEnding`, `SseThrown`, `SseRender`, `SseEvents`, `SseCut`). The class
  `SseStream` is the closure state and the nested loops of the stream; `Turn` and `Run` are the
  specification that its methods meet. A connection is a list of chunks and an ending, so a script
  of connections stands for any cutting and chunking. Over all scripts: what the consumer has seen
  is always the accepted part of a prefix of the server's log; a chunking is read like the whole
  text exactly when it cuts no CR LF pair, and its blocks are still the log's entries exactly when
  it cuts such pairs at the end of an entry only; backoffs stay within bounds and never shrink, with
  the exact conditions. Rendering events and reading them back returns names, data, delays and
  sticky ids.
- **Paths and queries** (`Percent`, `PathSerializer`, `PathTemplate`, `PathValues`, `PathSafety`,
  `Query`, `Router`, `UrlRoundTrip`). Percent-encoding is defined over UTF-8 bytes. Repeated
  replace-first expansion equals one simultaneous substitution, and what is put into a placeholder
  reads back as the value exactly when nothing in it can be taken for a separator; the unrolled
  router equals its route table; an id printed into a path by the client arrives at the operation as
  the same bytes, and the two entry points of the router agree on every argument.
- **Request assembly** (`Params`, `ParamRouting`, `HeaderText`, `Headers`, `HeaderChains`,
  `ClientConfig`, `Interceptors`, `SearchParams`). Where each key of each argument lands, and that
  what stays there is the last write after the last replacement; layered header merging equals flat
  merging exactly when no copied value ended in a blank; the interceptor array equals a list of live
  interceptors under stable ids; the key made of search parameters identifies exactly the values per
  name.
- **Server lifecycle** (`Lifecycle`, `LifecycleProgress`, `LifecycleOutcome`, `LifecycleRuns`).
  Serve, its goroutine, the one-slot channel, the readiness flag, the contexts, connections,
  requests and the clock as interleaved steps; safety over every run, the return of every weakly
  fair infinite run, and what is returned.
- **JSON codec** (`JsonCodec`, `JsonLaws`, `JsonOrder`, `JsonMessages`, `JsonNames`, `JsonEncoding`,
  `JsonRoundTrip`, `JsonRepeated`). One generic decoder with its bit set of required fields, used at
  the shapes of the four messages; exactly what decodes and what is reported, independence of order,
  repeated fields, round trips through the encoder's token buffer.
- **Request id** (`RequestId`). From the incoming header through the middleware and the parameter
  decoder to the response header and the error body.

`Text`, `Wrappers` and `Induction` are shared helpers.

Library code is represented by parameters with stated contracts: JSON parsing and the response
callbacks (`Hooks`), path normalisation (`Normalizes`), the codecs of identifiers and times
(`Codec`), the text of generated UUIDs (`IsUuid`), the locale's order (`Reflexive`), and the
library's reading of a header given several times.

Where a promised property does not hold of the code in full, the model keeps the code and states the
exact condition:

- A chunk boundary inside CR LF adds a line end (`ChunkingInvariance`). At the end of an event, or
  in the blank line behind it, that does no harm; anywhere else the blocks read are not the entries
  sent (`EntriesExactly`), and an event whose connection then breaks off behind its id is lost for
  good (`CutLosesEvent`). A server that writes only LF, or only CR, is not affected
  (`OneLineEndIsInvariant`).
- An event whose payload the validator or transformer rejects is skipped for good on resumption,
  because its id is recorded before the callback runs (`GapFreeExactly`).
- An id with white space at its end is sent trimmed, so the server does not resume behind its event
  (`ResumedExactly`). One that no header can carry, because a character does not fit a byte or is a
  NUL, ends the stream for good at the next request (`HonestRunThrowsExactly`).
- A backoff lies between 0 and the cap exactly when the delay is positive, or zero within the first
  1024 attempts, after which it is not a number (`BackoffBounds`, `SleepWithinExactly`); a server
  can set any negative delay (`NegativeDelay`).
- A name that the matrix style prints unencoded comes out as printed exactly when it holds none of
  the replacement patterns (`DollarIsRewritten`). Stray closing braces are as harmless as any other
  text (`SequentialIsSimultaneous`). A stray opening brace in `{x{a}}{y}` moves the value of `y`
  exactly when that value is not empty and `x` followed by the value of `a` spells `y`
  (`StrayBraceMisplaces`).
- What is put into a placeholder can be read back exactly when nothing in it can be taken for a
  separator: in the exploded label style, whose separator is a dot, no value may hold one, and keys,
  which are printed unencoded, may not hold the separator in any style (`ReplacementReadsBack`).
- Merging a header list whose last value is blank loses its trailing separator, and of several
  Set-Cookie values only the last survives (`CopyExactly`, `LayeredIsFlatExactly`).
- A base URL ending in two slashes loses one with every merge (`BaseUrlStable`).
- An interceptor id kept across `clear` names a later interceptor exactly when that many have been
  registered since and that one has not been ejected (`StaleIdNamesAnother`), and a successful
  update of the id 0 returns a falsy value (`Update`).
- A repeated `error` object is decoded into the same struct, so details of an earlier one can remain
  (`LastErrorWins`).
- Where path normalisation fails, FindPath decodes an argument once more than the handler does
  (`ArgumentsDiffer`). Only a URL put together by hand is of that kind (`HandMadeUrl`,
  `EscapeDecodedTwice`).

Where the event-stream client departs from section 9.2.6 of the WHATWG HTML standard (all white
space after the colon is removed, a `data` line without colon is ignored, a block without data is
shown as an event, a retry value may be signed), and where its comment calls `sseMaxRetryAttempts`
the number of retries although the code counts the first request too, the model follows the code.

## Model

| member | source | states |
|---|---|---|
| SseParser.NormalizePieces | frontend/src/lib/api/generated/core/serverSentEvents.gen.ts:171-172 | normalising two pieces agrees with normalising their concatenation, unless the cut falls inside CR LF, which yields exactly one line end too many |
| SseParser.CutAppend | frontend/src/lib/api/generated/core/serverSentEvents.gen.ts:174-175 | splitting a text in two steps, keeping the unfinished piece, gives the blocks and the rest of splitting it at once |
| SseParser.FeedAllIsOneCut | frontend/src/lib/api/generated/core/serverSentEvents.gen.ts:155-175 | the read loop over any chunks equals one split of the text normalised chunk by chunk |
| SseParser.BufferIsClean | frontend/src/lib/api/generated/core/serverSentEvents.gen.ts:171-175 | between two reads the buffer holds neither a CR nor a blank line |
| SseParser.ChunkingInvariance | frontend/src/lib/api/generated/core/serverSentEvents.gen.ts:168-175 | a chunking gives the blocks and the leftover of the whole text if and only if it cuts no CR LF pair |
| SseParser.DispatchAppend | frontend/src/lib/api/generated/core/serverSentEvents.gen.ts:177-233 | dispatching blocks read by read equals dispatching them all at once |
| SseClient.SseStream.ReadField | frontend/src/lib/api/generated/core/serverSentEvents.gen.ts:183-197 | one line contributes to data, name, id or delay, at most one of them, and leaves the others |
| SseClient.SseStream.ReadFields | frontend/src/lib/api/generated/core/serverSentEvents.gen.ts:178-198 | after the lines of a block: all data values in order, the last name, the last id or the one before, the last numeric delay or the one before |
| SseClient.SseStream.DispatchBlock | frontend/src/lib/api/generated/core/serverSentEvents.gen.ts:177-233 | one block: id and delay recorded first, then parse, validate and transform, show the event, yield the data if there is any; a throwing callback shows nothing |
| SseClient.SseStream.DispatchBlocks | frontend/src/lib/api/generated/core/serverSentEvents.gen.ts:177-233 | the loop over the blocks of a read, ended by the first one that throws |
| SseClient.SseStream.ReadOnce | frontend/src/lib/api/generated/core/serverSentEvents.gen.ts:169-233 | one read: append, normalise, split, keep the last piece, dispatch the others |
| SseClient.SseStream.ReadConnection | frontend/src/lib/api/generated/core/serverSentEvents.gen.ts:155-240 | a connection starts from an empty buffer, dispatches exactly its complete blocks, and completes only if the stream ends normally and nothing throws |
| SseClient.SseStream.TakeTurn | frontend/src/lib/api/generated/core/serverSentEvents.gen.ts:113-259 | one turn of the reconnect loop on the whole closure state: abort, attempt count, the Last-Event-ID sent (the recorded id, trimmed) or the throw for an id that no header can carry, completion, giving up, backoff |
| SseClient.SseStream.CreateStream | frontend/src/lib/api/generated/core/serverSentEvents.gen.ts:108-260 | the generator's state after any script of connections is the specification's `Run`, of which the rows below say how it ends and what it has requested, slept and yielded |
| SseEnding.FailsExactly | frontend/src/lib/api/generated/core/serverSentEvents.gen.ts:200-209 | a connection fails in a callback if and only if one of its blocks is rejected |
| SseEnding.RunningExactly | frontend/src/lib/api/generated/core/serverSentEvents.gen.ts:112-259 | the loop is still going on after some answers if and only if none of them is an abort, meets an id that cannot be sent, is read to its normal end without a rejection, or exhausts the limit; by then it has made one request for each, with the id recorded before it, and slept once behind each |
| SseEnding.EndsExactly | frontend/src/lib/api/generated/core/serverSentEvents.gen.ts:112-259 | a run completes, stops, throws or gives up if and only if it is the i-th answer, for some i, that makes it: it completes where a connection is read to its normal end and no callback rejects anything; it then equals the run over the first i + 1 answers, with i sleeps and i or i + 1 requests |
| SseRetry.RetryLimit | frontend/src/lib/api/generated/core/serverSentEvents.gen.ts:245-250 | with a limit N at most max(1, N) requests, each attempt making one but for an attempt that throws, and one sleep fewer; and the stream has stopped after that many answers |
| SseRetry.RetryLimitReached | frontend/src/lib/api/generated/core/serverSentEvents.gen.ts:245-250 | the bound is reached when no request yields a stream, and not before that many answers |
| SseRetry.BackoffBounds | frontend/src/lib/api/generated/core/serverSentEvents.gen.ts:253-256 | a backoff lies between 0 and the cap if and only if the delay is positive, or zero within the first 1024 attempts; a zero delay is not a number after that |
| SseRetry.BackoffGrows | frontend/src/lib/api/generated/core/serverSentEvents.gen.ts:253-256 | for a delay that is not negative, a later backoff is at least an earlier one if and only if the later one is a number |
| SseRetry.SleepIs | frontend/src/lib/api/generated/core/serverSentEvents.gen.ts:243-257 | every sleep of every run is the backoff for the delay then in force and the number of requests so far, connections that worked included |
| SseRetry.SleepWithinExactly | frontend/src/lib/api/generated/core/serverSentEvents.gen.ts:243-257 | each sleep of every run lies between 0 and the cap if and only if the delay in force was positive, or zero within the first 1024 attempts |
| SseRetry.SleepsWithinCap | frontend/src/lib/api/generated/core/serverSentEvents.gen.ts:252-257 | over every run whose delays are positive, or not negative within the first 1024 attempts, every sleep lies between 0 and the cap |
| SseRetry.TotalSleepBound | frontend/src/lib/api/generated/core/serverSentEvents.gen.ts:245-257 | a limit N bounds the time slept by max(1, N) - 1 caps, for positive delays or for a limit of at most 1025 |
| SseRetry.SleepsAreDoublings | frontend/src/lib/api/generated/core/serverSentEvents.gen.ts:252-257 | from any point of a run on, while no delay arrives, every sleep is the capped doubling of the delay in force at that point |
| SseRetry.SleepsNeverShrink | frontend/src/lib/api/generated/core/serverSentEvents.gen.ts:252-257 | from any point of a run on, while no delay arrives and for a delay that is not negative, backoffs never decrease, exactly as long as they are numbers |
| SseRetry.SleepsAsConfigured | frontend/src/lib/api/generated/core/serverSentEvents.gen.ts:109-257 | with a delay and a cap configured, a client that gets no stream sleeps the capped doublings of that delay |
| SseRetry.SleepsByDefault | frontend/src/lib/api/generated/core/serverSentEvents.gen.ts:109-257 | unless configured otherwise, a client that gets no stream sleeps 3, 6, 12 and 24 seconds, then 30 seconds each time, without end |
| SseParser.JsSpacesExactly | frontend/src/lib/api/generated/core/serverSentEvents.gen.ts:183-196 | the white space removed after a colon is that of ECMA-262 |
| SseDelay.ParseStopsAtText | frontend/src/lib/api/generated/core/serverSentEvents.gen.ts:190-193 | a number is read behind either sign, up to the first character that is no digit |
| SseDelay.NoDigitNoNumber | frontend/src/lib/api/generated/core/serverSentEvents.gen.ts:190-193 | a sign without a digit behind it is no number |
| SseDelay.ParseIntText | frontend/src/lib/api/generated/core/serverSentEvents.gen.ts:190-193 | `parseInt` gives back every integer from its decimal text |
| SseRetry.RetryLine | frontend/src/lib/api/generated/core/serverSentEvents.gen.ts:189-196 | a `retry:` line with any integer's text sets that integer |
| SseRetry.NegativeDelay | frontend/src/lib/api/generated/core/serverSentEvents.gen.ts:189-196 | every negative integer is accepted as a delay, and every backoff for it is below zero whatever the cap |
| SseBreaks.StaysLevel | frontend/src/lib/api/generated/core/serverSentEvents.gen.ts:168-175 | with CR LF pairs cut only at the end of an entry, a reader is where it would be without the cuts, or one line feed ahead at the end of a block |
| SseExact.EntriesExactly | frontend/src/lib/api/generated/core/serverSentEvents.gen.ts:168-175 | the blocks read that say anything are the log's next entries in order if and only if every CR LF pair that is cut ends the last line of its entry or is the blank line behind it |
| SseExact.WholeReplayReadsAll | frontend/src/lib/api/generated/core/serverSentEvents.gen.ts:168-175 | a replay delivered whole under such cuts is read to the last entry |
| SseResume.IdleBlocksDoNothing | frontend/src/lib/api/generated/core/serverSentEvents.gen.ts:177-233 | blocks without data and id change neither the recorded id nor what was yielded |
| SseResume.ResumedExactly | frontend/src/lib/api/generated/core/serverSentEvents.gen.ts:123-125 | a reader that has been through n entries is resumed behind them if and only if the last id has no white space at its ends |
| SseResume.ServedReplays | frontend/src/lib/api/generated/core/serverSentEvents.gen.ts:155-175 | whatever the cut and the chunking, the blocks of an honest connection are, but for idle ones, the log's next entries |
| SseResume.Replay | frontend/src/lib/api/generated/core/serverSentEvents.gen.ts:177-233 | one connection moves the reader forward in the log without a gap: to the last complete entry or to just behind the first rejected one |
| SseResume.ResumeSafety | frontend/src/lib/api/generated/core/serverSentEvents.gen.ts:102-259 | at every point of every run against a server that replays strictly after Last-Event-ID (section 9.2.4 of the WHATWG HTML standard), the recorded id and the yielded data are those of the first n entries of the log, in order and without repetition |
| SseResume.WholeReplayCatchesUp | frontend/src/lib/api/generated/core/serverSentEvents.gen.ts:155-240 | a connection delivering the whole replay without rejection leaves nothing of the log unseen |
| SseResume.GapFreeExactly | frontend/src/lib/api/generated/core/serverSentEvents.gen.ts:187-232 | what was yielded is a gap-free prefix of the log exactly when no callback rejected an entry |
| SseEnding.AttemptsExactly | frontend/src/lib/api/generated/core/serverSentEvents.gen.ts:112-240 | an abort is a stop, a request without a stream a failure, and a stream completes the run exactly when it ends normally and no block of it is rejected |
| SseEnding.AbortStops | frontend/src/lib/api/generated/core/serverSentEvents.gen.ts:112-114 | a client that finds its signal aborted stops as it is, whatever comes after |
| SseThrown.ThrownExactly | frontend/src/lib/api/generated/core/serverSentEvents.gen.ts:113-125 | a run throws out of the loop if and only if, still running, it is to make a request with a recorded id that no header can carry; nothing is shown after that |
| SseThrown.SendableNeverThrows | frontend/src/lib/api/generated/core/serverSentEvents.gen.ts:123-125 | if every id received fits a header value, the run never throws |
| SseThrown.HonestRunThrowsExactly | frontend/src/lib/api/generated/core/serverSentEvents.gen.ts:113-125 | against an honest server a running client that has been through n entries throws at its next request if and only if the n-th id cannot be sent, and then never sees the rest of the log |
| SseRender.RoundTrip | frontend/src/lib/api/generated/core/serverSentEvents.gen.ts:171-217 | rendering with any of the three line ends and any admissible chunking, then reading, gives back name, data, id and delay of every event and an empty buffer |
| SseEvents.EventsRoundTrip | frontend/src/lib/api/generated/core/serverSentEvents.gen.ts:171-232 | the events shown have the rendered names, the joined data, and the id and the delay in force, and the last of both stay recorded |
| SseEvents.PayloadExactly | frontend/src/lib/api/generated/core/serverSentEvents.gen.ts:200-230 | the data lines are the lines of one text, shown raw exactly when it is no JSON, rejected exactly when a callback throws on the parsed value, and otherwise shown as the callbacks return it |
| SseEvents.NoPayload | frontend/src/lib/api/generated/core/serverSentEvents.gen.ts:200-230 | a block is without data exactly when it has no data line |
| SseCut.OneLineEndIsInvariant | frontend/src/lib/api/generated/core/serverSentEvents.gen.ts:168-175 | text without CR, or without LF, is read the same under any chunking |
| SseCut.CutLosesEvent | frontend/src/lib/api/generated/core/serverSentEvents.gen.ts:168-188 | for every id and every accepted data line: a connection breaking off behind a CR LF cut in two after the id line records the id, shows nothing, and leaves a resuming server nothing to send |
| HeaderText.HeaderValueExactly | frontend/src/lib/api/generated/core/serverSentEvents.gen.ts:123-125 | a text without line ends is a header value if and only if its characters lie between U+0001 and U+00FF |
| Percent.UnescapeEncoded | frontend/src/lib/api/generated/core/utils.gen.ts:82-84 | decoding the output of `encodeURIComponent` gives the UTF-8 bytes of the input (section 2.1 of RFC 3986) |
| Percent.EncodedAlphabet | frontend/src/lib/api/generated/core/utils.gen.ts:82-84 | encoded text consists of unescaped characters and `%` |
| Percent.Utf8Lengths | frontend/src/lib/api/generated/core/utils.gen.ts:82-84 | every character takes the number of bytes of section 3 of RFC 3629 |
| Percent.HexExactly | backend/internal/gen/openapi/oas_router_gen.go:239-250 | escapes are written with the sixteen upper-case digits and read in either case |
| Percent.Utf8Injective | frontend/src/lib/api/generated/core/utils.gen.ts:82-84 | different strings have different bytes |
| PathTemplate.DefaultPathSerializer | frontend/src/lib/api/generated/core/utils.gen.ts:18-89 | the loop of replace-first calls over the matches of the original template, including the throwing case |
| PathTemplate.MatchesAreHoles | frontend/src/lib/api/generated/core/utils.gen.ts:16-23 | in a template whose opening braces all belong to placeholders, matching finds exactly the placeholders in order |
| PathTemplate.ReplaceNth | frontend/src/lib/api/generated/core/utils.gen.ts:43-85 | replacing the first occurrence of the n-th placeholder replaces that placeholder, repeated ones included |
| PathTemplate.SubstituteInert | frontend/src/lib/api/generated/core/utils.gen.ts:71-85 | a replacement without `$$`, `$&`, `` $` `` and `$'` is inserted verbatim in every template |
| PathTemplate.SequentialIsSimultaneous | frontend/src/lib/api/generated/core/utils.gen.ts:18-89 | sequential replace-first equals one simultaneous left-to-right substitution when replacements hold no brace and no replacement pattern, whatever closing braces the template holds elsewhere |
| PathValues.PlaceholderReadsBack | frontend/src/lib/api/generated/core/utils.gen.ts:25-40 | a placeholder written in one of the three styles, exploded or not, is read as that |
| PathValues.ListReadsBack | frontend/src/lib/api/generated/core/pathSerializer.gen.ts:74-116 | splitting the joined items at the separator gives one piece for each, in order, that decodes to it, if and only if the separator is no dot or no item holds a dot |
| PathValues.PairsReadBack | frontend/src/lib/api/generated/core/pathSerializer.gen.ts:98-186 | pieces `name=value` are split back into the pairs if and only if no name holds the separator and, between dots, no value a dot |
| PathValues.EntriesReadBack | frontend/src/lib/api/generated/core/pathSerializer.gen.ts:151-171 | keys and values in turn are split back at the commas if and only if no key holds a comma |
| PathValues.ReplacementReadsBack | frontend/src/lib/api/generated/core/utils.gen.ts:18-89 | for every placeholder and value: it is left in place for undefined and null, throws exactly when something nested is to be printed pair by pair, and is otherwise replaced by a text that reads back as the value exactly when nothing in it can be taken for a separator |
| PathSafety.EncodedIsInert | frontend/src/lib/api/generated/core/utils.gen.ts:82-85 | every encoded text is such a replacement, and has no `$` at all |
| PathSafety.ArrayInert | frontend/src/lib/api/generated/core/pathSerializer.gen.ts:74-116 | so is every serialised array in the path styles, whatever its elements |
| PathSafety.ObjectInert | frontend/src/lib/api/generated/core/pathSerializer.gen.ts:136-186 | so is every serialised object whose keys are |
| PathSafety.SafeArgumentsExpandSimultaneously | frontend/src/lib/api/generated/core/utils.gen.ts:18-89 | the substitution theorem with a condition on the arguments only: names written unencoded, object keys and date texts; scalars and arrays are unrestricted |
| PathSafety.PatternsExactly | frontend/src/lib/api/generated/core/utils.gen.ts:71-80 | a brace-free replacement of the whole template comes out unchanged if and only if it holds no pattern |
| PathSafety.DollarIsRewritten | frontend/src/lib/api/generated/core/utils.gen.ts:71-80 | for every brace-free name in matrix style, the url is the printed parameter if and only if the name holds no pattern |
| PathSafety.StrayBraceMisplaces | frontend/src/lib/api/generated/core/utils.gen.ts:43-85 | the template `{x{a}}{y}` is expanded like one substitution if and only if `x` with the value of `a` does not spell `y`, or nothing or the empty text is put in for `y` |
| Query.QuerySerializer | frontend/src/lib/api/generated/client/utils.gen.ts:19-68 | the printed query under any options, including the throwing case |
| Query.RoundTrip | frontend/src/lib/api/generated/client/utils.gen.ts:23-66 | under any options that print scalars piece by piece, the defaults among them, splitting a printed query at `&` and the first `=` and decoding values recovers the flattened ordered list of scalars, array elements, object entries and dates; nulls are gone |
| Query.DefaultRoundTrip | frontend/src/lib/api/generated/client/utils.gen.ts:19-68 | with the default options arrays are recovered under the repeated name, and the entries of an object under `name[key]`, whenever no name or key holds `&` or `=` and no date `&` or `%` |
| Query.OptionsDecide | frontend/src/lib/api/generated/client/utils.gen.ts:19-35 | a parameter listed by name is printed by its own options alone, and any other by the common ones alone |
| Query.NameSurvivesDecoding | frontend/src/lib/api/generated/core/pathSerializer.gen.ts:133-133 | names are printed raw: a reader that decodes them too sees the same name exactly when it has no `%` |
| Query.ThrowsExactly | frontend/src/lib/api/generated/core/pathSerializer.gen.ts:127-131 | under any options, printing throws if and only if a value printed piece by piece holds a non-scalar |
| Router.BelowSlash | backend/internal/gen/openapi/oas_router_gen.go:58-112 | the table of routes, seen below the leading slash |
| Router.Walk | backend/internal/gen/openapi/oas_router_gen.go:57-179 | the nested prefix switches find exactly the route with which the declarative table answers the path |
| Router.RoutedExactly | backend/internal/gen/openapi/oas_router_gen.go:25-36 | a URL is routed exactly when what is walked is the prefix followed by a path that the table answers |
| Router.ServeHTTP | backend/internal/gen/openapi/oas_router_gen.go:40-181 | an operation is called iff the table has the route and the method is GET; not-allowed iff it has the route and the method is another; otherwise not found; whether arguments are still escaped |
| Router.FindPath | backend/internal/gen/openapi/oas_router_gen.go:234-379 | a route is found iff ServeHTTP would call it, with its arguments unescaped when the URL has a raw path |
| Router.RouteIsUnique | backend/internal/gen/openapi/oas_router_gen.go:57-179 | a path has at most one route |
| UrlRoundTrip.UrlIsAssembled | frontend/src/lib/api/generated/core/utils.gen.ts:91-117 | the URL is the base, a slash unless the path brings one, the path with its placeholders filled and the query behind exactly one `?`, if there is any |
| UrlRoundTrip.OrganizationUrl | frontend/src/lib/api/generated/core/utils.gen.ts:91-117 | the URL the client builds for an organization id |
| UrlRoundTrip.StaysOneSegment | frontend/src/lib/api/generated/core/utils.gen.ts:82-107 | the encoded id has no slash, and is removed as a dot segment exactly when the id is `.` or `..` |
| UrlRoundTrip.CanonicalNormalizes | backend/internal/gen/openapi/oas_router_gen.go:43-48 | the contract asked of path normalisation is met by the normaliser that decodes what `encodeURIComponent` leaves alone |
| UrlRoundTrip.ParsePathExactly | backend/internal/gen/openapi/oas_router_gen.go:40-48 | a path parses exactly when its escapes are well-formed; the URL has the decoded path, and its raw path exactly where escaping again would not give it back |
| UrlRoundTrip.NormalFormMeaning | backend/internal/gen/openapi/oas_router_gen.go:43-48 | normalising a raw path keeps its decoded meaning and adds no slash |
| UrlRoundTrip.ElementOfId | backend/internal/gen/openapi/oas_router_gen.go:41-48 | the walked path is the fixed prefix and one slash-free argument standing for the id, with and without a raw path |
| UrlRoundTrip.RoundTrip | backend/internal/gen/openapi/oas_router_gen.go:40-379 | for every id the client's path is handled by GetOrganization, whose argument decodes to the UTF-8 bytes of the id, and FindPath reports those bytes |
| UrlRoundTrip.ArgumentsAgree | backend/internal/gen/openapi/oas_router_gen.go:40-250 | for every path that parses, prefix and route, the argument as the handler decodes it is the one FindPath reports |
| UrlRoundTrip.ArgumentsDiffer | backend/internal/gen/openapi/oas_router_gen.go:239-250 | on every routed URL whose normalisation fails the two agree if and only if the argument has no percent sign or a malformed escape; no parsed URL is of that kind |
| UrlRoundTrip.HandMadeUrl | backend/internal/gen/openapi/oas_router_gen.go:239-250 | for every slash-free argument and every raw path that fails to normalise there is a URL routed with that argument |
| UrlRoundTrip.EscapeDecodedTwice | backend/internal/gen/openapi/oas_router_gen.go:239-250 | on such a URL with the argument `%41` the handler gets `%41` and FindPath reports `A` |
| Params.BuildKeyMap | frontend/src/lib/api/generated/core/params.gen.ts:65-88 | the recursive filling equals overlaying the flattened declarations in order |
| Params.KeyMapIsLastWins | frontend/src/lib/api/generated/core/params.gen.ts:65-88 | each key maps to its last declaration |
| Params.LastDeclaration | frontend/src/lib/api/generated/core/params.gen.ts:65-88 | flattening nested groups keeps which declaration of a key is the last |
| ParamRouting.EntryLands | frontend/src/lib/api/generated/core/params.gen.ts:157-180 | each key of an object argument lands where its last declaration says, renamed or not, as a field or as the whole slot; else in the slot of its prefix, without it; else in the first slot that allows extra keys; else nowhere |
| ParamRouting.RouteEntries | frontend/src/lib/api/generated/core/params.gen.ts:154-181 | every entry of an object argument lands so, in order, until one throws |
| ParamRouting.RouteArg | frontend/src/lib/api/generated/core/params.gen.ts:143-182 | one argument: a positional field lands where the last declaration of its key says, a body without key becomes the body, an object lands entry by entry |
| ParamRouting.BuildClientParams | frontend/src/lib/api/generated/core/params.gen.ts:111-188 | every argument lands under the configuration at its position, or else the last one; every final slot entry is the last write to it after the slot's last replacement; routing throws exactly when a field is written into a slot replaced by null or a primitive; the slots are the stripped result |
| Params.EntryIsLastWrite | frontend/src/lib/api/generated/core/params.gen.ts:123-130 | over any sequence of writes and replacements, an entry is the last write after the last replacement |
| Params.ThrowsExactly | frontend/src/lib/api/generated/core/params.gen.ts:123-130 | the exact condition under which a write throws |
| Params.PrefixesAreDisjoint | frontend/src/lib/api/generated/core/params.gen.ts:45-51 | at most one extra prefix fits a key, so a key has one destination |
| Params.StripEmptySlots | frontend/src/lib/api/generated/core/params.gen.ts:97-109 | deletion in place leaves every slot but the empty records other than the body |
| Params.StripKeepsEntries | frontend/src/lib/api/generated/core/params.gen.ts:97-109 | stripping keeps every entry and removes exactly the empty non-array records other than the body |
| Headers.MergeHeaders | frontend/src/lib/api/generated/client/utils.gen.ts:198-230 | the nested loops over layers and entries: null deletes, arrays append, scalars overwrite, a Headers object overwrites name by name |
| Headers.LayerMeans | frontend/src/lib/api/generated/client/utils.gen.ts:202-228 | what a layer does to a looked-up value depends on that value alone |
| Headers.CopyExactly | frontend/src/lib/api/generated/client/utils.gen.ts:190-210 | copying a Headers object by merging keeps a lookup exactly when it has one value, or several not ending in a blank one under a name other than Set-Cookie |
| Headers.LayeredIsFlat | frontend/src/lib/api/generated/client/utils.gen.ts:181-230 | for names other than Set-Cookie without blank array values, any chain of configurations has the lookups of one fold over all layers |
| HeaderChains.LayerSettlesOrAppends | frontend/src/lib/api/generated/client/utils.gen.ts:212-227 | a layer either fixes a name's value or appends the same text to whatever it was |
| HeaderChains.LayeredIsFlatExactly | frontend/src/lib/api/generated/client/utils.gen.ts:181-230 | for every chain and every name but Set-Cookie, layered and flat lookup agree exactly when, since a layer last settled the name, no flat value that had to be copied began or ended with white space; otherwise the layered one is shorter |
| ClientConfig.BaseUrlStable | frontend/src/lib/api/generated/client/utils.gen.ts:181-188 | a base URL once set is stable under any number of merges that lack it if and only if it does not end in two slashes |
| ClientConfig.JsonByDefault | frontend/src/lib/api/generated/client/utils.gen.ts:325-327 | as long as no layer names Content-Type, in any case, it is `application/json` |
| Headers.LowerExactly | frontend/src/lib/api/generated/client/utils.gen.ts:198-236 | two names are one header if and only if they differ in nothing but the case of ASCII letters |
| ClientConfig.Client.constructor | frontend/src/lib/api/generated/client/client.gen.ts:27-28 | the initial configuration is the defaults and one layer |
| ClientConfig.Client.SetConfig | frontend/src/lib/api/generated/client/client.gen.ts:32-35 | the closure variable holds the chain of all layers so far, and the base URL as merged |
| ClientConfig.Client.BeforeRequest | frontend/src/lib/api/generated/client/client.gen.ts:44-83 | a request has the headers of the chain of defaults, every configuration and the options, but no Content-Type without a body; with a body and no layer that names it, Content-Type is JSON; each other than Set-Cookie is that of the flat merge if and only if it was intact |
| Interceptors.Interceptors.Clear | frontend/src/lib/api/generated/client/utils.gen.ts:255-257 | empties the registry and restarts the ids |
| Interceptors.Interceptors.Eject | frontend/src/lib/api/generated/client/utils.gen.ts:259-264 | takes out exactly the entry an id or an interceptor names, if any |
| Interceptors.Interceptors.Exists | frontend/src/lib/api/generated/client/utils.gen.ts:266-276 | true iff the key names a live entry |
| Interceptors.Interceptors.Update | frontend/src/lib/api/generated/client/utils.gen.ts:278-288 | replaces exactly the named entry in its place, and returns the key if there was one and false otherwise; the result is falsy for the id 0 too |
| Interceptors.Interceptors.Use | frontend/src/lib/api/generated/client/utils.gen.ts:290-293 | adds at the end under the next id, which it returns |
| Interceptors.Interceptors.Pipeline | frontend/src/lib/api/generated/client/client.gen.ts:102-118 | applies exactly the live interceptors in registration order |
| Interceptors.ResolveExactly | frontend/src/lib/api/generated/client/utils.gen.ts:271-276 | a key names the first entry that has the id or is the interceptor, and nothing if there is none |
| Interceptors.UpdateMeans | frontend/src/lib/api/generated/client/utils.gen.ts:278-288 | an update exchanges the interceptor of the named entry in its place and leaves the others alone |
| Interceptors.AppliedInOrder | frontend/src/lib/api/generated/client/client.gen.ts:102-118 | a value goes through a list of interceptors from the first to the last |
| Interceptors.PipelineLog | frontend/src/lib/api/generated/client/client.gen.ts:102-118 | interceptors that log themselves leave the list of live interceptors in their order |
| Interceptors.RunIsOrdered | frontend/src/lib/api/generated/client/utils.gen.ts:252-294 | over every run of operations live ids increase along the pipeline |
| Interceptors.IdsAreDistinct | frontend/src/lib/api/generated/client/utils.gen.ts:290-293 | ids issued between two clears are pairwise different |
| Interceptors.GoneStaysGone | frontend/src/lib/api/generated/client/utils.gen.ts:255-293 | an id that is not live is not live again before a clear |
| Interceptors.EjectIsFinal | frontend/src/lib/api/generated/client/utils.gen.ts:259-264 | an ejected id is gone until the next clear |
| Interceptors.StaleIdNamesAnother | frontend/src/lib/api/generated/client/utils.gen.ts:255-264 | in every run, after its last clear, an id is live if and only if that many interceptors have been registered since and that one has not been ejected since; and every live interceptor was brought in since |
| SearchParams.SortKeepsValues | frontend/src/lib/api/generated/core/queryKeySerializer.gen.ts:62-64 | the stable sort keeps the order of each name's values under any locale order |
| SearchParams.SortSorts | frontend/src/lib/api/generated/core/queryKeySerializer.gen.ts:62-64 | under a transitive and total order the names come out sorted |
| SearchParams.SerializeSearchParams | frontend/src/lib/api/generated/core/queryKeySerializer.gen.ts:61-82 | the grouping loop yields, per name, the single value or the array of its values in order, and sets the names in sorted order |
| SearchParams.OrderIsDetermined | frontend/src/lib/api/generated/core/queryKeySerializer.gen.ts:58-60 | if only equal names compare as equal, the sorted order of the names follows from which names there are, so equal keys are equal in their order too |
| SearchParams.SameKeyExactly | frontend/src/lib/api/generated/core/queryKeySerializer.gen.ts:58-82 | two sets of parameters get the same key exactly when they give each name the same values in the same order |
| Lifecycle.StepKeeps | backend/internal/platform/httpserver/server.go:43-76 | every step of every component keeps the invariant on channel, readiness, shutdown, connections and deadline |
| Lifecycle.ReadyOnce | backend/internal/platform/httpserver/server.go:48-59 | once withdrawn, readiness never returns, in any interleaving |
| Lifecycle.Safety | backend/internal/platform/httpserver/server.go:43-76 | in every reachable state: the send never blocks; readiness is withdrawn before shutdown and false at return; the result was sent once and received once at return; a nil return means cancelled, with no connection and no request left; a drain fails by deadline only when the full timeout has passed since the withdrawal |
| Lifecycle.AttachedWouldFailAtOnce | backend/internal/platform/httpserver/server.go:61-66 | in every reachable drain the detached context expires by its deadline alone, while a timeout on the caller's own context would have expired at once |
| Lifecycle.SystemStepEnabled | backend/internal/platform/httpserver/server.go:50-75 | after cancellation some step of the server or its clock is enabled until it returns |
| Lifecycle.SystemStepDecreases | backend/internal/platform/httpserver/server.go:57-75 | such steps decrease a measure that no other step increases |
| Lifecycle.BoundedReturn | backend/internal/platform/httpserver/server.go:57-75 | every run holds at most 13 plus the timeout such steps after any point |
| LifecycleOutcome.OutcomeExactly | backend/internal/platform/httpserver/server.go:50-76 | every return of every run: the drain's error if and only if the drain failed with it; else the listener's error if and only if the listener failed; nil if and only if neither did |
| LifecycleOutcome.ReturnReports | backend/internal/platform/httpserver/server.go:50-76 | the same for every return of an infinite run |
| LifecycleOutcome.CleanShutdown | backend/internal/platform/httpserver/server.go:43-76 | in a weakly fair run in which neither fails, a cancelled Serve returns nil, with readiness down and no connection or request left |
| LifecycleRuns.RunIsAfter | backend/internal/platform/httpserver/server.go:43-76 | the state at the end of a run is determined by its steps |
| LifecycleRuns.WorldExactly | backend/internal/platform/httpserver/server.go:43-76 | after any steps: cancelled if and only if a cancellation is among them; the clock, the requests and, until a forced close, the connections are what the steps add up to |
| LifecycleRuns.NilIsReached | backend/internal/platform/httpserver/server.go:43-76 | some run with a connection and a request under way at cancellation returns nil |
| LifecycleRuns.ServeFailedIsReached | backend/internal/platform/httpserver/server.go:50-55 | some run returns the listener's error |
| LifecycleRuns.DrainFailedIsReached | backend/internal/platform/httpserver/server.go:61-70 | for every timeout some run returns the drain's error exactly when the timeout has passed |
| LifecycleRuns.ListenerErrorIsReached | backend/internal/platform/httpserver/server.go:66-70 | some run returns another error of the drain before any time has passed |
| LifecycleRuns.DrainCanEnd | backend/internal/platform/httpserver/server.go:61-66 | from every drain that is reached, the connections and requests can end at once, and then so can the drain |
| LifecycleProgress.DueStaysDue | backend/internal/platform/httpserver/server.go:50-75 | a possible step of the server or its clock stays possible whatever connections, requests and time do |
| LifecycleProgress.JustIsFair | backend/internal/platform/httpserver/server.go:50-75 | in an infinite run, weak fairness towards the single steps of the server and its clock after cancellation is the same as one of them happening again and again until the return |
| LifecycleProgress.ServeReturns | backend/internal/platform/httpserver/server.go:43-76 | in every infinite run in which no step of the server or its clock stays possible forever after cancellation without being taken, Serve returns |
| LifecycleProgress.ReturnIsClean | backend/internal/platform/httpserver/server.go:43-76 | and every return in an infinite run has the properties of a return listed for finite runs |
| JsonCodec.OnesCount | backend/internal/gen/openapi/oas_json_gen.go:134-134 | counts the set bits |
| JsonCodec.TrailingZeros | backend/internal/gen/openapi/oas_json_gen.go:136-136 | the lowest set bit |
| JsonCodec.LowestBit | backend/internal/gen/openapi/oas_json_gen.go:136-149 | resetting the lowest bit takes the first index off the list of set bits |
| JsonCodec.Report | backend/internal/gen/openapi/oas_json_gen.go:134-150 | the counting loop reports the names of the set bits in index order |
| JsonCodec.Failures | backend/internal/gen/openapi/oas_json_gen.go:125-152 | masking and exclusive-or select exactly the bits to report |
| JsonCodec.MissingFromBits | backend/internal/gen/openapi/oas_json_gen.go:125-152 | when the bit set holds exactly the required fields seen, the reported names are those of the required fields not seen |
| JsonCodec.Decode | backend/internal/gen/openapi/oas_json_gen.go:58-158 | the callback over the fields with its bit set, then the presence check, equal the declarative `Decoded` |
| JsonLaws.DecodesExactly | backend/internal/gen/openapi/oas_json_gen.go:62-157 | decoding succeeds iff the value is an object, every key is known, every value decodes and every required key appears |
| JsonLaws.ReportsExactly | backend/internal/gen/openapi/oas_json_gen.go:125-155 | when only presence fails, exactly the absent required fields are reported, in index order, without repeats |
| JsonLaws.FirstMisfitReported | backend/internal/gen/openapi/oas_json_gen.go:64-123 | otherwise the first unknown or undecodable field is reported |
| JsonOrder.Reordering | backend/internal/gen/openapi/oas_json_gen.go:64-123 | if each name keeps its values in order, reordering fields changes neither success nor the decoded value |
| JsonOrder.LastValueWins | backend/internal/gen/openapi/oas_json_gen.go:66-119 | an earlier occurrence of an overwriting field can be dropped |
| JsonMessages.DecodeDetails | backend/internal/gen/openapi/oas_json_gen.go:102-113 | the loop over the details yields the decoded list, or fails if one fails |
| JsonMessages.DetailIsLawful | backend/internal/gen/openapi/oas_json_gen.go:203-286 | the laws apply to ErrorDetail, and all its fields overwrite |
| JsonMessages.ErrorIsLawful | backend/internal/gen/openapi/oas_json_gen.go:58-158 | the laws apply to Error, and all its fields, details included, overwrite |
| JsonMessages.EnvelopeIsLawful | backend/internal/gen/openapi/oas_json_gen.go:323-382 | the laws apply to ErrorEnvelope |
| JsonMessages.OrganizationIsLawful | backend/internal/gen/openapi/oas_json_gen.go:569-670 | the laws apply to Organization, and all its fields overwrite |
| JsonNames.DetailDecodesExactly | backend/internal/gen/openapi/oas_json_gen.go:203-286 | an object decodes to the last text of each of `pointer`, `code` and `message`, or to the list of those that do not occur; the first field of another name, or that is no string, is reported instead |
| JsonNames.ErrorDecodesExactly | backend/internal/gen/openapi/oas_json_gen.go:58-158 | the same for `code`, `message` and `requestId`, all required, and the optional array `details`, each element of which must decode |
| JsonNames.EnvelopeDecodesExactly | backend/internal/gen/openapi/oas_json_gen.go:323-382 | the same for the required `error`, several of which are decoded one into the other |
| JsonNames.OrganizationDecodesExactly | backend/internal/gen/openapi/oas_json_gen.go:569-670 | the same for `id`, `name`, `status`, `createdAt` and `updatedAt`, all required, with the codecs of the identifier and the times |
| JsonEncoding.Unambiguous | backend/internal/gen/openapi/oas_json_gen.go:18-49 | the tokens written for a value can be read as no other value |
| JsonEncoding.Encoder.EncodeDetail | backend/internal/gen/openapi/oas_json_gen.go:174-194 | appends exactly the tokens of the detail |
| JsonEncoding.Encoder.EncodeDetails | backend/internal/gen/openapi/oas_json_gen.go:42-46 | the loop appends exactly the tokens of the array |
| JsonEncoding.Encoder.EncodeError | backend/internal/gen/openapi/oas_json_gen.go:18-49 | appends exactly the tokens of the error; nil details are left out, empty ones are an empty array |
| JsonEncoding.Encoder.EncodeEnvelope | backend/internal/gen/openapi/oas_json_gen.go:304-316 | appends exactly the tokens of the envelope |
| JsonEncoding.Encoder.EncodeOrganization | backend/internal/gen/openapi/oas_json_gen.go:530-559 | appends exactly the tokens of the organization |
| JsonRoundTrip.DetailRoundTrip | backend/internal/gen/openapi/oas_json_gen.go:174-286 | an encoded detail decodes to itself |
| JsonRoundTrip.ErrorDecodesTo | backend/internal/gen/openapi/oas_json_gen.go:18-158 | an encoded error decodes to itself, except that nil details leave those of the target |
| JsonRoundTrip.EnvelopeRoundTrip | backend/internal/gen/openapi/oas_json_gen.go:304-382 | an encoded envelope decodes to itself, nil kept apart from empty details, exactly when it has details or the target has none |
| JsonRoundTrip.OrganizationRoundTrip | backend/internal/gen/openapi/oas_json_gen.go:530-670 | an encoded organization decodes to itself exactly when the identifier's and the times' codecs bring them back |
| JsonRoundTrip.WireRoundTrip | backend/internal/gen/openapi/oas_json_gen.go:304-382 | any reading of the tokens written for an envelope decodes to that envelope |
| JsonRoundTrip.OrganizationOverWire | backend/internal/gen/openapi/oas_json_gen.go:530-670 | any reading of the tokens written for an organization decodes to it, into any target, exactly when the codecs of the identifier and the times are faithful to its leaves |
| JsonRepeated.RepeatedErrors | backend/internal/gen/openapi/oas_json_gen.go:329-346 | an envelope with any number of `error` objects decodes, into any target, to all of them in turn |
| JsonRepeated.MergedIs | backend/internal/gen/openapi/oas_json_gen.go:58-119 | which has every field of the last object, but for the details: those of the last object that names them, or the target's |
| JsonRepeated.LastErrorWins | backend/internal/gen/openapi/oas_json_gen.go:329-346 | of any number of `error` objects the last one wins if and only if it names its details or none of the earlier ones does |
| RequestId.IdPatternExactly | backend/internal/gen/openapi/oas_validators_gen.go:573-590 | an id is one letter or digit followed by up to 127 letters, digits, dots, underscores, colons and hyphens |
| RequestId.CodePatternExactly | backend/internal/gen/openapi/oas_validators_gen.go:87-105 | a code is one capital followed by capitals, digits and underscores |
| RequestId.BoundsExactly | backend/internal/gen/openapi/oas_validators_gen.go:80-183 | how long an id, a code, a message and a pointer may be, and how many details there may be |
| RequestId.PartsExactly | backend/internal/gen/openapi/oas_validators_gen.go:143-173 | a detail is valid exactly when its three parts are, and a list of details exactly when it is short enough and each of them is |
| RequestId.ValidateError | backend/internal/gen/openapi/oas_validators_gen.go:80-183 | a field is reported exactly when it breaks its bounds or its pattern, and nothing is reported exactly when all hold |
| RequestId.ValidateDetails | backend/internal/gen/openapi/oas_validators_gen.go:143-173 | at most twenty details, each of them valid |
| RequestId.UuidIsValid | backend/internal/platform/httpserver/routes.go:83-87 | a generated id satisfies the pattern and its bounds |
| RequestId.Exchange.WithRequestID | backend/internal/platform/httpserver/routes.go:81-91 | a valid first value is kept; otherwise the whole header becomes one new id; the response header equals it |
| RequestId.Exchange.DecodeParams | backend/internal/gen/openapi/oas_parameters_gen.go:271-335 | the parameter is absent iff the header is; what it yields is always valid; a single value is yielded iff it is valid, several iff the library makes a valid one of them |
| RequestId.Exchange.ServeReadiness | backend/internal/platform/httpserver/routes.go:37-91 | the endpoint behind the middleware, its answer and its final response header |
| RequestId.RequestIdAgrees | backend/internal/platform/httpserver/routes.go:37-91 | for at most one header value, or an invalid first one, decoding never fails, the id is valid and the caller's if that is valid, and header and error body carry the same id |
| RequestId.SeveralValuesDecide | backend/internal/gen/openapi/oas_parameters_gen.go:279-303 | with further values behind a valid first one, the library's reading of them decides whether decoding fails |
| RequestId.UnavailableIsReadable | backend/internal/platform/httpserver/routes.go:45-52 | the body of the unavailable answer keeps its own contract and is read back whole from the tokens written |

## Left out

- ResumeSafety: the callbacks `onSseEvent` and `onSseError` are taken not to throw, and the consumer not to return early.
- TakeTurn: no caller sets Last-Event-ID itself.
- SseRetry: finite doubles are not rounded and do not overflow; the power of two does, above 1023. Delays are integers or the configured real; a `retry:` value too large for a double is not infinite here.
- Strings are sequences of Unicode scalar values: lone surrogates, on which `encodeURIComponent` throws, do not occur.
- Query.RoundTrip: options that join values under one name, and `allowReserved`, print text from which the list cannot be recovered in general; QuerySerializer covers them.
- SequentialIsSimultaneous: its condition on replacements and opening braces is sufficient; if-and-only-ifs are proved for names in matrix style and for the template of StrayBraceMisplaces.
- LayeredIsFlatExactly: leaves out Set-Cookie, of which CopyExactly shows that a copy keeps only the last value.
- MergeHeaders: validity of names and values and the iteration order of a Headers object.
- BeforeRequest: the configuration's other properties, security, validators and body serialisers.
- BuildClientParams: arguments are values; that a whole-slot argument is the caller's own object, and is written into, is not modelled, nor are inherited keys of records.
- SerializeSearchParams: inherited object keys, and that an object lists integer-like names first; the other branches of the query-key serialiser.
- Interceptors.Pipeline: interceptors that change the registry while it is being iterated, and asynchrony.
- Router.Walk: written once, although the source repeats the switches in ServeHTTP and FindPath; dispatch records stand for the handlers called.
- UrlRoundTrip.RoundTrip: the generated router answers the path, but the running server mounts it under `/health/` only (backend/internal/platform/httpserver/routes.go:25-26), so the organization operation is not reachable there yet.
- Lifecycle: net/http is represented by its steps; `Run`'s listening and the wrapping of error values are not.
- JsonCodec.Decode: works on values, so what a failed decode leaves in the target struct is not modelled; the text syntax of JSON under the tokens belongs to the library; HealthStatus, a one-field object, is not instantiated.
- RequestId: request timeout, the mux and the other operations' parameter decoders, which repeat the same steps.
- OpenTelemetry, response writing, database, configuration, authentication and user-interface code.
- The outbox, inbox, idempotency and invoice protocols of the design documents, which no code implements.
