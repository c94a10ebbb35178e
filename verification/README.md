# Codex Rosetta: a verified model of its protocol cores

This project models, in Dafny, the parts of the gateway and its vendored
libraries whose correctness spans whole runs or all inputs, and proves what
they promise.

| file | models |
|---|---|
| `FailoverGate.dfy` | the single-flight gate: one leader, waiters, cancellation handoff, any number of tasks in any order |
| `FailoverChain.dfy` | the coordinator over the gate: observations, conditional claims, the history of the current candidate |
| `Cooldown.dfy` | the coordinator's ring: lazily pruned cooldown dictionaries and cyclic choice |
| `Chunked.dfy` | the server's chunked writer and the client's bounded chunked decoder |
| `HexSize.dfy` | chunk sizes as `int(..., 16)` reads them |
| `Framing.dfy` | what the client's decoder takes for a complete body |
| `ServerBody.dfy` | the server's limited reader of a chunked request body, against the client's decoder |
| `CutBody.dfy` | chunked bodies that break off: which cuts the two readers notice |
| `FirstFault.dfy`, `Trailer.dfy` | what both readers do with any input, and with any trailer section |
| `Lines.dfy` | the incremental and the synchronous line splitter with their limit |
| `Sse.dfy` | the server-sent-events parser and the standard's interpretation |
| `StreamPath.dfy` | the three stages end to end |
| `HttpRequest.dfy` | the redirect and Digest loop and the headers it carries |
| `HttpTrace.dfy` | why each request was sent and how a call ends, from requests and exchanges alone |
| `ConnectionPool.dfy` | the synchronous connection pool, ownership of connections, the request loop over it |
| `PooledRequests.dfy` | any number of such requests over one pool, interleaved |
| `Validator.dfy`, `Dispatch.dfy`, `Walker.dfy` | the validator: the walk, the dispatch table, the error-appending helpers |
| `Conformance.dfy` | what conforming to a type means, and what is wrong with values that do not |
| `JsonSchema.dfy` | the schema generator and what a schema accepts |
| `SchemaMeaning.dfy` | what the generated schemas accept, said of types |
| `SchemaAccount.dfy` | exactly when a generated schema accepts what the validator does |
| `BraceMatcher.dfy` | the jumping Rust brace matcher and a character-by-character lexer |
| `BraceTokens.dfy` | Rust text as tokens, and the braces among them |
| `SqliteStore.dfy` | the SQLite backend's deferred commits |
| `SessionSecret.dfy` | concurrent publication of the session secret by hard link |
| `Common.dfy`, `Bytes.dfy` | shared datatypes, byte lines, UTF-8, decimals |

Objects that the code updates in place are classes, and each of their methods
is proved equal to a function of the old state; loops are methods with
invariants. What the code promises is then proved of those functions, over
all runs (`Exec`, `Run`, `IsRun`) or all inputs. Concurrency is a step relation:
a section of code between two suspension points, or one system call, is one
step, and a run is any sequence of enabled steps of any tasks.

Clocks, the network, the liveness of sockets, the number of bytes a write
accepts, URL joining, Digest answers and text decoding are parameters, so the
results hold for all of them. One function is assumed to have a stated
property where a theorem needs it: the client's decoder reads UTF-8
(`StreamPath.DecodesUtf8`). Sizes of chunks are read as Python's `int(..., 16)`
reads them: a sign, a `0x` prefix, underscores, white space around them and a
bare line feed behind them are taken, beyond section 7.1 of RFC 9112.

Where code and documentation disagree the model follows the code:

- The class documentation of the SQLite backend says that `commit_every` 0
  disables periodic commits (persistdict.py:239-242); the code commits every
  write (persistdict.py:278-281).
- The event parser keeps the event type over a blank line without data
  (sse.py:290-291), where section 9.2.6 of the WHATWG HTML Living Standard
  resets it. `AgreesWithStandard` gives the exact condition.
- An empty server chunk is written as the last-chunk (httpserver.py:359-364) and
  ends the body early. `BodyArrivesWhole` gives the exact condition.
- Neither reader of a chunked body requires the last-chunk of section 7.1 of RFC
  9112: at the end of the input, or at a line without a size, what has come so
  far counts as the whole body (httpclient.py:1335-1338, httpserver.py:633-638).
  `DecodesExactlyFramed` and the theorems of `CutBody.dfy` give the exact
  conditions. The server also takes any line for the CRLF behind a chunk's data.
- Neither line reader ends a line at a CR, as section 9.2.5 of the WHATWG HTML
  Living Standard does. `LinesAreStandard` gives the exact condition.
- `OrderedFailoverCoordinator.wait` drops the leadership it may be handed
  (_ordered_failover.py:128-136). `DiscardingWaitStrandsOrphan` says exactly
  which runs strand the gate that way; what depends on it says so.

## Model

| member | source | states |
|---|---|---|
| FailoverGates.FailoverGate.constructor | src/codex_rosetta/gateway/_ordered_failover.py:19-25 | a new gate: generation 0, nobody in charge, nothing pending or published |
| FailoverGates.FailoverGate.AwaitActiveSection | src/codex_rosetta/gateway/_ordered_failover.py:34-44 | the object takes exactly one section of `await_active` up to its `wait()` or return: take over an orphaned gate, sleep while a leader works, else report the last outcome |
| FailoverGates.FailoverGate.ClaimSection | src/codex_rosetta/gateway/_ordered_failover.py:54-75 | the same for a claim; only a matching generation opens a new one, and the orphan branch does not look at the observed generation |
| FailoverGates.FailoverGate.Publish | src/codex_rosetta/gateway/_ordered_failover.py:77-83 | publication ends the generation and stores its outcome |
| FailoverGates.FailoverGate.Handoff | src/codex_rosetta/gateway/_ordered_failover.py:85-89 | handoff leaves the gate taken but on offer, holding the value |
| FailoverGates.NextKeepsInv | src/codex_rosetta/gateway/_ordered_failover.py:31-89 | every step of every task keeps the log of leadership events one legal chain that explains gate, leader and sleepers |
| FailoverGates.AtMostOneLeader | src/codex_rosetta/gateway/_ordered_failover.py:31-89 | in every interleaving there is at most one leader, the generation counts the fresh claims, and a leader exists exactly while the gate is active and not orphaned, unless a `wait` dropped leadership |
| FailoverGates.NoLostWakeup | src/codex_rosetta/gateway/_ordered_failover.py:35-44 | as long as no `wait` dropped leadership, a task asleep without notification has a live leader, and every waiter is at most a publication and its own wake-up from the end of its call, whoever was cancelled |
| FailoverGates.EndOfLeadershipNotifiesAll | src/codex_rosetta/gateway/_ordered_failover.py:77-89 | publish and handoff leave no task asleep, and each notified waiter can finish |
| FailoverGates.OnePublicationPerGeneration | src/codex_rosetta/gateway/_ordered_failover.py:70-82 | each generation is opened once and published once |
| FailoverGates.PublishedBeforeNextOpens | src/codex_rosetta/gateway/_ordered_failover.py:68-82 | a generation opens only directly after its predecessor was published; generations are consecutive from 1 |
| FailoverGates.RefusedClaimSeesLaterOutcome | src/codex_rosetta/gateway/_ordered_failover.py:68-69 | a refused claim reports a generation strictly later than the observed one and the outcome published for it |
| FailoverGates.AnswersFollowHistory | src/codex_rosetta/gateway/_ordered_failover.py:31-75 | in every reachable state each section of each call answers what the history of events alone says: sleep while a leader works; leadership, the same generation and the value handed off; leadership and the next generation for a claim of the present one; else the generations so far, the result last published, and whether the call has slept |
| FailoverGates.HandoffReachesOneSuccessor | src/codex_rosetta/gateway/_ordered_failover.py:62-66 | a handed-off value is taken (or dropped by a `wait`) by exactly the next leadership event, held by the gate until then, and every take-over gets the value handed off just before it |
| FailoverGates.OrphanTakeoverKeepsGeneration | src/codex_rosetta/gateway/_ordered_failover.py:62-75 | a task becomes leader by take-over without a new generation exactly when the gate was orphaned, else it adds one |
| FailoverGates.DiscardingWaitStrandsOrphan | src/codex_rosetta/gateway/_ordered_failover.py:128-136 | after any run, calls of `wait` included, the gate is taken with nobody in charge if and only if some section of a `wait`, before or after it slept, found the gate orphaned |
| FailoverGates.NoWaitNoDrop | src/codex_rosetta/gateway/_ordered_failover.py:31-89 | a run without `wait` never drops leadership |
| FailoverGates.StrandedForever | src/codex_rosetta/gateway/_ordered_failover.py:128-136 | no continuation whatever, further calls of `wait` included, frees a stranded gate: it never changes again, nobody leads, publishes or hands off, and every section falls asleep |
| FailoverGates.WaitCanStrandGate | src/codex_rosetta/gateway/_ordered_failover.py:128-136 | two concrete runs that strand it: a `wait` after the handoff, and one that slept before it |
| FailoverChains.NextKeepsInv | src/codex_rosetta/gateway/_ordered_failover.py:138-174 | every coordinator step keeps: a confirmed leader acts on the current candidate, and the changes of `current` are linked |
| FailoverChains.ChangesFormOneChain | src/codex_rosetta/gateway/_ordered_failover.py:159-174 | the history of `current` is one chain, each change made by a leader acting on the candidate it moved away from |
| FailoverChains.NoDoubleSkip | src/codex_rosetta/gateway/_ordered_failover.py:159-174 | two changes away from the same candidate happen only if `current` came back to it in between |
| FailoverChains.ClaimConfirmedOnlyWhileCurrent | src/codex_rosetta/gateway/_ordered_failover.py:159-174 | a claim that makes its task leader confirms it if and only if the observed candidate is current, and no other task's step changes `current` or unseats the leader |
| FailoverChains.QuietClaimDecidedByGeneration | src/codex_rosetta/gateway/_ordered_failover.py:138-174 | the observation that `await_observation` or `observe` returned while no failover runs wins a later claim exactly when no failover was begun since, and is then never asked to step back |
| FailoverChains.ObservationIsPresent | src/codex_rosetta/gateway/_ordered_failover.py:138-150 | the observation returned is of the current candidate and of the number of failovers begun; an awaited one finds none running |
| FailoverChains.OneOpeningPerObservation | src/codex_rosetta/gateway/_ordered_failover.py:138-174 | of all claims made with one generation, by any tasks and for any candidates, at most one opens the next; every other section of any of them sleeps, is refused, or takes over an orphaned leadership |
| Cooldowns.NewCoordinator | src/codex_rosetta/gateway/_ordered_failover.py:95-118 | a coordinator without cooldowns for distinct candidates, a current one among them and a positive cooldown; otherwise the error of the first check that fails |
| Cooldowns.OrderedFailoverCoordinator.MarkFailed | src/codex_rosetta/gateway/_ordered_failover.py:176-180 | a failure sets start, deadline and detail together |
| Cooldowns.OrderedFailoverCoordinator.Prune | src/codex_rosetta/gateway/_ordered_failover.py:182-196 | pruning removes the same expired candidates from all three dictionaries |
| Cooldowns.OrderedFailoverCoordinator.CooldownDetail | src/codex_rosetta/gateway/_ordered_failover.py:198-209 | detail and remaining time of a live cooldown, None for an expired one, an error for an unknown candidate |
| Cooldowns.OrderedFailoverCoordinator.AvailableCandidates | src/codex_rosetta/gateway/_ordered_failover.py:211-215 | the candidates not cooling, in cyclic order from the current one |
| Cooldowns.OrderedFailoverCoordinator.ClearCooldown | src/codex_rosetta/gateway/_ordered_failover.py:228-234 | clears one configured candidate in all three dictionaries, and no other |
| Cooldowns.OrderedFailoverCoordinator.ClearCooldownStartedBefore | src/codex_rosetta/gateway/_ordered_failover.py:236-247 | clears only a live cooldown that started strictly before the evidence, and says whether it did |
| Cooldowns.OrderedFailoverCoordinator.NextAvailableAfter | src/codex_rosetta/gateway/_ordered_failover.py:249-255 | the first candidate not cooling after a given one, that one last |
| Cooldowns.OrderedFailoverCoordinator.SetCurrent | src/codex_rosetta/gateway/_ordered_failover.py:257-260 | only a configured candidate becomes current |
| Cooldowns.CooldownsMatchHistory | src/codex_rosetta/gateway/_ordered_failover.py:176-247 | under a clock that never goes back, after any run of marks, clears, conditional clears and queries a candidate is cooling exactly when its last uncleared failure is younger than the cooldown; start, detail and deadline are that failure's, and the dictionaries share their keys |
| Cooldowns.ConditionalClearNeedsOlderCooldown | src/codex_rosetta/gateway/_ordered_failover.py:236-247 | a conditional clear succeeds exactly when the candidate is cooling, by that history, from before the evidence |
| Cooldowns.NextIsHeadOfAvailable | src/codex_rosetta/gateway/_ordered_failover.py:211-215 | the choice after the current candidate is the head of the available ones exactly when the current one is cooling or nothing else is available |
| Cooldowns.AvailableInRingOrder | src/codex_rosetta/gateway/_ordered_failover.py:211-215 | the available candidates are exactly those not cooling, in the order in which the ring comes to them from the current one |
| Cooldowns.NextIsFirstBehind | src/codex_rosetta/gateway/_ordered_failover.py:249-255 | the next one behind a candidate is the free one that the ring comes to first, the candidate itself last; none if all are cooling |
| Cooldowns.WalkVisitsDistinct | src/codex_rosetta/gateway/_ordered_failover.py:249-255 | failing over again and again within one cooldown tries pairwise distinct candidates and runs out of them within as many attempts as there are candidates |
| Cooldowns.WalkIsCyclicOrder | src/codex_rosetta/gateway/_ordered_failover.py:249-255 | if nothing cooling expires meanwhile, the candidates tried are exactly the available ones in cyclic order |
| ChunkedCoding.WriteChunks | src/codex_rosetta/_vendor/httpserver.py:358-367 | the server's frame writer produces the chunked coding of its chunks and the last-chunk |
| ChunkedCoding.AiterChunked | src/codex_rosetta/_vendor/httpclient.py:1327-1353 | the client's loop yields the decoder's pieces and ends as it does, on any wire bytes, malformed ones included, for `ReadHeader` or any other reading of header lines |
| ChunkedCoding.SkipTrailerSection | src/codex_rosetta/_vendor/httpclient.py:2682-2720 | the discarded trailer is read to its empty line within the header count and byte budget |
| TrailerSections.TrailersWithinBudget | src/codex_rosetta/_vendor/httpclient.py:381-400 | client and server get through a trailer section to exactly what follows it if and only if it has at most 100 header lines and 64 KiB, and refuse it otherwise |
| HexSizes.ParsesExactlyNumerals | src/codex_rosetta/_vendor/httpclient.py:1335-1339 | a size parses to a number if and only if it writes that number: sign, prefix, digits of either case, single underscores |
| HexSizes.HeaderAnnouncesNumeral | src/codex_rosetta/_vendor/httpclient.py:1335-1339 | a header line announces a size if and only if it writes it between white space and in front of any extension, and none if and only if there is only white space there |
| ChunkedCoding.DecodeUndoesEncode | src/codex_rosetta/_vendor/httpclient.py:1327-1353 | for any chunks and any positive read size, decoding what was written returns the bytes up to the first empty chunk in non-empty pieces no larger than the read size, and stops where the writer stopped if no chunk is empty |
| ChunkedCoding.BodyArrivesWhole | src/codex_rosetta/_vendor/httpserver.py:358-367 | the whole body arrives exactly when nothing but empty chunks follows an empty chunk |
| ServerBody.ReadChunkedBody | src/codex_rosetta/_vendor/httpserver.py:622-658 | the server's reader computes `ReadBody` on any bytes, for `ReadHeader` or any other reading of header lines: body and unread rest, size error, limit error, truncation, trailer error |
| ServerBody.DiscardTrailer | src/codex_rosetta/_vendor/httpserver.py:573-614 | its trailer is discarded up to a line of only CR and LF, within the header count and byte budget |
| ServerBody.BodyWithinLimit | src/codex_rosetta/_vendor/httpserver.py:648-650 | whatever arrives, no body longer than the limit is returned |
| FirstFaults.ServerReadsToFirstFault | src/codex_rosetta/_vendor/httpserver.py:622-658 | every input at all is chunks within the limit, ended by any line, which the server takes, and something behind them that alone decides the outcome, each error by its own fault |
| ChunkFraming.DecodesExactlyFramed | src/codex_rosetta/_vendor/httpclient.py:1327-1353 | for every read size the client's decoder completes exactly on two disjoint kinds of input: frames, the last-chunk and a trailer, or frames behind which the input ends or a line without a size comes |
| FirstFaults.ClientReadsToFirstFault | src/codex_rosetta/_vendor/httpclient.py:1327-1353 | every input at all is frames, which the client yields, and something behind them that alone decides how it ends, each error by its own fault |
| CutBodies.ClientMissesCutExactlyAtFrameEnd | src/codex_rosetta/_vendor/httpclient.py:1335-1353 | what the writer wrote of non-empty chunks, cut off anywhere, passes for complete with the client if and only if the cut falls on a frame boundary, and then it yields exactly the chunks before the cut |
| CutBodies.ServerMissesCutExactlyNearFrameEnd | src/codex_rosetta/_vendor/httpserver.py:633-658 | with the server it does if and only if the data before the cut fits the limit and the cut falls on a frame boundary, inside the CRLF behind a chunk's data, or before the very last byte; the body is then that data |
| CutBodies.CutBodyExample | src/codex_rosetta/_vendor/httpclient.py:1335-1338 | one frame and nothing behind it: both readers return its data, though it is no chunked coding |
| ServerBody.ServerReadsWhatClientReads | src/codex_rosetta/_vendor/httpserver.py:622-658 | two independent decoders agree: what the client decodes to its end the server reads as the same bytes if they fit its limit, and refuses as too large if not |
| ServerBody.WrittenBodyReadsBack | src/codex_rosetta/_vendor/httpserver.py:622-658 | a body written in non-empty chunks is read back exactly, leaving the bytes behind it, if its data fits the limit, and is refused if not, however it is framed |
| ServerBody.ServerChunk | src/codex_rosetta/_vendor/httpserver.py:648-655 | the server takes any line as the end of a chunk's data |
| ChunkFraming.ClientNeedsCrlf | src/codex_rosetta/_vendor/httpclient.py:1349-1353 | the client fails there unless it finds CRLF |
| ServerBody.ReadersAgreeExactlyOnFramed | src/codex_rosetta/_vendor/httpclient.py:1327-1353 | where the server returns a body, the client returns the same one if and only if the bytes are frames, the last-chunk and a trailer, or frames that break off at a boundary |
| ServerBody.BareLineFeedExample | src/codex_rosetta/_vendor/httpserver.py:651-655 | a concrete wire that the server reads and the client rejects |
| LineSplitting.AiterLines | src/codex_rosetta/_vendor/httpclient.py:1355-1393 | whatever pieces the body comes in, the lines and the end depend on the concatenated bytes alone; a limit error reports exactly as much of the over-long line as has come with the piece that takes it over the limit |
| LineSplitting.IterLines | src/codex_rosetta/_vendor/httpclient.py:1208-1230 | the synchronous reader yields the lines of `SyncYield` for any decoder, and a limit error reports one byte more than the limit |
| LineSplitting.ReportedWithin | src/codex_rosetta/_vendor/httpclient.py:1376-1384 | that is more than the limit and no more than the line |
| LineSplitting.ReportedAt | src/codex_rosetta/_vendor/httpclient.py:1376-1384 | it is what has come of the line with the first piece that makes it more than the limit, or the line's size if that is less |
| LineSplitting.ReadersFailAlike | src/codex_rosetta/_vendor/httpclient.py:1208-1242 | whatever the decoder, both readers yield as many lines and fail on the same bodies |
| LineSplitting.ReadersAgree | src/codex_rosetta/_vendor/httpclient.py:1208-1242 | they yield the same lines of every body under every limit if and only if a line without its terminator decodes to the same stripped text as with it; decoders that keep line feeds apart are such |
| LineSplitting.Utf16Example | src/codex_rosetta/_vendor/httpclient.py:1230-1230 | UTF-16 is not: the readers differ on the encoding of a letter and a line feed |
| LineSplitting.FailsExactlyOnLongLine | src/codex_rosetta/_vendor/httpclient.py:1371-1384 | the iteration fails exactly when some line, counting its terminator, exceeds the limit, after yielding every line before it |
| LineSplitting.LinesMakeUpBody | src/codex_rosetta/_vendor/httpclient.py:1371-1384 | the lines are the body cut after each line feed: nothing lost, only the last unterminated |
| ServerSentEvents.NewParser | src/codex_rosetta/_vendor/sse.py:203-218 | a fresh parser with the id and retry interval given and its limit, or an error for a limit that is not positive |
| ServerSentEvents.SseParser.FeedLine | src/codex_rosetta/_vendor/sse.py:230-286 | one line: byte order mark on the first, dispatch on blank, fields, and the limit error |
| ServerSentEvents.LineForms | src/codex_rosetta/_vendor/sse.py:246-259 | every way to write a field reads as that name and value: one space behind the colon is dropped and no other, no colon means an empty value; a line that starts with a colon is ignored |
| ServerSentEvents.FieldMeanings | src/codex_rosetta/_vendor/sse.py:261-286 | what each field name does, with ids that hold NUL and retries that are no number ignored |
| ServerSentEvents.ReadsAsStandard | src/codex_rosetta/_vendor/sse.py:246-286 | every line changes the standard's buffers as section 9.2.6 says, by a reading of lines of its own |
| ServerSentEvents.SseParser.DispatchEvent | src/codex_rosetta/_vendor/sse.py:288-302 | dispatch resets type, data and counter, keeps id and retry, and keeps the type if there is no data |
| ServerSentEvents.EventSource | src/codex_rosetta/_vendor/sse.py:327-332 | the iterator yields the events of its lines up to a limit error, and nothing under a limit that is not positive |
| ServerSentEvents.StepCounts | src/codex_rosetta/_vendor/sse.py:267-278 | the byte counter is always the UTF-8 size of the joined pending data and within the limit; a field is refused if and only if it would take it over the limit, and the error reports that size |
| ServerSentEvents.EventsWithinLimit | src/codex_rosetta/_vendor/sse.py:267-302 | no dispatched event is larger than the limit, for any lines |
| ServerSentEvents.LimitOnlyStops | src/codex_rosetta/_vendor/sse.py:267-278 | the limit changes nothing but where the parse stops |
| ServerSentEvents.PrintedEventsParseBack | src/codex_rosetta/_vendor/sse.py:230-302 | the canonical printing of any list of events parses back to that list |
| ServerSentEvents.AgreesWithStandard | src/codex_rosetta/_vendor/sse.py:288-302 | the events are those of section 9.2.6 exactly when no event inherits a type left over from a block without data |
| ServerSentEvents.AgreesWhereDataFollowsType | src/codex_rosetta/_vendor/sse.py:288-302 | they are, whenever every `event:` line has a `data:` line before the next blank line |
| ServerSentEvents.StaleTypeExample | src/codex_rosetta/_vendor/sse.py:290-291 | four lines on which they are not |
| StreamPath.ReceiveEvents | src/codex_rosetta/_vendor/httpclient.py:1355-1370 | the client's three stages composed: the events are those of the decoded body |
| StreamPath.SendAndReceive | src/codex_rosetta/_vendor/httpserver.py:358-367 | for any chunks, read size and limits, the events depend only on the bytes before the first empty chunk, all bytes if there is none |
| StreamPath.LinesComeBack | src/codex_rosetta/_vendor/httpclient.py:1371-1384 | clean lines encoded as UTF-8 split and decode back to themselves |
| StreamPath.EventsArrive | src/codex_rosetta/_vendor/sse.py:230-302 | any list of events printed, encoded, cut into chunks before the first empty one and read in any way arrives as that list, or not at all under a limit that is not positive |
| StreamPath.BytesYieldClientLines | src/codex_rosetta/_vendor/httpclient.py:1371-1384 | the lines of a UTF-8 body are its text cut at LF with every trailing CR stripped |
| StreamPath.LinesAreStandard | src/codex_rosetta/_vendor/httpclient.py:1371-1384 | they are the lines of section 9.2.5 if and only if every CR stands before an LF or at the very end |
| StreamPath.EventsAreStandard | src/codex_rosetta/_vendor/sse.py:230-302 | from bytes to events: without lone CRs the events are the standard's if and only if none inherits a stale type |
| StreamPath.LoneCRExample | src/codex_rosetta/_vendor/httpclient.py:1371-1384 | two data lines with a lone CR between them are one line of data to the client and two to the standard |
| HttpRequests.SameOriginSameAuthority | src/codex_rosetta/_vendor/httpclient.py:2089-2099 | URLs of one origin have one Host authority, so keeping Host within an origin is right |
| HttpRequests.AuthorityReadsBack | src/codex_rosetta/_vendor/httpclient.py:1968-1980 | the Host authority reads back as the URL's host and port, the scheme's default port and bracketed addresses included |
| HttpRequests.ComputeRedirect | src/codex_rosetta/_vendor/httpclient.py:2083-2141 | redirect target, method, body, dropped headers and the Digest reset, or the exception of a bad location |
| HttpRequests.Attempt | src/codex_rosetta/_vendor/httpclient.py:2473-2575 | one pass of the request loop: retry, follow, return or raise |
| HttpRequests.SyncRequest | src/codex_rosetta/_vendor/httpclient.py:2467-2597 | the loop sends what the recursive description sends and ends as it does |
| HttpTraces.RequestsFollowExchanges | src/codex_rosetta/_vendor/httpclient.py:2467-2597 | for every network, from requests and exchanges alone: the first request is the caller's; each further one repeats the one before it with the answer to its Digest challenge, or goes to the joined Location of the redirect before it with the method, body and headers that this leaves; one is sent exactly if there is such a reason; and the call ends as its last exchange says |
| HttpRequests.StepProgresses | src/codex_rosetta/_vendor/httpclient.py:2518-2564 | each continued pass uses up a hop, or the one Digest answer of the current URL |
| HttpRequests.RequestsBounded | src/codex_rosetta/_vendor/httpclient.py:2471-2564 | whatever the network does, at most 2*max_redirects+2 requests are sent |
| HttpRequests.RequestBoundIsTight | src/codex_rosetta/_vendor/httpclient.py:2471-2564 | a server that challenges and redirects forever makes the client send exactly that many |
| HttpRequests.RequestsCarryOnlyTheirOwn | src/codex_rosetta/_vendor/httpclient.py:2062-2141 | for every network: Host is the request's own authority unless the caller set it, and in any case after the first origin change; after that change no credential of the first origin reappears; a Digest header answers its own method and path; a rewritten request is a GET without entity |
| ConnectionPools.ConnectionPool.constructor | src/codex_rosetta/_vendor/httpclient.py:1494-1500 | an empty pool |
| ConnectionPools.ConnectionPool.Take | src/codex_rosetta/_vendor/httpclient.py:1522-1542 | acquire returns the youngest live connection of the key and closes the stale and dead ones it passes |
| ConnectionPools.ConnectionPool.Release | src/codex_rosetta/_vendor/httpclient.py:1559-1569 | release pools the connection, or closes it when the key is full |
| ConnectionPools.ConnectionPool.ReleaseOrClose | src/codex_rosetta/_vendor/httpclient.py:2345-2381 | the `finally` block gives the connection to its stream, to the pool, or closes it, also when `release` raises |
| ConnectionPools.ConnectionPool.CloseAllPooled | src/codex_rosetta/_vendor/httpclient.py:1571-1581 | shutdown closes every pooled connection and no other |
| ConnectionPools.AcquireKeepsInv | src/codex_rosetta/_vendor/httpclient.py:1522-1542 | acquire keeps every key's list within its size, duplicate-free and equal to what the pool owns |
| ConnectionPools.SettleKeepsInv | src/codex_rosetta/_vendor/httpclient.py:2357-2381 | so does the end of a request, however it ended |
| ConnectionPools.OwnershipIsExclusive | src/codex_rosetta/_vendor/httpclient.py:1494-1581 | in every interleaving each connection has one owner, is listed exactly when the pool owns it, once and under its key, and a key holds at most pool_size |
| ConnectionPools.ReusedWasReadCompletely | src/codex_rosetta/_vendor/httpclient.py:2345-2365 | whatever is taken from the pool was last used by a completely read, non-streaming, unproxied request whose server did not close |
| ConnectionPools.AcquiresLastUsable | src/codex_rosetta/_vendor/httpclient.py:1522-1542 | acquire takes the last listed connection that is alive and idle for at most 60 seconds, closes those behind it and leaves the rest |
| ConnectionPools.ReleasedIsTakenNext | src/codex_rosetta/_vendor/httpclient.py:1522-1569 | a connection released with room in its list is the one that the next acquire of its key gets within 60 seconds, if alive |
| ConnectionPools.OtherwiseNotListed | src/codex_rosetta/_vendor/httpclient.py:2357-2381 | a use that ends in any other way closes the connection or leaves it to its stream, and lists it nowhere |
| ConnectionPools.ShutdownClosesListed | src/codex_rosetta/_vendor/httpclient.py:1571-1581 | shutdown closes exactly the listed connections |
| ConnectionPools.SettlingLeaksNothing | src/codex_rosetta/_vendor/httpclient.py:2357-2381 | after its `finally` block a request holds no connection: it is pooled, closed, or owned by the stream it was handed to |
| ConnectionPools.PooledRequest | src/codex_rosetta/_vendor/httpclient.py:2473-2597 | run by itself, every exit of the request loop leaves no connection held, touches no other request's or stream's connection, and leaves one more stream exactly when it returns one |
| PooledRequests.NextKeepsInv | src/codex_rosetta/_vendor/httpclient.py:2471-2597 | with the request loop as each task's program, every step of every request, stream and shutdown keeps programs and pool in agreement |
| PooledRequests.LookTakesUsable | src/codex_rosetta/_vendor/httpclient.py:2315-2319 | a request that uses the pool gets the last usable connection of its own origin, if there is one, and dials otherwise |
| PooledRequests.FinishPlacesConnection | src/codex_rosetta/_vendor/httpclient.py:2345-2381 | when a request ends its connection goes with a streaming response, is pooled after a response read to its end if pooling, proxy, `Connection` header and room allow, and is closed otherwise |
| PooledRequests.EveryExitLeaksNothing | src/codex_rosetta/_vendor/httpclient.py:2471-2597 | however any number of requests interleave, one that has ended holds no connection, has handed over exactly one if it returned a stream and none otherwise, to nobody else and never back to the pool, and has kept its bound of requests |
| PooledRequests.EveryConnectionIsAccountedFor | src/codex_rosetta/_vendor/httpclient.py:2471-2597 | in every interleaving exactly one holds of each connection ever made: it is listed as idle, under one key and once; one running request has it, for its own origin; the open stream of one ended request has it; or it is closed |
| ErrorCollecting.ValidateValue | src/codex_rosetta/_vendor/validate.py:1013-1071 | the dispatching walker appends exactly the walk's errors, whatever the list already holds, and returns its value |
| ErrorCollecting.ValidateAnnotated | src/codex_rosetta/_vendor/validate.py:568-602 | constraints are checked only if the base added no error |
| ErrorCollecting.ValidateUnion | src/codex_rosetta/_vendor/validate.py:686-731 | None, then the dispatch table, then the first variant without errors, with errors of failed variants thrown away |
| ErrorCollecting.ValidateStructFields | src/codex_rosetta/_vendor/validate.py:743-790 | missing required fields, then every present field; unknown members pass |
| ErrorCollecting.ValidateItems | src/codex_rosetta/_vendor/validate.py:793-820 | every item of a list, set or variadic tuple, in order |
| ErrorCollecting.ValidateTuple | src/codex_rosetta/_vendor/validate.py:850-890 | length, then element by element; the empty tuple type accepts any list |
| ErrorCollecting.ValidateDict | src/codex_rosetta/_vendor/validate.py:823-847 | every key, then its value |
| ErrorCollecting.ValidateTop | src/codex_rosetta/_vendor/validate.py:1207-1225 | the value, or all collected errors |
| Conformance.AcceptsExactlyConforming | src/codex_rosetta/_vendor/validate.py:1013-1071 | soundness and completeness: on types whose constraints fit, with coercion or without, exactly the values that conform to the type are accepted, by a meaning stated on the type; they are handed on as read; and the errors for the others are exactly what is wrong with them, under their paths |
| Conformance.MissingAreLacking | src/codex_rosetta/_vendor/validate.py:756-765 | the missing-field errors of a struct name exactly the required fields that the object lacks, each under its path |
| Conformance.ChecksRaise | src/codex_rosetta/_vendor/validate.py:568-602 | a TypeError escapes if and only if some constraint cannot be compared with the value |
| Dispatching.TableHoldsLastNamed | src/codex_rosetta/_vendor/validate.py:624-653 | the cached table holds a literal exactly when some variant names it, and then the last such variant |
| Dispatching.DiscriminatorIsFirstShared | src/codex_rosetta/_vendor/validate.py:489-523 | the discriminator is the first field of the first TypedDict that is a literal in all TypedDicts of the union |
| Dispatching.ChoosesLastNamed | src/codex_rosetta/_vendor/validate.py:656-683 | the table chooses the last variant that names the literal of the value's discriminator, and otherwise none |
| Dispatching.OnlyChosenCanAccept | src/codex_rosetta/_vendor/validate.py:656-683 | with disjoint literals every variant but the one chosen rejects the value |
| Dispatching.WalksAgree | src/codex_rosetta/_vendor/validate.py:686-731 | no exception on types whose constraints fit; dispatching accepts no more than trying, and no less where the value tells the variants apart, at every depth |
| Dispatching.DispatchAgreesWhereToldApart | src/codex_rosetta/_vendor/validate.py:686-731 | value by value, mixed unions and overlapping literals included: where the value's own literal rules out all variants but the one chosen, dispatching accepts exactly when trying does |
| Dispatching.DispatchAgreesWithTrying | src/codex_rosetta/_vendor/validate.py:686-731 | on unions of TypedDicts with disjoint discriminator literals, at every depth, dispatching accepts a value exactly when trying every variant does |
| Dispatching.DispatchNeverAcceptsMore | src/codex_rosetta/_vendor/validate.py:711-721 | on any union at all, dispatching accepts only what trying accepts |
| Dispatching.SharedLiteralExample | src/codex_rosetta/_vendor/validate.py:651-652 | two variants sharing a literal: trying accepts a value that the table's later variant rejects |
| JsonSchemas.ConstraintsKept | src/codex_rosetta/_vendor/validate.py:1085-1094 | constraints that hold of a value keep its size and range keywords satisfied, also where a later keyword replaces an earlier one |
| JsonSchemas.PropertyOfField | src/codex_rosetta/_vendor/validate.py:1113-1127 | the property of a name is the schema of the field of that name |
| JsonSchemas.OptionalSchema | src/codex_rosetta/_vendor/validate.py:1097-1108 | both renderings of Optional accept what the inner schema accepts, and null exactly if the inner schema does not |
| SchemaMeanings.SatisfiesIffTakes | src/codex_rosetta/_vendor/validate.py:1168-1201 | the schema generated from any type accepts exactly the values that a meaning stated on the type takes, accepted by the validator or not: of a union the value that one alternative takes and no other |
| SchemaMeanings.BoundsCollected | src/codex_rosetta/_vendor/validate.py:1085-1094 | of the constraints of one keyword, nested annotations included, only the last and outermost counts; a tuple's length only where none replaces it |
| SchemaAccounts.TaggedUnionSchema | src/codex_rosetta/_vendor/validate.py:1097-1110 | the `oneOf` of a tagged union accepts a value exactly when the schema of the variant its tag names does |
| SchemaAccounts.KindsSchema | src/codex_rosetta/_vendor/validate.py:1097-1110 | the `oneOf` of variants of different kinds accepts a value exactly when the schema of the variant of its kind does |
| SchemaAccounts.AcceptedSatisfiesIffFits | src/codex_rosetta/_vendor/validate.py:1168-1201 | for every type and at every depth, an accepted, uncoerced value satisfies the generated schema if and only if it fits: no equal items in a set, no boolean for a number literal or the other way round, no null for Optional[Any], and one variant alone that takes it where variants may overlap |
| SchemaAccounts.AcceptedSatisfiesSchema | src/codex_rosetta/_vendor/validate.py:1168-1201 | so every accepted value satisfies it for types built from scalars, string literals, lists, dicts, tuples, structs, Optional of a non-Any type, tagged unions, unions of different kinds and bounds |
| SchemaAccounts.OptionalAnyRejectsNull | src/codex_rosetta/_vendor/validate.py:1102-1108 | Optional[Any] accepts everything, and its schema everything but null |
| SchemaAccounts.NumberLiteralRejectsBoolean | src/codex_rosetta/_vendor/validate.py:1181-1182 | the literal 1 accepts true and True accepts 1, but their schemas do not |
| SchemaAccounts.OverlapRejected | src/codex_rosetta/_vendor/validate.py:1110-1110 | a value that the schemas of two variants accept fails the `oneOf` of any union of them |
| SchemaAccounts.OverlappingUnionRejects | src/codex_rosetta/_vendor/validate.py:1110-1110 | a union of int and float accepts every number, and its schema fractions alone |
| SchemaAccounts.SetSchemaRejectsRepeats | src/codex_rosetta/_vendor/validate.py:1160-1165 | of the lists that a set of plain items accepts, its schema accepts exactly those without two equal items |
| BraceMatching.MatchingBrace | scripts/check_codex_compatibility.py:198-251 | the jumping matcher returns the index the character-by-character lexer finds, fails exactly when it finds none, and terminates on all text |
| BraceMatching.LexLine | scripts/check_codex_compatibility.py:168-172 | jumping past a line comment is a run of the lexer |
| BraceMatching.LexBlock | scripts/check_codex_compatibility.py:175-180 | so is each step in nested block comments |
| BraceMatching.LexRaw | scripts/check_codex_compatibility.py:183-187 | so is the search for a raw string's closer, with its overlapping false starts |
| BraceMatching.LexString | scripts/check_codex_compatibility.py:190-195 | so is each step in a string, escapes included |
| BraceMatching.LexCode | scripts/check_codex_compatibility.py:225-249 | so is each step in code, raw string openers included |
| BraceMatching.LexFindsFirstBalance | scripts/check_codex_compatibility.py:198-251 | what the lexer finds is the first brace at which braces in code balance, and it finds nothing exactly when they never do |
| RustTokens.MatcherBalancesTokens | scripts/check_codex_compatibility.py:198-251 | in any text made of code, nested comments, strings with escapes and raw strings, the matcher's lexer finds the brace that balances the braces among the tokens, and none if they are left open |
| SqliteStore.OpenBackend | src/codex_rosetta/_vendor/persistdict.py:245-267 | an opened backend sees the committed table; a table name that is no identifier is an error |
| SqliteStore.SqliteBackend.AutoCommit | src/codex_rosetta/_vendor/persistdict.py:271-285 | write-through for 0, otherwise a commit every `commit_every` writes |
| SqliteStore.SqliteBackend.Get | src/codex_rosetta/_vendor/persistdict.py:289-295 | reads see the open transaction; a missing key is an error |
| SqliteStore.SqliteBackend.SetItem | src/codex_rosetta/_vendor/persistdict.py:297-302 | insert or replace: the key holds the value, and the commit policy applies |
| SqliteStore.SqliteBackend.DeleteItem | src/codex_rosetta/_vendor/persistdict.py:304-308 | deleting a missing key is an error and not a write |
| SqliteStore.SqliteBackend.ClearAll | src/codex_rosetta/_vendor/persistdict.py:325-328 | clear commits an empty table and resets the counter |
| SqliteStore.SqliteBackend.FlushAll | src/codex_rosetta/_vendor/persistdict.py:330-333 | flush commits and resets the counter |
| SqliteStore.SqliteBackend.Close | src/codex_rosetta/_vendor/persistdict.py:335-344 | close commits, or silently loses the open transaction if that commit fails |
| SqliteStore.CrashLosesOnlyPending | src/codex_rosetta/_vendor/persistdict.py:271-333 | in every run reads see all successful mutations, and the committed table is the result of a prefix of them missing exactly the pending ones, fewer than `commit_every` |
| SqliteStore.ReadsLastWritten | src/codex_rosetta/_vendor/persistdict.py:289-333 | in every run each key reads as the value last set since it was deleted or all was cleared, each operation answers accordingly, and the mutations are those asked for |
| SqliteStore.CrashKeepsFirstOperations | src/codex_rosetta/_vendor/persistdict.py:271-333 | what a crash leaves is, key by key, what the first operations wrote: all but the last pending writes, fewer than `commit_every` |
| SqliteStore.NothingMissingAfterFlush | src/codex_rosetta/_vendor/persistdict.py:278-333 | with `commit_every` 0, and after flush or clear, nothing is missing |
| SqliteStore.CommitsOnLastCountedWrite | src/codex_rosetta/_vendor/persistdict.py:282-285 | nothing reaches the disk before the counted number of sets and successful deletes, and with the last of them everything does |
| SqliteStore.SessionsKeepPrefixes | src/codex_rosetta/_vendor/persistdict.py:271-344 | over any sessions, closed or crashed, the file is the result of one prefix of each session's mutations, complete for those that closed properly |
| SessionSecret.Base64RoundTrip | src/codex_rosetta/gateway/admin_session.py:49-60 | URL-safe base64 of any bytes decodes back |
| SessionSecret.DecodesWhatSpells | src/codex_rosetta/gateway/admin_session.py:49-60 | a text decodes to bytes if and only if its symbols spell their bits, group by group, with padding at the end alone |
| SessionSecret.AlphabetInOrder | src/codex_rosetta/gateway/admin_session.py:49-52 | the symbols are those of the URL-safe alphabet in order, plus and slash being accepted for the last two |
| SessionSecret.KeyFileReadsBack | src/codex_rosetta/gateway/admin_session.py:63-96 | a complete key file reads back as its key |
| SessionSecret.ReadsExactlyKeyFiles | src/codex_rosetta/gateway/admin_session.py:49-96 | a file reads as a key if and only if it is small, ASCII, and holds the prefix and a spelling of those 32 bytes between white space; too large and non-ASCII files have their own errors |
| SessionSecret.SecretDirectory.WriteTemp | src/codex_rosetta/gateway/admin_session.py:111-114 | however the system splits the write, the temporary file ends up complete |
| SessionSecret.SecretDirectory.LoadOrCreate | src/codex_rosetta/gateway/admin_session.py:30-46 | undisturbed: returns what the key file holds, creates it only if absent, leaves no temporary file |
| SessionSecret.NextKeepsInv | src/codex_rosetta/gateway/admin_session.py:99-133 | every system call of every process, failing ones and crashes included, keeps: only complete inodes are linked, nobody writes to a linked one |
| SessionSecret.KeyFileAbsentOrComplete | src/codex_rosetta/gateway/admin_session.py:99-133 | in every interleaving the key file is absent or complete |
| SessionSecret.KeyFileNeverChanges | src/codex_rosetta/gateway/admin_session.py:120-133 | once there, neither its name nor its content ever changes |
| SessionSecret.AllReturnOneKey | src/codex_rosetta/gateway/admin_session.py:30-133 | every call that returns gives the same 32 bytes, those in the file |
| SessionSecret.LoadingReturns | src/codex_rosetta/gateway/admin_session.py:30-46 | where a key file reads as a key, an undisturbed call returns that key and changes nothing |
| SessionSecret.CreatingReturns | src/codex_rosetta/gateway/admin_session.py:99-133 | where there is none, an undisturbed call publishes its own secret, returns it, and leaves no temporary file |

## Left out

- Cooldowns.NewCoordinator: a cooldown that is infinite or no number, which is no real number here.
- StreamPath.EventsAreStandard: without byte limits, and for bodies that are valid UTF-8 without a lone CR; of other bodies only their lines are characterised (`LinesAreStandard`), and of their events there is an example (`LoneCRExample`).
- StreamPath.EventsArrive: requires types and ids without CR or LF and data without CR, which a line-based stream cannot carry.
- ServerSentEvents.AgreesWithStandard: compares without a byte limit; `LimitOnlyStops` covers the rest.
- HttpRequests.RequestsCarryOnlyTheirOwn: a credential in the proxy's own Proxy-Authorization header is set again for plain HTTP requests and is not counted as one of the origin's.
- ConnectionPools.ConnectionPool.Release: a `release` that raises has not listed the connection; one interrupted after listing it is not modelled.
- ConnectionPools.PooledRequest: no other thread acts between its pool operations; `PooledRequests` is about those that interleave.
- SchemaMeanings.SatisfiesIffTakes: requires that no Optional with a `type` stands right under the annotations of another, for which the generator nests one list of types in another, and that a union has a variant.
- SchemaAccounts.AcceptedSatisfiesIffFits: requires the same.
- Conformance.AcceptsExactlyConforming: requires constraints that fit their base type, and for the walk that dispatches by the table a value that tells the variants apart; `ChecksRaise` and `SharedLiteralExample` are about the others.
- Dispatching.WalksAgree: requires constraints that fit their base type; otherwise a skipped variant could have raised a TypeError.
- BraceMatching.MatchingBrace: Rust character literals are unknown to the matcher and to the lexer it refines; a quote or brace in one counts as code.
- SessionSecret.NextKeepsInv: a loss of power between link and directory sync is not modelled; a crash ends one process only.
- Cancellation of a task while it waits for the condition's lock, rather than for a notification; a leader that neither publishes nor hands off.
- The limit of 64 KiB that `readline` puts on a chunk-size line, and the deadlines of header, body and trailer reads.
- Spelling of header names: headers are keyed without regard to case, and the names the loop itself uses are constructors.
- Digits outside ASCII in an event stream's retry field.
- `FieldValidator`, `Predicate`, `Match` and registered model validators of the validator: arbitrary callbacks and regular expressions; bare `list`, `dict` and `tuple`; recursive types; NaN and infinities as coerced floats.
- Text of error messages; errors carry a path and a kind.
- Content decoding, TLS, CONNECT and SOCKS5 handshakes, sockets and timers.
- The asynchronous request loop and pool, which mirror the synchronous ones; reconnecting event clients.
- Sharing of one DigestAuth counter between requests: the answer depends on the number of requests sent in this call.
- A commit inside `_auto_commit`, `flush` or `clear` that fails; the JSON file backend; the key check, serializer and lock of `PersistDict`.
- The ephemeral secret of a gateway without a configuration path; file permissions.
- `pipeline.py`, `auto_detect.py`, `tool_ops.py`, `capabilities.py`, `routing.py`, `auth.py`, `cors.py`, `live_gate.py`, the desktop shell, scripts other than the brace matcher, examples and benchmarks: thin dispatch, policy checks and plumbing that would add only easy members.
