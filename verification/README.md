# Medallion SDK model

A Dafny model of the algorithms and state machines inside the Medallion client SDKs
(TypeScript, Go and Python), with proofs of what they promise. The network, the server, the
clock and the caller's abort signal are arbitrary: a function or a sequence of outcomes that a
run may meet in any combination. `dafny verify dfyconfig.toml` checks the whole project.

| module | what it models |
|---|---|
| `Common`, `Cursors`, `TextOrder` | shared vocabulary: UTF-16 texts, distinct lists, pages, code-unit order |
| `Unicode` | the UTF-16 scan behind idempotency keys, and their length in UTF-8 |
| `JsonText` | JSON values, their canonical text, and a reader of RFC 8259 JSON text |
| `CanonicalJson`, `CanonicalJsonFacts` | `canonicalJson` over a shared, possibly cyclic object graph with its mutable set of ancestors |
| `ProtoWire`, `ErrorInfo`, `PyErrorInfo` | the hand-written protobuf readers of TypeScript and Python, against an encoder written from the Protocol Buffers encoding document |
| `WireFormat` | the wire format and the meaning of an ErrorInfo message as relations, to which decoding is proved equal on all bytes |
| `Timestamps` | RFC 3339 instants, the dates of section 21.4.1 of ECMA-262, the 1900..2262 window |
| `Backoff` | the jittered backoffs, poll waits and Retry-After |
| `Retry`, `RetryRuns` | the retry loops on a running clock, and what whole calls come to, by the replies they meet |
| `Receipts`, `Publish` | the receipt validators, and whole publish calls against a server with one record per idempotency key |
| `Pagination` | Go's pull iterators and TypeScript's generators |
| `QueryMachine`, `QueryFacts` | run a query, poll it, read its rows from several iterators at once; its checks and endings case by case |
| `Normalize`, `Respelling` | descriptor-driven key normalisation, and the relation between a value and its respelling |
| `Principals` | actor principals split on colons and joined again |

Methods follow the loops of the source and are proved equal to specification functions; the
lemmas are about those functions, and tie them to definitions that do not use them: a writer,
a relation between input and output, or a list of cases.

Where the code does not do what one would expect of it, the model keeps the code's behaviour
and states exactly when the property holds:

- The TypeScript decoder and normaliser assign to plain objects, so a key `__proto__` makes no
  property (`ErrorInfo.ProtoKeyLost`). Round trip is exact exactly without such a key and
  without an empty one (`ErrorInfo.RoundTripExactIff`), and the TypeScript and Python decoders
  agree under the condition of `PyErrorInfo.DecodersAgreeIff`.
- The three retry oracles differ on an ErrorInfo whose reason is missing or empty
  (`Retry.OraclesDiffer`, `Retry.OraclesAgreeIff`).
- Go ignores a Retry-After of 2^64 seconds or more and retries after its own backoff
  (`Backoff.GoIgnoresHugeRetryAfter`, `Backoff.GoHonoursIff`); Python does so from the size at
  which a double overflows (`Backoff.PyHonoursIff`).
- The second normalising pass renames again when a JSON name is another field's name
  (`Normalize.CrossedNamesUnstable`, `Normalize.IdempotentIff`), which default JSON names rule
  out (`Normalize.DefaultNamesStable`); and a row column called `fields` is renamed inside
  (`Normalize.FieldsColumnRenamed`).
- A principal such as `a::b` does not come back from Go or Python (`Principals.GoRoundTripIff`,
  `Principals.PyRoundTripIff`). TypeScript keeps the whole principal as an id.

## Model

| member | source | states |
|---|---|---|
| `Unicode.HasValidUnicodeScalars` | src/payload.ts:106-118 | the index loop with its skip-ahead accepts a text exactly when it is well-formed, an unpaired high surrogate at the very end included |
| `Unicode.EncodedIsWellFormed` | src/payload.ts:106-118 | the UTF-16 encoding of any sequence of scalar values is accepted |
| `Unicode.Decode` | src/payload.ts:106-118 | every accepted text is the encoding of some sequence of scalar values |
| `Unicode.EncodeInjective` | src/payload.ts:106-118 | and of only one |
| `Unicode.Utf8LengthIsExact` | src/payload.ts:94-103 | the length of a text is that of the UTF-8 bytes (RFC 3629) of the scalars it stands for, U+FFFD for every lone surrogate |
| `Unicode.Utf8Spells` | src/payload.ts:97 | the UTF-8 bytes of a scalar have the lengths, lead bytes and tails of RFC 3629 and spell it |
| `Unicode.KeyLegalIff` | src/payload.ts:79-104 | an idempotency key passes exactly when it is the UTF-16 form of scalars that take 1 to 512 bytes in UTF-8 |
| `JsonText.ReadPrinted` | src/payload.ts:188-266 | reading canonical text gives back the value and leaves exactly what followed it |
| `JsonText.ParsePrint` | src/tables.ts:400-404 | JSON.parse of canonical text gives back the printed value |
| `JsonText.PrintInjective` | src/payload.ts:188-266 | equal canonical texts are texts of equal values |
| `JsonText.QuoteRoundTrip` | src/payload.ts:188-201 | every string, lone surrogates included, survives quoting and reading |
| `JsonText.EscapedIff` | src/payload.ts:188-201 | exactly control characters, the quote, the backslash and lone surrogates are escaped |
| `JsonText.ShortEscapes` | src/payload.ts:188-201 | the seven two-character escapes |
| `JsonText.LongEscapes` | src/payload.ts:188-201 | every other escape is `\u` and the four lower-case hex digits of the unit |
| `JsonText.QuotedAsIsIff` | src/payload.ts:188-201 | a string is printed as it is exactly when it is well-formed and holds nothing to escape; surrogate pairs stay |
| `JsonText.QuotedIsWellFormed` | src/payload.ts:188-201 | whatever the string, its printed form is well-formed UTF-16 |
| `JsonText.MembersAscend` | src/payload.ts:247-262 | a printed object is its members, each key before all later ones: at the first unit where two keys differ the earlier key has the smaller one or ends |
| `JsonText.SampleOrder` | src/payload.ts:247-262 | `A`, `a`, `ab` is the order of those three keys |
| `TextOrder.LessIsLexicographic` | src/payload.ts:249 | the recursive comparison is the lexicographic order by UTF-16 code unit |
| `CanonicalJson.Printer.JsonString` | src/payload.ts:64-73 | an undefined value prints as an empty object, any other as its canonical text from an empty ancestor set |
| `CanonicalJson.Printer.CanonicalJson` | src/payload.ts:188-266 | terminates on every finite graph, and leaves `ancestors` as it was on normal and on throwing exits |
| `CanonicalJson.Printer.PrintNode` | src/payload.ts:209-266 | the body of the try block computes its specification: holes, class instances, symbol keys and accessors refused in the source's order, keys sorted, `ancestors` left as found |
| `CanonicalJson.SortPropertiesSorts` | src/payload.ts:236-262 | sorting keeps the set of properties and puts the keys in ascending code-unit order |
| `CanonicalJsonFacts.SucceedsIffAcyclicAndLegal` | src/payload.ts:188-266 | printing succeeds exactly when every walk from the value meets only legal nodes and never an object twice |
| `CanonicalJsonFacts.FailureHasBadWalk` | src/payload.ts:202-208 | every refusal is witnessed by a concrete walk to a cycle or an illegal node |
| `CanonicalJsonFacts.RefusalHasWalk` | src/payload.ts:202-257 | the error of a refused object names what some walk from it ends in: for a cycle, an object already on the walk or among the ancestors; else an object with that very fault, the objects before it having no hole, class or symbol key of their own |
| `CanonicalJsonFacts.SuccessMakesWalksGood` | src/payload.ts:202-208 | after a success no walk of any length repeats an object, shared objects notwithstanding |
| `CanonicalJsonFacts.SucceedsIffUnfolds` | src/payload.ts:188-266 | equivalently, printing succeeds exactly when the value has a finite tree unfolding |
| `CanonicalJsonFacts.UnfoldsUnique` | src/payload.ts:188-266 | a value has at most one unfolding |
| `CanonicalJsonFacts.PrintsUnfolding` | src/payload.ts:188-266 | what is printed is the canonical text of the unfolding, shared objects written out wherever they occur |
| `CanonicalJsonFacts.ParseBack` | src/tables.ts:400-404 | the row copy made by print-then-parse is the row's own unfolding |
| `CanonicalJsonFacts.SameTextIffSameValue` | src/payload.ts:188-266 | two values print alike exactly when they unfold to the same JSON value |
| `CanonicalJsonFacts.OrderIndependent` | src/payload.ts:236-262 | graphs that differ only in insertion order print the same text or refuse with the same error |
| `ProtoWire.ReadVarintAt` | src/errors.ts:305-320 | the shift-and-or loop returns the base-128 value and the offset after it, at most ten bytes on |
| `ProtoWire.VarintInBounds` | src/errors.ts:305-320 | a read varint takes at least one byte and stays inside the buffer |
| `ProtoWire.ReadLengthDelimitedAt` | src/errors.ts:322-333 | returns exactly the announced bytes, and refuses a length beyond the buffer |
| `ProtoWire.SkipFieldAt` | src/errors.ts:335-354 | a skipped value of wire type 0, 1, 2 or 5 ends where the standard says; other wire types are refused |
| `ProtoWire.ReadFieldAt` | src/errors.ts:253-278 | tag and value are read as one field, and at least one byte is consumed |
| `ProtoWire.VarintRoundTrip` | src/errors.ts:305-320 | reading the standard's varint gives back every number that fits ten bytes |
| `ProtoWire.FieldsRoundTrip` | src/errors.ts:253-278 | reading what the standard encoder wrote gives back every field in order |
| `ProtoWire.VarintStable` | src/errors.ts:305-320 | bytes appended after a varint change nothing that was read |
| `ProtoWire.FieldsConcatenate` | src/errors.ts:253-278 | concatenated messages read as their fields in sequence |
| `ErrorInfo.DecodeErrorInfo` | src/errors.ts:242-282 | the index loop decodes as the specification does, failing on the same bytes |
| `ErrorInfo.DecodeStringMapEntry` | src/errors.ts:284-303 | the entry loop reads key and value as the specification does |
| `ErrorInfo.DecodeFromFields` | src/errors.ts:253-278 | decoding bytes is reading all fields and then applying them in order |
| `ErrorInfo.UnknownFieldsIgnored` | src/errors.ts:253-278 | well-formed unknown fields anywhere in a message change nothing |
| `ErrorInfo.UnknownEntryFieldsIgnored` | src/errors.ts:284-303 | nor do they inside a map entry |
| `ErrorInfo.ConcatenationIsMerge` | src/errors.ts:253-278 | two messages that decode, concatenated, decode to their merge with the later value winning per field and per metadata key |
| `ErrorInfo.RoundTrip` | src/errors.ts:242-303 | decoding the standard encoding, its fields in any order and unknown fields inserted at both levels, gives back reason, domain and metadata less the keys a record cannot hold |
| `ErrorInfo.RoundTripExactIff` | src/errors.ts:242-303 | the round trip is exact if and only if no metadata key is empty or `__proto__` |
| `ErrorInfo.AnyOrder` | src/errors.ts:253-278 | rearranging the fields of an encoding leaves it an encoding of the same values |
| `ErrorInfo.EncodingExists` | src/errors.ts:242-303 | every reason, domain and metadata whose texts can be written has an encoding |
| `ErrorInfo.ProtoKeyLost` | src/errors.ts:266-274 | a concrete message that sets metadata `__proto__` and decodes without it |
| `WireFormat.MessageIff` | src/errors.ts:305-354 | bytes are read as a list of fields exactly when they are a message of those fields: varints of one to ten bytes, possibly overlong, tags of wire type 0, 1, 2 or 5, lengths below 2^53 |
| `WireFormat.EntryIff` | src/errors.ts:284-303 | a map entry decodes exactly when it is a message whose key and value texts decode, to the last key and the last value in it |
| `WireFormat.DecodeIff` | src/errors.ts:242-303 | decoding any bytes succeeds exactly on messages whose texts and entries decode, and gives the last reason, the last domain, and for every key but an empty one and `__proto__` the value of the last entry with that key |
| `PyErrorInfo.FieldGenerator.Next` | python/src/medallion/errors.py:162-190 | one pull of the generator yields the next field, ends, or raises, and moves the offset past it |
| `PyErrorInfo.DecodeErrorInfo` | python/src/medallion/errors.py:136-159 | the Python loop over the generator decodes as its specification does |
| `PyErrorInfo.PySucceedsIff` | python/src/medallion/errors.py:136-203 | Python decodes exactly what TypeScript decodes, less messages holding a field number 0, with the same reason and domain |
| `PyErrorInfo.DecodersAgreeIff` | python/src/medallion/errors.py:136-203 | where both decode, their metadata agree if and only if no entry with a key and a value has an empty or `__proto__` key, and for each other key the last entry either has a value or follows a last valued entry whose value is empty |
| `PyErrorInfo.CompleteEntriesAgree` | python/src/medallion/errors.py:136-203 | so they agree whenever every entry has a storable key and a value |
| `PyErrorInfo.ZeroFieldSplits` | python/src/medallion/errors.py:162-170 | a message of one field numbered 0 that TypeScript decodes and Python refuses |
| `PyErrorInfo.ValuelessEntrySplits` | python/src/medallion/errors.py:148-157 | an entry without a value that TypeScript keeps and Python drops |
| `Timestamps.EcmaDaysAreDays` | src/payload.ts:13-45 | the closed day formula of ECMA-262 counts the same days as adding up years and months |
| `Timestamps.MatchReadsWritten` | src/payload.ts:5-21 | a text matches with some fields exactly when the fields fit their widths and the text is what the writer of section 5.6 of RFC 3339 makes of them |
| `Timestamps.ParseIsExact` | src/payload.ts:13-45 | a written timestamp is accepted exactly when its fields are a calendar date from year 1 on, a time of day without leap second and a legal offset, and then (seconds, nanos) is its exact instant, before 1970 and with any fraction and offset too |
| `Timestamps.OnlyWrittenAccepted` | src/payload.ts:13-45 | nothing but a written timestamp is accepted |
| `Timestamps.OffsetIsLead` | src/payload.ts:24-25 | a positive offset puts the instant that much before the same clock reading in UTC, a negative one after |
| `Timestamps.MonthsFillYear` | src/payload.ts:27-37 | the days of the twelve months make up the year, and years follow one another |
| `Timestamps.CompareOrdersInstants` | src/protocol-preflight.ts:363-367 | comparing pairs orders the instants |
| `Timestamps.BoundsAgree` | python/src/medallion/client.py:53-56 | Python's numeric bounds are the date texts of TypeScript and Go, the upper one 2^63 - 1 nanoseconds |
| `Timestamps.RangeGatesAgree` | src/protocol-preflight.ts:337-361 | the three gates accept the same instants, from 1900-01-01 up to the last signed 64-bit nanosecond |
| `Timestamps.TimestampAcceptedIff` | src/protocol-preflight.ts:337-361 | a timestamp text passes exactly when it denotes an instant in the window |
| `Timestamps.BoundsAcceptedIff` | src/protocol-preflight.ts:320-333 | a pair of bounds passes exactly when both are storable and the first is strictly earlier; which error it gets otherwise |
| `Backoff.NormalizeGo` | go/request.go:350-376 | a configuration is accepted exactly when it is in range with the defaults filled in, and is then exactly that |
| `Backoff.NormalizeTs` | src/request.ts:662-705 | settings are accepted exactly when the attempts are an integer from 1 to 5 and the waits and the ratio are legal, defaults filled in, and are then exactly those |
| `Backoff.NormalizePy` | python/src/medallion/request.py:101-124 | likewise in Python |
| `Backoff.GoDoubling` | go/request.go:378-391 | the doubling loop computes min(initial * 2^(attempt - 1), max) without 64-bit overflow |
| `Backoff.GoDelayInBounds` | go/request.go:378-408 | Go's wait stays in [0, max] for every draw |
| `Backoff.GoDelayGrows` | go/request.go:378-408 | and never shrinks from one attempt to a later one for a fixed draw |
| `Backoff.DelaysInBounds` | src/request.ts:549-564 | TypeScript's and Python's waits stay in [0, max] for every draw |
| `Backoff.DelaysGrow` | python/src/medallion/request.py:630-645 | and never shrink for a fixed draw |
| `Backoff.PollDelayInBounds` | src/request.ts:522-524 | a poll waits at most 30 seconds, and the cap never cuts a wait the server did not ask for |
| `Backoff.BaseForm` | src/request.ts:555-558 | the base starts at the smaller of the initial and the largest wait and doubles from attempt to attempt up to the largest |
| `Backoff.GoBaseForm` | go/request.go:378-391 | likewise in Go |
| `Backoff.TsDelayForm` | src/request.ts:555-563 | for each draw the TypeScript wait is base * (1 - ratio + 2 * draw * ratio) rounded to the nearest millisecond, no more than the largest |
| `Backoff.PyDelayForm` | python/src/medallion/request.py:630-645 | the Python wait is the same unrounded |
| `Backoff.GoDelayForm` | go/request.go:392-408 | the Go wait is the same in whole nanoseconds, rounded down |
| `Backoff.WaitsAsAsked` | src/request.ts:549-554 | after a Retry-After TypeScript and Python wait what it says, in milliseconds and seconds: delay-seconds, or the time left until the date; without one, their backoff |
| `Backoff.GoWaitsAsAsked` | go/request.go:410-434 | so does Go in nanoseconds, up to the largest duration, for numbers of 64 bits |
| `Backoff.PollWaitsAsAsked` | src/request.ts:517-524 | a poll waits the smaller of its Retry-After and 30 seconds, or its backoff when there is none |
| `Backoff.OverflowIsMidpoint` | python/src/medallion/request.py:648-661 | the number from which Python drops a Retry-After is 2^1024 - 2^970 |
| `Backoff.GoHonoursIff` | go/request.go:410-439 | under a deadline a wait that is entered is all of the delay-seconds asked for if and only if their number fits 64 bits |
| `Backoff.GoIgnoresHugeRetryAfter` | go/request.go:415-426 | at 2^64 seconds Go falls back to its own backoff of at most five seconds, and enters it with 30 seconds left |
| `Backoff.PyHonoursIff` | python/src/medallion/request.py:648-661 | Python waits all of the delay-seconds asked for if and only if their number does not overflow a double |
| `Backoff.TsNeverEarly` | src/request.ts:735-755 | a retry timer, capped at 2^31 - 1 ms, that the deadline timer does not precede was not cut and fires within the timeout |
| `Retry.OraclesAgreeIff` | go/errors.go:57-97 | the three retry oracles give the same advice if and only if the call is not safe to repeat, or there is a non-empty reason, or nothing transient about the transport, or no reason at all and no or an empty domain |
| `Retry.OraclesDiffer` | src/errors.ts:145-179 | a 503 with an empty reason and one with a domain only, on which they differ |
| `Retry.Dispatch` | src/request.ts:226-441 | for any policy of waits: all sends carry the same request, the outcome is fixed by the last attempt, an abort or the deadline timer, a success is returned if and only if it answers the last send, and the exhausted exit is unreachable |
| `RetryRuns.OraclesListed` | src/errors.ts:145-179 | the errors after which each SDK advises another attempt, listed by status, code, reason and domain |
| `RetryRuns.TsSettles` | src/request.ts:226-441 | a TypeScript call sends again exactly while the reply is one of the listed lost, unreadable or transient ones, nobody aborts, attempts are left and the wait is over before the deadline; at the first attempt that does not lead on, the number of sends and the result are those listed by reply and signal |
| `RetryRuns.TsCompletes` | src/request.ts:277-286 | after k attempts that lead on and a success, k + 1 requests were sent and its body is returned |
| `Retry.TsTimely` | src/request.ts:549-564 | in every run with the client's own waits no send is sooner than the server asked, and the waits run to their end add up to less than the timeout |
| `RetryRuns.TsClientWaits` | src/request.ts:542-564 | the wait after attempt n is what the server asks for, or else backoff number n |
| `RetryRuns.PyClientWaits` | python/src/medallion/request.py:622-661 | likewise in Python |
| `RetryRuns.GoClientWaits` | go/request.go:378-434 | likewise in Go |
| `Retry.PostProto` | go/request.go:169-308 | as for TypeScript, with a wait that would reach the deadline refused |
| `RetryRuns.GoSettles` | go/request.go:169-308 | as `TsSettles`, for Go's replies, its deadline and the end of its context |
| `RetryRuns.GoCompletes` | go/request.go:169-308 | as `TsCompletes`, for Go |
| `Retry.GoTimely` | go/request.go:378-450 | in every run the waits add up to less than the time to the deadline, and no send is sooner than the server asked in a header Go can read |
| `Retry.GoEntersInTime` | go/request.go:436-450 | a wait that is entered, ended by the context or not, still fits with all those before it |
| `Retry.Post` | python/src/medallion/request.py:324-511 | as for Go, with the deadline read at the top of the loop and again inside the wait |
| `RetryRuns.PySettles` | python/src/medallion/request.py:324-511 | as `TsSettles`, for Python's replies and both readings of its deadline |
| `RetryRuns.PyCompletes` | python/src/medallion/request.py:324-511 | as `TsCompletes`, for Python |
| `Retry.PyTimely` | python/src/medallion/request.py:630-682 | in every run the waits add up to less than the timeout, and no send is sooner than the server asked in a header a double can hold |
| `Retry.PyEntersInTime` | python/src/medallion/request.py:664-678 | a wait that is entered, cancelled or not, still fits with all those before it |
| `Receipts.GoValidate` | go/wire.go:92-117 | the tally loop accepts exactly the acknowledgements that answer the batch, without 32-bit wrap-around |
| `Receipts.ValidatorsAgree` | src/ingestion.ts:71-130 | TypeScript and Python accept exactly the same acknowledgements: keys equal in order, positive ids, counts equal to the flags |
| `Receipts.SummariesAgree` | python/src/medallion/client.py:929-951 | the three summaries are equal and hold the receipts as they came, counts add up to the batch size, and the label and the flag say whether all, none or some of the events were duplicates |
| `Publish.Preflight` | src/protocol-preflight.ts:57-104 | a batch passes exactly when it holds 1 to 1,000 events with distinct legal keys; otherwise the first event at fault names the error |
| `Publish.RunKeepsUnique` | README.md:364-372 | across any number of sends of one batch, each arriving at any time, no key gets a second record and nothing else is stored |
| `Publish.PublishBatch` | src/request.ts:226-441 | for every interleaving of lost and late requests, lost replies, errors and aborts, and once everything still under way has arrived, each event is stored at most once and nothing else is; an illegal batch is never sent; a decoded reply gives a receipt exactly when it answers the batch; with a receipt each is stored exactly once, under a key no other event has, and receipt i names event i's own durable record |
| `Publish.Send` | src/request.ts:226-441 | every send carries the batch, the run is one of `Dispatch`, and the reply to the last send is the outcome |
| `Publish.SuccessIsReached` | src/request.ts:226-441 | a success after attempts that lead on is reached, and is the reply the result is judged by |
| `Publish.Conclude` | src/ingestion.ts:71-130 | an acknowledgement of durable records becomes a receipt exactly when it answers the batch, and then it covers the batch |
| `Publish.ReceiptsCoverBatch` | src/ingestion.ts:71-130 | accepted receipts for durable records name one record per event, no two the same |
| `Publish.TakenKeyNeverCovered` | README.md:145-148 | a batch that reuses the key of another event never gets receipts, and none of the three clients retries the server's refusal |
| `Pagination.Iterator.Next` | go/ingestion.go:748-785 | one call is one step of the specification and keeps its invariant; the current event is the one handed out |
| `Pagination.EveryReachableState` | go/ingestion.go:748-785 | after any number of calls pages <= |seen| <= pages + 1 with one request per seen cursor and at most 10,000, none repeated, each with the cursor the answer before it gave, and the events handed out are exactly the server's, in order, up to the current one |
| `Pagination.GoNextKeepsValid` | go/ingestion.go:819-856 | every step keeps the invariant, through runs of empty pages |
| `Pagination.NextHandsOut` | go/ingestion.go:748-785 | Next returns true exactly with one more event handed out, the current one |
| `Pagination.EndHasReason` | go/ingestion.go:748-785 | whenever Next returns false the last page gave no cursor, or one already asked for, or 10,000 pages were read, or the next list call failed, and the error says which |
| `Pagination.GoEndIsFinal` | go/ingestion.go:748-785 | once Next has returned false it changes nothing and returns false forever |
| `Pagination.Generator.Next` | src/audit.ts:192-219 | one pull of the generator is one step of its specification |
| `Pagination.TsEndIsFinal` | src/audit.ts:192-219 | after a generator has returned or thrown every later pull ends without an error |
| `Pagination.PullInStep` | src/audit.ts:203-218 | from states in step one pull of each gives the same event or the same ending after the same requests |
| `Pagination.IteratorsAgree` | src/audit.ts:203-218 | for every server, cursor and number of pulls both SDKs send the same cursors, hand out the same events and end the same way |
| `QueryMachine.RunAndPoll` | src/tables.ts:116-150 | one RunQuery, at most 1,000 polls, each for the name of the running answer before it, none refused by the SDK's own checks; the settled answer, the limit or an abort decides the outcome |
| `QueryMachine.Query` | src/tables.ts:116-157 | a result object exactly for a validated success, ready to be read |
| `QueryMachine.TableQueryResult.Next` | src/tables.ts:304-350 | one pull in any order with pulls of other iterators: the reader gets the next row of the result or its ending, a latecomer MEDALLION_RESULT_CONSUMED, and no pull ends in a refused request or a token without a name |
| `QueryMachine.TableQueryResult.NextPage` | src/tables.ts:328-348 | the next page or the ending is the one the row stream prescribes; the branch for a token without a name cannot be entered |
| `QueryMachine.TableQueryResult.Request` | src/ingest.ts:452-479 | a page request is never refused by the SDK's own checks and never repeats a token |
| `QueryMachine.TurnPage` | src/tables.ts:337-348 | reading on to the next page leaves what is still to come unchanged |
| `QueryMachine.WalkIsPages` | src/tables.ts:325-349 | the rows of a result are those of its pages, whole and in order, each page a validated success |
| `QueryMachine.WalkEndsIff` | src/tables.ts:325-349 | reading ends without an error exactly when the last page carries no continuation token |
| `QueryFacts.WalkEndsFor` | src/tables.ts:325-349 | otherwise with a token already asked for, with the failure of the next request, or after ten thousand pages, and the error says which |
| `QueryFacts.StreamIsPages` | src/tables.ts:304-349 | a result is the rows of the settled answer and then those of the pages after it |
| `QueryFacts.QueryNameIff` | src/ingest.ts:45 | a query name is `queries/` and 26 of Crockford's digits in lower case |
| `QueryFacts.RunRefusals` | src/ingest.ts:425-449 | which queries are refused before they are sent, and with which error |
| `QueryFacts.PageRefusals` | src/ingest.ts:452-479 | likewise for page requests and polls |
| `QueryFacts.UnsettledIff` | src/ingest.ts:577-648 | a running answer is legal exactly with a name, no rows, no token and sound totals; a failed one may lack the name |
| `QueryFacts.SucceededIff` | src/ingest.ts:577-648 | a succeeded one exactly with rows that are objects, a token of at most 4,096 bytes and, with a token, a name |
| `QueryFacts.SettledIs` | src/tables.ts:353-370 | a legal FAILED answer fails the query, a legal SUCCEEDED one settles it, a running or illegal one is an invalid response, a lost one its own error |
| `QueryMachine.Interleave` | src/tables.ts:304-350 | any interleaving of any number of iterators lets at most one yield rows, a prefix of the result, with at most 10,000 page requests, no two alike, each legal and for the token of the page before it |
| `Normalize.NormalizeProtoJson` | src/protocol.ts:294-318 | the loop that fills the normalised record computes the specification |
| `Respelling.FindIff` | src/protocol.ts:300-307 | a key is for the first field of the message whose declared name or JSON name it is |
| `Respelling.RespellsIff` | src/protocol.ts:294-349 | the result of normalising is the respelling of the input and nothing else: keys are JSON names in order of first use, under each the last value given for it respelt in turn, undefined and `__proto__` properties gone, list lengths, map keys, scalars and unknown properties as they were |
| `Normalize.FixedIffNormal` | src/protocol.ts:294-349 | normalising changes nothing if and only if every key at every level is already a JSON name and nothing would be dropped |
| `Normalize.ResultNormal` | src/protocol.ts:294-349 | the result is always in that form when looking a JSON name up finds its own field |
| `Normalize.IdempotentIff` | src/protocol.ts:223-243 | normalising every request of a descriptor set twice is normalising it once, if and only if no JSON name is taken for another field's |
| `Normalize.Captured` | src/protocol.ts:300-315 | a one-property request on which the second pass changes the result otherwise |
| `Normalize.DefaultNamesStable` | src/protocol.ts:300-315 | a descriptor set whose JSON names are the distinct lower-camel forms of its field names normalises every request idempotently |
| `Normalize.CamelWords` | src/protocol.ts:300-315 | the lower-camel form of words joined by underscores is the first word and then the others capitalised |
| `Normalize.CrossedNamesUnstable` | src/protocol.ts:300-315 | a concrete set with distinct explicit JSON names on which the second pass renames again |
| `Normalize.RowUnchangedIff` | src/ingest.ts:246-250 | a Struct-typed row passes unchanged but for undefined columns if and only if it has no `__proto__` column and its `fields` column, if any, is already in normal form |
| `Normalize.RowKept` | src/ingest.ts:246-250 | in particular every row without columns called `fields` or `__proto__` does |
| `Normalize.FieldsColumnRenamed` | src/protocol.ts:333-346 | a `fields` column whose cells look like messages is renamed inside |
| `Principals.SplitIff` | go/ids.go:119 | splitting gives the one list of colon-free parts that joins to the text |
| `Principals.ParseIff` | go/ids.go:115-130 | the actor of a principal has what stands before the first colon as type, after the last as id, and between the two as provider |
| `Principals.JoinSplit` | go/ids.go:115-130 | joining what was split gives the text back |
| `Principals.GoRoundTripIff` | go/ids.go:103-130 | rendering the parsed actor gives the principal back exactly when it has no colon, or a non-empty first part and not three parts with an empty middle |
| `Principals.PyRoundTripIff` | python/src/medallion/ids.py:71-90 | Python's does under that condition and when the last part is not empty |
| `Principals.TsRoundTrip` | src/ingestion.ts:332-340 | TypeScript's always does |
| `Principals.EmptyProviderLost` | go/ids.go:103-130 | `a::b` comes back as `a:b` |

## Left out

- HTTP, fetch, URLs, headers, redirects, body streaming, base64 and gzip: an attempt is one of the outcomes listed in `Retry`.
- The server, beyond one record per idempotency key (README.md:364-372, README.md:145-148): it may store any part of a batch at any time, answer with any receipts for records it has, and fail in any way; it answers a batch that reuses the key of another event with IDEMPOTENCY_MISMATCH instead of receipts.
- Hashes, UUIDs and random keys; credentials, tracing, redaction and error sanitising.
- UTF-8 decoding: one partial function shared by both decoders, so a byte order mark that a host decoder strips and another keeps does not show.
- `JsonText.ReadPrinted`: numbers are integers; fractions, exponents and host number printing are not modelled, nor are they read back.
- `JsonText.ParsePrint`: integers only, as above.
- `CanonicalJsonFacts.ParseBack`: integers only, as above.
- JavaScript object order: integer-like keys, which a host lists first, keep their place in a record; and setting `__proto__` only fails to make a property, without changing inherited ones.
- Wire field numbers past 2^53: JavaScript rounds them, the model does not; they are unknown fields either way.
- `Timestamps.ParseIsExact`: Date.parse may keep any milliseconds under a second (the parameter `sub`), because the source floors them away.
- Array holes inside requests and typed objects other than arrays and plain records, in `Normalize`.
- `Publish.Preflight`: checks the batch size and the keys; the length, enum and payload checks of each event are not modelled. Go's and Python's own preflight loops check the same keys and are not modelled separately.
- `Receipts.SummariesAgree`: leaves out the empty batch, which preflight refuses before anything is sent. Null receipts inside a Go slice are not modelled.
- `Backoff.TsNeverEarly`: takes it from the HTML timer rules that timers due together fire in creation order; timers drop fractions of a millisecond, which no Retry-After wait has, so they are not rounded here.
- `Retry.OraclesAgreeIff`: takes Connect codes as already trimmed and lower-cased.
- Floating-point rounding of jitter and of Retry-After: waits are computed over reals, so a number of seconds past 2^53 is not rounded to a double.
- Retry-After texts outside section 10.2.3 of RFC 9110, some of which only one client reads, and the parsing of dates; the wall clock a date is compared with runs as the clock of the deadline does, and a timer or sleep lasts at least as long as asked.
- `Backoff.NormalizePy`: the attempts are an integer, as the type of the setting says; its check would let a fraction pass.
- Audit preflight, whose key loop is the CDC one with other field names, and the CDC acknowledgement and iterator twins in Go.
- Python's `iterate`: the TypeScript generator with the same checks in the same order.
- The tables listing generator in src/tables.ts, which pages as `Pagination.Generator` does.
- `QueryMachine.RunAndPoll`: schema columns are one flag of an answer, and the deadline shows only as a lost call.
- `QueryMachine.TableQueryResult.Next`: a pull is one atomic step; only the first step of an iterator reads the shared first page, and it does so before it waits for anything.
- Arrow payloads, table schemas, batch checks of row appends, Polars conversion, workflow helpers and release scripts.
