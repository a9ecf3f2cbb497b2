# Verification of this repository's algorithms

Dafny models of the algorithms in this repository that carry state, recursion or arithmetic, and proofs of what they are for. `dafny verify dfyconfig.toml` checks all of it. One module models one component:

| modules | component |
|---|---|
| `RetryPolicy`, `TargetCache`, `TargetGuarantees` | the authorization service's retry policy, and the cached store and model its concurrent requests share |
| `HttpRetry`, `TokenCache` | the client library's request loop, and its single-flight token refresh |
| `Utf8`, `Ndjson`, `StreamAdapter` | the NDJSON reader: decoding, lines, and the event-to-iterator queue that feeds it |
| `JsonTree`, `JsonPointer`, `PointerRoundTrip` | JSON documents, the walk over them, and the pointers it writes and reads |
| `RefSiblings`, `RefMeaning`, `RefRewrite` | the conversion of Swagger documents: `$ref` siblings, their meaning, and renamed references |
| `Mutants`, `MutantNames`, `ModelMutants`, `ConditionSplit` | the mutation generator for authorization models and conditions |
| `RampSchedule`, `Dispatcher`, `ImportChunks`, `ImportReport` | the rate-ramped dispatcher of the command line client, the tuple import that feeds it, and what the import reports |
| `BatchCheck`, `BulkWrite` | batch checks end to end, and the non-transactional write |
| `Results`, `Sequences`, `Numerals` | shared: optional values and results, facts about sequences, decimal numerals |

Concurrent components are state machines: a `State`, the `Event`s that can happen, a `Step` that says what each changes, and lemmas about every `Run`, that is every order in which events can come. Objects whose methods update their fields are classes whose methods are proved to take these steps. Upstream replies, clocks, random numbers and orders of arrival are inputs, and the theorems hold for all of them.

Some properties one would expect do not hold of the code. The model keeps the code's behaviour, and the exact condition is proved:

- The chunked NDJSON reader parses its last line untrimmed, so a last line with white space that JSON does not know is lost, while the whole-payload reader keeps it (`ReadersAgree`, `NoBreakSpaceIsLost`).
- The stream adapter tests its error for truthiness: after a falsy error a later `next()` waits forever (`ErrorIsSeenIff`).
- A location of the walk does not resolve when a key contains `%`, since tokens are percent-decoded but never percent-encoded (`LocationRoundTrip`).
- A lookup answered "store not found" with status 400 surfaces as a bad request, although calls answered so never do (`GoneLookupIsBadRequest`, `BadRequestIff`).
- The import loses deletes when the last writes leave less room in their chunk than there are deletes (`NothingLostIff`), and reports nothing of the tuples of a request whose call errs (`AllReportedIff`).
- A string read in chunks that are cut inside a surrogate pair does not decode to the string (`StringTextsAgreeIff`, `CutPairIsLost`).
- More requests than an int32 counts make the dispatcher return nil early (`NilMeansAllCalledIff`, `TooManyCallsNone`).
- An import with a negative minimum rate is accepted and hangs in its second tick, unless there is no ramp (`ImportEndsIff`, `NegativeRatesAccepted`).
- A token request that ends in neither a response nor an error makes the refresh hand out the old token (`StaleOnlyWhenNothingCame`, `StaleHappens`).

Where the code and its own comments disagree the code is followed: with a ramp-up period of 0 the comment promises the maximum rate directly, but the limiter is made before the minimum is raised, so the first tick runs at the minimum (`NoPeriodStillStartsLow`); the service's comments name 5xx and network failures as the retryable ones, and the code also retries library errors that are not HTTP errors (`RetriedFailures`).

## Model

| member | source | states |
|---|---|---|
| `TargetCache.InvInEveryRun` | api/src/openfga.ts:144-195 | over every interleaving of requests, lookups, expiry, gone-reports and departures: the running lookup is the cache entry's, what is held is the target found last, each request's log follows the retry policy and meets targets in the order they were found |
| `TargetCache.StepKeepsInv` | api/src/openfga.ts:164-192 | each single event keeps all of that |
| `TargetGuarantees.OneLookup` | api/src/openfga.ts:161-168 | in every run at most one lookup is under way, everybody who waits waits for it, and it runs only while somebody does |
| `TargetGuarantees.OnlyTheFailedIsDropped` | api/src/openfga.ts:177-185 | a held target leaves the cache only when it has expired or when a request reports that very target gone; the failure of an older target never discards a newer one |
| `TargetGuarantees.ReportedAfterGone` | api/src/openfga.ts:175-186 | a target comes to be reported gone only by a call made against it that said so |
| `TargetGuarantees.GoneIsNeverMetAgain` | api/src/openfga.ts:175-191 | in every run, a request that saw a target gone never uses it or an older one again, neither now nor in a later attempt |
| `TargetGuarantees.RequestsFollowPolicy` | api/src/openfga.ts:173-195 | in every run, each request makes at most four attempts, and one that is over ended exactly as the composed policy ends for the same attempts |
| `TargetGuarantees.BadRequestInEveryRun` | api/src/openfga.ts:96-106 | in every run, a request that is over told its client that the request is bad if and only if its last attempt made a call found invalid for another reason than the store being gone, or failed in a lookup found invalid |
| `TargetGuarantees.TimeoutInEveryRun` | api/src/openfga.ts:133-142 | in every run, an attempt that timed out is the last of its request, which is over with an upstream error unless its client has left |
| `TargetGuarantees.FoundIsShared` | api/src/openfga.ts:161-168 | what a lookup finds is held from then on for the time to live, and everybody who waits calls against it |
| `TargetGuarantees.FailureIsShared` | api/src/openfga.ts:161-167 | a failed lookup is not kept and fails the attempt of everybody who waits with its own fault: retried once where that may help, reported otherwise |
| `TargetGuarantees.AnswerDecides` | api/src/openfga.ts:173-195 | what an answer does to its request and to the cache: a success ends it, a fault is retried once where that may help, and a target that is gone is dropped if it is still the one held, and looked up again once |
| `TargetGuarantees.NobodyIsStuck` | api/src/openfga.ts:161-192 | in every run, each request that is not over can go on: none is left waiting for a lookup that is not under way |
| `TargetGuarantees.UsedForItsTime` | api/src/openfga.ts:164-168 | whatever happens after a target was found, a request that asks is given it if and only if it is still held and less than its time to live has passed since it was found |
| `RetryPolicy.PolicyIsMachine` | api/src/openfga.ts:188-194 | the policy composed from its two catches and the retry takes exactly the attempts the state machine allows, and ends as it does |
| `RetryPolicy.MachineIsPolicy` | api/src/openfga.ts:188-194 | conversely, attempts that follow the machine to an end are those the composed policy makes |
| `RetryPolicy.AtMostFour` | api/src/openfga.ts:188-193 | a request makes at most four attempts, so at most four OpenFGA calls |
| `RetryPolicy.FourAttempts` | api/src/openfga.ts:188-193 | four are made when the target is gone, then OpenFGA fails, then the target is gone again, then the call succeeds |
| `RetryPolicy.OneAttemptIff` | api/src/openfga.ts:188-193 | one attempt is all if and only if it succeeded, or failed in a way that is neither retryable nor a sign that the store is gone |
| `RetryPolicy.LastDecides` | api/src/openfga.ts:188-194 | what the client is told is what the last attempt came to |
| `RetryPolicy.FinalIsLast` | api/src/openfga.ts:192 | an attempt that fails beyond retry is the last one, and its error is the one reported |
| `RetryPolicy.TimeoutIsLast` | api/src/openfga.ts:133-142 | a timeout, of a call or of a lookup, is never tried again and surfaces as an upstream error |
| `RetryPolicy.LookupTimesOut` | api/src/openfga.ts:144-159 | a lookup times out in this sense when one of the two calls it makes does |
| `RetryPolicy.BadRequestIff` | api/src/openfga.ts:96-106 | the client is told its request is bad if and only if the last attempt made a call found invalid for another reason than the store being gone, or failed in a lookup found invalid |
| `RetryPolicy.LookupInvalidIff` | api/src/openfga.ts:144-159 | a lookup fails as a bad request if and only if listing the stores or reading the models, where it is needed, was found invalid, whatever the code |
| `RetryPolicy.GoneLookupIsBadRequest` | api/src/openfga.ts:174-191 | the same answer, store_id_not_found with status 400, never surfaces as a bad request from a call but does so at once from the lookup of a pinned store's model |
| `RetryPolicy.RetriedFailures` | api/src/openfga.ts:91-94 | which HTTP outcomes the service retries: no response, no HTTP error at all, and every status from 500; it differs from the library's own choice exactly on 429 and 501 |
| `RetryPolicy.GoneFailures` | api/src/openfga.ts:86-89 | the store counts as gone for every 404, and for 400 and 422 with one of three codes, and for nothing else |
| `RetryPolicy.FirstNamedIsFirst` | api/src/openfga.ts:147-153 | the store found is the first with exactly the name, in the order listed; none is found only if no store has it |
| `RetryPolicy.LookupFinds` | api/src/openfga.ts:144-159 | a lookup finds a target if and only if the store is the pinned one or the first listed with the name, and the model the pinned one or else the first read, if any |
| `RetryPolicy.ClientFailures` | api/src/openfga.ts:96-106 | the failures blamed on the client: status 400 and 422, and what the library itself finds invalid; all others are upstream errors |
| `RetryPolicy.FirstCallFails` | api/src/openfga.ts:173-195 | after a first call that fails the request goes on for status 404, for 400 and 422 with a code that says the store or model is gone, for want of a response, for what is no HTTP error, and from 500 on; otherwise its client is told at once, and what |
| `RetryPolicy.FirstLookupFails` | api/src/openfga.ts:144-192 | after a first lookup that fails, in either of its calls, only for want of a response, for what is no HTTP error, and from 500 on |
| `RetryPolicy.NoSuchStore` | api/src/openfga.ts:150-153 | a store that is not listed ends the request with an upstream error |
| `HttpRetry.AttemptHttpRequest` | docs/repos/js-sdk/common.ts:238-338 | the loop stops at the first reply that ends it, with the result that reply calls for, after the waits the earlier failures call for |
| `HttpRetry.RequestsBounded` | docs/repos/js-sdk/common.ts:250-337 | at most maxRetry + 1 requests are made, and one in any case |
| `HttpRetry.FirstAnswerOrLastFailure` | docs/repos/js-sdk/common.ts:250-337 | what the loop returns is the first response, with the number of requests before it; what it raises belongs to the last request, which failed |
| `HttpRetry.FinalVerdict` | docs/repos/js-sdk/common.ts:199-236 | the error raised when no retry is left: its class for each status, with the status and the code of the response |
| `HttpRetry.EarlierVerdict` | docs/repos/js-sdk/common.ts:205-233 | while a retry is left, only no response, 429, and 500 and above but 501 are tried again, and everything else is raised as it would be at the end |
| `HttpRetry.UndefinedIff` | docs/repos/js-sdk/common.ts:307-338 | the loop is left without a result if and only if the last request it may make ends in neither a response nor an error and every earlier one in nothing, no response, or a status the library retries |
| `HttpRetry.SilenceIsUndefined` | docs/repos/js-sdk/common.ts:307-338 | an instance that never resolves to anything makes the loop end so after all the requests it may make |
| `HttpRetry.RetriedOnlyWhenWorthwhile` | docs/repos/js-sdk/common.ts:199-236 | a request is repeated only when there was no response or its status is 429, or at least 500 and not 501, and repeats are left |
| `HttpRetry.DelayBounds` | docs/repos/js-sdk/common.ts:128-192 | a wait is the Retry-After delay when that is acceptable (100 ms to 1800 s), and otherwise within the doubled minimum waits, capped at 120 s |
| `HttpRetry.BackoffBounds` | docs/repos/js-sdk/common.ts:128-133 | the jittered backoff stays between its two bounds for every random number |
| `HttpRetry.FirstBackoffs` | docs/repos/js-sdk/common.ts:128-133 | with the minimum of 100 ms the first wait is 200 to 400 ms, the second 400 to 800, the third 800 to 1600, and from the eleventh on 120 s |
| `HttpRetry.DrawnReaches` | docs/repos/js-sdk/common.ts:131 | every whole number of milliseconds in the range is the wait for some random number |
| `HttpRetry.HeaderCounts` | docs/repos/js-sdk/common.ts:140-192 | a Retry-After header counts if and only if it asks for 1 to 1800 seconds, or names a date 100 ms to 1800 s away |
| `HttpRetry.WaitsFollowFailures` | docs/repos/js-sdk/common.ts:316-336 | there is exactly one wait for each failure that is repeated, in the order of the failures and of that failure's length, and no other |
| `HttpRetry.WaitingBounded` | docs/repos/js-sdk/common.ts:335 | all waits of one call together stay within maxRetry times 1800 s |
| `TokenCache.Credentials.constructor` | docs/repos/js-sdk/credentials/credentials.ts:49-58 | the initial fields |
| `TokenCache.Credentials.GetAccessTokenValue` | docs/repos/js-sdk/credentials/credentials.ts:136-159 | one call: the cached token if it outlives the buffer, else the promise of the one exchange, started if there is none |
| `TokenCache.Credentials.FinishExchange` | docs/repos/js-sdk/credentials/credentials.ts:199-275 | the end of an exchange: token, expiry and buffer are stored for a response and left alone otherwise; the value of its promise |
| `TokenCache.Credentials.ClearPromise` | docs/repos/js-sdk/credentials/credentials.ts:150-156 | the finally of the refresh: the promise is forgotten and all who waited get its value |
| `TokenCache.InvInEveryRun` | docs/repos/js-sdk/credentials/credentials.ts:136-275 | over every interleaving of calls, ends of exchanges and settling: single flight, an account of every call, and honest values |
| `TokenCache.StepKeepsInv` | docs/repos/js-sdk/credentials/credentials.ts:136-275 | each single event keeps all of that |
| `TokenCache.OneExchange` | docs/repos/js-sdk/credentials/credentials.ts:150-156 | in every run at most one exchange is under way, all who wait wait for the same one, and no call is forgotten |
| `TokenCache.ServedTokens` | docs/repos/js-sdk/credentials/credentials.ts:143-275 | in every run a token served from the cache had more than 300 seconds left, and what an exchange gave is its own token, its own error, as an authentication error with the same status and code if it is an HTTP error, or, after a loop without a result, the token held before |
| `TokenCache.CallIsServedIff` | docs/repos/js-sdk/credentials/credentials.ts:136-159 | a call is served from the cache if and only if there is a token that is not empty and its expiry is further away than the buffer; otherwise it waits for the exchange under way, or for the one it starts |
| `TokenCache.SettlesOnce` | docs/repos/js-sdk/credentials/credentials.ts:143-156 | what a call was given never changes |
| `TokenCache.WaitersAreSettled` | docs/repos/js-sdk/credentials/credentials.ts:150-156 | when the promise settles, exactly those who wait are given its value |
| `TokenCache.OnlyResponsesAreStored` | docs/repos/js-sdk/credentials/credentials.ts:219-227 | a response replaces the token and its expiry, with a buffer of 300 to 600 seconds; any other end of an exchange leaves all three as they were |
| `TokenCache.BufferReaches` | docs/repos/js-sdk/credentials/credentials.ts:223-226 | every buffer from 300 up to 600 seconds is drawn for some random number |
| `TokenCache.StaleOnlyWhenNothingCame` | docs/repos/js-sdk/credentials/credentials.ts:205-220 | with three retries, a token other than the exchange's own is given if and only if the fourth request ends in neither a response nor an error and the three before it left matters unsettled |
| `TokenCache.StaleHappens` | docs/repos/js-sdk/credentials/credentials.ts:205-254 | a run in which a call is given an expired token, because its exchange came to nothing |
| `TokenCache.ShortLivedIsNotReused` | docs/repos/js-sdk/credentials/credentials.ts:143-154 | a token that lives no longer than 300 seconds goes to those who waited for it and to nobody after: the next call starts an exchange |
| `TokenCache.LongLivedIsServed` | docs/repos/js-sdk/credentials/credentials.ts:222-227 | a token that lives longer than 600 seconds is served from the cache as long as that much of its life is left |
| `Ndjson.ReadersAgree` | docs/repos/js-sdk/streaming.ts:120-185 | for every payload the chunked reader yields exactly what the whole-payload reader yields if and only if the last line has only JSON white space around its JSON, or no value |
| `Ndjson.ReadersAgreeOnJsonSpace` | docs/repos/js-sdk/streaming.ts:175-185 | in particular when the white space of the last line is that of section 2 of RFC 8259 |
| `Ndjson.WrittenIsRead` | docs/repos/js-sdk/streaming.ts:120-185 | round trip: of texts written one to a line, with a line end each, both readers yield the values in order, and nothing for blank lines and lines that are not JSON |
| `Ndjson.CompleteLinesAreRead` | docs/repos/js-sdk/streaming.ts:144-185 | when the source fails, the values of the lines that were complete have been yielded; when it ends, a last line without a line end is read like the others, if it has no white space around it |
| `Ndjson.NoBreakSpaceIsLost` | docs/repos/js-sdk/streaming.ts:160-185 | a payload on which the two readers differ: a number and a no-break space without a line end |
| `Ndjson.ParseStream` | docs/repos/js-sdk/streaming.ts:144-185 | the loop over chunks, its buffer and its decoder: for every way of cutting the bytes it yields what the text as a whole determines, and the values of complete lines if the source fails |
| `Ndjson.ParsePayload` | docs/repos/js-sdk/streaming.ts:120-138 | the whole-payload reader yields the values of the lines of its text: the decoded bytes, or the string as it is |
| `Ndjson.StringReadersAgree` | docs/repos/js-sdk/streaming.ts:120-185 | a string cut into well-formed strings yields what the string as a whole yields exactly on the same condition on the last line, although its chunks are encoded and decoded and the string is not; cut into any other strings it does not even decode to the same text |
| `Ndjson.StringTextsAgreeIff` | docs/repos/js-sdk/streaming.ts:120-151 | for every way of cutting a string: what its chunks decode to is the string, but for a leading byte order mark, if and only if no chunk has an unpaired surrogate |
| `Ndjson.CutPairIsLost` | docs/repos/js-sdk/streaming.ts:145-154 | U+1F600 cut between its surrogates decodes to two replacement characters |
| `Ndjson.YieldLines` | docs/repos/js-sdk/streaming.ts:126-137 | blank and unparsable lines yield nothing, every other line its value |
| `Ndjson.LinesAppend` | docs/repos/js-sdk/streaming.ts:156-160 | appending text extends the last line and adds lines, and changes no other |
| `Ndjson.LinesJoin` | docs/repos/js-sdk/streaming.ts:124 | the lines have no line ends in them and make up the text when they are joined by those |
| `Ndjson.TrimIs` | docs/repos/js-sdk/streaming.ts:127 | trimming takes the white space off both ends and nothing else |
| `Ndjson.SpacesAre` | docs/repos/js-sdk/streaming.ts:127 | the 25 characters trim() takes off |
| `Ndjson.YieldedIsPrefix` | docs/repos/js-sdk/streaming.ts:144-173 | what was yielded when a source fails is the beginning of what the whole payload would have yielded, however it would have gone on |
| `Ndjson.StringChunks` | docs/repos/js-sdk/streaming.ts:145-151 | cutting a string payload into string chunks changes no byte unless a cut falls inside a surrogate pair |
| `Utf8.DecodeChunkAppend` | docs/repos/js-sdk/streaming.ts:153-154 | decoding with carried-over state does not depend on where the bytes are cut |
| `Utf8.DecodeUndoesEncode` | docs/repos/js-sdk/streaming.ts:112 | the decoder gives back every text encoded as section 3 of RFC 3629 says, but for a leading byte order mark |
| `Utf8.EncodingExamples` | docs/repos/js-sdk/streaming.ts:112 | examples of section 7 of RFC 3629 |
| `Utf8.TruncatedIsReplaced` | docs/repos/js-sdk/streaming.ts:112 | a sequence that is cut short becomes one U+FFFD, at the end of the input and before a character that does not continue it |
| `Utf8.StrayByteIsReplaced` | docs/repos/js-sdk/streaming.ts:112 | a byte that cannot start a sequence becomes U+FFFD |
| `Utf8.BadSecondByte` | docs/repos/js-sdk/streaming.ts:112 | the first two bytes of overlong forms, surrogates and what lies beyond the last code point become U+FFFD each |
| `Utf8.PairStandsFor` | docs/repos/js-sdk/streaming.ts:147-148 | every code point is encoded from its UTF-16 form, a surrogate pair where it needs one |
| `Utf8.ScalarsAppend` | docs/repos/js-sdk/streaming.ts:147-148 | a string may be encoded in two pieces exactly when the cut does not separate the halves of a surrogate pair |
| `StreamAdapter.Adapter.constructor` | docs/repos/js-sdk/streaming.ts:19-22 | the initial queue, waiting list and flags, with the three listeners attached |
| `StreamAdapter.Adapter.OnData` | docs/repos/js-sdk/streaming.ts:24-31 | a chunk goes to the consumer that has waited longest, or into the queue |
| `StreamAdapter.Adapter.OnEnd` | docs/repos/js-sdk/streaming.ts:33-40 | the end settles all who wait as done, unless an error was seen |
| `StreamAdapter.Adapter.OnError` | docs/repos/js-sdk/streaming.ts:42-49 | an error rejects all who wait and detaches the listeners |
| `StreamAdapter.Adapter.CallNext` | docs/repos/js-sdk/streaming.ts:62-77 | next(): the error, the first queued chunk, done, or a place in the waiting list, in this order |
| `StreamAdapter.Adapter.CallReturn` | docs/repos/js-sdk/streaming.ts:79-80 | return() detaches the listeners and changes neither queue nor waiting list |
| `StreamAdapter.Adapter.Detach` | docs/repos/js-sdk/streaming.ts:55-59 | the listeners are removed |
| `StreamAdapter.InvInEveryRun` | docs/repos/js-sdk/streaming.ts:19-77 | over every interleaving of data, end, error, next and return: queue and waiting list are never both non-empty, nobody waits after the end or a visible error, each chunk is handed over or queued, in order, each call settles or waits |
| `StreamAdapter.StepKeepsInv` | docs/repos/js-sdk/streaming.ts:24-77 | each single event keeps all of that |
| `StreamAdapter.SettlesOnce` | docs/repos/js-sdk/streaming.ts:24-77 | a promise that has settled stays as it settled |
| `StreamAdapter.DrainsBeforeDone` | docs/repos/js-sdk/streaming.ts:66-73 | done is reported only when every chunk received has been handed over |
| `StreamAdapter.ErrorRejectsWaiting` | docs/repos/js-sdk/streaming.ts:42-47 | an error rejects every call that waits, with that very error |
| `StreamAdapter.EndFinishesWaiting` | docs/repos/js-sdk/streaming.ts:33-39 | the end settles every call that waits as done |
| `StreamAdapter.ChunkGoesToLongestWaiting` | docs/repos/js-sdk/streaming.ts:24-31 | a chunk settles the call that has waited longest and no other, or is queued last |
| `StreamAdapter.NextOutcome` | docs/repos/js-sdk/streaming.ts:62-77 | what a call of next() comes to in every state: the error seen, else the first queued chunk, else done after the end, and only otherwise does it wait |
| `StreamAdapter.GroundedInEveryRun` | docs/repos/js-sdk/streaming.ts:19-77 | in every run, done is reported only after an end, and an error only if that very error was emitted |
| `StreamAdapter.LaterCallsAreRejected` | docs/repos/js-sdk/streaming.ts:42-65 | whatever happens after an error that is truthy, every later next() is rejected with it |
| `StreamAdapter.DetachedAfter` | docs/repos/js-sdk/streaming.ts:48-80 | the listeners are gone after an error, after return() and once the end was reported; what is emitted then changes nothing |
| `StreamAdapter.EverythingIsHeard` | docs/repos/js-sdk/streaming.ts:24-52 | until an end, an error or return() all listeners are attached and the chunks received are the chunks emitted, in order |
| `StreamAdapter.DeliveredIsPrefix` | docs/repos/js-sdk/streaming.ts:24-69 | in every run the chunks handed over are a prefix of the chunks received, in order, each to exactly one next() |
| `StreamAdapter.ErrorIsSeenIff` | docs/repos/js-sdk/streaming.ts:42-76 | after an error nobody is left waiting in any future if and only if the error is truthy or the stream had ended; after a falsy error a later next() hangs |
| `StreamAdapter.DetachedWaitsForever` | docs/repos/js-sdk/streaming.ts:55-77 | without listeners, who waits waits in every future |
| `StreamAdapter.ReturnAbandons` | docs/repos/js-sdk/streaming.ts:78-87 | return() leaves pending next() calls unsettled for good |
| `RefMeaning.MeaningKept` | docs/repos/api/tools/openapiv3/normalize.go:14-60 | for every accepted tree and every interpretation of keywords: the OpenAPI 3.0.3 meaning of the rewritten tree (siblings of $ref ignored, allOf a conjunction) is the Swagger meaning of the original (reference and siblings both apply) |
| `RefMeaning.SiblingsWouldBeLost` | docs/repos/api/tools/openapiv3/normalize.go:14 | without the rewrite the two meanings differ as soon as a sibling means anything |
| `RefMeaning.NothingToDoMeansTheSame` | docs/repos/api/tools/openapiv3/normalize.go:14-60 | a tree without siblings means the same under both readings |
| `RefSiblings.NormalizeRefSiblings` | docs/repos/api/tools/openapiv3/normalize.go:15-60 | the recursive rewrite: which trees are accepted, the result, and the count |
| `RefSiblings.NormalizeItems` | docs/repos/api/tools/openapiv3/normalize.go:17-27 | items are overwritten in order until one is refused |
| `RefSiblings.NormalizeMembers` | docs/repos/api/tools/openapiv3/normalize.go:28-37 | members are overwritten in any order until one is refused |
| `RefSiblings.PairSiblings` | docs/repos/api/tools/openapiv3/normalize.go:38-56 | a string $ref with siblings becomes an allOf of the two, another one is refused |
| `RefSiblings.NormalizedShape` | docs/repos/api/tools/openapiv3/normalize.go:15-60 | an object with $ref and siblings becomes one whose only key is allOf, holding the reference and then everything else; all other values keep their shape |
| `RefSiblings.AcceptedIff` | docs/repos/api/tools/openapiv3/normalize.go:38-43 | a tree is accepted if and only if every object the walk visits has a string at $ref wherever that has siblings |
| `RefSiblings.CountRefSiblings` | docs/repos/api/tools/openapiv3/normalize.go:90-99 | the counter over the walk counts exactly the reference objects with siblings |
| `RefSiblings.WalkCounts` | docs/repos/api/tools/openapiv3/json.go:38-57 | what the walk sees adds up to what is in the tree |
| `RefSiblings.SiblingVisitsAre` | docs/repos/api/tools/openapiv3/normalize.go:90-99 | namely the number of objects visited that have a $ref and something besides |
| `RefSiblings.NothingLeft` | docs/repos/api/tools/openapiv3/normalize.go:39-55 | after the rewrite no reference object has siblings |
| `RefSiblings.UnchangedWhenNothingToDo` | docs/repos/api/tools/openapiv3/normalize.go:15-60 | a tree with nothing to do is accepted and left as it is |
| `RefSiblings.NormalizedTwice` | docs/repos/api/tools/openapiv3/normalize.go:15-60 | the rewrite is the identity with count 0 on its own output |
| `RefSiblings.ReferencesKept` | docs/repos/api/tools/openapiv3/normalize.go:38-54 | every $ref string occurs as often after the rewrite as before |
| `JsonPointer.ParseIndexIff` | docs/repos/api/tools/openapiv3/json.go:90-115 | an index token is accepted if and only if it is the decimal numeral without leading zeros of a position in the array |
| `JsonPointer.ParseArrayIndex` | docs/repos/api/tools/openapiv3/json.go:90-115 | the loop over the digits accepts exactly those tokens |
| `JsonPointer.ResolveJSONPointer` | docs/repos/api/tools/openapiv3/json.go:59-88 | the loop that decodes and steps token by token computes where the decoded path leads, or gives up when some token fails |
| `JsonPointer.UnescapeEscape` | docs/repos/api/tools/openapiv3/json.go:222-224 | undoing ~1 before ~0 undoes the escape of every key |
| `JsonPointer.EscapeCons` | docs/repos/api/tools/openapiv3/json.go:222-224 | keys are escaped character by character |
| `JsonPointer.EscapedForms` | docs/repos/api/tools/openapiv3/json.go:222-224 | ~ as ~0 and / as ~1 |
| `JsonPointer.PercentRoundTrip` | docs/repos/api/tools/openapiv3/json.go:64-69 | percent-decoding undoes percent-encoding of every string of bytes, in upper and lower case |
| `JsonPointer.UndecodableIff` | docs/repos/api/tools/openapiv3/json.go:64-69 | a token fails to decode if and only if it has a percent sign without two hexadecimal digits behind it |
| `JsonPointer.TokenRoundTrip` | docs/repos/api/tools/openapiv3/json.go:64-69 | a key survives being written as a token and read back if and only if it has no '%' |
| `PointerRoundTrip.LocationRoundTrip` | docs/repos/api/tools/openapiv3/json.go:38-88 | a location resolves along the path it was written for if and only if no key of the path has a '%' |
| `PointerRoundTrip.WalkIsComplete` | docs/repos/api/tools/openapiv3/json.go:38-57 | the walk visits exactly the objects of the document, each at its own path |
| `PointerRoundTrip.WalkInOrder` | docs/repos/api/tools/openapiv3/json.go:38-57 | and in document order, none twice: an object before what it holds, members by key, items by index |
| `JsonTree.LexLeIff` | docs/repos/api/tools/openapiv3/json.go:50 | keys are ordered by their first difference, and a prefix comes first |
| `PointerRoundTrip.VisitedLocationsResolve` | docs/repos/api/tools/openapiv3/json.go:38-88 | in a document without '%' in keys, every location passed to the visitor resolves to the very object visited |
| `PointerRoundTrip.PercentKeyDoesNotResolve` | docs/repos/api/tools/openapiv3/json.go:64-69 | with a key such as %41 the location of an object does not resolve |
| `RefRewrite.FollowCommutes` | docs/repos/api/tools/openapiv3/normalize.go:101-122 | following a path without a $ref step commutes with rewriting |
| `RefRewrite.FollowsAlike` | docs/repos/api/tools/openapiv3/normalize.go:101-122 | whatever the path, the copy leads somewhere exactly when the original does |
| `RefRewrite.CopyIsIdentity` | docs/repos/api/tools/openapiv3/normalize.go:101-122 | a value without a reference under one of the three prefixes is copied as it is |
| `RefRewrite.CopyKeepsShape` | docs/repos/api/tools/openapiv3/normalize.go:101-122 | on every path without $ref the copy has the same scalar, a list of the same length, or an object with the same keys |
| `RefRewrite.CopiedRef` | docs/repos/api/tools/openapiv3/normalize.go:112-143 | what stands at $ref in the copy: definitions become component schemas, parameters and responses the components of that name, and everything else stays |
| `RefRewrite.RenamedRefResolves` | docs/repos/api/tools/openapiv3/normalize.go:124-143 | resolving a renamed reference in the converted document gives the rewritten version of what the reference resolved to, if its path has no $ref key |
| `RefRewrite.RenamedRefStillResolves` | docs/repos/api/tools/openapiv3/normalize.go:124-143 | whatever its path, a renamed reference resolves if and only if it did before |
| `RefRewrite.ThroughRefKeyDiffers` | docs/repos/api/tools/openapiv3/normalize.go:112-116 | through a $ref key the two may differ: the string found there has been renamed |
| `RefRewrite.ValidateInternalRefs` | docs/repos/api/tools/openapiv3/validate.go:366-387 | the check passes if and only if every reference is internal and resolves; it counts them all, or reports the first bad one in the order of the walk |
| `RefRewrite.ProblemIff` | docs/repos/api/tools/openapiv3/validate.go:366-387 | which problem is reported for a reference: it is no string, is neither # nor starts with #/, or leads nowhere |
| `RefRewrite.RefCountIs` | docs/repos/api/tools/openapiv3/validate.go:366-387 | the count is the number of objects visited that have a $ref |
| `RefRewrite.ValidRefsStayValid` | docs/repos/api/tools/openapiv3/validate.go:249-255 | in a document whose references all pass the check, every reference among the definitions that points to a definition, or to the whole document, still passes after the conversion, whatever other references there are; and the converted schemas have no other objects than copies of those of the definitions |
| `Mutants.Polarity` | scripts/check-model-coverage.py:110-133 | for every rewrite and every interpretation of its leaves: a mutant that drops a union child can only shrink the granted users, and every other one only grow them, under an even number of exclusions; under an odd number the directions are reversed |
| `Mutants.MutantsExactly` | scripts/check-model-coverage.py:110-133 | the generator makes exactly the single breaks: one applicable break at one site, and nothing else changed |
| `Mutants.MutantMeaning` | scripts/check-model-coverage.py:110-133 | for every mutant and every interpretation of the leaves: what stands at its site grants a user if and only if another child of the union than the dropped one does, all children of the intersection but that one do, some child does, or the base does |
| `Mutants.OutsideIsKept` | scripts/check-model-coverage.py:110-133 | a mutant leaves every part outside its site as it was |
| `Mutants.AncestorsAreKept` | scripts/check-model-coverage.py:120-133 | and the nodes its site lies in of the same kind with as many parts |
| `Mutants.ChildrenLeft` | scripts/check-model-coverage.py:114-117 | where a child is dropped the others stay in order, and a single one takes the place of the node |
| `Mutants.MutantCount` | scripts/check-model-coverage.py:110-133 | the number of mutants is the sum over nodes of k for a k-child union, k + 1 for an intersection and 1 for a difference |
| `Mutants.MutantsDistinct` | scripts/check-model-coverage.py:110-133 | no break of a site is made twice |
| `Mutants.MutantDiffers` | scripts/check-model-coverage.py:110-133 | every mutant differs from the original |
| `Mutants.NoDirectAppears` | scripts/check-model-coverage.py:136-144 | no break introduces a direct grant |
| `Mutants.HasDirectIff` | scripts/check-model-coverage.py:136-144 | a rewrite has a direct grant if and only if one stands at some site |
| `Mutants.MutantsKeepTypesValid` | scripts/check-model-coverage.py:212-231 | every mutant of a relation whose allowed types match its direct grants is valid in this respect too: one has the broken rewrite and keeps all allowed types or none, the other keeps the rewrite and all types but one, in order |
| `MutantNames.IdDeterminesMutant` | scripts/check-model-coverage.py:110-133 | mutants of one rewrite with the same description are the same mutant, whatever the names in the rewrite are |
| `MutantNames.HowUnionBreaksRead` | scripts/check-model-coverage.py:118 | how the drop of a union child is described |
| `MutantNames.HowOtherBreaksRead` | scripts/check-model-coverage.py:120-128 | how the other breaks are |
| `MutantNames.HowSitesRead` | scripts/check-model-coverage.py:122-130 | how sites are |
| `MutantNames.IdsDistinct` | scripts/check-model-coverage.py:217-224 | the descriptions yielded for the breaks of one rewrite are all different, whatever the names in it |
| `MutantNames.DescriptionsDistinct` | scripts/check-model-coverage.py:217-231 | so are all descriptions yielded for one relation, those of its dropped allowed types among them, if these have plain names |
| `MutantNames.TypeTextReads` | scripts/check-model-coverage.py:159-167 | allowed types with plain names read the same only if they are the same |
| `MutantNames.RelationIdsDistinct` | scripts/check-model-coverage.py:214-231 | everything yielded for a relation is described differently, as one list: its broken rewrites and, where there is more than one, its dropped allowed types |
| `MutantNames.IdsExactly` | scripts/check-model-coverage.py:214-231 | what is yielded for a relation: one description for each break of its rewrite, and one for each allowed type where there is more than one |
| `MutantNames.IdDeterminesRelation` | scripts/check-model-coverage.py:214-231 | when type and relation names are free of the characters # . : no description is yielded for two relations, neither of a broken rewrite nor of a dropped allowed type |
| `ModelMutants.ConditionTextsDistinct` | scripts/check-model-coverage.py:198-209 | everything yielded for a condition is described differently: its negation, each comparison flipped, each operand dropped |
| `ModelMutants.ConditionTextsExactly` | scripts/check-model-coverage.py:198-209 | which there are: the negation, one for each comparison, and one for each operand where there is more than one |
| `ModelMutants.ComparisonsAscend` | scripts/check-model-coverage.py:201-203 | the comparisons found in an expression stand at ascending positions |
| `ModelMutants.NoneMissed` | scripts/check-model-coverage.py:171-201 | no comparison of an expression is missed |
| `ModelMutants.FoundStands` | scripts/check-model-coverage.py:171-201 | and each one found stands at its place, with the = that follows it |
| `ModelMutants.FlipIsBoundary` | scripts/check-model-coverage.py:170 | flipping an order changes what it says of two numbers exactly where they are the same, flipping an equality everywhere |
| `ModelMutants.ModelIdsDistinct` | scripts/check-model-coverage.py:212-236 | no two mutants yielded for a model, of its relations or of its conditions, have the same description, so an exemption names one mutant; given plain names and nothing defined twice |
| `ConditionSplit.TopLevelSplit` | scripts/check-model-coverage.py:174-195 | the scanning loop returns the trimmed parts of the expression between the top-level operators |
| `ConditionSplit.SplitIsUndoneByJoining` | scripts/check-model-coverage.py:174-195 | for every string, joining the untrimmed parts on the operator gives the expression back, and each part is trimmed of white space only |
| `ConditionSplit.CutsAtTopLevel` | scripts/check-model-coverage.py:188-192 | every cut falls where the whole expression up to it has closed its quotes and brackets |
| `ConditionSplit.PartsAreWhole` | scripts/check-model-coverage.py:174-195 | every part splits to itself alone, and all but the last close what they open |
| `ConditionSplit.BracketsProtect` | scripts/check-model-coverage.py:180-187 | nothing is cut between (), [] or {} |
| `ConditionSplit.QuotesProtect` | scripts/check-model-coverage.py:180-187 | nor between two double or two single quotes, whatever stands there |
| `ConditionSplit.PlainIsCut` | scripts/check-model-coverage.py:188-192 | between texts without these eight characters the operator is a cut |
| `ConditionSplit.SpacesAre` | scripts/check-model-coverage.py:190 | the 29 characters strip() takes off |
| `ConditionSplit.DropOperand` | scripts/check-model-coverage.py:204-209 | the mutant without one operand splits to exactly the other operands, in order |
| `Dispatcher.InvInEveryRun` | docs/repos/cli/internal/requests/rampup.go:22-122 | over every interleaving of ticks, workers and cancellation: the dispatcher is where the schedule says, the semaphore holds one slot for each busy worker, and the calls made are those of the workers that have begun |
| `Dispatcher.StepKeepsInv` | docs/repos/cli/internal/requests/rampup.go:45-122 | each single event keeps all of that |
| `Dispatcher.RunsAreSafe` | docs/repos/cli/internal/requests/rampup.go:45-82 | in every run no request starts twice, only requests that exist do, at most maxInFlight run at once, and none runs once the dispatcher is back |
| `Dispatcher.NilMeansKnownCalled` | docs/repos/cli/internal/requests/rampup.go:68-73 | after a nil return, a request was called if and only if its index is below the length as an int32 |
| `Dispatcher.NilMeansAllCalledIff` | docs/repos/cli/internal/requests/rampup.go:43 | a nil return means that every request was called if and only if there are no more than an int32 can count |
| `Dispatcher.TooManyCallsNone` | docs/repos/cli/internal/requests/rampup.go:43 | with one request more, a run that returns nil in its first tick without having called anything |
| `Dispatcher.TicksInEveryRun` | docs/repos/cli/internal/requests/rampup.go:54-119 | in every run the dispatcher sees at most one tick for each minRPS requests and one more, and a nil return comes in the tick in which the schedule runs out of requests |
| `Dispatcher.FinishedInEveryRun` | docs/repos/cli/internal/requests/rampup.go:45-52 | in every run each call that was made and is not under way has come to its end, once |
| `Dispatcher.NeverStuck` | docs/repos/cli/internal/requests/rampup.go:54-121 | in every run with room for a request, a positive maximum, and a positive minimum unless there is no ramp, the dispatcher can go on until it is back: no deadlock between limiter, semaphore, wait group and workers |
| `Dispatcher.RunsAreFinite` | docs/repos/cli/internal/requests/rampup.go:54-121 | with such rates, a run that is not cancelled has at most 11 events for each request and 9 more, however ticks and workers interleave |
| `Dispatcher.AlwaysFinishesIff` | docs/repos/cli/internal/requests/rampup.go:28-121 | with rates in order, room for a request and no deadline: from every state of a run that is not cancelled the dispatcher can still return nil, if and only if the maximum is positive, and the minimum too unless there is no ramp |
| `Dispatcher.UnpacedNeverReturns` | docs/repos/cli/internal/requests/rampup.go:60-65 | with other rates no run ever calls a request or returns nil, and one that is not cancelled never returns: the limiter lets the second tick of the ramp never pass |
| `Dispatcher.NoRoomIsStuck` | docs/repos/cli/internal/requests/rampup.go:77 | with maxInFlight 0 the first request to be sent blocks it for good |
| `Dispatcher.ErrorHasReason` | docs/repos/cli/internal/requests/rampup.go:54-65 | in every run an error is returned only after a cancellation or with a deadline |
| `Dispatcher.CancelledCanReturn` | docs/repos/cli/internal/requests/rampup.go:54-121 | whatever the rates and whatever has happened, a cancelled dispatcher with room for a request can come back, without another tick and without the limiter |
| `RampSchedule.RampUp` | docs/repos/cli/internal/requests/rampup.go:54-121 | the two loops, with a termination measure: every request dispatched once and in order, each tick but the last using up its quota |
| `RampSchedule.Steady` | docs/repos/cli/internal/requests/rampup.go:91-121 | the loop after the ramp ends |
| `RampSchedule.DispatchTick` | docs/repos/cli/internal/requests/rampup.go:67-82 | the inner loop dispatches the next requests up to the quota, and stops early after the last one |
| `RampSchedule.NewLimit` | docs/repos/cli/internal/requests/rampup.go:84-85 | the limit set at the end of a tick is that of the next tick of the ramp |
| `RampSchedule.RateClimbs` | docs/repos/cli/internal/requests/rampup.go:28-39 | the rate never falls, stays within minimum and maximum, and is the maximum from tick period + 1 on |
| `RampSchedule.QuotaClimbs` | docs/repos/cli/internal/requests/rampup.go:67 | the same of what a tick may dispatch |
| `RampSchedule.RampIsLinear` | docs/repos/cli/internal/requests/rampup.go:28-85 | the ramp is a straight line: in tick n of the ramp the rate has gone (n - 1) of period parts of the way from minimum to maximum |
| `RampSchedule.QuotaIs` | docs/repos/cli/internal/requests/rampup.go:67 | a tick may dispatch the whole number below its rate, and nothing at a negative rate |
| `RampSchedule.DispatchedAfterRamp` | docs/repos/cli/internal/requests/rampup.go:54-119 | after the ramp at least minRPS for each of its ticks and maxRPS for each later one are dispatched |
| `RampSchedule.TicksBounded` | docs/repos/cli/internal/requests/rampup.go:54-119 | at most total / minRPS ticks pass without exceeding total requests, so all are dispatched, and the end noticed, within total / minRPS + 1 ticks |
| `RampSchedule.NoPeriodStillStartsLow` | docs/repos/cli/internal/requests/rampup.go:36-39 | with a period of 0 one tick still runs at the minimum rate, contrary to the comment |
| `ImportChunks.GetImportChunk` | docs/repos/cli/internal/tuple/import.go:255-292 | the writes and deletes of one chunk, at most maxTuplesPerWrite together |
| `ImportChunks.ChunkFits` | docs/repos/cli/internal/tuple/import.go:255-292 | a chunk never exceeds maxTuplesPerWrite |
| `ImportChunks.BuildRequests` | docs/repos/cli/internal/tuple/import.go:185-240 | every chunk that holds anything has its request; leaving the loop at an empty chunk skips none |
| `ImportChunks.WritesAllSent` | docs/repos/cli/internal/tuple/import.go:260-272 | all chunks together carry every write, once and in order |
| `ImportChunks.DeletesSentExactly` | docs/repos/cli/internal/tuple/import.go:278-289 | all chunks together carry the delete at position p if and only if p mod M < M - (number of writes) mod M, once and in order |
| `ImportChunks.NothingLostIff` | docs/repos/cli/internal/tuple/import.go:255-292 | no delete is lost if and only if there are none, or (number of writes) mod M = 0, or (number of deletes) <= M - (number of writes) mod M |
| `ImportChunks.AcceptedIff` | docs/repos/cli/internal/tuple/import.go:49-88 | which parameters are accepted, and what is objected to otherwise |
| `ImportChunks.ImportSendsEveryChunk` | docs/repos/cli/internal/tuple/import.go:197-248 | with accepted parameters, a nil return of the ramp-up means that every request with a chunk was sent, once |
| `ImportChunks.ImportDelivers` | docs/repos/cli/internal/tuple/import.go:197-248 | end to end: after a nil return, the requests that were called carry together every write once and of the deletes exactly those that are kept, as multisets, in whatever order they were called |
| `ImportReport.Process` | docs/repos/cli/internal/tuple/import.go:317-367 | the loop over the statuses of a reply parts its tuples into the successful and the failed, in order: each listed as often as the statuses say so of it |
| `ImportReport.ImportResponse.constructor` | docs/repos/cli/internal/tuple/import.go:182 | the response starts empty |
| `ImportReport.ImportResponse.Record` | docs/repos/cli/internal/tuple/import.go:217-239 | what a request does with its reply: writes and then deletes are appended to the two lists, and nothing changes when its call erred |
| `ImportReport.ReportHolds` | docs/repos/cli/internal/tuple/import.go:231-236 | in whatever order the calls end, the response holds exactly what their replies say, as multisets |
| `ImportReport.ReportCounts` | docs/repos/cli/internal/tuple/import.go:217-239 | in whatever order calls end, a tuple is reported as successful as often as the replies to those that ended state its success, and as failed as often as they state its failure |
| `ImportReport.AllSucceeded` | docs/repos/cli/internal/tuple/import.go:211-248 | an import all of whose calls answer with successes only reports every write, and every delete that is kept, as successful and none as failed |
| `ImportReport.ImportReports` | docs/repos/cli/internal/tuple/import.go:211-248 | after a nil return the caller is told of every write, and every delete that is kept, once, as successful or failed, but of the tuples of a request whose call erred not at all |
| `ImportReport.AllReportedIff` | docs/repos/cli/internal/tuple/import.go:211-248 | so every tuple sent is reported if and only if no call of a request that sends anything erred |
| `ImportChunks.ImportEndsIff` | docs/repos/cli/internal/tuple/import.go:49-58 | an import that is accepted, with rates that are not zero, always gets to its nil return if and only if maxRPS is positive, and minRPS too unless there is no ramp |
| `ImportChunks.ScheduleReachesIff` | docs/repos/cli/internal/requests/rampup.go:28-121 | the schedule alone, without the limiter's waits, gets to any number of requests if and only if maxRPS is positive |
| `ImportChunks.NegativeRatesAccepted` | docs/repos/cli/internal/tuple/import.go:49-58 | a minimum of -1 with a period of 5 passes the validation for a maximum of 10 or -1, and no run of such an import sends anything or, unless cancelled, ends |
| `BatchCheck.UniqueCorrelationIds` | api/src/api.ts:46-55 | the issues reported are the positions whose id has come before |
| `BatchCheck.RepeatsExactly` | api/src/api.ts:46-55 | these are exactly the positions of which an earlier one has the same id, in order |
| `BatchCheck.NoIssueIff` | api/src/api.ts:46-55 | no issue is reported if and only if all ids are different |
| `BatchCheck.ChunkArray` | docs/repos/js-sdk/utils/chunk-array.ts:1-10 | the splicing loop computes the batches |
| `BatchCheck.ChunksPartition` | docs/repos/js-sdk/utils/chunk-array.ts:1-10 | the batches put together are the input |
| `BatchCheck.ChunkSizes` | docs/repos/js-sdk/utils/chunk-array.ts:5-7 | no batch is empty or too large, and all but the last are full |
| `BatchCheck.Prepare` | docs/repos/js-sdk/client.ts:741-768 | missing ids are drawn; the items are refused if and only if two ids are the same, before anything is sent |
| `BatchCheck.FilledAt` | docs/repos/js-sdk/client.ts:741-768 | each check keeps its tuple, and its id if it has one |
| `BatchCheck.Collect` | docs/repos/js-sdk/client.ts:786-803 | the results are the entries for known ids in the order of arrival |
| `BatchCheck.KnownAppend` | docs/repos/js-sdk/client.ts:786-803 | entry by entry, and no other |
| `BatchCheck.Answers` | api/src/openfga.ts:219-229 | one answer per check in request order: the decision of the last result for its id, the first text of its error, or that there is none |
| `BatchCheck.Receive` | docs/repos/js-sdk/client.ts:773-787 | the replies in the order they arrive, or a failure if any batch's call failed |
| `BatchCheck.ArrivalsAt` | docs/repos/js-sdk/client.ts:773-787 | the i-th reply to arrive is that of the i-th batch in the order of arrival |
| `BatchCheck.RunBatchCheck` | api/src/openfga.ts:212-230 | end to end, for unique ids, any batch size and any order of arrival: one answer per check in request order unless a batch failed; the very decision of the last entry that arrived for its id if that carries no error, else the first text of its error, or that OpenFGA gave no result |
| `BatchCheck.ArrivalOrderIsIrrelevant` | docs/repos/js-sdk/client.ts:786-801 | if OpenFGA answers a batch only about its own checks, the order of arrival does not matter |
| `BulkWrite.SendChunks` | docs/repos/js-sdk/client.ts:549-590 | the loop over the answered chunks, each with its own fate; only a failed authentication ends it |
| `BulkWrite.EveryTupleReported` | docs/repos/js-sdk/client.ts:549-592 | in whatever order chunks are answered and however they fare, the tuples reported are exactly those passed in, as multisets |
| `BulkWrite.StatusIsTheChunks` | docs/repos/js-sdk/client.ts:555-567 | there is one report for each tuple of each chunk, about the tuple at that very position, and it says whether the chunk it was sent in was stored; equal tuples in different chunks are told apart |

## Left out

- Heap sharing of JSON documents: the code overwrites maps and slices in place; the model rewrites values in the same order, and does not capture that a refused document is left half rewritten.
- `normalizeOutput`, `collectExamples`, `cloneJSON`, `equalJSON` and the other checks of `validate.go`: restoring defaults, counting examples, copying and comparing encodings, which would add only easy members.
- References under `#/parameters/` and `#/responses/`: they are renamed as the code does, but the conversion of the sections they point into happens in a converter that is not part of this model.
- Merging of an `allOf` that already stands beside a `$ref`: it becomes part of the siblings, as in the code; `MeaningKept` covers it, and no flattening is modelled.
- The cache, timeout and retry operators of the effect runtime, `rate.Limiter`, Go's scheduler and the library's promise pool: only the behaviour the code relies on (single flight, time to live, compare and invalidate, bounded concurrency, any order of completion). A limiter passes its first wait, and later ones only at a positive rate; its waits fail when the context is cancelled or has a deadline, and how long they take is not modelled.
- Cancelling of the HTTP call by a timeout, the delay between two rounds of the retry policy, and the health and model endpoints of the service.
- AttemptHttpRequest: telemetry is not modelled, Retry-After dates are given as their distance in milliseconds, and random numbers as reals in [0, 1).
- RampUp: rates are rationals, so rounding of floating-point rates is not modelled; with a period of 0 the unused increment, which is infinite or undefined, is taken as 0.
- Termination of `ChunkArray` for a batch size below 1, where the original does not terminate.
- ImportReports: a call that does not err is taken to answer with one status for each tuple of its request, as the client library that makes it is not part of this model; appending to the response, which a mutex guards, is one step; the reasons of failed tuples are not modelled.
- The import without a ramp, which is one call of the client library.
- Prepare: drawn ids are arbitrary strings, and writing them into the caller's own check objects is not modelled.
- SendChunks: the requests themselves, their headers and conflict options; writes and deletes are the same loop, run one after the other.
- TokenCache: the methods without an exchange (no credentials, a fixed token), building the request and signing assertions; a failure of these is the `Failed` end of an exchange.
- JSON parsing is an abstract function that ignores JSON white space around a text and accepts no text that starts or ends with other white space.
- StreamAdapter.Adapter.CallReturn: the call of destroy() on the source is not modelled, as it acts on the source alone.
- A consumer that stops reading the NDJSON stream early, and `throw()` of the adapter's iterator.
- What dropped or flipped operands of a condition mean, and flipped comparisons: the splitter ignores operator precedence, so only the string-level property is claimed.
- Schemas, configuration, error texts, command-line flags, formatters, sockets, TLS and files.
