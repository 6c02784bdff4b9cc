# Pulse: verified models of the ingest, polling and analysis kernels

Pulse turns producer telemetry into per-call analyses. This project models the parts of it whose
correctness spans several functions or whole runs, and proves what they promise.

| module | models |
|---|---|
| `Otlp`, `Shard`, `Assembly` | the OTLP payload (OpenTelemetry Protocol Specification, section "JSON Protobuf Encoding"), sharding it per call in Python and in Go, decoding and assembling it again |
| `IngestStore`, `BatchIdentity`, `RowMarks`, `Readiness`, `Erasure` | one org's rows, fragments, tombstones and runs, and the transactions of the analysis consumer, as a class and as functions on store values; which call a batch belongs to, what each transaction leaves on the rows, when a call is analysed, and what an erasure leaves |
| `IngestSteps`, `IngestSafety`, `ExactlyOnce`, `Confluence`, `CallPayloads`, `IngestLimits`, `IngestConditions`, `PayloadConditions`, `FlushBlocked` | runs of those transactions: what every run keeps, exactly-once effect, independence of arrival order, the payload from the producer's post to the analysis, the exact conditions under which these promises hold, and what a failing call does to the grace flush |
| `Poller`, `PollerRuns` | discovery in a store listing, one agent's sweep, and runs of writers, sweeps, failures and crashes |
| `Intervals`, `TimeMetrics`, `DeadAir` | the interval algebra, the audio metrics computed with it, and what the dead-air threshold measures |
| `EditDistance`, `Vad`, `Runs` | the two-row word error rate, the hangover state machine, run extraction by edge differencing |
| `EventTurns`, `TurnFields`, `TurnSpans`, `TurnIds` | turns from an event timeline, field by field, one span per exchange, turn ids through the span tree and their LiveKit pairing |
| `TokenCache` | the linked-list and map token cache against a history of puts and gets |
| `Options`, `Seqs`, `Sorting`, `Dicts` | an optional value, the ends of a list, Python's stable `sorted`, the insertion-ordered `dict` |

A function that the source writes as a loop, or that changes rows or objects, is a method here, proved
equal to a function on values; the theorems are lemmas about those functions. Database transactions are
atomic steps. An analysis ends in one of three ways the model leaves open: rows written, unsupported
schema, or any other exception, which rolls the transaction back. Times are integers: ticks of 0.1 ms in
the metrics, one common clock in the poller.

## What the proofs found

- **Exactly once** holds under a condition the code does not check. For records that have a trace, with call ids
  that are no trace ids, every run stores each record once if and only if no trace carries two call ids one of
  which occurs on another trace as well (`IngestConditions.ExactlyOnceIff`); `IngestLimits.TwoIdsExample` has
  three such records, one of which is stored twice. A record with neither call id nor trace is stored again at
  every redelivery (`IngestLimits.RedeliveryIdempotentIff`).
- **Order independence** of the grouping holds for the same records if and only if call ids and the traces they
  occur on correspond one to one (`IngestConditions.OrderMattersIff`). The payload a call is analysed from is then
  independent of order if and only if no two records of its trace with one sequence number disagree on a span
  (`PayloadConditions.PayloadsDifferIff`).
- **"Last write wins"** (src/voiceobs/worker/process.py:60-61) is by the number a record has within its own batch,
  not by time: a retry sent in a later batch loses to an earlier body with a greater number
  (`PayloadConditions.EarlierWriteWins`, with two records in `PayloadConditions.RetryLoses`). The last write wins
  in every run if and only if no two records of a trace with different numbers disagree on a span
  (`PayloadConditions.LastWriteWinsIff`).
- **Erasure** tombstones the id the row has at that moment. A straggler that resolves to another id, such as
  the bare trace id, brings the call back; the "un-resurrectable call" of the tombstone docstring
  (src/voiceobs/db/models.py:491-492) is exact only as `IngestLimits.StragglerDroppedIff` says;
  `IngestLimits.StragglerReturns` has a run in which the call is back.
- **The grace flush** is one transaction: a call that raises anything but unsupported schema undoes the whole
  batch (`IngestSafety.FlushMovesIff`). Once it has waited out the grace and is within reach of a batch it stays
  there, since what becomes due later stands behind it, and no sweep changes anything for as long as it fails
  (`FlushBlocked.BlockedForever`). The exception also leaves the loop over orgs
  (src/voiceobs/worker/run.py:91-107), so the orgs after it are not flushed either.
- **The poller watermark** is called a cost optimisation and not a correctness dependency
  (src/voiceobs/worker/poller.py:12-14). A call that fails and is passed by a later success of the same sweep
  is never processed again until one of its objects is rewritten, whatever sweeps came before
  (`PollerRuns.SweepSafeIff`, `PollerRuns.LostUntilRewritten`, with a run in `PollerRuns.FailureLosesCall`); a crash
  loses calls that tie with the last commit (`PollerRuns.CrashSafeIff`, with a run in `PollerRuns.CrashLosesCall`); a
  grace of zero loses writes of the same tick (`PollerRuns.GraceNeeded`).
- **Sharding**: the Go comment allows for gaps in the sequence numbers left by empty groups
  (services/ingest/shard.go:69-70); no group is ever empty, so there are none (`Shard.GroupsNonEmpty`). The two
  services send the same records if and only if they key every span alike (`Shard.ServicesAgreeIff`), which they
  do if and only if Python's rendering of the last call id and Go's of the first come to the same
  (`Shard.KeysAgreeIff`); a repeated id or a false one can differ (`Shard.ServicesCanDisagree`).
- **Inverted windows**, of spans that end before they start, are passed on by `_agent_intervals`. With one, the
  agent's share of the call can be negative and time go missing (`TimeMetrics.InvertedWindowLosesTime`), or dead
  air exceed the call (`TimeMetrics.DeadAirExceedsDuration`). If nothing but inverted windows starts before zero,
  time is conserved if and only if no inverted one ends before zero or before an end that comes earlier in order
  (`TimeMetrics.TimeConservedIff`).
- **Empty windows**, of spans that start and end at once, split a silence in two: ten ticks of it with such a window in
  the middle have no dead air at a threshold of six (`DeadAir.EmptyWindowSplitsSilence`). Dead air counts the ticks of
  long silences, at every threshold, if and only if no empty interval of speech or padding lies between two silent
  ticks (`DeadAir.DeadAirIsLongSilence`).
- **Windows before zero**, which subtracting the clock offset allows, can give a share above one: a span from -10 to
  10 in a call of 10 ticks speaks twice the whole time (`TimeMetrics.EarlyWindowExceeds`); exactly when a share stays
  within one is in `TimeMetrics.TalkRatioBounds`.
- **`complement`** does not clip at the duration: with an interval that starts past it the gaps run on to that
  start (`Intervals.ComplementExactIff`).
- **One span per exchange**: the choice depends on the order of the spans if and only if two different spans of an
  exchange tie for first; ties further down do no harm (`TurnSpans.ChoiceIgnoresOrderIff`).
- **Turn ids**: with repeated span ids the walk can take a different span for one already seen
  (`TurnIds.RepeatedIdHidesATurn`). This is about the function alone: the worker calls it on a payload that
  `assemble` has left with one span per id (src/voiceobs/worker/process.py:57-71), where `TurnIds.DistinctAlwaysFills`
  holds. An `agent_turn` before every `user_turn` goes to the last of them
  (`TurnIds.EarlyAgentTurnGoesLast`).
- **Token cache**: a key within its time to live is lost if and only if a put of a new key into the full cache
  finds it in last place (`TokenCache.FreshKeyHitIff`). So it survives fewer than `cap` other touched keys, and can
  survive more (`TokenCache.TouchesNeedNotEvict`).

## Model

| member | source | states |
|---|---|---|
| `Otlp.DecodeSlice` | src/voiceobs/ingestion.py:73-117 | decoding a slice gives back its resource and its spans |
| `Shard.ShardPayload` | src/voiceobs/ingestion.py:60-70 | the nested loops compute the fold of `setdefault` and `append` over the flattened spans |
| `Shard.FlattenIs` | src/voiceobs/ingestion.py:63-69 | the items are the spans of the payload in wire order (block, scope, place), each exactly once, with its own block's resource |
| `Shard.FirstSeenIs` | src/voiceobs/ingestion.py:68-69 | one key for each position at which a key occurs for the first time, in that order |
| `Shard.OfKeyPicks` | src/voiceobs/ingestion.py:68-69 | the items of a key are those whose span has it, all of them, in their order |
| `Shard.GroupByExact` | src/voiceobs/ingestion.py:60-70 | distinct keys in first-seen order; each group is the subsequence of spans with that key under the resource that introduced it; nothing lost or duplicated |
| `Shard.GroupsNonEmpty` | src/voiceobs/ingestion.py:84-86 | no group is empty, so the skip never happens and sequence numbers have no gaps |
| `Shard.Produce` | src/voiceobs/ingestion.py:79-96 | one record per group, numbered in order |
| `Shard.RecordCarriesItsSpans` | src/voiceobs/ingestion.py:79-117 | decoding the n-th record gives exactly the spans of the n-th distinct key, in wire order |
| `Shard.RecordHeaders` | src/voiceobs/ingestion.py:79-96 | the n-th record names its key, caller, agent, batch, number and the trace id of its first span that has one, and is sent under its key, else its trace id, else its batch |
| `Shard.GoShard` | services/ingest/shard.go:23-64 | the map-plus-order loops give the groups of the stable group-by, in order |
| `Shard.BuildRecords` | services/ingest/shard.go:71-99 | the Go records are those of the group-by under the Go key |
| `Shard.KeysAgreeIff` | services/ingest/shard.go:23-64 | the services key a span alike if and only if Python's rendering of its last call id and Go's of its first, each with the trace id in place of an empty one, are the same |
| `Shard.PlainKeysAgree` | services/ingest/shard.go:23-64 | so they do when the call id is a string given at most once |
| `Shard.OneValueKeys` | services/ingest/shard.go:23-64 | text and true are keyed alike, false counts as missing for Python alone, and of any other value Python takes its text if it is true |
| `Shard.ServicesAgreeIff` | services/ingest/shard.go:71-99 | both services send the same records, key, sequence number and value alike, if and only if they key every span of the payload alike |
| `Shard.ServicesCanDisagree` | services/ingest/shard.go:23-64 | a repeated call id and a boolean false call id give different keys |
| `Assembly.Assemble` | src/voiceobs/worker/process.py:57-71 | the loops compute the first non-empty resource and the dict by span id over all spans in fragment order |
| `Assembly.AssembledExactly` | src/voiceobs/worker/process.py:57-71 | pairwise distinct span ids, exactly the ids given, each with its last body |
| `Assembly.FirstResourceIs` | src/voiceobs/worker/process.py:57-71 | the resource is that of the first block that has one |
| `Assembly.LaterOverrides` | src/voiceobs/worker/process.py:60-61 | assembling xs then ys is assembling xs overridden by assembling ys |
| `Assembly.OrderIndependent` | src/voiceobs/worker/process.py:57-71 | when equal ids carry equal bodies the result does not depend on fragment order or repetition |
| `Assembly.OrderIndependentIff` | src/voiceobs/worker/process.py:57-71 | all reorderings give the same result if and only if equal ids carry equal bodies |
| `Assembly.RoundTrip` | src/voiceobs/worker/process.py:57-71 | archiving slices and assembling them holds each id's last sent body |
| `IngestStore.OrgStore.UpsertCall` | src/voiceobs/ingestion.py:124-158 | the row updates in place equal the store function `Upsert`: find by id, else promote by trace, else add |
| `IngestStore.OrgStore.AddFragment` | src/voiceobs/ingestion.py:161-178 | the buffer after a fragment, idempotent per row, batch and number |
| `IngestStore.OrgStore.AnalyseCall` | src/voiceobs/worker/run.py:48-59 | the row and the runs after an analysis that does not abort |
| `IngestStore.OrgStore.HandleRecord` | src/voiceobs/worker/run.py:62-82 | the whole new store, including the rollback of a failed analysis; a call is queued for judging exactly when a run was recorded |
| `IngestStore.OrgStore.FlushDue` | src/voiceobs/worker/run.py:85-108 | the whole new store of one org's flush; a failed analysis restores the old one; the count is that of the rows taken |
| `IngestStore.OrgStore.EraseCall` | src/voiceobs/api/ingest.py:183-198 | the store after tombstone and deletes, fragments and runs included, or unchanged when the id is unknown |
| `IngestStore.OrgStore.Register` | src/voiceobs/api/ingest.py:118-145 | the row after a new artifact |
| `BatchIdentity.HintIs` | src/voiceobs/ingestion.py:46-57 | the call id a batch gives is the last one of its resource's attributes that reads as true, else that of the first span without a parent, else that of the first span that has one |
| `BatchIdentity.CallIdExact` | src/voiceobs/ingestion.py:100-109 | a batch belongs to the call it gives; else, by the trace id of its first span that has one, to the call of the row with that trace, or to the trace id itself; else to none |
| `RowMarks.BatchMarksRow` | src/voiceobs/ingestion.py:124-158 | taking in a batch changes one row or adds one, field by field: complete exactly if it was or some span has no parent |
| `RowMarks.ArtifactMarksRow` | src/voiceobs/api/ingest.py:118-145 | an artifact changes the row of its call, field by field, and an unknown id nothing |
| `Readiness.DeliveryAnalyses` | src/voiceobs/worker/run.py:40-82 | a delivery that is not dropped does no more than take in its batch unless the row it finds is complete, has audio, is supported and not analysed at this version; then what each of the three outcomes leaves |
| `Readiness.RunAppendedIff` | src/voiceobs/worker/run.py:40-82 | a delivery records a run if and only if it is not dropped, finds such a row and the analysis succeeds |
| `Readiness.OnlyRipeRowsAnalysed` | src/voiceobs/worker/run.py:62-82 | in every run of steps, a delivery that records a run does so for a row that is complete and has audio |
| `Readiness.FlushTakes` | src/voiceobs/worker/run.py:93-99 | a flush takes rows that are complete, have audio or were quiet since before the cutoff, are supported and not analysed at this version; in order of activity, as many as fit, the least recently active first |
| `Readiness.FlushWrites` | src/voiceobs/worker/run.py:85-108 | a flush in which none fails writes each row it takes by its outcome, no other, and records one run for each that succeeds, in order; one in which one fails changes nothing |
| `Erasure.ErasesExactly` | src/voiceobs/api/ingest.py:183-198 | after an erasure no row, fragment or run bears the key, every other one is still there, in order, and the id is tombstoned |
| `Erasure.UnknownNotErased` | src/voiceobs/api/ingest.py:183-198 | an unknown id leaves the store alone |
| `Erasure.ErasedForGood` | src/voiceobs/api/ingest.py:183-198 | in every run nothing ever bears the key of an erased call again, whatever is delivered |
| `IngestSteps.UpsertPuts` | src/voiceobs/ingestion.py:124-158 | an upsert replaces one row or adds one, keeps its key, and renames only a row of the same trace when no row has the id |
| `IngestSteps.HandleIs` | src/voiceobs/worker/run.py:62-82 | a delivery is dropped, rolled back, or assembled and then analysed only if pending |
| `IngestSteps.TakenAreDue` | src/voiceobs/worker/run.py:93-99 | a flush takes due rows, each once, and `min(batch, due)` of them |
| `IngestSafety.NoRowIsTombstoned` | src/voiceobs/api/ingest.py:183-198 | in every run no row bears a tombstoned id, ids are unique, and an erasure always writes a new tombstone |
| `IngestSafety.CompleteForever` | src/voiceobs/ingestion.py:143-144 | in every run `spans_complete` is never cleared |
| `IngestSafety.KeysNeverReused` | src/voiceobs/ingestion.py:124-158 | row keys are never reused: a row whose key was given out by some point of the run is a row of that point |
| `IngestSafety.NeverTwiceInARow` | src/voiceobs/worker/run.py:40-45 | whatever versions the workers run at, a row is never analysed twice in a row at the same one |
| `IngestSafety.OncePerVersion` | src/voiceobs/worker/process.py:275 | when versions only go up, the versions a row is analysed at strictly increase: at most once each |
| `IngestSafety.FlushShrinks` | src/voiceobs/worker/run.py:85-108 | a committed flush shrinks the due set by `min(batch, due)` and adds nothing |
| `IngestSafety.FlushMovesIff` | src/voiceobs/worker/run.py:85-108 | a flush with due rows makes progress if and only if none of the rows it takes fails |
| `FlushBlocked.TakenAgain` | src/voiceobs/worker/run.py:93-99 | a row that has waited out the grace and is taken is taken at every later cutoff while nothing moves |
| `FlushBlocked.BlockedForever` | src/voiceobs/worker/run.py:85-108 | if such a row fails, no number of later sweeps changes the store |
| `IngestSafety.Drains` | src/voiceobs/worker/run.py:85-108 | once quiet, n committed flushes leave exactly `due - n * batch` rows due, or none |
| `IngestSafety.DrainsEmpty` | src/voiceobs/worker/run.py:85-108 | as many flushes as due rows empty the queue, at every later cutoff too |
| `IngestSafety.AudioMakesDueIff` | src/voiceobs/api/ingest.py:135-144 | new audio makes a call due at once, if and only if its spans are complete and it was not analysed at this version, an unsupported call included |
| `ExactlyOnce.HomeUnique` | src/voiceobs/ingestion.py:100-158 | a record belongs to at most one row |
| `ExactlyOnce.Lands` | src/voiceobs/ingestion.py:100-158 | a batch lands on a row that owns it; a row's trace never changes, and its id only from the trace id to a call id, or among the call ids of a trace that has several |
| `ExactlyOnce.StoresOnce` | src/voiceobs/ingestion.py:161-171 | storing a fragment adds one for a new record and none for a delivered one, although its row may have been renamed |
| `ExactlyOnce.OneFragmentEach` | src/voiceobs/worker/run.py:62-82 | after every run over records with no crossed ids each delivered record has exactly one fragment with its key, holding its slice, on the row a redelivery would land on; fragments and delivered records are equally many; ids and traces are unique |
| `ExactlyOnce.SameRowForever` | src/voiceobs/ingestion.py:100-158 | every later redelivery resolves to the same row, however it was renamed in between, several call ids on its trace included |
| `Confluence.AssemblyIsExact` | src/voiceobs/ingestion.py:100-178 | after every run the calls are one per trace, under the call id if any record carried it, complete if any had a root, with each record's slice once |
| `Confluence.OrderDoesNotMatter` | src/voiceobs/ingestion.py:100-178 | two runs that deliver the same records, in any order and with any duplicates, group them into the same calls |
| `CallPayloads.PayloadIsWhatWasSent` | src/voiceobs/worker/process.py:84-90 | after every run a call's payload has exactly the span ids its trace's delivered records carried, each with the last body in the order of sequence numbers |
| `CallPayloads.PayloadsConfluent` | src/voiceobs/worker/process.py:84-90 | when no two records of a trace with one sequence number disagree on a body, any two runs over the same records analyse each call from the same spans |
| `CallPayloads.ArchiveIsWire` | src/voiceobs/ingestion.py:73-117 | the slice the consumer archives is the value the producer sent |
| `CallPayloads.PostedIsAssembled` | src/voiceobs/ingestion.py:79-178 | produce, deliver, store and assemble in one: once every record of some posts has been delivered, in any order and any number of times, each posted span's trace has its call, and each call's payload holds exactly the ids posted on its trace, each with its last body |
| `IngestLimits.RedeliveryIdempotentIff` | src/voiceobs/ingestion.py:161-178 | a redelivery adds no fragment if and only if the record has a call id or a trace |
| `IngestLimits.TwoIdsOnOneTrace` | src/voiceobs/ingestion.py:124-158 | two call ids on one trace, one of them on another trace too: after the third record a redelivery of the first is filed a second time, on another row |
| `IngestLimits.TwoIdsExample` | src/voiceobs/ingestion.py:124-158 | concrete records for which that happens |
| `IngestLimits.SharedIdOrderMatters` | src/voiceobs/ingestion.py:100-158 | one call id on two traces gives one row or two, depending on arrival order |
| `IngestConditions.ExactlyOnceIff` | src/voiceobs/ingestion.py:100-178 | over a set of records with traces and ids apart, every run stores each delivered record once if and only if the set has no such three records |
| `IngestConditions.OrderMattersIff` | src/voiceobs/ingestion.py:100-178 | all pairs of runs that deliver the same records group them alike if and only if the call ids and the traces they occur on correspond one to one |
| `PayloadConditions.PayloadsDifferIff` | src/voiceobs/worker/process.py:84-90 | given that, all such runs analyse each trace from the same spans if and only if no two of its records with one sequence number disagree on a body |
| `PayloadConditions.TwoPayload` | src/voiceobs/worker/process.py:84-90 | of two records of a trace the one with the greater number has the last word, whenever it came; with equal numbers the later one |
| `PayloadConditions.EarlierWriteWins` | src/voiceobs/worker/process.py:57-90 | the record with the smaller number, delivered last, loses: the payload has the earlier body and the order of arrival the later |
| `PayloadConditions.RetryLoses` | src/voiceobs/worker/process.py:57-90 | two concrete records for which that happens |
| `PayloadConditions.LastWriteWinsIff` | src/voiceobs/worker/process.py:57-90 | every run analyses each call from what was stored last under each span id if and only if no two records of a trace with different numbers disagree on a body |
| `IngestLimits.StragglerDroppedIff` | src/voiceobs/worker/run.py:72-75 | after an erasure a late record of the trace is dropped if and only if its call id, or without one its trace id, is tombstoned; otherwise the call is back under that id |
| `IngestLimits.StragglerReturns` | src/voiceobs/worker/run.py:72-75 | a delivery, an erasure and a late record after which the erased call is back under its trace id |
| `Poller.DiscoverWindowed` | src/voiceobs/integration/runtime.py:97-128 | the loops over objects and rules compute the grouping and the window |
| `Poller.MatchIs` | src/voiceobs/integration/runtime.py:111-123 | an object belongs to the call that the first rule to match it captures, under that rule; if that capture is empty, to none |
| `Poller.GroupedExactly` | src/voiceobs/integration/runtime.py:110-123 | a call is grouped if and only if it has an object, with all its objects in listing order and the newest time among them |
| `Poller.DiscoveredExactly` | src/voiceobs/integration/runtime.py:124-128 | discovery returns exactly the calls whose newest object is after the watermark and not after the cutoff, each once |
| `Poller.QueueExactly` | src/voiceobs/worker/poller.py:68 | the sweep order: those calls, by newest time |
| `Poller.AgentRow.PollAgent` | src/voiceobs/worker/poller.py:59-86 | the watermark the sweep leaves in the row, and the calls to judge, for every pattern of failures |
| `Poller.CommitMarks` | src/voiceobs/worker/poller.py:80-82 | each commit moves the watermark to exactly its own call's newest time |
| `Poller.JudgedIs` | src/voiceobs/worker/poller.py:74-86 | the calls to judge are exactly those processed with a judgeable status, in the order of the queue |
| `PollerRuns.SettledIsQueued` | src/voiceobs/integration/runtime.py:124-128 | a settled call ahead of the watermark is in the next sweep, whatever happened to it before |
| `PollerRuns.NextInv` | src/voiceobs/worker/poller.py:59-86 | the invariant of writes, sweeps, failures and crashes is kept by every step, given a positive grace |
| `PollerRuns.WatermarkExact` | src/voiceobs/worker/poller.py:59-86 | after every run, every call the watermark has passed was last processed with its current objects if and only if it has passed no call whose last attempt failed or was cut off |
| `PollerRuns.NoSettledCallLost` | src/voiceobs/worker/poller.py:59-86 | so without failures and crashes no settled call is lost, in any run |
| `PollerRuns.CrashSafeIff` | src/voiceobs/worker/poller.py:80-82 | a crash between commits is safe if and only if no queued call ties with the last commit, unless rewritten |
| `PollerRuns.CrashLosesCall` | src/voiceobs/worker/poller.py:80-82 | a run from the start, at any positive grace, in which a crash between two calls that tie loses one |
| `PollerRuns.SweepIs` | src/voiceobs/worker/poller.py:68-82 | from any state, the state machine's sweep leaves the watermark that `PollAgent` leaves in the row, and skipped are the calls that failed in it or were skipped before and did not come up |
| `PollerRuns.SweepSafeIff` | src/voiceobs/worker/poller.py:77-82 | after any run that kept the claim, a sweep with failures keeps it if and only if every failed call is newer than the final watermark |
| `PollerRuns.SweepClaimIff` | src/voiceobs/worker/poller.py:68-82 | the same from any point in a sweep, with writes since its listing: every failed call is newer than the final watermark or rewritten, and every call skipped before that does not come up lies ahead of it |
| `PollerRuns.FailureLosesCall` | src/voiceobs/worker/poller.py:77-82 | a run from the start, at any positive grace, in which a failed call is passed by a later success of the sweep and lost |
| `PollerRuns.CallsGetLost` | src/voiceobs/worker/poller.py:59-86 | both runs with a concrete rule, at every positive grace |
| `PollerRuns.LostUntilRewritten` | src/voiceobs/worker/poller.py:77-82 | a call the watermark has passed is never processed again until it is written to |
| `PollerRuns.GraceNeeded` | src/voiceobs/worker/poller.py:41 | with a grace of zero a write in the tick of the listing is lost with no failure at all |
| `EditDistance.Wer` | src/voiceobs/groundtruth/text.py:16-30 | the two-row loops compute the last cell of the full table, over the reference length, with the empty-reference cases |
| `EditDistance.NoCheaperScript` | src/voiceobs/groundtruth/text.py:21-29 | no insert, delete and substitute script costs less than the distance of what it rewrites |
| `EditDistance.LeastCost` | src/voiceobs/groundtruth/text.py:21-29 | the distance is the minimum cost over all scripts, and attained |
| `EditDistance.Symmetric` | src/voiceobs/groundtruth/text.py:21-29 | the distance is symmetric |
| `EditDistance.Triangle` | src/voiceobs/groundtruth/text.py:21-29 | the triangle inequality, by composing scripts |
| `EditDistance.ZeroIffEqual` | src/voiceobs/groundtruth/text.py:21-29 | zero if and only if the word lists are equal |
| `EditDistance.Bounds` | src/voiceobs/groundtruth/text.py:21-29 | between the difference of the lengths and the longer length |
| `EditDistance.WerZeroIffIdentical` | src/voiceobs/groundtruth/text.py:16-30 | the rate is zero exactly for identical texts, empty ones included |
| `EditDistance.WerIsLeastErrors` | src/voiceobs/groundtruth/text.py:16-30 | the rate times the length of the reference is the cost of a cheapest script, and the values for an empty reference |
| `Intervals.Merge` | src/voiceobs/core/audio/intervals.py:8-20 | the loop that updates `merged[-1]` computes the coalescing of the sorted list |
| `Intervals.MergedExact` | src/voiceobs/core/audio/intervals.py:8-20 | the same points as the input, sorted and strictly apart |
| `Intervals.MergedTwice` | src/voiceobs/core/audio/intervals.py:8-20 | merging a merged list changes nothing, inverted intervals included |
| `Intervals.CanonicalUnique` | src/voiceobs/core/audio/intervals.py:8-20 | there is only one such list, so merge has no choice |
| `Intervals.Intersect` | src/voiceobs/core/audio/intervals.py:23-32 | the two-pointer loop computes the recursive intersection |
| `Intervals.IntersectedPoints` | src/voiceobs/core/audio/intervals.py:23-32 | exactly the points in both, on lists where none starts before an earlier one starts or ends, inverted ones included |
| `Intervals.IntersectedProper` | src/voiceobs/core/audio/intervals.py:23-32 | no empty or inverted interval comes out, whatever the lists |
| `Intervals.IntersectedDisjoint` | src/voiceobs/core/audio/intervals.py:23-32 | on such lists the intersection is sorted and disjoint |
| `Intervals.Subtract` | src/voiceobs/core/audio/intervals.py:35-52 | the nested loops over `segments` compute the cut pieces in order |
| `Intervals.SubtractedPoints` | src/voiceobs/core/audio/intervals.py:35-52 | exactly the points of the base outside the cut, for every input |
| `Intervals.PassedByKept` | src/voiceobs/core/audio/intervals.py:43-45 | an interval that every cut ends before or starts after is left whole, for empty and inverted cuts too |
| `Intervals.SubtractedDisjoint` | src/voiceobs/core/audio/intervals.py:35-52 | from a disjoint base the total is at least the measure of the difference, for every cut; the pieces are disjoint and the total exact if no cut is inverted |
| `Intervals.InvertedCutOverlaps` | src/voiceobs/core/audio/intervals.py:35-52 | the inverted cut (5, 3) leaves two pieces of (0, 10) that overlap |
| `Intervals.SubtractedTotal` | src/voiceobs/core/audio/intervals.py:35-56 | from any base, overlapping or not: the total is, interval by interval, what lies outside the cut |
| `Intervals.Complement` | src/voiceobs/core/audio/intervals.py:59-69 | the cursor loop computes the sweep over the merged list |
| `Intervals.ComplementPoints` | src/voiceobs/core/audio/intervals.py:59-69 | the gaps up to the duration or the last start, whichever is later |
| `Intervals.ComplementExactIff` | src/voiceobs/core/audio/intervals.py:59-69 | the gaps of [0, duration] if and only if no merged interval starts past the duration |
| `Intervals.ComplementGaps` | src/voiceobs/core/audio/intervals.py:59-69 | every gap is proper, for every input; they come in order and apart if no inverted interval survives the merge |
| `Intervals.ComplementTotal` | src/voiceobs/core/audio/intervals.py:55-69 | for every input that ends by the duration: the total of the gaps is the duration less the covered ticks from zero on, plus what inverted intervals make the cursor pass twice |
| `Intervals.ComplementOutside` | src/voiceobs/core/audio/intervals.py:59-69 | the same outside any set of ticks |
| `Intervals.MergedExcess` | src/voiceobs/core/audio/intervals.py:8-69 | that is at most what inverted intervals take off the total, and equal to it if and only if none of them ends before zero or before an earlier end |
| `Intervals.TotalIsMeasure` | src/voiceobs/core/audio/intervals.py:55-56 | on disjoint intervals the total is the number of points covered |
| `Intervals.MergedTotalIff` | src/voiceobs/core/audio/intervals.py:8-20 | with inverted windows the merged total can fall short of the time covered, exactly when one survives the merge |
| `Intervals.IntersectedTotal` | src/voiceobs/core/audio/intervals.py:23-32 | the total of an intersection is the measure of the common points |
| `Intervals.InclusionExclusion` | src/voiceobs/core/audio/intervals.py:8-56 | for every two lists: total of the merged union plus total of the intersection is the sum of the two totals, up to what inverted intervals take off each; nothing when none is inverted |
| `TimeMetrics.Uncovered` | src/voiceobs/core/calculator.py:440-463 | present exactly for a proper window, and then the measure of the window minus the endpointing hold and the spans |
| `TimeMetrics.UncoveredMeasure` | src/voiceobs/core/calculator.py:462-463 | the clamp at zero never changes anything |
| `TimeMetrics.UnexplainedBounds` | src/voiceobs/core/calculator.py:440-463 | between zero and the window; zero exactly when every tick is covered |
| `TimeMetrics.UnexplainedOfMembers` | src/voiceobs/core/calculator.py:440-463 | unchanged by reordering or repeating spans |
| `TimeMetrics.UnexplainedSplit` | src/voiceobs/core/calculator.py:440-463 | unchanged by splitting a span |
| `TimeMetrics.UnexplainedShrinks` | src/voiceobs/core/calculator.py:440-463 | never increased by one more span, inverted or not, and unchanged exactly when the span covers nothing new |
| `TimeMetrics.DurationHears` | src/voiceobs/core/calculator.py:427-437 | for every list of spans: the agent intervals are sorted and apart, and the duration is long enough for them and every caller utterance; for audio-only calls too |
| `TimeMetrics.DurationIsLastEnd` | src/voiceobs/core/calculator.py:521-526 | the duration is the latest end of any utterance of either channel or agent interval, zero without any |
| `TimeMetrics.SpokenIs` | src/voiceobs/core/calculator.py:525 | a channel's intervals are those of its utterances |
| `TimeMetrics.AgentIntervalsExact` | src/voiceobs/core/calculator.py:427-437 | for every list of spans: exactly the ticks at which some TTS or PLAYOUT window with both ends says the agent was speaking |
| `TimeMetrics.TalkTotals` | src/voiceobs/core/audio/metrics.py:15-27 | each total is at most the ticks covered, and equal to them if and only if no inverted interval is left; the overlap is exact |
| `TimeMetrics.SilencePoints` | src/voiceobs/core/audio/metrics.py:52-67 | the gaps are exactly the ticks where nobody speaks if and only if no merged interval starts past the duration, and then in order and apart when none is inverted |
| `TimeMetrics.TimeConservedIff` | src/voiceobs/core/audio/metrics.py:15-67 | caller plus agent minus overlap plus gaps is the duration: with no inverted interval if and only if none starts before zero; with none that is not empty before zero if and only if no inverted one ends before zero or before an earlier end |
| `TimeMetrics.TimeAccounted` | src/voiceobs/core/audio/metrics.py:15-67 | in general the sum is off by the ticks before zero and by what inverted intervals take off beyond what the gaps count twice |
| `TimeMetrics.CallTimeConservedIff` | src/voiceobs/core/calculator.py:521-545 | so for every call, with the duration the metrics take and any spans whatever |
| `TimeMetrics.InvertedWindowLosesTime` | src/voiceobs/core/calculator.py:427-437 | a span with window (5, 3) beside a caller who speaks for ten ticks: a negative share and a sum of eight |
| `TimeMetrics.DeadAirExceedsDuration` | src/voiceobs/core/audio/metrics.py:52-67 | the same span alone: five ticks of dead air in a call of three |
| `TimeMetrics.TalkRatioBounds` | src/voiceobs/core/audio/metrics.py:15-27 | for every call: the overlap is not negative; each side has the share it covers if and only if no inverted interval is left on it, and then at least that of the overlap; a share is within one if and only if no more is covered before zero than is left uncovered after it and taken off by inverted intervals |
| `TimeMetrics.EarlyWindowExceeds` | src/voiceobs/core/calculator.py:427-437 | a span that starts before zero and a share of two |
| `TimeMetrics.DeadAirBound` | src/voiceobs/core/audio/metrics.py:52-67 | dead air is at most the ticks at which nobody speaks, at every threshold, if and only if no inverted interval that starts after zero is left; and then all of them when the threshold keeps every gap |
| `TimeMetrics.DeadAirWithPadding` | src/voiceobs/core/audio/metrics.py:52-67 | padding lowers the ceiling to the silence outside the padding, at every threshold, if and only if every tick the sweep goes over twice is padding; and then dead air is all of it when the threshold keeps every gap |
| `TimeMetrics.NothingWithoutDuration` | src/voiceobs/core/audio/metrics.py:15-67 | a call without duration has no shares and no dead air |
| `DeadAir.DeadAirIsLongSilence` | src/voiceobs/core/audio/metrics.py:52-67 | when no inverted interval is left: dead air is, at every threshold, the number of silent ticks outside padding in runs of at least that many, if and only if no empty interval of speech or padding lies between two of them |
| `DeadAir.ProperDeadAir` | src/voiceobs/core/audio/metrics.py:52-67 | so at every threshold when every window is a proper one |
| `DeadAir.EmptyWindowSplitsSilence` | src/voiceobs/core/calculator.py:427-437 | a span with window (5, 5) in ten ticks of silence: no dead air at a threshold of six |
| `Vad.DetectUtterances` | src/voiceobs/core/audio/vad.py:44-67 | the loop's utterances before the filter are a declarative segmentation of the speech array, and the result is that segmentation filtered by length |
| `Vad.InExactlyOne` | src/voiceobs/core/audio/vad.py:44-67 | every speech frame lies in exactly one utterance |
| `Vad.ShareIff` | src/voiceobs/core/audio/vad.py:44-67 | two speech frames share an utterance if and only if no run of more than `hangover` silent frames separates them |
| `Vad.EndsOnSpeech` | src/voiceobs/core/audio/vad.py:64-65 | only the last utterance can end on silence: at the buffer's end, on at most `hangover` silent frames |
| `Vad.OnlySegmentation` | src/voiceobs/core/audio/vad.py:44-67 | a speech array has only one segmentation |
| `Vad.LongEnoughKeeps` | src/voiceobs/core/audio/vad.py:67-67 | the filter keeps exactly the long utterances, in order |
| `Runs.EdgesPairUp` | src/voiceobs/core/audio/__init__.py:66-76 | starts and ends found by differencing pair up, and pairing them is a scan for runs |
| `Runs.MaskToIntervalsExact` | src/voiceobs/core/audio/__init__.py:66-76 | the intervals are precisely the maximal true runs in order, and their lengths sum to the true positions |
| `Runs.InteriorRunIsDropout` | src/voiceobs/core/audio/quality.py:44-64 | a run of the interior mask is a maximal zero run strictly between nonzero samples, and conversely |
| `Runs.LongRunsAreDropouts` | src/voiceobs/core/audio/quality.py:44-64 | the runs kept are exactly those dropouts, each once, in order |
| `Runs.InteriorZeroRunsExact` | src/voiceobs/core/audio/quality.py:44-64 | the returned count is the number of dropouts of at least max(1, min_len) samples, and the returned sum the number of samples that lie in them |
| `EventTurns.TurnsFromEvents` | src/voiceobs/core/calculator.py:304-369 | the loop over `cur` and `turns` computes the windows of the timeline and reads a turn off each |
| `EventTurns.TimelineSorted` | src/voiceobs/core/calculator.py:310-312 | the timeline is the timed events, each as often as given, in time order |
| `EventTurns.WindowsPartition` | src/voiceobs/core/calculator.py:304-369 | the windows are consecutive and disjoint, and nothing is lost |
| `EventTurns.CallerSpeaksFirst` | src/voiceobs/core/calculator.py:304-369 | in no window does an agent-side event precede an `stt.final`, and every window after the first opens on one |
| `EventTurns.WindowsCutWell` | src/voiceobs/core/calculator.py:304-308 | besides, every window but the last holds an agent-side event: a turn opens only once the agent has responded |
| `EventTurns.WindowsUnique` | src/voiceobs/core/calculator.py:304-369 | there is only one way to cut an event list into such windows |
| `EventTurns.TurnsAreWindows` | src/voiceobs/core/calculator.py:318-332 | turn n is window n, or window n + 1 when the first window held no anchor |
| `TurnFields.TurnFieldsExact` | src/voiceobs/core/calculator.py:304-369 | turn n field by field: each time that of its window's first event of the name, each reply the text of its first event of the name that says something, both latencies, and the interruption |
| `TurnFields.FirstWindowDroppedIff` | src/voiceobs/core/calculator.py:318-320 | the first window makes no turn if and only if it has no stt.final, no audio and no spoken reply that says something |
| `TurnFields.BlankIs` | src/voiceobs/core/calculator.py:339-341 | a text says nothing if and only if it has no character other than those that `strip` strips |
| `EventTurns.TurnsWellFormed` | src/voiceobs/core/calculator.py:304-369 | for every input: indexes count up, every turn after the first has an `stt_final`, and both anchors give a present, non-negative latency |
| `EventTurns.Anchors` | src/voiceobs/core/calculator.py:336-369 | each anchor of a window is the time of its first event of that name |
| `EventTurns.InterruptedIff` | src/voiceobs/core/calculator.py:336-369 | a turn is interrupted if and only if its window holds a barge-in |
| `EventTurns.LatencyPresent` | src/voiceobs/core/calculator.py:489-494 | a window with both anchors has the difference of its first such times as latency |
| `EventTurns.TranscriptOf` | src/voiceobs/core/calculator.py:304-369 | a window's transcript is its non-blank texts joined |
| `EventTurns.TranscriptsConserved` | src/voiceobs/core/calculator.py:304-369 | turn n's transcript is the joined non-blank `stt.final` texts of its window, and these texts, turn after turn, are those of the timeline |
| `TurnSpans.TurnSpans` | src/voiceobs/core/calculator.py:372-391 | the loop over `best` computes the fold, and the result is it sorted |
| `TurnSpans.OnePerExchange` | src/voiceobs/core/calculator.py:372-391 | exactly the least span of every exchange under caller side, order key and input position, each once |
| `TurnSpans.ResultInOrder` | src/voiceobs/core/calculator.py:287-401 | sorted by turn index, those without one at a billion; at equal index timed before untimed, timed by time, untimed by sequence |
| `TurnSpans.ExchangesApart` | src/voiceobs/core/calculator.py:372-391 | no two spans of the result share an exchange: by their turn ids, or where one has none by its own id |
| `TurnSpans.ExchangeKept` | src/voiceobs/core/calculator.py:372-391 | every TURN span has one of its exchange in the result, on the caller's side if it is itself, and not after it if both or neither are |
| `TurnSpans.TurnIdOnce` | src/voiceobs/core/calculator.py:372-391 | a turn id that no TURN span without one has as its own id is borne by exactly one span of the result |
| `TurnSpans.LoneSpanKept` | src/voiceobs/core/calculator.py:372-391 | a TURN span that shares its exchange with no other is in the result |
| `TurnSpans.ChosenIffUnbeaten` | src/voiceobs/core/calculator.py:372-391 | when no two different spans tie for first in an exchange, the chosen spans are those no other span of the exchange outranks |
| `TurnSpans.ChoiceIgnoresOrder` | src/voiceobs/core/calculator.py:372-391 | then every list of the same spans, in any order and with any repetitions, gives the same choice |
| `TurnSpans.ChoiceIgnoresOrderIff` | src/voiceobs/core/calculator.py:372-391 | all reorderings of the input give the same choice if and only if no two different spans tie for first in an exchange |
| `TurnIds.ClimbLoop` | src/voiceobs/frameworks/generic.py:68-77 | the loop over `cur` and `seen` ends on every parent graph and computes the climb |
| `TurnIds.ClimbIsNearest` | src/voiceobs/frameworks/generic.py:68-77 | what the climb finds is the nearest stopping ancestor, and it finds it unless the chain first comes back to the span's own id |
| `TurnIds.PropagateTurnIds` | src/voiceobs/frameworks/generic.py:61-85 | the loop fills every span of the list |
| `TurnIds.PropagationFillsNearest` | src/voiceobs/frameworks/generic.py:61-85 | a set id stays; a missing one becomes the nearest turn ancestor's under that exact condition, and otherwise stays missing |
| `TurnIds.DistinctAlwaysFills` | src/voiceobs/frameworks/generic.py:61-85 | with distinct span ids every missing id with a turn above is filled |
| `TurnIds.PropagationIdempotent` | src/voiceobs/frameworks/generic.py:61-85 | propagating twice changes nothing more |
| `TurnIds.WayUpPropagates` | src/voiceobs/frameworks/generic.py:61-85 | in the terms of parent ids: a missing turn id becomes that of the first TURN span on the way up, or its id if it has none, and stays missing if the way up ends without one |
| `TurnIds.RepeatedIdHidesATurn` | src/voiceobs/frameworks/generic.py:68-77 | three spans, given to the function directly, for which a repeated id hides a turn |
| `TurnIds.PairAgentTurns` | src/voiceobs/frameworks/livekit/adapter.py:124-162 | the loop pairs every span and propagates the result |
| `TurnIds.PrecedingIsLatest` | src/voiceobs/frameworks/livekit/adapter.py:136-142 | the preceding turn is the latest user_turn that starts no later, the last of equal ones |
| `TurnIds.PairedToLatestUserTurn` | src/voiceobs/frameworks/livekit/adapter.py:124-162 | every span under an agent_turn with such a user_turn carries its id, under the same exact condition |
| `TurnIds.EarlyAgentTurnGoesLast` | src/voiceobs/frameworks/livekit/adapter.py:136-142 | when every user_turn starts after the agent_turn, the spans under it carry the id of the user_turn with the greatest start, under the same exact condition |
| `TurnIds.WayUpPairs` | src/voiceobs/frameworks/livekit/adapter.py:124-162 | a span whose way up leads to an agent_turn gets the turn id, or without one the id, of the last user_turn that starts no later, or of the last of all |
| `TurnIds.UnpairedFilled` | src/voiceobs/frameworks/livekit/adapter.py:124-162 | a span with no agent_turn on its way up keeps its turn id, or gets that of the first TURN span on its way, or none |
| `TurnIds.NoUserTurnNoPairs` | src/voiceobs/frameworks/livekit/adapter.py:124-162 | without a user_turn nothing is paired |
| `TokenCache.Cache.constructor` | services/ingest/tokencache.go:28-36 | a new cache is valid and empty |
| `TokenCache.Cache.Get` | services/ingest/tokencache.go:38-52 | the answer and the new slots; list and map stay in step |
| `TokenCache.Cache.Put` | services/ingest/tokencache.go:54-69 | the new slots, eviction included; list and map stay in step |
| `TokenCache.Cache.RemoveElement` | services/ingest/tokencache.go:71-77 | one element leaves the list and its key the map |
| `TokenCache.RunCoherent` | services/ingest/tokencache.go:38-77 | after any history: one slot per key, never more than the capacity, each slot the latest put of its key, the list in order of last touch |
| `TokenCache.HitIsLatestPut` | services/ingest/tokencache.go:38-52 | a hit returns the identity of the latest put of that key, made within the time to live |
| `TokenCache.FreshKeySurvives` | services/ingest/tokencache.go:54-69 | a fresh key is still a hit unless at least `cap` other keys were touched since its last touch |
| `TokenCache.FreshKeyHitIff` | services/ingest/tokencache.go:38-77 | a key within its time to live is a hit, with its latest identity, if and only if no put of a new key into the full cache has found it in last place since its latest put |
| `TokenCache.TouchesNeedNotEvict` | services/ingest/tokencache.go:38-77 | the converse fails: a history in which it survives more |

## Left out

- HTTP, authentication, SQLAlchemy, the Kafka client, cloud drivers and the UI: plumbing; a transaction is one atomic step, and a record sent to the dead-letter queue is one that is not delivered again.
- gzip and JSON: taken as inverse, so a blob is its contents; a span's fields other than ids and attributes are one opaque body.
- The `prompt_id`, `source`, `environment` and `schema_version` columns and the ids minted for rows: they do not affect resolution; row keys are numbers counting up.
- Which row a trace lookup returns when several rows share the trace: the first in insertion order; the exactly-once theorems prove that there is only one.
- TimeMetrics.DeadAirWithPadding: speaks of padding that is not inverted once merged; padding comes from masks (src/voiceobs/core/audio/__init__.py:50-76) and never is.
- What an analysis writes into the row besides version and status: `_apply_header` copies every header counter named like a column, `external_call_id`, `trace_id` and `spans_complete` not excepted (src/voiceobs/worker/process.py:363-370). The theorems on ids, traces and completeness assume that no mapping emits such a counter.
- The order of fragments with equal sequence numbers from different batches: arrival order, as the stable sort gives it; the source orders by the per-batch number only.
- The `IngestRun` row an unsupported schema leaves behind with status running: the model's runs are the successful analyses.
- The order of flushed rows with equal activity: insertion order.
- Manifest backfill, OTLP backfill and audio-only calls: they bypass the live resolution rules.
- Deleted objects and a listing that lags behind writes: the poller's listing shows the store as it is, and objects are stamped when they are written.
- Regular expressions and bucket prefixes of artifact rules: a rule is the capture it yields on an object path.
- Rounding of seconds to four decimals and floating-point arithmetic: integer ticks and exact arithmetic instead.
- Text normalisation before the word error rate, dBFS, the speech threshold and the conversion of frames to seconds: the models start from word lists and from a boolean speech array, and count in frames.
- Response latencies, barge-in counts, percentiles, pricing, clock residuals and the trust report: easy beside what is modelled.
- The cache's mutex: each operation is atomic, and its clock is a parameter.
- Go's package list type: modelled as a sequence of entries.
