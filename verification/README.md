# Bridge engine

A Dafny model of the in-memory engine of the Bridge: the code that decides when a trace is flushed,
what is retained until then, and what is retried afterwards, with proofs of what it keeps over whole runs.

The parts that the Go code updates in place are classes whose methods have the same loops and branches.
Each method is proved against a specification on plain values, and the theorems are about those values:

- **Trigger evaluator.** `SlidingWindow`, `RetryTable`, `ServiceState` and `Evaluator` are the arrays, scalars and maps
  of `four_triggers.go`. `ServiceModel` says what a service's state stands for after a log of completions and how it is
  judged; `Recount` counts the log from scratch, reading mean and retries off it; `EvaluatorModel` is the map of services
  and its runs, judged either way. `Severity`, `Baseline` and `Gauge` hold the pure parts, `Mean` the weighted means they
  keep, in closed form. `Reports` says which trigger reports a completion and what it reports, `Silence` which statuses
  and kinds count for which. `Starvation`, `Lru`, `Steadiness`, `Residence` and `Workers` prove what holds over whole
  runs: how long an early return can hide a later trigger, who is resident, when a service cannot be reported as slow,
  what a reported pile-up means, and how far the in-flight gauge can be off when workers interleave.
- **Ring buffer.** `Ring` is the map, the order slice filtered in place and the cached count; `RingModel` is a list of
  whole traces and its runs. `Spans` and `Isolation` split a resource by trace.
- **Dead-letter queue.** `Dlq` holds the critical sections and the retry loop, `DlqRuns` the machine they form when one
  drainer and any number of enqueuers interleave, `DlqFile` the file format byte by byte, `DlqStore` saving and loading
  through a payload codec.
- **Trace breaker.** `Breaker`, with its map of counters and the log of observations it stands for.
- **Processor.** `Pipeline` is ring, workers, queue and drainer in one state machine with a ledger of every span.
  `BatchModel` and `Processor` are one `ConsumeTraces` call over the objects above, `Flow` shows it to be a run of
  that machine, and `Separation` that it never mixes traces.

Conventions. Go's `float64` is `real`. Times, counters and sizes are unbounded integers except in the file format, where
the widths and the signed/unsigned conversions are written out. Go's truncating conversions and divisions are written
out. Every clock reading is a parameter: one per insert, per evaluated span (three for its calls) and per enqueued batch.
Go's iteration over maps is a choice of an arbitrary element. A send is an arbitrary outcome. One held lock is one
method call; interleavings are runs of a state machine whose steps are such calls and single sends. Configuration is
what `config.go:209-253` and `four_triggers.go:155-173` together establish. Ghost fields (`marks`, `log`, `stored`,
`run`) record the history a structure stands for; the invariants tie them to the real fields.

Where code and comments disagree, the model follows the code:

- The retry table overwrites the home slot of a key when all probes fail, not the oldest entry (four_triggers.go:579-581).
- `shouldTruncate` is never called, so nothing is dropped between 50,000 and 500,000 spans, and a span is buffered
  before the breaker sees it, dropped or not (processor.go:417-460).
- Spans are skipped by span id alone across traces (processor.go:434-438); `BatchModel.SpanIdSufficesIff` says when that
  matters.
- The saver enforces neither bound of the loader; `DlqFile.RoundTripExactly` says when a saved queue comes back.

## Model

| member | source | states |
|---|---|---|
| `SlidingWindow.CountingWindow.MaybeRoll` | internal/triggers/four_triggers.go:374-381 | Rolling a bucket to a second is, in the log of arrivals, one more arrival of that second that counts nothing yet; every other bucket still shows the same arrivals. |
| `SlidingWindow.CountingWindow.Count` | internal/triggers/four_triggers.go:213-225 | The two counter increments fill in the arrival just rolled in, and disturb no other arrival of the log. |
| `SlidingWindow.CountingWindow.Collect` | internal/triggers/four_triggers.go:383-393 | Reading ten buckets gives exactly the counts of the arrivals of the last ten seconds that no later arrival has displaced, for any order of arrival. |
| `SlidingWindow.BucketAppend` | internal/triggers/four_triggers.go:374-381 | What lazy rolling does to one bucket: an arrival of the bucket's second adds to it, one of another second starts it afresh, one of another class leaves it alone, stated on the log. |
| `SlidingWindow.CellsHoldLiveTally` | internal/triggers/four_triggers.go:383-393 | Summing the ten buckets whose second lies in a range equals counting, over the whole log, the undisplaced arrivals of that range. |
| `SlidingWindow.LiveAndLostMakePlain` | internal/triggers/four_triggers.go:374-393 | The window never over-counts: what it shows plus what was displaced is the true count, and the displaced part is not negative. |
| `SlidingWindow.LiveIsATally` | internal/triggers/four_triggers.go:383-393 | Hits never exceed totals, in any order of arrival. |
| `SlidingWindow.ExactIffNoneDisplaced` | internal/triggers/four_triggers.go:374-393 | The window total is the true total if and only if no counted arrival of the range was displaced. |
| `SlidingWindow.BoundedReorderingIsExact` | internal/triggers/four_triggers.go:210-225 | If no arrival is more than nine seconds behind the newest one before it, reading at or past the newest second gives the true hit and total counts over the last ten seconds. |
| `SlidingWindow.TenBehindLosesAnArrival` | internal/triggers/four_triggers.go:374-381 | Nine is tight: one arrival ten seconds late erases the newest second. |
| `SlidingWindow.SameSecondsSameBuckets` | internal/triggers/four_triggers.go:355-359 | The seconds the buckets carry depend only on the seconds that arrived, not on what was counted. |
| `ServiceModel.WindowsShareSeconds` | internal/triggers/four_triggers.go:355-359 | After any log of completions the three windows of a service carry the same second in each bucket. |
| `RetryTable.RetryCells.IsRetry` | internal/triggers/four_triggers.go:557-583 | The probing loop over the two arrays answers, and leaves the table, as the table model does: an explicit hint wins and writes nothing, a zero key is never a retry. |
| `RetryTable.RetryCells.Probe` | internal/triggers/four_triggers.go:564-582 | Eight probes with early exit and home-slot overwrite implement one sighting of the key. |
| `RetryTable.ScanFindsResidents` | internal/triggers/four_triggers.go:565-578 | Under the table invariant the scan stops at a key exactly if the key is in the table, and all eight probes fail exactly if they all hold other keys. |
| `RetryTable.SightKeepsInv` | internal/triggers/four_triggers.go:557-583 | Every sighting keeps each key in one slot only, within eight slots of its home, with no empty slot before it. |
| `RetryTable.SightIsMapUpdate` | internal/triggers/four_triggers.go:557-583 | A sighting is lookup and update of a key-to-second map; it loses at most one key, the one at the home slot, and only when all eight probe slots hold other keys. |
| `RetryTable.TableStandsForLossyMemory` | internal/triggers/four_triggers.go:557-583 | After any run of sightings the table is the graph of a map that is never wrong: what it still holds is the second of the key's latest sighting. |
| `RetryTable.SightIsALookup` | internal/triggers/four_triggers.go:557-583 | After any run of sightings a key is reported as a retry if and only if it has not been dropped and the second of its latest sighting is at most 10,000 ms back. |
| `RetryTable.RetryMeansEarlierSighting` | internal/triggers/four_triggers.go:571-576 | No false alarm over whole runs: a reported retry has a real earlier sighting of that key at most 10,000 ms old. |
| `RetryTable.ResidentKeyIsReported` | internal/triggers/four_triggers.go:571-576 | A resident key is reported exactly when its latest sighting, rounded down to the second, is at most 10,000 ms back; in particular whenever it is seen again within 9,001 ms. |
| `RetryTable.OverflowNeedsNeighbours` | internal/triggers/four_triggers.go:565-582 | A key can only be overwritten if at least eight other keys seen so far have their home within seven slots. |
| `RetryTable.UncrowdedTableIsPlain` | internal/triggers/four_triggers.go:557-583 | In a run where that never happens the table behaves as a plain, lossless map throughout. |
| `RetryTable.NinthKeyEvictsTheFirst` | internal/triggers/four_triggers.go:565-582 | A concrete run in which a retry is missed: nine keys with one home, then the first again at the same instant. |
| `Severity.EmissionIsAStrictRise` | internal/triggers/four_triggers.go:595-603 | The transition table over severities reports exactly the strict rises in rank. |
| `Baseline.ClampIsMinMax` | internal/triggers/four_triggers.go:406-411 | Durations under 1 ms count as 1 ms, those over 1 h as 1 h. |
| `Baseline.BaselineIsTheWeightedMean` | internal/triggers/four_triggers.go:406-421 | In closed form: after successes with clamped durations c0..cn the baseline is 0.95^n c0 plus the sum of 0.05 * 0.95^(n-i) ci, slow successes included. |
| `Baseline.SlowIffOverThreeMeans` | internal/triggers/four_triggers.go:411-420 | A success is slow if and only if it took more than three times that weighted mean, itself included. |
| `Recount.MeanIsWeighted` | internal/triggers/four_triggers.go:406-421 | For every log of completions the mean a service stands for is that weighted mean of its clamped successes. |
| `Steadiness.KeptMeanIsWeighted` | internal/triggers/four_triggers.go:406-421 | So is the field that holds it, in every valid state object. |
| `Steadiness.MeanStaysInRange` | internal/triggers/four_triggers.go:406-421 | For every log of completions the mean a service keeps lies between the least and the greatest clamped duration of its successes, hence between 1 ms and 1 h. |
| `Steadiness.KeptMeanStaysInRange` | internal/triggers/four_triggers.go:406-421 | So does the field that holds it, in every valid state object. |
| `Steadiness.ResidentMeanStaysInRange` | internal/triggers/four_triggers.go:193-241 | In any run of the evaluator the mean of a resident service lies in the range of its own clamped successes. |
| `Baseline.SlowIffOverThreeTimes` | internal/triggers/four_triggers.go:416-420 | Truncating the threshold to whole nanoseconds changes no verdict. |
| `Baseline.SlowIffSeventeenFiftySeven` | internal/triggers/four_triggers.go:411-420 | The newest duration moves its own bar: past the first success, a duration d in [1 ms, 1 h] is slow if and only if 17 d exceeds 57 times the previous baseline. |
| `Baseline.FirstSuccessIsSlowOverThreeHours` | internal/triggers/four_triggers.go:411-420 | The first success seeds the baseline with its own clamped duration, so it is slow if and only if it took more than three hours. |
| `Steadiness.SteadyServiceIsNotSlow` | internal/triggers/four_triggers.go:193-241 | A completion of a service whose successes, this one included, are of at most an hour and clamp into [m, 3m] never reports slow successes, in any order of timestamps and whatever the buckets still hold. |
| `Steadiness.SteadyRunNeverReportsSlow` | internal/triggers/four_triggers.go:193-241 | In any run of the evaluator whose successes of a service are of at most an hour and clamp into [m, 3m], no call reports slow successes for that service, whatever happens to others and whoever is evicted. |
| `Gauge.ConditionClockIsTrue` | internal/triggers/four_triggers.go:513-521 | The remembered start of a pile-up is the time of an evaluation since which every evaluation found the gauge at its threshold. |
| `Gauge.PileUpWasHeld` | internal/triggers/four_triggers.go:507-555 | A mild (severe) pile-up severity means the condition was true at every in-flight evaluation since one at least the mild (severe) hold time earlier. |
| `Gauge.PileUpIffHeld` | internal/triggers/four_triggers.go:507-541 | With evaluation times that are positive and never go back, the severity is at least mild (severe) if and only if the condition was true at every evaluation since one at least the mild (severe) hold time earlier. |
| `Gauge.ThresholdNeverFalls` | internal/triggers/four_triggers.go:507-530 | Over a service's residence the in-flight mean stays between zero and the peak and the adaptive threshold never decreases. |
| `Gauge.GaugeIsItsHistory` | internal/triggers/four_triggers.go:507-530 | From the starts, ends and evaluations of a residence alone: the gauge is starts less ends, never below zero, the peak the highest it ever was, and the in-flight mean the 0.95/0.05 weighted mean of the peaks at the evaluations made while calm, the first one its start. |
| `Gauge.MetIffAtThreshold` | internal/triggers/four_triggers.go:507-513 | An evaluation finds the condition met if and only if as many are in flight as the absolute minimum and more than that weighted mean times the multiplier, less one. The pile-up theorems here and in `Residence` are stated with this, not with the threshold the code computes. |
| `Gauge.MetIffBothBars` | internal/triggers/four_triggers.go:507-513 | The same for any gauge with a non-negative mean. |
| `Gauge.ThresholdIsTheLarger` | internal/triggers/four_triggers.go:507-512 | The threshold is the larger of the absolute minimum and the multiple of the mean rounded down. |
| `ServiceState.State.Begin` | internal/triggers/four_triggers.go:183-187 | A request start raises the gauge and its peak, and nothing else of the service. |
| `ServiceState.State.AdvanceBucket` | internal/triggers/four_triggers.go:355-359 | All three windows are rolled for every completion, whatever its kind. |
| `ServiceState.State.RecordIfSuccessLike` | internal/triggers/four_triggers.go:406-421 | A success updates the baseline before it is compared with it, and counts once, as a hit when slow; a non-success changes nothing. What that makes of the baseline is `Steadiness.KeptMeanIsWeighted`. |
| `ServiceState.State.CountByKind` | internal/triggers/four_triggers.go:213-225 | Each kind of completion counts in its own windows only, as the log model says. |
| `ServiceState.State.Complete` | internal/triggers/four_triggers.go:193-241 | Arrays, scalars and retry table together answer a completion as recomputing everything from the service's full log does. |
| `ServiceState.State.Evaluate` | internal/triggers/four_triggers.go:227-241 | Early return: the triggers are judged in order, and those after the one that fires keep their severity. |
| `ServiceState.State.Evaluate5xx` | internal/triggers/four_triggers.go:423-449 | Too few samples reset the error severity; otherwise exactly a rise is reported, with rate and threshold. |
| `ServiceState.State.EvaluateSlowSuccess` | internal/triggers/four_triggers.go:451-477 | The same for slow successes. |
| `ServiceState.State.EvaluateRetry` | internal/triggers/four_triggers.go:479-505 | The same for retries. |
| `ServiceState.State.EvaluateInFlight` | internal/triggers/four_triggers.go:507-555 | The pile-up detector updates condition clock, mean and severity as the gauge model does, and reports exactly a rise. What it compares with is `Gauge.MetIffAtThreshold`. |
| `Recount.StateFollowsTheLog` | internal/triggers/four_triggers.go:213-225 | For every log of completions the mean is that of the log's successes, a weighted mean by `Recount.MeanIsWeighted`, and the retry table is that of its sightings. |
| `Recount.RetryIsAScan` | internal/triggers/four_triggers.go:557-583 | The table's answer to a completion is that of a scan of the log for the key's latest earlier sighting, except that a key whose slot was taken over since counts as new; a hint decides by itself. |
| `Recount.MarksAreTheLog` | internal/triggers/four_triggers.go:213-225 | Adding up what each completion counted for when it arrived equals counting the log from scratch, rate by rate. |
| `Recount.InOrderCompletionIsARecount` | internal/triggers/four_triggers.go:193-241 | With non-decreasing timestamps one completion is judged as on a recount of the last ten seconds of the full log, with durations and retries decided by reading the log. |
| `Recount.UncrowdedCompletionIsAScan` | internal/triggers/four_triggers.go:557-583 | Where fewer than eight other keys have a home within seven slots of any key sighted, that recount forgets no key and every retry is decided by a plain scan. |
| `Evaluator.Evaluator.OnRequestStart` | internal/triggers/four_triggers.go:177-188 | The call acts on the engine of values as one start event does; every other service's state object is left alone. |
| `Evaluator.Evaluator.OnRequestComplete` | internal/triggers/four_triggers.go:193-241 | Likewise for a completion, including its answer and the clock fallback for a missing timestamp. |
| `Evaluator.Evaluator.TouchService` | internal/triggers/four_triggers.go:287-309 | A touched service ends at the tail of the order, admitted after evicting the oldest ones only if there was no room. |
| `Evaluator.Evaluator.EvictForOne` | internal/triggers/four_triggers.go:291-295 | The eviction loop removes from map and order the shortest prefix of the order that makes room for one. |
| `Evaluator.Evaluator.MoveServiceToTail` | internal/triggers/four_triggers.go:316-324 | The first occurrence is cut out and the name appended; nothing else moves. |
| `Evaluator.Evaluator.PruneStale` | internal/triggers/four_triggers.go:258-278 | Exactly the services idle beyond the TTL leave map and order; the count returned is how many. |
| `EvaluatorModel.StepKeepsValid` | internal/triggers/four_triggers.go:177-324 | Every call keeps the order a duplicate-free listing of exactly the resident services, no more than MaxServices. |
| `EvaluatorModel.OtherServicesUnchanged` | internal/triggers/four_triggers.go:177-241 | A call on one service leaves every other resident service as it was. |
| `EvaluatorModel.RunIsARecount` | internal/triggers/four_triggers.go:193-241 | Log refinement: for every run of starts, completions and prunings whose timestamps never go back within a service, the evaluator returns at every call what a reference returns that keeps the full event log, recounts ten seconds, takes the mean of the logged successes and scans the log for retries, missing a retry only if the table has forgotten its key; both end in the same state. |
| `EvaluatorModel.RunIsAScan` | internal/triggers/four_triggers.go:193-241 | If moreover no service looks up eight keys near one of its keys, the reference forgets nothing: every call returns what plain scans of the full logs return. |
| `Reports.RateCheckShowsItsRank` | internal/triggers/four_triggers.go:423-449 | A rate trigger shows one rank for each bar the share of hits meets on enough samples, fires exactly when that exceeds the rank it remembers, and reports a rate at or over the threshold it names. |
| `Reports.FirstRiseIsReported` | internal/triggers/four_triggers.go:227-241 | A completion is reported by the first trigger, in order, whose due rank exceeds the one it remembers, with that rank, and by none if there is no such trigger; the triggers up to it remember their due rank, those after it keep theirs. A report names the service, the time and what was seen: the exact share of hits and the bar of its severity, or the number in flight and the larger of minimum and rounded multiple of the mean. |
| `Silence.HarmlessRunIsNeverReported` | internal/triggers/four_triggers.go:210-241 | In any run: a service without a server status of 500 to 599 is never reported for errors, one without a server status of 200 to 399 never for slow successes, one without client spans never for retries. |
| `Silence.FailuresAndSuccessesCount` | internal/triggers/four_triggers.go:213-225 | Every server completion counts as a sample of the error rate and, when all have a status of 500 to 599, as a hit; when all have one of 200 to 399, as a sample of the slow-success rate. |
| `Silence.AllFailingIsReported` | internal/triggers/four_triggers.go:423-449 | A completion with which at least MinSamples server requests fall into the last ten seconds, all of them failed, leaves the error trigger severe, and is reported with rate one unless it was severe already; for the buckets, if timestamps never go back. |
| `Starvation.FiringRaisesOneRank` | internal/triggers/four_triggers.go:227-240 | A firing call raises the rank of the trigger that fired and leaves the ranks of the later ones. |
| `Starvation.StarvationBound` | internal/triggers/four_triggers.go:227-240 | While a service stays resident at most 2, 8 and 26 completions in a row can keep the slow, retry and in-flight checks from running, and at most 80 in a row can all fire, whatever other services do in between. |
| `Lru.ResidentsAreTheMostRecent` | internal/triggers/four_triggers.go:287-324 | After any run the resident services are exactly the MaxServices most recently touched names not pruned away, listed oldest touch first. |
| `Lru.LargerCapKeepsMore` | internal/triggers/four_triggers.go:287-309 | A larger MaxServices always keeps a superset. |
| `Lru.PruneRemovesAPrefix` | internal/triggers/four_triggers.go:258-278 | With a monotone clock pruning removes exactly a prefix of the order: the services idle beyond the TTL. |
| `Residence.GaugeIsItsResidence` | internal/triggers/four_triggers.go:177-241 | After any run of the evaluator the gauge of a resident service is that of its own starts, completions and reached in-flight checks since it last became resident, so the gauge theorems hold of it. |
| `Residence.ResidentGaugesAreSane` | internal/triggers/four_triggers.go:183-208 | In any run every resident gauge is between zero and its peak, and so is the mean behind the adaptive threshold. |
| `Residence.ReportedPileUpWasHeld` | internal/triggers/four_triggers.go:507-555 | In any run a reported pile-up was held: every in-flight evaluation of the service in this residence, since one at least the hold time of the reported severity earlier, found it at its threshold. |
| `Residence.PileUpSeverityIffHeld` | internal/triggers/four_triggers.go:507-541 | In any run with positive timestamps that never go back within a service, after a completion that reaches the in-flight check the remembered severity is at least mild (severe) if and only if the condition was true at every check of the residence since one at least the mild (severe) hold time earlier. |
| `Residence.ThresholdNeverFallsWhileResident` | internal/triggers/four_triggers.go:507-530 | While a service stays resident, whatever the calls on it and on others, its adaptive threshold never falls. |
| `Workers.RunKeepsBound` | internal/triggers/four_triggers.go:177-208 | For every interleaving of workers, client completions, evictions and prunings, each gauge is non-negative and at most the number of workers between start and completion for that service. |
| `Workers.PileUpCountsWorkers` | internal/triggers/four_triggers.go:507-555 | A pile-up reported with observed value v implies at least v workers between start and completion for that service at that instant. |
| `Isolation.TraceIdsInResource` | processor/incidentaryprocessor/processor.go:688-698 | The loops collect exactly the trace ids of the resource's spans. |
| `Isolation.IsolateTrace` | processor/incidentaryprocessor/processor.go:703-728 | The append loops, creating a scope only when its first span turns up, build the isolated copy the next rows speak of. |
| `Isolation.IsolatedHoldsTheTrace` | processor/incidentaryprocessor/processor.go:703-728 | The isolated copy holds exactly the trace's spans, in their original order. |
| `Isolation.NoEmptyScope` | processor/incidentaryprocessor/processor.go:715-720 | No scope of an isolated copy is empty. |
| `Isolation.ScopesKeepTheirOrder` | processor/incidentaryprocessor/processor.go:709-726 | The scopes of an isolated copy are original scopes, in order, with scope and schema unchanged and cut down to the trace. |
| `Isolation.IsolationPartitions` | processor/incidentaryprocessor/processor.go:415-421 | Over the trace ids present, visited in any order, the isolated copies hold every span of the resource exactly once, and their sizes sum to the original. |
| `Ring.Ring.Insert` | internal/buffer/ring.go:87-119 | Map, order slice and cached count after an insert are those of the list of whole traces after it; the count returned is the number of spans stored. What the entries then hold is `Ring.Ring.HeldSinceLastAbsent`. |
| `Ring.Ring.HeldSinceLastAbsent` | internal/buffer/ring.go:87-119 | In every valid ring the map entry of a trace holds exactly the chunks inserted since the trace was last absent, their times, and as newest the greatest of these. |
| `Ring.Ring.Drain` | internal/buffer/ring.go:123-143 | A drain returns and removes all of one trace and nothing else; the negative clamp on the count is unreachable. |
| `Ring.Ring.PruneByTime` | internal/buffer/ring.go:162-166 | Exactly the traces whose newest span is before the window leave; the count returned is how many. |
| `Ring.Ring.EvictByTime` | internal/buffer/ring.go:168-194 | In-place filtering of the order keeps exactly the traces whose newest span is inside the window, in their order; map and count follow; the clamp is unreachable. |
| `Ring.Ring.EvictByCount` | internal/buffer/ring.go:196-214 | The eviction loop removes the shortest prefix of the order that restores the cap. |
| `Ring.Ring.RemoveFromOrder` | internal/buffer/ring.go:216-223 | One trace leaves the order; the rest keeps its order. |
| `Ring.Weigh` | internal/buffer/ring.go:134-138 | The nested counting loops give the number of spans of the chunks. |
| `RingModel.InsertRespectsLimits` | internal/buffer/ring.go:113-118 | After an insert the span count is within MaxSpans, every resident trace's newest time, which is that of its latest insert by `RingModel.NewestIsTheLatestInsert`, is inside the window, and no shorter prefix of evictions would have done. |
| `RingModel.TracesAreWhole` | internal/buffer/ring.go:84-143 | Whatever inserts, drains, prunings and evictions happened, the ring holds for a trace exactly the chunks inserted for it, in order, since it last left; a trace is never partly present. |
| `RingModel.NewestIsTheLatestInsert` | internal/buffer/ring.go:104-110 | In every run a resident trace's times are the clock readings of its inserts since it was last absent, and its newest the greatest of them. |
| `RingModel.TimeEvictsIffAllAreOld` | internal/buffer/ring.go:162-194 | Pruning makes a resident trace leave if and only if every insert of its current stay, the latest included, was before the window. |
| `RingModel.InsertEvictsIffAllAreOld` | internal/buffer/ring.go:113-115 | An insert evicts another trace by time on the same terms, before anything is evicted by count. |
| `RingModel.ListedByArrival` | internal/buffer/ring.go:168-223 | Over whole runs the order lists the traces by when their current stay began. |
| `RingModel.StepMembers` | internal/buffer/ring.go:87-223 | Every trace resident after a call was there before, whole, or is the one inserted into; a drained one is gone. |
| `RingModel.AbsentTraceDrainsNothing` | internal/buffer/ring.go:127-130 | Draining an absent trace returns nothing and changes nothing. |
| `DlqStore.Store.Save` | processor/incidentaryprocessor/dlq_persister.go:42-110 | Whichever file-system operation fails, the old file stays; it is replaced, by the header and all records of the queue, if and only if every entry marshals and every operation succeeds. An empty queue removes the file, as far as that succeeds. |
| `DlqStore.Store.WriteRecords` | processor/incidentaryprocessor/dlq_persister.go:75-95 | The writing loop gets through if and only if every entry marshals and no write fails, and has then written exactly the records. |
| `DlqStore.Store.Load` | processor/incidentaryprocessor/dlq_persister.go:120-180 | The reading loop returns what decoding and unmarshalling up to the first failure gives for the bytes that could be read; a missing file is an empty queue, one that cannot be opened an error. |
| `DlqFile.CutRecords` | processor/incidentaryprocessor/dlq_persister.go:144-179 | Records cut at any byte: the wholly contained ones come back unchanged and in order, with an error exactly if something is missing or refused. |
| `DlqFile.TruncatedFileLoads` | processor/incidentaryprocessor/dlq_persister.go:133-179 | For every queue and every cut point, loading the first k bytes of its file yields exactly the records wholly inside them, and an error if and only if the file is cut short or a payload is over the bound. |
| `DlqFile.RoundTripExactly` | processor/incidentaryprocessor/dlq_persister.go:67-179 | Loading a saved queue is the identity if and only if it has at most 1,000,000 entries and no payload over 64 MiB, two bounds the saver does not enforce; what is lost otherwise is stated. Negative times survive the unsigned cast. |
| `DlqFile.HeaderLayout` | processor/incidentaryprocessor/dlq_persister.go:67-74 | The header is one byte of value 1 and the entry count in eight bytes, most significant first. |
| `DlqFile.RecordLayout` | processor/incidentaryprocessor/dlq_persister.go:80-95 | A record is the payload's length in four bytes, the enqueue time in eight, in two's complement, the attempts in four, each most significant first, and then the payload. |
| `DlqFile.EncodingIsInjective` | processor/incidentaryprocessor/dlq_persister.go:67-95 | Two queues within the bounds never share a file. |
| `DlqFile.LoadIsBounded` | processor/incidentaryprocessor/dlq_persister.go:133-179 | On arbitrary bytes the loader returns at most the header's count and no more than the file has room for, and reports success only for the full count. |
| `DlqFile.LoadTakesTheFront` | processor/incidentaryprocessor/dlq_persister.go:120-179 | Any bytes: without a header, with another version or a count over 1,000,000 nothing is recovered; otherwise what is recovered are the records that make up the front of the file, as many as announced or, with an error, as many as come before the first that is cut short or over 64 MiB. |
| `DlqFile.ReencodingReproducesTheFile` | processor/incidentaryprocessor/dlq_persister.go:67-179 | Saving what a file loaded to reproduces exactly the bytes that were read. |
| `DlqStore.SavedQueueLoadsBack` | processor/incidentaryprocessor/dlq_persister.go:42-180 | With a codec that undoes itself a saved queue loads back whole, or up to the first oversized payload with an error. |
| `DlqStore.InterruptedLoad` | processor/incidentaryprocessor/dlq_persister.go:120-179 | A load of a saved queue that stops being able to read after any number of bytes still recovers exactly the entries of the records wholly read, with an error. |
| `DlqStore.LoadStopsAtABadPayload` | processor/incidentaryprocessor/dlq_persister.go:164-178 | A load ends, with an error, at the first payload that does not unmarshal; every record before it comes back as written. |
| `Dlq.Queue.Restore` | processor/incidentaryprocessor/processor.go:189-195 | Start takes as much of the loaded file as fits under the cap, from its front. |
| `Dlq.Queue.EnqueueDlq` | processor/incidentaryprocessor/processor.go:225-246 | A full queue loses its oldest entry, and the new one goes to the end with no attempts. |
| `Dlq.Queue.SnapshotAndClear` | processor/incidentaryprocessor/processor.go:264-275 | A drain starts by taking everything. |
| `Dlq.Queue.MergeStillFailing` | processor/incidentaryprocessor/processor.go:304-321 | Prepending and trimming leaves the newest 32; with nothing still failing the queue is not touched. |
| `Dlq.RetryPending` | processor/incidentaryprocessor/processor.go:277-302 | For any send outcomes the entries that go back are, in order, the failed ones below five attempts, each with one attempt more; membership is said entry by entry, with the literal bound. |
| `Dlq.StillFailingMembers` | processor/incidentaryprocessor/processor.go:290-302 | An entry goes back if and only if it is a pending one with at most three attempts whose send failed, with one attempt more. |
| `Dlq.Queue.DrainOnce` | processor/incidentaryprocessor/processor.go:264-322 | A drain with nothing in between leaves exactly the still failing entries; which these are is `Dlq.StillFailingMembers`, and what that means over runs is `DlqRuns.LeavesOnlyFourWays`. |
| `DlqRuns.StepKeepsInv` | processor/incidentaryprocessor/processor.go:225-322 | Every critical section and every send, in any interleaving, keeps the queue in enqueue order, bounded, with attempts counting drains and sends. |
| `DlqRuns.DlqIsBounded` | processor/incidentaryprocessor/processor.go:83-87 | At every point of every interleaving: at most 32 entries queued and 64 live, queued attempts between 0 and 4, live entries in enqueue order, every entry gone once five drains begun after it are over, no batch sent more than six times. |
| `DlqRuns.MergeKeepsTheNewest` | processor/incidentaryprocessor/processor.go:304-321 | A merge keeps exactly the newest 32 of the still failing and the newly enqueued; whatever it drops was enqueued before everything it keeps. |
| `DlqRuns.SendOutcome` | processor/incidentaryprocessor/processor.go:277-302 | A send that succeeds, or the fifth retry that fails, takes the entry out; any other failure leaves it in its place with one attempt more. |
| `DlqRuns.EnqueueOutcome` | processor/incidentaryprocessor/processor.go:225-246 | Enqueueing puts the batch last, with no attempts, and pushes out the oldest queued entry if and only if 32 are queued. |
| `DlqRuns.LeavesOnlyFourWays` | processor/incidentaryprocessor/processor.go:225-322 | In every run an entry leaves if and only if its send succeeds, its fifth retry fails, a new batch pushes it out of a full queue, or 32 newer ones are left at the end of a drain. |
| `DlqRuns.FailedRetryGoesBack` | processor/incidentaryprocessor/processor.go:290-302 | In every run a failed retry of an entry with at most three attempts leaves it with one more, one with four removes it, and attempts count its sends after the first. |
| `DlqRuns.RestartResumes` | processor/incidentaryprocessor/processor.go:179-201 | A queue saved at shutdown and restored at the next start resumes with the same batches, times, attempts and order, if no payload is over the loader's bound. |
| `Pipeline.StepConserves` | processor/incidentaryprocessor/processor.go:225-322 | Each critical section of ring and queue, and each send, moves spans between places without creating or losing any. |
| `Pipeline.EveryRunConserves` | processor/incidentaryprocessor/processor.go:400-532 | Conservation: after every interleaving of workers, pruning and one drainer, with any send outcomes, the multiset of spans ever inserted, or restored at start, equals resident + evicted by time + evicted by count + in a worker's hands + delivered + queued + held by the drain in progress + dropped. |
| `Pipeline.LedgerMeans` | processor/incidentaryprocessor/processor.go:225-322 | What the books say: spans are delivered exactly when a send of their batch succeeds, dropped exactly when a full queue, a fifth failed retry or a merge gives them up, evicted by an insert or a pruning only. |
| `Pipeline.WeightIsTheNumberOfSpans` | internal/buffer/ring.go:196-214 | The weight compared with MaxSpans is the number of spans held. |
| `Pipeline.BufferingInsertsEachSpanOnce` | processor/incidentaryprocessor/processor.go:415-421 | Buffering a resource trace by trace, in any order of its trace ids and whatever is evicted meanwhile, inserts each of its spans exactly once. |
| `Breaker.TraceBreaker.Observe` | processor/incidentaryprocessor/trace_breaker.go:113-133 | One more observation in the history; it answers a tier exactly when it is the 5,000th, 50,000th or 500,000th of the trace's budget. |
| `Breaker.TraceBreaker.ShouldDrop` | processor/incidentaryprocessor/trace_breaker.go:138-146 | True if and only if at least 500,000 observations of the trace happened since it was last swept. |
| `Breaker.TraceBreaker.ShouldTruncate` | processor/incidentaryprocessor/trace_breaker.go:151-159 | True if and only if at least 50,000 did. |
| `Breaker.TraceBreaker.PruneStale` | processor/incidentaryprocessor/trace_breaker.go:164-176 | Deleting while ranging over the map in any order removes exactly the entries idle beyond the TTL and counts them. |
| `Breaker.CounterIsBudget` | processor/incidentaryprocessor/trace_breaker.go:113-176 | After any run the entry of a trace counts its observations since a sweep last found it idle, whatever other traces did. |
| `Breaker.TiersAreAnsweredOnce` | processor/incidentaryprocessor/trace_breaker.go:113-133 | A tier is answered exactly at the 5,000th, 50,000th and 500,000th observation of a budget. |
| `Breaker.AnswersAreAPrefix` | processor/incidentaryprocessor/trace_breaker.go:113-133 | The answers a trace gets within one budget are always a prefix of warn, truncate, breaker. |
| `Breaker.DropIffHalfAMillion` | processor/incidentaryprocessor/trace_breaker.go:138-146 | A trace is dropped if and only if at least 500,000 observations happened since it was last swept. |
| `Breaker.TruncateIffFiftyThousand` | processor/incidentaryprocessor/trace_breaker.go:151-159 | A trace is at the truncate tier or over it if and only if at least 50,000 observations happened since it was last swept. |
| `Breaker.SweepResetsIdleBudgetsOnly` | processor/incidentaryprocessor/trace_breaker.go:164-176 | A sweep resets the budgets of exactly the traces idle beyond the TTL. |
| `BatchModel.EachIdOnce` | processor/incidentaryprocessor/processor.go:428-438 | Of a batch each span id is evaluated exactly once, at its first visit. |
| `BatchModel.DuplicatedBatchIsEvaluatedOnce` | processor/incidentaryprocessor/processor.go:404-408 | A batch whose every ResourceSpans is delivered twice, as by a fan-out pipeline, is evaluated like the batch itself. |
| `BatchModel.SpanIdSufficesIff` | processor/incidentaryprocessor/processor.go:434-438 | Skipping by span id alone evaluates what skipping by trace and span id would if and only if no span id of the batch occurs in two traces. |
| `BatchModel.EveryVisitCosts` | processor/incidentaryprocessor/processor.go:440-452 | Every span not skipped costs its own trace one unit of breaker budget, evaluated or dropped, and no other trace anything. |
| `BatchModel.FlushTargetsAreARecount` | processor/incidentaryprocessor/processor.go:462-465 | The traces a call decides to flush, which are those of `BatchModel.TargetsAreWhatFired`, are those a recount of every service's full log would flush, if timestamps never go back within a service, and those that plain scans of the logs would flush, if moreover keys are sparse. |
| `BatchModel.TargetsAreWhatFired` | processor/incidentaryprocessor/processor.go:434-476 | From the histories alone: a trace is to be flushed if and only if some span of it was evaluated and the evaluator answered the completion of that span with a report. The spans evaluated are the server and client spans of a named service that took from nothing to an hour, in traces with fewer than 500,000 observations; their completions are told field by field. |
| `BatchModel.FirstsAreFirst` | processor/incidentaryprocessor/processor.go:434-438 | The visits evaluated are, in the order of the walk, those before which their span id was not met. |
| `BatchModel.WalkMeetsEverySpan` | processor/incidentaryprocessor/processor.go:423-433 | The walk meets every span of every resource, in order, under its resource's service. |
| `BatchModel.WalkKeepsDurations` | processor/incidentaryprocessor/processor.go:547-553 | No completion with a duration outside [0, 1 h] ever reaches the evaluator. |
| `Processor.Processor.constructor` | processor/incidentaryprocessor/processor.go:89-156 | A new processor has an empty ring with the configured limits, an empty queue, an evaluator with the configured thresholds and a breaker that forgets after twice the window. |
| `Processor.Processor.EvaluateSpan` | processor/incidentaryprocessor/processor.go:534-565 | Rejected spans raise no evaluator call; a server span is started and completed, a client span only completed; the answer is that of the completion. |
| `Processor.Processor.VisitSpan` | processor/incidentaryprocessor/processor.go:434-476 | Duplicate skipping, breaker and evaluation of one span advance the histories as the batch model says; a blacklisted trace is decided by its budget, not by the counter. Which traces that makes targets is `BatchModel.TargetsAreWhatFired`. |
| `Processor.Processor.BufferResource` | processor/incidentaryprocessor/processor.go:415-421 | Every trace id present gets exactly one insert of its isolated copy, in some order. |
| `Processor.Processor.FlushTargets` | processor/incidentaryprocessor/processor.go:481-513 | Every target is drained once, in some order, and the batches whose send failed join the dead-letter queue in that order; the drain of one target sees what was held when flushing began. |
| `Processor.Processor.ConsumeTraces` | processor/incidentaryprocessor/processor.go:400-532 | The whole call: histories, ring, queue and answer afterwards, and that ring and queue move along a run of the pipeline machine. Buffering depends on no breaker or trigger; a trace is flushed if and only if some evaluated span of it made the evaluator report, said from the histories alone; without pass-through the call fails if and only if a send failed. |
| `Flow.OthersSurviveDrains` | processor/incidentaryprocessor/processor.go:481-485 | Draining some traces changes nothing of what is held for the others. |
| `Flow.FlushedTracesAreGone` | processor/incidentaryprocessor/processor.go:481-485 | After a flush nothing is held for any of its traces. |
| `Flow.FailedBatchesAreFailed` | processor/incidentaryprocessor/processor.go:481-513 | The batches queued are, in order, those of the targets for which something was held and whose send failed. |
| `Flow.QueueHoldsTheNewest` | processor/incidentaryprocessor/processor.go:225-246 | After a flush the queue holds the newest 32 of what it held and of the failed batches, these with no attempts. |
| `Separation.CallIsInTheLog` | processor/incidentaryprocessor/processor.go:415-421 | In the log of the ring a call is one insert per resource and trace id, of the isolated copy under that id, and then one drain per target; so what is proved of every run of the ring holds across calls. |
| `Separation.TracesNeverMix` | processor/incidentaryprocessor/processor.go:409-421 | In every run of the ring that inserts isolated copies no trace ever holds a span of another. |
| `Separation.EveryBatchIsOneTrace` | processor/incidentaryprocessor/processor.go:409-513 | A call keeps it so, and every batch it drains, sends or queues holds spans of one trace only, the one it was flushed for. |
| `Flow.CallIsARun` | processor/incidentaryprocessor/processor.go:400-532 | One call takes ring and queue along a run of the pipeline machine, from whatever state that is in, inserting exactly the spans of the batch and leaving other workers' batches and a drain in progress alone. |
| `Flow.CallConserves` | processor/incidentaryprocessor/processor.go:400-532 | Hence every span that was in the places of the ledger as often as it was inserted still is after the call, with the spans of the batch inserted. |

## Left out

- Rounding of `float64` and the wrap-around of `int64` counters: `real` and unbounded integers instead.
- Timestamps before 1970, for which the bucket index of the code would be negative, and span timestamps from 2262 on: times of completions are natural numbers.
- EvaluatorModel.RunIsARecount: its reference misses the retries of keys whose slot was taken over (`Recount.Forgotten`), which depends on where the other keys sit in the table; `RetryTable.NinthKeyEvictsTheFirst` shows such a run, `Recount.RetryIsAScan` says which answers differ from a plain scan, and EvaluatorModel.RunIsAScan when none does.
- BatchModel.FlushTargetsAreARecount: requires timestamps that never go back within a service, as does EvaluatorModel.RunIsARecount; for other orders the windows count undisplaced arrivals only (`SlidingWindow.ExactIffNoneDisplaced`), which is what `ServiceState.State.Complete` states without that condition.
- Workers.RunKeepsBound: counts workers per service name, so a service evicted and readmitted while workers are inside it only loosens the bound.
- Processor.Processor.ConsumeTraces: one call with nothing in between; interleavings of several calls are the subject of `Workers`, `DlqRuns` and `Pipeline`, each over the objects it needs.
- Processor.Processor.WalkResources: the loop body is split over the methods `WalkResource`, `EvaluateResource` and `VisitSpan`, which the code writes as one nest of loops; the per-service part of `OnRequestComplete` is likewise a method of `ServiceState.State`.
- ServiceState.State.RecordIfSuccessLike: keeps the baseline in the service state, not in a window type of its own.
- Ring.Ring.Drain: trace entries are values in the map rather than references to records; the code shares none of them.
- DlqStore.Store.Save: the temporary file is a local value, so a leftover one after a failed clean-up is not part of this model; neither is a crash between two operations, where the old file is still the one in place.
- DlqStore.SavedQueueLoadsBack: protobuf marshalling is a codec assumed to undo itself.
- DlqRuns.RestartResumes: what a drain in progress holds at shutdown is not saved by the code, and the loaded file is not removed at start; neither exactly-once delivery nor no loss across restarts is claimed.
- Extraction of service name, status code and retry key from attributes, and the hash itself: fields of the span. Its constant is not the FNV-1a offset basis, so nothing is claimed about the hash but that it is non-zero for a key.
- HTTP forwarding, address checks, telemetry, logging, tickers, factory, sidecar, packaging: no state of their own worth proving. The metric counters do not reconcile (a drop in the merge after a retry emits none), so the ledger of `Pipeline` is ghost.
- Routing conditions and `InFlightNetGrowth`: configured, but unused by the code modelled.
- `Services`, `Len`, `Traces`, `size`, `dlqSize`: they read one field under the lock.
