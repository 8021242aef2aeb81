# CA-DNS: a verified model

CA-DNS answers DNS queries from a PostgreSQL store of measured addresses, greenest first. BIND asks
the store through a small C module; a monitor and workers keep it fresh through a leased queue; a
collector watches BIND's dnstap stream for names to measure. This project models those parts and
proves what they promise, over every input, every tie-break and every run.

| module | models |
|---|---|
| `Common` | options, time, SQL aggregates |
| `Queue`, `QueueSafety`, `QueueFairness`, `QueueColumns` | the measurement queue as a concurrent protocol, and its statements on the columns |
| `Database`, `AnswerPolicy`, `AnswerGuarantees`, `AnswerTables` | the tables, `dlz_findzone` and `dlz_lookup`, and what they promise in terms of rows alone |
| `Resolvers`, `Measurement`, `Provenance` | upstream messages, classification, the measurement transaction, and the way from messages to answers |
| `Garbage`, `Collector`, `Lifecycle`, `QueueHistory` | garbage collection, event batching, histories of all transactions, and the queue inside them |
| `DlzThread`, `DlzGuarantees`, `ConnPool` | the BIND module: probe state, row cache, connection free-list |
| `FrameStreams`, `Dnstap` | the wire codecs and the session loop |
| `Scheduler` | the monitor's periodic loop |

How the model reads the code:

- Each SQL transaction is one atomic step with an explicit `now`, in microseconds. `random()` is an
  arbitrary permutation and an unordered `LIMIT` an arbitrary choice, so results hold for all of them.
- Objects that the code changes in place are classes (`QueueTable`, `Store`, `Batch`, `ThreadState`,
  `FreeList`, `Schedule`); each changing method is proved equal to a function of the old state, and
  the theorems are about those functions. Loops stay loops.
- Runs and histories are finite sequences of any length; workers, clients and clocks are whatever
  the sequence says. What libpq, upstream resolvers, the clock and the stop event return is a parameter.

Where a promise does not hold everywhere, the model keeps the code and shows both sides:

- Under every policy a pending row with no attempts left can exist once stale locks were taken over
  (`TakeoverExceedsBound`); without takeovers it cannot (`AttemptsBounded`).
- The row cache and the search treat names of 1025 characters and more differently: the cache keeps
  a shortened name (`LongNamesLeak`, exact condition in `TruncationDecides`), and the search fetches
  a parent (`LongNameFetchesParent`). BIND formats names into 1025 bytes with the terminator, so such
  names reach the functions only from another caller.
- docs/architecture.md:289-292 says a probe is misread only towards recursion: `InterruptedSearchHides` shows
  such a misread after a search that BIND broke off, `ExactNameSearch` that it can only hide a name.
- Batching loses hits on a name the same batch adds: a new name ends the same under every split
  exactly when no hit of it comes after a miss (`NewNamesAgreeIff`).
- A newline inside an offered content type fools the READY test (`NewlineFoolsOfferTest`), and an empty
  offer passes it for the empty content type; the test is list membership exactly without these
  (`OfferTestIsMembershipIff`).
- The BIND module rejects answers of more than 64 rows: out of reach exactly up to answer_k = 31
  (`RowLimitReachedFrom32`).

## Model

| member | source | states |
|---|---|---|
| Queue.RetryDelayDoubles | services/src/cadns/queue/pg.py:37-38 | the retry delay starts at the base, doubles with each attempt until the cap, and never shrinks |
| Queue.OldestExists | services/src/cadns/queue/pg.py:75-83 | a choice of the oldest ready rows exists for every table and limit, of size min(limit, ready), with no older ready row left out |
| Queue.QueueTable.Enqueue | services/src/cadns/queue/pg.py:41-62 | inserts missing domains, revives dead rows past their cooldown, leaves every other row, and returns exactly those changed |
| Queue.QueueTable.Claim | services/src/cadns/queue/pg.py:65-89 | locks and counts exactly a set of oldest ready rows within the limit, and returns their jobs with the new attempt count |
| Queue.QueueTable.Complete | services/src/cadns/queue/pg.py:92-96 | deletes the row if the worker still holds it, else nothing |
| Queue.QueueTable.Fail | services/src/cadns/queue/pg.py:99-112 | frees a held row, dead or retried later by the handle's attempt count; reports that state even when the row was lost |
| Queue.QueueTable.Release | services/src/cadns/queue/pg.py:115-122 | frees a held row and gives its attempt back, never below zero |
| Queue.RowByRow | services/src/cadns/queue/pg.py:41-122 | every set-oriented statement acts on each row by that row alone |
| QueueSafety.LeaseKept | services/src/cadns/queue/pg.py:65-122 | over any run, a claimed domain stays pending and locked, since no earlier than the claim, until its holder settles it |
| QueueSafety.ClaimsAreApart | services/src/cadns/queue/pg.py:76-79 | two claims of a domain with no settling step of its holder between them are more than lock_timeout apart |
| QueueSafety.HolderRowUntouched | services/src/cadns/queue/pg.py:92-122 | whatever displaced holders and everyone else do, the newest holder's row stays exactly as its claim left it |
| QueueSafety.ReachableWellFormed | services/src/cadns/queue/pg.py:41-122 | in every reachable table dead rows are unlocked, locked rows have attempts >= 1, attempts are never negative |
| QueueSafety.DeadRowsWait | services/src/cadns/queue/pg.py:46-58 | a dead row changes only by collection or by an enqueue at or after its cooldown, which makes it a fresh row |
| QueueSafety.FailureSetsBack | services/src/cadns/queue/pg.py:99-112 | a failure by the holder unlocks the row, keeps its place and count, and delays it by the backoff or buries it for the cooldown |
| QueueSafety.AttemptsCountClaims | services/src/cadns/queue/pg.py:41-122 | attempts equals claims minus releases since the last enqueue or revival, in every reachable table |
| QueueSafety.AttemptsBounded | services/src/cadns/queue/pg.py:99-122 | without takeovers every handle is the only one of a row its worker holds, and every unlocked pending row has attempts < max_attempts |
| QueueSafety.TakeoverExceedsBound | services/src/cadns/queue/pg.py:76-79 | for every policy, name and workers, a run of stale takeovers and a release in which that bound fails |
| QueueColumns.EnqueueColumns | services/src/cadns/queue/pg.py:46-58 | a row is made afresh exactly for a listed domain that is missing, or dead past its cooldown; every other row stays |
| QueueColumns.DeadRowRevived | services/src/cadns/queue/pg.py:50-55 | in every run a dead row becomes pending exactly by an enqueue past its cooldown, as a fresh row |
| QueueColumns.ClaimColumns | services/src/cadns/queue/pg.py:75-83 | a claim takes pending rows that are due and unlocked or stale, and leaves such a row out only when `limit` rows no younger were taken |
| QueueColumns.ClaimedColumns | services/src/cadns/queue/pg.py:72-84 | a claimed row is locked by the worker since now with one more attempt and is otherwise unchanged; other rows stay |
| QueueColumns.SettledColumns | services/src/cadns/queue/pg.py:92-122 | the holder's complete removes the row, its release returns exactly one attempt, its failure records at most 1000 characters of the error; anyone else's settling changes nothing |
| QueueColumns.BackoffRespected | services/src/cadns/queue/pg.py:77 | over runs, a failed row that is to be retried is not claimed before its retry delay has passed |
| QueueColumns.CooldownRespected | services/src/cadns/queue/pg.py:54-55 | over runs, a row whose last attempt failed is not claimed, and is revived only when its cooldown has passed, unless it was collected |
| QueueFairness.PlaceKept | services/src/cadns/queue/pg.py:99-112 | claims, retries and releases keep a row's place; only an insert or revival moves it, to the time of that step |
| QueueFairness.WaitingRow | services/src/cadns/queue/pg.py:46-58 | a row not yet claimed since its enqueue is untouched, hence ready at every later claim |
| QueueFairness.Ledger | services/src/cadns/queue/pg.py:71-87 | claims made while a row waits are paid for by the attempts left to the rows in front of it, plus releases |
| QueueFairness.BoundedOvertaking | services/src/cadns/queue/pg.py:71-87 | a row enqueued behind n rows sees at most n * max_attempts claims of others (plus one per release) before its own |
| QueueFairness.EventuallyClaimed | services/src/cadns/queue/pg.py:65-89 | no starvation: more claim calls than that bound do claim the row |
| AnswerPolicy.RankSorts | db/migrations/0002_dlz_functions.sql:66-81 | for every random order, ranking is a permutation of it sorted by MOER with unknown MOER last |
| AnswerPolicy.EveryRankingArises | db/migrations/0002_dlz_functions.sql:68-71 | every ranking sorted by MOER is the result of some random order, so the model leaves none out |
| AnswerPolicy.ChosenAreCandidates | db/migrations/0002_dlz_functions.sql:82-86 | the chosen are min(k, candidates) distinct candidates in rank order, none dirtier than one left out |
| AnswerGuarantees.FreshnessFormsAgree | services/src/cadns/metrics.py:62-72 | dlz_findzone, "now before the minimum over types of the last expiry" and the served-domains gauge agree for every record set and instant |
| AnswerGuarantees.StoredTypesHaveCandidates | db/migrations/0002_dlz_functions.sql:8-25 | in a served name the stored types are exactly those with a fresh address |
| AnswerGuarantees.LookupNonEmptyIffServed | db/migrations/0002_dlz_functions.sql:42-57 | dlz_lookup is non-empty exactly at the apex of a name that dlz_findzone accepts |
| AnswerGuarantees.GreenestAnswer | db/migrations/0002_dlz_functions.sql:58-86 | each type's answer is min(k, candidates) fresh addresses, none dirtier than an unchosen one, and every stored type of a served name appears |
| AnswerGuarantees.RowsInRankOrder | db/migrations/0002_dlz_functions.sql:100-115 | the rows of a type come in order of MOER and never repeat an address |
| AnswerGuarantees.HostTtls | db/migrations/0002_dlz_functions.sql:87-94 | rows of a type share one TTL within 1..max_answer_ttl that never passes a returned address's expiry, but for the 1 s floor |
| AnswerGuarantees.TtlIsLongest | db/migrations/0002_dlz_functions.sql:87-94 | one second more would exceed the cap or outlive a returned address |
| AnswerGuarantees.ApexTtls | db/migrations/0002_dlz_functions.sql:95-115 | SOA and NS come first; their TTL and the SOA minimum are the smallest address TTL |
| AnswerGuarantees.SerialIsNewest | db/migrations/0002_dlz_functions.sql:95-99 | the SOA serial is the newest resolution time among the returned addresses, in seconds modulo 2^32 |
| AnswerGuarantees.AnswerSize | db/migrations/0002_dlz_functions.sql:100-115 | the exact number of rows of an answer; for answer_k <= 31 it stays within the BIND module's limit |
| AnswerGuarantees.RowLimitReachedFrom32 | resolver/dlz_pgsql/src/dlz_pgsql.c:236-239 | for answer_k <= 31 the module never rejects an answer for its row count; from 32 on it rejects every name with 32 fresh addresses of each type |
| AnswerTables.NormalizeIs | db/migrations/0001_init.sql:35-37 | a stored name is the given one without trailing dots, in lower case |
| AnswerTables.ServedIff | db/migrations/0002_dlz_functions.sql:13-25 | dlz_findzone on the rows: a known name with a record, each stored type of which has an unexpired one |
| AnswerTables.AnsweredIff | db/migrations/0002_dlz_functions.sql:51-57 | dlz_lookup answers exactly at the apex ('@', '' or the name itself) of such a name |
| AnswerTables.EmittedOnTables | db/migrations/0002_dlz_functions.sql:58-65 | each type's answer holds min(answer_k, addresses with an unexpired record) of those addresses |
| AnswerTables.GreenestOnTables | db/migrations/0002_dlz_functions.sql:66-86 | by the newest carbon points of their regions, no emitted address is dirtier than a fresh one left out; an anycast, unlocated or signal-less one is emitted only when every rated one is |
| AnswerTables.OrderedOnTables | db/migrations/0002_dlz_functions.sql:66-81 | the rows of a type are in that order |
| AnswerTables.TtlOnTables | db/migrations/0002_dlz_functions.sql:87-94 | a row's TTL against the expires_at of records: none outlived but for the 1 s floor, and not a second shorter than the cap or the first returned address to expire allows |
| AnswerTables.ApexRows | db/migrations/0002_dlz_functions.sql:100-110 | SOA and NS from the settings with the fixed timers, the TTL as SOA minimum |
| AnswerTables.SerialOnTables | db/migrations/0002_dlz_functions.sql:95-98 | the serial is the newest resolved_at among unexpired records of the returned addresses, in seconds modulo 2^32 |
| Resolvers.NegativeTtl | services/src/cadns/resolvers/pool.py:78-82 | the smaller of TTL and minimum of the first SOA in the authority section, none without a SOA |
| Resolvers.ParseResponse | services/src/cadns/resolvers/pool.py:46-75 | the loop with its hop limit computes the recursive chain-following function, with the status of every rcode |
| Resolvers.ParseFollowsChain | services/src/cadns/resolvers/pool.py:57-75 | NOERROR gives addresses exactly when the CNAME chain reaches the RRset within 16 hops, with the smallest TTL on the way; else NODATA with the negative TTL |
| Resolvers.LoopIsNoData | services/src/cadns/resolvers/pool.py:57-75 | a chain that revisits a name never reaches addresses and gives NODATA |
| Resolvers.ParseStatus | services/src/cadns/resolvers/pool.py:46-52 | for every message the status tells the rcode, only NOERROR and NXDOMAIN are definitive, and NXDOMAIN has the negative TTL and no addresses |
| Resolvers.AskedAndAnswered | services/src/cadns/resolvers/pool.py:110-120 | an answer is definitive exactly when a NOERROR or NXDOMAIN message came back, and holds exactly the addresses a NOERROR message's chain leads to within 16 hops |
| Measurement.RecordsAreAnswers | services/src/cadns/worker/pipeline.py:41-47 | the records of an outcome hold the addresses of all answers and nothing else |
| Measurement.StoredOnlyWhenSettled | services/src/cadns/worker/pipeline.py:73-82 | with answers shaped by the resolver pool, an outcome is not failed exactly when both types got a definitive answer |
| Measurement.NegativeBackoff | services/src/cadns/worker/pipeline.py:87-91 | a negative outcome backs off by the shortest negative TTL of any answer, clamped to the configured limits |
| Measurement.ClassifyCases | services/src/cadns/worker/pipeline.py:79-91 | failed exactly when some asked type has neither NOERROR nor NXDOMAIN, else resolved, NXDOMAIN or NODATA by addresses and statuses, with the retry delay of each |
| Measurement.UpsertEndpoints | services/src/cadns/worker/store.py:156-190 | the two passes over the endpoints compute the upsert of located ones, then the insert of unlocated ones |
| Measurement.EndpointsStored | services/src/cadns/worker/store.py:156-190 | every endpoint ends up stored: a located one with its new row, an unlocated one never overwriting a known row |
| Measurement.StoredEndpoints | services/src/cadns/worker/store.py:156-190 | the endpoint table after the transaction, row by row, addresses not measured included |
| Measurement.InsertRecords | services/src/cadns/worker/store.py:193-206 | the insert loop computes the table with every record, or the abort at the first constraint it violates |
| Measurement.InsertSucceedsIff | services/src/cadns/worker/store.py:192-206 | the inserts go through exactly when no record repeats a key and every address has an endpoint |
| Measurement.StoredIff | services/src/cadns/worker/store.py:141-206 | the transaction goes through exactly for a failed outcome, or when no two records share type, address and resolver and every address is known |
| Measurement.StoredFromAnswers | services/src/cadns/worker/store.py:192-206 | one stored record per answer and address, with the answer's type, resolver and TTL, resolved now and expiring after max(ttl, min_record_ttl) seconds |
| Measurement.StoreMeasurement | services/src/cadns/worker/store.py:127-206 | one transaction: the whole new database, or no change when it rolls back |
| Measurement.StoredReplaces | services/src/cadns/worker/store.py:192-206 | a stored outcome that is not failed leaves the domain exactly the measured records, servable for max(ttl, min_record_ttl), and every other domain its own |
| Measurement.StoredTypes | services/src/cadns/worker/store.py:192-206 | the types stored are exactly those for which some resolver returned an address |
| Measurement.StoredRows | services/src/cadns/worker/store.py:141-154 | a failed outcome keeps records and endpoints; only this domain's status, measured_at and retry_after change |
| Garbage.DeleteInBatches | services/src/cadns/monitor/tasks.py:163-171 | whatever rows each LIMIT picks, the loop ends and deletes and counts exactly what one unlimited DELETE would |
| Garbage.DomainsSeparable | services/src/cadns/monitor/tasks.py:177-185 | deleting some idle domains leaves exactly the others matching, and two deletes equal one |
| Garbage.JobsSeparable | services/src/cadns/monitor/tasks.py:186-195 | the same for dead jobs of unknown names |
| Garbage.EndpointsSeparable | services/src/cadns/monitor/tasks.py:196-204 | the same for unreferenced endpoints |
| Garbage.SignalsSeparable | services/src/cadns/monitor/tasks.py:206-220 | the same for superseded carbon points, although each batch changes the table its own subquery reads |
| Garbage.CollectGarbage | services/src/cadns/monitor/tasks.py:174-221 | the four batched passes equal four unlimited deletes, and each count is the number of rows its table lost |
| Garbage.CollectedDomains | services/src/cadns/monitor/tasks.py:177-185 | a domain survives exactly when its last query, or first sight if never queried, is not before the cutoff |
| Garbage.CollectedRecords | services/src/cadns/monitor/tasks.py:177-185 | a record goes exactly with its domain |
| Garbage.CollectedJobs | services/src/cadns/monitor/tasks.py:186-195 | a queue row is deleted exactly when dead, enqueued before the cutoff, and its name does not survive |
| Garbage.CollectedEndpoints | services/src/cadns/monitor/tasks.py:196-204 | an endpoint is deleted exactly when no surviving record names it and its location is missing or before its cutoff |
| Garbage.CollectedSignals | services/src/cadns/monitor/tasks.py:205-220 | a carbon point is deleted exactly when history is limited, it is before its cutoff, and its region has a later one |
| Garbage.NothingLeft | services/src/cadns/monitor/tasks.py:174-221 | after a pass no row matches any of the four conditions |
| Garbage.CollectedIsFixpoint | services/src/cadns/monitor/tasks.py:174-221 | a second pass at the same instant changes nothing |
| Garbage.LatestKept | services/src/cadns/monitor/tasks.py:207-220 | deleting superseded points does not change any region's newest point |
| Garbage.SurvivorsAnswerTheSame | services/src/cadns/monitor/tasks.py:174-221 | for every database, a surviving domain has the same dlz_findzone and dlz_lookup answers before and after, at every instant and for every random order |
| Collector.Batch.Add | services/src/cadns/collector/service.py:40-45 | adds one event to the counts and last times of its name and leaves every other name |
| Collector.Batch.AddAll | services/src/cadns/collector/service.py:40-45 | adding events one by one aggregates the whole stretch |
| Collector.WriteBatch | services/src/cadns/collector/service.py:52-92 | hits, misses and queue written in order: the whole new database and the names queued |
| Collector.BatchEffect | services/src/cadns/collector/service.py:52-92 | one batch has exactly the effect its events have one by one: counts, last times, new names, due names, queue |
| Collector.BatchesHaveEffect | services/src/cadns/collector/service.py:52-92 | any split of an event sequence into batches has the effect of the sequence |
| Collector.BatchingIsTransparent | services/src/cadns/collector/service.py:52-92 | two splits of the same events leave the same queue, the same names, and the same row for every name known beforehand |
| Collector.KnownNameColumns | services/src/cadns/collector/service.py:54-86 | whatever the batching, a known name's hits are added up, its last query is the latest, and no other column or table changes |
| Collector.QueuedByMissIff | services/src/cadns/collector/service.py:85-92 | batches change a name's queue row exactly when some miss finds it unknown, or neither backing off nor measured since, and it is not queued, or dead past its cooldown |
| Collector.OldMissesNeverEnqueue | services/src/cadns/collector/service.py:86-88 | a name that is backing off, or whose misses are no later than measured_at, is never queued |
| Collector.NewNamesAgreeIff | services/src/cadns/collector/service.py:54-92 | all splits leave a new name the same row exactly when no hit of it comes after a miss |
| Lifecycle.QueueSeesItsEvents | services/src/cadns/monitor/tasks.py:70-74 | every transaction changes the queue by one event of the queue protocol; scans, flushes and collections are legal steps of it |
| Lifecycle.RecordsComeFrom | services/src/cadns/worker/store.py:153-206 | over every history, stored records are exactly those of the last stored measurement that was not failed |
| Lifecycle.NoFalseNodata | services/src/cadns/worker/pipeline.py:73-91 | over every history from an empty store, when a name is served, a type is missing from the answer exactly when the last non-failed measurement was definitive for it and found no address |
| Provenance.NoFalseNodataByMessages | services/src/cadns/resolvers/pool.py:46-120 | the same down to DNS messages: each type was answered with NOERROR or NXDOMAIN, and a type is missing exactly when no NOERROR message's chain led to an address |
| Provenance.ServedWasReturned | services/src/cadns/resolvers/pool.py:46-120 | every address in an answer was at the end of the chain of a NOERROR message of that measurement, for the name and type asked |
| Lifecycle.RefreshLasts | services/src/cadns/worker/store.py:192-206 | a resolved measurement is servable for at least the smallest lifetime of its records |
| Lifecycle.ScanSelects | services/src/cadns/monitor/tasks.py:31-67 | a scan inside the lead time and after the re-measure interval selects an active domain |
| Lifecycle.ScanQueuesIff | services/src/cadns/monitor/tasks.py:43-74 | over histories, a scan changes a queue row exactly for a domain queried within the window, not backing off, not measured too recently, one of whose types runs out within the lead, and that is not queued or is dead past its cooldown |
| Lifecycle.RunsOutUnserved | services/src/cadns/monitor/tasks.py:45-58 | what runs out before an instant is not served just before it |
| Lifecycle.MeasureStep | services/src/cadns/worker/pipeline.py:110-129 | a measurement that rolls back changes nothing; one without addresses leaves the endpoints alone |
| Lifecycle.FlushQueuesIff | services/src/cadns/collector/service.py:52-92 | over histories, a flush queues a name exactly when one of its misses calls for it, and counts and dates every known name |
| Lifecycle.SignalSaved | services/src/cadns/worker/store.py:116-124 | a saved carbon point is stored, or replaces the one of its region and time, and decides the region while it is the newest |
| Lifecycle.RemeasuredInTime | services/src/cadns/monitor/tasks.py:31-74 | served data cannot run out before the next measurement, under the timing assumptions |
| Lifecycle.GapFreeService | services/src/cadns/monitor/tasks.py:31-74 | with S + D < lead and min_remeasure + S + D < T, dlz_findzone holds at every instant after the first measurement, over histories of any length |
| QueueHistory.HistoryIsQueueRun | services/src/cadns/queue/pg.py:41-122 | a history of all transactions from an empty queue, with workers keeping to the protocol, is seen from the queue a run of the protocol with the same tables and times |
| QueueHistory.HistoryClaimsAreApart | services/src/cadns/queue/pg.py:76-79 | over histories, two claims with no settling step of the holder between them are more than lock_timeout apart |
| QueueHistory.HistoryAttemptsCountClaims | services/src/cadns/queue/pg.py:41-122 | over histories, attempts equals claims minus releases since the domain was last queued |
| QueueHistory.ScannedIsClaimed | services/src/cadns/monitor/tasks.py:70-74 | a domain queued by an expiry scan is claimed once more claim calls were made than the rows in front and the releases use up |
| QueueHistory.ScannedIsMeasured | services/src/cadns/monitor/tasks.py:70-74 | hence it is measured within W + M, if those calls come within W and a claim leads to a measurement within M |
| DlzThread.ParentNameIff | resolver/dlz_pgsql/src/util.c:12-22 | a name is a parent exactly when the child is it, up to ASCII case, below something non-empty and a dot |
| DlzThread.FoldIff | resolver/dlz_pgsql/src/util.c:21 | names compare equal letter by letter up to ASCII case |
| DlzThread.PackedDisjoint | resolver/dlz_pgsql/src/dlz_pgsql.c:239-257 | packed strings occupy disjoint stretches, in order, inside the buffer |
| DlzThread.PackedReads | resolver/dlz_pgsql/src/dlz_pgsql.c:239-257 | packed rows read back from their recorded offsets exactly as given |
| DlzThread.ThreadState.PackRows | resolver/dlz_pgsql/src/dlz_pgsql.c:239-257 | the copy loop packs all rows exactly when none is NULL and they fit |
| DlzThread.ThreadState.StoreRows | resolver/dlz_pgsql/src/dlz_pgsql.c:224-264 | the cache afterwards holds the whole result or is unusable; never a part |
| DlzThread.ThreadState.Fetch | resolver/dlz_pgsql/src/dlz_pgsql.c:270-309 | without a query result the cache is kept and the result is a failure |
| DlzThread.ThreadState.FindZoneDb | resolver/dlz_pgsql/src/dlz_pgsql.c:428-454 | result and whole new thread state of a probe, in the fixed-size buffers |
| DlzThread.ThreadState.Lookup | resolver/dlz_pgsql/src/dlz_pgsql.c:456-489 | rows emitted, result and new thread state, for a cache hit, a fetch, and a refused row |
| DlzThread.ThreadState.PutRows | resolver/dlz_pgsql/src/dlz_pgsql.c:479-488 | emits the cached rows in order up to the first refused one |
| DlzGuarantees.CacheOrigin | resolver/dlz_pgsql/src/dlz_pgsql.c:224-264 | over any sequence of callbacks, whatever is cached was stored whole by one successful fetch, and no query since had a result |
| DlzGuarantees.RowCacheRefinesLookup | resolver/dlz_pgsql/src/dlz_pgsql.c:456-489 | emitted rows are those of one successful fetch by the same instance for the same name up to case: its own, or the last query with a result, at most 2 s old |
| DlzGuarantees.LookupAfterProbe | resolver/dlz_pgsql/src/dlz_pgsql.c:468-475 | a lookup within 2 s of the probe that found the zone emits that probe's rows without a query |
| DlzGuarantees.FetchResultIff | resolver/dlz_pgsql/src/dlz_pgsql.c:233-252 | success exactly for 1 to 64 rows of three fields, no NULL TTL, within 8192 bytes; not found exactly for no rows |
| DlzGuarantees.LookupResultIff | resolver/dlz_pgsql/src/dlz_pgsql.c:464-488 | over callbacks: not found exactly below the apex, failure exactly when the needed fetch does not succeed, a vanished zone included, and a refused row ends the lookup after the rows before it |
| DlzGuarantees.TruncationDecides | resolver/dlz_pgsql/src/dlz_pgsql.c:259 | a cached name matching a zone is that zone's own exactly when it fits the name field |
| DlzGuarantees.LongNamesLeak | resolver/dlz_pgsql/src/dlz_pgsql.c:259 | an over-long name's rows do answer its shortened form |
| DlzGuarantees.ParentsNotFetched | resolver/dlz_pgsql/src/dlz_pgsql.c:428-454 | after a recorded probe, none of its parents reaches the database |
| DlzGuarantees.ExactNameSearch | resolver/dlz_pgsql/src/dlz_pgsql.c:428-454 | from any thread state, a longest-first search fetches at most once and only the full name, and does so exactly unless the name is a parent of the last probe |
| DlzGuarantees.EveryQueryFetched | resolver/dlz_pgsql/src/dlz_pgsql.c:428-454 | on a thread whose searches run to their end, every query fetches exactly its own name |
| DlzGuarantees.InterruptedSearchHides | resolver/dlz_pgsql/src/dlz_pgsql.c:439-447 | after a search that BIND broke off, the next query for a parent is not fetched |
| DlzGuarantees.LongNameFetchesParent | resolver/dlz_pgsql/src/dlz_pgsql.c:439-442 | a search for an over-long name fetches exactly the longest suffix that fits, if any |
| ConnPool.FreeList.constructor | resolver/dlz_pgsql/src/dlz_pgsql.c:385-388 | every connection starts free |
| ConnPool.FreeList.Acquire | resolver/dlz_pgsql/src/dlz_pgsql.c:144-166 | pops the top free index, or none when the stack is empty |
| ConnPool.FreeList.Release | resolver/dlz_pgsql/src/dlz_pgsql.c:168-175 | pushes the index |
| ConnPool.PoolConserved | resolver/dlz_pgsql/src/dlz_pgsql.c:144-175 | in every interleaving free and held indices partition 0..pool, none is held twice, and a release finds room |
| ConnPool.AcquiresMatchReleases | resolver/dlz_pgsql/src/dlz_pgsql.c:270-309 | each thread's acquires equal its releases, plus one while it is inside fetch |
| ConnPool.AtMostTwoTries | resolver/dlz_pgsql/src/dlz_pgsql.c:281-308 | in every interleaving a thread inside fetch makes at most two attempts between its acquire and its release |
| ConnPool.HoldersLeave | resolver/dlz_pgsql/src/dlz_pgsql.c:281-308 | in every interleaving each step of a thread inside fetch brings it closer to its release, which comes after one or two attempts |
| ConnPool.AcquireStep | resolver/dlz_pgsql/src/dlz_pgsql.c:144-166 | acquire on the array is the protocol's step on the stack |
| ConnPool.ReleaseStep | resolver/dlz_pgsql/src/dlz_pgsql.c:168-175 | release on the array is the protocol's step, keeps the partition, and never overflows |
| FrameStreams.DecodeControlLoop | services/src/cadns/collector/framestreams.py:46-61 | the loop ends on every input with the recursive decoding or its error |
| FrameStreams.FieldsRoundTrip | services/src/cadns/collector/framestreams.py:39-61 | decoding encoded fields gives them back |
| FrameStreams.FieldsFullParse | services/src/cadns/collector/framestreams.py:46-61 | a buffer that decodes is nothing but its fields, one after another |
| FrameStreams.ControlRoundTrip | services/src/cadns/collector/framestreams.py:39-61 | decoding an encoded control payload gives the same type and content types, for all 32-bit types and lengths |
| FrameStreams.ControlDecodesIff | services/src/cadns/collector/framestreams.py:46-61 | the decoder accepts exactly a type followed by whole fields, and keeps the content types among them |
| FrameStreams.OfferTest | services/src/cadns/collector/framestreams.py:99-101 | the join/split test accepts exactly a line of some offered content type, or the empty one for an empty offer |
| FrameStreams.OfferTestIsMembershipIff | services/src/cadns/collector/framestreams.py:75-101 | the test is list membership for every non-empty content type exactly when no offered one holds a newline, and for the empty one too exactly when, besides, something is offered |
| FrameStreams.NewlineFoolsOfferTest | services/src/cadns/collector/framestreams.py:75-101 | offering a content type with a trailing newline passes the test for the one without, which is not offered |
| FrameStreams.ReadLocal | services/src/cadns/collector/framestreams.py:64-75 | a frame once readable reads the same whatever follows |
| FrameStreams.ServeConnection | services/src/cadns/collector/framestreams.py:78-115 | the session loop ends on every byte stream with the recursive session; the count returned is that of delivered frames |
| FrameStreams.CutDeliversPrefix | services/src/cadns/collector/framestreams.py:78-115 | any byte stream cut anywhere delivers and writes a prefix of what the whole would |
| FrameStreams.SessionDelivers | services/src/cadns/collector/framestreams.py:78-115 | START, payloads of 1..2^20 bytes, STOP: exactly those payloads in order, exactly FINISH written |
| FrameStreams.BigEndian | services/src/cadns/collector/framestreams.py:31-32 | four bytes are a number, most significant first |
| FrameStreams.ControlBytes | services/src/cadns/collector/framestreams.py:39-43 | the exact bytes of START, ACCEPT, STOP and FINISH |
| FrameStreams.ControlDecides | services/src/cadns/collector/framestreams.py:94-113 | what every control frame does in every state: READY and START by their content types, STOP, and errors for all others with nothing written |
| FrameStreams.DataDecides | services/src/cadns/collector/framestreams.py:94-98 | a data frame is delivered in a started session and ends any other with an error |
| FrameStreams.OversizedAborts | services/src/cadns/collector/framestreams.py:66-73 | data over 2^20 bytes or control over 512 ends the session with an error |
| FrameStreams.CutFrames | services/src/cadns/collector/framestreams.py:64-115 | data frames cut at any byte deliver exactly the whole ones |
| FrameStreams.CutSession | services/src/cadns/collector/framestreams.py:78-115 | a whole session cut at any byte, in START, a frame or STOP, delivers exactly the complete frames and writes nothing |
| FrameStreams.NothingBeforeStart | services/src/cadns/collector/framestreams.py:94-107 | for any byte stream, deliveries come only behind an accepted START |
| Dnstap.TenBytesHold | services/src/cadns/collector/dnstap.py:35-45 | ten bytes hold exactly the values below 2^70 |
| Dnstap.VarintLoop | services/src/cadns/collector/dnstap.py:35-45 | the shift loop computes the base-128 number, within ten bytes, or fails exactly where that has none |
| Dnstap.VarintRoundTrip | services/src/cadns/collector/dnstap.py:35-45 | decoding inverts base-128 encoding, whatever follows |
| Dnstap.ReadValue | services/src/cadns/collector/dnstap.py:54-66 | the value and end position for each wire type, or its error |
| Dnstap.IterFieldsLoop | services/src/cadns/collector/dnstap.py:48-67 | the loop ends on every input with the recursive field list or its error |
| Dnstap.FieldsConcat | services/src/cadns/collector/dnstap.py:48-67 | decoding distributes over concatenation after a well-formed buffer |
| Dnstap.FieldsRoundTrip | services/src/cadns/collector/dnstap.py:48-67 | decoding encoded fields of all wire types gives their numbers and values |
| Dnstap.OtherWireTypesRefused | services/src/cadns/collector/dnstap.py:63-64 | a field with any other wire type is an error |
| Dnstap.CutFieldRefused | services/src/cadns/collector/dnstap.py:35-66 | a field cut anywhere inside is an error, never a shorter field |
| Dnstap.DecodeClientResponse | services/src/cadns/collector/dnstap.py:76-101 | the last-wins loops compute the decoding, errors included |
| Dnstap.LastInner | services/src/cadns/collector/dnstap.py:87-97 | each variable ends as the last accepted field of its number |
| Dnstap.LittleRoundTrip | services/src/cadns/collector/dnstap.py:55-62 | fixed-width numbers are read least significant byte first |
| Dnstap.ResponseRoundTrip | services/src/cadns/collector/dnstap.py:76-101 | a client response written as a frame is read back: its DNS message and its time, seconds and nanoseconds together |
| Dnstap.RespondsIff | services/src/cadns/collector/dnstap.py:87-101 | a message is a client response exactly when its last type field is 6 and it carries a DNS message, its last one; it has a time exactly when it has a seconds field |
| Dnstap.ResponseTime | services/src/cadns/collector/dnstap.py:92-100 | the time is the last seconds plus the last numeric nanoseconds, 0 without any |
| Dnstap.UnwrapsIff | services/src/cadns/collector/dnstap.py:76-85 | a frame is looked into exactly when its last type field is 1 and it carries a message: its last one |
| Dnstap.UnknownOuterFieldsIgnored | services/src/cadns/collector/dnstap.py:76-85 | well-formed unknown fields at any boundary of a frame change nothing, errors in what follows included |
| Dnstap.UnknownInnerFieldsIgnored | services/src/cadns/collector/dnstap.py:87-101 | the same inside the message |
| Dnstap.MessageMattersByMeaning | services/src/cadns/collector/dnstap.py:76-101 | a frame sees its message field only through what that decodes to |
| Dnstap.UnknownFieldsInMessageIgnored | services/src/cadns/collector/dnstap.py:76-101 | a whole frame decodes the same with unknown fields inserted anywhere in its message |
| Scheduler.RunJob | services/src/cadns/monitor/service.py:72-76 | a run is logged with its due time, and the next due time follows it |
| Scheduler.Visit | services/src/cadns/monitor/service.py:70-76 | the loop body: runs the job exactly when due and not stopped, and leaves it not overdue |
| Scheduler.Pass | services/src/cadns/monitor/service.py:68-76 | one pass, unless stopped, runs every job that is due and leaves none overdue |
| Scheduler.Run | services/src/cadns/monitor/service.py:60-79 | any number of passes only adds runs, each in its turn; unless stopped, a job due before a pass has started when the next pass begins, and none is overdue after the last |
| Scheduler.DueAtLeast | services/src/cadns/monitor/service.py:73-76 | due times are at least interval apart, cumulatively |
| Scheduler.NoDriftIffOnTime | services/src/cadns/monitor/service.py:73-76 | the k-th due time is the first plus k intervals exactly when every earlier run finished by its next due time |
| Scheduler.RunsApart | services/src/cadns/monitor/service.py:68-76 | runs whose starts lie within L of each other number at most floor(L / interval) + 2 |
| Scheduler.RateBound | services/src/cadns/monitor/service.py:65-78 | any window of length L contains at most floor(L / interval) + 2 starts, however late jobs run |

## Left out

- PostgreSQL isolation: row locks, `SKIP LOCKED` against concurrent transactions and READ COMMITTED re-checks; every transaction is atomic, a flush of the collector (its hit update and its miss transaction) and a scan (its query and its enqueue) are one step each.
- Sorting of returned lists by name, `NOTIFY`, logging, metrics counters, heartbeats and asyncio cancellation: they do not change the modelled state; results are sets where the source sorts only for presentation.
- Domain ids: a domain is identified with its unique name, so the delete cascade goes by name.
- Endpoint columns that decide neither ranking nor retention (position, city, country, ASN, source), address text forms and the address-family constraint.
- IDNA and locale-dependent case folding: names are compared in ASCII lower case.
- Garbage.CollectGarbage: for batch_size >= 1 (a batch size of 0 never ends) and without concurrent writers during the pass.
- QueueSafety.AttemptsBounded: for max_attempts >= 1; the converse is not claimed, since a takeover need not use up the attempts.
- Lifecycle.GapFreeService: that each selected domain is re-measured within D is an assumption; QueueHistory.ScannedIsMeasured derives it from the pace of the workers for the scans that queue the domain, not for those that find it queued already.
- Scheduler.Run: for any finite number of passes; the length of the final sleep is whatever the clock readings say.
- DlzThread.ThreadState.StoreRows: the TTL text is taken as a number or NULL, `strtoul` is not modelled.
- DlzThread.ThreadState.Fetch: connecting, the retry and the up/down log state are one outcome here; the retry's path is in ConnPool.
- Dnstap.VarintLoop: the bitwise or of disjoint bits is written as addition.
- Dnstap.DecodeClientResponse: response times are exact reals, not floats; a length-delimited seconds field is the error the addition raises.
- Floating-point MOER values and clock readings are exact reals.
- Classification of DNS messages into hits and misses, the resolver pool's timeouts, the worker loop, the IPinfo and WattTime clients, the carbon refresh job, BIND option parsing, configuration and command line: shallow or foreign code.
