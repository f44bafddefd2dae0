# TotalRecall: a verified model of its stateful core

This Dafny project models the parts of TotalRecall in which state, time and interleaving decide what is
correct, and proves what those parts guarantee.

- **Rate limiter** (`RateLimit`, `RateLimitGuarantee`, `OverlappingCallers`). One deque of admitted
  timestamps per tenant, evicted lazily from the head. The clock is read before the lock is taken, so
  readings can be committed out of order. Proved: how many admissions any closed interval can hold when
  readings lag by at most a given amount, that this bound is exact, that a single slot needs no such
  assumption, that eviction decides like a full log, that the retry hint is the least number of whole
  seconds, and that tenants do not interact.
- **Memory search, cache and deletion** (`Text`, `TtlCache`, `MemoryModel`, `MemoryProtocol`,
  `MemoryGuarantees`, `MemoryStaleness`, `MemorySettled`, `MemoryWrapper`). Searches and delete routes are
  split into their steps and interleaved with upserts, flag changes, remote changes and restarts. Proved:
  where every reply comes from and how old it can be, exactly when a deletion takes effect for all later
  requests, schedules under which it always does, which tombstones survive a restart, and that lazy expiry
  cannot be observed.
- **Delimiter check** (`Delimiters`). The scanner of the Playwright worker accepts exactly the texts of a
  grammar, whose derivations are unique, and accepted text can be inserted anywhere outside quotes.
- **Learning lifecycle** (`LearningStore`, `LearningLifecycle`, `LearningSteps`, `LearningRoutes`,
  `LearningDelta`). Single and bulk decisions race statement by statement. Proved: every discovery is
  decided at most once and for good, the catalogue only holds what its approver approved, ended handlers
  have done what they report, bulk statements equal folds of single ones, the handlers' methods do what
  their uninterrupted steps do, and exactly when a second run over the same files settles.
- **Chunker and path mapping** (`Chunker`, `LearningPaths`). Overlapping chunks reassemble, their number
  and the termination condition are exact; mappings apply at segment boundaries, and the configurations in
  which the most specific one always wins are characterised.

Objects that the program updates in place are classes whose methods are proved against functions on
values; properties of whole runs are lemmas about those functions over histories of events. Clock readings
are real numbers and appear as parameters. The search digest, the content hash, the redactor and character
case folding are function parameters; where a property needs a digest without collisions it says so.

Where the code and its documentation disagree, the model follows the code:

- `totalrecall/memory/tombstone.py:3-5` says deletions take effect for all subsequent requests. They do if and
  only if no live cache entry, no search about to write the cache and no get past its filter check has the
  memory, and nobody else recorded its id first (`MemorySettled.DeletionTakesEffectIff`; at the end of a
  route, `CompletedRouteTakesEffectIff` and `FailedAuditTakesEffectIff`). A search that filtered before the
  tombstone was added and writes the cache after the invalidation brings the memory back until the entry
  expires (`MemoryStaleness.InterruptedSearchOutlivesDelete`). When the audit write raises, the route ends
  before it invalidates, and a result cached earlier is served on without any overlap
  (`MemoryStaleness.FailedAuditLeavesTheCache`).
- `totalrecall/storage/tombstone_repo.py:24` keeps the first row of a memory id even when another tenant
  deletes a memory with the same id; that tombstone is lost on restart
  (`MemoryGuarantees.TombstoneSurvivesRestartIff`, with a run in `LaterTombstoneIsLost`).
- `totalrecall/learning/runner.py:71` builds the lookup key from unstripped names while the stored source is
  stripped, so, where no path holds a "::" or ends in ":", a pattern whose name carries surrounding whitespace
  is reported as new on every run (`LearningDelta.SecondRunIsUnchangedIffClean`, with a test title in
  `PaddedTitleIsAlwaysNew`). Patterns of one name in one file share a key, so files that hold two with
  different hashes never settle (`LearningDelta.SecondRunSettlesIff`, `SharedTitleNeverSettles`).
- `totalrecall/testgen/rag/ingest.py:24-27` does not end when the overlap is not smaller than the chunk size
  and the text is longer than one chunk (`Chunker.EndsExactlyWhen`).
- `totalrecall/learning/paths.py:25-29` orders mappings by the length of the key as written, so a key with
  trailing separators can win over a more specific one (`LearningPaths.UncleanKeyBeatsSpecificKey`). The most
  specific mapping decides every path if and only if no usable key comes before one that it is a proper
  segment prefix of and whose form has not come up earlier still (`LearningPaths.MostSpecificDecidesIff`). A
  target that is the root gives a relative path (`LearningPaths.AbsoluteTargetStaysAbsolute`).
- `totalrecall/learning/paths.py:41` cuts the path by the unfolded length of the key, although it compares them
  folded, so a case fold that grows makes it cut elsewhere
  (`LearningPaths.PartsAreTheRemainingSegmentsIff`, with a path in `FoldingThatGrowsMovesTheCut`).

## Model

| member | source | states |
|---|---|---|
| `RateLimit.EvictDropsExpired` | totalrecall/ratelimit/provider.py:27-30 | eviction removes a prefix of expired timestamps and stops at the first that is not |
| `RateLimit.TenantBucket.CheckAndRecord` | totalrecall/ratelimit/provider.py:25-42 | one call leaves the deque and the answer that the decision function gives for the deque before |
| `RateLimit.RateLimitProvider.GetOrCreateBucket` | totalrecall/ratelimit/provider.py:68-73 | an existing bucket is reused; a new one is fresh and has the tenant's own policy if one is listed, and the default otherwise; buckets are never shared |
| `RateLimit.RateLimitProvider.Check` | totalrecall/ratelimit/provider.py:63-66 | the tenant's deque changes and the call is answered as one call says under the listed policy, or the default; no other tenant's deque changes |
| `RateLimitGuarantee.DequeIsLogSuffix` | totalrecall/ratelimit/provider.py:22-38 | for readings in any order the deque is the full admission log without a prefix, each dropped entry had expired for a committed reading, and it never exceeds the limit |
| `RateLimitGuarantee.IntervalBound` | totalrecall/ratelimit/provider.py:25-42 | if readings lag behind earlier committed ones by at most `lag`, any closed interval of length window - lag holds at most max_requests admissions |
| `RateLimitGuarantee.StaleBurstOverfills` | totalrecall/ratelimit/provider.py:26-38 | for every lag, however long, a run of such readings overfills any longer interval: just beyond window - lag, or a single instant if the lag exceeds the window |
| `RateLimitGuarantee.ProtectedIntervalsExactly` | totalrecall/ratelimit/provider.py:25-42 | with two or more requests allowed and any lag, intervals of a length are protected in all such runs if and only if the length is at most window - lag, or negative |
| `RateLimitGuarantee.AdmissionsAreSpaced` | totalrecall/ratelimit/provider.py:25-42 | with readings in commit order, admissions max_requests apart differ by more than the window |
| `RateLimitGuarantee.SingleSlotIgnoresCommitOrder` | totalrecall/ratelimit/provider.py:25-42 | with one request allowed, admissions are more than a window apart in every commit order |
| `RateLimitGuarantee.DecisionsMatchFullLog` | totalrecall/ratelimit/provider.py:28-42 | each decision and remaining count equal those of counting log entries in the last window_seconds |
| `RateLimitGuarantee.CountIsCardinality` | totalrecall/ratelimit/provider.py:28-32 | that count is the number of admissions in the closed interval |
| `RateLimitGuarantee.RetryHintIsLeast` | totalrecall/ratelimit/provider.py:33-36 | with no call in between, a request any whole number of seconds later is admitted if and only if the number reaches the hint |
| `RateLimitGuarantee.TenantSeesOnlyItsOwnCalls` | totalrecall/ratelimit/provider.py:60-73 | after an interleaved run a tenant's deque is that of the run projected to the tenant, under its listed policy or the default |
| `RateLimitGuarantee.AnswersProject` | totalrecall/ratelimit/provider.py:63-73 | a call in an interleaved run is answered as in its tenant's own run, under its listed policy or the default |
| `OverlappingCallers.ScheduleHasBoundedLag` | totalrecall/ratelimit/provider.py:26-38 | if every caller takes the lock within `delay` of reading the clock, committed readings lag by at most `delay` and the bucket is that of those readings |
| `OverlappingCallers.NoInterleavingOverfills` | totalrecall/ratelimit/provider.py:25-42 | in every interleaving of such callers, any closed interval of length window - delay holds at most max_requests admissions |
| `OverlappingCallers.InterleavingsProtectExactly` | totalrecall/ratelimit/provider.py:25-42 | over all interleavings with any such delay, and two or more requests allowed, intervals of a length are protected if and only if the length is at most window - delay, or negative |
| `TtlCache.WhatIsServed` | totalrecall/cache/provider.py:31-66 | a value is served up to and including its ttl and never after, other keys are unaffected, a prefix invalidation takes exactly the keys under it, a purge keeps exactly what is served |
| `TtlCache.TTLCache.Get` | totalrecall/cache/provider.py:31-40 | a lookup answers with a live value and deletes only an expired entry it meets |
| `TtlCache.TTLCache.Set` | totalrecall/cache/provider.py:42-44 | a write replaces the entry with one that expires ttl later |
| `TtlCache.TTLCache.InvalidatePrefix` | totalrecall/cache/provider.py:46-52 | removes all keys under the prefix and reports how many |
| `TtlCache.TTLCache.Size` | totalrecall/cache/provider.py:58-66 | removes every expired entry and counts the rest |
| `TtlCache.LazyRemovalIsUnobservable` | totalrecall/cache/provider.py:31-66 | in every run with a clock that does not go back, replies equal those of a cache that drops entries the instant they expire; a prefix invalidation's count does if and only if no expired entry is left under the prefix |
| `MemoryModel.FilterKeepsTheOthers` | totalrecall/memory/tombstone.py:29-34 | an entry passes the filter if and only if it was there and no tombstone has its tenant, application and id |
| `MemoryModel.FilterInPieces` | totalrecall/memory/tombstone.py:29-34 | filtering keeps the order of entries |
| `MemoryModel.TombstoneFilter.Filter` | totalrecall/memory/tombstone.py:29-34 | the loop computes the filter function |
| `MemoryModel.TombstoneFilter.LoadBulk` | totalrecall/memory/tombstone.py:36-38 | adds exactly the loaded triples |
| `MemoryModel.MatchingAreMatches` | totalrecall/memory/adapters/stub/adapter.py:22-34 | the matches are exactly the active entries of the tenant and application whose tags answer every filter, numbers and truth values by value, an absent tag only a filter for None |
| `MemoryModel.EqualsIffAnswers` | totalrecall/memory/adapters/stub/adapter.py:75-80 | the comparison of tag values, kind by kind |
| `MemoryModel.SearchFindsTheWanted` | totalrecall/memory/adapters/stub/adapter.py:22-34 | a search returns only such entries, and all of them unless the limit is reached |
| `MemoryModel.DeletedIsNotFound` | totalrecall/memory/adapters/stub/adapter.py:22-67 | after a delete no search returns the memory |
| `MemoryModel.DeleteMarksOnly` | totalrecall/memory/adapters/stub/adapter.py:51-67 | a delete marks the one entry of that tenant, application and id, and changes no other |
| `MemoryModel.UpsertPlacesOnly` | totalrecall/memory/adapters/stub/adapter.py:36-49 | an upsert puts the memory in the place of its id, or last, and changes no other |
| `MemoryModel.GetFindsExactly` | totalrecall/memory/adapters/stub/adapter.py:36-45 | a get returns the active entry of that tenant, application and id, and nothing else |
| `MemoryModel.SearchInPieces` | totalrecall/memory/adapters/stub/adapter.py:22-34 | results come in insertion order and stop at the limit, not before |
| `MemoryModel.UpsertReadsBack` | totalrecall/memory/adapters/stub/adapter.py:36-49 | an upserted active entry is read back and no other id is affected |
| `MemoryModel.DeleteReadsBack` | totalrecall/memory/adapters/stub/adapter.py:36-67 | a deleted entry is not read back and no other id is affected |
| `MemoryModel.StubMemoryAdapter.Search` | totalrecall/memory/adapters/stub/adapter.py:22-34 | the loop returns wanted entries only, and all of them unless the limit is reached |
| `MemoryModel.StubMemoryAdapter.Delete` | totalrecall/memory/adapters/stub/adapter.py:51-67 | marks the entry deleted and says whether there was one of that tenant and application |
| `MemoryModel.PrefixReachesOwnKeys` | totalrecall/cache/provider.py:69-81 | for ids without ':' an invalidation prefix reaches a search key if and only if tenant and application are the same |
| `MemoryModel.KeysTellRequestsApart` | totalrecall/cache/provider.py:69-76 | for ids without ':' and a digest that separates the payloads, keys are equal if and only if the requests are, with filter values as they are written (1, 1.0 and true differ) |
| `MemoryModel.KeysCollideIff` | totalrecall/cache/provider.py:69-76 | whatever the ids, requests share a key if and only if their payloads are equal and tenant and application joined by ':' read the same, for digests of one length that separate the payloads |
| `MemoryModel.ColonsMixTenants` | totalrecall/cache/provider.py:76 | with ':' in ids two tenants can share a key |
| `MemoryProtocol.EveryReplyHasAnOrigin` | totalrecall/memory/wrapper/service.py:105-172 | in every interleaving each reply is the answer the then-active adapter gave one search, filtered by the tombstones of a later step, given by that search or from the cache within ttl of its write with no invalidation of the key since |
| `MemoryProtocol.EverythingHasAnOrigin` | totalrecall/memory/wrapper/service.py:105-165 | every step keeps that searches in flight and cache entries come from such searches |
| `MemoryProtocol.DeletedIsNotAnswered` | totalrecall/memory/wrapper/service.py:213-221 | after a delete the active stub answers no search and no get with the memory |
| `MemoryProtocol.FlagNamesTheAdapter` | totalrecall/memory/wrapper/service.py:242-250 | the flag names the adapter that answers, an unknown name gives empty answers |
| `MemoryProtocol.StoreSteps` | totalrecall/memory/wrapper/service.py:196-221 | upserts and deletes reach the active stub only |
| `MemoryProtocol.RestartForgets` | totalrecall/main.py:60-70 | a restart reads the filter back from the table and forgets cache, searches, gets and routes |
| `MemoryGuarantees.TombstoneCameIn` | totalrecall/memory/tombstone.py:20-38 | a tombstone absent before and present now came in at one step, by a delete route or a restart |
| `MemoryGuarantees.TombstonedAnswerPredatesTombstone` | totalrecall/memory/wrapper/service.py:115-165 | a tombstoned memory in any reply traces to a search that filtered before the tombstone came in, and the cache serves it no later than ttl after that search's write |
| `MemoryGuarantees.CompletedDeleteIsOutlivedOnlyByARace` | totalrecall/api/routes/memories.py:54-81 | which search a cache hit on a memory comes from after its completed delete route: one that filtered before the tombstone and wrote after the invalidation |
| `MemoryGuarantees.TombstonedGetPredatesTombstone` | totalrecall/memory/wrapper/service.py:174-187 | whatever the adapter, a get for a tombstoned memory hands something out only if the tombstone came in between its filter check and its read; what the stub hands out is the active memory asked for |
| `MemoryGuarantees.OrderlyRunsStayClean` | totalrecall/api/routes/memories.py:63-81 | in orderly runs every cached item sits under a key of its own tenant and application and is not tombstoned, except until the route that tombstoned it invalidates |
| `MemoryGuarantees.OrderlyRunsNeverServeTombstoned` | totalrecall/memory/wrapper/service.py:105-165 | in runs where no search is between filter and write at the addition, and addition to invalidation is not interrupted, no reply holds a tombstoned memory |
| `MemoryGuarantees.TableHoldsFirstRecorded` | totalrecall/storage/tombstone_repo.py:19-32 | at every step the table has a row for each in-memory tombstone and each open route, namely the one recorded first for the id |
| `MemoryGuarantees.TombstoneSurvivesRestartIff` | totalrecall/storage/tombstone_repo.py:19-39 | at every crash point a restart keeps a tombstone if and only if no other tenant or application recorded the id first |
| `MemoryGuarantees.LaterTombstoneIsLost` | totalrecall/storage/tombstone_repo.py:19-39 | a run in which a tombstone is in force and the restart loses it |
| `MemoryStaleness.AtomicRunsCachePastAnswers` | totalrecall/memory/wrapper/service.py:105-165 | with uninterrupted searches every cache entry is what an uncached search answered at a past moment |
| `MemoryStaleness.AtomicSearchesAreBoundedlyStale` | totalrecall/memory/wrapper/service.py:105-172 | with uninterrupted searches, and no two different requests of the run under one key, each reply equals the uncached, filtered answer of the then-active adapter at some moment at most ttl ago |
| `MemoryStaleness.ToldApartIff` | totalrecall/cache/provider.py:69-76 | the requests of a run have different keys if and only if no two with one payload join to the same text, for digests of one length that do not collide |
| `MemoryStaleness.PlainIdsAreToldApart` | totalrecall/cache/provider.py:69-76 | requests whose ids have no ':' have different keys, whatever the digests' lengths |
| `MemoryStaleness.InterruptedSearchOutlivesDelete` | totalrecall/memory/wrapper/service.py:152-159 | for every ttl and digest there is a schedule in which a completed delete is followed by a cache hit that returns the memory |
| `MemoryStaleness.FailedAuditLeavesTheCache` | totalrecall/api/routes/memories.py:63-81 | for every ttl and digest, a result cached before a delete route whose audit raises is served after it |
| `MemorySettled.SettledStaysSettled` | totalrecall/memory/wrapper/service.py:105-187 | once no live cache entry, filtered search or checked get has a tombstoned memory, none ever has again |
| `MemorySettled.UnsettledCanBeSeen` | totalrecall/memory/wrapper/service.py:105-187 | otherwise some continuation hands the memory out |
| `MemorySettled.DeletionTakesEffectIff` | totalrecall/memory/tombstone.py:3-5 | a tombstoned memory is never handed out again, by any search or get of any continuation, if and only if it is settled and its id was first recorded for it, or no configured adapter can hand out anything |
| `MemorySettled.CachedUnderOwnPrefix` | totalrecall/cache/provider.py:69-81 | in every run whose adapters answer only with memories of the tenant and application asked about, each cached item sits under the invalidation prefix of its own tenant and application |
| `MemorySettled.CompletedRouteTakesEffectIff` | totalrecall/api/routes/memories.py:54-81 | with such adapters, after a completed delete route that comes down to no search between filter and write, and no get between check and read, with the memory |
| `MemorySettled.FailedAuditTakesEffectIff` | totalrecall/api/routes/memories.py:63-81 | after a route whose audit raised, no live cache entry may have the memory either |
| `MemoryWrapper.MemoryWrapper.Search` | totalrecall/memory/wrapper/service.py:105-172 | reply and cache after a hit, a miss and an adapter failure, whatever the shadow adapter does; an item is in the reply of a miss if and only if the adapter gave it and it is not tombstoned |
| `MemoryWrapper.MemoryWrapper.ActiveHandle` | totalrecall/memory/wrapper/service.py:242-250 | the value of memory.adapter names the adapter, "null" if there is none, and an unknown name falls back on the null adapter |
| `MemoryWrapper.DiscrepancyIff` | totalrecall/memory/wrapper/service.py:130-150 | a shadow read shows a discrepancy if and only if it failed or an id is in one result only |
| `MemoryWrapper.MemoryWrapper.ReadShadow` | totalrecall/memory/wrapper/service.py:127-150 | logs one entry when a known adapter other than the active one is configured, a discrepancy if it fails |
| `MemoryWrapper.MemoryWrapper.Get` | totalrecall/memory/wrapper/service.py:174-187 | a tombstoned memory is never handed out, and what the stub hands out is the active memory asked for |
| `MemoryWrapper.MemoryWrapper.Upsert` | totalrecall/memory/wrapper/service.py:196-204 | answer and store for every adapter; changes the active stub only, not the cache |
| `MemoryWrapper.MemoryWrapper.Delete` | totalrecall/memory/wrapper/service.py:213-221 | answer and store for every adapter; changes the active stub only, not the cache |
| `MemoryWrapper.TombstoneTable.Add` | totalrecall/storage/tombstone_repo.py:10-32 | a row is added unless the id has one |
| `MemoryWrapper.TombstoneTable.LoadAll` | totalrecall/storage/tombstone_repo.py:33-39 | lists exactly the rows |
| `MemoryWrapper.PreloadTombstones` | totalrecall/main.py:60-70 | at startup the filter holds exactly the rows of the table, as after the protocol's restart |
| `MemoryWrapper.DeleteMemory` | totalrecall/api/routes/memories.py:39-83 | table, filter, audit log and cache after each outcome, a failing audit leaving the cache as it was |
| `MemoryWrapper.SearchIsItsSteps` | totalrecall/memory/wrapper/service.py:105-165 | the steps of an uninterrupted search give the reply and cache of the method, on a hit, a miss and an adapter failure, and change nothing else |
| `MemoryWrapper.DeleteIsItsSteps` | totalrecall/api/routes/memories.py:54-81 | the steps of an uninterrupted delete route give the table, filter and cache of the method, whether or not the audit raises, and change nothing else |
| `Delimiters.HasBalancedDelimiters` | workers/playwright/src/validator.ts:29-63 | the loop accepts exactly the texts that end outside literals and whose brackets outside them spell a word of S -> empty, (S)S, [S]S, {S}S; these are the derivable texts |
| `Delimiters.BalancedIffDerivable` | workers/playwright/src/validator.ts:29-63 | the scanner is sound and complete for the grammar of plain characters, quoted literals with escapes, and bracketed groups |
| `Delimiters.DerivableIffErasedIsBracketWord` | workers/playwright/src/validator.ts:29-63 | a text is accepted if and only if it ends outside literals and the brackets outside them spell a word of S -> empty, (S)S, [S]S, {S}S |
| `Delimiters.InsertionIsInvisible` | workers/playwright/src/validator.ts:29-63 | inserting an accepted text at any point that scans to outside a quote never changes the verdict |
| `Delimiters.ConcatAndCancel` | workers/playwright/src/validator.ts:29-63 | accepted texts are closed under concatenation and under cancelling an accepted prefix |
| `Delimiters.DerivationIsUnique` | workers/playwright/src/validator.ts:35-59 | an accepted text pairs its brackets and quotes in one way only |
| `LearningStore.BulkIsFold` | totalrecall/storage/learning_repo.py:322-382 | a bulk decision over any ids, repeated or not, leaves the table of deciding them one by one and hits as many rows as single decisions succeed |
| `LearningStore.DecisionsRecord` | totalrecall/storage/learning_repo.py:206-240 | exactly the tenant's undecided rows carry the decision, actor and time, a rejection also its reason, and nothing else changes |
| `LearningStore.DiscoveryRepository.Decide` | totalrecall/storage/learning_repo.py:206-240 | the guarded update changes the row if and only if it is the tenant's and undecided, and reports that |
| `LearningStore.DiscoveryRepository.BulkDecide` | totalrecall/storage/learning_repo.py:322-382 | table and processed count are those of the fold, skipped is the rest, the returned ids are distinct and exactly the rows hit |
| `LearningStore.CatalogueRepository.Upsert` | totalrecall/storage/catalogue_repo.py:69-105 | inserts, or overwrites all but tenant, application and category |
| `LearningLifecycle.DecisionIsFinal` | totalrecall/storage/learning_repo.py:206-240 | in every interleaving a decided row never changes again |
| `LearningLifecycle.DecidedAtMostOnce` | totalrecall/storage/learning_repo.py:206-240 | of all decisions of a run, single or bulk, at most one hits a given discovery |
| `LearningLifecycle.DecisionHappened` | totalrecall/api/routes/learning.py:150-152 | a decided row shows the decision, actor, time and reason of one event of the run |
| `LearningLifecycle.SaveKeepsTheFirst` | totalrecall/storage/learning_repo.py:70-98 | a saved row is there as saved, unless its id is taken |
| `LearningLifecycle.RunsKeepTheCatalogueBacked` | totalrecall/api/routes/learning.py:134-283 | every step keeps that handlers promote only what their actor approved and that new entries match approved, promotable rows |
| `LearningLifecycle.PromotionTracesToOneApproval` | totalrecall/api/routes/learning.py:150-168 | an entry the run created belongs to a promotable discovery that its approver approved in one event, for that tenant and application |
| `LearningLifecycle.RejectedIsNeverPromoted` | totalrecall/learning/promotion.py:22-46 | no rejected or undecided discovery, and none of another type, is ever in the catalogue |
| `LearningLifecycle.EndedHandlersHaveDelivered` | totalrecall/api/routes/learning.py:159-179 | when a handler has ended, its discoveries carry its decision and actor and every promotable one it approved is in the catalogue |
| `LearningSteps.BulkApproveIsItsSteps` | totalrecall/api/routes/learning.py:241-283 | from any reachable state, the uninterrupted steps of a bulk approval, whatever its rows' order, leave the folded decisions, the promotions of the returned rows and one audit of their counts |
| `LearningSteps.BulkRejectIsItsSteps` | totalrecall/api/routes/learning.py:287-318 | the same for a bulk rejection, which leaves the catalogue |
| `LearningSteps.ApproveIsItsSteps` | totalrecall/api/routes/learning.py:135-179 | the same for a single approval; one that hits no row changes nothing |
| `LearningSteps.RejectIsItsSteps` | totalrecall/api/routes/learning.py:183-215 | the same for a single rejection |
| `LearningStore.PromotionIsExact` | totalrecall/learning/promotion.py:8-46 | promotion writes exactly the listed skill candidates and dynamic memories, under those categories, active and approved by the actor, keeps tenant, application and category of an entry already there, and touches no other |
| `LearningRoutes.ApproveDiscovery` | totalrecall/api/routes/learning.py:135-179 | outcome, row, catalogue and audit of the approve handler in each case |
| `LearningRoutes.RejectDiscovery` | totalrecall/api/routes/learning.py:183-215 | outcome, row and audit of the reject handler in each case |
| `LearningRoutes.BulkApprove` | totalrecall/api/routes/learning.py:241-283 | outcome, table, catalogue and audit of the bulk approve handler |
| `LearningRoutes.BulkReject` | totalrecall/api/routes/learning.py:287-318 | outcome, table and audit of the bulk reject handler |
| `LearningDelta.RunLearning` | totalrecall/learning/runner.py:25-134 | the nested loops give every pattern its discovery, in order, with the digest of its kind and redacted excerpt, and collect all redaction warnings; the three counts add up to the number of discoveries |
| `LearningDelta.DiscoveryRecords` | totalrecall/learning/runner.py:71-116 | digest, state, source, summary, type and tags of a discovery |
| `LearningDelta.CountIsCardinality` | totalrecall/learning/runner.py:113-134 | the counts are the numbers of discoveries in each state |
| `LearningDelta.GetPreviousHashes` | totalrecall/storage/learning_repo.py:182-190 | the table has a key for every stored discovery and each value is a hash stored under its key |
| `LearningDelta.RunRepository.PreviousHashes` | totalrecall/storage/learning_repo.py:159-190 | the hashes are those of a latest completed run of the tenant and application, or empty if there is none |
| `LearningDelta.TriggerRun` | totalrecall/api/routes/learning.py:60-90 | a permitted run is classified against the caller's own baseline and saved with its discoveries; a refused one changes nothing |
| `LearningDelta.OnlyCompletedOwnRunsCount` | totalrecall/storage/learning_repo.py:162-167 | failed runs and runs of others never change the baseline |
| `Text.StripIsClean` | totalrecall/contracts.py:4-10 | stripping leaves no surrounding whitespace and changes exactly the strings that have some |
| `Text.StripCutsSpace` | totalrecall/contracts.py:4-10 | it cuts blanks, tabs and line ends from both sides, all of them and nothing else |
| `LearningDelta.KeysTellApart` | totalrecall/learning/runner.py:71 | stable keys are equal if and only if path and name are, for paths that "::" separates |
| `LearningDelta.ClassificationIsTheDifference` | totalrecall/learning/runner.py:77-83 | for arbitrary patterns: new is the absence of the key from the saved run; unchanged, or changed, in every row order is its presence with equal hashes only, or different ones only |
| `LearningDelta.SecondRunIsUnchangedIffClean` | totalrecall/learning/runner.py:71-90 | on the same files, with distinct stored keys, a pattern is unchanged if its path and name carry no surrounding whitespace; for paths that "::" separates it is new otherwise |
| `LearningDelta.EditedPatternIsChanged` | totalrecall/learning/runner.py:72-83 | after a saved run, without digest collisions on its texts, a clean pattern of the same path and name is changed in every row order if its kind or redacted excerpt differs, and unchanged otherwise |
| `LearningDelta.SecondRunSettlesIff` | totalrecall/learning/runner.py:71-90 | for arbitrary patterns, several of which may share a name: a second run reports nothing in any row order if and only if every lookup key is stored, with the pattern's own hash only |
| `LearningDelta.CleanPatternsSettleIff` | totalrecall/learning/runner.py:71-90 | for clean patterns that is: equal stored keys have equal hashes |
| `LearningDelta.SettlesIffCleanAndAgreeing` | totalrecall/learning/runner.py:71-90 | for paths that "::" separates it is: all patterns are clean and equal stored keys have equal hashes |
| `LearningDelta.PaddedTitleIsAlwaysNew` | totalrecall/learning/parser.py:9-10 | a test titled with a leading blank is new on every run |
| `LearningDelta.SharedTitleNeverSettles` | totalrecall/learning/parser.py:123-137 | two tests of one title with different hashes never settle |
| `LearningDelta.SaveAndRunAgain` | totalrecall/api/routes/learning.py:75-90 | the settling condition through the tables: save, read the baseline back, run again |
| `Chunker.WordsAreSeparated` | totalrecall/testgen/rag/ingest.py:17 | each blank, tab, line feed or carriage return separates words, and nothing else does |
| `Chunker.JoinPutsBlanks` | totalrecall/testgen/rag/ingest.py:24 | joining puts a single blank between words |
| `Chunker.SplitUndoesJoin` | totalrecall/testgen/rag/ingest.py:17-24 | splitting a chunk's text gives back its words |
| `Chunker.ChunkText` | totalrecall/testgen/rag/ingest.py:15-28 | the loop ends and computes the chunk texts |
| `Chunker.EndsExactlyWhen` | totalrecall/testgen/rag/ingest.py:18-27 | for every size and overlap, iterating the update of the start ends the loop if and only if the overlap is smaller than the size, one chunk suffices, or there are no words |
| `Chunker.CountIsExact` | totalrecall/testgen/rag/ingest.py:15-28 | the number of chunks is 0, 1, or 1 + ceil((n - size) / (size - overlap)) |
| `Chunker.ChunkSizes` | totalrecall/testgen/rag/ingest.py:22-27 | every chunk but the last is full, none is longer, and each later one adds a new word |
| `Chunker.ChunkIsSlice` | totalrecall/testgen/rag/ingest.py:22-27 | the i-th chunk is the slice that starts i steps in, for every size and overlap that make progress |
| `Chunker.ChunkCountByStarts` | totalrecall/testgen/rag/ingest.py:22-27 | there is an i-th chunk if and only if it starts within the words and the one before does not reach their end |
| `Chunker.ChunksReassemble` | totalrecall/testgen/rag/ingest.py:15-28 | dropping the overlaps and concatenating gives the words back |
| `Chunker.TextsReassemble` | totalrecall/testgen/rag/ingest.py:15-28 | the same from the returned texts |
| `LearningPaths.AppliesIffSegmentPrefix` | totalrecall/learning/paths.py:36-39 | a usable mapping applies if and only if the segments of its source begin those of the path in comparison form |
| `LearningPaths.PartsAreTheRemainingSegmentsIff` | totalrecall/learning/paths.py:36-42 | for foldings that may change lengths, the parts after the target are the non-empty segments of the path beyond the source's if and only if only separators lie between where the code cuts and where those segments end |
| `LearningPaths.PartsAreTheRemainingSegments` | totalrecall/learning/paths.py:41-42 | so they are when path and source fold to their own lengths |
| `LearningPaths.FoldingThatGrowsMovesTheCut` | totalrecall/learning/paths.py:41-63 | a Windows path of which the wrong part is kept |
| `LearningPaths.OrderedIsSorted` | totalrecall/learning/paths.py:25-29 | the mappings are tried longest key first, all of them and no others |
| `LearningPaths.ResolveAnswers` | totalrecall/learning/paths.py:22-54 | a blank path, or one that concerns no mapping, is returned stripped; every other is mapped by the longest key that concerns it, the earliest of equal ones, to that mapping's trimmed target in the target's style and the path's segments beyond the source's |
| `LearningPaths.MostSpecificDecidesIff` | totalrecall/learning/paths.py:22-54 | the mapping that decides has the most segments of those that concern the path, for every path, if and only if no usable key is tried before one it is a proper segment prefix of whose form has not been tried earlier |
| `LearningPaths.MostSpecificMappingWins` | totalrecall/learning/paths.py:22-54 | that is so when the usable keys are clean or a single character, such as the root, and fold to their own length |
| `LearningPaths.ResolveBySegments` | totalrecall/learning/paths.py:22-54 | with such keys the answer is the target of the mapping with the most segments, followed by the path's segments beyond them |
| `LearningPaths.FirstMatchDecides` | totalrecall/learning/paths.py:25-39 | the loop stops at the longest key that concerns the path, the earliest of equal ones |
| `LearningPaths.NormaliseCuts` | totalrecall/learning/paths.py:57-58 | the normal form strips, turns backslashes into slashes and cuts the slashes at the end |
| `LearningPaths.FormFolds` | totalrecall/learning/paths.py:61-68 | a text with a backslash or a drive letter's colon is compared folded, character by character, any other as it is |
| `LearningPaths.UncleanKeyBeatsSpecificKey` | totalrecall/learning/paths.py:25-29 | a key with trailing separators can win over a more specific one |
| `LearningPaths.AbsoluteTargetStaysAbsolute` | totalrecall/learning/paths.py:71-78 | an absolute target stays absolute if and only if it is not made of separators only |

## Left out

- Reading rate-limit policies from the settings dictionary, and the defaults for missing ones.
- HTTP routing, authentication, settings, the command line and the admin UI: plumbing over libraries. The permission check of a route is a parameter.
- The Mem0, OpenAI, Jira and pgvector clients: foreign services. A remote adapter is a function from requests to answers that may change or fail at any time.
- What a foreign memory service stores on an upsert or a delete: it is not visible, and the protocol lets its answers change arbitrarily instead.
- Tag and filter values other than None, texts, numbers, truth values and lists.
- Operation counters and latencies of the wrapper, tombstone reasons and dates, the reason, run and promoted flag in an audit's details, and the catalogue's created_at and updated_at.
- Catalogue entries that other routes change while handlers run: the runs start from any catalogue, and only the handlers write to it.
- Changes that callers make to cached result objects, and data races on the plain Python set and dictionaries: values are immutable and each access is one step.
- Wirings in which the adapter named "null" is missing or another one: the factory has the null adapter there, and so does the fallback.
- Several processes: each process has its own cache and filter, and one process is modelled.
- SQL text, JSON encoding and connection handling: each statement is one atomic step on maps. Identifiers the code generates are fresh.
- That an approved discovery is eventually promoted when its handler stops in between: the code does not promise it.
- File scanning, pattern extraction and redaction patterns: a run starts from extracted patterns, with the redactor as a parameter.
- Case folds that make or remove a path separator: no character has one.
- Path translation and audit in the trigger route: the path of a run, and whether it exists, are parameters.
- Whitespace other than blank, tab, line feed and carriage return.
- The joining of target and parts by the path library: the result is the target, a path style and the parts.
- The other checks of the Playwright validator: regular expressions and straight-line diagnostics.
