# Verified model of the marketforge control plane, market, readers and CPU decoder

A Dafny model of seven connected parts of the system, with proofs of what they promise. `dafny verify dfyconfig.toml`
checks everything.

- **Paged KV allocator** (`Kv*.dfy`, `PagedKvCache.dfy`). A class over a page array and three owner lists. `KvState` gives
  each operation as a function on the state, `KvInvariant` the agreement of page tags, owner lists and reference counts
  that every operation keeps, `KvProperties` isolation and transactions over every run, `KvAccounting` the identities
  behind the metrics, `KvOutcomes` when each call succeeds and exactly what it then changes.
- **Sequence scheduler** (`Scheduler*.dfy`, `SequenceScheduler.dfy`). A class with a circular scan. Lifecycle and bounded
  bypass are proved over every run of operations; `SchedulerOutcomes` says when each call succeeds and what it changes for
  good.
- **Batch auction** (`Market*.dfy`, `BatchMarket.dfy`, `Ordering.dfy`). Uniform-price clearing with its four-level tie-break,
  priority, settlement, conservation, and independence of the order of submission. `MarketReference` describes a whole call
  from the submissions, by sums over them and by rank, without the algorithm.
- **Token automaton** (`Token*.dfy`). A finite language compiled to a trie and then to flat tables read by binary search.
  The compiler is generic in the id of a choice: `src/grammar/action_dfa.cpp` is the same algorithm with actions as ids and
  no reserved id, `src/grammar/token_dfa.cpp` reserves the largest 32-bit number.
- **Readers** (`Utf8.dfy`, `Json*.dfy`, `Safetensors.dfy`). The grammar of RFC 8259 is stated as relations between a stretch
  of the text and the value it denotes; `JsonReader` is the reader as functions of a position, `JsonParser` the parser
  object; soundness and completeness connect the three. `JsonPrinter`, `JsonDocuments` and `JsonEscapes` are the way back: a
  printer with every freedom of layout and escape that the format leaves, whose outputs are exactly what is accepted.
- **CPU decoder** (`Decoder*.dfy`, `Cpu*.dfy`). The floating-point type and its operations are parameters about which nothing
  is assumed. `DecoderModel` evaluates a whole token history without a cache; the class works on flat buffers, with keys and
  values of each layer in consecutive blocks and a workspace that is cut up anew in each phase, and is proved equal to it,
  call by call. `GroupedQueries` says by addresses which heads share their keys and values.
- **Scenario driver** (`Scenario*.dfy`). The driver composes the allocator, the scheduler and the automaton; its failure
  returns are proved unreachable, with two exceptions that are stated exactly.
- `Core.dfy` holds the integer widths, error codes and results, `Counting.dfy` sequences without repetition, the pigeonhole
  bound behind the 64-bit totals, and rounded-down quotients.

## What the proofs found

- A bound on schedule calls that holds whatever is enqueued exists exactly while the scan is not past the sequence
  (`SchedulerStarvation.BoundedExactly`). Once the scan is past it, each arrival can cost it one slot: it is dispatched as
  soon as the offered slots exceed its distance plus these late arrivals (`SchedulerFairness.DispatchedEventually`), and one
  late arrival per slot keeps it waiting for any number of calls (`SchedulerStarvation.Starvation`). Without enqueues the
  bound is the rounded-up quotient of n by min(m, n). The bound on bypasses, at most one dispatch of every other sequence,
  holds always.
- A configuration that passes `valid_config` can still make the driver fail. The sum of reserved tokens in `metrics` exceeds
  64 bits for very many vehicles on very large pages (`Scenario.MetricsCanOverflow`), and the scheduler's generation counter
  can run out (`Scenario.GenerationsCanSaturate`). `Scenario.RunScenario` states both conditions; under them the driver
  succeeds, and otherwise it fails with the code stated.
- A decoder layer has one failure that its validation does not catch, an odd head dimension, found only after the
  projections (`CpuDecoder.DecoderLayer`, with an input in `CpuDecoder.OddDimensionPasses`); the loaded profile has an even
  one.
- The allocator's corruption returns and the saturation of a prefix's attachment counter can never happen
  (`KvProperties.NoCorruption`, `KvOutcomes.RoomToAttach`).

## Model

| member | source | states |
|---|---|---|
| KvState.PagesForIsCeiling | src/serving/paged_kv_cache.cpp:32-36 | page-by-page filling needs the rounded-up quotient that the source computes |
| PagedKv.PagedKvCache.constructor | src/serving/paged_kv_cache.cpp:40-57 | a new cache has all pages free and no owners, and satisfies the invariant |
| PagedKv.PagedKvCache.Create | src/serving/paged_kv_cache.cpp:40-57 | creation fails exactly for zero pages or a zero page size |
| PagedKv.PagedKvCache.CreateSequence | src/serving/paged_kv_cache.cpp:59-89 | the new state and status are those of the operation, and the invariant is kept |
| PagedKv.PagedKvCache.CheckDestroy | src/serving/paged_kv_cache.cpp:91-115 | the refusals come in the order of the source, and otherwise every listed page carries the tag of the sequence |
| PagedKv.PagedKvCache.DestroySequence | src/serving/paged_kv_cache.cpp:91-124 | the new state and status are those of the operation, and the invariant is kept |
| PagedKv.PagedKvCache.CollectFree | src/serving/paged_kv_cache.cpp:126-182 | the scan returns the lowest free pages, in page order, at most as many as wanted |
| PagedKv.PagedKvCache.PagesToAdd | src/serving/paged_kv_cache.cpp:129-142 | a request is refused exactly for an unknown or pending sequence, a smaller target or an exhausted counter; otherwise the pages beyond those the sequence has are counted |
| PagedKv.PagedKvCache.Reserve | src/serving/paged_kv_cache.cpp:126-182 | the new state and result are those of the operation, with the 64-bit id counter wrapping to 0; the invariant is kept |
| PagedKv.PagedKvCache.Commit | src/serving/paged_kv_cache.cpp:184-225 | the new state and status are those of the operation, and the invariant is kept |
| PagedKv.PagedKvCache.Rollback | src/serving/paged_kv_cache.cpp:227-247 | the new state and status are those of the operation, whose outcome for every id is `KvOutcomes.RollbackOutcome`; the invariant is kept |
| PagedKv.PagedKvCache.PublishPrefix | src/serving/paged_kv_cache.cpp:249-287 | the new state and status are those of the operation, and the invariant is kept |
| PagedKv.PagedKvCache.DestroyPrefix | src/serving/paged_kv_cache.cpp:289-310 | the new state and status are those of the operation, and the invariant is kept |
| PagedKv.PagedKvCache.CheckTags | src/serving/paged_kv_cache.cpp:109-115 | the guard loop decides whether every listed page carries the owner's tag |
| PagedKv.PagedKvCache.PaintPages | src/serving/paged_kv_cache.cpp:116-118 | exactly the listed pages are retagged, in place |
| PagedKv.PagedKvCache.Table | src/serving/paged_kv_cache.cpp:312-354 | the table call fails only for unknown ids and lists prefix pages, then own pages |
| PagedKv.PagedKvCache.CountPages | src/serving/paged_kv_cache.cpp:356-413 | the four page counters are exact and no page has an owner that does not list it |
| PagedKv.PagedKvCache.SumAttachments | src/serving/paged_kv_cache.cpp:356-452 | attachments are added up, or overflow is reported |
| PagedKv.PagedKvCache.SumTokens | src/serving/paged_kv_cache.cpp:356-452 | payload and reserved tokens are added up, or overflow is reported; a missing prefix never is |
| PagedKv.PagedKvCache.Metrics | src/serving/paged_kv_cache.cpp:356-452 | the result is the accounting of the owner lists, or overflow; corruption is never reported |
| KvInvariant.TagsAgree | src/serving/paged_kv_cache.cpp:109-115 | under the invariant every page listed by an owner carries that owner's tag, so no corruption guard fires |
| KvOwnership.SelectFreeFromStart | src/serving/paged_kv_cache.cpp:126-182 | the selected pages are distinct, free, the lowest ones, and too few only if too few pages are free |
| KvProperties.StepInv | src/serving/paged_kv_cache.cpp:59-310 | every operation keeps the agreement of page tags, owner lists, reference counts and page counts |
| KvProperties.NoCorruption | src/serving/paged_kv_cache.cpp:59-310 | in every reachable state no operation returns the corruption code, and a failed operation changes nothing |
| KvProperties.TableComplete | src/serving/paged_kv_cache.cpp:312-354 | the table of a live sequence is always available, with its shared page count not truncated |
| KvProperties.SequenceCapacity | src/serving/paged_kv_cache.cpp:126-225 | the pages of a sequence hold all its tokens and waste less than a page in the suffix and in the prefix |
| KvProperties.TableIsClean | src/serving/paged_kv_cache.cpp:312-354 | a table repeats no page and lists no free or reserved page, nor one of another owner |
| KvProperties.Isolation | src/serving/paged_kv_cache.cpp:59-354 | two sequences share a page only through the same prefix, at the same index, below the shared page count |
| KvProperties.TableStep | src/serving/paged_kv_cache.cpp:59-310 | only its own commit changes a surviving sequence's table, and it appends |
| KvProperties.TableGrows | src/serving/paged_kv_cache.cpp:59-310 | over any run without its destruction a table only grows at the end |
| KvProperties.ReserveExact | src/serving/paged_kv_cache.cpp:126-182 | an admissible reserve fails exactly when too few pages are free, and grants the lowest free ones |
| KvProperties.RollbackRestores | src/serving/paged_kv_cache.cpp:126-247 | reserve and then roll back at once restores everything but the id counter; with operations in between see `KvOutcomes.RollbackLater` |
| KvProperties.CommitAppends | src/serving/paged_kv_cache.cpp:126-225 | reserve and then commit appends exactly the reserved pages, which were free |
| KvProperties.GrantIsFresh | src/serving/paged_kv_cache.cpp:126-182 | a granted id was never issued before and is pending afterwards |
| KvProperties.FinishedForever | src/serving/paged_kv_cache.cpp:184-247 | a committed or rolled back id is refused for ever, over any run |
| KvProperties.NoOwnersNoPages | src/serving/paged_kv_cache.cpp:91-310 | without sequences and prefixes every page is free |
| KvOutcomes.RoomToAttach | src/serving/paged_kv_cache.cpp:59-71 | a published prefix can always take one more fresh sequence: its 64-bit counter never saturates before the ids run out |
| KvOutcomes.CreateSequenceOutcome | src/serving/paged_kv_cache.cpp:59-89 | a sequence is created if and only if its id is fresh and not 0 and its prefix is none or published; it is then appended empty, or with the prefix's tokens and one more attachment there |
| KvOutcomes.DestroySequenceOutcome | src/serving/paged_kv_cache.cpp:91-124 | a sequence is destroyed if and only if it is known and waits for no reservation; exactly its own pages become free, its prefix loses one attachment, nothing else changes |
| KvOutcomes.PublishPrefixOutcome | src/serving/paged_kv_cache.cpp:250-287 | a prefix is published if and only if its id is fresh and not 0 and the sequence is known, non-empty, without a prefix and not waiting; exactly its pages change hands |
| KvOutcomes.DestroyPrefixOutcome | src/serving/paged_kv_cache.cpp:289-310 | a prefix is destroyed if and only if it is there and no sequence carries it; exactly its pages become free |
| KvOutcomes.ReserveOutcome | src/serving/paged_kv_cache.cpp:126-182 | a known sequence is refused, short of memory, or granted the lowest free pages, by its length, its pending reservation, the id counter and the number of free pages; exactly these pages become reserved |
| KvOutcomes.CommitOutcome | src/serving/paged_kv_cache.cpp:184-225 | a commit succeeds if and only if the reservation is pending, wherever it stands in the list; exactly its pages then belong to its sequence, behind those it had, and the length is the target |
| KvOutcomes.RollbackOutcome | src/serving/paged_kv_cache.cpp:227-248 | a rollback succeeds if and only if the reservation is pending, wherever it stands in the list; exactly its pages become free, every other page, sequence, prefix and reservation stays, and the free count grows by its pages |
| KvOutcomes.PendingPersists | src/serving/paged_kv_cache.cpp:126-248 | a pending reservation stays pending as it is over any run that neither commits nor rolls it back |
| KvOutcomes.RollbackLater | src/serving/paged_kv_cache.cpp:126-248 | a transaction: reserve, then any operations but the end of this reservation, then the rollback succeeds, frees exactly the reserved pages, and the id is refused for ever |
| KvOutcomes.TableOutcome | src/serving/paged_kv_cache.cpp:312-354 | the table of a known sequence has its lengths, the pages of the prefix it carries and then its own, in order |
| KvOutcomes.CountsOutcome | src/serving/paged_kv_cache.cpp:356-452 | the reported counters are the numbers of pages in each state and the sizes of the owner lists |
| KvOutcomes.TokensOutcome | src/serving/paged_kv_cache.cpp:356-452 | the reported token totals are the sum over the sequences and the products with the page size |
| KvAccounting.AttachmentsExact | src/serving/paged_kv_cache.cpp:59-124 | attachments are the sequences that carry a prefix; weighted by pages they are the shared pages of all tables |
| KvAccounting.PageAccounting | src/serving/paged_kv_cache.cpp:356-452 | free, pending, mutable and shared pages add up to all pages, and each class has the size of its owner lists |
| KvAccounting.ReservedIdentity | src/serving/paged_kv_cache.cpp:356-452 | reserved tokens are page size times mutable pages plus attachments times pages over the prefixes |
| KvAccounting.PayloadFits | src/serving/paged_kv_cache.cpp:356-452 | payload is at most what is reserved, and fragmentation at most page size minus one per sequence and attachment |
| KvAccounting.CommittedFits | src/serving/paged_kv_cache.cpp:356-452 | physical committed tokens always fit into 64 bits |
| KvAccounting.AttachmentsFit | src/serving/paged_kv_cache.cpp:406-412 | attachments never exceed the number of sequences, whose ids are distinct 64-bit numbers, so their sum never overflows |
| KvAccounting.MetricsFailure | src/serving/paged_kv_cache.cpp:356-452 | metrics fails exactly when the token capacity of the mutable and the attached pages exceeds 64 bits, and only with the overflow code |
| KvAccounting.MetricsIdentities | src/serving/paged_kv_cache.cpp:356-452 | the reported numbers satisfy all accounting identities |
| SchedulerState.WrapIsRemainder | src/serving/sequence_scheduler.cpp:57-60 | ring positions are the remainders that the source computes |
| SchedulerState.SelectMisses | src/serving/sequence_scheduler.cpp:53-64 | a runnable entry is missed only when the batch is full of entries before it in ring order |
| Scheduling.SequenceScheduler.Enqueue | src/serving/sequence_scheduler.cpp:22-39 | the new state and status are those of the operation, and the invariant is kept |
| Scheduling.SequenceScheduler.Pick | src/serving/sequence_scheduler.cpp:46-64 | the next batch is selected from the scan index on, at most one slot per entry |
| Scheduling.SequenceScheduler.Scan | src/serving/sequence_scheduler.cpp:53-64 | the loop takes runnable entries in ring order from the scan index until the batch is full |
| Scheduling.SequenceScheduler.Describe | src/serving/sequence_scheduler.cpp:75-89 | each item carries the kind of work and the 32-bit context length of its entry |
| Scheduling.SequenceScheduler.MarkInFlight | src/serving/sequence_scheduler.cpp:92-96 | exactly the selected entries go in flight |
| Scheduling.SequenceScheduler.Dispatch | src/serving/sequence_scheduler.cpp:75-98 | a batch takes the next generation and moves the scan behind its last entry |
| Scheduling.SequenceScheduler.Schedule | src/serving/sequence_scheduler.cpp:41-106 | the new state and batch are those of the operation, and the invariant is kept |
| Scheduling.SequenceScheduler.Complete | src/serving/sequence_scheduler.cpp:108-137 | the new state and status are those of the operation, including the temporary clearing of the flag |
| Scheduling.SequenceScheduler.Pause | src/serving/sequence_scheduler.cpp:139-150 | the new state and status are those of the operation, and the invariant is kept |
| Scheduling.SequenceScheduler.Resume | src/serving/sequence_scheduler.cpp:152-159 | the new state and status are those of the operation, and the invariant is kept |
| Scheduling.SequenceScheduler.Cancel | src/serving/sequence_scheduler.cpp:161-175 | the new state and status are those of the operation, whose outcome is `SchedulerOutcomes.CancelOutcome`; the invariant is kept |
| Scheduling.SequenceScheduler.Snapshot | src/serving/sequence_scheduler.cpp:195-210 | the counters count the entries by phase |
| SchedulerLifecycle.StepInv | src/serving/sequence_scheduler.cpp:16-175 | every operation keeps the invariant |
| SchedulerLifecycle.RunInv | src/serving/sequence_scheduler.cpp:16-175 | every run from an empty scheduler keeps the invariant |
| SchedulerLifecycle.TerminalForever | src/serving/sequence_scheduler.cpp:108-175 | finished and cancelled entries never change, over any run |
| SchedulerLifecycle.Lifecycle | src/serving/sequence_scheduler.cpp:41-175 | over any run a sequence gets one prefill, then decodes over strictly growing contexts below its 32-bit limit, and never more output than its maximum |
| SchedulerLifecycle.FailureChangesNothing | src/serving/sequence_scheduler.cpp:22-175 | without its failed operations a run ends in the same state and hands out the same items to every sequence |
| SchedulerLifecycle.SnapshotAddsUp | src/serving/sequence_scheduler.cpp:195-210 | runnable, in flight and paused make up resident; resident, finished and cancelled make up all |
| SchedulerOutcomes.UnknownRefused | src/serving/sequence_scheduler.cpp:108-175 | an id without an entry is refused by every call, which changes nothing |
| SchedulerOutcomes.EnqueueOutcome | src/serving/sequence_scheduler.cpp:22-39 | a request is taken if and only if it is complete, fits into 32 bits and has a fresh id; it queues up last and nothing else changes |
| SchedulerOutcomes.ScheduleOutcome | src/serving/sequence_scheduler.cpp:41-106 | the batch is of waiting entries in ring order behind the scan, and passes over a waiting one only when it is full; exactly these go in flight, and the items tell the engine what their entries need |
| SchedulerOutcomes.CompleteOutcome | src/serving/sequence_scheduler.cpp:108-137 | a completion is refused, cancels, finishes or goes on decoding by the flags and the budget, and changes that entry alone |
| SchedulerOutcomes.TerminalIsSilent | src/serving/sequence_scheduler.cpp:11-106 | nothing is handed out again for a finished or cancelled sequence, over any run |
| SchedulerOutcomes.EndFinishes | src/serving/sequence_scheduler.cpp:108-137 | a terminal completion within the budget, below the maximum too, finishes the sequence with the reported output: over any later run it stays so and nothing is handed out for it |
| SchedulerOutcomes.PauseOutcome | src/serving/sequence_scheduler.cpp:139-150 | a sequence is paused if and only if it is alive and not in flight; a second pause succeeds without effect |
| SchedulerOutcomes.ResumeOutcome | src/serving/sequence_scheduler.cpp:152-159 | a sequence is resumed if and only if it is paused; it then waits for a turn in the phase it had |
| SchedulerOutcomes.PausedStays | src/serving/sequence_scheduler.cpp:41-175 | over any run without its resume or cancel a paused sequence does not change and is never handed out |
| SchedulerOutcomes.PauseThenResume | src/serving/sequence_scheduler.cpp:139-159 | a waiting sequence that is paused and, after any such run, resumed has its earlier phase and output back |
| SchedulerOutcomes.CancelOutcome | src/serving/sequence_scheduler.cpp:161-175 | cancelling a known sequence fails if and only if it is finished; otherwise it is cancelled at once, or marked if it is in flight |
| SchedulerOutcomes.CancelIsFinal | src/serving/sequence_scheduler.cpp:41-175 | after a successful cancel nothing is handed out for the sequence over any later run, its output does not change, and it stays cancelled unless it was in flight |
| SchedulerOutcomes.CancelAtCompletion | src/serving/sequence_scheduler.cpp:108-175 | a sequence cancelled in flight keeps its state over any run without its completion, and its next accepted completion cancels it with the output it had |
| SchedulerOutcomes.SnapshotOutcome | src/serving/sequence_scheduler.cpp:195-210 | the reported numbers are the numbers of entries in each situation |
| SchedulerFairness.BoundedBypass | src/serving/sequence_scheduler.cpp:41-98 | while a sequence waits, every other one, later arrivals included, is dispatched at most once, over any mix of operations |
| SchedulerFairness.WaitBound | src/serving/sequence_scheduler.cpp:41-98 | the distance of a waiting sequence pays for every slot that passes it by; only arrivals behind a scan that is past it add to it, and a scan that is not past it never gets there |
| SchedulerFairness.DispatchedEventually | src/serving/sequence_scheduler.cpp:41-98 | over any mix of operations a sequence that stays runnable is dispatched once the offered slots exceed its distance from the scan plus the late arrivals |
| SchedulerFairness.DispatchedBeforeWrap | src/serving/sequence_scheduler.cpp:41-98 | a scan that is not past the sequence reaches it within its distance, whatever is enqueued |
| SchedulerFairness.DispatchedInTime | src/serving/sequence_scheduler.cpp:41-98 | without enqueues a sequence that stays runnable is dispatched within the rounded-up quotient of n by min(m, n) schedule calls |
| SchedulerStarvation.Starvation | src/serving/sequence_scheduler.cpp:22-98 | tightness: from any state whose scan is past a runnable entry, for any capacity and number of calls, one late arrival per slot (and one more) keeps it waiting throughout |
| SchedulerStarvation.BoundedExactly | src/serving/sequence_scheduler.cpp:22-98 | some number of calls dispatches a runnable entry whatever is enqueued if and only if the scan is not past it |
| SchedulerStarvation.PrimedIsReachable | src/serving/sequence_scheduler.cpp:22-98 | ordinary calls reach a state whose scan is past one runnable entry and not past another |
| SchedulerStarvation.BothReachable | src/serving/sequence_scheduler.cpp:22-98 | in that state the one entry can starve and the other cannot |
| BatchAuction.BatchMarket.constructor | src/market/batch_market.cpp:48-73 | a new market holds the sorted accounts and the reference tick |
| BatchAuction.BatchMarket.Create | src/market/batch_market.cpp:48-73 | creation succeeds exactly on solvent accounts with distinct ids and a tick in 1..99 |
| BatchAuction.BatchMarket.CollectOrders | src/market/batch_market.cpp:84-120 | the loop collects both sides, or reports the first refusal |
| BatchAuction.BatchMarket.SumVolume | src/market/batch_market.cpp:129-146 | demand and supply at a tick are the eligible quantities |
| BatchAuction.BatchMarket.FindTick | src/market/batch_market.cpp:122-165 | the loop finds the best candidate over the ticks 1..99, which is the optimal tick of `MarketReference.BestIsOptimal` |
| BatchAuction.BatchMarket.AllocateSide | src/market/batch_market.cpp:185-202 | the loop fills eligible orders in order until the volume is used up |
| BatchAuction.BatchMarket.ApplyOrders | src/market/batch_market.cpp:204-244 | settling moves cash and shares order by order, or fails without effect |
| BatchAuction.BatchMarket.Clear | src/market/batch_market.cpp:75-258 | accounts, last tick and result are those of the operation, which `MarketReference.ClearOutcome` describes from the submissions |
| BatchAuction.BatchMarket.ClearCollected | src/market/batch_market.cpp:122-254 | accounts, last tick and result are those of the operation, once the orders are collected |
| MarketClearing.BetterIsStrictOrder | src/market/batch_market.cpp:37-46 | the four-level comparison is a strict total order on candidates of different ticks |
| MarketClearing.TickOptimal | src/market/batch_market.cpp:122-165 | the chosen candidate is better than that of every other tick; in sums over the submissions see `MarketReference.BestIsOptimal` |
| MarketClearing.VolumeMaximal | src/market/batch_market.cpp:122-165 | no feasible uniform-price fills, at any tick, move more than the chosen volume |
| MarketClearing.AllocationExact | src/market/batch_market.cpp:185-199 | fills and remainder add up to the volume, and a remainder means that every eligible order is full |
| MarketClearing.PriorityHolds | src/market/batch_market.cpp:174-199 | an order that gets anything leaves no eligible order of higher priority short |
| MarketClearing.OnePartialFill | src/market/batch_market.cpp:185-199 | at most one order of a side is filled in part |
| MarketClearing.AllocationSucceeds | src/market/batch_market.cpp:185-202 | both sides can always allocate the volume, so the corruption return is unreachable |
| MarketSettlement.CreateExact | src/market/batch_market.cpp:48-73 | creation keeps every account and succeeds exactly on admissible ones |
| MarketSettlement.AdmissionExact | src/market/batch_market.cpp:84-120 | a submission list is admitted exactly when agents are known, distinct and can afford their orders |
| MarketSettlement.ApplyAllPointwise | src/market/batch_market.cpp:207-244 | with one order per account settlement acts on each account alone and fails exactly when one account has no room |
| MarketSettlement.ApplyAllConserves | src/market/batch_market.cpp:207-244 | settlement changes total cash and shares by the net of the fills |
| MarketSettlement.TradeAccounts | src/market/batch_market.cpp:204-254 | every order of a trade stands on its own agent's account, one order per account, and the account can afford its fill |
| MarketProperties.VolumesFit | src/market/batch_market.cpp:129-146 | agents are distinct 32-bit numbers with orders of at most 8, so the 64-bit volumes of an admitted call never overflow |
| MarketProperties.FailureIsAtomic | src/market/batch_market.cpp:75-258 | a failed call changes neither accounts nor last tick and never returns the corruption code |
| MarketProperties.TradesExactly | src/market/batch_market.cpp:75-258 | a trade happens exactly when the call is admissible, the best volume is positive and fits into 32 bits, and every receiver has room |
| MarketProperties.ClearConserves | src/market/batch_market.cpp:204-254 | a call conserves total cash and total shares and leaves no account in debt |
| MarketProperties.ResultDescribesAccounts | src/market/batch_market.cpp:204-254 | the reported fills say exactly what happened to every account |
| MarketProperties.ResultHonoursLimits | src/market/batch_market.cpp:122-254 | every fill answers a submission within its quantity and limit, at the optimal tick and volume |
| MarketProperties.TradePriority | src/market/batch_market.cpp:174-254 | in the returned fills: if a submission got anything, every one that outranks it by price and agent and whose limit allows the tick was filled completely |
| MarketProperties.OnePartialSubmission | src/market/batch_market.cpp:185-254 | in the returned fills: at most one submission of a side is filled in part |
| MarketProperties.OrderInvariant | src/market/batch_market.cpp:75-258 | every permutation of the submissions succeeds or fails alike, with the same result, accounts and last tick |
| MarketProperties.RunConserves | src/market/batch_market.cpp:75-258 | over any sequence of calls totals are constant and balances never negative |
| MarketReference.OptimalUnique | src/market/batch_market.cpp:37-46 | at most one tick of the grid has the largest matching quantity, then the least excess, then the least distance, then the lowest number |
| MarketReference.BestIsOptimal | src/market/batch_market.cpp:122-165 | the chosen tick is that one, with demand and supply as sums over the submissions: no other tick matches more; among equals none leaves less excess, then none is nearer to the last tick, then none is lower |
| MarketReference.AcceptedExact | src/market/batch_market.cpp:84-120 | a call is admitted if and only if no agent repeats and every submission names an account that covers its worst case |
| MarketReference.FirstErrorExact | src/market/batch_market.cpp:84-120 | the refusal reported is that of the first refused submission |
| MarketReference.SideFill | src/market/batch_market.cpp:167-202 | each submission gets what those that outrank it leave of the volume, up to its quantity, and nothing beyond its limit |
| MarketReference.RoomExact | src/market/batch_market.cpp:204-244 | settlement has room if and only if each receiver's shares stay within 32 bits and cash within 64 |
| MarketReference.FillsExact | src/market/batch_market.cpp:204-254 | the returned fills are exactly the positive fills of the submissions, by agent |
| MarketReference.ClearOutcome | src/market/batch_market.cpp:75-258 | a call from the submissions alone: refused for the first bad one, or no trade, or an overflow, or the trade at the optimal tick with each submission filled in its rank and each account settled at ten thousand cash units a tick |
| TokenTrie.ChildExact | src/grammar/token_dfa.cpp:42-66 | in the trie a child exists exactly for the words that are one token longer |
| TokenTrie.AddChildTrie | src/grammar/token_dfa.cpp:55-64 | adding a missing child keeps the trie a tree of distinct words with one more arc |
| TokenDfaBuild.DescendOne | src/grammar/token_dfa.cpp:49-66 | following or adding one arc keeps the trie; a rejection or an excess has a cause in the language |
| TokenDfaBuild.Descend | src/grammar/token_dfa.cpp:48-66 | a whole word is followed or added, with its path unmarked |
| TokenDfaBuild.AddChoice | src/grammar/token_dfa.cpp:42-73 | one more choice is spelled, or the language is not prefix-free, not in the vocabulary, or too large |
| TokenDfaBuild.BuildTrie | src/grammar/token_dfa.cpp:37-73 | the loop over the choices accepts exactly well-formed languages within the state and arc limits |
| TokenDfaBuild.ListArcs | src/grammar/token_dfa.cpp:85-87 | the arcs of a node are its children in token order |
| TokenDfaBuild.Flatten | src/grammar/token_dfa.cpp:75-88 | the flat tables lay out the trie state by state |
| TokenDfaBuild.Build | src/grammar/token_dfa.cpp:23-97 | build succeeds exactly on non-empty, well-formed, prefix-free languages within all limits; the code tells which condition fails, and the corruption return is unreachable |
| TokenDfaBuild.Allowed | src/grammar/token_dfa.cpp:99-109 | the arcs of a state, or an error for a state that does not exist |
| TokenDfaBuild.LowerBound | src/grammar/token_dfa.cpp:118-122 | binary search finds the first token that is not smaller |
| TokenDfaBuild.Advance | src/grammar/token_dfa.cpp:111-128 | binary search agrees with inspecting every arc |
| TokenDfaBuild.AllowedExact | src/grammar/token_dfa.cpp:99-109 | the arcs at the state of a word carry exactly the tokens that continue it towards some word of the language |
| TokenDfa.NextExact | src/grammar/token_dfa.cpp:111-128 | a token leads on exactly to the state of the longer word |
| TokenDfa.WalkExact | src/grammar/token_dfa.cpp:111-128 | from the root a word leads exactly to the state that stands for it |
| TokenDfa.RecognisesLanguage | src/grammar/token_dfa.cpp:23-146 | a word leads to a terminal state that decodes to an id exactly when the language holds that id with that word |
| TokenDfa.StatesCounted | src/grammar/token_dfa.cpp:75-91 | there is one state per distinct prefix and one arc per state but the root |
| TokenDfa.EveryStateReachable | src/grammar/token_dfa.cpp:75-91 | every state is reached by its word, and arcs lead to later states |
| TokenDfa.NoDeadEnd | src/grammar/token_dfa.cpp:37-91 | from every state some word leads to a terminal state, and terminal states are exactly those without arcs |
| TokenDfa.TerminalIsLeaf | src/grammar/token_dfa.cpp:67-71 | marks stand exactly on the leaves of the trie |
| Utf8.IsValid | src/model/json_parser.cpp:401-446 | the validator decides the byte grammar of section 4 of RFC 3629 |
| Utf8.CharLength | src/model/json_parser.cpp:404-443 | one step accepts exactly one character of that grammar |
| Utf8.Continue | src/model/json_parser.cpp:428-434 | the continuation loop checks the tail bytes and assembles the code point |
| Utf8.RangeTest | src/model/json_parser.cpp:436-442 | the arithmetic range test is the grammar's restriction of the second byte |
| Utf8.SplitAtAscii | src/model/json_parser.cpp:20-33 | valid UTF-8 may be cut before and after any ASCII byte |
| Utf8.EncodeDecode | src/model/json_parser.cpp:277-294 | every Unicode scalar is encoded as one valid character and is read back |
| Utf8.DecodeEncode | src/model/json_parser.cpp:277-294 | every valid character is the encoding of the scalar it spells |
| Utf8.SurrogatePairs | src/model/json_parser.cpp:349-366 | surrogate pairs and supplementary scalars correspond one to one |
| JsonTokens.NumberSound | src/model/json_parser.cpp:188-244 | an accepted number matches section 6 of RFC 8259 |
| JsonTokens.NumberComplete | src/model/json_parser.cpp:188-244 | a number of the grammar, followed by what may follow a value, is read whole |
| JsonTokens.CharExact | src/model/json_parser.cpp:304-374 | one char of a string is read exactly as the grammar derives it, escapes and surrogate pairs included; in plain bytes the grammar is `JsonPrinter.PieceIsChar` and `JsonPrinter.CharIsPiece` |
| JsonTokens.StringExact | src/model/json_parser.cpp:296-377 | a string is read exactly as the grammar derives it |
| JsonTokens.StringValid | src/model/json_parser.cpp:296-377 | a decoded string is valid UTF-8 |
| JsonTokens.EscapeRoundTrip | src/model/json_parser.cpp:261-377 | a quoted escape of any Unicode scalar is decoded to its UTF-8 encoding |
| JsonSoundness.ValueSound | src/model/json_parser.cpp:69-186 | what is read is what the grammar derives, within the depth limit and without repeated keys |
| JsonSoundness.MembersSound | src/model/json_parser.cpp:118-160 | members read are members of the grammar with new keys |
| JsonCompleteness.ValueComplete | src/model/json_parser.cpp:69-186 | what the grammar derives, within the limits, is read |
| JsonCompleteness.ParseExact | src/model/json_parser.cpp:20-33 | a text is accepted with a value exactly when it is valid UTF-8, denotes that value by RFC 8259, has at most 64 containers around anything and no repeated key |
| JsonUnambiguous.Unambiguous | src/model/json_parser.cpp:20-33 | a text denotes at most one value of the grammar, at any depth and with repeated keys |
| JsonCompleteness.DecodedUtf8 | src/model/json_parser.cpp:296-377 | all strings and keys of a returned value are valid UTF-8 |
| JsonPrinter.SpellsExact | src/model/json_parser.cpp:246-275 | four hexadecimal digits of either case stand for the number they spell |
| JsonPrinter.NumberExact | src/model/json_parser.cpp:188-244 | the numbers of the grammar are a minus sign, a whole part without a leading zero, a fraction and an exponent, each optional but the whole part |
| JsonPrinter.PieceIsChar | src/model/json_parser.cpp:304-374 | each way to write a char in plain bytes (itself, the eight short escapes, four digits, a surrogate pair) is a char of the grammar with that meaning |
| JsonPrinter.CharIsPiece | src/model/json_parser.cpp:304-374 | and every char of the grammar is written in one of these ways |
| JsonDocuments.DocIsValue | src/model/json_parser.cpp:69-186 | a document printed in any layout denotes its value |
| JsonDocuments.ValueIsDoc | src/model/json_parser.cpp:69-186 | every text that denotes a value is such a printed document |
| JsonDocuments.NestingExact | src/model/json_parser.cpp:69-75 | the depth limit admits exactly values with at most 64 containers around anything |
| JsonDocuments.ReadsThePrinted | src/model/json_parser.cpp:20-33 | the library accepts a text with a value if and only if it is valid UTF-8 and some printed document of that value, in any layout and with any escapes, nested at most 64 deep and without repeated keys |
| JsonEscapes.WrittenIsRead | src/model/json_parser.cpp:296-377 | however a text is escaped between quotes, it is read back |
| JsonEscapes.TextRoundTrip | src/model/json_parser.cpp:296-377 | every valid UTF-8 text, escaped byte by byte as section 7 of RFC 8259 requires with digits of either case, is read back |
| JsonEscapes.UnknownEscapeRefused | src/model/json_parser.cpp:321-373 | a backslash before any other byte than the eight letters and u is refused, wherever it stands in a string |
| JsonParser.Parser.SkipWhitespace | src/model/json_parser.cpp:42-50 | the loop stops at the first byte that is not whitespace |
| JsonParser.Parser.Consume | src/model/json_parser.cpp:52-59 | the expected byte behind whitespace is stepped over, if it is there |
| JsonParser.Parser.ConsumeLiteral | src/model/json_parser.cpp:61-67 | the literal is stepped over exactly if it stands here |
| JsonParser.Parser.ParseNumber | src/model/json_parser.cpp:188-244 | the loops read what the reader's number function reads |
| JsonParser.Parser.ParseHexQuad | src/model/json_parser.cpp:261-275 | the loop accumulates the value of four hexadecimal digits |
| JsonParser.Parser.ParseUnicode | src/model/json_parser.cpp:343-369 | a unicode escape and its surrogate partner are read as the reader's function says |
| JsonParser.Parser.ParseString | src/model/json_parser.cpp:296-377 | the loop decodes what the reader's string function decodes, with the same failures; what that is in plain bytes is `JsonEscapes.WrittenIsRead` and `JsonEscapes.UnknownEscapeRefused` |
| JsonParser.Parser.ParseValue | src/model/json_parser.cpp:69-116 | result and position are those of the reader's value function; the recursion terminates |
| JsonParser.Parser.ParseArray | src/model/json_parser.cpp:162-186 | the loop collects what the reader's array function collects |
| JsonParser.Parser.ParseObject | src/model/json_parser.cpp:118-160 | the loop collects what the reader's object function collects, with the key set |
| JsonParser.Parser.Parse | src/model/json_parser.cpp:20-33 | the whole text is read as the reader's function says |
| JsonParser.ParseJson | src/model/json_parser.cpp:397-399 | the entry point accepts exactly the admissible texts and returns the denoted value (in plain bytes `JsonDocuments.ReadsThePrinted`); invalid UTF-8 is reported exactly for invalid UTF-8 |
| JsonParser.Find | src/model/json_parser.cpp:385-395 | lookup returns the first member of a key, which in a parsed value is the only one |
| Safetensors.ValidateExactCoverage | src/model/safetensors.cpp:161-187 | records pass exactly when the non-empty ranges partition the data and each empty range lies on a boundary, in whatever order they come |
| Safetensors.ValidateRanges | src/model/safetensors.cpp:138-187 | with the range checks in front, any offsets are accepted exactly when they are in range and tile the data |
| Safetensors.ChainTiles | src/model/safetensors.cpp:171-187 | a sorted chain of ranges is a tiling |
| Safetensors.TilesNext | src/model/safetensors.cpp:171-187 | in a sorted tiling each range begins where the one before ends |
| Safetensors.LengthsAddUp | src/model/safetensors.cpp:161-187 | the lengths of accepted ranges add up to the size of the data |
| Safetensors.TensorsApart | src/model/safetensors.cpp:161-187 | no two accepted tensors share a byte |
| CpuOperators.RmsNorm | src/cpu/operators.cpp:489-537 | each row is normalised as its row function says, into a region apart or in place, and nothing outside the output region changes |
| CpuOperators.Linear | src/cpu/operators.cpp:539-597 | each row is the product with the transposed weight, summed in index order, and nothing else changes |
| CpuOperators.RotateHead | src/cpu/operators.cpp:701-721 | each pair of a head is rotated in place by the angle of its dimension and position |
| CpuOperators.ApplyRope | src/cpu/operators.cpp:659-732 | query and key rows are rotated in place by any list of positions, and nothing else changes |
| CpuAttention.AppendKv | src/cpu/operators.cpp:734-791 | each key and value row is stored in the slot of its position, later rows over earlier ones, for any positions inside the cache; nothing else changes |
| CpuAttention.StoredInARow | src/cpu/operators.cpp:776-789 | rows at consecutive positions replace that stretch of the slots |
| CpuAttention.ScoreKeys | src/cpu/operators.cpp:238-259 | the loop leaves the scaled products in the scratch and returns the largest |
| CpuAttention.SoftmaxInPlace | src/cpu/operators.cpp:261-270 | the scratch turns into probabilities in place |
| CpuAttention.WeighValues | src/cpu/operators.cpp:272-289 | the output head is the weighted sum of the values |
| CpuAttention.HeadAddress | src/cpu/operators.cpp:245-255 | the flat address of a head is the address of its row and its offset in the row |
| CpuAttention.Attention | src/cpu/operators.cpp:207-294 | query row t attends to the slots up to its own position, head by head, and writes only its output and scratch; which heads share is `GroupedQueries.GroupedAttention` |
| GroupedQueries.GroupShares | src/cpu/operators.cpp:217-234 | query head j of group i is head i * g + j and reads key and value head i |
| GroupedQueries.GroupedAttention | src/cpu/operators.cpp:207-294 | after an attention call, every query head j of group i of every token holds its attention over key and value head i of the slots up to its own position, all by flat addresses in the buffers |
| CpuDecoder.ValidateLayer | src/cpu/operators.cpp:306-396 | validation passes exactly on usable sizes and constants, consecutive positions within the limits, weights of the right shapes and a large enough workspace; it tells an invalid model and a small workspace apart |
| CpuDecoder.WorkspaceProducts | src/cpu/operators.cpp:858-902 | the required workspace is the larger of three hidden buffers, keys, values and attention scores, and two gates and a hidden buffer |
| CpuDecoder.AddInPlace | src/cpu/operators.cpp:997-1000 | the residual is added row by row |
| CpuDecoder.GateInPlace | src/cpu/operators.cpp:1032-1037 | the gated activation is applied row by row, in place |
| CpuDecoder.OddDimensionPasses | src/cpu/operators.cpp:306-396 | a layer that passes the validation and has an odd head dimension |
| CpuDecoder.DecoderLayer | src/cpu/operators.cpp:903-1052 | the layer succeeds exactly on valid inputs with an even head dimension; hidden rows and cache are then those of the layer function, and slots below the first new position are unchanged |
| DecoderModel.LayerCausal | src/cpu/smollm2.cpp:363-463 | keys, values and outputs of earlier rows do not depend on later rows |
| DecoderModel.Causality | src/cpu/smollm2.cpp:363-463 | a longer history leaves hidden states, keys and values of earlier positions as they were, in every layer |
| DecoderModel.LayerTail | src/cpu/smollm2.cpp:363-463 | the rows behind the cached positions need only their own inputs and the keys and values of all positions |
| DecoderGreedy.GreedyChoosesFirstLargest | src/cpu/smollm2.cpp:444-462 | on finite logits under IEEE comparison the scan returns the lowest token of the largest logit, and as runner-up the largest of the others |
| DecoderGreedy.DecodeIsWhole | src/cpu/smollm2.cpp:346-463 | in the cache-free decoder a decode call answers what the longer text answers at once, failures included |
| DecoderGreedy.FailuresInvisible | src/cpu/smollm2.cpp:330-463 | without its failed calls a run gives the other calls the same answers, token and logits, and ends in the same history |
| DecoderGreedy.IncrementalEqualsWhole | src/cpu/smollm2.cpp:336-463 | a prompt and then single tokens: no call fails exactly when the prompt fits the prefill limit and every prefix is answered at once, and then each call answers, token and logits, what its prefix answers at once |
| CpuModel.CpuSmolLm2.constructor | src/cpu/smollm2.cpp:271-283 | fresh zeroed buffers of the computed sizes satisfy the invariant |
| CpuModel.CpuSmolLm2.Create | src/cpu/smollm2.cpp:215-225 | the limits are accepted exactly as the loader's check says |
| CpuModel.LayerAdvances | src/cpu/smollm2.cpp:409-428 | one layer extends its own cache slots to the whole history and keeps those of every other layer |
| CpuModel.CacheForShorter | src/cpu/smollm2.cpp:363-463 | whatever the layers have written, the slots below the context length still hold the old history |
| CpuModel.CpuSmolLm2.Embed | src/cpu/smollm2.cpp:387-394 | hidden rows are the embeddings of the new tokens, and the positions continue the context |
| CpuModel.CpuSmolLm2.RunLayers | src/cpu/smollm2.cpp:414-428 | the layer loop computes the hidden states of the whole history and never fails |
| CpuModel.CpuSmolLm2.Head | src/cpu/smollm2.cpp:430-439 | the logits buffer holds the logits of the whole history |
| CpuModel.CpuSmolLm2.Scan | src/cpu/smollm2.cpp:444-460 | the scan returns the greedy choice, or nothing if a logit is not finite |
| CpuModel.CpuSmolLm2.Forward | src/cpu/smollm2.cpp:363-463 | the call succeeds exactly when the cache-free decoder accepts the tokens, returns its greedy choice and logits for the whole history, and a failed call leaves the history as it was |
| CpuModel.CpuSmolLm2.RunPrefill | src/cpu/smollm2.cpp:336-344 | a prompt call returns the token, leaves the logits and changes the history as the cache-free decoder says |
| CpuModel.CpuSmolLm2.RunDecode | src/cpu/smollm2.cpp:346-352 | a decode call returns the token, leaves the logits and changes the history as the cache-free decoder says |
| CpuModel.CpuSmolLm2.RunReset | src/cpu/smollm2.cpp:330-334 | a reset clears the cache and the context |
| CpuModel.CpuSmolLm2.CurrentLogits | src/cpu/smollm2.cpp:354-361 | the logits are read from behind the hidden rows, one for each token of the vocabulary |
| CpuModel.CpuSmolLm2.Run | src/cpu/smollm2.cpp:330-463 | any sequence of calls, failed ones included, gives call by call the tokens and logits of the cache-free decoder |
| CpuModel.CpuSmolLm2.RunAndReplay | src/cpu/smollm2.cpp:330-463 | failed calls do not affect later results: a second decoder that gets only the calls that did not fail gives the same tokens and logits |
| CpuModel.CpuSmolLm2.RunBothWays | src/cpu/smollm2.cpp:336-463 | a decoder fed with a prompt and then one token at a time fails in no call exactly when the prompt fits the prefill limit and every prefix is answered at once, and then ends with the token, logits and history of one that is fed the whole text at once |
| Scenario.BuildMissionDfa | src/workloads/radar_simulation.cpp:129-139 | the mission grammar is always built and represents the five actions |
| Scenario.GrammarRoundTrip | src/workloads/radar_simulation.cpp:141-160 | the round trip succeeds exactly for the five actions |
| Scenario.ValidConfig | src/workloads/radar_simulation.cpp:99-127 | the check passes exactly on non-zero counts, finite settings of the right sign, and a cache that holds the prefix and all vehicles' sequences |
| ScenarioRounds.SelectsItems | src/workloads/radar_simulation.cpp:477-482 | each batch takes the next work items of the step in round-robin order |
| ScenarioRounds.ScheduleServes | src/workloads/radar_simulation.cpp:477-482 | a schedule call of the step fails only when the generation counter is saturated |
| ScenarioRounds.CompleteServes | src/workloads/radar_simulation.cpp:515-519 | completing the items of a batch in order always succeeds |
| ScenarioRounds.BatchesPerStep | src/workloads/radar_simulation.cpp:477-545 | a step takes the larger of 2 and the rounded-up quotient of twice the vehicles by the batch size |
| ScenarioCache.PagesUsed | src/workloads/radar_simulation.cpp:462-469 | in a step every page is free, of the prefix, or of a vehicle whose decision is not complete |
| ScenarioCache.MetricsInStep | src/workloads/radar_simulation.cpp:462-469 | metrics fails in a step exactly when the step's token total exceeds 64 bits |
| ScenarioCache.Admitted | src/workloads/radar_simulation.cpp:447-459 | creating, reserving and committing for one more vehicle succeeds while the configuration has room |
| ScenarioCache.Released | src/workloads/radar_simulation.cpp:540-542 | a completed vehicle's sequence can be destroyed and leaves the others as they were |
| ScenarioCache.TornDown | src/workloads/radar_simulation.cpp:570-578 | destroying the prefix owner and the prefix frees every page |
| Scenario.AdmitVehicle | src/workloads/radar_simulation.cpp:414-460 | admitting a vehicle never fails in a valid configuration |
| Scenario.FinishItem | src/workloads/radar_simulation.cpp:515-544 | completing an item, finding its decision among those of the frame and releasing its pages never fails |
| Scenario.ServeBatch | src/workloads/radar_simulation.cpp:479-544 | a batch is served, unless the generation counter is saturated |
| Scenario.ServeStep | src/workloads/radar_simulation.cpp:477-545 | the service loop terminates after exactly the batches of the step |
| Scenario.RunStep | src/workloads/radar_simulation.cpp:401-545 | a step fails exactly when the token total or the generation counter does not fit into 64 bits |
| Scenario.RunScenario | src/workloads/radar_simulation.cpp:359-626 | for any actions the driver succeeds exactly on valid configurations whose token total and batch count fit into 64 bits; batches, decisions, peak pages and free pages are then as computed, and no other failure is reached |
| Scenario.DefaultRuns | src/workloads/radar_simulation.cpp:359-626 | the default configuration meets the condition, with eight batches a step |
| Scenario.MetricsCanOverflow | src/workloads/radar_simulation.cpp:99-127 | a configuration that passes the check and on which metrics overflows |
| Scenario.GenerationsCanSaturate | src/workloads/radar_simulation.cpp:99-127 | a configuration that passes the check and needs more batches than 64 bits can number |

## Left out

- Position details inside a status, and the failures of host memory allocation: only the error code is modelled.
- The library's sort, set, map and `lower_bound` over accounts: functions with the properties that the code uses; the binary
  search of the automaton is a loop.
- Casts of ticks, quantities and indices whose ranges the model keeps as numbers with proved bounds.
- CUDA, cuBLAS and Accelerate: the portable loops are modelled.
- CpuAttention.Attention: one row of requests; the outermost loop over a batch, whose rows share nothing, is not modelled.
- CpuDecoder.DecoderLayer: one row of requests, and no layer trace; buffers are distinct arrays and weights are matrices, so
  overlapping buffers are excluded.
- CpuDecoder.ValidateLayer: one row of requests; the checks of view types and of overlapping memory are not modelled.
- The overflow checks of the size formulas in the loader: sizes are numbers without a bound.
- CpuModel.CpuSmolLm2.Create: takes a shaped model as given; reading and binding a checkpoint is not modelled.
- Safetensors.ValidateRanges: takes the pairs of offsets as given; parsing the header fields, shapes and data types around
  them is not modelled.
- Scenario.RunScenario: the chosen actions are arbitrary; radar physics, noise, latencies, deadlines, quantiles and the
  contents of the frames are not modelled.
- The scheduler's query of one entry (`state`), the standalone softmax operator and the checked entry `attention_f32`.
- Market and workload command-line tools, the trace writer, the demo, the tokenizer library, the model-config reader and the
  Python tooling.
