/** The scenario driver: every step admits one decision per vehicle and serves them batch by batch. */
module Scenario {
  import opened Core
  import opened ScenarioCache
  import opened ScenarioRounds
  import KvState
  import KvInvariant
  import KvAccounting
  import PagedKv
  import SchedulerState
  import SchedulerLifecycle
  import Scheduling
  import opened TokenTrie
  import opened TokenDfa
  import opened TokenDfaBuild

  // ---------- The mission grammar ----------

  const ACTIONS: nat := 5

  function ActionTokens(action: nat): Word
    requires action < ACTIONS
  {
    [80, if action == 0 then 11 else if action == 1 then 23 else if action == 2 then 37 else if action == 3 then 41
     else 59]
  }

  function MissionLanguage(): (language: seq<Choice<uint32>>) {
    seq(ACTIONS, i requires 0 <= i < ACTIONS => Choice(i, ActionTokens(i)))
  }

  const MISSION_CONFIG := Config(256, 2, 5, 8, 8)

  ghost function MissionPrefixes(): seq<Word> {
    [[], [80], ActionTokens(0), ActionTokens(1), ActionTokens(2), ActionTokens(3), ActionTokens(4)]
  }

  lemma {:induction false} ElementsBound<T(!new)>(s: seq<T>)
    ensures |Elements(s)| <= |s|
  {
    if s == [] {
    } else {
      ElementsBound(s[..|s| - 1]);
      assert Elements(s) == Elements(s[..|s| - 1]) + {s[|s| - 1]};
    }
  }

  lemma PrefixOfAction(w: Word, action: nat)
    requires action < ACTIONS && w <= ActionTokens(action)
    ensures w in MissionPrefixes()
  {
    var t, ps := ActionTokens(action), MissionPrefixes();
    assert w == t[..|w|];
    if |w| == 0 {
      assert w == ps[0];
    } else if |w| == 1 {
      assert w == ps[1];
    } else {
      assert w == t == ps[2 + action];
    }
  }

  lemma MissionPrefixCount()
    ensures |Prefixes(MissionLanguage())| <= 7
  {
    var language := MissionLanguage();
    forall w | w in Prefixes(language) ensures w in Elements(MissionPrefixes()) {
      PrefixMembership(language, w);
      if w == [] {
        assert MissionPrefixes()[0] == w;
      } else {
        var k :| 0 <= k < |language| && w <= language[k].tokens;
        PrefixOfAction(w, k);
      }
    }
    CardMonotone(Prefixes(language), Elements(MissionPrefixes()));
    ElementsBound(MissionPrefixes());
  }

  lemma MissionPrefixFree()
    ensures PrefixFree(MissionLanguage())
  {
    forall i, j | 0 <= i < ACTIONS && 0 <= j < ACTIONS && i != j
      ensures !(ActionTokens(i) <= ActionTokens(j))
    {
      assert ActionTokens(i)[1] != ActionTokens(j)[1];
    }
  }

  lemma MissionAcceptable()
    ensures WellFormed(MissionLanguage(), MISSION_CONFIG, (id: uint32) => id == NO_TERMINAL)
    ensures WithinLimits(MissionLanguage(), MISSION_CONFIG)
  {
    hide PrefixFree, Prefixes;
    MissionPrefixCount();
    MissionPrefixFree();
  }

  method BuildMissionDfa() returns (result: Result<Dfa<uint32>>, ghost trie: seq<Node>, ghost paths: seq<Word>)
    ensures result.Success? && Represents(result.value, MissionLanguage(), trie, paths)
  {
    MissionAcceptable();
    result, trie, paths := Build(MissionLanguage(), MISSION_CONFIG, (id: uint32) => id == NO_TERMINAL);
  }

  /** Follow the tokens of an action and decode where they lead. */
  method GrammarRoundTrip(dfa: Dfa<uint32>, action: nat, ghost trie: seq<Node>, ghost paths: seq<Word>)
    returns (valid: bool)
    requires Represents(dfa, MissionLanguage(), trie, paths)
    ensures valid <==> action < ACTIONS
  {
    if action >= ACTIONS {
      return false;
    }
    var tokens := ActionTokens(action);
    assert MissionLanguage()[action].tokens == tokens;
    AcceptsWord(dfa, MissionLanguage(), trie, paths, action);
    ArcsSorted(dfa, trie);
    hide Represents, LaysOut, Next, MissionLanguage;
    var state := 0;
    for n := 0 to |tokens|
      invariant Walk(dfa, 0, tokens[..n]) == Some(state)
    {
      WalkPrefix(dfa, tokens, n);
      var next := Advance(dfa, state, tokens[n]);
      if next.Failure? {
        return false;
      }
      state := next.value;
    }
    assert tokens[..|tokens|] == tokens;
    var decoded := DecodeTerminal(dfa, state);
    valid := decoded.Success? && decoded.value == action;
  }

  lemma ArcsSorted<K>(d: Dfa<K>, trie: seq<Node>)
    requires LaysOut(d, trie)
    ensures InBounds(d) && forall i :: 0 <= i < |d.states| ==> StrictlySorted(Outgoing(d, i))
  {
    forall i | 0 <= i < |d.states| ensures StrictlySorted(Outgoing(d, i)) {
      assert ListsChildren(Outgoing(d, i), trie[i]);
    }
  }

  /** A walk that reaches the end takes every arc on the way. */
  lemma {:induction false} WalkPrefix<K>(d: Dfa<K>, w: Word, n: nat)
    requires InBounds(d) && n < |w| && Walk(d, 0, w).Some? && Walk(d, 0, w[..n]).Some?
    ensures Walk(d, 0, w[..n + 1]) == Next(d, Walk(d, 0, w[..n]).value, w[n])
    ensures Walk(d, 0, w[..n + 1]).Some?
    decreases |w|
  {
    assert w[..n + 1][..n] == w[..n];
    if n + 1 < |w| {
      var init := w[..|w| - 1];
      assert init[..n] == w[..n] && init[..n + 1] == w[..n + 1];
      WalkPrefix(d, init, n);
    } else {
      assert w[..n + 1] == w;
    }
  }

  // ---------- The configuration ----------

  /** A double-precision setting: a number, or one of the values that are not finite. */
  datatype Quantity = Finite(value: real) | Infinite(negative: bool) | NotANumber

  /** The comparison `q <= 0.0` of IEEE 754. */
  predicate AtMostZero(q: Quantity) {
    match q
    case Finite(value) => value <= 0.0
    case Infinite(negative) => negative
    case NotANumber => false
  }

  /** The comparison `q < 0.0` of IEEE 754. */
  predicate BelowZero(q: Quantity) {
    match q
    case Finite(value) => value < 0.0
    case Infinite(negative) => negative
    case NotANumber => false
  }

  /** What the simulation around the protocol is given. */
  datatype Settings = Settings(
    targets: uint32,
    framePeriod: uint64,
    deadline: uint64,
    stepSeconds: Quantity,
    worldHalfExtent: Quantity,
    radarRange: Quantity,
    rangeNoise: Quantity,
    bearingNoise: Quantity)

  /** The refusals, comparison by comparison. */
  predicate SettingsRefused(s: Settings) {
    || s.targets == 0 || s.framePeriod == 0 || s.deadline == 0
    || AtMostZero(s.stepSeconds) || AtMostZero(s.worldHalfExtent) || AtMostZero(s.radarRange)
    || BelowZero(s.rangeNoise) || BelowZero(s.bearingNoise)
    || !s.stepSeconds.Finite? || !s.worldHalfExtent.Finite? || !s.radarRange.Finite?
    || !s.rangeNoise.Finite? || !s.bearingNoise.Finite?
  }

  predicate Positive(q: Quantity) { q.Finite? && q.value > 0.0 }

  predicate NonNegative(q: Quantity) { q.Finite? && q.value >= 0.0 }

  /** There are targets, a period and a deadline, finite positive extents and finite noise. */
  predicate SettingsUsable(s: Settings) {
    && s.targets > 0 && s.framePeriod > 0 && s.deadline > 0
    && Positive(s.stepSeconds) && Positive(s.worldHalfExtent) && Positive(s.radarRange)
    && NonNegative(s.rangeNoise) && NonNegative(s.bearingNoise)
  }

  datatype ScenarioConfig = ScenarioConfig(
    steps: uint32,
    vehicles: uint32,
    batch: uint32,
    promptTokens: uint32,
    outputTokens: uint32,
    sharedTokens: uint32,
    tokensPerPage: uint32,
    pages: uint32,
    settings: Settings)

  function LoadOf(c: ScenarioConfig): Load
    requires c.promptTokens <= U32_MAX - OUTPUT_TOKENS
  {
    Load(c.sharedTokens, c.promptTokens + OUTPUT_TOKENS, c.tokensPerPage, c.pages)
  }

  predicate CountsValid(c: ScenarioConfig) {
    && SettingsUsable(c.settings)
    && c.steps != 0 && c.vehicles != 0 && c.batch != 0 && c.outputTokens == OUTPUT_TOKENS && c.sharedTokens != 0
    && c.promptTokens >= c.sharedTokens && c.promptTokens <= U32_MAX - c.outputTokens
    && c.tokensPerPage != 0 && c.pages != 0
  }

  /** The prefix and the sequences of all vehicles fit into the cache. */
  predicate ConfigValid(c: ScenarioConfig) {
    && CountsValid(c)
    && PrefixPages(LoadOf(c)) + VehiclePages(LoadOf(c), c.vehicles) <= c.pages
  }

  method ValidConfig(c: ScenarioConfig) returns (ok: bool)
    ensures ok <==> ConfigValid(c)
  {
    if c.steps == 0 || c.vehicles == 0 || c.batch == 0 || c.outputTokens != 2 || c.sharedTokens == 0
      || c.promptTokens < c.sharedTokens || c.promptTokens > U32_MAX - c.outputTokens
      || c.tokensPerPage == 0 || c.pages == 0 || SettingsRefused(c.settings)
    {
      return false;
    }
    ghost var g := LoadOf(c);
    var own := c.promptTokens + c.outputTokens - c.sharedTokens;
    var perSequence := (own + c.tokensPerPage - 1) / c.tokensPerPage;
    var prefix := (c.sharedTokens + c.tokensPerPage - 1) / c.tokensPerPage;
    KvState.PagesForIsCeiling(own, c.tokensPerPage);
    KvState.PagesForIsCeiling(c.sharedTokens, c.tokensPerPage);
    VehiclePagesProduct(g, c.vehicles);
    ok := prefix + perSequence * c.vehicles <= c.pages;
  }

  /** `n` times `w`. */
  function Repeated(n: nat, w: nat): nat {
    if n == 0 then 0 else Repeated(n - 1, w) + w
  }

  lemma {:induction false} RepeatedProduct(n: nat, w: nat)
    ensures Repeated(n, w) == n * w
  {
    if n == 0 {
    } else {
      RepeatedProduct(n - 1, w);
      assert n * w == (n - 1) * w + w;
    }
  }

  lemma {:induction false} RepeatedGrows(m: nat, n: nat, w: nat)
    requires m <= n
    ensures Repeated(m, w) <= Repeated(n, w)
  {
    if m < n { RepeatedGrows(m, n - 1, w); }
  }

  /** Sequence and reservation ids never reach the end of 64 bits. */
  lemma IdsFit(m: nat, n: nat, v: nat)
    requires m < n <= U32_MAX && v <= U32_MAX
    ensures FIRST_DECISION + Repeated(m, v) + v < U64_MAX
  {
    RepeatedGrows(m + 1, n, v);
    RepeatedProduct(n, v);
    KvAccounting.ProductBound(n, v, U32_MAX, U32_MAX);
  }

  // ---------- One step ----------

  /** The state at the start of step `step`: nothing held but the prefix, everything finished. */
  ghost predicate Between(cache: PagedKv.PagedKvCache, scheduler: Scheduling.SequenceScheduler, g: Load, base: nat,
                          next: nat)
    reads cache, cache.pages, scheduler
  {
    && cache.Valid() && scheduler.Valid()
    && CacheIs(cache.Model(), g, base, 0, 0, next)
    && AllFinished(scheduler.Model().entries)
    && (forall i :: 0 <= i < |scheduler.Model().entries| ==> scheduler.Model().entries[i].request.id < base)
  }

  /** Vehicles below `n` of the step are admitted. */
  ghost predicate Admitting(cache: PagedKv.PagedKvCache, scheduler: Scheduling.SequenceScheduler, g: Load, base: nat,
                            next: nat, es: seq<SchedulerState.Entry>, prompt: uint32, n: nat)
    requires base + n <= U64_MAX
    reads cache, cache.pages, scheduler
  {
    && cache.Valid() && scheduler.Valid()
    && CacheIs(cache.Model(), g, base, 0, n, next + n)
    && ServiceAt(scheduler.Model(), es, base, prompt, n, 0, 0)
  }

  /** Create the vehicle's sequence on the shared prefix and commit its pages. */
  method AdmitToCache(cache: PagedKv.PagedKvCache, ghost g: Load, total: uint32, ghost base: nat, ghost from: nat,
                      ghost to: nat, id: uint64, ghost next: nat)
    returns (status: Status)
    requires LoadValid(g) && cache.Valid() && CacheIs(cache.Model(), g, base, from, to, next) && total == g.total
    requires id == base + to && FIRST_DECISION <= base && base + to <= U64_MAX && to - from < U32_MAX
      && 0 < next < U64_MAX
    requires PrefixPages(g) + VehiclePages(g, to - from + 1) <= g.pages
    modifies cache, cache.pages
    ensures status == OK
    ensures cache.Valid() && CacheIs(cache.Model(), g, base, from, to + 1, next + 1)
  {
    hide KvInvariant.Inv, CacheIs, AdmittedFrom, KvState.CreateSequence, KvState.Reserve, KvState.Commit;
    Admitted(cache.Model(), g, base, from, to, next);
    ghost var c1 := KvState.CreateSequence(cache.Model(), id, PREFIX_ID).0;
    AdmissionParts(c1, g, base, from, to, next);
    status := cache.CreateSequence(id, PREFIX_ID);
    if status != OK {
      return Failure(InvalidFormat);
    }
    var reservation := cache.Reserve(id, total);
    if reservation.Failure? {
      return Failure(InsufficientMemory);
    }
    status := cache.Commit(reservation.value.id);
    if status != OK {
      return Failure(InsufficientMemory);
    }
  }

  method AdmitVehicle(cache: PagedKv.PagedKvCache, scheduler: Scheduling.SequenceScheduler, dfa: Dfa<uint32>,
                      action: nat, ghost g: Load, c: ScenarioConfig, ghost base: nat, ghost n: nat, id: uint64,
                      ghost next: nat, ghost es: seq<SchedulerState.Entry>, ghost trie: seq<Node>,
                      ghost paths: seq<Word>)
    returns (status: Status)
    requires ConfigValid(c) && g == LoadOf(c) && n < c.vehicles && id == base + n && action < ACTIONS
    requires FIRST_DECISION <= base && base + c.vehicles < U64_MAX && 0 < next && next + c.vehicles < U64_MAX
    requires Represents(dfa, MissionLanguage(), trie, paths)
    requires Admitting(cache, scheduler, g, base, next, es, c.promptTokens, n)
    modifies cache, cache.pages, scheduler
    ensures status == OK
    ensures Admitting(cache, scheduler, g, base, next, es, c.promptTokens, n + 1)
    ensures scheduler.generation == old(scheduler.generation)
  {
    hide KvInvariant.Inv, SchedulerLifecycle.Inv, CacheIs, ServiceAt, Represents, SchedulerState.Enqueue, PrefixPages,
      VehiclePages;
    VehiclePagesGrow(g, n + 1, c.vehicles);
    EnqueueServes(scheduler.Model(), es, base, c.promptTokens, n);
    var valid := GrammarRoundTrip(dfa, action, trie, paths);
    if !valid {
      return Failure(InvalidFormat);
    }
    status := scheduler.Enqueue(SchedulerState.Request(id, c.promptTokens, c.outputTokens));
    if status != OK {
      return Failure(InvalidFormat);
    }
    status := AdmitToCache(cache, g, c.promptTokens + c.outputTokens, base, 0, n, id, next + n);
  }

  lemma AdmissionParts(c1: KvState.Cache, g: Load, base: nat, from: nat, to: nat, next: nat)
    requires AdmittedFrom(c1, g, base, from, to, next)
    ensures base + to <= U64_MAX && next < U64_MAX && c1.tokensPerPage > 0
    ensures KvState.HasSequence(c1, base + to) && KvState.SequenceOf(c1, base + to).prefixTokens
      <= KvState.SequenceOf(c1, base + to).totalTokens
    ensures KvState.Reserve(c1, base + to, g.total).1.Success?
    ensures KvState.Reserve(c1, base + to, g.total).1.value.id == next
    ensures KvState.Commit(KvState.Reserve(c1, base + to, g.total).0, next).1 == OK
    ensures CacheIs(KvState.Commit(KvState.Reserve(c1, base + to, g.total).0, next).0, g, base, from, to + 1, next + 1)
  {
  }

  /** Work items below `k` of the step are done and items up to `to` are in flight. */
  ghost predicate Serving(cache: PagedKv.PagedKvCache, scheduler: Scheduling.SequenceScheduler, g: Load, base: nat,
                          next: nat, es: seq<SchedulerState.Entry>, prompt: uint32, v: nat, k: nat, to: nat)
    requires base + v <= U64_MAX && k <= to <= 2 * v && to <= k + v
    reads cache, cache.pages, scheduler
  {
    && cache.Valid() && scheduler.Valid()
    && CacheIs(cache.Model(), g, base, if k < v then 0 else k - v, v, next)
    && ServiceAt(scheduler.Model(), es, base, prompt, v, k, to)
  }

  /** Complete one item of a batch; a decoded vehicle, one of the frame's, gives its pages back. */
  method FinishItem(cache: PagedKv.PagedKvCache, scheduler: Scheduling.SequenceScheduler,
                    item: SchedulerState.BatchItem, base: nat, v: nat, ghost g: Load, ghost next: nat,
                    ghost es: seq<SchedulerState.Entry>, ghost prompt: uint32, ghost k: nat, ghost to: nat)
    returns (status: Status)
    requires FIRST_DECISION <= base && base + v <= U64_MAX && k < to <= 2 * v && to <= k + v
    requires item.id == base + VehicleOf(k, v) && item.work == if k < v then SchedulerState.Prefill
      else SchedulerState.Decode
    requires Serving(cache, scheduler, g, base, next, es, prompt, v, k, to)
    modifies cache, cache.pages, scheduler
    ensures status == OK
    ensures Serving(cache, scheduler, g, base, next, es, prompt, v, k + 1, to)
    ensures scheduler.generation == old(scheduler.generation)
  {
    hide KvInvariant.Inv, SchedulerLifecycle.Inv, CacheIs, ServiceAt, SchedulerState.Complete, KvState.DestroySequence;
    CompleteServes(scheduler.Model(), es, base, prompt, v, k, to);
    var terminal := item.work == SchedulerState.Decode;
    status := scheduler.Complete(item.id, 1, terminal);
    if status != OK {
      return Failure(InvalidFormat);
    }
    if terminal {
      if item.id < base || item.id >= base + v {
        return Failure(InvalidFormat);
      }
      Released(cache.Model(), g, base, k - v, v, next);
      status := cache.DestroySequence(item.id);
      if status != OK {
        return Failure(InvalidFormat);
      }
    }
  }

  /** Schedule one batch and complete its items. */
  method ServeBatch(cache: PagedKv.PagedKvCache, scheduler: Scheduling.SequenceScheduler, batchSize: nat, base: nat,
                    v: nat, ghost g: Load, ghost next: nat, ghost es: seq<SchedulerState.Entry>, ghost prompt: uint32,
                    ghost k: nat)
    returns (status: Status, completed: nat)
    requires FIRST_DECISION <= base && base + v <= U64_MAX && k < 2 * v && 0 < batchSize
    requires Serving(cache, scheduler, g, base, next, es, prompt, v, k, k)
    modifies cache, cache.pages, scheduler
    ensures status == OK <==> old(scheduler.generation) < U64_MAX
    ensures status != OK ==> status == Failure(InvalidFormat)
    ensures status == OK ==>
      && Serving(cache, scheduler, g, base, next, es, prompt, v, k + BatchSize(v, batchSize, k),
                 k + BatchSize(v, batchSize, k))
      && scheduler.generation == old(scheduler.generation) + 1
      && completed
        == (if k + BatchSize(v, batchSize, k) < v then 0 else k + BatchSize(v, batchSize, k) - v) - (if k < v then 0
            else k - v)
  {
    hide KvInvariant.Inv, SchedulerLifecycle.Inv, CacheIs, ServiceAt, EntriesAt, Items, SchedulerState.Schedule;
    ghost var m := BatchSize(v, batchSize, k);
    completed := 0;
    ServiceEntries(scheduler.Model(), es, base, prompt, v, k, k);
    InvScannable(scheduler.Model());
    ScheduleServes(scheduler.Model(), es, base, prompt, v, batchSize, k);
    ghost var picks := Items(|es|, v, k, m);
    var result := scheduler.Schedule(batchSize);
    if result.Failure? || result.value.items == [] {
      return Failure(InvalidFormat), completed;
    }
    var items := result.value.items;
    status := OK;
    for i := 0 to |items|
      invariant status == OK && |items| == m
      invariant Serving(cache, scheduler, g, base, next, es, prompt, v, k + i, k + m)
      invariant scheduler.generation == old(scheduler.generation) + 1
      invariant completed == (if k + i < v then 0 else k + i - v) - (if k < v then 0 else k - v)
    {
      ItemDescribes(es, base, prompt, v, k, m, i);
      status := FinishItem(cache, scheduler, items[i], base, v, g, next, es, prompt, k + i, k + m);
      if status != OK {
        return;
      }
      if items[i].work == SchedulerState.Decode {
        completed := completed + 1;
      }
    }
  }

  lemma ServiceEntries(s: SchedulerState.Scheduler, es: seq<SchedulerState.Entry>, base: nat, prompt: uint32, v: nat,
                       k: nat, to: nat)
    requires k <= to <= 2 * v && to <= k + v && base + v <= U64_MAX && ServiceAt(s, es, base, prompt, v, k, to)
    ensures s.entries == EntriesAt(es, base, prompt, v, k, to)
  {
  }

  lemma InvScannable(s: SchedulerState.Scheduler)
    requires SchedulerLifecycle.Inv(s)
    ensures SchedulerState.Scannable(s)
  {
  }

  /** Batch after batch until every vehicle of the step is complete. */
  method ServeStep(cache: PagedKv.PagedKvCache, scheduler: Scheduling.SequenceScheduler, batchSize: nat, base: nat,
                   v: nat, ghost g: Load, ghost next: nat, ghost es: seq<SchedulerState.Entry>, ghost prompt: uint32)
    returns (status: Status, batches: nat)
    requires FIRST_DECISION <= base && base + v <= U64_MAX && 0 < v && 0 < batchSize
    requires Serving(cache, scheduler, g, base, next, es, prompt, v, 0, 0)
    modifies cache, cache.pages, scheduler
    ensures status == OK <==> old(scheduler.generation) + BatchesLeft(v, batchSize, 0) <= U64_MAX
    ensures status != OK ==> status == Failure(InvalidFormat)
    ensures status == OK ==>
      && Serving(cache, scheduler, g, base, next, es, prompt, v, 2 * v, 2 * v)
      && scheduler.generation == old(scheduler.generation) + BatchesLeft(v, batchSize, 0)
      && batches == BatchesLeft(v, batchSize, 0)
  {
    hide Serving, BatchesLeft;
    status, batches := OK, 0;
    var completed := 0;
    ghost var k := 0;
    NoBatchesLeft(v, batchSize);
    while completed < v
      invariant status == OK && k <= 2 * v
      invariant Serving(cache, scheduler, g, base, next, es, prompt, v, k, k)
      invariant completed == if k < v then 0 else k - v
      invariant scheduler.generation == old(scheduler.generation) + batches
      invariant batches + BatchesLeft(v, batchSize, k) == BatchesLeft(v, batchSize, 0)
      decreases 2 * v - k
    {
      BatchServed(v, batchSize, k);
      BatchGrows(v, batchSize, k);
      var more;
      status, more := ServeBatch(cache, scheduler, batchSize, base, v, g, next, es, prompt, k);
      if status != OK {
        return;
      }
      batches := batches + 1;
      completed := completed + more;
      k := k + BatchSize(v, batchSize, k);
    }
  }

  lemma NoBatchesLeft(v: nat, b: nat)
    requires 0 < v && 0 < b
    ensures BatchesLeft(v, b, 2 * v) == 0
  {
  }

  lemma BatchGrows(v: nat, b: nat, k: nat)
    requires 0 < v && 0 < b && k < 2 * v
    ensures 0 < BatchSize(v, b, k) <= 2 * v - k && BatchSize(v, b, k) <= v
  {
  }

  /** One step: admit every vehicle, read the metrics, serve. */
  method RunStep(cache: PagedKv.PagedKvCache, scheduler: Scheduling.SequenceScheduler, dfa: Dfa<uint32>,
                 c: ScenarioConfig, step: nat, choose: (nat, nat) -> nat, first: nat, ghost g: Load, ghost next: nat,
                 ghost trie: seq<Node>, ghost paths: seq<Word>)
    returns (status: Status, batches: nat, physical: nat)
    requires ConfigValid(c) && g == LoadOf(c) && forall s, i :: choose(s, i) < ACTIONS
    requires FIRST_DECISION <= first && first + c.vehicles < U64_MAX && 0 < next && next + c.vehicles < U64_MAX
    requires Represents(dfa, MissionLanguage(), trie, paths)
    requires Between(cache, scheduler, g, first, next)
    modifies cache, cache.pages, scheduler
    ensures status == OK <==>
      ReservedLoad(g, c.vehicles) <= U64_MAX && old(scheduler.generation) + BatchesLeft(c.vehicles, c.batch, 0)
        <= U64_MAX
    ensures status != OK ==>
      status == if ReservedLoad(g, c.vehicles) > U64_MAX then Failure(ArithmeticOverflow) else Failure(InvalidFormat)
    ensures status == OK ==>
      && Between(cache, scheduler, g, first + c.vehicles, next + c.vehicles)
      && scheduler.generation == old(scheduler.generation) + BatchesLeft(c.vehicles, c.batch, 0)
      && batches == BatchesLeft(c.vehicles, c.batch, 0)
      && physical == PrefixPages(g) + VehiclePages(g, c.vehicles)
  {
    hide KvInvariant.Inv, SchedulerLifecycle.Inv, CacheIs, ServiceAt, Represents, AllFinished, ReservedLoad,
      BatchesLeft, KvAccounting.MetricsOf;
    batches, physical := 0, 0;
    ghost var es := scheduler.Model().entries;
    InvScannable(scheduler.Model());
    StepBegins(scheduler.Model(), first, c.promptTokens);
    var id := first;
    for n := 0 to c.vehicles
      invariant id == first + n
      invariant Admitting(cache, scheduler, g, first, next, es, c.promptTokens, n)
      invariant scheduler.generation == old(scheduler.generation)
    {
      status := AdmitVehicle(cache, scheduler, dfa, choose(step, n), g, c, first, n, id, next, es, trie, paths);
      if status != OK {
        return;
      }
      id := id + 1;
    }
    MetricsInStep(cache.Model(), g, first, 0, c.vehicles, next + c.vehicles);
    var metrics := cache.Metrics();
    if metrics.Failure? {
      return Failure(metrics.error), batches, physical;
    }
    physical := metrics.value.mutablePages + metrics.value.sharedPrefixPages;
    status, batches :=
      ServeStep(cache, scheduler, c.batch, first, c.vehicles, g, next + c.vehicles, es, c.promptTokens);
    if status == OK {
      StepEnds(scheduler.Model(), es, first, c.promptTokens, c.vehicles);
      NewStep(cache.Model(), g, first, c.vehicles, next + c.vehicles, first + c.vehicles);
    }
  }

  // ---------- The whole scenario ----------

  /** The totals that the driver reports and this model keeps. */
  datatype Report = Report(batches: nat, decisions: nat, peakPhysicalPages: nat, freePages: nat)

  /** The token total of a full step fits into 64 bits. */
  predicate MetricsFit(c: ScenarioConfig)
    requires ConfigValid(c)
  {
    ReservedLoad(LoadOf(c), c.vehicles) <= U64_MAX
  }

  /** The generation counter can number every batch. */
  predicate BatchesFit(c: ScenarioConfig)
    requires ConfigValid(c)
  {
    Repeated(c.steps, BatchesLeft(c.vehicles, c.batch, 0)) <= U64_MAX
  }

  /** Create the prefix on a fresh cache. */
  method Prepare(g: Load) returns (r: Result<PagedKv.PagedKvCache>)
    requires LoadValid(g) && PrefixPages(g) <= g.pages
    ensures r.Success? && fresh(r.value) && fresh(r.value.pages) && r.value.Valid()
    ensures forall base :: CacheIs(r.value.Model(), g, base, 0, 0, 2)
  {
    hide KvInvariant.Inv, CacheIs, KvState.CreateSequence, KvState.Reserve, KvState.Commit, KvState.PublishPrefix,
      PrefixPages;
    Prepared(g);
    r := PagedKv.PagedKvCache.Create(g.pages, g.tokensPerPage);
    if r.Failure? {
      return;
    }
    var cache := r.value;
    var status := cache.CreateSequence(PREFIX_SEQUENCE, 0);
    if status != OK {
      return Failure(InvalidFormat);
    }
    var reservation := cache.Reserve(PREFIX_SEQUENCE, g.shared);
    if reservation.Failure? {
      return Failure(InvalidFormat);
    }
    status := cache.Commit(reservation.value.id);
    if status != OK {
      return Failure(InvalidFormat);
    }
    status := cache.PublishPrefix(PREFIX_ID, PREFIX_SEQUENCE);
    if status != OK {
      return Failure(InvalidFormat);
    }
  }

  /** Destroy the prefix and count the free pages. */
  method TearDown(cache: PagedKv.PagedKvCache, pages: nat, ghost g: Load, ghost base: nat, ghost next: nat)
    returns (status: Status, free: nat)
    requires LoadValid(g) && pages == g.pages && cache.Valid() && CacheIs(cache.Model(), g, base, 0, 0, next)
    modifies cache, cache.pages
    ensures status == OK && free == pages
  {
    hide KvInvariant.Inv, CacheIs, KvState.DestroySequence, KvState.DestroyPrefix, KvAccounting.MetricsOf;
    free := pages;
    TornDown(cache.Model(), g, base, 0, next);
    status := cache.DestroySequence(PREFIX_SEQUENCE);
    if status != OK {
      return Failure(InvalidFormat), free;
    }
    status := cache.DestroyPrefix(PREFIX_ID);
    if status != OK {
      return Failure(InvalidFormat), free;
    }
    var metrics := cache.Metrics();
    if metrics.Failure? || metrics.value.freePages != pages {
      return Failure(InvalidFormat), free;
    }
    free := metrics.value.freePages;
  }

  /**
   * The driver, for any choice of actions. It succeeds exactly on valid configurations whose token
   * total and batch count fit into 64 bits; then every step takes the same number of batches and at
   * the end every page is free. No return of a broken protocol is reached otherwise.
   */
  method RunScenario(c: ScenarioConfig, choose: (nat, nat) -> nat) returns (r: Result<Report>)
    requires forall s, i :: choose(s, i) < ACTIONS
    ensures r.Success? <==> ConfigValid(c) && MetricsFit(c) && BatchesFit(c)
    ensures !ConfigValid(c) ==> r == Failure(InvalidArgument)
    ensures ConfigValid(c) && !MetricsFit(c) ==> r == Failure(ArithmeticOverflow)
    ensures ConfigValid(c) && MetricsFit(c) && !BatchesFit(c) ==> r == Failure(InvalidFormat)
    ensures r.Success? ==>
      && r.value.batches == Repeated(c.steps, BatchesLeft(c.vehicles, c.batch, 0))
      && r.value.decisions == Repeated(c.steps, c.vehicles)
      && r.value.peakPhysicalPages == PrefixPages(LoadOf(c)) + VehiclePages(LoadOf(c), c.vehicles)
      && r.value.freePages == c.pages
  {
    hide KvInvariant.Inv, SchedulerLifecycle.Inv, CacheIs, Represents, ReservedLoad, BatchesLeft, PrefixPages,
      VehiclePages, Between;
    var ok := ValidConfig(c);
    if !ok {
      return Failure(InvalidArgument);
    }
    var g := LoadOf(c);
    var dfa;
    ghost var trie, paths;
    dfa, trie, paths := BuildMissionDfa();
    if dfa.Failure? {
      return Failure(InvalidFormat);
    }
    var prepared := Prepare(g);
    if prepared.Failure? {
      return Failure(InvalidFormat);
    }
    var cache := prepared.value;
    var scheduler := new Scheduling.SequenceScheduler();
    StartsBetween(cache, scheduler, g, FIRST_DECISION, 2);
    var batches, decisions, peak, nextSequence := 0, 0, 0, FIRST_DECISION;
    for step := 0 to c.steps
      invariant fresh(cache) && fresh(cache.pages) && fresh(scheduler)
      invariant decisions == Repeated(step, c.vehicles) && nextSequence == FIRST_DECISION + decisions
      invariant batches == Repeated(step, BatchesLeft(c.vehicles, c.batch, 0)) && scheduler.generation == batches
      invariant Between(cache, scheduler, g, nextSequence, 2 + decisions)
      invariant step == 0 ==> peak == 0
      invariant step > 0 ==> MetricsFit(c) && peak == PrefixPages(g) + VehiclePages(g, c.vehicles)
    {
      IdsFit(step, c.steps, c.vehicles);
      RepeatedGrows(step + 1, c.steps, BatchesLeft(c.vehicles, c.batch, 0));
      var status, more,
        physical := RunStep(cache, scheduler, dfa.value, c, step, choose, nextSequence, g, 2 + decisions, trie, paths);
      if status.Failure? {
        return Failure(status.error);
      }
      batches, decisions, nextSequence := batches + more, decisions + c.vehicles, nextSequence + c.vehicles;
      peak := if peak < physical then physical else peak;
    }
    EndsBetween(cache, scheduler, g, nextSequence, 2 + decisions);
    var status, free := TearDown(cache, c.pages, g, nextSequence, 2 + decisions);
    if status != OK {
      return Failure(InvalidFormat);
    }
    r := Success(Report(batches, decisions, peak, free));
  }

  lemma StartsBetween(cache: PagedKv.PagedKvCache, scheduler: Scheduling.SequenceScheduler, g: Load, base: nat,
                      next: nat)
    requires cache.Valid() && scheduler.Valid() && CacheIs(cache.Model(), g, base, 0, 0, next)
    requires scheduler.Model() == SchedulerState.EMPTY
    ensures Between(cache, scheduler, g, base, next)
  {
    hide KvInvariant.Inv, SchedulerLifecycle.Inv, CacheIs;
  }

  lemma EndsBetween(cache: PagedKv.PagedKvCache, scheduler: Scheduling.SequenceScheduler, g: Load, base: nat, next: nat)
    requires Between(cache, scheduler, g, base, next)
    ensures cache.Valid() && CacheIs(cache.Model(), g, base, 0, 0, next)
  {
    hide KvInvariant.Inv, SchedulerLifecycle.Inv, CacheIs;
  }

  // ---------- The conditions are met, and can fail ----------

  const DEFAULT_SETTINGS :=
    Settings(6, 20000, 8000, Finite(0.25), Finite(220.0), Finite(180.0), Finite(0.75), Finite(0.006))

  const DEFAULT_CONFIG := ScenarioConfig(48, 32, 8, 68, 2, 64, 16, 256, DEFAULT_SETTINGS)

  /** The default scenario runs, with eight batches a step. */
  lemma DefaultRuns()
    ensures ConfigValid(DEFAULT_CONFIG) && MetricsFit(DEFAULT_CONFIG) && BatchesFit(DEFAULT_CONFIG)
    ensures BatchesLeft(DEFAULT_CONFIG.vehicles, DEFAULT_CONFIG.batch, 0) == 8
  {
    var g := LoadOf(DEFAULT_CONFIG);
    KvState.PagesForIsCeiling(64, 16);
    KvState.PagesForIsCeiling(6, 16);
    VehiclePagesProduct(g, 32);
    BatchesPerStep(32, 8);
    RepeatedProduct(48, 8);
  }

  /** As many vehicles as 32 bits allow, on pages as large as 32 bits allow. */
  const HUGE_PAGES := ScenarioConfig(1, 0xFFFF_FFFE, 1, 1, 2, 1, 0xFFFF_FFFF, 0xFFFF_FFFF, DEFAULT_SETTINGS)

  /** A valid configuration whose token total does not fit: the driver returns the overflow of `metrics`. */
  lemma MetricsCanOverflow()
    ensures ConfigValid(HUGE_PAGES) && !MetricsFit(HUGE_PAGES)
  {
    VehiclePagesProduct(LoadOf(HUGE_PAGES), HUGE_PAGES.vehicles);
  }

  const MANY_STEPS := ScenarioConfig(0xFFFF_FFFF, 0xFFFF_FFFE, 1, 1, 2, 1, 2, 0xFFFF_FFFF, DEFAULT_SETTINGS)

  /** A valid configuration with more batches than the 64-bit generation counter can number. */
  lemma GenerationsCanSaturate()
    ensures ConfigValid(MANY_STEPS) && MetricsFit(MANY_STEPS) && !BatchesFit(MANY_STEPS)
  {
    VehiclePagesProduct(LoadOf(MANY_STEPS), MANY_STEPS.vehicles);
    BatchesPerStep(MANY_STEPS.vehicles, 1);
    RepeatedProduct(MANY_STEPS.steps, BatchesLeft(MANY_STEPS.vehicles, 1, 0));
  }
}
