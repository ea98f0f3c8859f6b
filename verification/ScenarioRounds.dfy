/**
 * One step of the scenario at the scheduler: `v` fresh entries behind finished ones, each of which
 * is dispatched twice. Work item `q` of the step is entry `q` or, in the second round, entry `q - v`.
 */
module ScenarioRounds {
  import opened Core
  import opened Counting
  import opened SchedulerState
  import KvState

  const OUTPUT_TOKENS: uint32 := 2

  /** The entry of a vehicle that has emitted `g` of its two tokens. */
  function EntryAt(request: Request, g: nat): Entry
    requires g <= 2
  {
    if g == 0 then NewEntry(request)
    else if g == 1 then Entry(request, Decoding, Queued, Prefill, 1, false, false)
    else Entry(request, Finished, Queued, Decode, 2, false, false)
  }

  /** How many tokens vehicle `j` has emitted after `k` work items. */
  function Emitted(k: nat, v: nat, j: nat): (g: nat)
    requires k <= 2 * v
    ensures g <= 2
  {
    if k <= v then (if j < k then 1 else 0) else if j < k - v then 2 else 1
  }

  /** The vehicle of work item `q`. */
  function VehicleOf(q: nat, v: nat): (j: nat)
    requires q < 2 * v
    ensures j < v
  {
    if q < v then q else q - v
  }

  /** Is the vehicle in flight while work items `[from, to)` are? */
  predicate InWindow(j: nat, v: nat, from: nat, to: nat) {
    from <= j < to || from <= j + v < to
  }

  function RequestOf(base: nat, prompt: uint32, j: nat): Request
    requires base + j <= U64_MAX
  {
    Request(base + j, prompt, OUTPUT_TOKENS)
  }

  /** All entries after `k` work items, with items `[k, to)` in flight. */
  ghost function EntriesAt(es: seq<Entry>, base: nat, prompt: uint32, v: nat, k: nat, to: nat): (r: seq<Entry>)
    requires k <= to <= 2 * v && to <= k + v && base + v <= U64_MAX
    ensures |r| == |es| + v
  {
    es + seq(v, j requires 0 <= j < v =>
      var e := EntryAt(RequestOf(base, prompt, j), Emitted(k, v, j));
      if InWindow(j, v, k, to) then Launch(e) else e)
  }

  /** The old entries are finished. */
  ghost predicate AllFinished(es: seq<Entry>) {
    forall i :: 0 <= i < |es| ==> es[i].phase == Finished && !es[i].inFlight
  }

  /** Where the scan stands after `k` work items: at the next vehicle, or at or before the first. */
  ghost predicate ScanAt(next: nat, n: nat, v: nat, k: nat)
    requires k <= 2 * v
  {
    if k == 0 || k == v || k == 2 * v then next <= n && (n + v > 0 ==> next < n + v)
    else next == n + VehicleOf(k, v)
  }

  /** The size of the next batch. */
  function BatchSize(v: nat, b: nat, k: nat): nat
    requires k <= 2 * v
  {
    var m := if b < v then b else v;
    if m < 2 * v - k then m else 2 * v - k
  }

  // ---------- Runs of the scan ----------

  /** The entry at a ring offset from the start of the scan. */
  function RingAt(start: nat, o: nat, n: nat): (index: nat)
    requires start < n && o < n
    ensures index < n
  {
    Wrap(start + o, n)
  }

  ghost predicate Idle(es: seq<Entry>, start: nat, from: nat, to: nat)
    requires start < |es| && to <= |es|
  {
    forall o :: from <= o < to ==> !IsRunnable(es[RingAt(start, o, |es|)])
  }

  lemma {:induction false} SkipRun(es: seq<Entry>, start: nat, from: nat, to: nat, limit: nat)
    requires start < |es| && from <= to <= |es| && Idle(es, start, from, to)
    ensures Select(es, start, from, limit) == Select(es, start, to, limit)
    decreases |es| - from
  {
    if from < to {
      assert !IsRunnable(es[RingAt(start, from, |es|)]);
      if limit == 0 {
      } else {
        SkipRun(es, start, from + 1, to, limit);
      }
    }
  }

  /** Consecutive indices from `first` on. */
  function Range(first: nat, count: nat): (r: seq<nat>)
    ensures |r| == count && forall i :: 0 <= i < count ==> r[i] == first + i
  {
    seq(count, i requires 0 <= i < count => first + i)
  }

  /** Ring offsets `[from, to)` are the runnable entries from index `first` on. */
  ghost predicate Busy(es: seq<Entry>, start: nat, from: nat, to: nat, first: nat)
    requires start < |es| && from <= to <= |es|
  {
    forall o :: from <= o < to ==>
      RingAt(start, o, |es|) == first + (o - from) && IsRunnable(es[RingAt(start, o, |es|)])
  }

  lemma SelectOne(es: seq<Entry>, start: nat, from: nat, to: nat, first: nat, limit: nat)
    requires start < |es| && from < to <= |es| && Busy(es, start, from, to, first) && limit > 0
    ensures Select(es, start, from, limit) == [first] + Select(es, start, from + 1, limit - 1)
  {
    assert RingAt(start, from, |es|) == first;
  }

  /** A run that is shorter than the limit is taken whole. */
  lemma {:induction false} TakeRun(es: seq<Entry>, start: nat, from: nat, to: nat, first: nat, limit: nat)
    requires start < |es| && from <= to <= |es| && Busy(es, start, from, to, first) && limit >= to - from
    ensures Select(es, start, from, limit) == Range(first, to - from) + Select(es, start, to, limit - (to - from))
    decreases |es| - from
  {
    hide Busy, Select;
    if from == to {
      assert Range(first, 0) == [];
      assert Range(first, 0) + Select(es, start, to, limit) == Select(es, start, to, limit);
    } else {
      SelectOne(es, start, from, to, first, limit);
      BusyRest(es, start, from, to, first);
      TakeRun(es, start, from + 1, to, first + 1, limit - 1);
      RangeCons(first, to - from);
    }
  }

  /** Of a longer run the limit is taken. */
  lemma {:induction false} TakePart(es: seq<Entry>, start: nat, from: nat, to: nat, first: nat, limit: nat)
    requires start < |es| && from <= to <= |es| && Busy(es, start, from, to, first) && limit <= to - from
    ensures Select(es, start, from, limit) == Range(first, limit)
    decreases |es| - from
  {
    hide Busy;
    if limit == 0 {
      assert Range(first, 0) == [];
    } else {
      SelectOne(es, start, from, to, first, limit);
      BusyRest(es, start, from, to, first);
      TakePart(es, start, from + 1, to, first + 1, limit - 1);
      RangeCons(first, limit);
    }
  }

  lemma BusyRest(es: seq<Entry>, start: nat, from: nat, to: nat, first: nat)
    requires start < |es| && from < to <= |es| && Busy(es, start, from, to, first)
    ensures Busy(es, start, from + 1, to, first + 1)
  {
  }

  lemma RangeCons(first: nat, count: nat)
    requires count > 0
    ensures Range(first, count) == [first] + Range(first + 1, count - 1)
  {
  }

  // ---------- What is selected ----------

  /** The entry of work item `q`, behind `n` finished ones. */
  function ItemAt(n: nat, v: nat, q: nat): (i: nat)
    requires q < 2 * v
    ensures n <= i < n + v
  {
    n + VehicleOf(q, v)
  }

  /** The entries of `count` work items from item `from` on. */
  function Items(n: nat, v: nat, from: nat, count: nat): (r: seq<nat>)
    requires from + count <= 2 * v
    ensures |r| == count
    ensures forall i :: 0 <= i < count ==> r[i] == ItemAt(n, v, from + i)
  {
    seq<nat>(count, i requires 0 <= i < count => ItemAt(n, v, from + i))
  }

  lemma RangeIsItems(n: nat, v: nat, from: nat, count: nat)
    requires from + count <= 2 * v
    ensures from + count <= v ==> Range(n + from, count) == Items(n, v, from, count)
    ensures from >= v ==> Range(n + from - v, count) == Items(n, v, from, count)
  {
  }

  lemma ItemsSplit(n: nat, v: nat, from: nat, first: nat, second: nat)
    requires from + first + second <= 2 * v
    ensures Items(n, v, from, first) + Items(n, v, from + first, second) == Items(n, v, from, first + second)
  {
  }

  lemma RunnableAfter(es: seq<Entry>, base: nat, prompt: uint32, v: nat, k: nat, i: nat)
    requires k <= 2 * v && base + v <= U64_MAX && AllFinished(es) && i < |es| + v
    ensures IsRunnable(EntriesAt(es, base, prompt, v, k, k)[i]) <==> |es| <= i && Emitted(k, v, i - |es|) < 2
  {
    var all := EntriesAt(es, base, prompt, v, k, k);
    if i < |es| {
      assert all[i] == es[i];
    } else {
      var j := i - |es|;
      assert !InWindow(j, v, k, k);
    }
  }

  /** Exactly the entries from `first` on can be dispatched. */
  ghost predicate RunnableFrom(all: seq<Entry>, first: nat) {
    forall i :: 0 <= i < |all| ==> (IsRunnable(all[i]) <==> first <= i)
  }

  /** A scan that starts at or before the first runnable entry takes the runnable entries in order. */
  lemma SelectStraight(all: seq<Entry>, start: nat, first: nat, limit: nat)
    requires start <= first < |all| && RunnableFrom(all, first)
    ensures Select(all, start, 0, limit) == Range(first, if limit < |all| - first then limit else |all| - first)
  {
    var n, lead, run := |all|, first - start, |all| - first;
    assert Idle(all, start, 0, lead) && Busy(all, start, lead, lead + run, first) && Idle(all, start, lead + run, n);
    hide Idle, Busy, RunnableFrom, Select;
    SkipRun(all, start, 0, lead, limit);
    if limit <= run {
      TakePart(all, start, lead, lead + run, first, limit);
    } else {
      TakeRun(all, start, lead, lead + run, first, limit);
      SkipRun(all, start, lead + run, n, limit - run);
      SelectEnd(all, start, limit - run);
      assert Range(first, run) + [] == Range(first, run);
    }
  }

  lemma SelectEnd(all: seq<Entry>, start: nat, limit: nat)
    requires start < |all|
    ensures Select(all, start, |all|, limit) == []
  {
  }

  /** A scan that starts behind the first runnable entry comes back to it. */
  lemma SelectRound(all: seq<Entry>, start: nat, first: nat, limit: nat)
    requires first < start < |all| && RunnableFrom(all, first) && limit <= |all| - first
    ensures Select(all, start, 0, limit) ==
      if limit <= |all| - start then Range(start, limit)
        else Range(start, |all| - start) + Range(first, limit - (|all| - start))
  {
    var n, run := |all|, |all| - start;
    RingStretches(all, start, first);
    hide Idle, Busy, RunnableFrom, Select, Range;
    if limit <= run {
      TakePart(all, start, 0, run, start, limit);
    } else {
      TakeRun(all, start, 0, run, start, limit);
      SkipRun(all, start, run, run + first, limit - run);
      TakePart(all, start, run + first, n, first, limit - run);
    }
  }

  /** The next batch holds the next work items, in order. */
  lemma SelectsItems(es: seq<Entry>, base: nat, prompt: uint32, v: nat, b: nat, k: nat, start: nat)
    requires 0 < v && 0 < b && k < 2 * v && base + v <= U64_MAX && AllFinished(es) && ScanAt(start, |es|, v, k)
    ensures start < |es| + v
    ensures Select(EntriesAt(es, base, prompt, v, k, k), start, 0, if b < |es| + v then b else |es| + v)
      == Items(|es|, v, k, BatchSize(v, b, k))
  {
    var all, n := EntriesAt(es, base, prompt, v, k, k), |es|;
    var limit, first := if b < n + v then b else n + v, if k < v then n else n + k - v;
    RunnableTail(es, base, prompt, v, k);
    hide RunnableFrom, Select, EntriesAt, AllFinished;
    if k == 0 || k >= v {
      SelectStraight(all, start, first, limit);
      RangeIsItems(n, v, k, BatchSize(v, b, k));
    } else {
      SelectWrapped(all, n, v, b, k, start, limit);
    }
  }

  lemma RunnableTail(es: seq<Entry>, base: nat, prompt: uint32, v: nat, k: nat)
    requires k < 2 * v && base + v <= U64_MAX && AllFinished(es)
    ensures RunnableFrom(EntriesAt(es, base, prompt, v, k, k), if k < v then |es| else |es| + k - v)
  {
    var all := EntriesAt(es, base, prompt, v, k, k);
    forall i | 0 <= i < |all| ensures IsRunnable(all[i]) <==> (if k < v then |es| else |es| + k - v) <= i {
      RunnableAfter(es, base, prompt, v, k, i);
    }
  }

  lemma {:induction false} SelectWrapped(all: seq<Entry>, n: nat, v: nat, b: nat, k: nat, start: nat, limit: nat)
    requires 0 < k < v && 0 < b && |all| == n + v && start == n + k && RunnableFrom(all, n)
    requires limit == if b < n + v then b else n + v
    ensures Select(all, start, 0, limit) == Items(n, v, k, BatchSize(v, b, k))
  {
    hide Select, Items, RunnableFrom;
    var m := BatchSize(v, b, k);
    if limit <= v {
      SelectRound(all, start, n, limit);
    } else {
      SelectWhole(all, start, n, limit);
    }
    if m <= v - k {
      RangeIsItems(n, v, k, m);
    } else {
      RangeIsItems(n, v, k, v - k);
      RangeIsItems(n, v, v, m - (v - k));
      ItemsSplit(n, v, k, v - k, m - (v - k));
    }
  }

  /** Seen from `start`, the runnable entries lie in two stretches of the ring. */
  lemma RingStretches(all: seq<Entry>, start: nat, first: nat)
    requires first < start < |all| && RunnableFrom(all, first)
    ensures var n, run := |all|, |all| - start;
      && Busy(all, start, 0, run, start)
      && Idle(all, start, run, run + first)
      && Busy(all, start, run + first, n, first)
  {
  }

  /** With room for all of them, every runnable entry is taken. */
  lemma SelectWhole(all: seq<Entry>, start: nat, first: nat, limit: nat)
    requires first < start < |all| && RunnableFrom(all, first) && limit > |all| - first
    ensures Select(all, start, 0, limit) == Range(start, |all| - start) + Range(first, start - first)
  {
    var n, run := |all|, |all| - start;
    hide Idle, Busy, RunnableFrom, Select;
    RingStretches(all, start, first);
    TakeRun(all, start, 0, run, start, limit);
    SkipRun(all, start, run, run + first, limit - run);
    TakeRun(all, start, run + first, n, first, limit - run);
    SelectEnd(all, start, limit - run - (start - first));
    assert Range(first, start - first) + [] == Range(first, start - first);
  }

  // ---------- The scheduler over one step ----------

  /** Work items below `k` are done, items `[k, to)` are in flight, and the scan stands behind them. */
  ghost predicate ServiceAt(s: Scheduler, es: seq<Entry>, base: nat, prompt: uint32, v: nat, k: nat, to: nat)
    requires k <= to <= 2 * v && to <= k + v && base + v <= U64_MAX
  {
    && s.entries == EntriesAt(es, base, prompt, v, k, to)
    && ScanAt(s.nextScanIndex, |es|, v, to)
    && AllFinished(es)
    && (forall i :: 0 <= i < |es| ==> es[i].request.id < base)
  }

  lemma ItemsAreWindow(n: nat, v: nat, k: nat, m: nat, j: nat)
    requires k + m <= 2 * v && m <= v && j < v
    ensures n + j in Items(n, v, k, m) <==> InWindow(j, v, k, k + m)
  {
    var items := Items(n, v, k, m);
    if k <= j < k + m { assert items[j - k] == n + j; }
    if k <= j + v < k + m { assert items[j + v - k] == n + j; }
    if n + j in items {
      var i :| 0 <= i < |items| && items[i] == n + j;
      assert ItemAt(n, v, k + i) == n + j;
    }
  }

  lemma LaunchesWindow(es: seq<Entry>, base: nat, prompt: uint32, v: nat, k: nat, m: nat)
    requires k + m <= 2 * v && m <= v && base + v <= U64_MAX
    ensures LaunchAll(EntriesAt(es, base, prompt, v, k, k), Items(|es|, v, k, m))
      == EntriesAt(es, base, prompt, v, k, k + m)
  {
    hide LaunchAll, Items, EntriesAt;
    var before, after := EntriesAt(es, base, prompt, v, k, k), EntriesAt(es, base, prompt, v, k, k + m);
    var items := Items(|es|, v, k, m);
    LaunchAllAt(before, items);
    forall i | 0 <= i < |es| + v ensures LaunchAll(before, items)[i] == after[i] {
      if i >= |es| {
        ItemsAreWindow(|es|, v, k, m, i - |es|);
        EntryOfVehicle(es, base, prompt, v, k, k, i - |es|);
        EntryOfVehicle(es, base, prompt, v, k, k + m, i - |es|);
      } else {
        EarlierUntouched(es, base, prompt, v, k, m, i);
      }
    }
  }

  lemma LaunchAllAt(es: seq<Entry>, items: seq<nat>)
    ensures |LaunchAll(es, items)| == |es|
    ensures forall i :: 0 <= i < |es| ==> LaunchAll(es, items)[i] == if i in items then Launch(es[i]) else es[i]
  {
  }

  lemma EntryOfVehicle(es: seq<Entry>, base: nat, prompt: uint32, v: nat, k: nat, to: nat, j: nat)
    requires k <= to <= 2 * v && to <= k + v && base + v <= U64_MAX && j < v
    ensures var e := EntryAt(RequestOf(base, prompt, j), Emitted(k, v, j));
      EntriesAt(es, base, prompt, v, k, to)[|es| + j] == if InWindow(j, v, k, to) then Launch(e) else e
  {
  }

  lemma EarlierUntouched(es: seq<Entry>, base: nat, prompt: uint32, v: nat, k: nat, m: nat, i: nat)
    requires k + m <= 2 * v && m <= v && base + v <= U64_MAX && i < |es|
    ensures i !in Items(|es|, v, k, m)
    ensures EntriesAt(es, base, prompt, v, k, k)[i] == es[i] == EntriesAt(es, base, prompt, v, k, k + m)[i]
  {
  }

  /** A schedule call dispatches the next work items; only a saturated generation counter stops it. */
  lemma ScheduleServes(s: Scheduler, es: seq<Entry>, base: nat, prompt: uint32, v: nat, b: nat, k: nat)
    requires Scannable(s) && 0 < v && 0 < b && k < 2 * v && base + v <= U64_MAX
      && ServiceAt(s, es, base, prompt, v, k, k)
    ensures BatchSize(v, b, k) > 0
    ensures s.generation == U64_MAX ==> Schedule(s, b) == (s, Failure(ArithmeticOverflow))
    ensures s.generation < U64_MAX ==>
      && Schedule(s, b).1
        == Success(Batch(s.generation + 1, ItemsFor(s.entries, Items(|es|, v, k, BatchSize(v, b, k)))))
      && ServiceAt(Schedule(s, b).0, es, base, prompt, v, k, k + BatchSize(v, b, k))
      && Schedule(s, b).0.generation == s.generation + 1
  {
    hide EntriesAt, AllFinished, Select, LaunchAll;
    var m := BatchSize(v, b, k);
    var items := Items(|es|, v, k, m);
    SelectsItems(es, base, prompt, v, b, k, s.nextScanIndex);
    assert Selected(s, b) == items;
    assert items[m - 1] == ItemAt(|es|, v, k + m - 1);
    LaunchesWindow(es, base, prompt, v, k, m);
    assert Wrap(items[m - 1] + 1, |es| + v) == if VehicleOf(k + m - 1, v) == v - 1 then 0
      else |es| + VehicleOf(k + m - 1, v) + 1;
  }

  /** What the batch says about a work item. */
  lemma ItemDescribes(es: seq<Entry>, base: nat, prompt: uint32, v: nat, k: nat, m: nat, i: nat)
    requires k + m <= 2 * v && m <= v && base + v <= U64_MAX && i < m
    ensures
      var item := ItemsFor(EntriesAt(es, base, prompt, v, k, k), Items(|es|, v, k, m))[i];
      && item.id == base + VehicleOf(k + i, v)
      && item.work == (if k + i < v then Prefill else Decode)
  {
    var items, all, j := Items(|es|, v, k, m), EntriesAt(es, base, prompt, v, k, k), VehicleOf(k + i, v);
    assert items[i] == |es| + j;
    assert !InWindow(j, v, k, k);
    assert all[|es| + j] == EntryAt(RequestOf(base, prompt, j), Emitted(k, v, j));
  }

  lemma VehicleEntry(es: seq<Entry>, base: nat, prompt: uint32, v: nat, k: nat, to: nat, j: nat)
    requires k <= to <= 2 * v && to <= k + v && base + v <= U64_MAX && j < v
    requires forall i :: 0 <= i < |es| ==> es[i].request.id < base
    ensures EntryIndex(EntriesAt(es, base, prompt, v, k, to), base + j) == |es| + j
  {
    var all := EntriesAt(es, base, prompt, v, k, to);
    assert all[|es| + j].request.id == base + j;
    forall i | 0 <= i < |es| + j ensures all[i].request.id != base + j {
      if i < |es| { assert all[i] == es[i]; } else { assert all[i].request.id == base + (i - |es|); }
    }
  }

  /** Completing the first work item in flight. */
  lemma {:induction false} CompleteServes(s: Scheduler, es: seq<Entry>, base: nat, prompt: uint32, v: nat, k: nat,
                                          to: nat)
    requires k < to <= 2 * v && to <= k + v && base + v <= U64_MAX && ServiceAt(s, es, base, prompt, v, k, to)
    ensures Complete(s, base + VehicleOf(k, v), 1, k >= v).1 == OK
    ensures ServiceAt(Complete(s, base + VehicleOf(k, v), 1, k >= v).0, es, base, prompt, v, k + 1, to)
    ensures Complete(s, base + VehicleOf(k, v), 1, k >= v).0.generation == s.generation
  {
    var j := VehicleOf(k, v);
    VehicleEntry(es, base, prompt, v, k, to, j);
    CompletedEntries(es, base, prompt, v, k, to);
    hide EntriesAt, AllFinished;
  }

  /** Completing an item changes its vehicle's entry and no other. */
  lemma CompletedEntries(es: seq<Entry>, base: nat, prompt: uint32, v: nat, k: nat, to: nat)
    requires k < to <= 2 * v && to <= k + v && base + v <= U64_MAX
    ensures
      var before, after, i := EntriesAt(es, base, prompt, v, k, to), EntriesAt(es, base, prompt, v, k + 1, to), |es|
        + VehicleOf(k, v);
      CompleteEntry(before[i], 1, k >= v) == Success(after[i]) && after == before[i := after[i]]
  {
    var j := VehicleOf(k, v);
    var before, after := EntriesAt(es, base, prompt, v, k, to), EntriesAt(es, base, prompt, v, k + 1, to);
    assert InWindow(j, v, k, to) && !InWindow(j, v, k + 1, to);
    assert before[|es| + j] == Launch(EntryAt(RequestOf(base, prompt, j), Emitted(k, v, j)));
    forall i | 0 <= i < |es| + v && i != |es| + j ensures before[i] == after[i] {
      if i >= |es| {
        assert InWindow(i - |es|, v, k, to) <==> InWindow(i - |es|, v, k + 1, to);
      }
    }
  }

  /** Enqueuing one more vehicle. */
  lemma EnqueueServes(s: Scheduler, es: seq<Entry>, base: nat, prompt: uint32, v: nat)
    requires 0 < base && base + v + 1 <= U64_MAX && 0 < prompt <= U32_MAX - 2 && ServiceAt(s, es, base, prompt, v, 0, 0)
    ensures Enqueue(s, RequestOf(base, prompt, v)).1 == OK
    ensures ServiceAt(Enqueue(s, RequestOf(base, prompt, v)).0, es, base, prompt, v + 1, 0, 0)
    ensures Enqueue(s, RequestOf(base, prompt, v)).0.generation == s.generation
  {
    var before, after := EntriesAt(es, base, prompt, v, 0, 0), EntriesAt(es, base, prompt, v + 1, 0, 0);
    forall i | 0 <= i < |before| ensures before[i].request.id != base + v {
      if i < |es| { assert before[i] == es[i]; } else { assert before[i].request.id == base + (i - |es|); }
    }
    assert !InWindow(v, v + 1, 0, 0);
    forall i | 0 <= i < |before| ensures before[i] == after[i] {
      if i >= |es| { assert !InWindow(i - |es|, v, 0, 0) && !InWindow(i - |es|, v + 1, 0, 0); }
    }
    assert after == before + [NewEntry(RequestOf(base, prompt, v))];
  }

  /** Before the first vehicle of a step. */
  lemma StepBegins(s: Scheduler, base: nat, prompt: uint32)
    requires Scannable(s) && base <= U64_MAX && AllFinished(s.entries) && forall i :: 0 <= i < |s.entries| ==>
      s.entries[i].request.id < base
    ensures ServiceAt(s, s.entries, base, prompt, 0, 0, 0)
  {
  }

  /** After both rounds everything is finished. */
  lemma StepEnds(s: Scheduler, es: seq<Entry>, base: nat, prompt: uint32, v: nat)
    requires base + v <= U64_MAX && ServiceAt(s, es, base, prompt, v, 2 * v, 2 * v)
    ensures AllFinished(s.entries) && forall i :: 0 <= i < |s.entries| ==> s.entries[i].request.id < base + v
  {
    forall i | 0 <= i < |s.entries|
      ensures s.entries[i].phase == Finished && !s.entries[i].inFlight && s.entries[i].request.id < base + v
    {
      if i >= |es| {
        var j := i - |es|;
        assert !InWindow(j, v, 2 * v, 2 * v);
        assert s.entries[i] == EntryAt(RequestOf(base, prompt, j), Emitted(2 * v, v, j));
      } else {
        assert s.entries[i] == es[i];
      }
    }
  }

  // ---------- How many batches a step takes ----------

  /** The batches that are left after `k` work items. */
  function BatchesLeft(v: nat, b: nat, k: nat): nat
    requires 0 < v && 0 < b && k <= 2 * v
  {
    KvState.PagesFor(2 * v - k, if b < v then b else v)
  }

  lemma BatchServed(v: nat, b: nat, k: nat)
    requires 0 < v && 0 < b && k < 2 * v
    ensures BatchesLeft(v, b, k) == 1 + BatchesLeft(v, b, k + BatchSize(v, b, k))
  {
  }

  /** A step takes the larger of two batches and the quotient of its work by the batch size, rounded up. */
  lemma BatchesPerStep(v: nat, b: nat)
    requires 0 < v && 0 < b
    ensures BatchesLeft(v, b, 0) == if (2 * v + b - 1) / b < 2 then 2 else (2 * v + b - 1) / b
  {
    if b < v {
      KvState.PagesForIsCeiling(2 * v, b);
      QuotientAtLeast(2 * v + b - 1, b, 2);
    } else {
      assert KvState.PagesFor(v, v) == 1;
      QuotientAtMost(2 * v + b - 1, b, 2);
    }
  }
}
