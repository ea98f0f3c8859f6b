/** Waits that never end, and the exact condition for a bound on schedule calls that holds whatever is enqueued. */
module SchedulerStarvation {
  import opened Core
  import opened SchedulerState
  import opened SchedulerFairness

  /** Two sequences; the first has had its prefill, the scan stands behind it, and a third has arrived. */
  function Primed(): Scheduler {
    Scheduler([Entry(Request(1, 1, 2), Decoding, Queued, Prefill, 1, false, false),
               NewEntry(Request(2, 1, 2)), NewEntry(Request(3, 1, 2))], 1, 1)
  }

  function Priming(): seq<Op> {
    [OpEnqueue(Request(1, 1, 2)), OpEnqueue(Request(2, 1, 2)), OpSchedule(1),
     OpComplete(1, 1, false), OpEnqueue(Request(3, 1, 2))]
  }

  lemma PrimedIsReachable()
    ensures Primed() == Run(EMPTY, Priming())
  {
    var ops := Priming();
    var s2 := TwoEnqueued();
    var s4 := OnePrefilled(s2);
    assert Step(s4, ops[4]) == Primed();
    assert ops[..5] == ops;
    RunUpTo(ops, 4, s4, Primed());
  }

  lemma TwoEnqueued() returns (s2: Scheduler)
    ensures s2 == Scheduler([NewEntry(Request(1, 1, 2)), NewEntry(Request(2, 1, 2))], 0, 0)
    ensures s2 == Run(EMPTY, Priming()[..2])
  {
    var ops := Priming();
    var s1 := Scheduler([NewEntry(Request(1, 1, 2))], 0, 0);
    s2 := Scheduler([NewEntry(Request(1, 1, 2)), NewEntry(Request(2, 1, 2))], 0, 0);
    assert Step(EMPTY, ops[0]) == s1;
    assert Step(s1, ops[1]) == s2;
    assert ops[..0] == [];
    RunUpTo(ops, 0, EMPTY, s1);
    RunUpTo(ops, 1, s1, s2);
  }

  lemma {:induction false} OnePrefilled(s2: Scheduler) returns (s4: Scheduler)
    requires s2 == Scheduler([NewEntry(Request(1, 1, 2)), NewEntry(Request(2, 1, 2))], 0, 0)
    requires s2 == Run(EMPTY, Priming()[..2])
    ensures s4 == Scheduler([Primed().entries[0], NewEntry(Request(2, 1, 2))], 1, 1)
    ensures s4 == Run(EMPTY, Priming()[..4])
  {
    var ops := Priming();
    var s3 := Scheduler([Launch(s2.entries[0]), s2.entries[1]], 1, 1);
    s4 := Scheduler([Primed().entries[0], s2.entries[1]], 1, 1);
    FirstOfTwo(s2);
    assert Step(s3, ops[3]) == s4 by { assert EntryIndex(s3.entries, 1) == 0; }
    RunUpTo(ops, 2, s2, s3);
    RunUpTo(ops, 3, s3, s4);
  }

  lemma FirstOfTwo(s: Scheduler)
    requires |s.entries| == 2 && s.nextScanIndex == 0 && IsRunnable(s.entries[0]) && s.generation == 0
    ensures Schedule(s, 1).0 == Scheduler([Launch(s.entries[0]), s.entries[1]], 1, 1)
  {
    assert Select(s.entries, 0, 1, 0) == [];
    assert Wrap(0 + 0, 2) == 0;
    assert Selected(s, 1) == [0];
    assert LaunchAll(s.entries, [0]) == [Launch(s.entries[0]), s.entries[1]];
  }

  lemma RunUpTo(ops: seq<Op>, k: nat, s: Scheduler, s': Scheduler)
    requires k < |ops| && Scannable(s) && Run(EMPTY, ops[..k]) == s && Step(s, ops[k]) == s'
    ensures Run(EMPTY, ops[..k + 1]) == s'
  {
    assert ops[..k + 1][..k] == ops[..k];
  }

  // ---------- Starvation from any state whose scan is past the entry ----------

  /** The scan is past a runnable entry, and the last entry is runnable. */
  ghost predicate Trailing(s: Scheduler, t: nat) {
    && t < s.nextScanIndex < |s.entries|
    && IsRunnable(s.entries[t])
    && IsRunnable(s.entries[|s.entries| - 1])
  }

  ghost predicate IdsBelow(es: seq<Entry>, id: nat) {
    forall i :: 0 <= i < |es| ==> es[i].request.id < id
  }

  /** Every schedule call asks for exactly `capacity` slots. */
  ghost predicate AsksFor(ops: seq<Op>, capacity: nat) {
    forall k :: 0 <= k < |ops| ==> ops[k].OpSchedule? ==> ops[k].maximum == capacity
  }

  /** A scan that meets enough runnable entries from `b` on stops before it has to wrap. */
  lemma {:induction false} SelectStays(es: seq<Entry>, start: nat, offset: nat, limit: nat, b: nat)
    requires start < |es| && offset <= |es| && start + offset <= b && b + limit <= |es|
    requires forall i :: b <= i < b + limit ==> IsRunnable(es[i])
    ensures |Select(es, start, offset, limit)| == limit
    ensures forall k :: 0 <= k < limit ==> start + offset <= Select(es, start, offset, limit)[k] < b + limit
    decreases |es| - offset
  {
    if limit == 0 {
    } else if IsRunnable(es[start + offset]) {
      SelectStays(es, start, offset + 1, limit - 1, if start + offset == b then b + 1 else b);
    } else {
      SelectStays(es, start, offset + 1, limit, b);
    }
  }

  lemma {:induction false} WaitsSnoc(s: Scheduler, ops: seq<Op>, op: Op, t: nat)
    requires Scannable(s)
    ensures Waits(s, ops, t) && PassesOver(Run(s, ops), op, t) ==> Waits(s, ops + [op], t)
    ensures Run(s, ops + [op]) == Step(Run(s, ops), op)
    ensures ScheduleCalls(ops + [op]) == ScheduleCalls(ops) + (if op.OpSchedule? then 1 else 0)
    ensures LateArrivals(s, ops + [op], t) == LateArrivals(s, ops, t) + Late(Run(s, ops), op, t)
    ensures forall capacity :: AsksFor(ops, capacity) && (op.OpSchedule? ==> op.maximum == capacity) ==>
      AsksFor(ops + [op], capacity)
  {
    hide Step;
    var all := ops + [op];
    assert all[..|ops|] == ops;
    assert forall k :: 0 <= k < |ops| ==> all[..k] == ops[..k] && all[k] == ops[k];
  }

  function Fresh(id: nat, count: nat): (r: seq<Entry>)
    requires id + count <= U64_MAX + 1
    ensures |r| == count && forall i :: 0 <= i < count ==> r[i] == NewEntry(Request(id + i, 1, 2))
  {
    seq(count, i requires 0 <= i < count => NewEntry(Request(id + i, 1, 2)))
  }

  lemma Arrival(s: Scheduler, id: uint64)
    requires Scannable(s) && id > 0 && IdsBelow(s.entries, id)
    ensures Enqueue(s, Request(id, 1, 2)) == (s.(entries := s.entries + [NewEntry(Request(id, 1, 2))]), OK)
  {
    assert EntryIndex(s.entries, id) == |s.entries|;
  }

  lemma ArriveOne(s: Scheduler, t: nat, id: uint64)
    requires Scannable(s) && id > 0 && IdsBelow(s.entries, id) && t < s.nextScanIndex && IsRunnable(s.entries[t])
    ensures PassesOver(s, OpEnqueue(Request(id, 1, 2)), t) && Late(s, OpEnqueue(Request(id, 1, 2)), t) == 1
    ensures var s' := Step(s, OpEnqueue(Request(id, 1, 2)));
      && s' == s.(entries := s.entries + [NewEntry(Request(id, 1, 2))])
      && IdsBelow(s'.entries, id + 1)
  {
    Arrival(s, id);
  }

  /** Arrivals that go on behind a scan that is past `t`. */
  lemma {:induction false} Arrive(s: Scheduler, before: seq<Op>, t: nat, capacity: nat, id: nat, count: nat)
    returns (ops: seq<Op>)
    requires Scannable(s) && Waits(s, before, t) && AsksFor(before, capacity)
    requires t < Run(s, before).nextScanIndex && IsRunnable(Run(s, before).entries[t])
    requires 0 < id && id + count <= U64_MAX + 1 && IdsBelow(Run(s, before).entries, id)
    ensures Waits(s, ops, t) && AsksFor(ops, capacity) && ScheduleCalls(ops) == ScheduleCalls(before)
    ensures LateArrivals(s, ops, t) == LateArrivals(s, before, t) + count
    ensures Run(s, ops) == Run(s, before).(entries := Run(s, before).entries + Fresh(id, count))
    ensures IdsBelow(Run(s, ops).entries, id + count)
    decreases count
  {
    hide Waits, Run, Step, PassesOver, ScheduleCalls, LateArrivals, AsksFor, Late;
    if count == 0 {
      ops := before;
      assert Run(s, before).entries + Fresh(id, 0) == Run(s, before).entries;
    } else {
      var earlier := Arrive(s, before, t, capacity, id, count - 1);
      var op := OpEnqueue(Request(id + count - 1, 1, 2));
      ArriveOne(Run(s, earlier), t, id + count - 1);
      WaitsSnoc(s, earlier, op, t);
      ops := earlier + [op];
      assert Fresh(id, count) == Fresh(id, count - 1) + [NewEntry(op.request)];
    }
  }

  /** With one fresh entry per slot behind the last one, the scan stays past `t`. */
  lemma {:induction false} ScheduleStays(s: Scheduler, s1: Scheduler, t: nat, capacity: nat, id: nat)
    requires Scannable(s) && Trailing(s, t) && s.generation < U64_MAX && capacity > 0
    requires id + capacity <= U64_MAX + 1 && s1 == s.(entries := s.entries + Fresh(id, capacity))
    ensures PassesOver(s1, OpSchedule(capacity), t)
    ensures var s2 := Step(s1, OpSchedule(capacity));
      && Trailing(s2, t) && s2.generation == s.generation + 1
      && |s2.entries| == |s1.entries|
      && forall i :: 0 <= i < |s1.entries| ==> s2.entries[i].request == s1.entries[i].request
  {
    ScheduleDispatches(s1, capacity);
    assert forall i :: |s.entries| <= i < |s1.entries| ==>
      s1.entries[i] == NewEntry(Request(id + i - |s.entries|, 1, 2));
    SelectStays(s1.entries, s1.nextScanIndex, 0, capacity, |s.entries| - 1);
  }

  lemma SameIds(es: seq<Entry>, es': seq<Entry>, id: nat)
    requires IdsBelow(es, id) && |es'| == |es|
    requires forall i :: 0 <= i < |es| ==> es'[i].request == es[i].request
    ensures IdsBelow(es', id)
  {
  }

  /** From a trailing state, one arrival per slot keeps `t` waiting for any number of calls. */
  lemma {:induction false} ArrivalsStarve(s: Scheduler, before: seq<Op>, t: nat, capacity: nat, rounds: nat, id: nat)
    returns (ops: seq<Op>)
    requires Scannable(s) && Waits(s, before, t) && AsksFor(before, capacity) && capacity > 0
    requires Trailing(Run(s, before), t) && Run(s, before).generation + rounds <= U64_MAX
    requires 0 < id && id + rounds * capacity <= U64_MAX + 1 && IdsBelow(Run(s, before).entries, id)
    ensures Waits(s, ops, t) && AsksFor(ops, capacity) && ScheduleCalls(ops) == ScheduleCalls(before) + rounds
    ensures LateArrivals(s, ops, t) == LateArrivals(s, before, t) + rounds * capacity
    decreases rounds
  {
    hide Waits, Run, Step, PassesOver, ScheduleCalls, LateArrivals, AsksFor, Enqueue, Fresh;
    if rounds == 0 {
      ops := before;
    } else {
      assert rounds * capacity == capacity + (rounds - 1) * capacity;
      var arrived := Arrive(s, before, t, capacity, id, capacity);
      ScheduleStays(Run(s, before), Run(s, arrived), t, capacity, id);
      SameIds(Run(s, arrived).entries, Step(Run(s, arrived), OpSchedule(capacity)).entries, id + capacity);
      WaitsSnoc(s, arrived, OpSchedule(capacity), t);
      ops := ArrivalsStarve(s, arrived + [OpSchedule(capacity)], t, capacity, rounds - 1, id + capacity);
    }
  }

  /**
   * Tightness. A scan that is past a runnable entry can be kept there: whatever the capacity and the number of
   * calls, with one late arrival per slot (and one more) the entry stays runnable and is never
   * dispatched. So late arrivals cost what `DispatchedEventually` allows for them.
   */
  lemma Starvation(s: Scheduler, t: nat, capacity: nat, rounds: nat, id: nat)
    returns (ops: seq<Op>)
    requires Scannable(s) && t < s.nextScanIndex && IsRunnable(s.entries[t]) && capacity > 0
    requires s.generation + rounds <= U64_MAX
    requires 0 < id && id + 1 + rounds * capacity <= U64_MAX + 1 && IdsBelow(s.entries, id)
    ensures Waits(s, ops, t) && AsksFor(ops, capacity) && ScheduleCalls(ops) == rounds
    ensures LateArrivals(s, ops, t) == rounds * capacity + 1
  {
    var arrived := Arrive(s, [], t, capacity, id, 1);
    assert Fresh(id, 1)[0] == NewEntry(Request(id, 1, 2));
    hide Waits, Step, PassesOver, LateArrivals, AsksFor, Late;
    ops := ArrivalsStarve(s, arrived, t, capacity, rounds, id + 1);
  }

  /** Every run with this many schedule calls, each of this capacity or more, dispatches `t`. */
  ghost predicate DispatchedWithin(s: Scheduler, t: nat, capacity: nat, calls: nat)
    requires Scannable(s)
  {
    forall ops :: Offers(ops, capacity) && ScheduleCalls(ops) == calls ==> !Waits(s, ops, t)
  }

  /**
   * The exact condition for a bound on schedule calls that holds whatever is enqueued: the scan is
   * not past the entry. (The ids below `id` are taken; the counters must last for the calls.)
   */
  lemma BoundedExactly(s: Scheduler, t: nat, capacity: nat, calls: nat, id: nat)
    requires Scannable(s) && t < |s.entries| && IsRunnable(s.entries[t]) && capacity > 0
    requires calls * Min(capacity, |s.entries|) > t
    requires s.generation + calls <= U64_MAX
    requires 0 < id && id + 1 + calls * capacity <= U64_MAX + 1 && IdsBelow(s.entries, id)
    ensures DispatchedWithin(s, t, capacity, calls) <==> s.nextScanIndex <= t
  {
    if s.nextScanIndex <= t {
      forall ops | Offers(ops, capacity) && ScheduleCalls(ops) == calls ensures !Waits(s, ops, t) {
        DispatchedBeforeWrap(s, ops, t, capacity);
      }
    } else {
      var ops := Starvation(s, t, capacity, calls, id);
      assert Offers(ops, capacity);
    }
  }

  /** Both situations are reachable: here the scan is past entry 0 and not past entry 1. */
  lemma BothReachable()
    ensures var s := Run(EMPTY, Priming());
      && |s.entries| == 3 && IsRunnable(s.entries[0]) && IsRunnable(s.entries[1])
      && 0 < s.nextScanIndex <= 1
      && !DispatchedWithin(s, 0, 1, 10) && DispatchedWithin(s, 1, 1, 10)
  {
    PrimedIsReachable();
    assert |Primed().entries| == 3;
    BoundedExactly(Primed(), 0, 1, 10, 4);
    BoundedExactly(Primed(), 1, 1, 10, 4);
  }
}
