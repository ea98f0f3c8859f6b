/** Bounded bypass: how long a runnable sequence can be overtaken. */
module SchedulerFairness {
  import opened Core
  import opened SchedulerState

  /** The operation meets a runnable entry `t` and does not dispatch it. */
  ghost predicate PassesOver(s: Scheduler, op: Op, t: nat)
    requires Scannable(s)
  {
    t < |s.entries| && IsRunnable(s.entries[t]) && t !in Dispatched(s, op)
  }

  /** Every operation of the run passes over `t`. */
  ghost predicate Waits(s: Scheduler, ops: seq<Op>, t: nat)
    requires Scannable(s)
  {
    forall k :: 0 <= k < |ops| ==> PassesOver(Run(s, ops[..k]), ops[k], t)
  }

  lemma WaitsInit(s: Scheduler, ops: seq<Op>, t: nat)
    requires Scannable(s) && ops != []
    ensures Waits(s, ops, t) ==>
      Waits(s, ops[..|ops| - 1], t) && PassesOver(Run(s, ops[..|ops| - 1]), ops[|ops| - 1], t)
  {
    assert forall k :: 0 <= k < |ops| - 1 ==> ops[..|ops| - 1][..k] == ops[..k];
  }

  /** How often entry `j` is dispatched along the run. */
  ghost function Times(s: Scheduler, ops: seq<Op>, j: nat): nat
    requires Scannable(s)
    decreases |ops|
  {
    if ops == [] then 0
    else
      var init := ops[..|ops| - 1];
      Times(s, init, j) + (if j in Dispatched(Run(s, init), ops[|ops| - 1]) then 1 else 0)
  }

  /** The scan reaches `j` before `t`. Entries still to be enqueued count when the scan has yet to wrap. */
  ghost predicate Ahead(scan: nat, t: nat, j: nat) {
    if scan <= t then scan <= j < t else j >= scan || j < t
  }

  /** Ring arithmetic: a scan that stops at `last`, short of `t`, leaves behind what it passed. */
  lemma RingStep(scan: nat, last: nat, t: nat, j: nat, n: nat)
    requires scan < n && last < n && t < n && j != t && Offset(scan, last, n) < Offset(scan, t, n)
    ensures Ahead(Wrap(last + 1, n), t, j) ==> Ahead(scan, t, j)
    ensures j < n && Offset(scan, j, n) <= Offset(scan, last, n) ==>
      Ahead(scan, t, j) && !Ahead(Wrap(last + 1, n), t, j)
  {
  }

  /** A schedule call that passes over `t` fills its batch, with entries before `t` in ring order. */
  lemma ScanStopsShort(s: Scheduler, maximum: nat, t: nat)
    requires Scannable(s) && t < |s.entries| && IsRunnable(s.entries[t])
    requires t !in Dispatched(s, OpSchedule(maximum)) && Dispatched(s, OpSchedule(maximum)) != []
    ensures var r, n, scan := Dispatched(s, OpSchedule(maximum)), |s.entries|, s.nextScanIndex;
      && Step(s, OpSchedule(maximum)).nextScanIndex == Wrap(r[|r| - 1] + 1, n)
      && |r| == Min(maximum, n)
      && InRingOrder(scan, n, r, 0)
      && Offset(scan, r[|r| - 1], n) < Offset(scan, t, n)
  {
    ScheduleDispatches(s, maximum);
    var n, limit := |s.entries|, Min(maximum, |s.entries|);
    var r := Selected(s, maximum);
    SelectInOrder(s.entries, s.nextScanIndex, 0, limit);
    SelectMisses(s.entries, s.nextScanIndex, 0, limit, t);
    assert r[|r| - 1] in r;
  }

  function Min(a: nat, b: nat): nat { if a < b then a else b }

  /** One operation that passes over `t` moves everything it dispatches from before `t` to behind it. */
  lemma {:induction false} BypassStep(s: Scheduler, op: Op, t: nat, j: nat)
    requires Scannable(s) && PassesOver(s, op, t) && j != t
    ensures j in Dispatched(s, op) ==>
      Ahead(s.nextScanIndex, t, j) && !Ahead(Step(s, op).nextScanIndex, t, j)
    ensures Ahead(Step(s, op).nextScanIndex, t, j) ==> Ahead(s.nextScanIndex, t, j)
  {
    if op.OpSchedule? && Dispatched(s, op) != [] {
      var r := Dispatched(s, op);
      ScanStopsShort(s, op.maximum, t);
      RingStep(s.nextScanIndex, r[|r| - 1], t, j, |s.entries|);
      if j in r {
        var k :| 0 <= k < |r| && r[k] == j;
        assert k < |r| - 1 ==>
          Offset(s.nextScanIndex, r[k], |s.entries|) < Offset(s.nextScanIndex, r[|r| - 1], |s.entries|);
      }
    } else {
      ScanUnmoved(s, op);
    }
  }

  lemma ScanUnmoved(s: Scheduler, op: Op)
    requires Scannable(s) && Dispatched(s, op) == []
    ensures Step(s, op).nextScanIndex == s.nextScanIndex
    ensures Step(s, op).generation == s.generation
    ensures !op.OpEnqueue? ==> |Step(s, op).entries| == |s.entries|
  {
  }

  /**
   * Bounded bypass. While a sequence waits, runnable and passed over, every other sequence,
   * enqueued before or during the wait, is dispatched at most once, over any mix of operations.
   */
  lemma BoundedBypass(s: Scheduler, ops: seq<Op>, t: nat, j: nat)
    requires Scannable(s) && Waits(s, ops, t) && j != t
    ensures Times(s, ops, j) <= 1
    ensures Times(s, ops, j) == 1 ==> Ahead(s.nextScanIndex, t, j)
  {
    BypassBudget(s, ops, t, j);
  }

  /** What `j` has used up and what it still may use, together. */
  lemma {:induction false} BypassBudget(s: Scheduler, ops: seq<Op>, t: nat, j: nat)
    requires Scannable(s) && Waits(s, ops, t) && j != t
    ensures Times(s, ops, j) + (if Ahead(Run(s, ops).nextScanIndex, t, j) then 1 else 0)
      <= if Ahead(s.nextScanIndex, t, j) then 1 else 0
    decreases |ops|
  {
    if ops == [] {
    } else {
      WaitsInit(s, ops, t);
      BypassBudget(s, ops[..|ops| - 1], t, j);
      BypassStep(Run(s, ops[..|ops| - 1]), ops[|ops| - 1], t, j);
    }
  }

  // ---------- How long the wait can be ----------

  ghost function ScheduleCalls(ops: seq<Op>): nat {
    if ops == [] then 0 else ScheduleCalls(ops[..|ops| - 1]) + (if ops[|ops| - 1].OpSchedule? then 1 else 0)
  }

  /** Slots filled when every schedule call fills `m` of them. */
  ghost function Slots(ops: seq<Op>, m: nat): nat {
    if ops == [] then 0 else Slots(ops[..|ops| - 1], m) + (if ops[|ops| - 1].OpSchedule? then m else 0)
  }

  /** Every schedule call offers at least `capacity` slots. */
  ghost predicate Offers(ops: seq<Op>, capacity: nat) {
    forall k :: 0 <= k < |ops| ==> ops[k].OpSchedule? ==> ops[k].maximum >= capacity
  }

  ghost predicate NoEnqueues(ops: seq<Op>) {
    forall k :: 0 <= k < |ops| ==> !ops[k].OpEnqueue?
  }

  /** An arrival counts as late for `t` when the scan is past `t`: it then stands between the scan and `t`. */
  function Late(s: Scheduler, op: Op, t: nat): nat
    requires Scannable(s)
  {
    if op.OpEnqueue? && Enqueue(s, op.request).1 == OK && t < s.nextScanIndex then 1 else 0
  }

  ghost function LateArrivals(s: Scheduler, ops: seq<Op>, t: nat): nat
    requires Scannable(s)
    decreases |ops|
  {
    if ops == [] then 0
    else
      var init := ops[..|ops| - 1];
      LateArrivals(s, init, t) + Late(Run(s, init), ops[|ops| - 1], t)
  }

  /**
   * A schedule call that passes over `t` fills its batch and comes that much closer. A late arrival
   * takes it one slot further away again, and a scan that is not past `t` does not get past it.
   */
  lemma WaitStep(s: Scheduler, op: Op, t: nat, capacity: nat)
    requires Scannable(s) && PassesOver(s, op, t) && capacity > 0
    requires op.OpSchedule? ==> op.maximum >= capacity && s.generation < U64_MAX
    ensures |s.entries| <= |Step(s, op).entries|
    ensures Offset(Step(s, op).nextScanIndex, t, |Step(s, op).entries|)
              + (if op.OpSchedule? then Min(capacity, |s.entries|) else 0)
            <= Offset(s.nextScanIndex, t, |s.entries|) + Late(s, op, t)
    ensures s.nextScanIndex <= t ==> Step(s, op).nextScanIndex <= t
    ensures Step(s, op).generation <= s.generation + (if op.OpSchedule? then 1 else 0)
  {
    if op.OpSchedule? {
      hide Step, Dispatched, Wrap, Offset;
      RunnableIsSelected(s, op.maximum, t);
      ScanStopsShort(s, op.maximum, t);
      var r := Dispatched(s, op);
      OffsetsSpread(s.entries, s.nextScanIndex, r, |r| - 1);
      RingCloser(s.nextScanIndex, r[|r| - 1], t, |s.entries|);
    } else {
      ScanUnmoved(s, op);
    }
  }

  /** As long as something is runnable and the counter lasts, a call with capacity dispatches something. */
  lemma RunnableIsSelected(s: Scheduler, maximum: nat, t: nat)
    requires Scannable(s) && t < |s.entries| && IsRunnable(s.entries[t]) && maximum > 0 && s.generation < U64_MAX
    ensures Dispatched(s, OpSchedule(maximum)) != []
    ensures |Step(s, OpSchedule(maximum)).entries| == |s.entries|
    ensures Step(s, OpSchedule(maximum)).generation == s.generation + 1
  {
    ScheduleDispatches(s, maximum);
    var limit := if maximum < |s.entries| then maximum else |s.entries|;
    if t !in Select(s.entries, s.nextScanIndex, 0, limit) {
      SelectMisses(s.entries, s.nextScanIndex, 0, limit, t);
    }
  }

  lemma RingCloser(scan: nat, last: nat, t: nat, n: nat)
    requires scan < n && last < n && t < n && Offset(scan, last, n) < Offset(scan, t, n)
    ensures Offset(Wrap(last + 1, n), t, n) == Offset(scan, t, n) - Offset(scan, last, n) - 1
    ensures scan <= t ==> Wrap(last + 1, n) <= t
  {
  }

  /** Increasing offsets: the k-th is at least k. */
  lemma {:induction false} OffsetsSpread(es: seq<Entry>, start: nat, r: seq<nat>, k: nat)
    requires InRingOrder(start, |es|, r, 0) && k < |r|
    ensures Offset(start, r[k], |es|) >= k
  {
    if k == 0 {
    } else {
      OffsetsSpread(es, start, r, k - 1);
    }
  }

  /**
   * The distance of a waiting entry pays for the slots that pass it by, and only late arrivals
   * add to it; there are none while the scan starts at or before the entry.
   */
  lemma {:induction false} WaitBound(s: Scheduler, ops: seq<Op>, t: nat, capacity: nat)
    requires Scannable(s) && Waits(s, ops, t) && Offers(ops, capacity) && capacity > 0 && t < |s.entries|
    requires s.generation + ScheduleCalls(ops) <= U64_MAX
    ensures var s' := Run(s, ops);
      && |s.entries| <= |s'.entries|
      && s'.generation <= s.generation + ScheduleCalls(ops)
      && Slots(ops, Min(capacity, |s.entries|)) + Offset(s'.nextScanIndex, t, |s'.entries|)
           <= Offset(s.nextScanIndex, t, |s.entries|) + LateArrivals(s, ops, t)
      && (s.nextScanIndex <= t ==> s'.nextScanIndex <= t && LateArrivals(s, ops, t) == 0)
    decreases |ops|
  {
    if ops == [] {
    } else {
      var init := ops[..|ops| - 1];
      WaitsInit(s, ops, t);
      WaitBound(s, init, t, capacity);
      WaitStep(Run(s, init), ops[|ops| - 1], t, capacity);
    }
  }

  lemma {:induction false} NoneLate(s: Scheduler, ops: seq<Op>, t: nat)
    requires Scannable(s) && NoEnqueues(ops)
    ensures LateArrivals(s, ops, t) == 0
  {
    if ops == [] {
    } else {
      NoneLate(s, ops[..|ops| - 1], t);
    }
  }

  lemma {:induction false} SlotsPerCall(ops: seq<Op>, m: nat)
    ensures Slots(ops, m) == ScheduleCalls(ops) * m
  {
    if ops == [] {
    } else {
      var calls := ScheduleCalls(ops[..|ops| - 1]);
      SlotsPerCall(ops[..|ops| - 1], m);
      assert (calls + 1) * m == calls * m + m;
    }
  }

  /** The ceiling of n / m. */
  function RoundsFor(n: nat, m: nat): nat
    requires m > 0
  {
    (n + m - 1) / m
  }

  /**
   * A sequence that stays runnable is dispatched as soon as the schedule calls have offered more
   * slots than its distance from the scan and the late arrivals together, over any mix of operations
   * (while the generation counter lasts).
   */
  lemma DispatchedEventually(s: Scheduler, ops: seq<Op>, t: nat, capacity: nat)
    requires Scannable(s) && Offers(ops, capacity) && capacity > 0 && t < |s.entries|
    requires s.generation + ScheduleCalls(ops) <= U64_MAX
    requires ScheduleCalls(ops) * Min(capacity, |s.entries|)
      > Offset(s.nextScanIndex, t, |s.entries|) + LateArrivals(s, ops, t)
    ensures !Waits(s, ops, t)
  {
    SlotsPerCall(ops, Min(capacity, |s.entries|));
    if Waits(s, ops, t) {
      WaitBound(s, ops, t, capacity);
    }
  }

  /** A scan that is not past the sequence reaches it within its distance, whatever is enqueued. */
  lemma DispatchedBeforeWrap(s: Scheduler, ops: seq<Op>, t: nat, capacity: nat)
    requires Scannable(s) && Offers(ops, capacity) && capacity > 0 && t < |s.entries|
    requires s.generation + ScheduleCalls(ops) <= U64_MAX
    requires s.nextScanIndex <= t && ScheduleCalls(ops) * Min(capacity, |s.entries|) > t - s.nextScanIndex
    ensures !Waits(s, ops, t)
  {
    if Waits(s, ops, t) {
      WaitBound(s, ops, t, capacity);
      DispatchedEventually(s, ops, t, capacity);
    }
  }

  /**
   * With n entries, no enqueues and capacity m, a sequence that stays runnable is dispatched
   * within the ceiling of n / min(m, n) schedule calls.
   */
  lemma DispatchedInTime(s: Scheduler, ops: seq<Op>, t: nat, capacity: nat)
    requires Scannable(s) && Offers(ops, capacity) && NoEnqueues(ops) && capacity > 0 && t < |s.entries|
    requires s.generation + ScheduleCalls(ops) <= U64_MAX
    requires ScheduleCalls(ops) >= RoundsFor(|s.entries|, Min(capacity, |s.entries|))
    ensures !Waits(s, ops, t)
  {
    RoundsCover(|s.entries|, Min(capacity, |s.entries|), ScheduleCalls(ops));
    NoneLate(s, ops, t);
    DispatchedEventually(s, ops, t, capacity);
  }

  lemma RoundsCover(n: nat, m: nat, calls: nat)
    requires m > 0 && calls >= RoundsFor(n, m)
    ensures calls * m >= n
  {
    var rounds := RoundsFor(n, m);
    assert rounds * m + (n + m - 1) % m == n + m - 1;
    assert calls * m >= rounds * m;
  }
}
