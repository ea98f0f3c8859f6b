/** The scheduler's state as a value, and each operation as a function on it. */
module SchedulerState {
  import opened Core

  datatype Phase = Queued | Decoding | Paused | Finished | Cancelled

  datatype Work = Prefill | Decode

  datatype Request = Request(id: uint64, promptTokens: uint32, maxOutputTokens: uint32)

  datatype Entry = Entry(
    request: Request,
    phase: Phase,
    resumePhase: Phase,
    inFlightWork: Work,
    generatedTokens: uint32,
    inFlight: bool,
    cancelPending: bool)

  datatype BatchItem = BatchItem(id: uint64, work: Work, contextTokens: uint32, slot: nat)

  datatype Batch = Batch(generation: uint64, items: seq<BatchItem>)

  datatype Scheduler = Scheduler(entries: seq<Entry>, nextScanIndex: nat, generation: uint64)

  datatype Snapshot = Snapshot(
    generation: uint64,
    sequenceCount: nat,
    residentCount: nat,
    runnableCount: nat,
    inFlightCount: nat,
    pausedCount: nat,
    finishedCount: nat,
    cancelledCount: nat)

  const EMPTY := Scheduler([], 0, 0)

  predicate IsTerminal(phase: Phase) { phase == Finished || phase == Cancelled }

  predicate IsRunnable(e: Entry) {
    !e.inFlight && !e.cancelPending && (e.phase == Queued || e.phase == Decoding)
  }

  function NewEntry(request: Request): Entry {
    Entry(request, Queued, Queued, Prefill, 0, false, false)
  }

  function EntryIndex(es: seq<Entry>, id: uint64): (i: nat)
    ensures i <= |es|
    ensures i < |es| ==> es[i].request.id == id
    ensures forall j :: 0 <= j < i ==> es[j].request.id != id
  {
    if es == [] || es[0].request.id == id then 0 else 1 + EntryIndex(es[1..], id)
  }

  /** Index `x` of a ring of `n` slots, for an `x` that has gone round at most once. */
  function Wrap(x: nat, n: nat): (r: nat)
    requires x < 2 * n
    ensures r < n
  {
    if x < n then x else x - n
  }

  /** The source writes the same index with the remainder operator. */
  lemma WrapIsRemainder(x: nat, n: nat)
    requires x < 2 * n
    ensures x % n == Wrap(x, n)
  {
    var q := x / n;
    assert x == q * n + x % n;
    assert q >= 2 ==> q * n >= 2 * n;
  }

  /** The scan index is a ring position; every operation keeps it one. */
  predicate Scannable(s: Scheduler) {
    if s.entries == [] then s.nextScanIndex == 0 else s.nextScanIndex < |s.entries|
  }

  /** Runnable entries from ring offset `offset` on, at most `limit` of them. */
  function Select(es: seq<Entry>, start: nat, offset: nat, limit: nat): (r: seq<nat>)
    requires start < |es| && offset <= |es|
    ensures forall k :: 0 <= k < |r| ==> r[k] < |es|
    decreases |es| - offset
  {
    if offset == |es| || limit == 0 then []
    else
      var index := Wrap(start + offset, |es|);
      if IsRunnable(es[index]) then [index] + Select(es, start, offset + 1, limit - 1)
      else Select(es, start, offset + 1, limit)
  }

  /** How far the scan walks from `start` to reach slot `i` of `n`. */
  function Offset(start: nat, i: nat, n: nat): (o: nat)
    requires start < n && i < n
    ensures o < n
  {
    if start <= i then i - start else i + n - start
  }

  /** The picks lie at or after ring offset `from`, in ring order. */
  ghost predicate InRingOrder(start: nat, n: nat, r: seq<nat>, from: nat) {
    && start < n
    && (forall k :: 0 <= k < |r| ==> r[k] < n && from <= Offset(start, r[k], n))
    && (forall k, k' :: 0 <= k < k' < |r| ==> r[k] < n && r[k'] < n && Offset(start, r[k], n) < Offset(start, r[k'], n))
  }

  lemma {:induction false} SelectInOrder(es: seq<Entry>, start: nat, offset: nat, limit: nat)
    requires start < |es| && offset <= |es|
    ensures InRingOrder(start, |es|, Select(es, start, offset, limit), offset)
    decreases |es| - offset
  {
    if offset < |es| && limit > 0 {
      assert Offset(start, Wrap(start + offset, |es|), |es|) == offset;
      SelectInOrder(es, start, offset + 1, limit - 1);
      SelectInOrder(es, start, offset + 1, limit);
    }
  }

  lemma {:induction false} SelectRunnable(es: seq<Entry>, start: nat, offset: nat, limit: nat)
    requires start < |es| && offset <= |es|
    ensures |Select(es, start, offset, limit)| <= limit
    ensures forall i :: i in Select(es, start, offset, limit) ==> IsRunnable(es[i])
    decreases |es| - offset
  {
    if offset < |es| && limit > 0 {
      SelectRunnable(es, start, offset + 1, limit - 1);
      SelectRunnable(es, start, offset + 1, limit);
    }
  }

  /** A runnable entry is missed only when the batch is full of entries that come before it. */
  lemma {:induction false} SelectMisses(es: seq<Entry>, start: nat, offset: nat, limit: nat, i: nat)
    requires start < |es| && offset <= |es| && i < |es| && IsRunnable(es[i])
    requires offset <= Offset(start, i, |es|) && i !in Select(es, start, offset, limit)
    ensures |Select(es, start, offset, limit)| == limit
    ensures forall j :: j in Select(es, start, offset, limit) ==> Offset(start, j, |es|) < Offset(start, i, |es|)
    decreases |es| - offset
  {
    if limit == 0 {
    } else {
      var index := Wrap(start + offset, |es|);
      assert Offset(start, index, |es|) == offset;
      if IsRunnable(es[index]) {
        assert i != index;
        SelectMisses(es, start, offset + 1, limit - 1, i);
      } else {
        SelectMisses(es, start, offset + 1, limit, i);
      }
    }
  }

  /** The context length is computed in 32 bits. */
  function ItemFor(e: Entry, slot: nat): BatchItem {
    BatchItem(e.request.id, if e.phase == Queued then Prefill else Decode,
              (e.request.promptTokens + e.generatedTokens) % 0x1_0000_0000, slot)
  }

  function ItemsFor(es: seq<Entry>, selected: seq<nat>): (items: seq<BatchItem>)
    requires forall k :: 0 <= k < |selected| ==> selected[k] < |es|
  {
    seq(|selected|, k requires 0 <= k < |selected| => ItemFor(es[selected[k]], k))
  }

  function Launch(e: Entry): Entry {
    e.(inFlight := true, inFlightWork := if e.phase == Queued then Prefill else Decode)
  }

  /** Every selected entry goes in flight. */
  function LaunchAll(es: seq<Entry>, selected: seq<nat>): seq<Entry> {
    seq(|es|, i requires 0 <= i < |es| => if i in selected then Launch(es[i]) else es[i])
  }

  function Enqueue(s: Scheduler, request: Request): (Scheduler, Status) {
    if request.id == 0 || request.promptTokens == 0 || request.maxOutputTokens == 0
      || request.promptTokens > U32_MAX - request.maxOutputTokens
      || EntryIndex(s.entries, request.id) < |s.entries|
    then (s, Failure(InvalidArgument))
    else (s.(entries := s.entries + [NewEntry(request)]), OK)
  }

  function Selected(s: Scheduler, maximum: nat): (r: seq<nat>)
    requires Scannable(s)
    ensures forall k :: 0 <= k < |r| ==> r[k] < |s.entries|
  {
    if s.entries == [] then []
    else Select(s.entries, s.nextScanIndex, 0, if maximum < |s.entries| then maximum else |s.entries|)
  }

  /** The state after the picks have gone in flight; the scan resumes behind the last one. */
  function Launched(s: Scheduler, picks: seq<nat>): Scheduler
    requires picks != [] && picks[|picks| - 1] < |s.entries| && s.generation < U64_MAX
  {
    Scheduler(LaunchAll(s.entries, picks), Wrap(picks[|picks| - 1] + 1, |s.entries|), s.generation + 1)
  }

  function Schedule(s: Scheduler, maximum: nat): (Scheduler, Result<Batch>)
    requires Scannable(s)
  {
    if maximum == 0 then (s, Failure(InvalidArgument))
    else
      var selected := Selected(s, maximum);
      if selected == [] then (s, Success(Batch(s.generation, [])))
      else if s.generation == U64_MAX then (s, Failure(ArithmeticOverflow))
      else
        (Launched(s, selected), Success(Batch(s.generation + 1, ItemsFor(s.entries, selected))))
  }

  /** What a completion does to its entry; the remaining budget is computed in 32 bits. */
  function CompleteEntry(e: Entry, emitted: uint32, terminal: bool): Result<Entry> {
    if !e.inFlight || (emitted == 0 && !terminal) then Failure(InvalidArgument)
    else if e.cancelPending then
      Success(e.(inFlight := false, cancelPending := false, phase := Cancelled))
    else if emitted > (e.request.maxOutputTokens - e.generatedTokens) % 0x1_0000_0000 then Failure(InvalidArgument)
    else
      var generated := (e.generatedTokens + emitted) % 0x1_0000_0000;
      Success(e.(inFlight := false, generatedTokens := generated,
                 phase := if terminal || generated == e.request.maxOutputTokens then Finished else Decoding))
  }

  function PauseEntry(e: Entry): Result<Entry> {
    if e.inFlight || IsTerminal(e.phase) then Failure(InvalidArgument)
    else if e.phase == Paused then Success(e)
    else Success(e.(resumePhase := e.phase, phase := Paused))
  }

  function ResumeEntry(e: Entry): Result<Entry> {
    if e.phase != Paused then Failure(InvalidArgument) else Success(e.(phase := e.resumePhase))
  }

  function CancelEntry(e: Entry): Result<Entry> {
    if e.phase == Finished then Failure(InvalidArgument)
    else if e.phase == Cancelled then Success(e)
    else if e.inFlight then Success(e.(cancelPending := true))
    else Success(e.(phase := Cancelled))
  }

  /** Look the entry up and store what `change` makes of it. */
  function Update(s: Scheduler, id: uint64, change: Entry -> Result<Entry>): (Scheduler, Status) {
    var i := EntryIndex(s.entries, id);
    if i == |s.entries| then (s, Failure(InvalidArgument))
    else
      match change(s.entries[i])
      case Success(e) => (s.(entries := s.entries[i := e]), OK)
      case Failure(error) => (s, Failure(error))
  }

  function Complete(s: Scheduler, id: uint64, emitted: uint32, terminal: bool): (Scheduler, Status) {
    Update(s, id, e => CompleteEntry(e, emitted, terminal))
  }

  function Pause(s: Scheduler, id: uint64): (Scheduler, Status) { Update(s, id, PauseEntry) }

  function Resume(s: Scheduler, id: uint64): (Scheduler, Status) { Update(s, id, ResumeEntry) }

  function Cancel(s: Scheduler, id: uint64): (Scheduler, Status) { Update(s, id, CancelEntry) }

  // ---------- Runs ----------

  datatype Op =
    | OpEnqueue(request: Request)
    | OpSchedule(maximum: nat)
    | OpComplete(id: uint64, emitted: uint32, terminal: bool)
    | OpPause(id: uint64)
    | OpResume(id: uint64)
    | OpCancel(id: uint64)

  function Step(s: Scheduler, op: Op): (s': Scheduler)
    requires Scannable(s)
    ensures Scannable(s')
  {
    match op
    case OpEnqueue(request) => Enqueue(s, request).0
    case OpSchedule(maximum) => Schedule(s, maximum).0
    case OpComplete(id, emitted, terminal) => Complete(s, id, emitted, terminal).0
    case OpPause(id) => Pause(s, id).0
    case OpResume(id) => Resume(s, id).0
    case OpCancel(id) => Cancel(s, id).0
  }

  /** The indices that the operation puts in flight. */
  function Dispatched(s: Scheduler, op: Op): (r: seq<nat>)
    requires Scannable(s)
    ensures forall k :: 0 <= k < |r| ==> r[k] < |s.entries|
  {
    if op.OpSchedule? && op.maximum > 0 && s.generation < U64_MAX then Selected(s, op.maximum) else []
  }

  lemma ScheduleDispatches(s: Scheduler, maximum: nat)
    requires Scannable(s)
    ensures var picks := Dispatched(s, OpSchedule(maximum));
      Step(s, OpSchedule(maximum)) == if picks == [] then s else Launched(s, picks)
    ensures Schedule(s, maximum).1.Success? ==> Schedule(s, maximum).1.value.items == Issued(s, OpSchedule(maximum))
    ensures Schedule(s, maximum).1.Failure? ==> Dispatched(s, OpSchedule(maximum)) == []
  {
  }

  /** The items that the operation hands out. */
  function Issued(s: Scheduler, op: Op): seq<BatchItem>
    requires Scannable(s)
  {
    ItemsFor(s.entries, Dispatched(s, op))
  }

  function Run(s: Scheduler, ops: seq<Op>): (s': Scheduler)
    requires Scannable(s)
    ensures Scannable(s')
    decreases |ops|
  {
    if ops == [] then s else Step(Run(s, ops[..|ops| - 1]), ops[|ops| - 1])
  }
}
