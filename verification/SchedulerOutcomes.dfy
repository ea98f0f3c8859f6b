/** When each call of the scheduler succeeds, what it then changes, and what follows for later runs. */
module SchedulerOutcomes {
  import opened Core
  import opened SchedulerState
  import opened SchedulerLifecycle
  import Counting

  /** A refused call changes nothing. */
  ghost predicate Refused(s: Scheduler, outcome: (Scheduler, Status)) {
    outcome == (s, Failure(InvalidArgument))
  }

  /** The call succeeds and replaces entry `i` alone. */
  ghost predicate Replaces(s: Scheduler, outcome: (Scheduler, Status), i: nat, e: Entry)
    requires i < |s.entries|
  {
    outcome == (s.(entries := s.entries[i := e]), Success(()))
  }

  lemma EntryAt(s: Scheduler, i: nat)
    requires Inv(s) && i < |s.entries|
    ensures EntryIndex(s.entries, s.entries[i].request.id) == i
    ensures EntryInv(s.entries[i])
  {
  }

  ghost predicate Unknown(s: Scheduler, id: uint64) {
    forall i :: 0 <= i < |s.entries| ==> s.entries[i].request.id != id
  }

  /** Without an entry of that id every call but an enqueue is refused. */
  lemma UnknownRefused(s: Scheduler, id: uint64, emitted: uint32, terminal: bool)
    requires Unknown(s, id)
    ensures Refused(s, Complete(s, id, emitted, terminal)) && Refused(s, Pause(s, id))
    ensures Refused(s, Resume(s, id)) && Refused(s, Cancel(s, id))
  {
  }

  // ---------- Enqueue ----------

  /** A request is taken exactly if it is complete, fits into 32 bits and has a fresh id; it queues up last. */
  lemma EnqueueOutcome(s: Scheduler, request: Request)
    ensures var outcome := Enqueue(s, request);
      if request.id != 0 && request.promptTokens > 0 && request.maxOutputTokens > 0
        && request.promptTokens + request.maxOutputTokens <= 0xFFFF_FFFF && Unknown(s, request.id)
      then outcome.1 == Success(()) && outcome.0.nextScanIndex == s.nextScanIndex
        && outcome.0.generation == s.generation && |outcome.0.entries| == |s.entries| + 1
        && outcome.0.entries[..|s.entries|] == s.entries && Fresh(outcome.0.entries[|s.entries|], request)
      else Refused(s, outcome)
  {
  }

  /** A sequence that waits for its first turn. */
  ghost predicate Fresh(e: Entry, request: Request) {
    e.request == request && e.phase == Queued && e.generatedTokens == 0 && !e.inFlight && !e.cancelPending
  }

  // ---------- Schedule ----------

  /** The entry waits for a turn. */
  ghost predicate Waiting(e: Entry) {
    !e.inFlight && (e.phase == Queued || e.phase == Decoding)
  }

  /** How far entry `i` of `n` lies behind the scan. */
  ghost function Behind(scan: nat, i: nat, n: nat): int {
    if scan <= i then i - scan else i - scan + n
  }

  /** The picks wait, lie in ring order behind the scan, and pass over a waiting entry only when they are `maximum`. */
  ghost predicate FirstWaiting(s: Scheduler, maximum: nat, picks: seq<nat>) {
    var n := |s.entries|;
    && |picks| <= maximum
    && (forall k :: 0 <= k < |picks| ==> picks[k] < n && Waiting(s.entries[picks[k]]))
    && (forall k, l :: 0 <= k < l < |picks| ==>
          Behind(s.nextScanIndex, picks[k], n) < Behind(s.nextScanIndex, picks[l], n))
    && (forall i :: 0 <= i < n && Waiting(s.entries[i]) && i !in picks ==>
          |picks| == maximum
          && forall k :: 0 <= k < |picks| ==>
               Behind(s.nextScanIndex, picks[k], n) < Behind(s.nextScanIndex, i, n))
  }

  /** The item that tells the engine what to do for an entry. */
  ghost predicate Describes(item: BatchItem, e: Entry, slot: nat) {
    && item.id == e.request.id
    && item.work == (if e.phase == Queued then Prefill else Decode)
    && item.contextTokens == e.request.promptTokens + e.generatedTokens
    && item.slot == slot
  }

  /** The picks, and nothing else, are in flight now; the scan goes on behind the last of them. */
  ghost predicate PutInFlight(s: Scheduler, s': Scheduler, picks: seq<nat>)
    requires picks != [] && forall k :: 0 <= k < |picks| ==> picks[k] < |s.entries|
  {
    && |s'.entries| == |s.entries|
    && (forall i :: 0 <= i < |s.entries| ==>
          s'.entries[i] ==
            if i in picks then s.entries[i].(inFlight := true, inFlightWork := s'.entries[i].inFlightWork)
            else s.entries[i])
    && |s.entries| > 0
    && s'.nextScanIndex == (picks[|picks| - 1] + 1) % |s.entries|
    && s'.generation == s.generation + 1
  }

  lemma WaitingIsRunnable(e: Entry)
    requires EntryInv(e)
    ensures Waiting(e) <==> IsRunnable(e)
  {
  }

  /** A waiting entry that is not picked is behind a full batch. */
  lemma PassedOver(s: Scheduler, maximum: nat, i: nat)
    requires Inv(s) && i < |s.entries| && Waiting(s.entries[i]) && i !in Selected(s, maximum)
    ensures |Selected(s, maximum)| == maximum
    ensures forall j :: j in Selected(s, maximum) ==>
      j < |s.entries| && Behind(s.nextScanIndex, j, |s.entries|) < Behind(s.nextScanIndex, i, |s.entries|)
  {
    var n, scan := |s.entries|, s.nextScanIndex;
    var limit := if maximum < n then maximum else n;
    WaitingIsRunnable(s.entries[i]);
    hide Select, Inv;
    SelectInOrder(s.entries, scan, 0, limit);
    SelectMisses(s.entries, scan, 0, limit, i);
    AllPicked(Select(s.entries, scan, 0, limit), scan, n, i);
  }

  lemma PicksInOrder(s: Scheduler, maximum: nat)
    requires Inv(s)
    ensures var picks, n := Selected(s, maximum), |s.entries|;
      && |picks| <= maximum
      && (forall k :: 0 <= k < |picks| ==> Waiting(s.entries[picks[k]]))
      && (forall k, l :: 0 <= k < l < |picks| ==>
            Behind(s.nextScanIndex, picks[k], n) < Behind(s.nextScanIndex, picks[l], n))
  {
    if s.entries != [] {
      var limit := if maximum < |s.entries| then maximum else |s.entries|;
      var picks := Select(s.entries, s.nextScanIndex, 0, limit);
      SelectInOrder(s.entries, s.nextScanIndex, 0, limit);
      SelectRunnable(s.entries, s.nextScanIndex, 0, limit);
      hide Select, Inv;
      forall k | 0 <= k < |picks| ensures Waiting(s.entries[picks[k]]) {
        assert picks[k] in picks;
      }
    }
  }

  lemma PicksFirst(s: Scheduler, maximum: nat)
    requires Inv(s)
    ensures FirstWaiting(s, maximum, Selected(s, maximum))
  {
    assert Scannable(s);
    hide Selected, Inv, Scannable, Waiting, Behind;
    PicksInOrder(s, maximum);
    forall i | 0 <= i < |s.entries| && Waiting(s.entries[i]) && i !in Selected(s, maximum)
      ensures |Selected(s, maximum)| == maximum
      ensures forall k :: 0 <= k < |Selected(s, maximum)| ==>
        Behind(s.nextScanIndex, Selected(s, maximum)[k], |s.entries|) < Behind(s.nextScanIndex, i, |s.entries|)
    {
      PassedOver(s, maximum, i);
    }
  }

  /** As many picks as there are entries leave none over. */
  lemma AllPicked(picks: seq<nat>, scan: nat, n: nat, i: nat)
    requires InRingOrder(scan, n, picks, 0) && i < n && i !in picks
    ensures |picks| < n
  {
    forall k, l | 0 <= k < l < |picks| + 1 ensures (picks + [i])[k] != (picks + [i])[l] {
    }
    Counting.DistinctBelow(picks + [i], n);
  }

  lemma DescribesItem(e: Entry, slot: nat)
    requires EntryInv(e)
    ensures Describes(ItemFor(e, slot), e, slot)
  {
  }

  lemma LaunchedPicks(s: Scheduler, picks: seq<nat>)
    requires picks != [] && s.generation < U64_MAX && forall k :: 0 <= k < |picks| ==> picks[k] < |s.entries|
    ensures PutInFlight(s, Launched(s, picks), picks)
  {
    WrapIsRemainder(picks[|picks| - 1] + 1, |s.entries|);
  }

  /**
   * A schedule call hands out the first waiting entries behind the scan, as many as it may, each described
   * as it stands. It is refused without room, and it fails when the batch could not be numbered.
   */
  lemma ScheduleOutcome(s: Scheduler, maximum: nat)
    requires Inv(s)
    ensures var (s', result) := Schedule(s, maximum);
      if maximum == 0 then s' == s && result == Failure(InvalidArgument)
      else if forall i :: 0 <= i < |s.entries| ==> !Waiting(s.entries[i]) then
        s' == s && result == Success(Batch(s.generation, []))
      else if s.generation == 0xFFFF_FFFF_FFFF_FFFF then s' == s && result == Failure(ArithmeticOverflow)
      else
        exists picks :: FirstWaiting(s, maximum, picks) && picks != []
          && PutInFlight(s, s', picks)
          && result.Success? && result.value.generation == s.generation + 1
          && |result.value.items| == |picks|
          && forall k :: 0 <= k < |picks| ==> Describes(result.value.items[k], s.entries[picks[k]], k)
  {
    if maximum > 0 {
      var picks := Selected(s, maximum);
      PicksFirst(s, maximum);
      if picks != [] {
        assert Waiting(s.entries[picks[0]]);
        if s.generation < U64_MAX {
          LaunchedPicks(s, picks);
          forall k | 0 <= k < |picks| ensures Describes(ItemsFor(s.entries, picks)[k], s.entries[picks[k]], k) {
            assert EntryInv(s.entries[picks[k]]);
            DescribesItem(s.entries[picks[k]], k);
          }
        }
      }
    }
  }

  // ---------- Complete ----------

  /**
   * A completion is accepted exactly for an entry in flight, with output or an end, within the budget. A
   * cancelled entry then becomes cancelled, whatever is reported; any other takes the output and finishes
   * at an end or with its budget used up.
   */
  lemma CompleteOutcome(s: Scheduler, i: nat, emitted: uint32, terminal: bool)
    requires Inv(s) && i < |s.entries|
    ensures var e := s.entries[i];
      var outcome := Complete(s, e.request.id, emitted, terminal);
      if !e.inFlight || (emitted == 0 && !terminal) then Refused(s, outcome)
      else if e.cancelPending then
        Replaces(s, outcome, i, e.(inFlight := false, cancelPending := false, phase := Cancelled))
      else if e.generatedTokens + emitted > e.request.maxOutputTokens then Refused(s, outcome)
      else
        var total := e.generatedTokens + emitted;
        Replaces(s, outcome, i, e.(inFlight := false, generatedTokens := total,
          phase := if terminal || total == e.request.maxOutputTokens then Finished else Decoding))
  {
    EntryAt(s, i);
  }

  /** The operation names this sequence. */
  ghost predicate Names(op: Op, id: uint64) {
    match op
    case OpEnqueue(request) => false
    case OpSchedule(maximum) => false
    case OpComplete(other, emitted, terminal) => other == id
    case OpPause(other) => other == id
    case OpResume(other) => other == id
    case OpCancel(other) => other == id
  }

  /** An entry that does not wait for a turn is not handed out, and no call that does not name it changes it. */
  lemma NotHandedOut(s: Scheduler, op: Op, i: nat)
    requires Inv(s) && i < |s.entries| && !IsRunnable(s.entries[i])
    ensures i !in Dispatched(s, op)
    ensures ItemsOf(Issued(s, op), s.entries[i].request.id) == []
    ensures !Names(op, s.entries[i].request.id) ==>
      i < |Step(s, op).entries| && Step(s, op).entries[i] == s.entries[i]
  {
    DispatchedOk(s, op);
    IssuedOf(s, op, i);
    hide Inv, Issued, Dispatched, CompleteEntry;
    if op.OpSchedule? { ScheduleDispatches(s, op.maximum); }
  }

  /** Nothing is handed out again for a finished or cancelled sequence. */
  lemma {:induction false} TerminalIsSilent(s: Scheduler, ops: seq<Op>, i: nat)
    requires Inv(s) && i < |s.entries| && (s.entries[i].phase == Finished || s.entries[i].phase == Cancelled)
    ensures History(s, ops, s.entries[i].request.id) == []
    decreases |ops|
  {
    if ops == [] {
    } else {
      var init, op := ops[..|ops| - 1], ops[|ops| - 1];
      TerminalIsSilent(s, init, i);
      TerminalForever(s, init, i);
      RunInv(s, init);
      hide Inv, Issued, Step;
      NotHandedOut(Run(s, init), op, i);
    }
  }

  /** An end below the budget finishes the sequence for good: nothing is handed out for it again. */
  lemma EndFinishes(s: Scheduler, i: nat, emitted: uint32, ops: seq<Op>)
    requires Inv(s) && i < |s.entries| && s.entries[i].inFlight && !s.entries[i].cancelPending
    requires s.entries[i].generatedTokens + emitted <= s.entries[i].request.maxOutputTokens
    ensures var e := s.entries[i];
      var (ended, status) := Complete(s, e.request.id, emitted, true);
      && status == Success(())
      && Scannable(ended)
      && i < |Run(ended, ops).entries|
      && Run(ended, ops).entries[i].phase == Finished
      && Run(ended, ops).entries[i].generatedTokens == e.generatedTokens + emitted
      && History(ended, ops, e.request.id) == []
  {
    var ended := Complete(s, s.entries[i].request.id, emitted, true).0;
    CompleteOutcome(s, i, emitted, true);
    StepInv(s, OpComplete(s.entries[i].request.id, emitted, true));
    assert Inv(ended) && Scannable(ended);
    hide Complete, Inv, Run, History;
    TerminalForever(ended, ops, i);
    TerminalIsSilent(ended, ops, i);
  }

  // ---------- Pause and resume ----------

  /** A sequence is paused exactly if it is alive and not in flight; a second pause has no effect. */
  lemma PauseOutcome(s: Scheduler, i: nat)
    requires Inv(s) && i < |s.entries|
    ensures var e := s.entries[i];
      var outcome := Pause(s, e.request.id);
      if e.inFlight || e.phase == Finished || e.phase == Cancelled then Refused(s, outcome)
      else if e.phase == Paused then Replaces(s, outcome, i, e)
      else Replaces(s, outcome, i, e.(phase := Paused, resumePhase := e.phase))
  {
    EntryAt(s, i);
  }

  /** A sequence is resumed exactly if it is paused, and then waits for a turn again. */
  lemma ResumeOutcome(s: Scheduler, i: nat)
    requires Inv(s) && i < |s.entries|
    ensures var e := s.entries[i];
      var outcome := Resume(s, e.request.id);
      if e.phase != Paused then Refused(s, outcome)
      else Replaces(s, outcome, i, e.(phase := e.resumePhase)) && Waiting(e.(phase := e.resumePhase))
  {
    EntryAt(s, i);
  }

  /** Nothing but a resume or a cancel touches a paused entry, and nothing hands it out. */
  lemma PausedStep(s: Scheduler, op: Op, i: nat)
    requires Inv(s) && i < |s.entries| && s.entries[i].phase == Paused
    requires op != OpResume(s.entries[i].request.id) && op != OpCancel(s.entries[i].request.id)
    ensures i < |Step(s, op).entries| && Step(s, op).entries[i] == s.entries[i]
    ensures ItemsOf(Issued(s, op), s.entries[i].request.id) == []
  {
    NotHandedOut(s, op, i);
    EntryAt(s, i);
    if Names(op, s.entries[i].request.id) {
      hide Inv, Issued, Complete, Pause;
      match op
      case OpComplete(id, emitted, terminal) => CompleteOutcome(s, i, emitted, terminal);
      case OpPause(id) => PauseOutcome(s, i);
    }
  }

  lemma {:induction false} PausedStays(s: Scheduler, ops: seq<Op>, i: nat)
    requires Inv(s) && i < |s.entries| && s.entries[i].phase == Paused
    requires OpResume(s.entries[i].request.id) !in ops && OpCancel(s.entries[i].request.id) !in ops
    ensures i < |Run(s, ops).entries| && Run(s, ops).entries[i] == s.entries[i]
    ensures History(s, ops, s.entries[i].request.id) == []
    decreases |ops|
  {
    if ops == [] {
    } else {
      var init, op := ops[..|ops| - 1], ops[|ops| - 1];
      PausedStays(s, init, i);
      RunInv(s, init);
      hide Inv, Issued, Step;
      PausedStep(Run(s, init), op, i);
    }
  }

  /**
   * A pause that lasts: nothing is handed out for the sequence until it is resumed, and the resume puts it
   * back to the phase and progress it had before the pause.
   */
  lemma PauseThenResume(s: Scheduler, i: nat, ops: seq<Op>)
    requires Inv(s) && i < |s.entries| && Waiting(s.entries[i])
    requires OpResume(s.entries[i].request.id) !in ops && OpCancel(s.entries[i].request.id) !in ops
    ensures var id := s.entries[i].request.id;
      var paused := Pause(s, id).0;
      && Scannable(paused)
      && History(paused, ops, id) == []
      && var (resumed, status) := Resume(Run(paused, ops), id);
      && status == Success(())
      && i < |resumed.entries|
      && resumed.entries[i] == s.entries[i].(resumePhase := resumed.entries[i].resumePhase)
  {
    var e := s.entries[i];
    StepInv(s, OpPause(e.request.id));
    PauseOutcome(s, i);
    var paused := Pause(s, e.request.id).0;
    assert Inv(paused) && Scannable(paused) && paused.entries[i] == e.(phase := Paused, resumePhase := e.phase);
    hide Pause, Resume, Inv, Run, History;
    PausedStays(paused, ops, i);
    RunInv(paused, ops);
    ResumeOutcome(Run(paused, ops), i);
  }

  // ---------- Cancel ----------

  /** A cancel is refused exactly for a finished sequence; it takes effect at once unless the sequence is in flight. */
  lemma CancelOutcome(s: Scheduler, i: nat)
    requires Inv(s) && i < |s.entries|
    ensures var e := s.entries[i];
      var outcome := Cancel(s, e.request.id);
      if e.phase == Finished then Refused(s, outcome)
      else if e.inFlight then Replaces(s, outcome, i, e.(cancelPending := true))
      else Replaces(s, outcome, i, e.(phase := Cancelled))
  {
    EntryAt(s, i);
  }

  /** The sequence is cancelled, or will be when its batch comes back. */
  ghost predicate Doomed(e: Entry) { e.phase == Cancelled || e.cancelPending }

  /** What becomes of a doomed entry: it stays, or it is cancelled with the output it has. */
  ghost predicate DoomedStep(e: Entry, e': Entry) {
    e' == e || (e.cancelPending && e' == e.(inFlight := false, cancelPending := false, phase := Cancelled))
  }

  ghost predicate Completes(op: Op, id: uint64) { op.OpComplete? && op.id == id }

  lemma DoomedOnce(s: Scheduler, op: Op, i: nat)
    requires Inv(s) && i < |s.entries| && Doomed(s.entries[i])
    ensures i < |Step(s, op).entries| && DoomedStep(s.entries[i], Step(s, op).entries[i])
    ensures Doomed(Step(s, op).entries[i])
    ensures ItemsOf(Issued(s, op), s.entries[i].request.id) == []
    ensures s.entries[i].cancelPending && !Completes(op, s.entries[i].request.id) ==>
      Step(s, op).entries[i] == s.entries[i]
  {
    EntryAt(s, i);
    NotHandedOut(s, op, i);
    if Names(op, s.entries[i].request.id) {
      hide Inv, Issued, Complete, Pause, Resume, Cancel;
      match op
      case OpComplete(id, emitted, terminal) => CompleteOutcome(s, i, emitted, terminal);
      case OpPause(id) => PauseOutcome(s, i);
      case OpResume(id) => ResumeOutcome(s, i);
      case OpCancel(id) => CancelOutcome(s, i);
    }
  }

  /** Nothing is ever handed out again for a doomed sequence, and its output does not change. */
  lemma {:induction false} DoomedForever(s: Scheduler, ops: seq<Op>, i: nat)
    requires Inv(s) && i < |s.entries| && Doomed(s.entries[i])
    ensures i < |Run(s, ops).entries| && DoomedStep(s.entries[i], Run(s, ops).entries[i])
    ensures Doomed(Run(s, ops).entries[i])
    ensures History(s, ops, s.entries[i].request.id) == []
    ensures (forall k :: 0 <= k < |ops| ==> !Completes(ops[k], s.entries[i].request.id)) ==>
      s.entries[i].cancelPending ==> Run(s, ops).entries[i] == s.entries[i]
    decreases |ops|
  {
    if ops == [] {
    } else {
      var init, op := ops[..|ops| - 1], ops[|ops| - 1];
      DoomedForever(s, init, i);
      RunInv(s, init);
      hide Inv, Issued, Step;
      DoomedOnce(Run(s, init), op, i);
    }
  }

  /** The completion of a doomed entry is accepted if it reports anything, and cancels the entry as it stands. */
  ghost predicate CancelledBy(s: Scheduler, i: nat, outcome: (Scheduler, Status), reports: bool)
    requires i < |s.entries|
  {
    if reports then
      Replaces(s, outcome, i, s.entries[i].(inFlight := false, cancelPending := false, phase := Cancelled))
    else Refused(s, outcome)
  }

  lemma NextCompletionCancels(s: Scheduler, i: nat)
    requires Inv(s) && i < |s.entries| && s.entries[i].cancelPending
    ensures forall emitted: uint32, terminal: bool ::
      CancelledBy(s, i, Complete(s, s.entries[i].request.id, emitted, terminal), emitted > 0 || terminal)
  {
    EntryAt(s, i);
    hide Inv, Complete;
    forall emitted: uint32, terminal: bool
      ensures CancelledBy(s, i, Complete(s, s.entries[i].request.id, emitted, terminal), emitted > 0 || terminal)
    {
      CompleteOutcome(s, i, emitted, terminal);
    }
  }

  lemma CancelDooms(s: Scheduler, i: nat)
    requires Inv(s) && i < |s.entries| && s.entries[i].phase != Finished
    ensures var e := s.entries[i];
      var (cancelled, status) := Cancel(s, e.request.id);
      && status == Success(())
      && Inv(cancelled)
      && i < |cancelled.entries|
      && Doomed(cancelled.entries[i])
      && cancelled.entries[i].request == e.request
      && cancelled.entries[i].generatedTokens == e.generatedTokens
      && cancelled.entries[i].cancelPending == e.inFlight
  {
    StepInv(s, OpCancel(s.entries[i].request.id));
    CancelOutcome(s, i);
    EntryAt(s, i);
    hide Cancel, Inv;
  }

  /**
   * After a successful cancel nothing is handed out for the sequence on any later run, its output does not
   * change, and it is cancelled at once unless it was in flight.
   */
  lemma CancelIsFinal(s: Scheduler, i: nat, ops: seq<Op>)
    requires Inv(s) && i < |s.entries| && s.entries[i].phase != Finished
    ensures var e := s.entries[i];
      var (cancelled, status) := Cancel(s, e.request.id);
      && status == Success(())
      && Scannable(cancelled)
      && History(cancelled, ops, e.request.id) == []
      && i < |Run(cancelled, ops).entries|
      && Run(cancelled, ops).entries[i].generatedTokens == e.generatedTokens
      && (!e.inFlight ==> Run(cancelled, ops).entries[i].phase == Cancelled)
  {
    var cancelled := Cancel(s, s.entries[i].request.id).0;
    CancelDooms(s, i);
    assert Scannable(cancelled);
    hide Cancel, Inv, Run, History;
    DoomedForever(cancelled, ops, i);
  }

  /** A sequence cancelled in flight becomes cancelled at its next accepted completion, with the output it had. */
  lemma CancelAtCompletion(s: Scheduler, i: nat, ops: seq<Op>)
    requires Inv(s) && i < |s.entries| && s.entries[i].inFlight
    requires forall k :: 0 <= k < |ops| ==> !Completes(ops[k], s.entries[i].request.id)
    ensures var e := s.entries[i];
      var cancelled := Cancel(s, e.request.id).0;
      && Scannable(cancelled)
      && var s' := Run(cancelled, ops);
      && i < |s'.entries|
      && s'.entries[i] == e.(cancelPending := true)
      && forall emitted: uint32, terminal: bool ::
           CancelledBy(s', i, Complete(s', e.request.id, emitted, terminal), emitted > 0 || terminal)
  {
    var cancelled := Cancel(s, s.entries[i].request.id).0;
    EntryAt(s, i);
    CancelDooms(s, i);
    CancelOutcome(s, i);
    assert Scannable(cancelled);
    hide Cancel, Inv, Run, Complete;
    DoomedForever(cancelled, ops, i);
    RunInv(cancelled, ops);
    NextCompletionCancels(Run(cancelled, ops), i);
  }

  // ---------- The snapshot ----------

  /** The places of the entries of a kind. */
  ghost function Those(es: seq<Entry>, p: Entry -> bool): set<nat> {
    set i: nat | i < |es| && p(es[i])
  }

  lemma {:induction false} CountIsCardinality(es: seq<Entry>, p: Entry -> bool)
    ensures Count(es, p) == |Those(es, p)|
  {
    if es == [] {
    } else {
      var n := |es| - 1;
      CountIsCardinality(es[..n], p);
      assert Those(es, p) == Those(es[..n], p) + (if p(es[n]) then {n} else {});
    }
  }

  lemma CountAs(es: seq<Entry>, p: Entry -> bool, q: Entry -> bool)
    requires forall i :: 0 <= i < |es| ==> (p(es[i]) <==> q(es[i]))
    ensures Count(es, p) == |Those(es, q)|
  {
    CountIsCardinality(es, p);
    assert Those(es, p) == Those(es, q);
  }

  /** The numbers of the snapshot count the entries by what a caller would call them. */
  lemma SnapshotOutcome(s: Scheduler)
    requires Inv(s)
    ensures var v, es := SnapshotOf(s), s.entries;
      && v.generation == s.generation
      && v.sequenceCount == |es|
      && v.runnableCount == |Those(es, (e: Entry) => !e.inFlight && (e.phase == Queued || e.phase == Decoding))|
      && v.inFlightCount == |Those(es, (e: Entry) => e.inFlight)|
      && v.pausedCount == |Those(es, (e: Entry) => e.phase == Paused)|
      && v.finishedCount == |Those(es, (e: Entry) => e.phase == Finished)|
      && v.cancelledCount == |Those(es, (e: Entry) => e.phase == Cancelled)|
      && v.residentCount == |Those(es, (e: Entry) => e.phase != Finished && e.phase != Cancelled)|
  {
    var es := s.entries;
    assert forall i :: 0 <= i < |es| ==> EntryInv(es[i]);
    CountAs(es, (e: Entry) => IsRunnable(e), (e: Entry) => !e.inFlight && (e.phase == Queued || e.phase == Decoding));
    CountAs(es, (e: Entry) => e.inFlight, (e: Entry) => e.inFlight);
    CountAs(es, (e: Entry) => e.phase == Paused, (e: Entry) => e.phase == Paused);
    CountAs(es, (e: Entry) => e.phase == Finished, (e: Entry) => e.phase == Finished);
    CountAs(es, (e: Entry) => e.phase == Cancelled, (e: Entry) => e.phase == Cancelled);
    CountAs(es, (e: Entry) => !IsTerminal(e.phase), (e: Entry) => e.phase != Finished && e.phase != Cancelled);
  }
}
