/** The per-sequence lifecycle, over every run. */
module SchedulerLifecycle {
  import opened Core
  import opened SchedulerState

  /** The phase that counts: a paused entry is judged by the phase it resumes to. */
  function ActivePhase(e: Entry): Phase { if e.phase == Paused then e.resumePhase else e.phase }

  ghost predicate EntryInv(e: Entry) {
    && e.request.id != 0
    && e.request.promptTokens > 0
    && e.request.maxOutputTokens > 0
    && e.request.promptTokens + e.request.maxOutputTokens <= U32_MAX
    && e.generatedTokens <= e.request.maxOutputTokens
    && ActivePhase(e) != Paused
    && (e.phase == Paused ==> !IsTerminal(e.resumePhase))
    && (ActivePhase(e) == Queued ==> e.generatedTokens == 0)
    && (ActivePhase(e) == Decoding ==> 0 < e.generatedTokens < e.request.maxOutputTokens)
    && (e.inFlight ==> e.phase == Queued || e.phase == Decoding)
    && (e.inFlight ==> e.inFlightWork == if e.phase == Queued then Prefill else Decode)
    && (e.cancelPending ==> e.inFlight)
  }

  ghost predicate Inv(s: Scheduler) {
    && Scannable(s)
    && (forall i :: 0 <= i < |s.entries| ==> EntryInv(s.entries[i]))
    && (forall i, j :: 0 <= i < j < |s.entries| ==> s.entries[i].request.id != s.entries[j].request.id)
  }

  /** What one operation can do to one entry. */
  ghost predicate EntryStep(e: Entry, e': Entry, launched: bool) {
    || (launched && IsRunnable(e) && e' == Launch(e))
    || (!launched &&
        (e' == e
         || (exists emitted: uint32, terminal: bool :: CompleteEntry(e, emitted, terminal) == Success(e'))
         || PauseEntry(e) == Success(e') || ResumeEntry(e) == Success(e') || CancelEntry(e) == Success(e')))
  }

  lemma DispatchedOk(s: Scheduler, op: Op)
    requires Scannable(s)
    ensures forall k :: 0 <= k < |Dispatched(s, op)| ==> IsRunnable(s.entries[Dispatched(s, op)[k]])
    ensures forall k, k' :: 0 <= k < k' < |Dispatched(s, op)| ==> Dispatched(s, op)[k] != Dispatched(s, op)[k']
  {
    if Dispatched(s, op) != [] {
      var limit := if op.maximum < |s.entries| then op.maximum else |s.entries|;
      SelectRunnable(s.entries, s.nextScanIndex, 0, limit);
      SelectInOrder(s.entries, s.nextScanIndex, 0, limit);
    }
  }

  /** Entries keep their place and take at most one lifecycle step per operation. */
  lemma {:induction false} StepEntry(s: Scheduler, op: Op, i: nat)
    requires Scannable(s) && i < |s.entries|
    ensures i < |Step(s, op).entries|
    ensures EntryStep(s.entries[i], Step(s, op).entries[i], i in Dispatched(s, op))
    ensures Step(s, op).entries[i].request == s.entries[i].request
  {
    match op
    case OpSchedule(maximum) => DispatchedOk(s, op);
    case OpComplete(id, emitted, terminal) =>
      assert EntryIndex(s.entries, id) == i ==>
        CompleteEntry(s.entries[i], emitted, terminal).Success? ==>
        CompleteEntry(s.entries[i], emitted, terminal) == Success(Step(s, op).entries[i]);
    case _ =>
  }

  lemma CompleteInv(e: Entry, emitted: uint32, terminal: bool)
    requires EntryInv(e) && CompleteEntry(e, emitted, terminal).Success?
    ensures EntryInv(CompleteEntry(e, emitted, terminal).value)
  {
  }

  lemma EntryStepInv(e: Entry, e': Entry, launched: bool)
    requires EntryInv(e) && EntryStep(e, e', launched)
    ensures EntryInv(e')
  {
    if emitted: uint32, terminal: bool :| CompleteEntry(e, emitted, terminal) == Success(e') {
      hide CompleteEntry;
      CompleteInv(e, emitted, terminal);
    } else if PauseEntry(e) == Success(e') {
    } else if ResumeEntry(e) == Success(e') {
    } else if CancelEntry(e) == Success(e') {
    }
  }

  lemma {:induction false} StepInv(s: Scheduler, op: Op)
    requires Inv(s)
    ensures Inv(Step(s, op))
  {
    var s' := Step(s, op);
    forall i | 0 <= i < |s.entries| ensures EntryInv(s'.entries[i]) && s'.entries[i].request == s.entries[i].request {
      StepEntry(s, op, i);
      EntryStepInv(s.entries[i], s'.entries[i], i in Dispatched(s, op));
    }
    assert |s'.entries| > |s.entries| ==> op.OpEnqueue? && s'.entries == s.entries + [NewEntry(op.request)];
  }

  lemma {:induction false} RunInv(s: Scheduler, ops: seq<Op>)
    requires Inv(s)
    ensures Inv(Run(s, ops))
    decreases |ops|
  {
    if ops == [] {
    } else {
      RunInv(s, ops[..|ops| - 1]);
      StepInv(Run(s, ops[..|ops| - 1]), ops[|ops| - 1]);
    }
  }

  /** Finished and cancelled entries never change again, whatever is called. */
  lemma {:induction false} TerminalForever(s: Scheduler, ops: seq<Op>, i: nat)
    requires Inv(s) && i < |s.entries| && IsTerminal(s.entries[i].phase)
    ensures i < |Run(s, ops).entries| && Run(s, ops).entries[i] == s.entries[i]
    decreases |ops|
  {
    if ops == [] {
    } else {
      var mid, op := Run(s, ops[..|ops| - 1]), ops[|ops| - 1];
      TerminalForever(s, ops[..|ops| - 1], i);
      RunInv(s, ops[..|ops| - 1]);
      StepEntry(mid, op, i);
    }
  }

  // ---------- The history of one sequence ----------

  function ItemsOf(items: seq<BatchItem>, id: uint64): seq<BatchItem> {
    if items == [] then []
    else ItemsOf(items[..|items| - 1], id) + (if items[|items| - 1].id == id then [items[|items| - 1]] else [])
  }

  /** Every item handed out for `id` along a run, in order. */
  function History(s: Scheduler, ops: seq<Op>, id: uint64): seq<BatchItem>
    requires Scannable(s)
    decreases |ops|
  {
    if ops == [] then []
    else
      var init := ops[..|ops| - 1];
      History(s, init, id) + ItemsOf(Issued(Run(s, init), ops[|ops| - 1]), id)
  }

  /** A well-formed history: one prefill, then decodes over strictly growing contexts. */
  ghost predicate WellFormed(h: seq<BatchItem>, r: Request) {
    && (forall k :: 0 <= k < |h| ==> h[k].id == r.id && h[k].work == if k == 0 then Prefill else Decode)
    && (h != [] ==> h[0].contextTokens == r.promptTokens)
    && (forall k, k' :: 0 <= k < k' < |h| ==> h[k].contextTokens < h[k'].contextTokens)
    && (forall k :: 0 <= k < |h| ==> h[k].contextTokens < r.promptTokens + r.maxOutputTokens)
    && |h| <= r.maxOutputTokens
  }

  /** How the history relates to where the entry stands now. */
  ghost predicate Tracks(h: seq<BatchItem>, e: Entry) {
    && WellFormed(h, e.request)
    && (ActivePhase(e) == Queued ==> |h| == if e.inFlight then 1 else 0)
    && (ActivePhase(e) == Decoding ==>
          && h != []
          && |h| <= e.generatedTokens + (if e.inFlight then 1 else 0)
          && (if e.inFlight then h[|h| - 1].contextTokens == e.request.promptTokens + e.generatedTokens
              else h[|h| - 1].contextTokens < e.request.promptTokens + e.generatedTokens))
  }

  lemma {:induction false} TracksStep(h: seq<BatchItem>, e: Entry, e': Entry)
    requires EntryInv(e) && Tracks(h, e) && EntryStep(e, e', false)
    ensures Tracks(h, e')
  {
  }

  lemma TracksLaunch(h: seq<BatchItem>, e: Entry, slot: nat)
    requires EntryInv(e) && Tracks(h, e) && IsRunnable(e)
    ensures Tracks(h + [ItemFor(e, slot)], Launch(e))
  {
    var context := e.request.promptTokens + e.generatedTokens;
    assert context <= U32_MAX;
    assert ItemFor(e, slot).contextTokens == context;
  }

  lemma ItemHere(es: seq<Entry>, selected: seq<nat>, k: nat)
    requires k < |selected| && forall k :: 0 <= k < |selected| ==> selected[k] < |es|
    ensures |ItemsFor(es, selected)| == |selected|
    ensures ItemsFor(es, selected)[k] == ItemFor(es[selected[k]], k)
    ensures ItemsFor(es, selected)[k].id == es[selected[k]].request.id
  {
  }

  /** A batch holds at most one item per sequence. */
  lemma {:induction false} ItemsOfBatch(es: seq<Entry>, selected: seq<nat>, n: nat, i: nat)
    requires n <= |selected| && i < |es|
    requires forall k :: 0 <= k < |selected| ==> selected[k] < |es|
    requires forall k, k' :: 0 <= k < k' < |selected| ==> selected[k] != selected[k']
    requires forall a, b :: 0 <= a < b < |es| ==> es[a].request.id != es[b].request.id
    ensures var items := ItemsOf(ItemsFor(es, selected)[..n], es[i].request.id);
      if i in selected[..n] then |items| == 1 && items[0] == ItemFor(es[i], items[0].slot) else items == []
  {
    if n == 0 {
    } else {
      var all := ItemsFor(es, selected);
      hide ItemsFor, ItemFor;
      ItemsOfBatch(es, selected, n - 1, i);
      assert |all| == |selected| by { ItemHere(es, selected, n - 1); }
      assert all[..n][..n - 1] == all[..n - 1];
      ItemHere(es, selected, n - 1);
      assert selected[..n] == selected[..n - 1] + [selected[n - 1]];
    }
  }

  lemma IssuedOf(s: Scheduler, op: Op, i: nat)
    requires Inv(s) && i < |s.entries|
    ensures var items := ItemsOf(Issued(s, op), s.entries[i].request.id);
      if i in Dispatched(s, op) then |items| == 1 && items[0] == ItemFor(s.entries[i], items[0].slot) else items == []
  {
    var selected := Dispatched(s, op);
    DispatchedOk(s, op);
    ItemsOfBatch(s.entries, selected, |selected|, i);
    assert ItemsFor(s.entries, selected)[..|selected|] == ItemsFor(s.entries, selected);
    assert selected[..|selected|] == selected;
  }

  lemma {:induction false} NoItemsOfStranger(items: seq<BatchItem>, id: uint64)
    requires forall k :: 0 <= k < |items| ==> items[k].id != id
    ensures ItemsOf(items, id) == []
  {
    if items == [] {
    } else {
      NoItemsOfStranger(items[..|items| - 1], id);
    }
  }

  lemma TracksOneStep(s: Scheduler, op: Op, h: seq<BatchItem>, i: nat)
    requires Inv(s) && i < |s.entries| && Tracks(h, s.entries[i])
    ensures i < |Step(s, op).entries|
    ensures Tracks(h + ItemsOf(Issued(s, op), s.entries[i].request.id), Step(s, op).entries[i])
  {
    var e, items := s.entries[i], ItemsOf(Issued(s, op), s.entries[i].request.id);
    StepEntry(s, op, i);
    IssuedOf(s, op, i);
    if i in Dispatched(s, op) {
      assert items == [ItemFor(e, items[0].slot)];
      TracksLaunch(h, e, items[0].slot);
    } else {
      assert h + items == h;
      TracksStep(h, e, Step(s, op).entries[i]);
    }
  }

  /** An entry that was not there has just been enqueued under an unknown id. */
  lemma Arrived(s: Scheduler, op: Op, i: nat)
    requires Scannable(s) && |s.entries| <= i < |Step(s, op).entries|
    ensures op.OpEnqueue? && Step(s, op).entries[i] == NewEntry(op.request)
    ensures EntryIndex(s.entries, op.request.id) == |s.entries|
    ensures ItemsOf(Issued(s, op), op.request.id) == [] && Tracks([], NewEntry(op.request))
  {
  }

  lemma {:induction false} HistoryTracks(ops: seq<Op>, i: nat)
    requires i < |Run(EMPTY, ops).entries|
    ensures Tracks(History(EMPTY, ops, Run(EMPTY, ops).entries[i].request.id), Run(EMPTY, ops).entries[i])
    decreases |ops|
  {
    hide Tracks, Step, Issued, ItemsOf;
    if ops == [] {
    } else {
      var init, op := ops[..|ops| - 1], ops[|ops| - 1];
      var s := Run(EMPTY, init);
      RunInv(EMPTY, init);
      if i < |s.entries| {
        HistoryTracks(init, i);
        StepEntry(s, op, i);
        TracksOneStep(s, op, History(EMPTY, init, s.entries[i].request.id), i);
      } else {
        Arrived(s, op, i);
        UnknownHasNoHistory(init, op.request.id);
        assert History(EMPTY, ops, op.request.id) == [] + [];
      }
    }
  }

  lemma {:induction false} UnknownHasNoHistory(ops: seq<Op>, id: uint64)
    requires EntryIndex(Run(EMPTY, ops).entries, id) == |Run(EMPTY, ops).entries|
    ensures History(EMPTY, ops, id) == []
    decreases |ops|
  {
    if ops == [] {
    } else {
      var init, op := ops[..|ops| - 1], ops[|ops| - 1];
      var s := Run(EMPTY, init);
      forall i | 0 <= i < |s.entries| ensures s.entries[i].request.id != id {
        StepEntry(s, op, i);
      }
      UnknownHasNoHistory(init, id);
      NoItemsOfStranger(Issued(s, op), id);
    }
  }

  /**
   * The lifecycle of every sequence over every run: one prefill first, over the prompt; then
   * decodes over strictly growing contexts that never reach prompt + maximum (so never overflow
   * 32 bits); no more dispatches than output tokens; and never more output than the maximum.
   */
  lemma Lifecycle(ops: seq<Op>, i: nat)
    requires i < |Run(EMPTY, ops).entries|
    ensures var e := Run(EMPTY, ops).entries[i];
      && WellFormed(History(EMPTY, ops, e.request.id), e.request)
      && e.request.promptTokens + e.request.maxOutputTokens <= U32_MAX
      && e.generatedTokens <= e.request.maxOutputTokens
  {
    HistoryTracks(ops, i);
    RunInv(EMPTY, ops);
    assert EntryInv(Run(EMPTY, ops).entries[i]);
  }

  // ---------- Failed operations ----------

  function StatusOf(s: Scheduler, op: Op): Status
    requires Scannable(s)
  {
    match op
    case OpEnqueue(request) => Enqueue(s, request).1
    case OpSchedule(maximum) =>
      if Schedule(s, maximum).1.Success? then OK else Failure(Schedule(s, maximum).1.error)
    case OpComplete(id, emitted, terminal) => Complete(s, id, emitted, terminal).1
    case OpPause(id) => Pause(s, id).1
    case OpResume(id) => Resume(s, id).1
    case OpCancel(id) => Cancel(s, id).1
  }

  /** The operations of a run that do not fail. */
  ghost function Succeeding(s: Scheduler, ops: seq<Op>): seq<Op>
    requires Scannable(s)
    decreases |ops|
  {
    if ops == [] then []
    else
      var init, last := ops[..|ops| - 1], ops[|ops| - 1];
      Succeeding(s, init) + (if StatusOf(Run(s, init), last).Failure? then [] else [last])
  }

  lemma FailedStep(s: Scheduler, op: Op, id: uint64)
    requires Scannable(s) && StatusOf(s, op).Failure?
    ensures Step(s, op) == s && ItemsOf(Issued(s, op), id) == []
  {
  }

  lemma HistorySnoc(s: Scheduler, ops: seq<Op>, op: Op, id: uint64)
    requires Scannable(s)
    ensures Run(s, ops + [op]) == Step(Run(s, ops), op)
    ensures History(s, ops + [op], id) == History(s, ops, id) + ItemsOf(Issued(Run(s, ops), op), id)
  {
    assert (ops + [op])[..|ops|] == ops;
  }

  /** Failed operations leave no trace: without them a run ends in the same state and hands out the same items. */
  lemma {:induction false} FailureChangesNothing(s: Scheduler, ops: seq<Op>, id: uint64)
    requires Scannable(s)
    ensures Run(s, Succeeding(s, ops)) == Run(s, ops)
    ensures History(s, Succeeding(s, ops), id) == History(s, ops, id)
    decreases |ops|
  {
    hide Step, StatusOf, Issued, ItemsOf;
    if ops == [] {
    } else {
      var init, last := ops[..|ops| - 1], ops[|ops| - 1];
      FailureChangesNothing(s, init, id);
      if StatusOf(Run(s, init), last).Failure? {
        FailedStep(Run(s, init), last, id);
        assert Succeeding(s, ops) == Succeeding(s, init);
        assert History(s, ops, id) == History(s, init, id) + [];
      } else {
        HistorySnoc(s, Succeeding(s, init), last, id);
      }
    }
  }

  // ---------- The snapshot ----------

  function Count(es: seq<Entry>, p: Entry -> bool): (n: nat)
    ensures n <= |es|
  {
    if es == [] then 0 else Count(es[..|es| - 1], p) + (if p(es[|es| - 1]) then 1 else 0)
  }

  function SnapshotOf(s: Scheduler): Snapshot {
    Snapshot(s.generation, |s.entries|,
             Count(s.entries, (e: Entry) => !IsTerminal(e.phase)),
             Count(s.entries, (e: Entry) => IsRunnable(e)),
             Count(s.entries, (e: Entry) => e.inFlight),
             Count(s.entries, (e: Entry) => e.phase == Paused),
             Count(s.entries, (e: Entry) => e.phase == Finished),
             Count(s.entries, (e: Entry) => e.phase == Cancelled))
  }

  lemma {:induction false} CountsAdd(es: seq<Entry>, p: Entry -> bool, q: Entry -> bool, r: Entry -> bool,
                                     whole: Entry -> bool)
    requires forall i :: 0 <= i < |es| ==>
      (whole(es[i]) <==> p(es[i]) || q(es[i]) || r(es[i]))
      && !(p(es[i]) && q(es[i])) && !(p(es[i]) && r(es[i])) && !(q(es[i]) && r(es[i]))
    ensures Count(es, p) + Count(es, q) + Count(es, r) == Count(es, whole)
  {
    if es == [] {
    } else {
      assert forall i :: 0 <= i < |es| - 1 ==> es[..|es| - 1][i] == es[i];
      CountsAdd(es[..|es| - 1], p, q, r, whole);
    }
  }

  lemma {:induction false} CountAll(es: seq<Entry>)
    ensures Count(es, (e: Entry) => true) == |es|
  {
    if es == [] {
    } else {
      CountAll(es[..|es| - 1]);
    }
  }

  /** Runnable, in flight and paused make up the residents; residents, finished and cancelled make up all. */
  lemma SnapshotAddsUp(ops: seq<Op>)
    ensures var v := SnapshotOf(Run(EMPTY, ops));
      && v.runnableCount + v.inFlightCount + v.pausedCount == v.residentCount
      && v.residentCount + v.finishedCount + v.cancelledCount == v.sequenceCount
  {
    RunInv(EMPTY, ops);
    var es := Run(EMPTY, ops).entries;
    assert forall i :: 0 <= i < |es| ==> EntryInv(es[i]);
    CountsAdd(es, (e: Entry) => IsRunnable(e), (e: Entry) => e.inFlight, (e: Entry) => e.phase == Paused,
              (e: Entry) => !IsTerminal(e.phase));
    CountsAdd(es, (e: Entry) => !IsTerminal(e.phase), (e: Entry) => e.phase == Finished,
              (e: Entry) => e.phase == Cancelled, (e: Entry) => true);
    CountAll(es);
  }
}
