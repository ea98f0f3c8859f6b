/** The scheduler itself: entries, scan index and generation, updated in place. */
module Scheduling {
  import opened Core
  import opened SchedulerState
  import opened SchedulerLifecycle

  method RingIndex(x: nat, n: nat) returns (index: nat)
    requires x < 2 * n
    ensures index == Wrap(x, n)
  {
    WrapIsRemainder(x, n);
    index := x % n;
  }

  lemma ScheduleInv(s: Scheduler, maximum: nat)
    requires Inv(s)
    ensures Scannable(s) && Inv(SchedulerState.Schedule(s, maximum).0)
  {
    hide SchedulerState.Schedule;
    StepInv(s, OpSchedule(maximum));
  }

  lemma SelectEnds(es: seq<Entry>, start: nat, offset: nat, room: nat)
    requires start < |es| && offset <= |es| && (offset == |es| || room == 0)
    ensures Select(es, start, offset, room) == []
  {
  }

  /** One step of the scan, behind what has been taken so far. */
  lemma SelectUnfolds(es: seq<Entry>, start: nat, offset: nat, room: nat, taken: seq<nat>)
    requires start < |es| && offset < |es| && room > 0
    ensures var index := Wrap(start + offset, |es|);
      taken + Select(es, start, offset, room) ==
        if IsRunnable(es[index]) then (taken + [index]) + Select(es, start, offset + 1, room - 1)
        else taken + Select(es, start, offset + 1, room)
  {
  }

  class SequenceScheduler {
    var entries: seq<Entry>
    var nextScanIndex: nat
    var generation: uint64

    ghost function Model(): Scheduler
      reads this
    {
      Scheduler(entries, nextScanIndex, generation)
    }

    ghost predicate Valid()
      reads this
    {
      Inv(Model())
    }

    constructor ()
      ensures Valid() && Model() == EMPTY
    {
      entries, nextScanIndex, generation := [], 0, 0;
    }

    method Enqueue(request: Request) returns (status: Status)
      requires Valid()
      modifies this
      ensures Valid()
      ensures (Model(), status) == SchedulerState.Enqueue(old(Model()), request)
    {
      StepInv(Model(), OpEnqueue(request));
      if request.id == 0 || request.promptTokens == 0 || request.maxOutputTokens == 0
        || request.promptTokens > U32_MAX - request.maxOutputTokens
        || EntryIndex(entries, request.id) < |entries|
      {
        return Failure(InvalidArgument);
      }
      entries := entries + [NewEntry(request)];
      return OK;
    }

    /** Walk the ring once from `start`, taking runnable entries until the batch is full. */
    method Scan(start: nat, limit: nat) returns (selected: seq<nat>)
      requires start < |entries|
      ensures selected == Select(entries, start, 0, limit)
    {
      hide Select, Wrap, IsRunnable;
      selected := [];
      var offset, es := 0, entries;
      while offset < |es| && |selected| < limit
        invariant 0 <= offset <= |es| && |selected| <= limit
        invariant selected + Select(es, start, offset, limit - |selected|) == Select(es, start, 0, limit)
      {
        var index := RingIndex(start + offset, |es|);
        SelectUnfolds(es, start, offset, limit - |selected|, selected);
        if IsRunnable(es[index]) {
          selected := selected + [index];
        }
        offset := offset + 1;
      }
      SelectEnds(es, start, offset, limit - |selected|);
    }

    method Describe(selected: seq<nat>) returns (items: seq<BatchItem>)
      requires forall k :: 0 <= k < |selected| ==> selected[k] < |entries|
      ensures items == ItemsFor(entries, selected)
    {
      items := [];
      for slot := 0 to |selected|
        invariant items == ItemsFor(entries, selected[..slot])
      {
        var entry := entries[selected[slot]];
        var work := if entry.phase == Queued then Prefill else Decode;
        items := items + [BatchItem(entry.request.id, work,
                                    (entry.request.promptTokens + entry.generatedTokens) % 0x1_0000_0000, slot)];
      }
      assert selected[..|selected|] == selected;
    }

    method MarkInFlight(selected: seq<nat>)
      requires forall k :: 0 <= k < |selected| ==> selected[k] < |entries|
      modifies this`entries
      ensures entries == LaunchAll(old(entries), selected)
    {
      for slot := 0 to |selected|
        invariant entries == LaunchAll(old(entries), selected[..slot])
      {
        var index := selected[slot];
        var work := if entries[index].phase == Queued then Prefill else Decode;
        assert selected[..slot + 1] == selected[..slot] + [index];
        entries := entries[index := entries[index].(inFlight := true, inFlightWork := work)];
      }
      assert selected[..|selected|] == selected;
    }

    /** Number the batch, put its entries in flight and move the scan behind the last of them. */
    method Dispatch(selected: seq<nat>) returns (batch: Batch)
      requires selected != [] && generation < U64_MAX
      requires forall k :: 0 <= k < |selected| ==> selected[k] < |entries|
      modifies this
      ensures batch == Batch(old(generation) + 1, ItemsFor(old(entries), selected))
      ensures Model() == Launched(old(Model()), selected)
    {
      var items := Describe(selected);
      batch := Batch(generation + 1, items);
      generation := batch.generation;
      MarkInFlight(selected);
      nextScanIndex := RingIndex(selected[|selected| - 1] + 1, |entries|);
    }

    method Schedule(maximum: nat) returns (result: Result<Batch>)
      requires Valid()
      modifies this
      ensures Valid()
      ensures (Model(), result) == SchedulerState.Schedule(old(Model()), maximum)
    {
      ghost var s := Model();
      hide Selected, LaunchAll, ItemsFor, Inv, Scannable;
      ScheduleInv(s, maximum);
      if maximum == 0 {
        return Failure(InvalidArgument);
      }
      var selected := Pick(maximum);
      if selected == [] {
        return Success(Batch(generation, []));
      }
      if generation == U64_MAX {
        return Failure(ArithmeticOverflow);
      }
      var batch := Dispatch(selected);
      return Success(batch);
    }

    /** The entries of the next batch, from the scan index on. */
    method Pick(maximum: nat) returns (selected: seq<nat>)
      requires Scannable(Model())
      ensures selected == Selected(Model(), maximum)
    {
      if entries == [] {
        return [];
      }
      var limit := if maximum < |entries| then maximum else |entries|;
      var start := RingIndex(nextScanIndex, |entries|);
      selected := Scan(start, limit);
    }

    method Complete(id: uint64, emitted: uint32, terminal: bool) returns (status: Status)
      requires Valid()
      modifies this
      ensures Valid()
      ensures (Model(), status) == SchedulerState.Complete(old(Model()), id, emitted, terminal)
    {
      StepInv(Model(), OpComplete(id, emitted, terminal));
      var i := EntryIndex(entries, id);
      if i == |entries| || !entries[i].inFlight || (emitted == 0 && !terminal) {
        return Failure(InvalidArgument);
      }
      var entry := entries[i];
      entries := entries[i := entry.(inFlight := false)];
      if entry.cancelPending {
        entries := entries[i := entries[i].(cancelPending := false, phase := Cancelled)];
        assert entries == old(entries)[i := entries[i]];
        return OK;
      }
      var remaining := (entry.request.maxOutputTokens - entry.generatedTokens) % 0x1_0000_0000;
      if emitted > remaining {
        entries := entries[i := entries[i].(inFlight := true)];
        assert entries == old(entries);
        return Failure(InvalidArgument);
      }
      var generated := (entry.generatedTokens + emitted) % 0x1_0000_0000;
      var phase := if terminal || generated == entry.request.maxOutputTokens then Finished else Decoding;
      entries := entries[i := entries[i].(generatedTokens := generated, phase := phase)];
      assert entries == old(entries)[i := entries[i]];
      return OK;
    }

    method Pause(id: uint64) returns (status: Status)
      requires Valid()
      modifies this
      ensures Valid()
      ensures (Model(), status) == SchedulerState.Pause(old(Model()), id)
    {
      StepInv(Model(), OpPause(id));
      var i := EntryIndex(entries, id);
      if i == |entries| || entries[i].inFlight || IsTerminal(entries[i].phase) {
        return Failure(InvalidArgument);
      }
      if entries[i].phase == Paused {
        assert entries[i := entries[i]] == entries;
        return OK;
      }
      entries := entries[i := entries[i].(resumePhase := entries[i].phase)];
      entries := entries[i := entries[i].(phase := Paused)];
      assert entries == old(entries)[i := entries[i]];
      return OK;
    }

    method Resume(id: uint64) returns (status: Status)
      requires Valid()
      modifies this
      ensures Valid()
      ensures (Model(), status) == SchedulerState.Resume(old(Model()), id)
    {
      StepInv(Model(), OpResume(id));
      var i := EntryIndex(entries, id);
      if i == |entries| || entries[i].phase != Paused {
        return Failure(InvalidArgument);
      }
      entries := entries[i := entries[i].(phase := entries[i].resumePhase)];
      return OK;
    }

    method Cancel(id: uint64) returns (status: Status)
      requires Valid()
      modifies this
      ensures Valid()
      ensures (Model(), status) == SchedulerState.Cancel(old(Model()), id)
    {
      StepInv(Model(), OpCancel(id));
      var i := EntryIndex(entries, id);
      if i == |entries| || entries[i].phase == Finished {
        return Failure(InvalidArgument);
      }
      if entries[i].phase == Cancelled {
        assert entries[i := entries[i]] == entries;
        return OK;
      }
      if entries[i].inFlight {
        entries := entries[i := entries[i].(cancelPending := true)];
        return OK;
      }
      entries := entries[i := entries[i].(phase := Cancelled)];
      return OK;
    }

    method Snapshot() returns (result: SchedulerState.Snapshot)
      ensures result == SnapshotOf(Model())
    {
      var resident, runnable, inFlight, paused, finished, cancelled := 0, 0, 0, 0, 0, 0;
      for i := 0 to |entries|
        invariant resident == Count(entries[..i], (e: Entry) => !IsTerminal(e.phase))
        invariant runnable == Count(entries[..i], (e: Entry) => IsRunnable(e))
        invariant inFlight == Count(entries[..i], (e: Entry) => e.inFlight)
        invariant paused == Count(entries[..i], (e: Entry) => e.phase == Paused)
        invariant finished == Count(entries[..i], (e: Entry) => e.phase == Finished)
        invariant cancelled == Count(entries[..i], (e: Entry) => e.phase == Cancelled)
      {
        var entry := entries[i];
        assert entries[..i + 1][..i] == entries[..i];
        inFlight := inFlight + if entry.inFlight then 1 else 0;
        paused := paused + if entry.phase == Paused then 1 else 0;
        finished := finished + if entry.phase == Finished then 1 else 0;
        cancelled := cancelled + if entry.phase == Cancelled then 1 else 0;
        resident := resident + if !IsTerminal(entry.phase) then 1 else 0;
        runnable := runnable + if IsRunnable(entry) then 1 else 0;
      }
      assert entries[..|entries|] == entries;
      return SchedulerState.Snapshot(generation, |entries|, resident, runnable, inFlight, paused, finished, cancelled);
    }
  }
}
