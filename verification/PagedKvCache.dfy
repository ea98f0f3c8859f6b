/** The allocator itself: a page array and three owner lists, updated in place. */
module PagedKv {
  import opened Core
  import opened KvState
  import opened KvOwnership
  import opened KvInvariant
  import opened KvProperties
  import opened KvAccounting

  class PagedKvCache {
    const pages: array<Page>
    const tokensPerPage: uint32
    var sequences: seq<Sequence>
    var prefixes: seq<Prefix>
    var reservations: seq<Reservation>
    var nextReservationId: uint64

    ghost function Model(): Cache
      reads this, pages
    {
      Cache(pages[..], tokensPerPage, sequences, prefixes, reservations, nextReservationId)
    }

    ghost predicate Valid()
      reads this, pages
    {
      Inv(Model())
    }

    constructor (pageCount: uint32, tokensPerPage: uint32)
      requires pageCount > 0 && tokensPerPage > 0
      ensures Valid() && fresh(pages)
      ensures Model() == InitialCache(pageCount, tokensPerPage)
    {
      pages := new Page[pageCount](_ => FREE_PAGE);
      this.tokensPerPage := tokensPerPage;
      sequences, prefixes, reservations, nextReservationId := [], [], [], 1;
      new;
      assert pages[..] == InitialCache(pageCount, tokensPerPage).pages;
      InitialInv(pageCount, tokensPerPage);
    }

    static method Create(pageCount: uint32, tokensPerPage: uint32) returns (result: Result<PagedKvCache>)
      ensures result.Failure? <==> pageCount == 0 || tokensPerPage == 0
      ensures result.Failure? ==> result.error == InvalidArgument
      ensures result.Success? ==>
        fresh(result.value) && fresh(result.value.pages) && result.value.Valid()
        && result.value.Model() == InitialCache(pageCount, tokensPerPage)
    {
      if pageCount == 0 || tokensPerPage == 0 {
        return Failure(InvalidArgument);
      }
      var cache := new PagedKvCache(pageCount, tokensPerPage);
      return Success(cache);
    }

    /** The guard loop in front of every release: are all listed pages tagged `v`? */
    method CheckTags(ids: seq<nat>, v: Page) returns (ok: bool)
      ensures ok == AllTagged(pages[..], ids, v)
    {
      for k := 0 to |ids|
        invariant AllTagged(pages[..], ids[..k], v)
      {
        if ids[k] >= pages.Length || pages[ids[k]] != v {
          return false;
        }
        assert ids[..k + 1] == ids[..k] + [ids[k]];
      }
      assert ids[..|ids|] == ids;
      return true;
    }

    /** Retag the listed pages, one by one, in place. */
    method PaintPages(ids: seq<nat>, v: Page)
      requires forall k :: 0 <= k < |ids| ==> ids[k] < pages.Length
      modifies pages
      ensures pages[..] == Paint(old(pages[..]), ids, v)
    {
      for k := 0 to |ids|
        invariant pages[..] == Paint(old(pages[..]), ids[..k], v)
      {
        pages[ids[k]] := v;
        assert ids[..k + 1] == ids[..k] + [ids[k]];
      }
      assert ids[..|ids|] == ids;
    }

    method CreateSequence(sequenceId: uint64, prefixId: uint64) returns (status: Status)
      requires Valid()
      modifies this
      ensures Valid()
      ensures (Model(), status) == KvState.CreateSequence(old(Model()), sequenceId, prefixId)
    {
      CreateSequenceInv(Model(), sequenceId, prefixId);
      if sequenceId == 0 || SequenceIndex(sequences, sequenceId) < |sequences| {
        return Failure(InvalidArgument);
      }
      var i := PrefixIndex(prefixes, prefixId);
      if prefixId != 0 && (i == |prefixes| || prefixes[i].attachments == U64_MAX) {
        return Failure(InvalidArgument);
      }
      var tokens := if prefixId == 0 then 0 else prefixes[i].tokenCount;
      sequences := sequences + [Sequence(sequenceId, prefixId, tokens, tokens, [])];
      if prefixId != 0 {
        prefixes := prefixes[i := prefixes[i].(attachments := prefixes[i].attachments + 1)];
      }
      return OK;
    }

    method DestroySequence(sequenceId: uint64) returns (status: Status)
      requires Valid()
      modifies this, pages
      ensures Valid()
      ensures (Model(), status) == KvState.DestroySequence(old(Model()), sequenceId)
    {
      ghost var c := Model();
      DestroySequenceInv(c, sequenceId);
      Released(c, sequenceId);
      hide Inv, KvState.DestroySequence;
      status := CheckDestroy(sequenceId);
      if status == OK {
        var i := SequenceIndex(sequences, sequenceId);
        Release(i, PrefixIndex(prefixes, sequences[i].prefixId));
      }
    }

    /** The refusals, in order. */
    method CheckDestroy(sequenceId: uint64) returns (status: Status)
      ensures status == KvState.DestroySequence(Model(), sequenceId).1
      ensures status == OK ==>
        && HasSequence(Model(), sequenceId)
        && AllTagged(pages[..], SequenceOf(Model(), sequenceId).suffixPages, Page(MutableSequence, sequenceId))
    {
      var i := SequenceIndex(sequences, sequenceId);
      if i == |sequences| || PendingIndex(reservations, sequenceId) < |reservations| {
        return Failure(InvalidArgument);
      }
      var s := sequences[i];
      var j := PrefixIndex(prefixes, s.prefixId);
      if s.prefixId != 0 && (j == |prefixes| || prefixes[j].attachments == 0) {
        return Failure(InvalidFormat);
      }
      var tagged := CheckTags(s.suffixPages, Page(MutableSequence, sequenceId));
      status := if tagged then OK else Failure(InvalidFormat);
    }

    /** Free the pages of sequence `i`, detach it from prefix `j`, if it carries one, and erase it. */
    method Release(i: nat, j: nat)
      requires i < |sequences| && AllTagged(pages[..], sequences[i].suffixPages, Page(MutableSequence, sequences[i].id))
      requires sequences[i].prefixId != 0 ==> j < |prefixes| && prefixes[j].attachments > 0
      modifies this, pages
      ensures Model() == old(Model()).(
        pages := Paint(old(pages[..]), old(sequences[i].suffixPages), FREE_PAGE),
        sequences := RemoveAt(old(sequences), i),
        prefixes := if old(sequences[i].prefixId) == 0 then old(prefixes)
                    else old(prefixes)[j := old(prefixes)[j].(attachments := old(prefixes)[j].attachments - 1)])
    {
      PaintPages(sequences[i].suffixPages, FREE_PAGE);
      if sequences[i].prefixId != 0 {
        prefixes := prefixes[j := prefixes[j].(attachments := prefixes[j].attachments - 1)];
      }
      sequences := RemoveAt(sequences, i);
    }

    /** Scan for free pages in page order until enough are found. */
    method CollectFree(want: nat) returns (selected: seq<nat>)
      ensures selected == SelectFree(pages[..], 0, want)
    {
      selected := [];
      var index := 0;
      while index < pages.Length && |selected| < want
        invariant 0 <= index <= pages.Length && |selected| <= want
        invariant selected + SelectFree(pages[..], index, want - |selected|) == SelectFree(pages[..], 0, want)
      {
        if pages[index].state == Free {
          selected := selected + [index];
        }
        index := index + 1;
      }
    }

    method Reserve(sequenceId: uint64, targetTokens: uint32) returns (result: Result<Reservation>)
      requires Valid()
      modifies this, pages
      ensures Valid()
      ensures HasSequence(old(Model()), sequenceId) ==>
        SequenceOf(old(Model()), sequenceId).prefixTokens <= SequenceOf(old(Model()), sequenceId).totalTokens
      ensures (Model(), result) == KvState.Reserve(old(Model()), sequenceId, targetTokens)
    {
      ghost var c := Model();
      ReserveReady(c, sequenceId);
      ReserveInv(c, sequenceId, targetTokens);
      hide Inv, SelectFree, PagesFor, NewPages, ReserveRejected;
      var needed := PagesToAdd(sequenceId, targetTokens);
      if needed.Failure? {
        return Failure(InvalidArgument);
      }
      var newPageCount := needed.value;
      var selected := CollectFree(newPageCount);
      if |selected| != newPageCount {
        return Failure(InsufficientMemory);
      }
      assert forall k :: 0 <= k < |selected| ==> selected[k] < pages.Length by {
        SelectFreeFromStart(pages[..], newPageCount);
      }
      var reservation := Grant(sequenceId, targetTokens, selected);
      return Success(reservation);
    }

    /** Check a request and count the pages it needs beside those the sequence has. */
    method PagesToAdd(sequenceId: uint64, targetTokens: uint32) returns (r: Result<nat>)
      requires tokensPerPage > 0
      requires HasSequence(Model(), sequenceId) ==>
        SequenceOf(Model(), sequenceId).prefixTokens <= SequenceOf(Model(), sequenceId).totalTokens
      ensures r.Failure? <==> ReserveRejected(Model(), sequenceId, targetTokens)
      ensures r.Success? ==> r.value == NewPages(SequenceOf(Model(), sequenceId), targetTokens, tokensPerPage)
    {
      var i := SequenceIndex(sequences, sequenceId);
      if i == |sequences| || PendingIndex(reservations, sequenceId) < |reservations|
        || targetTokens < sequences[i].totalTokens || nextReservationId == 0
      {
        return Failure(InvalidArgument);
      }
      var suffixTokens := targetTokens - sequences[i].prefixTokens;
      var required := (suffixTokens + tokensPerPage - 1) / tokensPerPage;
      PagesForIsCeiling(suffixTokens, tokensPerPage);
      var existing := |sequences[i].suffixPages|;
      return Success(if required > existing then required - existing else 0);
    }

    /** Tag the pages, record the reservation under the next id, and advance the 64-bit counter. */
    method Grant(sequenceId: uint64, targetTokens: uint32, selected: seq<nat>) returns (reservation: Reservation)
      requires forall k :: 0 <= k < |selected| ==> selected[k] < pages.Length
      modifies this, pages
      ensures reservation == Reservation(old(nextReservationId), sequenceId, targetTokens, selected)
      ensures Model() == old(Model()).(
        pages := Paint(old(pages[..]), selected, Page(Reserved, reservation.id)),
        reservations := old(reservations) + [reservation],
        nextReservationId := if reservation.id == U64_MAX then 0 else reservation.id + 1)
    {
      var id := nextReservationId;
      reservation := Reservation(id, sequenceId, targetTokens, selected);
      PaintPages(selected, Page(Reserved, id));
      reservations := reservations + [reservation];
      nextReservationId := if id == U64_MAX then 0 else id + 1;
    }

    method Commit(reservationId: uint64) returns (status: Status)
      requires Valid()
      modifies this, pages
      ensures Valid()
      ensures (Model(), status) == KvState.Commit(old(Model()), reservationId)
    {
      CommitInv(Model(), reservationId);
      var k := ReservationIndex(reservations, reservationId);
      if k == |reservations| {
        return Failure(InvalidArgument);
      }
      var r := reservations[k];
      var i := SequenceIndex(sequences, r.sequenceId);
      if i == |sequences| {
        return Failure(InvalidFormat);
      }
      var tagged := CheckTags(r.pages, Page(Reserved, reservationId));
      if !tagged {
        return Failure(InvalidFormat);
      }
      var s := sequences[i];
      sequences := sequences[i := s.(suffixPages := s.suffixPages + r.pages, totalTokens := r.targetTokens)];
      PaintPages(r.pages, Page(MutableSequence, s.id));
      reservations := RemoveAt(reservations, k);
      return OK;
    }

    method Rollback(reservationId: uint64) returns (status: Status)
      requires Valid()
      modifies this, pages
      ensures Valid()
      ensures (Model(), status) == KvState.Rollback(old(Model()), reservationId)
    {
      RollbackInv(Model(), reservationId);
      var k := ReservationIndex(reservations, reservationId);
      if k == |reservations| {
        return Failure(InvalidArgument);
      }
      var tagged := CheckTags(reservations[k].pages, Page(Reserved, reservationId));
      if !tagged {
        return Failure(InvalidFormat);
      }
      PaintPages(reservations[k].pages, FREE_PAGE);
      reservations := RemoveAt(reservations, k);
      return OK;
    }

    method PublishPrefix(prefixId: uint64, sequenceId: uint64) returns (status: Status)
      requires Valid()
      modifies this, pages
      ensures Valid()
      ensures (Model(), status) == KvState.PublishPrefix(old(Model()), prefixId, sequenceId)
    {
      PublishPrefixInv(Model(), prefixId, sequenceId);
      var i := SequenceIndex(sequences, sequenceId);
      if prefixId == 0 || i == |sequences| || PrefixIndex(prefixes, prefixId) < |prefixes|
        || sequences[i].prefixId != 0 || sequences[i].totalTokens == 0 || sequences[i].suffixPages == []
        || PendingIndex(reservations, sequenceId) < |reservations|
      {
        return Failure(InvalidArgument);
      }
      var s := sequences[i];
      var tagged := CheckTags(s.suffixPages, Page(MutableSequence, sequenceId));
      if !tagged {
        return Failure(InvalidFormat);
      }
      prefixes := prefixes + [Prefix(prefixId, s.totalTokens, 1, s.suffixPages)];
      PaintPages(s.suffixPages, Page(ImmutablePrefix, prefixId));
      sequences := sequences[i := s.(prefixId := prefixId, prefixTokens := s.totalTokens, suffixPages := [])];
      return OK;
    }

    method DestroyPrefix(prefixId: uint64) returns (status: Status)
      requires Valid()
      modifies this, pages
      ensures Valid()
      ensures (Model(), status) == KvState.DestroyPrefix(old(Model()), prefixId)
    {
      DestroyPrefixInv(Model(), prefixId);
      var j := PrefixIndex(prefixes, prefixId);
      if j == |prefixes| || prefixes[j].attachments != 0 {
        return Failure(InvalidArgument);
      }
      var tagged := CheckTags(prefixes[j].pages, Page(ImmutablePrefix, prefixId));
      if !tagged {
        return Failure(InvalidFormat);
      }
      PaintPages(prefixes[j].pages, FREE_PAGE);
      prefixes := RemoveAt(prefixes, j);
      return OK;
    }

    /** The table that maps a sequence's tokens to pages: prefix pages, then its own. */
    method Table(sequenceId: uint64) returns (result: Result<PageTable>)
      requires Valid()
      ensures result.Failure? <==> !HasSequence(Model(), sequenceId)
      ensures result.Failure? ==> result.error == InvalidArgument
      ensures result.Success? ==>
        var s := SequenceOf(Model(), sequenceId);
        result.value == PageTable(sequenceId, s.prefixId, s.prefixTokens, s.totalTokens,
                                  |SharedPages(Model(), sequenceId)|, TablePages(Model(), sequenceId))
    {
      var i := SequenceIndex(sequences, sequenceId);
      if i == |sequences| {
        return Failure(InvalidArgument);
      }
      var s := sequences[i];
      var j := PrefixIndex(prefixes, s.prefixId);
      assert s.prefixId != 0 ==> j < |prefixes| by {
        if s.prefixId != 0 { CarriedPrefix(Model(), s); }
      }
      if s.prefixId != 0 && j == |prefixes| {
        return Failure(InvalidFormat);
      }
      var shared := if s.prefixId == 0 then [] else prefixes[j].pages;
      assert shared == SharedPages(Model(), sequenceId);
      assert |shared| <= U32_MAX by {
        if s.prefixId != 0 { PrefixFits(Model(), j); }
      }
      return Success(PageTable(sequenceId, s.prefixId, s.prefixTokens, s.totalTokens,
                               |shared| % 0x1_0000_0000, shared + s.suffixPages));
    }

    /** Does the page's owner exist and list it? */
    function OwnerIsValid(p: nat): (ok: bool)
      reads this, pages
      requires p < pages.Length
    {
      var page := pages[p];
      match page.state
      case Free => page.owner == 0
      case Reserved =>
        var k := ReservationIndex(reservations, page.owner);
        k < |reservations| && p in reservations[k].pages
      case MutableSequence =>
        var i := SequenceIndex(sequences, page.owner);
        i < |sequences| && p in sequences[i].suffixPages
      case ImmutablePrefix =>
        var j := PrefixIndex(prefixes, page.owner);
        j < |prefixes| && p in prefixes[j].pages
    }

    lemma OwnersAreValid(p: nat)
      requires Valid() && p < pages.Length
      ensures OwnerIsValid(p)
    {
      var c := Model();
      UniqueSequences(c);
      UniquePrefixes(c);
      UniqueReservations(c);
      match c.pages[p].state {
        case Free =>
        case Reserved =>
          var hs := ReservationHoldings(reservations);
          var k :| 0 <= k < |hs| && hs[k].id == c.pages[p].owner && p in hs[k].pages;
          assert ReservationIndex(reservations, reservations[k].id) == k;
        case MutableSequence =>
          var hs := SequenceHoldings(sequences);
          var k :| 0 <= k < |hs| && hs[k].id == c.pages[p].owner && p in hs[k].pages;
          assert SequenceIndex(sequences, sequences[k].id) == k;
        case ImmutablePrefix =>
          var hs := PrefixHoldings(prefixes);
          var k :| 0 <= k < |hs| && hs[k].id == c.pages[p].owner && p in hs[k].pages;
          assert PrefixIndex(prefixes, prefixes[k].id) == k;
      }
    }

    method CountPages() returns (ok: bool, free: nat, pending: nat, mutable: nat, shared: nat)
      requires Valid()
      ensures ok
      ensures free == CountState(pages[..], Free) && pending == CountState(pages[..], Reserved)
      ensures mutable == CountState(pages[..], MutableSequence) && shared == CountState(pages[..], ImmutablePrefix)
    {
      free, pending, mutable, shared := 0, 0, 0, 0;
      for p := 0 to pages.Length
        invariant free == CountState(pages[..p], Free) && pending == CountState(pages[..p], Reserved)
        invariant mutable == CountState(pages[..p], MutableSequence)
        invariant shared == CountState(pages[..p], ImmutablePrefix)
      {
        assert pages[..p + 1][..p] == pages[..p];
        match pages[p].state {
          case Free => free := free + 1;
          case Reserved => pending := pending + 1;
          case MutableSequence => mutable := mutable + 1;
          case ImmutablePrefix => shared := shared + 1;
        }
        OwnersAreValid(p);
        if !OwnerIsValid(p) {
          return false, free, pending, mutable, shared;
        }
      }
      assert pages[..pages.Length] == pages[..];
      ok := true;
    }

    method SumAttachments() returns (result: Result<uint64>)
      ensures result == if Attachments(prefixes) > U64_MAX then Failure(ArithmeticOverflow)
                        else Success(Attachments(prefixes))
    {
      var total: uint64 := 0;
      for j := 0 to |prefixes|
        invariant total == Attachments(prefixes[..j])
      {
        assert prefixes[..j + 1][..j] == prefixes[..j];
        if total > U64_MAX - prefixes[j].attachments {
          AttachmentsGrow(prefixes, j + 1);
          return Failure(ArithmeticOverflow);
        }
        total := total + prefixes[j].attachments;
      }
      assert prefixes[..|prefixes|] == prefixes;
      return Success(total);
    }

    method SumTokens() returns (result: Result<(uint64, uint64)>)
      requires Valid()
      ensures var reserved := ReservedTokens(sequences, prefixes, tokensPerPage);
        result == if Payload(sequences) > U64_MAX || reserved > U64_MAX then Failure(ArithmeticOverflow)
                  else Success((Payload(sequences), reserved))
    {
      var payload: uint64, reserved: uint64 := 0, 0;
      for i := 0 to |sequences|
        invariant payload == Payload(sequences[..i])
        invariant reserved == ReservedTokens(sequences[..i], prefixes, tokensPerPage)
      {
        var s := sequences[i];
        assert sequences[..i + 1][..i] == sequences[..i];
        TokensGrow(sequences, prefixes, tokensPerPage, i + 1);
        if payload > U64_MAX - s.totalTokens {
          return Failure(ArithmeticOverflow);
        }
        payload := payload + s.totalTokens;
        var j := PrefixIndex(prefixes, s.prefixId);
        if s.prefixId != 0 && j == |prefixes| {
          CarriedPrefix(Model(), s);
          return Failure(InvalidFormat);
        }
        var logicalPages := |s.suffixPages| + (if s.prefixId == 0 then 0 else |prefixes[j].pages|);
        assert logicalPages == LogicalPages(s, prefixes);
        var capacity := Capacity(logicalPages, tokensPerPage);
        if capacity > U64_MAX || reserved > U64_MAX - capacity {
          return Failure(ArithmeticOverflow);
        }
        reserved := reserved + capacity;
      }
      assert sequences[..|sequences|] == sequences;
      return Success((payload, reserved));
    }

    method Metrics() returns (result: Result<Metrics>)
      requires Valid()
      ensures result == MetricsOf(Model())
    {
      ghost var c := Model();
      AttachmentsFit(c);
      hide Inv, CountState, Attachments, Payload, ReservedTokens, MetricsOf;
      var ok, free, pending, mutable, shared := CountPages();
      if !ok {
        return Failure(InvalidFormat);
      }
      var attachments := SumAttachments();
      if attachments.Failure? {
        return Failure(ArithmeticOverflow);
      }
      result := Total(free, pending, mutable, shared, attachments.value);
    }

    /** The token totals, and the record. */
    method Total(free: nat, pending: nat, mutable: nat, shared: nat, attachments: nat) returns (result: Result<Metrics>)
      requires Valid()
      requires free == CountState(pages[..], Free) && pending == CountState(pages[..], Reserved)
      requires mutable == CountState(pages[..], MutableSequence) && shared == CountState(pages[..], ImmutablePrefix)
      requires attachments == Attachments(prefixes)
      ensures result == MetricsOf(Model())
    {
      PayloadFits(Model());
      CommittedFits(Model());
      hide Inv, CountState, Attachments, Payload, ReservedTokens, Capacity;
      var tokens := SumTokens();
      if tokens.Failure? {
        return Failure(tokens.error);
      }
      var (payload, reserved) := tokens.value;
      if payload > reserved {
        return Failure(InvalidFormat);
      }
      var fragmentation := reserved - payload;
      var committed := Capacity(mutable + shared, tokensPerPage);
      if committed > U64_MAX {
        return Failure(ArithmeticOverflow);
      }
      return Success(KvAccounting.Metrics(pages.Length, free, pending, mutable, shared, |sequences|, |prefixes|,
                                          attachments, payload, reserved, fragmentation, committed));
    }
  }

  /** What destroying a sequence does, when it is not refused. */
  lemma Released(c: Cache, sequenceId: uint64)
    ensures var (c', status) := KvState.DestroySequence(c, sequenceId);
      if status.Failure? then c' == c
      else
        && HasSequence(c, sequenceId)
        && var s := SequenceOf(c, sequenceId);
           var j := PrefixIndex(c.prefixes, s.prefixId);
           && (s.prefixId != 0 ==> j < |c.prefixes| && c.prefixes[j].attachments > 0)
           && c' == c.(
                pages := Paint(c.pages, s.suffixPages, FREE_PAGE),
                sequences := RemoveAt(c.sequences, SequenceIndex(c.sequences, sequenceId)),
                prefixes := if s.prefixId == 0 then c.prefixes
                            else c.prefixes[j := c.prefixes[j].(attachments := c.prefixes[j].attachments - 1)])
  {
  }

  lemma {:induction false} AttachmentsGrow(ps: seq<Prefix>, n: nat)
    requires n <= |ps|
    ensures Attachments(ps[..n]) <= Attachments(ps)
    decreases |ps| - n
  {
    if n < |ps| {
      assert ps[..n + 1][..n] == ps[..n];
      AttachmentsGrow(ps, n + 1);
    } else {
      assert ps[..n] == ps;
    }
  }

  lemma {:induction false} TokensGrow(ss: seq<Sequence>, ps: seq<Prefix>, tpp: nat, n: nat)
    requires n <= |ss|
    ensures Payload(ss[..n]) <= Payload(ss) && ReservedTokens(ss[..n], ps, tpp) <= ReservedTokens(ss, ps, tpp)
    decreases |ss| - n
  {
    if n < |ss| {
      assert ss[..n + 1][..n] == ss[..n];
      TokensGrow(ss, ps, tpp, n + 1);
    } else {
      assert ss[..n] == ss;
    }
  }
}
