/** The allocator's state as a value, and each operation as a function on it. */
module KvState {
  import opened Core
  import opened Counting

  datatype PageState = Free | Reserved | MutableSequence | ImmutablePrefix

  datatype Page = Page(state: PageState, owner: uint64)

  const FREE_PAGE := Page(Free, 0)

  datatype Sequence = Sequence(
    id: uint64,
    prefixId: uint64,
    prefixTokens: uint32,
    totalTokens: uint32,
    suffixPages: seq<nat>)

  datatype Prefix = Prefix(id: uint64, tokenCount: uint32, attachments: uint64, pages: seq<nat>)

  datatype Reservation = Reservation(id: uint64, sequenceId: uint64, targetTokens: uint32, pages: seq<nat>)

  datatype PageTable = PageTable(
    sequenceId: uint64,
    prefixId: uint64,
    prefixTokens: uint32,
    totalTokens: uint32,
    sharedPrefixPages: nat,
    pages: seq<nat>)

  datatype Cache = Cache(
    pages: seq<Page>,
    tokensPerPage: uint32,
    sequences: seq<Sequence>,
    prefixes: seq<Prefix>,
    reservations: seq<Reservation>,
    nextReservationId: uint64)

  // ---------- Lookups (the source's find_if helpers) ----------

  function SequenceIndex(ss: seq<Sequence>, id: uint64): (i: nat)
    ensures i <= |ss|
    ensures i < |ss| ==> ss[i].id == id
    ensures forall j :: 0 <= j < i ==> ss[j].id != id
  {
    if ss == [] || ss[0].id == id then 0 else 1 + SequenceIndex(ss[1..], id)
  }

  function PrefixIndex(ps: seq<Prefix>, id: uint64): (i: nat)
    ensures i <= |ps|
    ensures i < |ps| ==> ps[i].id == id
    ensures forall j :: 0 <= j < i ==> ps[j].id != id
  {
    if ps == [] || ps[0].id == id then 0 else 1 + PrefixIndex(ps[1..], id)
  }

  function ReservationIndex(rs: seq<Reservation>, id: uint64): (i: nat)
    ensures i <= |rs|
    ensures i < |rs| ==> rs[i].id == id
    ensures forall j :: 0 <= j < i ==> rs[j].id != id
  {
    if rs == [] || rs[0].id == id then 0 else 1 + ReservationIndex(rs[1..], id)
  }

  /** The pending reservation of a sequence, if any. */
  function PendingIndex(rs: seq<Reservation>, sequenceId: uint64): (i: nat)
    ensures i <= |rs|
    ensures i < |rs| ==> rs[i].sequenceId == sequenceId
    ensures forall j :: 0 <= j < i ==> rs[j].sequenceId != sequenceId
  {
    if rs == [] || rs[0].sequenceId == sequenceId then 0 else 1 + PendingIndex(rs[1..], sequenceId)
  }

  predicate HasSequence(c: Cache, id: uint64) { SequenceIndex(c.sequences, id) < |c.sequences| }

  predicate HasPrefix(c: Cache, id: uint64) { PrefixIndex(c.prefixes, id) < |c.prefixes| }

  predicate HasReservation(c: Cache, id: uint64) { ReservationIndex(c.reservations, id) < |c.reservations| }

  predicate HasPending(c: Cache, sequenceId: uint64) { PendingIndex(c.reservations, sequenceId) < |c.reservations| }

  function SequenceOf(c: Cache, id: uint64): (s: Sequence)
    requires HasSequence(c, id)
  {
    c.sequences[SequenceIndex(c.sequences, id)]
  }

  function PrefixOf(c: Cache, id: uint64): (p: Prefix)
    requires HasPrefix(c, id)
  {
    c.prefixes[PrefixIndex(c.prefixes, id)]
  }

  function ReservationOf(c: Cache, id: uint64): (r: Reservation)
    requires HasReservation(c, id)
  {
    c.reservations[ReservationIndex(c.reservations, id)]
  }

  // ---------- Page arithmetic ----------

  /** Tokens that `pageCount` pages hold. */
  function Capacity(pageCount: nat, tokensPerPage: nat): nat {
    tokensPerPage * pageCount
  }

  lemma CapacityAdds(a: nat, b: nat, tokensPerPage: nat)
    ensures Capacity(a + b, tokensPerPage) == Capacity(a, tokensPerPage) + Capacity(b, tokensPerPage)
  {
  }

  /** Pages that hold `tokens` tokens, filling page after page. */
  function PagesFor(tokens: nat, tokensPerPage: nat): nat
    requires tokensPerPage > 0
    decreases tokens
  {
    if tokens == 0 then 0
    else if tokens <= tokensPerPage then 1
    else 1 + PagesFor(tokens - tokensPerPage, tokensPerPage)
  }

  /** The source computes the same number as a rounded-up quotient. */
  lemma {:induction false} PagesForIsCeiling(tokens: nat, tokensPerPage: nat)
    requires tokensPerPage > 0
    ensures PagesFor(tokens, tokensPerPage) == (tokens + tokensPerPage - 1) / tokensPerPage
    decreases tokens
  {
    var tpp := tokensPerPage;
    if tokens == 0 {
      QuotientIs(tpp - 1, tpp, 0);
    } else if tokens <= tpp {
      QuotientIs(tokens + tpp - 1, tpp, 1);
    } else {
      PagesForIsCeiling(tokens - tpp, tpp);
      QuotientShift(tokens - 1, tpp);
    }
  }

  lemma QuotientShift(x: nat, d: nat)
    requires d > 0
    ensures (x + d) / d == x / d + 1
  {
    var q := x / d;
    assert x == q * d + x % d;
    assert (q + 1) * d == q * d + d;
    QuotientIs(x + d, d, q + 1);
  }

  function RemoveAt<T>(s: seq<T>, i: nat): (r: seq<T>)
    requires i < |s|
  {
    s[..i] + s[i + 1..]
  }

  /** `pages` with every page listed in `ids` set to `v`. */
  function Paint(pages: seq<Page>, ids: seq<nat>, v: Page): (r: seq<Page>) {
    seq(|pages|, p requires 0 <= p < |pages| => if p in ids then v else pages[p])
  }

  /** Every listed page exists and carries the tag `v`: the source's corruption guard. */
  predicate AllTagged(pages: seq<Page>, ids: seq<nat>, v: Page) {
    forall k :: 0 <= k < |ids| ==> ids[k] < |pages| && pages[ids[k]] == v
  }

  /** The first `want` free pages at or after `from`, in page order. */
  function SelectFree(pages: seq<Page>, from: nat, want: nat): (r: seq<nat>)
    requires from <= |pages|
    decreases |pages| - from
  {
    if from == |pages| || want == 0 then []
    else if pages[from].state == Free then [from] + SelectFree(pages, from + 1, want - 1)
    else SelectFree(pages, from + 1, want)
  }

  // ---------- Operations ----------

  function InitialCache(pageCount: uint32, tokensPerPage: uint32): Cache {
    Cache(seq(pageCount, _ => FREE_PAGE), tokensPerPage, [], [], [], 1)
  }

  function CreateSequence(c: Cache, sequenceId: uint64, prefixId: uint64): (Cache, Status) {
    if sequenceId == 0 || HasSequence(c, sequenceId) then (c, Failure(InvalidArgument))
    else if prefixId == 0 then
      (c.(sequences := c.sequences + [Sequence(sequenceId, 0, 0, 0, [])]), OK)
    else if !HasPrefix(c, prefixId) || PrefixOf(c, prefixId).attachments == U64_MAX then
      (c, Failure(InvalidArgument))
    else
      var i := PrefixIndex(c.prefixes, prefixId);
      var p := c.prefixes[i];
      (c.(sequences := c.sequences + [Sequence(sequenceId, prefixId, p.tokenCount, p.tokenCount, [])],
          prefixes := c.prefixes[i := p.(attachments := p.attachments + 1)]), OK)
  }

  function DestroySequence(c: Cache, sequenceId: uint64): (Cache, Status) {
    if !HasSequence(c, sequenceId) || HasPending(c, sequenceId) then (c, Failure(InvalidArgument))
    else
      var i := SequenceIndex(c.sequences, sequenceId);
      var s := c.sequences[i];
      if s.prefixId != 0 && (!HasPrefix(c, s.prefixId) || PrefixOf(c, s.prefixId).attachments == 0) then
        (c, Failure(InvalidFormat))
      else if !AllTagged(c.pages, s.suffixPages, Page(MutableSequence, sequenceId)) then
        (c, Failure(InvalidFormat))
      else
        var j := PrefixIndex(c.prefixes, s.prefixId);
        (c.(pages := Paint(c.pages, s.suffixPages, FREE_PAGE),
            sequences := RemoveAt(c.sequences, i),
            prefixes := if s.prefixId == 0 then c.prefixes
                        else c.prefixes[j := c.prefixes[j].(attachments := c.prefixes[j].attachments - 1)]), OK)
  }

  /** Pages that a reservation of `targetTokens` for `s` has to add. */
  function NewPages(s: Sequence, targetTokens: nat, tokensPerPage: nat): nat
    requires tokensPerPage > 0 && targetTokens >= s.prefixTokens
  {
    var required := PagesFor(targetTokens - s.prefixTokens, tokensPerPage);
    if required > |s.suffixPages| then required - |s.suffixPages| else 0
  }

  predicate ReserveRejected(c: Cache, sequenceId: uint64, targetTokens: uint32) {
    !HasSequence(c, sequenceId) || HasPending(c, sequenceId) ||
    targetTokens < SequenceOf(c, sequenceId).totalTokens || c.nextReservationId == 0
  }

  /** The id counter is 64 bits wide and wraps to 0, after which no reservation is granted. */
  function Reserve(c: Cache, sequenceId: uint64, targetTokens: uint32): (Cache, Result<Reservation>)
    requires c.tokensPerPage > 0
    requires HasSequence(c, sequenceId) ==>
      SequenceOf(c, sequenceId).prefixTokens <= SequenceOf(c, sequenceId).totalTokens
  {
    if ReserveRejected(c, sequenceId, targetTokens) then (c, Failure(InvalidArgument))
    else
      var want := NewPages(SequenceOf(c, sequenceId), targetTokens, c.tokensPerPage);
      var selected := SelectFree(c.pages, 0, want);
      if |selected| != want then (c, Failure(InsufficientMemory))
      else
        var id := c.nextReservationId;
        var r := Reservation(id, sequenceId, targetTokens, selected);
        (c.(pages := Paint(c.pages, selected, Page(Reserved, id)),
            reservations := c.reservations + [r],
            nextReservationId := if id == U64_MAX then 0 else id + 1), Success(r))
  }

  function Commit(c: Cache, reservationId: uint64): (Cache, Status) {
    if !HasReservation(c, reservationId) then (c, Failure(InvalidArgument))
    else
      var k := ReservationIndex(c.reservations, reservationId);
      var r := c.reservations[k];
      if !HasSequence(c, r.sequenceId) then (c, Failure(InvalidFormat))
      else if !AllTagged(c.pages, r.pages, Page(Reserved, reservationId)) then (c, Failure(InvalidFormat))
      else
        var i := SequenceIndex(c.sequences, r.sequenceId);
        var s := c.sequences[i];
        (c.(pages := Paint(c.pages, r.pages, Page(MutableSequence, s.id)),
            sequences := c.sequences[i := s.(suffixPages := s.suffixPages + r.pages, totalTokens := r.targetTokens)],
            reservations := RemoveAt(c.reservations, k)), OK)
  }

  function Rollback(c: Cache, reservationId: uint64): (Cache, Status) {
    if !HasReservation(c, reservationId) then (c, Failure(InvalidArgument))
    else
      var k := ReservationIndex(c.reservations, reservationId);
      var r := c.reservations[k];
      if !AllTagged(c.pages, r.pages, Page(Reserved, reservationId)) then (c, Failure(InvalidFormat))
      else
        (c.(pages := Paint(c.pages, r.pages, FREE_PAGE), reservations := RemoveAt(c.reservations, k)), OK)
  }

  function PublishPrefix(c: Cache, prefixId: uint64, sequenceId: uint64): (Cache, Status) {
    if prefixId == 0 || !HasSequence(c, sequenceId) || HasPrefix(c, prefixId) then (c, Failure(InvalidArgument))
    else
      var i := SequenceIndex(c.sequences, sequenceId);
      var s := c.sequences[i];
      if s.prefixId != 0 || s.totalTokens == 0 || s.suffixPages == [] || HasPending(c, sequenceId) then
        (c, Failure(InvalidArgument))
      else if !AllTagged(c.pages, s.suffixPages, Page(MutableSequence, sequenceId)) then
        (c, Failure(InvalidFormat))
      else
        (c.(pages := Paint(c.pages, s.suffixPages, Page(ImmutablePrefix, prefixId)),
            sequences := c.sequences[i := s.(prefixId := prefixId, prefixTokens := s.totalTokens, suffixPages := [])],
            prefixes := c.prefixes + [Prefix(prefixId, s.totalTokens, 1, s.suffixPages)]), OK)
  }

  function DestroyPrefix(c: Cache, prefixId: uint64): (Cache, Status) {
    if !HasPrefix(c, prefixId) || PrefixOf(c, prefixId).attachments != 0 then (c, Failure(InvalidArgument))
    else
      var j := PrefixIndex(c.prefixes, prefixId);
      var p := c.prefixes[j];
      if !AllTagged(c.pages, p.pages, Page(ImmutablePrefix, prefixId)) then (c, Failure(InvalidFormat))
      else (c.(pages := Paint(c.pages, p.pages, FREE_PAGE), prefixes := RemoveAt(c.prefixes, j)), OK)
  }

  /** The shared page count is narrowed to 32 bits, as in the source. */
  function TableOf(c: Cache, sequenceId: uint64): Result<PageTable> {
    if !HasSequence(c, sequenceId) then Failure(InvalidArgument)
    else
      var s := SequenceOf(c, sequenceId);
      if s.prefixId == 0 then
        Success(PageTable(sequenceId, 0, s.prefixTokens, s.totalTokens, 0, s.suffixPages))
      else if !HasPrefix(c, s.prefixId) then Failure(InvalidFormat)
      else
        var p := PrefixOf(c, s.prefixId);
        Success(PageTable(sequenceId, s.prefixId, s.prefixTokens, s.totalTokens,
                          |p.pages| % 0x1_0000_0000, p.pages + s.suffixPages))
  }

  // ---------- Runs ----------

  datatype Op =
    | OpCreateSequence(sequenceId: uint64, prefixId: uint64)
    | OpDestroySequence(sequenceId: uint64)
    | OpReserve(sequenceId: uint64, targetTokens: uint32)
    | OpCommit(reservationId: uint64)
    | OpRollback(reservationId: uint64)
    | OpPublishPrefix(prefixId: uint64, sequenceId: uint64)
    | OpDestroyPrefix(prefixId: uint64)
}
