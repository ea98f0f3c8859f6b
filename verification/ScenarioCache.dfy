/**
 * The cache in the scenario: one published prefix, kept alive by the sequence it came from, and the
 * sequences of the vehicles whose decisions are not complete.
 */
module ScenarioCache {
  import opened Core
  import opened KvState
  import opened KvOwnership
  import opened KvInvariant
  import opened KvProperties
  import opened KvAccounting

  const PREFIX_ID: uint64 := 1
  const PREFIX_SEQUENCE: uint64 := 1
  const FIRST_DECISION: uint64 := 1000

  /** The token and page numbers of a configuration. */
  datatype Load = Load(shared: uint32, total: uint32, tokensPerPage: uint32, pages: uint32)

  predicate LoadValid(g: Load) {
    0 < g.shared <= g.total && g.tokensPerPage > 0 && g.pages > 0
  }

  function PrefixPages(g: Load): nat
    requires LoadValid(g)
  {
    PagesFor(g.shared, g.tokensPerPage)
  }

  function SuffixPages(g: Load): nat
    requires LoadValid(g)
  {
    PagesFor(g.total - g.shared, g.tokensPerPage)
  }

  /** The pages that `n` vehicles need beside the prefix. */
  function VehiclePages(g: Load, n: nat): nat
    requires LoadValid(g)
  {
    if n == 0 then 0 else VehiclePages(g, n - 1) + SuffixPages(g)
  }

  lemma {:induction false} VehiclePagesProduct(g: Load, n: nat)
    requires LoadValid(g)
    ensures VehiclePages(g, n) == SuffixPages(g) * n
  {
    if n == 0 {
    } else {
      VehiclePagesProduct(g, n - 1);
      assert SuffixPages(g) * n == SuffixPages(g) * (n - 1) + SuffixPages(g);
    }
  }

  lemma {:induction false} VehiclePagesGrow(g: Load, m: nat, n: nat)
    requires LoadValid(g) && m <= n
    ensures VehiclePages(g, m) <= VehiclePages(g, n)
  {
    if m < n { VehiclePagesGrow(g, m, n - 1); }
  }

  ghost predicate IsDecision(s: Sequence, g: Load, id: int) {
    s.id == id && s.prefixId == PREFIX_ID && s.prefixTokens == g.shared && s.totalTokens == g.total
  }

  /** Vehicles `[from, to)` of the step that began with id `base` hold their sequences. */
  ghost predicate CacheIs(c: Cache, g: Load, base: nat, from: nat, to: nat, next: nat) {
    && c.tokensPerPage == g.tokensPerPage && |c.pages| == g.pages
    && c.reservations == [] && c.nextReservationId == next
    && from <= to && |c.sequences| == 1 + (to - from)
    && c.sequences[0] == Sequence(PREFIX_SEQUENCE, PREFIX_ID, g.shared, g.shared, [])
    && (forall i :: 1 <= i < |c.sequences| ==> IsDecision(c.sequences[i], g, base + from + i - 1))
    && |c.prefixes| == 1 && c.prefixes[0].id == PREFIX_ID && c.prefixes[0].tokenCount == g.shared
    && c.prefixes[0].attachments == 1 + (to - from)
  }

  // ---------- How the pages are used ----------

  /** The prefix owner and then vehicles, each with its suffix. */
  ghost predicate Shaped(ss: seq<Sequence>, g: Load, base: int) {
    && ss != [] && ss[0] == Sequence(PREFIX_SEQUENCE, PREFIX_ID, g.shared, g.shared, [])
    && forall i :: 1 <= i < |ss| ==> IsDecision(ss[i], g, base + i)
  }

  lemma {:induction false} SuffixesCounted(ss: seq<Sequence>, ps: seq<Prefix>, g: Load, base: int, n: nat)
    requires LoadValid(g) && Shaped(ss, g, base) && SequencesInv(ss, ps, g.tokensPerPage) && 1 <= n <= |ss|
    requires |ps| == 1 && ps[0].id == PREFIX_ID
    ensures SuffixTotal(ss[..n]) == VehiclePages(g, n - 1)
    ensures PrefixTotal(ss[..n], ps) == |ps[0].pages| * n
  {
    var part, s := ss[..n], ss[n - 1];
    assert part[..n - 1] == ss[..n - 1];
    assert SequenceInv(s, ps, g.tokensPerPage);
    assert s.prefixId == PREFIX_ID;
    assert PrefixPageCount(ps, PREFIX_ID) == |ps[0].pages|;
    if n > 1 {
      SuffixesCounted(ss, ps, g, base, n - 1);
      assert |ps[0].pages| * n == |ps[0].pages| * (n - 1) + |ps[0].pages|;
    } else {
      assert ss[..0] == [];
    }
  }

  /** The parts of the shape and of the invariant that page counting needs. */
  lemma Parts(c: Cache, g: Load, base: nat, from: nat, to: nat, next: nat)
    requires LoadValid(g) && Inv(c) && CacheIs(c, g, base, from, to, next)
    ensures Shaped(c.sequences, g, base + from - 1) && SequencesInv(c.sequences, c.prefixes, g.tokensPerPage)
    ensures |c.sequences| == 1 + (to - from)
    ensures |c.prefixes| == 1 && c.prefixes[0].id == PREFIX_ID && |c.prefixes[0].pages| == PrefixPages(g)
    ensures c.prefixes[0].attachments == 1 + (to - from)
    ensures c.reservations == [] && c.tokensPerPage == g.tokensPerPage && |c.pages| == g.pages
  {
    assert PrefixInv(c.prefixes[0], c.sequences, c.tokensPerPage);
  }

  function Product(a: nat, b: nat): nat { a * b }

  /** The tokens that `metrics` adds up for `n` vehicles and the prefix owner. */
  function ReservedLoad(g: Load, n: nat): nat
    requires LoadValid(g)
  {
    Capacity(VehiclePages(g, n) + Product(PrefixPages(g), n + 1), g.tokensPerPage)
  }

  /** Every page is free, part of the prefix, or held by a vehicle. */
  lemma {:induction false} PagesUsed(c: Cache, g: Load, base: nat, from: nat, to: nat, next: nat)
    requires LoadValid(g) && Inv(c) && CacheIs(c, g, base, from, to, next)
    ensures CountState(c.pages, Free) + PrefixPages(g) + VehiclePages(g, to - from) == g.pages
    ensures CountState(c.pages, MutableSequence) == VehiclePages(g, to - from)
    ensures CountState(c.pages, ImmutablePrefix) == PrefixPages(g)
    ensures ReservedTokens(c.sequences, c.prefixes, g.tokensPerPage)
      == ReservedLoad(g, to - from)
  {
    Parts(c, g, base, from, to, next);
    PageAccounting(c);
    hide Inv, CacheIs, Shaped, SequencesInv, CountState, Capacity;
    assert |c.prefixes[0].pages| * |c.sequences| == Product(PrefixPages(g), to - from + 1);
    SuffixesCounted(c.sequences, c.prefixes, g, base + from - 1, |c.sequences|);
    assert c.sequences[..|c.sequences|] == c.sequences;
    assert PrefixHoldings(c.prefixes)[..0] == [];
    assert ReservationHoldings(c.reservations) == [];
    ReservedSplit(c.sequences, c.prefixes, g.tokensPerPage);
  }

  /** `metrics` counts the pages, unless its 64-bit token total overflows. */
  lemma MetricsInStep(c: Cache, g: Load, base: nat, from: nat, to: nat, next: nat)
    requires LoadValid(g) && Inv(c) && CacheIs(c, g, base, from, to, next)
    ensures MetricsOf(c).Success? <==> ReservedLoad(g, to - from) <= U64_MAX
    ensures MetricsOf(c).Failure? ==> MetricsOf(c).error == ArithmeticOverflow
    ensures MetricsOf(c).Success? ==>
      && MetricsOf(c).value.mutablePages == VehiclePages(g, to - from)
      && MetricsOf(c).value.sharedPrefixPages == PrefixPages(g)
  {
    Parts(c, g, base, from, to, next);
    PagesUsed(c, g, base, from, to, next);
    PayloadFits(c);
    CommittedFits(c);
    hide Inv, CacheIs, Shaped, SequencesInv, CountState, Capacity, PrefixPages, VehiclePages;
    assert c.prefixes[..0] == [];
    assert Attachments(c.prefixes) == c.prefixes[0].attachments;
  }

  // ---------- Admitting a vehicle ----------

  lemma NewId(c: Cache, g: Load, base: nat, from: nat, to: nat, next: nat)
    requires CacheIs(c, g, base, from, to, next) && FIRST_DECISION <= base && base + to <= U64_MAX
    requires to - from < U32_MAX
    ensures !HasSequence(c, base + to) && HasPrefix(c, PREFIX_ID) && PrefixIndex(c.prefixes, PREFIX_ID) == 0
  {
    forall i | 0 <= i < |c.sequences| ensures c.sequences[i].id != base + to {
      assert i > 0 ==> IsDecision(c.sequences[i], g, base + from + i - 1);
    }
  }

  /** First the sequence is created on the shared prefix. */
  lemma Created(c: Cache, g: Load, base: nat, from: nat, to: nat, next: nat)
    requires CacheIs(c, g, base, from, to, next) && FIRST_DECISION <= base && base + to <= U64_MAX
      && to - from < U32_MAX
    ensures |c.prefixes| == 1 && c.prefixes[0].attachments < U64_MAX
    ensures CreateSequence(c, base + to, PREFIX_ID).1 == OK
    ensures
      var c' := CreateSequence(c, base + to, PREFIX_ID).0;
      && c' == c.(sequences := c.sequences + [Sequence(base + to, PREFIX_ID, g.shared, g.shared, [])],
                  prefixes := [c.prefixes[0].(attachments := c.prefixes[0].attachments + 1)])
  {
    NewId(c, g, base, from, to, next);
    assert c.prefixes[0 := c.prefixes[0].(attachments := c.prefixes[0].attachments + 1)]
      == [c.prefixes[0].(attachments := c.prefixes[0].attachments + 1)];
  }

  /** The new sequence is found where it was put. */
  lemma LastIndex(ss: seq<Sequence>, s: Sequence)
    requires forall i :: 0 <= i < |ss| ==> ss[i].id != s.id
    ensures SequenceIndex(ss + [s], s.id) == |ss|
  {
    var all := ss + [s];
    assert all[|ss|].id == s.id;
    assert forall i :: 0 <= i < |ss| ==> all[i] == ss[i];
  }

  /** Then its pages are reserved: there are enough. */
  lemma Granted(c: Cache, c1: Cache, g: Load, n: nat, s: Sequence)
    requires LoadValid(g) && Inv(c1) && c1.tokensPerPage == g.tokensPerPage && c1.reservations == []
      && c1.nextReservationId > 0
    requires c1.sequences == c.sequences + [s] && c1.pages == c.pages && !HasSequence(c, s.id)
    requires s.prefixTokens == s.totalTokens == g.shared && s.suffixPages == []
    requires CountState(c.pages, Free) + PrefixPages(g) + VehiclePages(g, n) == g.pages
    requires PrefixPages(g) + VehiclePages(g, n + 1) <= g.pages
    ensures HasSequence(c1, s.id) && SequenceOf(c1, s.id) == s && !ReserveRejected(c1, s.id, g.total)
    ensures Reserve(c1, s.id, g.total).1.Success? && Reserve(c1, s.id, g.total).1.value.id == c1.nextReservationId
  {
    hide Inv, CountState, Reserve, PagesFor;
    LastIndex(c.sequences, s);
    ReserveExact(c1, s.id, g.total);
    ReserveKeeps(c1, s.id, g.total);
  }

  /** And the reservation is committed: one more vehicle holds its sequence. */
  lemma {:induction false} Admitted(c: Cache, g: Load, base: nat, from: nat, to: nat, next: nat)
    requires LoadValid(g) && Inv(c) && CacheIs(c, g, base, from, to, next)
    requires FIRST_DECISION <= base && base + to <= U64_MAX && to - from < U32_MAX && 0 < next < U64_MAX
    requires PrefixPages(g) + VehiclePages(g, to - from + 1) <= g.pages
    ensures CreateSequence(c, base + to, PREFIX_ID).1 == OK
    ensures AdmittedFrom(CreateSequence(c, base + to, PREFIX_ID).0, g, base, from, to, next)
  {
    var id := base + to;
    var s := Sequence(id, PREFIX_ID, g.shared, g.shared, []);
    PagesUsed(c, g, base, from, to, next);
    NewId(c, g, base, from, to, next);
    Created(c, g, base, from, to, next);
    CreateSequenceInv(c, id, PREFIX_ID);
    var c1 := CreateSequence(c, id, PREFIX_ID).0;
    CreatedParts(c, c1, g, base, from, to, next, s);
    hide Inv, CountState, CreateSequence;
    Granted(c, c1, g, to - from, s);
    AdmittedRest(c, c1, g, base, from, to, next, s);
  }

  lemma CreatedParts(c: Cache, c1: Cache, g: Load, base: nat, from: nat, to: nat, next: nat, s: Sequence)
    requires CacheIs(c, g, base, from, to, next)
    requires |c.prefixes| == 1 && c.prefixes[0].attachments < U64_MAX
    requires c1
      == c.(sequences := c.sequences + [s], prefixes := [c.prefixes[0].(attachments := c.prefixes[0].attachments + 1)])
    ensures c1.tokensPerPage == g.tokensPerPage && c1.reservations == [] && c1.nextReservationId == next
    ensures c1.sequences == c.sequences + [s] && c1.pages == c.pages
  {
  }

  /** The rest of an admission, once the sequence exists. */
  ghost predicate AdmittedFrom(c1: Cache, g: Load, base: nat, from: nat, to: nat, next: nat) {
    && base + to <= U64_MAX && next < U64_MAX
    && c1.tokensPerPage > 0 && HasSequence(c1, base + to)
    && SequenceOf(c1, base + to).prefixTokens <= SequenceOf(c1, base + to).totalTokens
    && Reserve(c1, base + to, g.total).1.Success?
    && Reserve(c1, base + to, g.total).1.value.id == next
    && Commit(Reserve(c1, base + to, g.total).0, next).1 == OK
    && CacheIs(Commit(Reserve(c1, base + to, g.total).0, next).0, g, base, from, to + 1, next + 1)
  }

  lemma AdmittedRest(c: Cache, c1: Cache, g: Load, base: nat, from: nat, to: nat, next: nat, s: Sequence)
    requires CacheIs(c, g, base, from, to, next) && base + to <= U64_MAX && !HasSequence(c, base + to)
      && 0 < next < U64_MAX
    requires Inv(c1) && s == Sequence(base + to, PREFIX_ID, g.shared, g.shared, []) && g.tokensPerPage > 0
    requires |c.prefixes| == 1 && c.prefixes[0].attachments < U64_MAX
    requires c1
      == c.(sequences := c.sequences + [s], prefixes := [c.prefixes[0].(attachments := c.prefixes[0].attachments + 1)])
    requires HasSequence(c1, s.id) && SequenceOf(c1, s.id) == s && !ReserveRejected(c1, s.id, g.total)
    requires c1.tokensPerPage == g.tokensPerPage
    requires Reserve(c1, s.id, g.total).1.Success? && Reserve(c1, s.id, g.total).1.value.id == next
    ensures AdmittedFrom(c1, g, base, from, to, next)
  {
    CommitAppends(c1, s.id, g.total);
    hide Inv, CacheIs, Commit, TablePages, HasReservation;
    var c2, r := Reserve(c1, s.id, g.total).0, Reserve(c1, s.id, g.total).1.value;
    ReservedShape(c, c1, g, base, from, to, next, s);
    CommittedShape(c, c1, c2, r, g, base, from, to, next);
  }

  lemma ReservedShape(c: Cache, c1: Cache, g: Load, base: nat, from: nat, to: nat, next: nat, s: Sequence)
    requires CacheIs(c, g, base, from, to, next) && next < U64_MAX
    requires |c.prefixes| == 1 && c.prefixes[0].attachments < U64_MAX
    requires c1
      == c.(sequences := c.sequences + [s], prefixes := [c.prefixes[0].(attachments := c.prefixes[0].attachments + 1)])
    requires HasSequence(c1, s.id) && SequenceOf(c1, s.id) == s && s.prefixTokens <= s.totalTokens
      && c1.tokensPerPage > 0
    requires Reserve(c1, s.id, g.total).1.Success?
    ensures
      var c2, r := Reserve(c1, s.id, g.total).0, Reserve(c1, s.id, g.total).1.value;
      && c2.sequences == c1.sequences && c2.prefixes == c1.prefixes && c2.reservations == [r]
        && |c2.pages| == |c1.pages|
      && c2.tokensPerPage == c1.tokensPerPage && c2.nextReservationId == next + 1
      && r.id == next && r.sequenceId == s.id && r.targetTokens == g.total
  {
  }

  lemma CommittedShape(c: Cache, c1: Cache, c2: Cache, r: Reservation, g: Load, base: nat, from: nat, to: nat,
                       next: nat)
    requires CacheIs(c, g, base, from, to, next) && base + to <= U64_MAX && !HasSequence(c, base + to)
      && 0 < next < U64_MAX
    requires |c.prefixes| == 1 && c.prefixes[0].attachments < U64_MAX
    requires c1 == c.(sequences := c.sequences + [Sequence(base + to, PREFIX_ID, g.shared, g.shared, [])],
                      prefixes := [c.prefixes[0].(attachments := c.prefixes[0].attachments + 1)])
    requires c2.sequences == c1.sequences && c2.prefixes == c1.prefixes && c2.reservations == [r]
      && |c2.pages| == |c1.pages|
    requires c2.tokensPerPage == c1.tokensPerPage && c2.nextReservationId == next + 1
    requires r.id == next && r.sequenceId == base + to && r.targetTokens == g.total
    requires Commit(c2, next).1 == OK
    ensures CacheIs(Commit(c2, next).0, g, base, from, to + 1, next + 1)
  {
    var s := Sequence(base + to, PREFIX_ID, g.shared, g.shared, []);
    LastIndex(c.sequences, s);
    assert ReservationIndex(c2.reservations, next) == 0;
    assert RemoveAt(c2.reservations, 0) == [];
    var c3 := Commit(c2, next).0;
    var i := |c.sequences|;
    assert c3.sequences == c2.sequences[i := s.(suffixPages := s.suffixPages + r.pages, totalTokens := g.total)];
    forall k | 1 <= k < |c3.sequences| ensures IsDecision(c3.sequences[k], g, base + from + k - 1) {
      if k < i { assert c3.sequences[k] == c.sequences[k]; }
    }
    assert c3.sequences[0] == c.sequences[0];
  }

  // ---------- Releasing a vehicle ----------

  /** The first vehicle that holds a sequence releases it. */
  lemma Released(c: Cache, g: Load, base: nat, from: nat, to: nat, next: nat)
    requires Inv(c) && CacheIs(c, g, base, from, to, next) && from < to && FIRST_DECISION <= base
      && base + to <= U64_MAX
    ensures DestroySequence(c, base + from).1 == OK
    ensures CacheIs(DestroySequence(c, base + from).0, g, base, from + 1, to, next)
  {
    var id := base + from;
    assert IsDecision(c.sequences[1], g, base + from);
    assert SequenceIndex(c.sequences, id) == 1;
    TagsAgree(c);
    hide Inv, OwnershipInv;
    assert PrefixIndex(c.prefixes, PREFIX_ID) == 0;
    var c' := DestroySequence(c, id).0;
    assert c'.sequences == RemoveAt(c.sequences, 1);
    forall i | 1 <= i < |c'.sequences| ensures IsDecision(c'.sequences[i], g, base + (from + 1) + i - 1) {
      assert c'.sequences[i] == c.sequences[i + 1];
    }
  }

  /** Between steps, the next step may begin with any base. */
  lemma NewStep(c: Cache, g: Load, base: nat, v: nat, next: nat, other: nat)
    requires CacheIs(c, g, base, v, v, next)
    ensures CacheIs(c, g, other, 0, 0, next)
  {
  }

  // ---------- Setting up and tearing down ----------

  /** A fresh cache with the prefix created, reserved, committed and published. */
  lemma Prepared(g: Load)
    requires LoadValid(g) && PrefixPages(g) <= g.pages
    ensures
      var c0 := InitialCache(g.pages, g.tokensPerPage);
      var c1 := CreateSequence(c0, PREFIX_SEQUENCE, 0).0;
      && CreateSequence(c0, PREFIX_SEQUENCE, 0).1 == OK
      && HasSequence(c1, PREFIX_SEQUENCE) && SequenceOf(c1, PREFIX_SEQUENCE).prefixTokens
        <= SequenceOf(c1, PREFIX_SEQUENCE).totalTokens
      && Reserve(c1, PREFIX_SEQUENCE, g.shared).1.Success? && Reserve(c1, PREFIX_SEQUENCE, g.shared).1.value.id == 1
      && var c2 := Reserve(c1, PREFIX_SEQUENCE, g.shared).0;
      && Commit(c2, 1).1 == OK
      && PublishPrefix(Commit(c2, 1).0, PREFIX_ID, PREFIX_SEQUENCE).1 == OK
      && forall base :: CacheIs(PublishPrefix(Commit(c2, 1).0, PREFIX_ID, PREFIX_SEQUENCE).0, g, base, 0, 0, 2)
  {
    var c0 := InitialCache(g.pages, g.tokensPerPage);
    InitialInv(g.pages, g.tokensPerPage);
    var c1 := CreateSequence(c0, PREFIX_SEQUENCE, 0).0;
    CreateSequenceInv(c0, PREFIX_SEQUENCE, 0);
    assert c1.sequences == [Sequence(PREFIX_SEQUENCE, 0, 0, 0, [])];
    AllFree(g.pages);
    ReserveExact(c1, PREFIX_SEQUENCE, g.shared);
    var r := Reserve(c1, PREFIX_SEQUENCE, g.shared).1.value;
    var c2 := Reserve(c1, PREFIX_SEQUENCE, g.shared).0;
    CommitAppends(c1, PREFIX_SEQUENCE, g.shared);
    PreparedShape(c1, c2, r, g);
  }

  lemma {:induction false} AllFree(n: nat)
    ensures CountState(seq(n, _ => FREE_PAGE), Free) == n
  {
    var pages := seq(n, _ => FREE_PAGE);
    if n == 0 {
    } else {
      AllFree(n - 1);
      assert pages[..n - 1] == seq(n - 1, _ => FREE_PAGE);
    }
  }

  lemma PreparedShape(c1: Cache, c2: Cache, r: Reservation, g: Load)
    requires LoadValid(g) && Inv(c1)
    requires c1 == InitialCache(g.pages, g.tokensPerPage).(sequences := [Sequence(PREFIX_SEQUENCE, 0, 0, 0, [])])
    requires !ReserveRejected(c1, PREFIX_SEQUENCE, g.shared)
      && Reserve(c1, PREFIX_SEQUENCE, g.shared) == (c2, Success(r))
    requires |r.pages| == PrefixPages(g) && Commit(c2, 1).1 == OK
    ensures PublishPrefix(Commit(c2, 1).0, PREFIX_ID, PREFIX_SEQUENCE).1 == OK
    ensures forall base :: CacheIs(PublishPrefix(Commit(c2, 1).0, PREFIX_ID, PREFIX_SEQUENCE).0, g, base, 0, 0, 2)
  {
    hide Inv, Reserve, Commit, PublishPrefix, PrefixPages, CacheIs, InitialCache;
    PreparedCommit(c1, c2, r, g);
    PreparedPublish(Commit(c2, 1).0, g);
  }

  /** The first sequence holds the prefix, and nothing is pending. */
  ghost predicate PrefixCommitted(c: Cache, g: Load) {
    && c.tokensPerPage == g.tokensPerPage && |c.pages| == g.pages
    && c.reservations == [] && c.nextReservationId == 2 && c.prefixes == []
    && |c.sequences| == 1 && c.sequences[0].suffixPages != []
    && c.sequences[0] == Sequence(PREFIX_SEQUENCE, 0, 0, g.shared, c.sequences[0].suffixPages)
  }

  lemma {:induction false} PreparedCommit(c1: Cache, c2: Cache, r: Reservation, g: Load)
    requires LoadValid(g) && Inv(c1)
    requires c1 == InitialCache(g.pages, g.tokensPerPage).(sequences := [Sequence(PREFIX_SEQUENCE, 0, 0, 0, [])])
    requires !ReserveRejected(c1, PREFIX_SEQUENCE, g.shared)
      && Reserve(c1, PREFIX_SEQUENCE, g.shared) == (c2, Success(r))
    requires |r.pages| == PrefixPages(g) && Commit(c2, 1).1 == OK
    ensures Inv(Commit(c2, 1).0) && PrefixCommitted(Commit(c2, 1).0, g)
  {
    ReserveInv(c1, PREFIX_SEQUENCE, g.shared);
    CommitInv(c2, 1);
    hide Inv, Reserve, Commit, PagesFor, AllTagged, SelectFree;
    ReserveKeeps(c1, PREFIX_SEQUENCE, g.shared);
    CommitOnly(c2, r);
  }

  /** A granted reservation changes neither owners nor sizes. */
  lemma ReserveKeeps(c: Cache, id: uint64, target: uint32)
    requires c.tokensPerPage > 0
    requires HasSequence(c, id) ==> SequenceOf(c, id).prefixTokens <= SequenceOf(c, id).totalTokens
    ensures var (c', result) := Reserve(c, id, target);
      result.Success? ==>
        && c'.sequences == c.sequences && c'.prefixes == c.prefixes && c'.tokensPerPage == c.tokensPerPage
        && |c'.pages| == |c.pages| && c'.reservations == c.reservations + [result.value]
        && c'.nextReservationId == (if c.nextReservationId == U64_MAX then 0 else c.nextReservationId + 1)
        && result.value.id == c.nextReservationId && result.value.sequenceId == id
          && result.value.targetTokens == target
  {
    hide NewPages, SelectFree;
  }

  /** Committing the only reservation of the only sequence. */
  lemma CommitOnly(c: Cache, r: Reservation)
    requires c.reservations == [r] && |c.sequences| == 1 && c.sequences[0].id == r.sequenceId && Commit(c, r.id).1 == OK
    ensures var c', s := Commit(c, r.id).0, c.sequences[0];
      && c'.sequences == [s.(suffixPages := s.suffixPages + r.pages, totalTokens := r.targetTokens)]
      && c'.prefixes == c.prefixes && c'.tokensPerPage == c.tokensPerPage && |c'.pages| == |c.pages|
      && c'.reservations == [] && c'.nextReservationId == c.nextReservationId
  {
    hide AllTagged;
    assert RemoveAt([r], 0) == [];
  }

  lemma PreparedPublish(c: Cache, g: Load)
    requires LoadValid(g) && Inv(c) && PrefixCommitted(c, g)
    ensures PublishPrefix(c, PREFIX_ID, PREFIX_SEQUENCE).1 == OK
    ensures forall base :: CacheIs(PublishPrefix(c, PREFIX_ID, PREFIX_SEQUENCE).0, g, base, 0, 0, 2)
  {
    TagsAgree(c);
    hide Inv;
  }

  /** The prefix owner and then the prefix itself are destroyed: every page is free again. */
  lemma TornDown(c: Cache, g: Load, base: nat, v: nat, next: nat)
    requires LoadValid(g) && Inv(c) && CacheIs(c, g, base, v, v, next)
    ensures DestroySequence(c, PREFIX_SEQUENCE).1 == OK
    ensures DestroyPrefix(DestroySequence(c, PREFIX_SEQUENCE).0, PREFIX_ID).1 == OK
    ensures
      var c' := DestroyPrefix(DestroySequence(c, PREFIX_SEQUENCE).0, PREFIX_ID).0;
      MetricsOf(c').Success? && MetricsOf(c').value.freePages == g.pages
  {
    OwnerReleased(c, g, base, v, next);
    DestroySequenceInv(c, PREFIX_SEQUENCE);
    var c1 := DestroySequence(c, PREFIX_SEQUENCE).0;
    PrefixReleased(c1);
    DestroyPrefixInv(c1, PREFIX_ID);
    var c2 := DestroyPrefix(c1, PREFIX_ID).0;
    NothingHeld(c2);
  }

  lemma OwnerReleased(c: Cache, g: Load, base: nat, v: nat, next: nat)
    requires LoadValid(g) && Inv(c) && CacheIs(c, g, base, v, v, next)
    ensures DestroySequence(c, PREFIX_SEQUENCE).1 == OK
    ensures
      var c1 := DestroySequence(c, PREFIX_SEQUENCE).0;
      && c1.sequences == [] && |c1.prefixes| == 1 && c1.prefixes[0].id == PREFIX_ID && c1.prefixes[0].attachments == 0
      && |c1.pages| == |c.pages|
  {
    assert PrefixIndex(c.prefixes, PREFIX_ID) == 0;
    assert RemoveAt(c.sequences, 0) == [];
  }

  lemma PrefixReleased(c: Cache)
    requires Inv(c) && c.sequences == [] && |c.prefixes| == 1 && c.prefixes[0].id == PREFIX_ID
      && c.prefixes[0].attachments == 0
    ensures DestroyPrefix(c, PREFIX_ID).1 == OK
    ensures DestroyPrefix(c, PREFIX_ID).0.sequences == [] && DestroyPrefix(c, PREFIX_ID).0.prefixes == []
    ensures |DestroyPrefix(c, PREFIX_ID).0.pages| == |c.pages|
  {
    TagsAgree(c);
    hide Inv, OwnershipInv;
    assert PrefixIndex(c.prefixes, PREFIX_ID) == 0;
    assert RemoveAt(c.prefixes, 0) == [];
  }

  lemma NothingHeld(c: Cache)
    requires Inv(c) && c.sequences == [] && c.prefixes == []
    ensures MetricsOf(c).Success? && MetricsOf(c).value.freePages == |c.pages|
  {
    NoOwnersNoPages(c);
    AllFree(|c.pages|);
    PayloadFits(c);
    CommittedFits(c);
    hide Inv;
  }
}
