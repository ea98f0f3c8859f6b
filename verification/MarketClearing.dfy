/** The clearing tick is optimal, and the allocation honours limits and priority. */
module MarketClearing {
  import opened Ordering
  import opened MarketState

  // ---------- The tick ----------

  lemma BetterIsStrictOrder(a: Candidate, b: Candidate, c: Candidate)
    ensures !Better(a, a)
    ensures Better(a, b) && Better(b, c) ==> Better(a, c)
    ensures a.tick != b.tick ==> Better(a, b) || Better(b, a)
  {
  }

  /**
   * The chosen tick beats every other tick of the grid: more volume, then less imbalance, then
   * closer to the reference, then lower.
   */
  lemma {:induction false} TickOptimal(buys: seq<Order>, sells: seq<Order>, reference: nat, last: nat, tick: nat)
    requires 1 <= tick <= last
    ensures var best := BestUpTo(buys, sells, reference, last);
      best.tick == tick || Better(best, CandidateAt(buys, sells, reference, tick))
    decreases last
  {
    BestIsCandidate(buys, sells, reference, last);
    if last > 1 {
      var best, c := BestUpTo(buys, sells, reference, last - 1), CandidateAt(buys, sells, reference, last);
      BestIsCandidate(buys, sells, reference, last - 1);
      if tick < last {
        TickOptimal(buys, sells, reference, last - 1, tick);
        BetterIsStrictOrder(c, best, CandidateAt(buys, sells, reference, tick));
      } else {
        BetterIsStrictOrder(c, best, c);
      }
    }
  }

  // ---------- Fill vectors at one price ----------

  function Total(fills: seq<nat>): nat {
    if fills == [] then 0 else Total(fills[..|fills| - 1]) + fills[|fills| - 1]
  }

  /** Nobody is filled beyond its quantity or against its limit. */
  ghost predicate Respects(orders: seq<Order>, fills: seq<nat>, tick: nat) {
    && |fills| == |orders|
    && forall i :: 0 <= i < |fills| ==>
         fills[i] <= orders[i].quantity && (fills[i] > 0 ==> Eligible(orders[i], tick))
  }

  lemma {:induction false} FillsWithinVolume(orders: seq<Order>, fills: seq<nat>, tick: nat)
    requires Respects(orders, fills, tick)
    ensures Total(fills) <= Volume(orders, tick)
  {
    if fills == [] {
    } else {
      var n := |fills| - 1;
      FillsWithinVolume(orders[..n], fills[..n], tick);
      VolumeSplits(orders, tick);
    }
  }

  lemma VolumeSplits(orders: seq<Order>, tick: nat)
    requires orders != []
    ensures Volume(orders, tick) == Volume(orders[..|orders| - 1], tick)
      + (if Eligible(orders[|orders| - 1], tick) then orders[|orders| - 1].quantity else 0)
  {
  }

  /** No trade at one price, at any tick of the grid, moves more than the chosen tick does. */
  lemma VolumeMaximal(buys: seq<Order>, sells: seq<Order>, reference: nat, tick: nat, bought: seq<nat>, sold: seq<nat>)
    requires 1 <= tick <= TICKS
    requires Respects(buys, bought, tick) && Respects(sells, sold, tick) && Total(bought) == Total(sold)
    ensures Total(bought) <= BestUpTo(buys, sells, reference, TICKS).matched
  {
    FillsWithinVolume(buys, bought, tick);
    FillsWithinVolume(sells, sold, tick);
    TickOptimal(buys, sells, reference, TICKS, tick);
    BestIsCandidate(buys, sells, reference, TICKS);
  }

  // ---------- Allocation ----------

  function Fills(orders: seq<Order>): (f: seq<nat>) {
    seq(|orders|, i requires 0 <= i < |orders| => orders[i].fill as nat)
  }

  ghost predicate Unfilled(orders: seq<Order>) {
    forall i :: 0 <= i < |orders| ==> orders[i].fill == 0
  }

  /** What is allocated and what is left add up; nothing is left unless every eligible order is full. */
  lemma {:induction false} AllocationExact(orders: seq<Order>, tick: nat, quantity: nat)
    requires Unfilled(orders)
    ensures Left(orders, tick, quantity)
      == if quantity > Volume(orders, tick) then quantity - Volume(orders, tick) else 0
    ensures Total(Fills(Allocate(orders, tick, quantity))) + Left(orders, tick, quantity) == quantity
    ensures Respects(orders, Fills(Allocate(orders, tick, quantity)), tick)
  {
    var r := Allocate(orders, tick, quantity);
    if orders == [] {
    } else {
      var n := |orders| - 1;
      AllocationExact(orders[..n], tick, quantity);
      VolumeSplits(orders, tick);
      assert Fills(r)[..n] == Fills(Allocate(orders[..n], tick, quantity));
      assert forall i :: 0 <= i < n ==> Fills(r)[i] == Fills(r)[..n][i];
    }
  }

  /** In allocation order: an order gets something only if every eligible one before it is full. */
  lemma {:induction false} EarlierAreFull(orders: seq<Order>, tick: nat, quantity: nat, i: nat, j: nat)
    requires i < j < |orders| && Unfilled(orders) && Eligible(orders[i], tick)
    ensures var r := Allocate(orders, tick, quantity);
      r[j].fill > 0 ==> r[i].fill == orders[i].quantity
    decreases |orders|
  {
    var n := |orders| - 1;
    if j < n {
      EarlierAreFull(orders[..n], tick, quantity, i, j);
    } else {
      PartialExhausts(orders[..n], tick, quantity, i);
      AllocationExact(orders[..n], tick, quantity);
      assert Fills(Allocate(orders[..n], tick, quantity))[i] <= orders[..n][i].quantity;
    }
  }

  lemma {:induction false} PartialExhausts(orders: seq<Order>, tick: nat, quantity: nat, i: nat)
    requires i < |orders| && Unfilled(orders) && Eligible(orders[i], tick)
    ensures Allocate(orders, tick, quantity)[i].fill < orders[i].quantity ==> Left(orders, tick, quantity) == 0
    decreases |orders|
  {
    var n := |orders| - 1;
    if i < n { PartialExhausts(orders[..n], tick, quantity, i); }
  }

  /** Price first, then the lower agent id. */
  predicate HasPriority(a: Order, b: Order) {
    if a.side == BuyYes then a.limit > b.limit || (a.limit == b.limit && a.agent < b.agent)
    else a.limit < b.limit || (a.limit == b.limit && a.agent < b.agent)
  }

  predicate OneSide(orders: seq<Order>, side: ActionKind) {
    forall i :: 0 <= i < |orders| ==> orders[i].side == side
  }

  function SideKey(side: ActionKind): Order -> int {
    if side == BuyYes then BuyKey else SellKey
  }

  /** The integer keys order exactly as price and agent do. */
  lemma KeyIsPriority(a: Order, b: Order)
    requires a.side == b.side
    ensures HasPriority(a, b) <==> SideKey(a.side)(a) < SideKey(a.side)(b)
  {
  }

  /**
   * Price-agent priority: in the allocation of one side, an order that gets anything leaves no
   * eligible order of higher priority short.
   */
  lemma PriorityHolds(orders: seq<Order>, side: ActionKind, tick: nat, quantity: nat, i: nat, j: nat)
    requires OneSide(orders, side) && Unfilled(orders) && i < |orders| && j < |orders|
    requires Sorted(orders, SideKey(side)) && HasPriority(orders[i], orders[j]) && Eligible(orders[i], tick)
    ensures var r := Allocate(orders, tick, quantity);
      r[j].fill > 0 ==> r[i].fill == orders[i].quantity
  {
    KeyIsPriority(orders[i], orders[j]);
    EarlierAreFull(orders, tick, quantity, i, j);
  }

  /** At most one order of a side is filled in part. */
  lemma OnePartialFill(orders: seq<Order>, tick: nat, quantity: nat, i: nat, j: nat)
    requires Unfilled(orders) && i < |orders| && j < |orders|
    ensures var r := Allocate(orders, tick, quantity);
      0 < r[i].fill < orders[i].quantity && 0 < r[j].fill < orders[j].quantity ==> i == j
  {
    AllocationExact(orders, tick, quantity);
    var f := Fills(Allocate(orders, tick, quantity));
    assert f[i] > 0 ==> Eligible(orders[i], tick);
    assert f[j] > 0 ==> Eligible(orders[j], tick);
    if i < j && f[i] > 0 {
      EarlierAreFull(orders, tick, quantity, i, j);
    } else if j < i && f[j] > 0 {
      EarlierAreFull(orders, tick, quantity, j, i);
    }
  }

  lemma {:induction false} CollectedOrders(accounts: seq<Account>, actions: seq<AgentAction>, side: ActionKind)
    ensures OneSide(OrdersOf(accounts, actions, side), side) && Unfilled(OrdersOf(accounts, actions, side))
  {
    if actions == [] {
    } else {
      CollectedOrders(accounts, actions[..|actions| - 1], side);
    }
  }

  lemma SortedSide(orders: seq<Order>, side: ActionKind)
    requires OneSide(orders, side) && Unfilled(orders)
    ensures var r := SortBy(orders, SideKey(side));
      && OneSide(r, side) && Unfilled(r) && Sorted(r, SideKey(side)) && multiset(r) == multiset(orders)
      && forall tick :: Volume(r, tick) == Volume(orders, tick)
  {
    var r := SortBy(orders, SideKey(side));
    SortBySorts(orders, SideKey(side));
    SameElements(orders, r);
    forall i | 0 <= i < |r| ensures r[i].side == side && r[i].fill == 0 {
      assert r[i] in orders;
    }
    forall tick ensures Volume(r, tick) == Volume(orders, tick) {
      SumByPermuted(orders, r, EligibleQuantity(tick));
    }
  }

  /** The chosen volume can always be allocated on both sides: `invalid_format` is unreachable. */
  lemma AllocationSucceeds(buys: seq<Order>, sells: seq<Order>, reference: nat)
    requires OneSide(buys, BuyYes) && OneSide(sells, SellYes) && Unfilled(buys) && Unfilled(sells)
    ensures var best := BestUpTo(buys, sells, reference, TICKS);
      && Left(SortBy(buys, BuyKey), best.tick, best.matched) == 0
      && Left(SortBy(sells, SellKey), best.tick, best.matched) == 0
  {
    var best := BestUpTo(buys, sells, reference, TICKS);
    BestIsCandidate(buys, sells, reference, TICKS);
    SortedSide(buys, BuyYes);
    SortedSide(sells, SellYes);
    AllocationExact(SortBy(buys, BuyKey), best.tick, best.matched);
    AllocationExact(SortBy(sells, SellKey), best.tick, best.matched);
  }
}
