/** The auction as a caller reads it: admission, clearing tick, fills and accounts, from the submissions alone. */
module MarketReference {
  import opened Core
  import opened Ordering
  import opened MarketState
  import opened MarketClearing
  import opened MarketSettlement
  import opened MarketProperties

  // ---------- Demand and supply at a tick ----------

  /** What the buyers whose limit is `tick` or more ask for. */
  ghost function Demand(actions: seq<AgentAction>, tick: nat): nat {
    if actions == [] then 0
    else
      var x := actions[|actions| - 1].action;
      Demand(actions[..|actions| - 1], tick) + (if x.kind == BuyYes && x.priceTick >= tick then x.quantity else 0)
  }

  /** What the sellers whose limit is `tick` or less offer. */
  ghost function Supply(actions: seq<AgentAction>, tick: nat): nat {
    if actions == [] then 0
    else
      var x := actions[|actions| - 1].action;
      Supply(actions[..|actions| - 1], tick) + (if x.kind == SellYes && x.priceTick <= tick then x.quantity else 0)
  }

  /** The quantity that changes hands at a tick. */
  ghost function Matching(actions: seq<AgentAction>, tick: nat): nat {
    if Demand(actions, tick) < Supply(actions, tick) then Demand(actions, tick) else Supply(actions, tick)
  }

  /** What one side wants beyond the other. */
  ghost function Excess(actions: seq<AgentAction>, tick: nat): nat {
    if Demand(actions, tick) < Supply(actions, tick) then Supply(actions, tick) - Demand(actions, tick)
    else Demand(actions, tick) - Supply(actions, tick)
  }

  ghost function Away(tick: nat, last: nat): nat { if tick < last then last - tick else tick - last }

  /** Most quantity, then least excess, then nearest to the last tick, then lowest, over the whole grid. */
  ghost predicate Optimal(actions: seq<AgentAction>, last: nat, tick: nat) {
    && 1 <= tick <= 99
    && forall u :: 1 <= u <= 99 ==>
         && Matching(actions, u) <= Matching(actions, tick)
         && (Matching(actions, u) == Matching(actions, tick) ==>
               && Excess(actions, u) >= Excess(actions, tick)
               && (Excess(actions, u) == Excess(actions, tick) ==>
                     && Away(u, last) >= Away(tick, last)
                     && (Away(u, last) == Away(tick, last) ==> u >= tick)))
  }

  /** There is only one such tick. */
  lemma OptimalUnique(actions: seq<AgentAction>, last: nat, t: nat, u: nat)
    requires Optimal(actions, last, t) && Optimal(actions, last, u)
    ensures t == u
  {
    assert Matching(actions, u) <= Matching(actions, t) && Matching(actions, t) <= Matching(actions, u);
  }

  lemma {:induction false} VolumesAreDemandAndSupply(accounts: seq<Account>, actions: seq<AgentAction>, tick: nat)
    ensures Volume(OrdersOf(accounts, actions, BuyYes), tick) == Demand(actions, tick)
    ensures Volume(OrdersOf(accounts, actions, SellYes), tick) == Supply(actions, tick)
  {
    if actions == [] {
    } else {
      var init, x := actions[..|actions| - 1], actions[|actions| - 1];
      VolumesAreDemandAndSupply(accounts, init, tick);
      VolumeNext(accounts, init, x, BuyYes, tick);
      VolumeNext(accounts, init, x, SellYes, tick);
      assert init + [x] == actions;
    }
  }

  lemma VolumeNext(accounts: seq<Account>, init: seq<AgentAction>, x: AgentAction, side: ActionKind, tick: nat)
    requires side != Hold
    ensures Volume(OrdersOf(accounts, init + [x], side), tick) == Volume(OrdersOf(accounts, init, side), tick)
      + (if x.action.kind == side && LimitAllows(x, tick) then x.action.quantity else 0)
  {
    OrdersSnoc(accounts, init, x, side);
    SumByConcat(OrdersOf(accounts, init, side), OrderIf(accounts, x, side), EligibleQuantity(tick));
    if x.action.kind == side {
      VolumeSplits([OrderOf(accounts, x)], tick);
    }
  }

  /** The tick of the call is the optimal one, and its volume what changes hands there. */
  lemma BestIsOptimal(m: Market, actions: seq<AgentAction>)
    ensures Optimal(actions, m.lastTradedTick, Best(m, actions).tick)
    ensures Best(m, actions).matched == Matching(actions, Best(m, actions).tick)
  {
    var buys, sells := OrdersOf(m.accounts, actions, BuyYes), OrdersOf(m.accounts, actions, SellYes);
    var best, last := Best(m, actions), m.lastTradedTick;
    BestIsCandidate(buys, sells, last, TICKS);
    VolumesAreDemandAndSupply(m.accounts, actions, best.tick);
    forall u | 1 <= u <= 99
      ensures Matching(actions, u) <= Matching(actions, best.tick)
      ensures Matching(actions, u) == Matching(actions, best.tick) ==>
        && Excess(actions, u) >= Excess(actions, best.tick)
        && (Excess(actions, u) == Excess(actions, best.tick) ==>
              && Away(u, last) >= Away(best.tick, last)
              && (Away(u, last) == Away(best.tick, last) ==> u >= best.tick))
    {
      hide Volume, Demand, Supply, BestUpTo;
      VolumesAreDemandAndSupply(m.accounts, actions, u);
      TickOptimal(buys, sells, last, TICKS, u);
    }
  }

  // ---------- Admission ----------

  ghost predicate OncePerAgent(actions: seq<AgentAction>) {
    forall i, j :: 0 <= i < j < |actions| ==> actions[i].agent != actions[j].agent
  }

  /** The agent has an account that covers its worst case: every unit bought at the limit, every unit sold. */
  ghost predicate Covered(accounts: seq<Account>, x: AgentAction) {
    exists k :: 0 <= k < |accounts| && accounts[k].id == x.agent
      && (x.action.kind == BuyYes ==> accounts[k].cash >= x.action.quantity * x.action.priceTick * 10000)
      && (x.action.kind == SellYes ==> accounts[k].yesShares >= x.action.quantity)
  }

  ghost predicate Accepted(accounts: seq<Account>, actions: seq<AgentAction>) {
    OncePerAgent(actions) && forall i :: 0 <= i < |actions| ==> Covered(accounts, actions[i])
  }

  lemma AccountFound(accounts: seq<Account>, k: nat)
    requires k < |accounts| && forall i, j :: 0 <= i < j < |accounts| ==> accounts[i].id < accounts[j].id
    ensures LowerBound(accounts, accounts[k].id) == k
  {
  }

  lemma CoveredExact(m: Market, x: AgentAction)
    requires Inv(m)
    ensures Unaffordable(m.accounts, x).None? <==> Covered(m.accounts, x)
  {
    if Covered(m.accounts, x) {
      var k :| 0 <= k < |m.accounts| && m.accounts[k].id == x.agent
        && (x.action.kind == BuyYes ==> m.accounts[k].cash >= x.action.quantity * x.action.priceTick * 10000)
        && (x.action.kind == SellYes ==> m.accounts[k].yesShares >= x.action.quantity);
      AccountFound(m.accounts, k);
    }
    if HasAccount(m.accounts, x.agent) {
      var k := LowerBound(m.accounts, x.agent);
      assert m.accounts[k].id == x.agent;
    }
  }

  lemma AcceptedExact(m: Market, actions: seq<AgentAction>)
    requires Inv(m)
    ensures Admissible(m.accounts, actions) <==> Accepted(m.accounts, actions)
  {
    forall i | 0 <= i < |actions|
      ensures Unaffordable(m.accounts, actions[i]).None? <==> Covered(m.accounts, actions[i])
    {
      CoveredExact(m, actions[i]);
    }
    assert DistinctKeys(actions, ActionAgent) <==> OncePerAgent(actions) by {
      assert forall i :: 0 <= i < |actions| ==> ActionAgent(actions[i]) == actions[i].agent;
    }
  }

  /** Why a submission is refused, given the ones before it. */
  ghost predicate RefusedFor(accounts: seq<Account>, actions: seq<AgentAction>, i: nat, code: ErrorCode)
    requires i < |actions|
  {
    var x := actions[i];
    if (exists j :: 0 <= j < i && actions[j].agent == x.agent)
      || (forall k :: 0 <= k < |accounts| ==> accounts[k].id != x.agent)
    then code == InvalidArgument
    else code == InsufficientResources && !Covered(accounts, x)
  }

  ghost predicate Refused(accounts: seq<Account>, actions: seq<AgentAction>, i: nat)
    requires i < |actions|
  {
    RefusedFor(accounts, actions, i, InvalidArgument) || RefusedFor(accounts, actions, i, InsufficientResources)
  }

  /** The reported code is that of the first refused submission. */
  ghost predicate FirstRefusal(accounts: seq<Account>, actions: seq<AgentAction>, code: ErrorCode) {
    exists i :: 0 <= i < |actions| && RefusedFor(accounts, actions, i, code)
      && forall j :: 0 <= j < i ==> !Refused(accounts, actions, j)
  }

  lemma RefusalExact(m: Market, actions: seq<AgentAction>, n: nat)
    requires Inv(m) && n < |actions|
    ensures var x, init := actions[n], actions[..n];
      var error := if Submitted(init, x.agent) then Some(InvalidArgument) else Unaffordable(m.accounts, x);
      && (error.None? <==> !Refused(m.accounts, actions, n))
      && (error.Some? ==> RefusedFor(m.accounts, actions, n, error.value))
  {
    var x, init := actions[n], actions[..n];
    CoveredExact(m, x);
    if Submitted(init, x.agent) {
      var j :| 0 <= j < |init| && init[j].agent == x.agent;
      assert actions[j].agent == x.agent;
    }
    if j :| 0 <= j < n && actions[j].agent == x.agent {
      assert init[j].agent == x.agent;
    }
    if k :| 0 <= k < |m.accounts| && m.accounts[k].id == x.agent {
      AccountFound(m.accounts, k);
    }
  }

  lemma FirstErrorNext(accounts: seq<Account>, actions: seq<AgentAction>, n: nat)
    requires n < |actions|
    ensures var before, x := FirstError(accounts, actions[..n]), actions[n];
      FirstError(accounts, actions[..n + 1])
        == if before.Some? then before
           else if Submitted(actions[..n], x.agent) then Some(InvalidArgument)
           else Unaffordable(accounts, x)
  {
    hide Submitted, Unaffordable;
    assert actions[..n + 1][..n] == actions[..n];
  }

  lemma {:induction false} FirstErrorExact(m: Market, actions: seq<AgentAction>, n: nat)
    requires Inv(m) && n <= |actions|
    ensures FirstError(m.accounts, actions[..n]).None? <==> forall j :: 0 <= j < n ==> !Refused(m.accounts, actions, j)
    ensures FirstError(m.accounts, actions[..n]).Some? ==>
      FirstRefusal(m.accounts, actions, FirstError(m.accounts, actions[..n]).value)
  {
    hide *;
    if n == 0 {
      NothingRefused(m.accounts);
      assert actions[..0] == [];
    } else {
      FirstErrorExact(m, actions, n - 1);
      FirstErrorNext(m.accounts, actions, n - 1);
      RefusalExact(m, actions, n - 1);
      if FirstError(m.accounts, actions[..n - 1]).None? && FirstError(m.accounts, actions[..n]).Some? {
        RefusedFirst(m.accounts, actions, n - 1, FirstError(m.accounts, actions[..n]).value);
      }
    }
  }

  lemma NothingRefused(accounts: seq<Account>)
    ensures FirstError(accounts, []) == None
  {
  }

  lemma RefusedFirst(accounts: seq<Account>, actions: seq<AgentAction>, i: nat, code: ErrorCode)
    requires i < |actions| && RefusedFor(accounts, actions, i, code)
    requires forall j :: 0 <= j < i ==> !Refused(accounts, actions, j)
    ensures FirstRefusal(accounts, actions, code)
  {
    hide RefusedFor, Refused;
  }

  // ---------- Fills ----------

  /** What those of higher rank take before `x`, of the submissions whose limit allows the tick. */
  ghost function TakenBefore(actions: seq<AgentAction>, x: AgentAction, tick: nat): nat {
    if actions == [] then 0
    else
      var y := actions[|actions| - 1];
      TakenBefore(actions[..|actions| - 1], x, tick)
        + (if Outranks(y, x) && LimitAllows(y, tick) then y.action.quantity else 0)
  }

  /** What is left for `x` once they are served, up to what it asks for. */
  ghost function FillFor(actions: seq<AgentAction>, x: AgentAction, tick: nat, volume: nat): nat {
    var before := TakenBefore(actions, x, tick);
    if x.action.kind == Hold || !LimitAllows(x, tick) || before >= volume then 0
    else if volume - before < x.action.quantity then volume - before
    else x.action.quantity
  }

  /** The eligible quantity of the orders with a key below `bound`. */
  ghost function BelowKey(side: ActionKind, tick: nat, bound: int): Order -> int {
    (o: Order) => if SideKey(side)(o) < bound then EligibleQuantity(tick)(o) else 0
  }

  lemma {:induction false} TakenIsBelow(accounts: seq<Account>, actions: seq<AgentAction>, x: AgentAction, tick: nat)
    requires x.action.kind != Hold
    ensures SumBy(OrdersOf(accounts, actions, x.action.kind),
                  BelowKey(x.action.kind, tick, SideKey(x.action.kind)(OrderOf(accounts, x))))
      == TakenBefore(actions, x, tick)
  {
    var side := x.action.kind;
    var w := BelowKey(side, tick, SideKey(side)(OrderOf(accounts, x)));
    if actions == [] {
    } else {
      var init, y := actions[..|actions| - 1], actions[|actions| - 1];
      TakenIsBelow(accounts, init, x, tick);
      assert init + [y] == actions;
      OrdersSnoc(accounts, init, y, side);
      SumByConcat(OrdersOf(accounts, init, side), OrderIf(accounts, y, side), w);
      if y.action.kind == side {
        RankIsKey(accounts, y, x);
        assert SumBy([OrderOf(accounts, y)], w) == w(OrderOf(accounts, y));
      }
    }
  }

  lemma RankIsKey(accounts: seq<Account>, y: AgentAction, x: AgentAction)
    requires x.action.kind == y.action.kind != Hold
    ensures Outranks(y, x) <==>
      SideKey(x.action.kind)(OrderOf(accounts, y)) < SideKey(x.action.kind)(OrderOf(accounts, x))
  {
    KeyIsPriority(OrderOf(accounts, y), OrderOf(accounts, x));
  }

  /** In sorted orders with distinct keys, the ones before place `a` are those with a smaller key. */
  lemma {:induction false} PrefixIsBelow(orders: seq<Order>, side: ActionKind, tick: nat, a: nat, n: nat)
    requires Sorted(orders, SideKey(side)) && DistinctKeys(orders, SideKey(side)) && a < |orders| && n <= |orders|
    ensures SumBy(orders[..n], BelowKey(side, tick, SideKey(side)(orders[a])))
      == Volume(orders[..if n <= a then n else a], tick)
    decreases n
  {
    hide *;
    if n == 0 {
      NothingBelow(orders, side, tick, SideKey(side)(orders[a]));
    } else {
      PrefixIsBelow(orders, side, tick, a, n - 1);
      KeyOrder(orders, side, n - 1, a);
      BelowNext(orders, side, tick, SideKey(side)(orders[a]), n - 1);
    }
  }

  lemma NothingBelow(orders: seq<Order>, side: ActionKind, tick: nat, bound: int)
    ensures SumBy(orders[..0], BelowKey(side, tick, bound)) == 0 == Volume(orders[..0], tick)
  {
  }

  /** One order more counts if its key is below the bound. */
  lemma BelowNext(orders: seq<Order>, side: ActionKind, tick: nat, bound: int, n: nat)
    requires n < |orders|
    ensures var w, before, after := BelowKey(side, tick, bound), orders[..n], orders[..n + 1];
      SumBy(after, w) - SumBy(before, w)
        == if SideKey(side)(orders[n]) < bound then Volume(after, tick) - Volume(before, tick) else 0
  {
    hide SideKey, Eligible;
    assert orders[..n + 1][..n] == orders[..n];
  }

  lemma KeyOrder(orders: seq<Order>, side: ActionKind, i: nat, a: nat)
    requires Sorted(orders, SideKey(side)) && DistinctKeys(orders, SideKey(side)) && i < |orders| && a < |orders|
    ensures SideKey(side)(orders[i]) < SideKey(side)(orders[a]) <==> i < a
  {
    hide SideKey;
    if i < a {
      assert SideKey(side)(orders[i]) != SideKey(side)(orders[a]);
    } else if a < i {
      assert SideKey(side)(orders[a]) <= SideKey(side)(orders[i]);
    }
  }

  lemma {:induction false} AllocatedAt(orders: seq<Order>, tick: nat, quantity: nat, a: nat)
    requires Unfilled(orders) && a < |orders|
    ensures Allocate(orders, tick, quantity)[a] == FillNext(orders[a], tick, Left(orders[..a], tick, quantity))
    decreases |orders|
  {
    var n := |orders| - 1;
    if a < n {
      AllocatedAt(orders[..n], tick, quantity, a);
      assert orders[..n][..a] == orders[..a];
    }
  }

  /** The fill at place `a` of a side in priority order. */
  lemma PlaceFill(orders: seq<Order>, side: ActionKind, tick: nat, quantity: nat, a: nat)
    requires Sorted(orders, SideKey(side)) && DistinctKeys(orders, SideKey(side)) && Unfilled(orders) && a < |orders|
    ensures var before := SumBy(orders, BelowKey(side, tick, SideKey(side)(orders[a])));
      Allocate(orders, tick, quantity)[a].fill
        == if !Eligible(orders[a], tick) || before >= quantity then 0 else Min(orders[a].quantity, quantity - before)
  {
    AllocatedAt(orders, tick, quantity, a);
    PrefixIsBelow(orders, side, tick, a, |orders|);
    assert orders[..|orders|] == orders;
    AllocationExact(orders[..a], tick, quantity);
  }

  /** The order of a submission is filled with what is left for it. */
  lemma SideFill(m: Market, actions: seq<AgentAction>, i: nat) returns (a: nat)
    requires DistinctKeys(actions, ActionAgent) && i < |actions| && actions[i].action.kind != Hold
    ensures var r, best := Side(m, actions, actions[i].action.kind), Best(m, actions);
      && a < |r|
      && r[a].(fill := 0) == OrderOf(m.accounts, actions[i])
      && r[a].fill == FillFor(actions, actions[i], best.tick, best.matched)
  {
    hide Best, OrdersOf, SortBy, TakenBefore, SumBy, Allocate, Volume, Outranks;
    var x, best := actions[i], Best(m, actions);
    var side, orders := x.action.kind, OrdersOf(m.accounts, actions, x.action.kind);
    var sorted := SortBy(orders, SideKey(side));
    a := OrderPlaced(m, actions, i);
    CollectedOrders(m.accounts, actions, side);
    SortedSide(orders, side);
    SortedDistinct(m.accounts, actions, side);
    assert sorted[a] == OrderOf(m.accounts, x);
    PlaceFill(sorted, side, best.tick, best.matched, a);
    SumByPermuted(orders, sorted, BelowKey(side, best.tick, SideKey(side)(sorted[a])));
    TakenIsBelow(m.accounts, actions, x, best.tick);
  }

  lemma SortedDistinct(accounts: seq<Account>, actions: seq<AgentAction>, side: ActionKind)
    requires DistinctKeys(actions, ActionAgent) && side != Hold
    ensures DistinctKeys(SortBy(OrdersOf(accounts, actions, side), SideKey(side)), SideKey(side))
  {
    BookDistinct(accounts, actions);
    var orders, book := OrdersOf(accounts, actions, side), Book(accounts, actions);
    var offset := if side == BuyYes then 0 else |OrdersOf(accounts, actions, BuyYes)|;
    forall i, j | 0 <= i < j < |orders| ensures OrderAgent(orders[i]) != OrderAgent(orders[j]) {
      assert book[offset + i] == orders[i] && book[offset + j] == orders[j];
    }
    OrderKeysDistinct(orders, side);
    SortBySorts(orders, SideKey(side));
    DistinctKeysPermuted(orders, SortBy(orders, SideKey(side)), SideKey(side));
  }

  // ---------- The trade, submission by submission ----------

  /** The order that a submission becomes, filled. */
  ghost predicate FilledOrder(m: Market, actions: seq<AgentAction>, x: AgentAction, o: Order) {
    && o.(fill := 0) == OrderOf(m.accounts, x)
    && o.fill == FillFor(actions, x, Best(m, actions).tick, Best(m, actions).matched)
  }

  lemma SubmissionTraded(m: Market, actions: seq<AgentAction>, i: nat) returns (k: nat)
    requires DistinctKeys(actions, ActionAgent) && i < |actions| && actions[i].action.kind != Hold
    ensures k < |Trade(m, actions)| && FilledOrder(m, actions, actions[i], Trade(m, actions)[k])
  {
    var a := SideFill(m, actions, i);
    k := if actions[i].action.kind == BuyYes then a else |Side(m, actions, BuyYes)| + a;
  }

  lemma TradeRequested(m: Market, actions: seq<AgentAction>, k: nat)
    requires k < |Trade(m, actions)|
    ensures Trade(m, actions)[k].side != Hold
    ensures Requested(m.accounts, actions, Trade(m, actions)[k].(fill := 0))
  {
    var trade := Trade(m, actions);
    SideOrders(m, actions, BuyYes);
    SideOrders(m, actions, SellYes);
    hide Side;
    assert trade[k] in Side(m, actions, BuyYes) || trade[k] in Side(m, actions, SellYes);
  }

  lemma OrderSubmitted(m: Market, actions: seq<AgentAction>, k: nat) returns (i: nat)
    requires DistinctKeys(actions, ActionAgent) && k < |Trade(m, actions)|
    ensures i < |actions| && actions[i].action.kind != Hold
    ensures FilledOrder(m, actions, actions[i], Trade(m, actions)[k])
  {
    hide Trade, Best, FillFor;
    var trade := Trade(m, actions);
    TradeRequested(m, actions, k);
    i :| 0 <= i < |actions| && OrderOf(m.accounts, actions[i]) == trade[k].(fill := 0);
    var l := SubmissionTraded(m, actions, i);
    TradeDistinct(m, actions);
    assert OrderAgent(trade[l]) == OrderAgent(trade[k]);
  }

  // ---------- The outcome of a call ----------

  /** The account can hold what its agent's submission brings: shares in 32 bits, cash in 64. */
  ghost predicate RoomAt(a: Account, actions: seq<AgentAction>, x: AgentAction, tick: nat, volume: nat) {
    var fill := FillFor(actions, x, tick, volume);
    if x.action.kind == BuyYes then a.yesShares + fill <= 0xFFFF_FFFF
    else a.cash + fill * tick * 10000 <= 0x7FFF_FFFF_FFFF_FFFF
  }

  ghost predicate RoomForAll(accounts: seq<Account>, actions: seq<AgentAction>, tick: nat, volume: nat) {
    forall i, k :: 0 <= i < |actions| && 0 <= k < |accounts| && accounts[k].id == actions[i].agent ==>
      RoomAt(accounts[k], actions, actions[i], tick, volume)
  }

  /** The fills are those of the submissions that got something, by agent. */
  ghost predicate ListsFills(actions: seq<AgentAction>, tick: nat, volume: nat, fills: seq<Fill>) {
    && (forall i, j :: 0 <= i < j < |fills| ==> fills[i].agent < fills[j].agent)
    && (forall f :: f in fills <==> exists i :: 0 <= i < |actions| && IsFillOf(actions, i, tick, volume, f))
  }

  ghost predicate IsFillOf(actions: seq<AgentAction>, i: nat, tick: nat, volume: nat, f: Fill)
    requires i < |actions|
  {
    && f.agent == actions[i].agent && f.side == actions[i].action.kind && f.quantity > 0
    && f.quantity == FillFor(actions, actions[i], tick, volume)
  }

  /** What a submission's fill makes of its agent's account, at the clearing price. */
  ghost predicate SettledAt(actions: seq<AgentAction>, i: nat, tick: nat, volume: nat, before: Account, after: Account)
    requires i < |actions|
  {
    var fill := FillFor(actions, actions[i], tick, volume);
    && after.id == before.id
    && (if actions[i].action.kind == BuyYes then
          after.cash == before.cash - fill * tick * 10000 && after.yesShares == before.yesShares + fill
        else
          after.cash == before.cash + fill * tick * 10000 && after.yesShares == before.yesShares - fill)
  }

  /** An account follows the submission of its agent; without one it stays as it is. */
  ghost predicate Settled(actions: seq<AgentAction>, tick: nat, volume: nat, before: Account, after: Account) {
    && (forall i :: 0 <= i < |actions| && actions[i].agent == before.id ==>
          SettledAt(actions, i, tick, volume, before, after))
    && ((forall i :: 0 <= i < |actions| ==> actions[i].agent != before.id) ==> after == before)
  }

  lemma RoomOfOrder(m: Market, actions: seq<AgentAction>, x: AgentAction, o: Order)
    requires FilledOrder(m, actions, x, o) && o.accountIndex < |m.accounts| && x.action.kind != Hold
    ensures HasRoom(m.accounts, o, Best(m, actions).tick) <==>
      RoomAt(m.accounts[o.accountIndex], actions, x, Best(m, actions).tick, Best(m, actions).matched)
  {
  }

  lemma SameAccount(m: Market, j: nat, k: nat)
    requires Inv(m) && j < |m.accounts| && k < |m.accounts| && m.accounts[j].id == m.accounts[k].id
    ensures j == k
  {
  }

  lemma RoomExact(m: Market, actions: seq<AgentAction>)
    requires Inv(m) && Admissible(m.accounts, actions)
    ensures IndicesIn(Trade(m, actions), |m.accounts|)
    ensures RoomForAll(m.accounts, actions, Best(m, actions).tick, Best(m, actions).matched) <==>
      forall k :: 0 <= k < |Trade(m, actions)| ==> HasRoom(m.accounts, Trade(m, actions)[k], Best(m, actions).tick)
  {
    var trade, best := Trade(m, actions), Best(m, actions);
    TradeAccounts(m, actions);
    hide Trade, Best, FillFor, HasRoom, RoomAt, Inv;
    if RoomForAll(m.accounts, actions, best.tick, best.matched) {
      forall k | 0 <= k < |trade| ensures HasRoom(m.accounts, trade[k], best.tick) {
        var i := OrderSubmitted(m, actions, k);
        RoomOfOrder(m, actions, actions[i], trade[k]);
      }
    }
    if forall k :: 0 <= k < |trade| ==> HasRoom(m.accounts, trade[k], best.tick) {
      forall i, k | 0 <= i < |actions| && 0 <= k < |m.accounts| && m.accounts[k].id == actions[i].agent
        ensures RoomAt(m.accounts[k], actions, actions[i], best.tick, best.matched)
      {
        if actions[i].action.kind == Hold {
          HoldHasRoom(m.accounts[k], actions, actions[i], best.tick, best.matched);
        } else {
          var l := SubmissionTraded(m, actions, i);
          SameAccount(m, trade[l].accountIndex, k);
          RoomOfOrder(m, actions, actions[i], trade[l]);
        }
      }
    }
  }

  lemma HoldHasRoom(a: Account, actions: seq<AgentAction>, x: AgentAction, tick: nat, volume: nat)
    requires x.action.kind == Hold
    ensures RoomAt(a, actions, x, tick, volume)
  {
  }

  lemma {:induction false} FillsDistinct(orders: seq<Order>)
    requires DistinctKeys(orders, OrderAgent)
    ensures DistinctKeys(FillsOf(orders), FillKey)
  {
    if orders == [] {
    } else {
      var init, last := orders[..|orders| - 1], orders[|orders| - 1];
      FillsDistinct(init);
      FillsListed(init);
      forall i | 0 <= i < |FillsOf(init)| ensures FillKey(FillsOf(init)[i]) != last.agent {
        assert FillsOf(init)[i] in FillsOf(init);
        var k :| 0 <= k < |init| && init[k].fill > 0
          && FillsOf(init)[i] == Fill(init[k].agent, init[k].side, init[k].fill);
        assert OrderAgent(orders[k]) != OrderAgent(last);
      }
    }
  }

  lemma FillsInOrder(m: Market, actions: seq<AgentAction>)
    requires DistinctKeys(actions, ActionAgent)
    ensures var fills := SortBy(FillsOf(Trade(m, actions)), FillKey);
      forall i, j :: 0 <= i < j < |fills| ==> fills[i].agent < fills[j].agent
  {
    var listed, fills := FillsOf(Trade(m, actions)), SortBy(FillsOf(Trade(m, actions)), FillKey);
    TradeDistinct(m, actions);
    FillsDistinct(Trade(m, actions));
    SortBySorts(listed, FillKey);
    DistinctKeysPermuted(listed, fills, FillKey);
    hide Trade, SortBy, FillsOf;
    forall i, j | 0 <= i < j < |fills| ensures fills[i].agent < fills[j].agent {
      assert FillKey(fills[i]) <= FillKey(fills[j]) && FillKey(fills[i]) != FillKey(fills[j]);
    }
  }

  /** The returned fills are those of the submissions. */
  lemma FillsExact(m: Market, actions: seq<AgentAction>)
    requires DistinctKeys(actions, ActionAgent)
    ensures ListsFills(actions, Best(m, actions).tick, Best(m, actions).matched,
                       SortBy(FillsOf(Trade(m, actions)), FillKey))
  {
    var trade, best := Trade(m, actions), Best(m, actions);
    var fills := SortBy(FillsOf(trade), FillKey);
    FillsInOrder(m, actions);
    SameFills(trade);
    hide Trade, Best, FillFor, SortBy, FillsOf;
    forall f | f in fills ensures exists i :: 0 <= i < |actions| && IsFillOf(actions, i, best.tick, best.matched, f) {
      var k :| 0 <= k < |trade| && trade[k].fill > 0 && f == Fill(trade[k].agent, trade[k].side, trade[k].fill);
      var i := OrderSubmitted(m, actions, k);
      assert IsFillOf(actions, i, best.tick, best.matched, f);
    }
    forall f, i | 0 <= i < |actions| && IsFillOf(actions, i, best.tick, best.matched, f) ensures f in fills {
      HoldGetsNothing(actions, actions[i], best.tick, best.matched);
      var k := SubmissionTraded(m, actions, i);
      assert f == Fill(trade[k].agent, trade[k].side, trade[k].fill);
    }
  }

  lemma HoldGetsNothing(actions: seq<AgentAction>, x: AgentAction, tick: nat, volume: nat)
    ensures x.action.kind == Hold ==> FillFor(actions, x, tick, volume) == 0
    ensures FillFor(actions, x, tick, volume) <= x.action.quantity
  {
  }

  lemma SettledBy(actions: seq<AgentAction>, tick: nat, volume: nat, fills: seq<Fill>, before: Account, after: Account)
    requires OncePerAgent(actions) && ListsFills(actions, tick, volume, fills)
    requires FollowsFill(before, after, fills, tick)
    ensures Settled(actions, tick, volume, before, after)
  {
    forall i | 0 <= i < |actions| && actions[i].agent == before.id
      ensures SettledAt(actions, i, tick, volume, before, after)
    {
      var x, q := actions[i], FillFor(actions, actions[i], tick, volume);
      HoldGetsNothing(actions, x, tick, volume);
      if q > 0 {
        var f := Fill(x.agent, x.action.kind, q);
        assert IsFillOf(actions, i, tick, volume, f);
      } else {
        forall f | f in fills ensures f.agent != before.id {
          var j :| 0 <= j < |actions| && IsFillOf(actions, j, tick, volume, f);
        }
      }
    }
    if forall i :: 0 <= i < |actions| ==> actions[i].agent != before.id {
      forall f | f in fills ensures f.agent != before.id {
        var j :| 0 <= j < |actions| && IsFillOf(actions, j, tick, volume, f);
      }
    }
  }

  /** What a trade returns and leaves. */
  ghost predicate TradeOutcome(m: Market, actions: seq<AgentAction>, tick: nat, m': Market, r: BatchResult) {
    var volume := Matching(actions, tick);
    && r.traded && r.clearingTick == tick && r.matchedQuantity == volume
    && ListsFills(actions, tick, volume, r.fills)
    && m'.lastTradedTick == tick
    && |m'.accounts| == |m.accounts|
    && forall k :: 0 <= k < |m.accounts| ==> Settled(actions, tick, volume, m.accounts[k], m'.accounts[k])
  }

  lemma TradeExact(m: Market, actions: seq<AgentAction>)
    requires Inv(m) && Traded(m, actions)
    ensures TradeOutcome(m, actions, Best(m, actions).tick, Clear(m, actions).0, Clear(m, actions).1.value)
  {
    var (m', r) := Clear(m, actions);
    TradesExactly(m, actions);
    ClearMatched(m, actions);
    AcceptedExact(m, actions);
    BestIsOptimal(m, actions);
    FillsExact(m, actions);
    ResultDescribesAccounts(m, actions);
    ResultHonoursLimits(m, actions);
    hide Clear, Trade, FillsOf, SortBy, Settled, ListsFills, FollowsFill;
    forall k | 0 <= k < |m.accounts|
      ensures Settled(actions, r.value.clearingTick, r.value.matchedQuantity, m.accounts[k], m'.accounts[k])
    {
      SettledBy(actions, r.value.clearingTick, r.value.matchedQuantity, r.value.fills, m.accounts[k], m'.accounts[k]);
    }
  }

  lemma NoTradeExact(m: Market, actions: seq<AgentAction>)
    requires Inv(m) && Accepted(m.accounts, actions) && !Traded(m, actions)
    ensures Clear(m, actions) ==
      if Best(m, actions).matched == 0 then (m, Success(BatchResult(false, 0, 0, [])))
      else (m, Failure(ArithmeticOverflow))
  {
    AcceptedExact(m, actions);
    if Matched(m, actions) {
      ClearMatched(m, actions);
    } else {
      ClearUnmatched(m, actions);
    }
  }

  lemma RefusalOutcome(m: Market, actions: seq<AgentAction>)
    requires Inv(m) && !Accepted(m.accounts, actions)
    ensures Clear(m, actions).0 == m && Clear(m, actions).1.Failure?
    ensures FirstRefusal(m.accounts, actions, Clear(m, actions).1.error)
  {
    AcceptedExact(m, actions);
    AdmissionExact(m.accounts, actions);
    FirstErrorExact(m, actions, |actions|);
    assert actions[..|actions|] == actions;
  }

  /**
   * A call, from the submissions alone. It is refused for the first submission that repeats an agent, names no
   * account or is not covered. Otherwise nothing happens if nothing matches at the optimal tick, and the call fails
   * if the volume or a receiver would overflow. Otherwise the trade takes place: at that tick, for that volume, each
   * submission filled in its rank, and each account settled at the clearing price.
   */
  lemma ClearOutcome(m: Market, actions: seq<AgentAction>, tick: nat)
    requires Inv(m) && Optimal(actions, m.lastTradedTick, tick)
    ensures var (m', r) := Clear(m, actions);
      var volume := Matching(actions, tick);
      if !Accepted(m.accounts, actions) then m' == m && r.Failure? && FirstRefusal(m.accounts, actions, r.error)
      else if volume == 0 then m' == m && r == Success(BatchResult(false, 0, 0, []))
      else if volume > 0xFFFF_FFFF || !RoomForAll(m.accounts, actions, tick, volume) then
        m' == m && r == Failure(ArithmeticOverflow)
      else r.Success? && TradeOutcome(m, actions, tick, m', r.value)
  {
    BestIsOptimal(m, actions);
    OptimalUnique(actions, m.lastTradedTick, tick, Best(m, actions).tick);
    AcceptedExact(m, actions);
    if !Accepted(m.accounts, actions) {
      RefusalOutcome(m, actions);
    } else {
      RoomExact(m, actions);
      TradesExactly(m, actions);
      hide Clear, Trade, Best, Optimal, Accepted, HasRoom, RoomForAll, Inv, TradeOutcome;
      if Traded(m, actions) { TradeExact(m, actions); } else { NoTradeExact(m, actions); }
    }
  }
}
