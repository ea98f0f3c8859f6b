/** What the auction promises for every call and every sequence of calls. */
module MarketProperties {
  import opened Core
  import opened Ordering
  import opened MarketState
  import opened MarketClearing
  import opened MarketSettlement
  import opened Counting

  // ---------- One call ----------

  lemma {:induction false} VolumeBounded(accounts: seq<Account>, actions: seq<AgentAction>, side: ActionKind, tick: nat)
    requires side != Hold
    ensures Volume(OrdersOf(accounts, actions, side), tick) <= 8 * |actions|
  {
    if actions == [] {
    } else {
      var earlier, x := OrdersOf(accounts, actions[..|actions| - 1], side), actions[|actions| - 1];
      VolumeBounded(accounts, actions[..|actions| - 1], side, tick);
      if x.action.kind == side {
        VolumeSplits(OrdersOf(accounts, actions, side), tick);
        assert OrdersOf(accounts, actions, side)[..|earlier|] == earlier;
      } else {
        assert OrdersOf(accounts, actions, side) == earlier;
      }
    }
  }

  /** Agents are distinct 32-bit numbers and ask for at most 8: the 64-bit volumes never overflow. */
  lemma VolumesFit(accounts: seq<Account>, actions: seq<AgentAction>)
    requires DistinctKeys(actions, ActionAgent)
    ensures !VolumeOverflow(OrdersOf(accounts, actions, BuyYes), OrdersOf(accounts, actions, SellYes))
  {
    var agents: seq<nat> := seq(|actions|, i requires 0 <= i < |actions| => actions[i].agent as nat);
    forall i, j | 0 <= i < j < |agents| ensures agents[i] != agents[j] {
      assert ActionAgent(actions[i]) != ActionAgent(actions[j]);
    }
    DistinctBelow(agents, U32_MAX + 1);
    VolumeBounded(accounts, actions, BuyYes, 1);
    VolumeBounded(accounts, actions, SellYes, TICKS);
  }

  /** Something can be matched, and its quantity fits into 32 bits. */
  ghost predicate Matched(m: Market, actions: seq<AgentAction>) {
    0 < Best(m, actions).matched <= U32_MAX
  }

  /** The order's account has room for what it receives. */
  predicate HasRoom(accounts: seq<Account>, o: Order, tick: nat)
    requires o.accountIndex < |accounts|
  {
    var a := accounts[o.accountIndex];
    o.fill == 0 ||
    (if o.side == BuyYes then a.yesShares + o.fill <= U32_MAX else a.cash + Notional(o.fill, tick) <= I64_MAX)
  }

  /** A matched, admissible call settles the trade, up to room in the receiving accounts. */
  lemma ClearMatched(m: Market, actions: seq<AgentAction>)
    requires Inv(m) && Admissible(m.accounts, actions) && Matched(m, actions)
    ensures IndicesIn(Trade(m, actions), |m.accounts|)
    ensures var updated := ApplyAll(m.accounts, Trade(m, actions), Best(m, actions).tick);
      Clear(m, actions) ==
        if updated.Failure? then (m, Failure(ArithmeticOverflow))
        else (Market(updated.value, Best(m, actions).tick),
              Success(BatchResult(true, Best(m, actions).tick, Best(m, actions).matched,
                                  SortBy(FillsOf(Trade(m, actions)), FillKey))))
  {
    var buys, sells := OrdersOf(m.accounts, actions, BuyYes), OrdersOf(m.accounts, actions, SellYes);
    AdmissionExact(m.accounts, actions);
    VolumesFit(m.accounts, actions);
    CollectedOrders(m.accounts, actions, BuyYes);
    CollectedOrders(m.accounts, actions, SellYes);
    AllocationSucceeds(buys, sells, m.lastTradedTick);
    TradeAccounts(m, actions);
  }

  /** Without a match nothing moves. */
  lemma ClearUnmatched(m: Market, actions: seq<AgentAction>)
    requires Admissible(m.accounts, actions) && !Matched(m, actions)
    ensures Clear(m, actions).0 == m
    ensures Clear(m, actions).1 ==
      if Best(m, actions).matched == 0 then Success(NO_TRADE) else Failure(ArithmeticOverflow)
  {
    AdmissionExact(m.accounts, actions);
    VolumesFit(m.accounts, actions);
  }

  /** The corruption code is never returned, and a failed call changes nothing. */
  lemma FailureIsAtomic(m: Market, actions: seq<AgentAction>)
    requires Inv(m)
    ensures Clear(m, actions).1 != Failure(InvalidFormat)
    ensures Clear(m, actions).1.Failure? ==> Clear(m, actions).0 == m
  {
    AdmissionExact(m.accounts, actions);
    if !Admissible(m.accounts, actions) {
      RefusalCodes(m.accounts, actions);
    } else if Matched(m, actions) {
      ClearMatched(m, actions);
    } else {
      ClearUnmatched(m, actions);
    }
  }

  lemma {:induction false} RefusalCodes(accounts: seq<Account>, actions: seq<AgentAction>)
    ensures FirstError(accounts, actions) in {None, Some(InvalidArgument), Some(InsufficientResources)}
  {
    if actions == [] {
    } else {
      RefusalCodes(accounts, actions[..|actions| - 1]);
    }
  }

  /** A trade happens exactly when the call is admissible, something matches, and every receiver has room. */
  lemma TradesExactly(m: Market, actions: seq<AgentAction>)
    requires Inv(m)
    ensures Admissible(m.accounts, actions) ==> IndicesIn(Trade(m, actions), |m.accounts|)
    ensures (Clear(m, actions).1.Success? && Clear(m, actions).1.value.traded) <==>
      (Admissible(m.accounts, actions) && Matched(m, actions)
       && forall i :: 0 <= i < |Trade(m, actions)| ==>
            HasRoom(m.accounts, Trade(m, actions)[i], Best(m, actions).tick))
  {
    AdmissionExact(m.accounts, actions);
    if Admissible(m.accounts, actions) {
      TradeAccounts(m, actions);
      if Matched(m, actions) {
        ClearMatched(m, actions);
        RoomIsEnough(m, actions);
      } else {
        ClearUnmatched(m, actions);
      }
    }
  }

  lemma RoomIsEnough(m: Market, actions: seq<AgentAction>)
    requires Inv(m) && Admissible(m.accounts, actions)
    ensures IndicesIn(Trade(m, actions), |m.accounts|)
    ensures ApplyAll(m.accounts, Trade(m, actions), Best(m, actions).tick).Success? <==>
      forall i :: 0 <= i < |Trade(m, actions)| ==> HasRoom(m.accounts, Trade(m, actions)[i], Best(m, actions).tick)
  {
    var trade, tick := Trade(m, actions), Best(m, actions).tick;
    TradeAccounts(m, actions);
    ApplyAllPointwise(m.accounts, trade, tick);
    SideOrders(m, actions, BuyYes);
    SideOrders(m, actions, SellYes);
    forall i | 0 <= i < |trade|
      ensures Moved(m.accounts[trade[i].accountIndex], trade[i], tick).Success? <==> HasRoom(m.accounts, trade[i], tick)
    {
      assert trade[i] in Side(m, actions, BuyYes) || trade[i] in Side(m, actions, SellYes);
      MovedWithRoom(m.accounts, trade[i], tick);
    }
  }

  lemma MovedWithRoom(accounts: seq<Account>, o: Order, tick: nat)
    requires o.accountIndex < |accounts| && o.side != Hold
    requires o.side == BuyYes ==> accounts[o.accountIndex].cash >= Notional(o.fill, tick)
    requires o.side == SellYes ==> accounts[o.accountIndex].yesShares >= o.fill
    ensures Moved(accounts[o.accountIndex], o, tick).Success? <==> HasRoom(accounts, o, tick)
  {
  }

  /** Cash and shares are conserved, nobody goes into debt, and the accounts stay in order. */
  lemma ClearConserves(m: Market, actions: seq<AgentAction>)
    requires Inv(m)
    ensures var m' := Clear(m, actions).0;
      && Inv(m')
      && |m'.accounts| == |m.accounts|
      && TotalCash(m'.accounts) == TotalCash(m.accounts)
      && TotalShares(m'.accounts) == TotalShares(m.accounts)
  {
    FailureIsAtomic(m, actions);
    AdmissionExact(m.accounts, actions);
    if Admissible(m.accounts, actions) {
      if Matched(m, actions) {
        ClearMatched(m, actions);
        if ApplyAll(m.accounts, Trade(m, actions), Best(m, actions).tick).Success? {
          TradeConserves(m, actions);
        }
      } else {
        ClearUnmatched(m, actions);
      }
    }
  }

  lemma TradeConserves(m: Market, actions: seq<AgentAction>)
    requires Inv(m) && Admissible(m.accounts, actions) && IndicesIn(Trade(m, actions), |m.accounts|)
    requires ApplyAll(m.accounts, Trade(m, actions), Best(m, actions).tick).Success?
    ensures var after := ApplyAll(m.accounts, Trade(m, actions), Best(m, actions).tick).value;
      && Inv(Market(after, Best(m, actions).tick))
      && TotalCash(after) == TotalCash(m.accounts)
      && TotalShares(after) == TotalShares(m.accounts)
  {
    var trade, best := Trade(m, actions), Best(m, actions);
    BestIsCandidate(OrdersOf(m.accounts, actions, BuyYes), OrdersOf(m.accounts, actions, SellYes), m.lastTradedTick,
                    TICKS);
    NetIsZero(m, actions);
    ApplyAllConserves(m.accounts, trade, best.tick);
    TradeSolvent(m, actions);
  }

  lemma NetIsZero(m: Market, actions: seq<AgentAction>)
    ensures Net(Trade(m, actions)) == 0
  {
    SideOrders(m, actions, BuyYes);
    SideOrders(m, actions, SellYes);
    SideTotal(m, actions, BuyYes);
    SideTotal(m, actions, SellYes);
    NetOfSide(Side(m, actions, BuyYes), BuyYes);
    NetOfSide(Side(m, actions, SellYes), SellYes);
    NetConcat(Side(m, actions, BuyYes), Side(m, actions, SellYes));
  }

  lemma TradeSolvent(m: Market, actions: seq<AgentAction>)
    requires Inv(m) && Admissible(m.accounts, actions) && IndicesIn(Trade(m, actions), |m.accounts|)
    requires ApplyAll(m.accounts, Trade(m, actions), Best(m, actions).tick).Success?
    ensures var after := ApplyAll(m.accounts, Trade(m, actions), Best(m, actions).tick).value;
      forall k :: 0 <= k < |after| ==> after[k].cash >= 0
  {
    var trade, tick := Trade(m, actions), Best(m, actions).tick;
    var after := ApplyAll(m.accounts, trade, tick).value;
    TradeAccounts(m, actions);
    ApplyAllPointwise(m.accounts, trade, tick);
    forall k | 0 <= k < |after| ensures after[k].cash >= 0 {
      if i :| 0 <= i < |trade| && trade[i].accountIndex == k {
        assert Moved(m.accounts[k], trade[i], tick) == Success(after[k]);
        MovedStaysSolvent(m.accounts[k], trade[i], tick);
      }
    }
  }

  lemma MovedStaysSolvent(a: Account, o: Order, tick: nat)
    requires a.cash >= 0 && Moved(a, o, tick).Success? && (o.side == BuyYes ==> a.cash >= Notional(o.fill, tick))
    ensures Moved(a, o, tick).value.cash >= 0
  {
  }

  // ---------- What the result says ----------

  lemma {:induction false} FillsListed(orders: seq<Order>)
    ensures forall f :: f in FillsOf(orders) <==>
      exists i :: 0 <= i < |orders| && orders[i].fill > 0 && f == Fill(orders[i].agent, orders[i].side, orders[i].fill)
  {
    if orders == [] {
    } else {
      var init := orders[..|orders| - 1];
      FillsListed(init);
      forall f ensures f in FillsOf(orders) <==>
        exists i :: 0 <= i < |orders| && orders[i].fill > 0
          && f == Fill(orders[i].agent, orders[i].side, orders[i].fill)
      {
        if f in FillsOf(init) {
          var i :| 0 <= i < |init| && init[i].fill > 0 && f == Fill(init[i].agent, init[i].side, init[i].fill);
          assert orders[i] == init[i];
        }
        if i :| 0 <= i < |orders| && orders[i].fill > 0 && f == Fill(orders[i].agent, orders[i].side, orders[i].fill) {
          if i < |init| { assert init[i] == orders[i]; }
        }
      }
    }
  }

  /** The account of `agent` after its fill, if it has one. */
  ghost predicate FollowsFill(before: Account, after: Account, fills: seq<Fill>, tick: nat) {
    && after.id == before.id
    && (forall f :: f in fills && f.agent == before.id ==>
          if f.side == BuyYes then
            && after.cash == before.cash - Notional(f.quantity, tick)
            && after.yesShares == before.yesShares + f.quantity
          else
            && after.cash == before.cash + Notional(f.quantity, tick)
            && after.yesShares == before.yesShares - f.quantity)
    && ((forall f :: f in fills ==> f.agent != before.id) ==> after == before)
  }

  /** The fill answers a submission of the agent, within its quantity and its limit. */
  ghost predicate Answers(actions: seq<AgentAction>, f: Fill, tick: nat) {
    exists i :: 0 <= i < |actions|
      && actions[i].agent == f.agent && actions[i].action.kind == f.side
      && 0 < f.quantity <= actions[i].action.quantity
      && (if f.side == BuyYes then tick <= actions[i].action.priceTick else actions[i].action.priceTick <= tick)
  }

  ghost predicate Traded(m: Market, actions: seq<AgentAction>) {
    Clear(m, actions).1.Success? && Clear(m, actions).1.value.traded
  }

  /** After a trade, the fills tell exactly what happened to every account. */
  lemma ResultDescribesAccounts(m: Market, actions: seq<AgentAction>)
    requires Inv(m) && Traded(m, actions)
    ensures var (m', r) := Clear(m, actions);
      && |m'.accounts| == |m.accounts|
      && forall k :: 0 <= k < |m.accounts| ==>
           FollowsFill(m.accounts[k], m'.accounts[k], r.value.fills, r.value.clearingTick)
  {
    TradesExactly(m, actions);
    ClearMatched(m, actions);
    var trade, tick := Trade(m, actions), Best(m, actions).tick;
    var fills, after := FillsOf(trade), ApplyAll(m.accounts, trade, tick).value;
    TradeAccounts(m, actions);
    ApplyAllPointwise(m.accounts, trade, tick);
    SameFills(trade);
    forall k | 0 <= k < |m.accounts| ensures FollowsFill(m.accounts[k], after[k], SortBy(fills, FillKey), tick) {
      if i :| 0 <= i < |trade| && trade[i].accountIndex == k {
        assert Moved(m.accounts[k], trade[i], tick) == Success(after[k]);
        TradeDistinct(m, actions);
        AccountFollows(m.accounts[k], after[k], trade, i, tick);
      } else {
        NoOrderNoFill(m, actions, k);
      }
    }
  }

  lemma SameFills(trade: seq<Order>)
    ensures forall f :: f in SortBy(FillsOf(trade), FillKey) <==>
      exists i :: 0 <= i < |trade| && trade[i].fill > 0 && f == Fill(trade[i].agent, trade[i].side, trade[i].fill)
  {
    FillsListed(trade);
    SortBySorts(FillsOf(trade), FillKey);
    SameElements(FillsOf(trade), SortBy(FillsOf(trade), FillKey));
  }

  lemma AccountFollows(before: Account, after: Account, trade: seq<Order>, i: nat, tick: nat)
    requires i < |trade| && trade[i].agent == before.id && DistinctKeys(trade, OrderAgent)
    requires Moved(before, trade[i], tick) == Success(after)
    ensures FollowsFill(before, after, SortBy(FillsOf(trade), FillKey), tick)
  {
    SameFills(trade);
    var fills := SortBy(FillsOf(trade), FillKey);
    hide SortBy, FillsOf;
    forall f | f in fills && f.agent == before.id
      ensures trade[i].fill > 0 && f == Fill(trade[i].agent, trade[i].side, trade[i].fill)
    {
      var j :| 0 <= j < |trade| && trade[j].fill > 0 && f == Fill(trade[j].agent, trade[j].side, trade[j].fill);
      assert OrderAgent(trade[i]) == OrderAgent(trade[j]);
    }
    if trade[i].fill > 0 {
      assert Fill(trade[i].agent, trade[i].side, trade[i].fill) in fills;
    }
  }

  lemma NoOrderNoFill(m: Market, actions: seq<AgentAction>, k: nat)
    requires Inv(m) && Admissible(m.accounts, actions) && k < |m.accounts|
    requires forall i :: 0 <= i < |Trade(m, actions)| ==> Trade(m, actions)[i].accountIndex != k
    ensures forall f :: f in SortBy(FillsOf(Trade(m, actions)), FillKey) ==> f.agent != m.accounts[k].id
  {
    var trade := Trade(m, actions);
    TradeAccounts(m, actions);
    SameFills(trade);
    forall f | f in SortBy(FillsOf(trade), FillKey) ensures f.agent != m.accounts[k].id {
      var i :| 0 <= i < |trade| && trade[i].fill > 0 && f == Fill(trade[i].agent, trade[i].side, trade[i].fill);
      var j := trade[i].accountIndex;
      assert if j < k then m.accounts[j].id < m.accounts[k].id else m.accounts[k].id < m.accounts[j].id;
    }
  }

  /** Every fill answers a submission within quantity and limit; the tick and volume are the optimal ones. */
  lemma ResultHonoursLimits(m: Market, actions: seq<AgentAction>)
    requires Inv(m) && Traded(m, actions)
    ensures var r := Clear(m, actions).1.value;
      && r.clearingTick == Best(m, actions).tick && r.matchedQuantity == Best(m, actions).matched
      && Clear(m, actions).0.lastTradedTick == r.clearingTick
      && Sorted(r.fills, FillKey)
      && forall f :: f in r.fills ==> Answers(actions, f, r.clearingTick)
  {
    TradesExactly(m, actions);
    ClearMatched(m, actions);
    var trade := Trade(m, actions);
    SameFills(trade);
    SortBySorts(FillsOf(trade), FillKey);
    forall f | f in SortBy(FillsOf(trade), FillKey) ensures Answers(actions, f, Best(m, actions).tick) {
      var i :| 0 <= i < |trade| && trade[i].fill > 0 && f == Fill(trade[i].agent, trade[i].side, trade[i].fill);
      FillAnswers(m, actions, trade[i]);
    }
  }

  lemma FillAnswers(m: Market, actions: seq<AgentAction>, o: Order)
    requires o in Trade(m, actions) && o.fill > 0
    ensures Answers(actions, Fill(o.agent, o.side, o.fill), Best(m, actions).tick)
  {
    SideOrders(m, actions, BuyYes);
    SideOrders(m, actions, SellYes);
    assert o in Side(m, actions, BuyYes) || o in Side(m, actions, SellYes);
    var k :| 0 <= k < |actions| && OrderOf(m.accounts, actions[k]) == o.(fill := 0);
    assert actions[k].agent == o.agent;
  }

  /** In the allocation of a side, an order that gets anything leaves no eligible one of higher priority short. */
  lemma SidePriority(m: Market, actions: seq<AgentAction>, side: ActionKind, i: nat, j: nat)
    requires side != Hold && i < |Side(m, actions, side)| && j < |Side(m, actions, side)|
    ensures var r := Side(m, actions, side);
      && (HasPriority(r[i], r[j]) && Eligible(r[i], Best(m, actions).tick) && r[j].fill > 0 ==>
          r[i].fill == r[i].quantity)
      && (0 < r[i].fill < r[i].quantity && 0 < r[j].fill < r[j].quantity ==> i == j)
  {
    var orders, best := OrdersOf(m.accounts, actions, side), Best(m, actions);
    CollectedOrders(m.accounts, actions, side);
    SortedSide(orders, side);
    var sorted := SortBy(orders, SideKey(side));
    OnePartialFill(sorted, best.tick, best.matched, i, j);
    if HasPriority(sorted[i], sorted[j]) && Eligible(sorted[i], best.tick) {
      PriorityHolds(sorted, side, best.tick, best.matched, i, j);
    }
  }

  lemma {:induction false} OrderListed(accounts: seq<Account>, actions: seq<AgentAction>, i: nat)
    requires i < |actions| && actions[i].action.kind != Hold
    ensures OrderOf(accounts, actions[i]) in OrdersOf(accounts, actions, actions[i].action.kind)
    decreases |actions|
  {
    var init := actions[..|actions| - 1];
    if i < |init| {
      OrderListed(accounts, init, i);
    } else {
      assert actions[i] == actions[|actions| - 1];
    }
  }

  /** The order that a submission became. */
  lemma OrderPlaced(m: Market, actions: seq<AgentAction>, i: nat) returns (a: nat)
    requires i < |actions| && actions[i].action.kind != Hold
    ensures var r := Side(m, actions, actions[i].action.kind);
      a < |r| && r[a].(fill := 0) == OrderOf(m.accounts, actions[i])
  {
    var side := actions[i].action.kind;
    var orders := OrdersOf(m.accounts, actions, side);
    OrderListed(m.accounts, actions, i);
    SortBySorts(orders, SideKey(side));
    SameElements(orders, SortBy(orders, SideKey(side)));
    CollectedOrders(m.accounts, actions, side);
    a := Position(SortBy(orders, SideKey(side)), OrderOf(m.accounts, actions[i]));
  }

  /** The fill of a submission in the result is the fill of its order. */
  lemma FillOfOrder(m: Market, actions: seq<AgentAction>, i: nat, a: nat)
    requires DistinctKeys(actions, ActionAgent) && i < |actions| && actions[i].action.kind != Hold
    requires a < |Side(m, actions, actions[i].action.kind)|
    requires Side(m, actions, actions[i].action.kind)[a].(fill := 0) == OrderOf(m.accounts, actions[i])
    ensures forall q: uint8 :: Filled(SortBy(FillsOf(Trade(m, actions)), FillKey), actions[i], q) <==>
      q > 0 && q == Side(m, actions, actions[i].action.kind)[a].fill
  {
    hide Side, OrdersOf;
    var trade, x := Trade(m, actions), actions[i];
    var k := if x.action.kind == BuyYes then a else |Side(m, actions, BuyYes)| + a;
    assert trade[k] == Side(m, actions, x.action.kind)[a];
    TradeDistinct(m, actions);
    SameFills(trade);
    forall q: uint8 | Filled(SortBy(FillsOf(trade), FillKey), x, q) ensures q > 0 && q == trade[k].fill {
      var l :| 0 <= l < |trade| && trade[l].fill > 0
        && Fill(x.agent, x.action.kind, q) == Fill(trade[l].agent, trade[l].side, trade[l].fill);
      assert OrderAgent(trade[l]) == OrderAgent(trade[k]);
    }
  }

  /** The result holds a fill of this quantity for the submission. */
  predicate Filled(fills: seq<Fill>, x: AgentAction, quantity: uint8) {
    Fill(x.agent, x.action.kind, quantity) in fills
  }

  /** Same side and better price, or the same price and the lower agent id. */
  predicate Outranks(x: AgentAction, y: AgentAction) {
    && x.action.kind == y.action.kind
    && x.action.kind != Hold
    && (if x.action.priceTick == y.action.priceTick then x.agent < y.agent
        else if x.action.kind == BuyYes then x.action.priceTick > y.action.priceTick
        else x.action.priceTick < y.action.priceTick)
  }

  predicate LimitAllows(x: AgentAction, tick: nat) {
    if x.action.kind == BuyYes then tick <= x.action.priceTick else x.action.priceTick <= tick
  }

  /**
   * Price-agent priority, of the submissions and the returned fills: if a submission got anything, then
   * every one that outranks it and whose limit allows the clearing tick was filled completely.
   */
  lemma TradePriority(m: Market, actions: seq<AgentAction>, i: nat, j: nat, q: uint8)
    requires Inv(m) && Traded(m, actions) && i < |actions| && j < |actions|
    requires var r := Clear(m, actions).1.value;
      && Outranks(actions[i], actions[j]) && LimitAllows(actions[i], r.clearingTick)
      && Filled(r.fills, actions[j], q)
    ensures Filled(Clear(m, actions).1.value.fills, actions[i], actions[i].action.quantity)
  {
    TradesExactly(m, actions);
    ClearMatched(m, actions);
    hide Clear, Side, OrdersOf, Best, Inv;
    var a := OrderPlaced(m, actions, i);
    var b := OrderPlaced(m, actions, j);
    FillOfOrder(m, actions, i, a);
    FillOfOrder(m, actions, j, b);
    SidePriority(m, actions, actions[i].action.kind, a, b);
  }

  /** At most one submission of a side is filled in part. */
  lemma OnePartialSubmission(m: Market, actions: seq<AgentAction>, i: nat, j: nat, p: uint8, q: uint8)
    requires Inv(m) && Traded(m, actions) && i < |actions| && j < |actions|
    requires actions[i].action.kind == actions[j].action.kind
    requires var fills := Clear(m, actions).1.value.fills;
      && Filled(fills, actions[i], p) && p < actions[i].action.quantity
      && Filled(fills, actions[j], q) && q < actions[j].action.quantity
    ensures i == j
  {
    TradesExactly(m, actions);
    ClearMatched(m, actions);
    hide Clear, Side, OrdersOf, Best, Inv;
    FilledHasSide(m, actions, i, p);
    var a := OrderPlaced(m, actions, i);
    var b := OrderPlaced(m, actions, j);
    FillOfOrder(m, actions, i, a);
    FillOfOrder(m, actions, j, b);
    SidePriority(m, actions, actions[i].action.kind, a, b);
  }

  lemma FilledHasSide(m: Market, actions: seq<AgentAction>, i: nat, q: uint8)
    requires i < |actions| && Filled(SortBy(FillsOf(Trade(m, actions)), FillKey), actions[i], q)
    ensures actions[i].action.kind != Hold
  {
    SameFills(Trade(m, actions));
    SideOrders(m, actions, BuyYes);
    SideOrders(m, actions, SellYes);
  }

  // ---------- The order of submission ----------

  lemma AdmissiblePermuted(accounts: seq<Account>, a: seq<AgentAction>, b: seq<AgentAction>)
    requires multiset(a) == multiset(b) && Admissible(accounts, a)
    ensures Admissible(accounts, b)
  {
    DistinctKeysPermuted(a, b, ActionAgent);
    SameElements(a, b);
    forall i | 0 <= i < |b| ensures Unaffordable(accounts, b[i]).None? {
      assert b[i] in a;
    }
  }

  function OrderIf(accounts: seq<Account>, x: AgentAction, side: ActionKind): seq<Order> {
    if x.action.kind == side then [OrderOf(accounts, x)] else []
  }

  lemma OrdersSnoc(accounts: seq<Account>, init: seq<AgentAction>, x: AgentAction, side: ActionKind)
    ensures OrdersOf(accounts, init + [x], side) == OrdersOf(accounts, init, side) + OrderIf(accounts, x, side)
  {
    assert (init + [x])[..|init|] == init;
  }

  lemma {:induction false} OrdersWithout(accounts: seq<Account>, actions: seq<AgentAction>, k: nat, side: ActionKind)
    requires k < |actions|
    ensures multiset(OrdersOf(accounts, actions, side))
      == multiset(OrdersOf(accounts, actions[..k] + actions[k + 1..], side))
         + multiset(OrderIf(accounts, actions[k], side))
    decreases |actions|
  {
    var n := |actions| - 1;
    var init, last := actions[..n], actions[n];
    assert actions == init + [last];
    OrdersSnoc(accounts, init, last, side);
    if k < n {
      var rest := init[..k] + init[k + 1..];
      assert actions[..k] + actions[k + 1..] == rest + [last];
      OrdersSnoc(accounts, rest, last, side);
      OrdersWithout(accounts, init, k, side);
    } else {
      assert actions[..k] + actions[k + 1..] == init;
    }
  }

  lemma {:induction false} OrdersPermuted(accounts: seq<Account>, a: seq<AgentAction>, b: seq<AgentAction>,
                                          side: ActionKind)
    requires multiset(a) == multiset(b)
    ensures multiset(OrdersOf(accounts, a, side)) == multiset(OrdersOf(accounts, b, side))
  {
    SameElements(a, b);
    if a == [] {
    } else {
      var init, x := a[..|a| - 1], a[|a| - 1];
      assert a == init + [x];
      assert x in a;
      var k := Position(b, x);
      var rest := b[..k] + b[k + 1..];
      assert b == b[..k] + ([x] + b[k + 1..]);
      assert multiset(rest) == multiset(b) - multiset{x};
      OrdersPermuted(accounts, init, rest, side);
      OrdersSnoc(accounts, init, x, side);
      OrdersWithout(accounts, b, k, side);
    }
  }

  lemma {:induction false} BestPermuted(buys: seq<Order>, buys': seq<Order>, sells: seq<Order>, sells': seq<Order>,
                                        reference: nat, last: nat)
    requires multiset(buys) == multiset(buys') && multiset(sells) == multiset(sells') && last >= 1
    ensures BestUpTo(buys, sells, reference, last) == BestUpTo(buys', sells', reference, last)
    decreases last
  {
    SumByPermuted(buys, buys', EligibleQuantity(last));
    SumByPermuted(sells, sells', EligibleQuantity(last));
    if last > 1 { BestPermuted(buys, buys', sells, sells', reference, last - 1); }
  }

  lemma OrderKeysDistinct(orders: seq<Order>, side: ActionKind)
    requires DistinctKeys(orders, OrderAgent)
    ensures DistinctKeys(orders, SideKey(side))
  {
    forall i, j | 0 <= i < j < |orders| ensures SideKey(side)(orders[i]) != SideKey(side)(orders[j]) {
      assert OrderAgent(orders[i]) != OrderAgent(orders[j]);
      KeysSeparateAgents(orders[i], orders[j], side);
    }
  }

  lemma KeysSeparateAgents(a: Order, b: Order, side: ActionKind)
    requires a.agent != b.agent
    ensures SideKey(side)(a) != SideKey(side)(b)
  {
    if side == BuyYes {
      assert BuyKey(a) == a.agent - 0x1_0000_0000 * a.limit;
      assert BuyKey(b) == b.agent - 0x1_0000_0000 * b.limit;
    } else {
      assert SellKey(a) == 0x1_0000_0000 * a.limit + a.agent;
      assert SellKey(b) == 0x1_0000_0000 * b.limit + b.agent;
    }
  }

  lemma {:induction false} SortedOrdersPermuted(accounts: seq<Account>, a: seq<AgentAction>, b: seq<AgentAction>,
                                                side: ActionKind)
    requires multiset(a) == multiset(b) && DistinctKeys(a, ActionAgent) && side != Hold
    ensures SortBy(OrdersOf(accounts, a, side), SideKey(side)) == SortBy(OrdersOf(accounts, b, side), SideKey(side))
  {
    OrdersPermuted(accounts, a, b, side);
    BookDistinct(accounts, a);
    var orders, book := OrdersOf(accounts, a, side), Book(accounts, a);
    var offset := if side == BuyYes then 0 else |OrdersOf(accounts, a, BuyYes)|;
    forall i, j | 0 <= i < j < |orders| ensures OrderAgent(orders[i]) != OrderAgent(orders[j]) {
      assert book[offset + i] == orders[i] && book[offset + j] == orders[j];
    }
    OrderKeysDistinct(orders, side);
    SortByPermuted(orders, OrdersOf(accounts, b, side), SideKey(side));
  }

  /**
   * The order of submission does not matter: every permutation succeeds or fails alike, and if it
   * succeeds it gives the same result, the same accounts and the same last tick.
   */
  lemma OrderInvariant(m: Market, a: seq<AgentAction>, b: seq<AgentAction>)
    requires multiset(a) == multiset(b)
    ensures Clear(m, a).0 == Clear(m, b).0 || !Inv(m)
    ensures Inv(m) ==> (Clear(m, a).1 == Clear(m, b).1 || (Clear(m, a).1.Failure? && Clear(m, b).1.Failure?))
  {
    if Inv(m) {
      AdmissionExact(m.accounts, a);
      AdmissionExact(m.accounts, b);
      if Admissible(m.accounts, a) {
        AdmissiblePermuted(m.accounts, a, b);
        AdmittedInvariant(m, a, b);
      } else if Admissible(m.accounts, b) {
        AdmissiblePermuted(m.accounts, b, a);
      } else {
        FailureIsAtomic(m, a);
        FailureIsAtomic(m, b);
      }
    }
  }

  lemma AdmittedInvariant(m: Market, a: seq<AgentAction>, b: seq<AgentAction>)
    requires multiset(a) == multiset(b) && Admissible(m.accounts, a) && Admissible(m.accounts, b)
    ensures Clear(m, a) == Clear(m, b)
  {
    AdmissionExact(m.accounts, a);
    AdmissionExact(m.accounts, b);
    OrdersPermuted(m.accounts, a, b, BuyYes);
    OrdersPermuted(m.accounts, a, b, SellYes);
    SortedOrdersPermuted(m.accounts, a, b, BuyYes);
    SortedOrdersPermuted(m.accounts, a, b, SellYes);
    CollectedIndices(m.accounts, a, BuyYes);
    CollectedIndices(m.accounts, a, SellYes);
    CollectedIndices(m.accounts, b, BuyYes);
    CollectedIndices(m.accounts, b, SellYes);
    ClearOrdersPermuted(m, OrdersOf(m.accounts, a, BuyYes), OrdersOf(m.accounts, b, BuyYes),
                        OrdersOf(m.accounts, a, SellYes), OrdersOf(m.accounts, b, SellYes));
  }

  lemma ClearOrdersPermuted(m: Market, buys: seq<Order>, buys': seq<Order>, sells: seq<Order>, sells': seq<Order>)
    requires IndicesIn(buys, |m.accounts|) && IndicesIn(sells, |m.accounts|)
    requires IndicesIn(buys', |m.accounts|) && IndicesIn(sells', |m.accounts|)
    requires multiset(buys) == multiset(buys') && multiset(sells) == multiset(sells')
    requires SortBy(buys, BuyKey) == SortBy(buys', BuyKey) && SortBy(sells, SellKey) == SortBy(sells', SellKey)
    ensures ClearOrders(m, buys, sells) == ClearOrders(m, buys', sells')
  {
    SumByPermuted(buys, buys', EligibleQuantity(1));
    SumByPermuted(sells, sells', EligibleQuantity(TICKS));
    BestPermuted(buys, buys', sells, sells', m.lastTradedTick, TICKS);
  }

  // ---------- Any sequence of calls ----------

  function Run(m: Market, calls: seq<seq<AgentAction>>): Market
    decreases |calls|
  {
    if calls == [] then m else Run(Clear(m, calls[0]).0, calls[1..])
  }

  /** Over any sequence of calls, failed ones included, totals never change and nobody goes into debt. */
  lemma RunConserves(accounts: seq<Account>, referenceTick: uint32, calls: seq<seq<AgentAction>>)
    requires Create(accounts, referenceTick).Success?
    ensures var m := Run(Create(accounts, referenceTick).value, calls);
      && Inv(m)
      && |m.accounts| == |accounts|
      && TotalCash(m.accounts) == TotalCash(accounts)
      && TotalShares(m.accounts) == TotalShares(accounts)
  {
    CreateExact(accounts, referenceTick);
    var m := Create(accounts, referenceTick).value;
    SumByPermuted(accounts, m.accounts, Cash);
    SumByPermuted(accounts, m.accounts, Shares);
    SameElements(accounts, m.accounts);
    RunKeeps(m, calls);
  }

  lemma {:induction false} RunKeeps(m: Market, calls: seq<seq<AgentAction>>)
    requires Inv(m)
    ensures var m' := Run(m, calls);
      && Inv(m')
      && |m'.accounts| == |m.accounts|
      && TotalCash(m'.accounts) == TotalCash(m.accounts)
      && TotalShares(m'.accounts) == TotalShares(m.accounts)
    decreases |calls|
  {
    if calls == [] {
    } else {
      ClearConserves(m, calls[0]);
      RunKeeps(Clear(m, calls[0]).0, calls[1..]);
    }
  }
}
