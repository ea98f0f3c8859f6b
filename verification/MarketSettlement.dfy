/** Settlement: conservation, solvency, exact failure, and fills that describe what moved. */
module MarketSettlement {
  import opened Core
  import opened Ordering
  import opened MarketState
  import opened MarketClearing

  ghost predicate Inv(m: Market) {
    && m.accounts != []
    && 1 <= m.lastTradedTick <= TICKS
    && (forall i, j :: 0 <= i < j < |m.accounts| ==> m.accounts[i].id < m.accounts[j].id)
    && (forall i :: 0 <= i < |m.accounts| ==> m.accounts[i].cash >= 0)
  }

  // ---------- Creation ----------

  lemma {:induction false} AdjacentDistinct(s: seq<Account>, i: nat, j: nat)
    requires Sorted(s, AccountKey) && AcceptableAccounts(s) && i < j < |s|
    ensures s[i].id < s[j].id
  {
    assert AccountKey(s[j - 1]) <= AccountKey(s[j]);
    if i < j - 1 { AdjacentDistinct(s, i, j - 1); }
  }

  /** Creation succeeds exactly on solvent accounts with distinct ids and a tick on the grid, and keeps them all. */
  lemma {:induction false} CreateExact(accounts: seq<Account>, referenceTick: uint32)
    ensures Create(accounts, referenceTick).Success? <==>
      (accounts != [] && 1 <= referenceTick <= TICKS && DistinctKeys(accounts, AccountKey)
       && forall i :: 0 <= i < |accounts| ==> accounts[i].cash >= 0)
    ensures Create(accounts, referenceTick).Success? ==>
      var m := Create(accounts, referenceTick).value;
      Inv(m) && multiset(m.accounts) == multiset(accounts) && m.lastTradedTick == referenceTick
  {
    var sorted := SortBy(accounts, AccountKey);
    SortBySorts(accounts, AccountKey);
    SameElements(accounts, sorted);
    if AcceptableAccounts(sorted) {
      forall i, j | 0 <= i < j < |sorted| ensures sorted[i].id < sorted[j].id {
        AdjacentDistinct(sorted, i, j);
      }
      DistinctKeysPermuted(sorted, accounts, AccountKey);
      forall i | 0 <= i < |accounts| ensures accounts[i].cash >= 0 {
        assert accounts[i] in sorted;
      }
    }
    if DistinctKeys(accounts, AccountKey) && forall i :: 0 <= i < |accounts| ==> accounts[i].cash >= 0 {
      DistinctKeysPermuted(accounts, sorted, AccountKey);
      forall i | 0 <= i < |sorted| ensures sorted[i].cash >= 0 {
        assert sorted[i] in accounts;
      }
      forall i | 0 < i < |sorted| ensures sorted[i - 1].id != sorted[i].id {
        assert AccountKey(sorted[i - 1]) != AccountKey(sorted[i]);
      }
    }
  }

  // ---------- Which submissions are admitted ----------

  function ActionAgent(x: AgentAction): int { x.agent }

  /** Nobody submits twice, and every submission is affordable: a condition that ignores the order. */
  ghost predicate Admissible(accounts: seq<Account>, actions: seq<AgentAction>) {
    DistinctKeys(actions, ActionAgent)
    && forall i :: 0 <= i < |actions| ==> Unaffordable(accounts, actions[i]).None?
  }

  lemma {:induction false} AdmissionExact(accounts: seq<Account>, actions: seq<AgentAction>)
    ensures FirstError(accounts, actions).None? <==> Admissible(accounts, actions)
  {
    if actions == [] {
    } else {
      var earlier, x := actions[..|actions| - 1], actions[|actions| - 1];
      AdmissionExact(accounts, earlier);
      assert actions == earlier + [x];
      AdmissibleSnoc(accounts, earlier, x);
    }
  }

  lemma AdmissibleSnoc(accounts: seq<Account>, earlier: seq<AgentAction>, x: AgentAction)
    ensures Admissible(accounts, earlier + [x]) <==>
      (Admissible(accounts, earlier) && !Submitted(earlier, x.agent) && Unaffordable(accounts, x).None?)
  {
    var actions := earlier + [x];
    assert forall i :: 0 <= i < |earlier| ==> actions[i] == earlier[i];
    assert actions[|earlier|] == x;
    if Admissible(accounts, actions) {
      forall i | 0 <= i < |earlier| ensures earlier[i].agent != x.agent {
        assert ActionAgent(actions[i]) != ActionAgent(actions[|earlier|]);
      }
    }
  }

  // ---------- The orders of a call ----------

  function OrderAgent(o: Order): int { o.agent }

  /** The order is what some submission asked for. */
  ghost predicate Requested(accounts: seq<Account>, actions: seq<AgentAction>, o: Order) {
    exists i :: 0 <= i < |actions| && OrderOf(accounts, actions[i]) == o
  }

  lemma {:induction false} OrdersRequested(accounts: seq<Account>, actions: seq<AgentAction>, side: ActionKind)
    ensures forall o :: o in OrdersOf(accounts, actions, side) ==> Requested(accounts, actions, o)
  {
    if actions == [] {
    } else {
      var init := actions[..|actions| - 1];
      OrdersRequested(accounts, init, side);
      forall o | o in OrdersOf(accounts, actions, side) ensures Requested(accounts, actions, o) {
        if o in OrdersOf(accounts, init, side) {
          var i :| 0 <= i < |init| && OrderOf(accounts, init[i]) == o;
          assert OrderOf(accounts, actions[i]) == o;
        } else {
          assert OrderOf(accounts, actions[|actions| - 1]) == o;
        }
      }
    }
  }

  /** Both sides together, in allocation order. */
  ghost function Book(accounts: seq<Account>, actions: seq<AgentAction>): seq<Order> {
    OrdersOf(accounts, actions, BuyYes) + OrdersOf(accounts, actions, SellYes)
  }

  lemma {:induction false} BookDistinct(accounts: seq<Account>, actions: seq<AgentAction>)
    requires DistinctKeys(actions, ActionAgent)
    ensures DistinctKeys(Book(accounts, actions), OrderAgent)
  {
    if actions == [] {
    } else {
      var init, x := actions[..|actions| - 1], actions[|actions| - 1];
      BookDistinct(accounts, init);
      if x.action.kind != Hold {
        assert actions == init + [x];
        BookStranger(accounts, init, x);
        var longer := Book(accounts, init) + [OrderOf(accounts, x)];
        assert DistinctKeys(longer, OrderAgent);
        BookStep(accounts, actions);
        DistinctKeysPermuted(longer, Book(accounts, actions), OrderAgent);
      } else {
        assert Book(accounts, actions) == Book(accounts, init);
      }
    }
  }

  lemma BookStranger(accounts: seq<Account>, init: seq<AgentAction>, x: AgentAction)
    requires DistinctKeys(init + [x], ActionAgent)
    ensures forall i :: 0 <= i < |Book(accounts, init)| ==> Book(accounts, init)[i].agent != x.agent
  {
    OrdersRequested(accounts, init, BuyYes);
    OrdersRequested(accounts, init, SellYes);
    var book := Book(accounts, init);
    forall i | 0 <= i < |book| ensures book[i].agent != x.agent {
      assert book[i] in OrdersOf(accounts, init, BuyYes) || book[i] in OrdersOf(accounts, init, SellYes);
      var k :| 0 <= k < |init| && OrderOf(accounts, init[k]) == book[i];
      assert ActionAgent((init + [x])[k]) != ActionAgent((init + [x])[|init|]);
    }
  }

  lemma BookStep(accounts: seq<Account>, actions: seq<AgentAction>)
    requires actions != [] && actions[|actions| - 1].action.kind != Hold
    ensures multiset(Book(accounts, actions))
      == multiset(Book(accounts, actions[..|actions| - 1]) + [OrderOf(accounts, actions[|actions| - 1])])
  {
  }

  // ---------- Applying orders ----------

  /** Different orders touch different accounts. */
  ghost predicate DistinctAccounts(orders: seq<Order>) {
    forall i, j :: 0 <= i < j < |orders| ==> orders[i].accountIndex != orders[j].accountIndex
  }

  /** With one order per account, settling fails exactly when one order alone would, and acts pointwise. */
  lemma {:induction false} ApplyAllPointwise(accounts: seq<Account>, orders: seq<Order>, tick: nat)
    requires IndicesIn(orders, |accounts|) && DistinctAccounts(orders)
    ensures ApplyAll(accounts, orders, tick).Success? <==>
      forall i :: 0 <= i < |orders| ==> Moved(accounts[orders[i].accountIndex], orders[i], tick).Success?
    ensures ApplyAll(accounts, orders, tick).Success? ==>
      var after := ApplyAll(accounts, orders, tick).value;
      && (forall i :: 0 <= i < |orders| ==>
            Moved(accounts[orders[i].accountIndex], orders[i], tick) == Success(after[orders[i].accountIndex]))
      && (forall k :: 0 <= k < |accounts| && (forall i :: 0 <= i < |orders| ==> orders[i].accountIndex != k) ==>
            after[k] == accounts[k])
  {
    if orders == [] {
    } else {
      var init, o := orders[..|orders| - 1], orders[|orders| - 1];
      ApplyAllPointwise(accounts, init, tick);
      assert forall i :: 0 <= i < |init| ==> orders[i] == init[i];
    }
  }

  // ---------- Conservation ----------

  function Cash(a: Account): int { a.cash }

  function Shares(a: Account): int { a.yesShares }

  function TotalCash(accounts: seq<Account>): int { SumBy(accounts, Cash) }

  function TotalShares(accounts: seq<Account>): int { SumBy(accounts, Shares) }

  lemma {:induction false} SumByUpdate<T>(s: seq<T>, i: nat, x: T, w: T -> int)
    requires i < |s|
    ensures SumBy(s[i := x], w) == SumBy(s, w) - w(s[i]) + w(x)
  {
    var n := |s| - 1;
    if i < n {
      assert s[i := x][..n] == s[..n][i := x];
      SumByUpdate(s[..n], i, x, w);
    } else {
      assert s[i := x][..n] == s[..n];
    }
  }

  function Signed(o: Order): int { if o.side == BuyYes then o.fill else -(o.fill as int) }

  /** Shares that enter accounts, minus shares that leave them. */
  function Net(orders: seq<Order>): int {
    if orders == [] then 0 else Net(orders[..|orders| - 1]) + Signed(orders[|orders| - 1])
  }

  function CashFor(shares: int, tick: nat): int { shares * tick * CASH_PER_TICK }

  lemma CashForAdds(a: int, b: int, tick: nat)
    ensures CashFor(a + b, tick) == CashFor(a, tick) + CashFor(b, tick)
  {
    assert (a + b) * tick == a * tick + b * tick;
  }

  lemma {:induction false} ApplyConserves(accounts: seq<Account>, o: Order, tick: nat)
    requires o.accountIndex < |accounts| && Apply(accounts, o, tick).Success?
    ensures var after := Apply(accounts, o, tick).value;
      && TotalCash(after) == TotalCash(accounts) - CashFor(Signed(o), tick)
      && TotalShares(after) == TotalShares(accounts) + Signed(o)
      && forall k :: 0 <= k < |accounts| ==> after[k].id == accounts[k].id
  {
    var moved := Moved(accounts[o.accountIndex], o, tick).value;
    SumByUpdate(accounts, o.accountIndex, moved, Cash);
    SumByUpdate(accounts, o.accountIndex, moved, Shares);
    assert Notional(o.fill, tick) == CashFor(o.fill, tick);
    assert CashFor(-(o.fill as int), tick) == -CashFor(o.fill, tick);
  }

  lemma {:induction false} ApplyAllConserves(accounts: seq<Account>, orders: seq<Order>, tick: nat)
    requires IndicesIn(orders, |accounts|) && ApplyAll(accounts, orders, tick).Success?
    ensures var after := ApplyAll(accounts, orders, tick).value;
      && TotalCash(after) == TotalCash(accounts) - CashFor(Net(orders), tick)
      && TotalShares(after) == TotalShares(accounts) + Net(orders)
      && forall k :: 0 <= k < |accounts| ==> after[k].id == accounts[k].id
  {
    if orders == [] {
    } else {
      var init, o := orders[..|orders| - 1], orders[|orders| - 1];
      ApplyAllConserves(accounts, init, tick);
      ApplyConserves(ApplyAll(accounts, init, tick).value, o, tick);
      CashForAdds(Net(init), Signed(o), tick);
    }
  }

  lemma {:induction false} NetConcat(a: seq<Order>, b: seq<Order>)
    ensures Net(a + b) == Net(a) + Net(b)
  {
    if b == [] {
      assert a + b == a;
    } else {
      assert (a + b)[..|a + b| - 1] == a + b[..|b| - 1];
      NetConcat(a, b[..|b| - 1]);
    }
  }

  lemma {:induction false} NetOfSide(orders: seq<Order>, side: ActionKind)
    requires OneSide(orders, side) && side != Hold
    ensures Net(orders) == if side == BuyYes then Total(Fills(orders)) as int else -(Total(Fills(orders)) as int)
  {
    if orders == [] {
    } else {
      NetOfSide(orders[..|orders| - 1], side);
      assert Fills(orders)[..|orders| - 1] == Fills(orders[..|orders| - 1]);
    }
  }

  // ---------- The trade of one call ----------

  ghost function Best(m: Market, actions: seq<AgentAction>): (best: Candidate)
    ensures 1 <= best.tick <= TICKS
  {
    BestIsCandidate(OrdersOf(m.accounts, actions, BuyYes), OrdersOf(m.accounts, actions, SellYes), m.lastTradedTick,
                    TICKS);
    BestUpTo(OrdersOf(m.accounts, actions, BuyYes), OrdersOf(m.accounts, actions, SellYes), m.lastTradedTick, TICKS)
  }

  /** One side after sorting and allocation. */
  ghost function Side(m: Market, actions: seq<AgentAction>, side: ActionKind): seq<Order> {
    Allocate(SortBy(OrdersOf(m.accounts, actions, side), SideKey(side)), Best(m, actions).tick,
             Best(m, actions).matched)
  }

  ghost function Trade(m: Market, actions: seq<AgentAction>): seq<Order> {
    Side(m, actions, BuyYes) + Side(m, actions, SellYes)
  }

  /** The chosen volume is allocated in full on either side. */
  lemma SideTotal(m: Market, actions: seq<AgentAction>, side: ActionKind)
    requires side != Hold
    ensures Total(Fills(Side(m, actions, side))) == Best(m, actions).matched
  {
    var orders, best := OrdersOf(m.accounts, actions, side), Best(m, actions);
    CollectedOrders(m.accounts, actions, BuyYes);
    CollectedOrders(m.accounts, actions, SellYes);
    SortedSide(orders, side);
    AllocationSucceeds(OrdersOf(m.accounts, actions, BuyYes), OrdersOf(m.accounts, actions, SellYes), m.lastTradedTick);
    AllocationExact(SortBy(orders, SideKey(side)), best.tick, best.matched);
  }

  /** Sorting and allocating neither add, drop nor change anything but the fills. */
  lemma SideOrders(m: Market, actions: seq<AgentAction>, side: ActionKind)
    requires side != Hold
    ensures OneSide(Side(m, actions, side), side)
    ensures forall o :: o in Side(m, actions, side) ==>
      Requested(m.accounts, actions, o.(fill := 0)) && o.fill <= o.quantity
      && (o.fill > 0 ==> Eligible(o, Best(m, actions).tick))
  {
    var orders, best := OrdersOf(m.accounts, actions, side), Best(m, actions);
    var sorted := SortBy(orders, SideKey(side));
    var r := Side(m, actions, side);
    CollectedOrders(m.accounts, actions, side);
    SortedSide(orders, side);
    AllocationExact(sorted, best.tick, best.matched);
    OrdersRequested(m.accounts, actions, side);
    SameElements(orders, sorted);
    forall i | 0 <= i < |r|
      ensures Requested(m.accounts, actions, r[i].(fill := 0)) && r[i].fill <= r[i].quantity
      ensures r[i].fill > 0 ==> Eligible(r[i], best.tick)
    {
      assert sorted[i] in orders;
      assert r[i].(fill := 0) == sorted[i];
      assert Fills(r)[i] == r[i].fill;
    }
  }

  lemma TradeDistinct(m: Market, actions: seq<AgentAction>)
    requires DistinctKeys(actions, ActionAgent)
    ensures DistinctKeys(Trade(m, actions), OrderAgent)
  {
    var buys := SortBy(OrdersOf(m.accounts, actions, BuyYes), SideKey(BuyYes));
    var sells := SortBy(OrdersOf(m.accounts, actions, SellYes), SideKey(SellYes));
    SortedBookDistinct(m, actions);
    SameAgents(buys + sells, Trade(m, actions));
  }

  lemma SortedBookDistinct(m: Market, actions: seq<AgentAction>)
    requires DistinctKeys(actions, ActionAgent)
    ensures DistinctKeys(SortBy(OrdersOf(m.accounts, actions, BuyYes), SideKey(BuyYes))
                         + SortBy(OrdersOf(m.accounts, actions, SellYes), SideKey(SellYes)), OrderAgent)
  {
    var buys, sells := OrdersOf(m.accounts, actions, BuyYes), OrdersOf(m.accounts, actions, SellYes);
    BookDistinct(m.accounts, actions);
    SortBySorts(buys, SideKey(BuyYes));
    SortBySorts(sells, SideKey(SellYes));
    DistinctKeysPermuted(buys + sells, SortBy(buys, SideKey(BuyYes)) + SortBy(sells, SideKey(SellYes)), OrderAgent);
  }

  lemma SameAgents(a: seq<Order>, b: seq<Order>)
    requires DistinctKeys(a, OrderAgent) && |a| == |b|
    requires forall i :: 0 <= i < |a| ==> b[i].agent == a[i].agent
    ensures DistinctKeys(b, OrderAgent)
  {
    forall i, j | 0 <= i < j < |b| ensures OrderAgent(b[i]) != OrderAgent(b[j]) {
      assert OrderAgent(a[i]) != OrderAgent(a[j]);
    }
  }

  /** Every order of the trade stands on its own agent's account, which can afford it. */
  lemma TradeAccounts(m: Market, actions: seq<AgentAction>)
    requires Inv(m) && Admissible(m.accounts, actions)
    ensures IndicesIn(Trade(m, actions), |m.accounts|) && DistinctAccounts(Trade(m, actions))
    ensures forall i :: 0 <= i < |Trade(m, actions)| ==>
      var o := Trade(m, actions)[i];
      && m.accounts[o.accountIndex].id == o.agent
      && (o.side == BuyYes ==> m.accounts[o.accountIndex].cash >= Notional(o.fill, Best(m, actions).tick))
      && (o.side == SellYes ==> m.accounts[o.accountIndex].yesShares >= o.fill)
  {
    var trade, tick := Trade(m, actions), Best(m, actions).tick;
    SideOrders(m, actions, BuyYes);
    SideOrders(m, actions, SellYes);
    TradeDistinct(m, actions);
    forall i | 0 <= i < |trade|
      ensures trade[i].accountIndex < |m.accounts| && m.accounts[trade[i].accountIndex].id == trade[i].agent
      ensures trade[i].side == BuyYes ==> m.accounts[trade[i].accountIndex].cash >= Notional(trade[i].fill, tick)
      ensures trade[i].side == SellYes ==> m.accounts[trade[i].accountIndex].yesShares >= trade[i].fill
    {
      var o := trade[i];
      assert o in Side(m, actions, BuyYes) || o in Side(m, actions, SellYes);
      AffordableOrder(m, actions, o, tick);
    }
    forall i, j | 0 <= i < j < |trade| ensures trade[i].accountIndex != trade[j].accountIndex {
      assert OrderAgent(trade[i]) != OrderAgent(trade[j]);
    }
  }

  lemma AffordableOrder(m: Market, actions: seq<AgentAction>, o: Order, tick: nat)
    requires Admissible(m.accounts, actions) && Requested(m.accounts, actions, o.(fill := 0))
    requires o.side != Hold && o.fill <= o.quantity && (o.fill > 0 ==> Eligible(o, tick))
    ensures o.accountIndex < |m.accounts| && m.accounts[o.accountIndex].id == o.agent
    ensures o.side == BuyYes && m.accounts[o.accountIndex].cash >= 0 ==>
      m.accounts[o.accountIndex].cash >= Notional(o.fill, tick)
    ensures o.side == SellYes ==> m.accounts[o.accountIndex].yesShares >= o.fill
  {
    var i :| 0 <= i < |actions| && OrderOf(m.accounts, actions[i]) == o.(fill := 0);
    assert Unaffordable(m.accounts, actions[i]).None?;
    if o.side == BuyYes && o.fill > 0 {
      NotionalMonotone(o.fill, tick, o.quantity, o.limit);
    }
  }

  lemma NotionalMonotone(fill: nat, tick: nat, quantity: nat, limit: nat)
    requires fill <= quantity && tick <= limit
    ensures Notional(fill, tick) <= Notional(quantity, limit)
  {
    assert fill * tick <= quantity * tick;
    assert quantity * tick <= quantity * limit;
  }
}
