/** The market itself: accounts and last tick, replaced together when a batch clears. */
module BatchAuction {
  import opened Core
  import opened Ordering
  import opened MarketState
  import opened MarketClearing
  import opened MarketSettlement
  import opened MarketProperties

  class BatchMarket {
    var accounts: seq<Account>
    var lastTradedTick: uint8

    ghost function Model(): Market
      reads this
    {
      Market(accounts, lastTradedTick)
    }

    ghost predicate Valid()
      reads this
    {
      Inv(Model())
    }

    constructor (market: Market)
      requires Inv(market)
      ensures Valid() && Model() == market
    {
      accounts, lastTradedTick := market.accounts, market.lastTradedTick;
    }

    static method Create(accounts: seq<Account>, referenceTick: uint32) returns (result: Result<BatchMarket>)
      ensures result.Success? <==> MarketState.Create(accounts, referenceTick).Success?
      ensures result.Success? ==>
        fresh(result.value) && result.value.Valid()
        && result.value.Model() == MarketState.Create(accounts, referenceTick).value
      ensures result.Failure? ==> result.error == InvalidArgument
    {
      CreateExact(accounts, referenceTick);
      if accounts == [] || referenceTick < 1 || referenceTick > TICKS {
        return Failure(InvalidArgument);
      }
      var sorted := SortBy(accounts, AccountKey);
      for index := 0 to |sorted|
        invariant AcceptableAccounts(sorted[..index])
      {
        if sorted[index].cash < 0 || (index != 0 && sorted[index - 1].id == sorted[index].id) {
          return Failure(InvalidArgument);
        }
        assert sorted[..index + 1] == sorted[..index] + [sorted[index]];
      }
      assert sorted[..|sorted|] == sorted;
      var market := new BatchMarket(Market(sorted, referenceTick));
      return Success(market);
    }

    /** Check each submission in turn and sort it into buys and sells. */
    method CollectOrders(actions: seq<AgentAction>) returns (result: Result<(seq<Order>, seq<Order>)>)
      ensures var error := FirstError(accounts, actions);
        result == if error.Some? then Failure(error.value)
                  else Success((OrdersOf(accounts, actions, BuyYes), OrdersOf(accounts, actions, SellYes)))
    {
      var submitted: set<uint32> := {};
      var buys: seq<Order>, sells: seq<Order> := [], [];
      for n := 0 to |actions|
        invariant FirstError(accounts, actions[..n]).None?
        invariant forall agent :: agent in submitted <==> Submitted(actions[..n], agent)
        invariant buys == OrdersOf(accounts, actions[..n], BuyYes)
        invariant sells == OrdersOf(accounts, actions[..n], SellYes)
      {
        var x := actions[n];
        CollectStep(accounts, actions, n);
        if x.agent in submitted {
          return Failure(InvalidArgument);
        }
        submitted := submitted + {x.agent};
        var index := LowerBound(accounts, x.agent);
        if index == |accounts| || accounts[index].id != x.agent {
          return Failure(InvalidArgument);
        }
        if x.action.kind != Hold {
          var quantity, limit := x.action.quantity, x.action.priceTick;
          var order := Order(index, x.agent, x.action.kind, quantity, limit, 0);
          if x.action.kind == BuyYes {
            if accounts[index].cash < LimitNotional(x.action) {
              return Failure(InsufficientResources);
            }
            buys := buys + [order];
          } else {
            if accounts[index].yesShares < quantity {
              return Failure(InsufficientResources);
            }
            sells := sells + [order];
          }
        }
      }
      assert actions[..|actions|] == actions;
      return Success((buys, sells));
    }

    method SumVolume(orders: seq<Order>, tick: nat) returns (result: Result<uint64>)
      ensures result == if Volume(orders, tick) > U64_MAX then Failure(ArithmeticOverflow)
                        else Success(Volume(orders, tick))
    {
      var volume: uint64 := 0;
      for i := 0 to |orders|
        invariant volume == Volume(orders[..i], tick)
      {
        assert orders[..i + 1][..i] == orders[..i];
        VolumePrefix(orders, tick, i + 1);
        if Eligible(orders[i], tick) {
          if volume > U64_MAX - orders[i].quantity {
            return Failure(ArithmeticOverflow);
          }
          volume := volume + orders[i].quantity;
        }
      }
      assert orders[..|orders|] == orders;
      return Success(volume);
    }

    /** Sweep the price grid and keep the best candidate. */
    method FindTick(buys: seq<Order>, sells: seq<Order>) returns (result: Result<Candidate>)
      requires OneSide(buys, BuyYes) && OneSide(sells, SellYes)
      ensures result == if VolumeOverflow(buys, sells) then Failure(ArithmeticOverflow)
                        else Success(BestUpTo(buys, sells, lastTradedTick, TICKS))
    {
      var best := Candidate(0, U64_MAX, U32_MAX, 0);
      for tick := 1 to TICKS + 1
        invariant tick == 1 ==> best.tick == 0
        invariant tick > 1 ==> best.tick > 0 && best == BestUpTo(buys, sells, lastTradedTick, tick - 1)
        invariant tick > 1 ==> Volume(buys, 1) <= U64_MAX
        invariant tick > TICKS ==> Volume(sells, TICKS) <= U64_MAX
      {
        VolumeExtremes(buys, sells, tick);
        var demand := SumVolume(buys, tick);
        if demand.Failure? {
          return Failure(demand.error);
        }
        var supply := SumVolume(sells, tick);
        if supply.Failure? {
          return Failure(supply.error);
        }
        var matched := Min(demand.value, supply.value);
        var imbalance := if demand.value >= supply.value then demand.value - supply.value
          else supply.value - demand.value;
        var candidate := Candidate(matched, imbalance, Distance(tick, lastTradedTick), tick);
        if best.tick == 0 || Better(candidate, best) {
          best := candidate;
        }
      }
      return Success(best);
    }

    /** Hand out `quantity` along the orders, in place. */
    method AllocateSide(orders: seq<Order>, tick: nat, quantity: nat) returns (filled: seq<Order>, complete: bool)
      ensures filled == Allocate(orders, tick, quantity)
      ensures complete == (Left(orders, tick, quantity) == 0)
    {
      filled := orders;
      var remaining := quantity;
      for i := 0 to |orders|
        invariant |filled| == |orders| && filled[..i] == Allocate(orders[..i], tick, quantity)
          && filled[i..] == orders[i..]
        invariant remaining == Left(orders[..i], tick, quantity)
      {
        var order := orders[i];
        ghost var before := filled;
        AllocateStep(orders, i, tick, quantity);
        assert filled[i] == filled[i..][0] == order;
        if Eligible(order, tick) && remaining != 0 {
          var fill := Min(order.quantity, remaining);
          filled := filled[i := order.(fill := fill)];
          remaining := remaining - fill;
        }
        assert filled[..i + 1] == before[..i] + [FillNext(order, tick, Left(orders[..i], tick, quantity))];
        assert filled[i + 1..] == before[i..][1..];
      }
      assert orders[..|orders|] == orders;
      complete := remaining == 0;
    }

    /** Settle order after order on a copy of the accounts, and list what was filled. */
    method ApplyOrders(orders: seq<Order>, tick: nat) returns (updated: Result<seq<Account>>, fills: seq<Fill>)
      requires IndicesIn(orders, |accounts|)
      ensures updated == ApplyAll(accounts, orders, tick)
      ensures updated.Success? ==> fills == FillsOf(orders)
    {
      var result := accounts;
      fills := [];
      for i := 0 to |orders|
        invariant ApplyAll(accounts, orders[..i], tick) == Success(result)
        invariant fills == FillsOf(orders[..i])
      {
        var order := orders[i];
        assert orders[..i + 1][..i] == orders[..i];
        ApplyPrefix(accounts, orders, tick, i + 1);
        if order.fill != 0 {
          var account, notional := result[order.accountIndex], Notional(order.fill, tick);
          if order.side == BuyYes {
            if account.cash - notional < -0x8000_0000_0000_0000 || account.yesShares > U32_MAX - order.fill {
              return Failure(ArithmeticOverflow), fills;
            }
            account := account.(cash := account.cash - notional, yesShares := account.yesShares + order.fill);
          } else {
            if account.cash + notional > I64_MAX || account.yesShares < order.fill {
              return Failure(ArithmeticOverflow), fills;
            }
            account := account.(cash := account.cash + notional, yesShares := account.yesShares - order.fill);
          }
          result := result[order.accountIndex := account];
          fills := fills + [Fill(order.agent, order.side, order.fill)];
        } else {
          assert result[order.accountIndex := result[order.accountIndex]] == result;
        }
      }
      assert orders[..|orders|] == orders;
      updated := Success(result);
    }

    method Clear(actions: seq<AgentAction>) returns (result: Result<BatchResult>)
      requires Valid()
      modifies this
      ensures Valid()
      ensures (Model(), result) == MarketState.Clear(old(Model()), actions)
    {
      ClearConserves(Model(), actions);
      CollectedOrders(accounts, actions, BuyYes);
      CollectedOrders(accounts, actions, SellYes);
      var collected := CollectOrders(actions);
      if collected.Failure? {
        return Failure(collected.error);
      }
      var (buys, sells) := collected.value;
      CollectedIndices(accounts, actions, BuyYes);
      CollectedIndices(accounts, actions, SellYes);
      result := ClearCollected(buys, sells);
    }

    /** The part of `clear` behind the submission checks. */
    method ClearCollected(buys: seq<Order>, sells: seq<Order>) returns (result: Result<BatchResult>)
      requires OneSide(buys, BuyYes) && OneSide(sells, SellYes)
      requires IndicesIn(buys, |accounts|) && IndicesIn(sells, |accounts|)
      modifies this
      ensures (Model(), result) == ClearOrders(old(Model()), buys, sells)
    {
      var found := FindTick(buys, sells);
      if found.Failure? {
        return Failure(found.error);
      }
      var best := found.value;
      if best.matched == 0 {
        return Success(NO_TRADE);
      }
      if best.matched > U32_MAX {
        return Failure(ArithmeticOverflow);
      }
      BestIsCandidate(buys, sells, lastTradedTick, TICKS);
      SortedIndices(buys, BuyKey, |accounts|);
      SortedIndices(sells, SellKey, |accounts|);
      var filledBuys, buysComplete := AllocateSide(SortBy(buys, BuyKey), best.tick, best.matched);
      var filledSells, sellsComplete := AllocateSide(SortBy(sells, SellKey), best.tick, best.matched);
      if !buysComplete || !sellsComplete {
        return Failure(InvalidFormat);
      }
      var updated, fills := ApplyOrders(filledBuys + filledSells, best.tick);
      if updated.Failure? {
        return Failure(updated.error);
      }
      accounts := updated.value;
      lastTradedTick := best.tick;
      return Success(BatchResult(true, best.tick, best.matched, SortBy(fills, FillKey)));
    }
  }

  lemma AllocateStep(orders: seq<Order>, i: nat, tick: nat, quantity: nat)
    requires i < |orders|
    ensures var left := Left(orders[..i], tick, quantity);
      && Allocate(orders[..i + 1], tick, quantity)
           == Allocate(orders[..i], tick, quantity) + [FillNext(orders[i], tick, left)]
      && Left(orders[..i + 1], tick, quantity)
           == if !Eligible(orders[i], tick) || left == 0 then left else left - Min(orders[i].quantity, left)
  {
    assert orders[..i + 1][..i] == orders[..i];
  }

  /** What one more submission adds, and that a refusal is final. */
  lemma CollectStep(accounts: seq<Account>, actions: seq<AgentAction>, n: nat)
    requires n < |actions| && FirstError(accounts, actions[..n]).None?
    ensures forall agent ::
      Submitted(actions[..n + 1], agent) <==> (Submitted(actions[..n], agent) || agent == actions[n].agent)
    ensures FirstError(accounts, actions[..n + 1]) ==
      if Submitted(actions[..n], actions[n].agent) then Some(InvalidArgument) else Unaffordable(accounts, actions[n])
    ensures FirstError(accounts, actions[..n + 1]).Some? ==>
      FirstError(accounts, actions) == FirstError(accounts, actions[..n + 1])
    ensures forall side :: (OrdersOf(accounts, actions[..n + 1], side)
      == OrdersOf(accounts, actions[..n], side) + OrderIf(accounts, actions[n], side))
  {
    assert actions[..n + 1][..n] == actions[..n];
    assert actions[..n] + [actions[n]] == actions[..n + 1];
    SubmittedStep(actions[..n], actions[n]);
    FirstErrorStays(accounts, actions, n + 1);
  }

  lemma SubmittedStep(earlier: seq<AgentAction>, x: AgentAction)
    ensures forall agent :: Submitted(earlier + [x], agent) <==> (Submitted(earlier, agent) || agent == x.agent)
  {
    var all := earlier + [x];
    forall agent ensures Submitted(all, agent) <==> (Submitted(earlier, agent) || agent == x.agent) {
      if i :| 0 <= i < |earlier| && earlier[i].agent == agent { assert all[i].agent == agent; }
      if agent == x.agent { assert all[|earlier|].agent == agent; }
    }
  }

  lemma {:induction false} FirstErrorStays(accounts: seq<Account>, actions: seq<AgentAction>, n: nat)
    requires n <= |actions|
    ensures FirstError(accounts, actions[..n]).Some? ==>
      FirstError(accounts, actions) == FirstError(accounts, actions[..n])
    decreases |actions| - n
  {
    if n < |actions| {
      assert actions[..n + 1][..n] == actions[..n];
      FirstErrorStays(accounts, actions, n + 1);
    } else {
      assert actions[..n] == actions;
    }
  }

  lemma {:induction false} VolumePrefix(orders: seq<Order>, tick: nat, n: nat)
    requires n <= |orders|
    ensures Volume(orders[..n], tick) <= Volume(orders, tick)
    decreases |orders| - n
  {
    if n < |orders| {
      assert orders[..n + 1][..n] == orders[..n];
      VolumePrefix(orders, tick, n + 1);
    } else {
      assert orders[..n] == orders;
    }
  }

  /** Demand is largest at the lowest tick and supply at the highest. */
  lemma VolumeExtremes(buys: seq<Order>, sells: seq<Order>, tick: nat)
    requires OneSide(buys, BuyYes) && OneSide(sells, SellYes) && 1 <= tick <= TICKS
    ensures Volume(buys, tick) <= Volume(buys, 1) && Volume(sells, tick) <= Volume(sells, TICKS)
  {
    SumByMonotone(buys, EligibleQuantity(tick), EligibleQuantity(1));
    SumByMonotone(sells, EligibleQuantity(tick), EligibleQuantity(TICKS));
  }

  lemma {:induction false} ApplyPrefix(accounts: seq<Account>, orders: seq<Order>, tick: nat, n: nat)
    requires n <= |orders| && IndicesIn(orders, |accounts|)
    ensures ApplyAll(accounts, orders[..n], tick).Failure? ==> ApplyAll(accounts, orders, tick).Failure?
    decreases |orders| - n
  {
    if n < |orders| {
      assert orders[..n + 1][..n] == orders[..n];
      ApplyPrefix(accounts, orders, tick, n + 1);
    } else {
      assert orders[..n] == orders;
    }
  }
}
