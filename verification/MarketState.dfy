/** Accounts, actions and orders of the batch auction, and `clear` as a function on values. */
module MarketState {
  import opened Core
  import opened Ordering

  type int64 = x: int | -0x8000_0000_0000_0000 <= x <= 0x7FFF_FFFF_FFFF_FFFF

  const I64_MAX: int := 0x7FFF_FFFF_FFFF_FFFF
  const CASH_PER_TICK: nat := 10000
  const TICKS: nat := 99

  datatype ActionKind = Hold | BuyYes | SellYes

  datatype RawAction = RawAction(kind: ActionKind, quantity: uint8, priceTick: uint8)

  /** The factories of the source make no other action. */
  predicate LegalAction(a: RawAction) {
    if a.kind == Hold then a.quantity == 0 && a.priceTick == 0
    else 1 <= a.quantity <= 8 && 1 <= a.priceTick <= 99
  }

  type Action = a: RawAction | LegalAction(a) witness RawAction(Hold, 0, 0)

  datatype Account = Account(id: uint32, cash: int64, yesShares: uint32)

  datatype AgentAction = AgentAction(agent: uint32, action: Action)

  datatype Order = Order(
    accountIndex: nat,
    agent: uint32,
    side: ActionKind,
    quantity: uint8,
    limit: uint8,
    fill: uint8)

  datatype Fill = Fill(agent: uint32, side: ActionKind, quantity: uint8)

  datatype BatchResult = BatchResult(traded: bool, clearingTick: uint8, matchedQuantity: uint32, fills: seq<Fill>)

  datatype Market = Market(accounts: seq<Account>, lastTradedTick: uint8)

  datatype Candidate = Candidate(matched: nat, imbalance: nat, distance: nat, tick: nat)

  // ---------- Creation ----------

  function AccountKey(a: Account): int { a.id }

  predicate AcceptableAccounts(sorted: seq<Account>) {
    forall i :: 0 <= i < |sorted| ==>
      sorted[i].cash >= 0 && (i > 0 ==> sorted[i - 1].id != sorted[i].id)
  }

  function Create(accounts: seq<Account>, referenceTick: uint32): Result<Market> {
    if accounts == [] || referenceTick < 1 || referenceTick > TICKS then Failure(InvalidArgument)
    else
      var sorted := SortBy(accounts, AccountKey);
      if AcceptableAccounts(sorted) then Success(Market(sorted, referenceTick)) else Failure(InvalidArgument)
  }

  // ---------- Collecting orders ----------

  /** First position whose id is not below `id`: where the library's lower bound lands on sorted accounts. */
  function LowerBound(accounts: seq<Account>, id: uint32): (i: nat)
    ensures i <= |accounts|
    ensures forall j :: 0 <= j < i ==> accounts[j].id < id
    ensures i < |accounts| ==> accounts[i].id >= id
  {
    if accounts == [] || accounts[0].id >= id then 0 else 1 + LowerBound(accounts[1..], id)
  }

  predicate HasAccount(accounts: seq<Account>, id: uint32) {
    LowerBound(accounts, id) < |accounts| && accounts[LowerBound(accounts, id)].id == id
  }

  function LimitNotional(a: Action): int { a.quantity * a.priceTick * CASH_PER_TICK }

  predicate Submitted(earlier: seq<AgentAction>, agent: uint32) {
    exists i :: 0 <= i < |earlier| && earlier[i].agent == agent
  }

  /** Why the submission is refused on its own, if it is. */
  function Unaffordable(accounts: seq<Account>, x: AgentAction): Option<ErrorCode> {
    if !HasAccount(accounts, x.agent) then Some(InvalidArgument)
    else
      var account := accounts[LowerBound(accounts, x.agent)];
      match x.action.kind
      case Hold => None
      case BuyYes => if account.cash < LimitNotional(x.action) then Some(InsufficientResources) else None
      case SellYes => if account.yesShares < x.action.quantity then Some(InsufficientResources) else None
  }

  /** The first refusal in submission order; a second submission by an agent is one. */
  function FirstError(accounts: seq<Account>, actions: seq<AgentAction>): Option<ErrorCode> {
    if actions == [] then None
    else
      var earlier, x := actions[..|actions| - 1], actions[|actions| - 1];
      var before := FirstError(accounts, earlier);
      if before.Some? then before
      else if Submitted(earlier, x.agent) then Some(InvalidArgument)
      else Unaffordable(accounts, x)
  }

  function OrderOf(accounts: seq<Account>, x: AgentAction): Order {
    Order(LowerBound(accounts, x.agent), x.agent, x.action.kind, x.action.quantity, x.action.priceTick, 0)
  }

  /** The orders of one side, in submission order. */
  function OrdersOf(accounts: seq<Account>, actions: seq<AgentAction>, side: ActionKind): (orders: seq<Order>)
    ensures |orders| <= |actions|
  {
    if actions == [] then []
    else
      var init, x := actions[..|actions| - 1], actions[|actions| - 1];
      OrdersOf(accounts, init, side) + (if x.action.kind == side then [OrderOf(accounts, x)] else [])
  }

  // ---------- The clearing tick ----------

  /** A buy accepts its limit or less, a sell its limit or more. */
  predicate Eligible(o: Order, tick: nat) {
    if o.side == BuyYes then o.limit >= tick else o.limit <= tick
  }

  function EligibleQuantity(tick: nat): Order -> int {
    (o: Order) => if Eligible(o, tick) then o.quantity as int else 0
  }

  function Volume(orders: seq<Order>, tick: nat): (v: nat)
  {
    VolumeNonNegative(orders, tick);
    SumBy(orders, EligibleQuantity(tick))
  }

  lemma {:induction false} VolumeNonNegative(orders: seq<Order>, tick: nat)
    ensures SumBy(orders, EligibleQuantity(tick)) >= 0
  {
    if orders == [] {
    } else {
      VolumeNonNegative(orders[..|orders| - 1], tick);
    }
  }

  function Min(a: nat, b: nat): nat { if a <= b then a else b }

  function Distance(a: nat, b: nat): nat { if a >= b then a - b else b - a }

  function CandidateAt(buys: seq<Order>, sells: seq<Order>, reference: nat, tick: nat): Candidate {
    var demand, supply := Volume(buys, tick), Volume(sells, tick);
    Candidate(Min(demand, supply), Distance(demand, supply), Distance(tick, reference), tick)
  }

  predicate Better(a: Candidate, b: Candidate) {
    a.matched > b.matched ||
    (a.matched == b.matched &&
     (a.imbalance < b.imbalance ||
      (a.imbalance == b.imbalance &&
       (a.distance < b.distance ||
        (a.distance == b.distance && a.tick < b.tick)))))
  }

  /** The incumbent after the ticks 1 to `last`. */
  function BestUpTo(buys: seq<Order>, sells: seq<Order>, reference: nat, last: nat): Candidate
    requires last >= 1
  {
    var c := CandidateAt(buys, sells, reference, last);
    if last == 1 then c
    else
      var best := BestUpTo(buys, sells, reference, last - 1);
      if Better(c, best) then c else best
  }

  /** Some 64-bit volume would overflow. */
  predicate VolumeOverflow(buys: seq<Order>, sells: seq<Order>) {
    Volume(buys, 1) > U64_MAX || Volume(sells, TICKS) > U64_MAX
  }

  // ---------- Allocation ----------

  function BuyKey(o: Order): int { o.agent - 0x1_0000_0000 * o.limit }

  function SellKey(o: Order): int { 0x1_0000_0000 * o.limit + o.agent }

  function FillNext(o: Order, tick: nat, remaining: nat): Order {
    if !Eligible(o, tick) || remaining == 0 then o else o.(fill := Min(o.quantity, remaining))
  }

  /** Fill in priority order until nothing remains. */
  function Allocate(orders: seq<Order>, tick: nat, quantity: nat): (r: seq<Order>)
    ensures |r| == |orders|
    ensures forall i :: 0 <= i < |r| ==> r[i] == orders[i].(fill := r[i].fill)
  {
    if orders == [] then []
    else
      var init := Allocate(orders[..|orders| - 1], tick, quantity);
      init + [FillNext(orders[|orders| - 1], tick, Left(orders[..|orders| - 1], tick, quantity))]
  }

  /** What is left to allocate behind `orders`. */
  function Left(orders: seq<Order>, tick: nat, quantity: nat): nat {
    if orders == [] then quantity
    else
      var before := Left(orders[..|orders| - 1], tick, quantity);
      var o := orders[|orders| - 1];
      if !Eligible(o, tick) || before == 0 then before else before - Min(o.quantity, before)
  }

  // ---------- Settlement ----------

  function Notional(fill: nat, tick: nat): nat { fill * tick * CASH_PER_TICK }

  /** One account after its order; 64-bit cash and 32-bit shares may overflow. */
  function Moved(a: Account, o: Order, tick: nat): (r: Result<Account>) {
    var cash := Notional(o.fill, tick);
    if o.fill == 0 then Success(a)
    else if o.side == BuyYes then
      if a.cash - cash < -0x8000_0000_0000_0000 || a.yesShares > U32_MAX - o.fill then Failure(ArithmeticOverflow)
      else Success(a.(cash := a.cash - cash, yesShares := a.yesShares + o.fill))
    else
      if a.cash + cash > I64_MAX || a.yesShares < o.fill then Failure(ArithmeticOverflow)
      else Success(a.(cash := a.cash + cash, yesShares := a.yesShares - o.fill))
  }

  function Apply(accounts: seq<Account>, o: Order, tick: nat): Result<seq<Account>>
    requires o.accountIndex < |accounts|
  {
    match Moved(accounts[o.accountIndex], o, tick)
    case Success(a) => Success(accounts[o.accountIndex := a])
    case Failure(error) => Failure(error)
  }

  predicate IndicesIn(orders: seq<Order>, n: nat) {
    forall i :: 0 <= i < |orders| ==> orders[i].accountIndex < n
  }

  function ApplyAll(accounts: seq<Account>, orders: seq<Order>, tick: nat): (r: Result<seq<Account>>)
    requires IndicesIn(orders, |accounts|)
    ensures r.Success? ==> |r.value| == |accounts|
    ensures r.Failure? ==> r.error == ArithmeticOverflow
  {
    if orders == [] then Success(accounts)
    else
      var before := ApplyAll(accounts, orders[..|orders| - 1], tick);
      if before.Failure? then before else Apply(before.value, orders[|orders| - 1], tick)
  }

  function FillsOf(orders: seq<Order>): seq<Fill> {
    if orders == [] then []
    else
      var o := orders[|orders| - 1];
      FillsOf(orders[..|orders| - 1]) + (if o.fill == 0 then [] else [Fill(o.agent, o.side, o.fill)])
  }

  function FillKey(f: Fill): int { f.agent }

  // ---------- The whole call ----------

  const NO_TRADE := BatchResult(false, 0, 0, [])

  /** From collected orders to the new market. */
  function ClearOrders(m: Market, buys: seq<Order>, sells: seq<Order>): (Market, Result<BatchResult>)
    requires IndicesIn(buys, |m.accounts|) && IndicesIn(sells, |m.accounts|)
  {
    if VolumeOverflow(buys, sells) then (m, Failure(ArithmeticOverflow))
    else
      var best := BestUpTo(buys, sells, m.lastTradedTick, TICKS);
      if best.matched == 0 then (m, Success(NO_TRADE))
      else if best.matched > U32_MAX then (m, Failure(ArithmeticOverflow))
      else
        BestIsCandidate(buys, sells, m.lastTradedTick, TICKS);
        SortedIndices(buys, BuyKey, |m.accounts|);
        SortedIndices(sells, SellKey, |m.accounts|);
        Settle(m, SortBy(buys, BuyKey), SortBy(sells, SellKey), best)
  }

  lemma {:induction false} BestIsCandidate(buys: seq<Order>, sells: seq<Order>, reference: nat, last: nat)
    requires last >= 1
    ensures var best := BestUpTo(buys, sells, reference, last);
      1 <= best.tick <= last && best == CandidateAt(buys, sells, reference, best.tick)
    decreases last
  {
    if last > 1 { BestIsCandidate(buys, sells, reference, last - 1); }
  }

  lemma SortedIndices(orders: seq<Order>, key: Order -> int, n: nat)
    requires IndicesIn(orders, n)
    ensures IndicesIn(SortBy(orders, key), n)
  {
    SortBySorts(orders, key);
    SameElements(orders, SortBy(orders, key));
    forall i | 0 <= i < |orders| ensures SortBy(orders, key)[i].accountIndex < n {
      assert SortBy(orders, key)[i] in SortBy(orders, key);
    }
  }

  /** Allocate both sides in priority order and settle, or change nothing. */
  function Settle(m: Market, buys: seq<Order>, sells: seq<Order>, best: Candidate): (Market, Result<BatchResult>)
    requires IndicesIn(buys, |m.accounts|) && IndicesIn(sells, |m.accounts|)
    requires best.tick <= TICKS && best.matched <= U32_MAX
  {
    if Left(buys, best.tick, best.matched) != 0 || Left(sells, best.tick, best.matched) != 0 then
      (m, Failure(InvalidFormat))
    else
      var orders := Allocate(buys, best.tick, best.matched) + Allocate(sells, best.tick, best.matched);
      var updated := ApplyAll(m.accounts, orders, best.tick);
      if updated.Failure? then (m, Failure(updated.error))
      else
        (Market(updated.value, best.tick),
         Success(BatchResult(true, best.tick, best.matched, SortBy(FillsOf(orders), FillKey))))
  }

  function Clear(m: Market, actions: seq<AgentAction>): (Market, Result<BatchResult>) {
    var error := FirstError(m.accounts, actions);
    if error.Some? then (m, Failure(error.value))
    else
      var buys, sells := OrdersOf(m.accounts, actions, BuyYes), OrdersOf(m.accounts, actions, SellYes);
      CollectedIndices(m.accounts, actions, BuyYes);
      CollectedIndices(m.accounts, actions, SellYes);
      ClearOrders(m, buys, sells)
  }

  lemma {:induction false} CollectedIndices(accounts: seq<Account>, actions: seq<AgentAction>, side: ActionKind)
    requires FirstError(accounts, actions).None?
    ensures IndicesIn(OrdersOf(accounts, actions, side), |accounts|)
  {
    if actions == [] {
    } else {
      CollectedIndices(accounts, actions[..|actions| - 1], side);
    }
  }
}
