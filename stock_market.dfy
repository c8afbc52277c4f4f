/**
 * The limit-order matcher of the stock-market simulator.
 *
 * Two queues hold the resting orders: bids sorted by price descending and
 * asks by price ascending, each re-sorted (stably) on every insertion. An
 * incoming order trades against the opposite queue while the best resting
 * price crosses its limit, always at the resting order's price; a partly
 * filled resting order goes back into its queue and whatever the incoming
 * order has left rests in its own queue. One pair of queues serves every
 * ticker, and the ticker never takes part in matching.
 *
 * Prices and quantities are integers.
 */
module StockMarket {
  import opened Wrappers
  import opened Sorting

  /** `{ type, ticker, price, quantity }` */
  datatype Order = Order(kind: string, ticker: string, price: int, quantity: int)

  /** A trade as the program logs it: `executedQty` at the resting order's price. */
  datatype Trade = Trade(price: int, quantity: int)

  /** A side of the book; for an incoming order, the side it is on. */
  datatype Side = Buy | Sell

  /** `buyCompare`: the higher bid goes first. */
  function BuyCompare(a: Order, b: Order): int { b.price - a.price }

  /** `sellCompare`: the lower ask goes first. */
  function SellCompare(a: Order, b: Order): int { a.price - b.price }

  function Min(a: int, b: int): (m: int)
    ensures m <= a && m <= b && (m == a || m == b)
  {
    if a <= b then a else b
  }

  lemma BuyCompareIsPreorder()
    ensures TotalPreorder(BuyCompare)
  {
  }

  lemma SellCompareIsPreorder()
    ensures TotalPreorder(SellCompare)
  {
  }

  /** The queue that keeps the orders of `side`. */
  function Comparator(side: Side): (Order, Order) -> int {
    if side == Buy then BuyCompare else SellCompare
  }

  function Opposite(side: Side): Side {
    if side == Buy then Sell else Buy
  }

  /** `p` goes no later than `q` in the queue of `side`. */
  predicate Ahead(side: Side, p: int, q: int) {
    if side == Buy then p >= q else p <= q
  }

  /** A resting order of the opposite side at `makerPrice` crosses the limit of an
      incoming order of `taker`: `ask.price <= price` for a buy, `bid.price >= price`
      for a sell. */
  predicate Crosses(taker: Side, makerPrice: int, limit: int) {
    if taker == Buy then makerPrice <= limit else makerPrice >= limit
  }

  /**
   * `PriorityQueue`: an array kept sorted by its comparator. `enqueue` pushes
   * and re-sorts the whole array; `dequeue` shifts the first element off.
   */
  class PriorityQueue {
    var heap: seq<Order>
    const compare: (Order, Order) -> int

    ghost predicate Valid()
      reads this
    {
      TotalPreorder(compare) && SortedBy(compare, heap)
    }

    constructor(compareFn: (Order, Order) -> int)
      requires TotalPreorder(compareFn)
      ensures Valid() && compare == compareFn && heap == []
    {
      heap := [];
      compare := compareFn;
    }

    /** `push` then `sort`: the order goes behind every order it does not
        strictly beat, so equal prices keep their arrival order. */
    method Enqueue(order: Order)
      requires Valid()
      modifies this
      ensures Valid()
      ensures heap == InsertBy(compare, old(heap), order)
    {
      ghost var before := heap;
      heap := SortBy(compare, heap + [order]);
      SortByAppend(compare, before, order);
      SortBySortedIsIdentity(compare, before);
      InsertBySorted(compare, before, order);
    }

    /** `shift`: the first order, or `undefined` on an empty queue. */
    method Dequeue() returns (r: Option<Order>)
      requires Valid()
      modifies this
      ensures Valid()
      ensures old(heap) == [] ==> r == None && heap == []
      ensures old(heap) != [] ==> r == Some(old(heap)[0]) && heap == old(heap)[1..]
    {
      if heap == [] {
        r := None;
      } else {
        r := Some(heap[0]);
        heap := heap[1..];
      }
    }

    /** The best order (none goes before it), or `null` when empty. */
    function Peek(): (r: Option<Order>)
      reads this
      requires Valid()
      ensures r.None? <==> |heap| == 0
      ensures r.Some? ==> r.value == heap[0] && forall o :: o in heap ==> compare(r.value, o) <= 0
    {
      if |heap| > 0 then
        assert forall i :: 0 < i < |heap| ==> compare(heap[0], heap[i]) <= 0;
        Some(heap[0])
      else None
    }

    function IsEmpty(): (b: bool)
      reads this
      ensures b <==> multiset(heap) == multiset{}
    {
      |heap| == 0
    }

    /** The live array itself, in priority order. */
    function GetAll(): (r: seq<Order>)
      reads this
      requires Valid()
      ensures r == heap && SortedBy(compare, r)
    {
      heap
    }
  }

  function SumTraded(trades: seq<Trade>): int {
    if trades == [] then 0 else trades[0].quantity + SumTraded(trades[1..])
  }

  function SumResting(s: seq<Order>): int {
    if s == [] then 0 else s[0].quantity + SumResting(s[1..])
  }

  ghost predicate AllPositive(s: seq<Order>) {
    forall i :: 0 <= i < |s| ==> s[i].quantity > 0
  }

  ghost predicate AllTradesPositive(trades: seq<Trade>) {
    forall i :: 0 <= i < |trades| ==> trades[i].quantity > 0
  }

  ghost function Prices(s: seq<Order>): set<int> {
    set i | 0 <= i < |s| :: s[i].price
  }

  ghost function TradePrices(trades: seq<Trade>): set<int> {
    set i | 0 <= i < |trades| :: trades[i].price
  }

  /** What the matching loop leaves: the trades in execution order, the
      opposite queue, and the incoming quantity still unfilled. */
  datatype MatchResult = MatchResult(trades: seq<Trade>, book: seq<Order>, remaining: int)

  /**
   * The `while` loop of `processOrder` for an incoming order of `taker` at
   * `limit` against `book`, the opposite queue. It stops exactly when the
   * quantity is used up, the queue is empty, or the best price no longer
   * crosses; the quantity it started with is what it traded plus what is left.
   */
  function Match(taker: Side, book: seq<Order>, limit: int, quantity: int): (r: MatchResult)
    ensures r.remaining > 0 ==> r.book == [] || !Crosses(taker, r.book[0].price, limit)
    ensures quantity == SumTraded(r.trades) + r.remaining
    decreases |book|, if quantity > 0 then 1 else 0
  {
    if book != [] && Crosses(taker, book[0].price, limit) && quantity > 0 then
      var executed := Min(book[0].quantity, quantity);
      var r := Match(taker, Refill(taker, book, quantity), limit, quantity - executed);
      MatchResult([Trade(book[0].price, executed)] + r.trades, r.book, r.remaining)
    else
      MatchResult([], book, quantity)
  }

  /** The opposite queue after one fill of `quantity` against its first order:
      that order is gone, and re-enqueued if it has some quantity left (in which
      case the incoming order is used up). */
  function Refill(taker: Side, book: seq<Order>, quantity: int): (next: seq<Order>)
    requires book != []
    ensures |next| < |book| || (|next| == |book| && quantity - Min(book[0].quantity, quantity) == 0)
  {
    var left := book[0].quantity - Min(book[0].quantity, quantity);
    if left > 0 then InsertBy(Comparator(Opposite(taker)), book[1..], book[0].(quantity := left))
    else book[1..]
  }

  /** The two outcomes of `Refill`, for callers that know which one applies. */
  lemma RefillOutcome(taker: Side, book: seq<Order>, quantity: int)
    requires book != []
    ensures var left := book[0].quantity - Min(book[0].quantity, quantity);
      (left > 0 ==> Refill(taker, book, quantity) ==
                    InsertBy(Comparator(Opposite(taker)), book[1..], book[0].(quantity := left))) &&
      (left <= 0 ==> Refill(taker, book, quantity) == book[1..])
  {
  }

  /** What `processOrder` leaves: the trades it logged and the two queues. */
  datatype BookResult = BookResult(trades: seq<Trade>, bids: seq<Order>, asks: seq<Order>)

  /**
   * `processOrder(type, ticker, price, quantity)` on the queues `bids` and
   * `asks`: match against the opposite queue, then rest any remainder on the
   * order's own side. A type other than 'buy' or 'sell' does nothing, and so
   * does a quantity that is not positive.
   */
  function Process(kind: string, ticker: string, price: int, quantity: int,
                   bids: seq<Order>, asks: seq<Order>): (r: BookResult)
    ensures kind != "buy" && kind != "sell" ==> r == BookResult([], bids, asks)
    ensures quantity <= 0 ==> r == BookResult([], bids, asks)
  {
    if kind == "buy" then
      var m := Match(Buy, asks, price, quantity);
      var rested := if m.remaining > 0 then InsertBy(BuyCompare, bids, Order(kind, ticker, price, m.remaining))
                    else bids;
      BookResult(m.trades, rested, m.book)
    else if kind == "sell" then
      var m := Match(Sell, bids, price, quantity);
      var rested := if m.remaining > 0 then InsertBy(SellCompare, asks, Order(kind, ticker, price, m.remaining))
                    else asks;
      BookResult(m.trades, m.book, rested)
    else
      BookResult([], bids, asks)
  }

  /** The best bid is strictly below the best ask whenever both exist. */
  ghost predicate NotCrossed(bids: seq<Order>, asks: seq<Order>) {
    bids != [] && asks != [] ==> bids[0].price < asks[0].price
  }

  // ---------------------------------------------------------------------------
  // Properties of the matching loop
  // ---------------------------------------------------------------------------

  lemma {:induction false} SumRestingInsert(cmp: (Order, Order) -> int, s: seq<Order>, x: Order)
    ensures SumResting(InsertBy(cmp, s, x)) == SumResting(s) + x.quantity
  {
    if s != [] && cmp(x, s[0]) >= 0 {
      SumRestingInsert(cmp, s[1..], x);
      assert InsertBy(cmp, s, x)[1..] == InsertBy(cmp, s[1..], x);
    } else {
      assert ([x] + s)[1..] == s;
    }
  }

  /** One step of the loop takes from the queue exactly what the step trades. */
  lemma RefillConserves(taker: Side, book: seq<Order>, quantity: int)
    requires book != []
    ensures SumResting(Refill(taker, book, quantity)) == SumResting(book) - Min(book[0].quantity, quantity)
  {
    var left := book[0].quantity - Min(book[0].quantity, quantity);
    if left > 0 {
      SumRestingInsert(Comparator(Opposite(taker)), book[1..], book[0].(quantity := left));
    }
  }

  /** Each resting order loses exactly what it trades: the opposite queue's
      total quantity drops by the total traded. */
  lemma {:induction false} MatchConservesResting(taker: Side, book: seq<Order>, limit: int, quantity: int)
    ensures var r := Match(taker, book, limit, quantity);
      SumResting(book) == SumResting(r.book) + SumTraded(r.trades)
    decreases |book|, if quantity > 0 then 1 else 0
  {
    if book != [] && Crosses(taker, book[0].price, limit) && quantity > 0 {
      var executed := Min(book[0].quantity, quantity);
      var next := Refill(taker, book, quantity);
      RefillConserves(taker, book, quantity);
      MatchConservesResting(taker, next, limit, quantity - executed);
      MatchStep(taker, book, limit, quantity);
      SumTradedCons(Trade(book[0].price, executed), Match(taker, next, limit, quantity - executed).trades);
    } else {
      MatchStops(taker, book, limit, quantity);
    }
  }

  /**
   * The resting orders are filled in queue order: the `n` trades are against
   * the first `n` orders of the queue, at their prices; every one of them but
   * the last is filled completely. If the last one is only partly filled, the
   * incoming order is used up and that order goes back into the rest of the
   * queue with what it has left; otherwise the rest of the queue is untouched.
   */
  ghost predicate FilledInOrder(taker: Side, book: seq<Order>, r: MatchResult) {
    TradedAgainstHead(book, r.trades) && LeftAfterFills(taker, book, r)
  }

  /** The trades are against the first orders of `book`, at their prices, and
      all but the last take the whole order. */
  ghost predicate TradedAgainstHead(book: seq<Order>, trades: seq<Trade>) {
    var n := |trades|;
    n <= |book| &&
    (forall i :: 0 <= i < n ==> trades[i].price == book[i].price) &&
    (forall i :: 0 <= i < n - 1 ==> trades[i].quantity == book[i].quantity) &&
    (n > 0 ==> trades[n - 1].quantity <= book[n - 1].quantity)
  }

  /** What the queue holds after the fills recorded in `r`. */
  ghost predicate LeftAfterFills(taker: Side, book: seq<Order>, r: MatchResult) {
    var n := |r.trades|;
    n <= |book| &&
    (n > 0 && r.trades[n - 1].quantity < book[n - 1].quantity ==>
       r.remaining == 0 &&
       r.book == InsertBy(Comparator(Opposite(taker)), book[n..],
                          book[n - 1].(quantity := book[n - 1].quantity - r.trades[n - 1].quantity))) &&
    ((n == 0 || r.trades[n - 1].quantity == book[n - 1].quantity) ==> r.book == book[n..])
  }

  /** Each maker is charged exactly its own executed quantity, in queue order. */
  lemma {:induction false} MatchFillsInQueueOrder(taker: Side, book: seq<Order>, limit: int, quantity: int)
    ensures FilledInOrder(taker, book, Match(taker, book, limit, quantity))
    decreases |book|, if quantity > 0 then 1 else 0
  {
    if book != [] && Crosses(taker, book[0].price, limit) && quantity > 0 {
      if book[0].quantity - Min(book[0].quantity, quantity) > 0 {
        MatchFillsPartly(taker, book, limit, quantity);
      } else {
        MatchFillsInQueueOrder(taker, book[1..], limit, quantity - book[0].quantity);
        MatchFillsWhole(taker, book, limit, quantity);
      }
    } else {
      MatchStops(taker, book, limit, quantity);
      assert book[0..] == book;
    }
  }

  /** The first maker is partly filled: it is the only trade. */
  lemma MatchFillsPartly(taker: Side, book: seq<Order>, limit: int, quantity: int)
    requires book != [] && Crosses(taker, book[0].price, limit) && quantity > 0
    requires book[0].quantity - Min(book[0].quantity, quantity) > 0
    ensures FilledInOrder(taker, book, Match(taker, book, limit, quantity))
  {
    var executed := Min(book[0].quantity, quantity);
    var t := Trade(book[0].price, executed);
    MatchStep(taker, book, limit, quantity);
    RefillOutcome(taker, book, quantity);
    var next := Refill(taker, book, quantity);
    MatchStops(taker, next, limit, quantity - executed);
    FilledPartly(taker, book, t, next, Match(taker, book, limit, quantity));
  }

  /** The first maker is filled completely: the rest is matching against the
      rest of the queue. */
  lemma MatchFillsWhole(taker: Side, book: seq<Order>, limit: int, quantity: int)
    requires book != [] && Crosses(taker, book[0].price, limit) && quantity > 0
    requires book[0].quantity - Min(book[0].quantity, quantity) <= 0
    requires FilledInOrder(taker, book[1..], Match(taker, book[1..], limit, quantity - book[0].quantity))
    ensures FilledInOrder(taker, book, Match(taker, book, limit, quantity))
  {
    MatchStepWhole(taker, book, limit, quantity);
    FilledInOrderCons(taker, book, Trade(book[0].price, book[0].quantity),
                      Match(taker, book[1..], limit, quantity - book[0].quantity), Match(taker, book, limit, quantity));
  }

  /** The first turn of the loop when it takes the whole first maker. */
  lemma MatchStepWhole(taker: Side, book: seq<Order>, limit: int, quantity: int)
    requires book != [] && Crosses(taker, book[0].price, limit) && quantity > 0
    requires book[0].quantity - Min(book[0].quantity, quantity) <= 0
    ensures var r := Match(taker, book[1..], limit, quantity - book[0].quantity);
      Match(taker, book, limit, quantity) ==
        MatchResult([Trade(book[0].price, book[0].quantity)] + r.trades, r.book, r.remaining)
  {
    MatchStep(taker, book, limit, quantity);
    RefillOutcome(taker, book, quantity);
  }

  lemma FilledPartly(taker: Side, book: seq<Order>, t: Trade, next: seq<Order>, whole: MatchResult)
    requires book != [] && t.price == book[0].price && t.quantity < book[0].quantity
    requires next == InsertBy(Comparator(Opposite(taker)), book[1..], book[0].(quantity := book[0].quantity - t.quantity))
    requires whole == MatchResult([t] + [], next, 0)
    ensures FilledInOrder(taker, book, whole)
  {
    assert [t] + [] == [t];
  }

  lemma FilledInOrderCons(taker: Side, book: seq<Order>, t: Trade, r: MatchResult, whole: MatchResult)
    requires book != [] && t.price == book[0].price && t.quantity == book[0].quantity
    requires FilledInOrder(taker, book[1..], r)
    requires whole == MatchResult([t] + r.trades, r.book, r.remaining)
    ensures FilledInOrder(taker, book, whole)
  {
    TradedAgainstHeadCons(book, t, r.trades);
    LeftAfterFillsCons(taker, book, t, r, whole);
  }

  lemma TradedAgainstHeadCons(book: seq<Order>, t: Trade, trades: seq<Trade>)
    requires book != [] && t.price == book[0].price && t.quantity == book[0].quantity
    requires TradedAgainstHead(book[1..], trades)
    ensures TradedAgainstHead(book, [t] + trades)
  {
    var all := [t] + trades;
    assert forall i :: 0 < i < |all| ==> all[i] == trades[i - 1] && book[i] == book[1..][i - 1];
  }

  lemma LeftAfterFillsCons(taker: Side, book: seq<Order>, t: Trade, r: MatchResult, whole: MatchResult)
    requires book != [] && t.quantity == book[0].quantity
    requires LeftAfterFills(taker, book[1..], r)
    requires whole == MatchResult([t] + r.trades, r.book, r.remaining)
    ensures LeftAfterFills(taker, book, whole)
  {
    var n, m := |whole.trades|, |r.trades|;
    assert book[n..] == book[1..][m..];
    if m > 0 {
      assert whole.trades[n - 1] == r.trades[m - 1] && book[n - 1] == book[1..][m - 1];
    }
  }

  /** The first turn of the loop, written out. */
  lemma MatchStep(taker: Side, book: seq<Order>, limit: int, quantity: int)
    requires book != [] && Crosses(taker, book[0].price, limit) && quantity > 0
    ensures var executed := Min(book[0].quantity, quantity);
      var r := Match(taker, Refill(taker, book, quantity), limit, quantity - executed);
      Match(taker, book, limit, quantity) == MatchResult([Trade(book[0].price, executed)] + r.trades, r.book, r.remaining)
  {
  }

  /** The loop does not start: nothing traded, nothing changed. */
  lemma MatchStops(taker: Side, book: seq<Order>, limit: int, quantity: int)
    requires !(book != [] && Crosses(taker, book[0].price, limit) && quantity > 0)
    ensures Match(taker, book, limit, quantity) == MatchResult([], book, quantity)
  {
  }

  lemma SumTradedCons(t: Trade, trades: seq<Trade>)
    ensures SumTraded([t] + trades) == t.quantity + SumTraded(trades)
  {
    assert ([t] + trades)[1..] == trades;
  }

  /** With positive resting quantities and a positive incoming quantity, every
      trade is for a positive quantity, the remainder lies between 0 and the
      incoming quantity, and no resting order is left with quantity 0 or less. */
  lemma {:induction false} MatchKeepsQuantitiesPositive(taker: Side, book: seq<Order>, limit: int, quantity: int)
    requires AllPositive(book) && quantity > 0
    ensures var r := Match(taker, book, limit, quantity);
      AllPositive(r.book) && 0 <= r.remaining <= quantity && AllTradesPositive(r.trades)
    decreases |book|
  {
    if book != [] && Crosses(taker, book[0].price, limit) {
      var quantity' := quantity - Min(book[0].quantity, quantity);
      RefillKeepsPositive(taker, book, quantity);
      if quantity' > 0 {
        MatchKeepsQuantitiesPositive(taker, Refill(taker, book, quantity), limit, quantity');
      }
      MatchKeepsPositiveStep(taker, book, limit, quantity);
    } else {
      MatchStops(taker, book, limit, quantity);
    }
  }

  /** The step of `MatchKeepsQuantitiesPositive`: the first trade is positive,
      and the rest of the loop keeps the property. */
  lemma MatchKeepsPositiveStep(taker: Side, book: seq<Order>, limit: int, quantity: int)
    requires book != [] && Crosses(taker, book[0].price, limit) && quantity > 0
    requires AllPositive(book) && AllPositive(Refill(taker, book, quantity))
    requires var quantity' := quantity - Min(book[0].quantity, quantity);
      var r := Match(taker, Refill(taker, book, quantity), limit, quantity');
      quantity' > 0 ==> AllPositive(r.book) && 0 <= r.remaining <= quantity' && AllTradesPositive(r.trades)
    ensures var r := Match(taker, book, limit, quantity);
      AllPositive(r.book) && 0 <= r.remaining <= quantity && AllTradesPositive(r.trades)
  {
    var executed := Min(book[0].quantity, quantity);
    var t := Trade(book[0].price, executed);
    var next := Refill(taker, book, quantity);
    var r := Match(taker, next, limit, quantity - executed);
    if quantity - executed <= 0 {
      MatchStops(taker, next, limit, quantity - executed);
    }
    MatchStep(taker, book, limit, quantity);
    TradesPositiveCons(t, r.trades);
  }

  lemma TradesPositiveCons(t: Trade, trades: seq<Trade>)
    requires t.quantity > 0 && AllTradesPositive(trades)
    ensures AllTradesPositive([t] + trades)
  {
    var all := [t] + trades;
    forall i | 0 < i < |all| ensures all[i].quantity > 0 {
      assert all[i] == trades[i - 1];
    }
  }

  lemma RefillKeepsPositive(taker: Side, book: seq<Order>, quantity: int)
    requires book != [] && AllPositive(book)
    ensures AllPositive(Refill(taker, book, quantity))
  {
    var next := Refill(taker, book, quantity);
    forall i | 0 <= i < |next| ensures next[i].quantity > 0 {
      assert next[i] in multiset(next);
    }
  }

  /** One step of the loop: the queue it continues with holds only prices that
      were already there. */
  lemma RefillKeepsPrices(taker: Side, book: seq<Order>, quantity: int)
    requires book != []
    ensures Prices(Refill(taker, book, quantity)) <= Prices(book)
  {
    var next := Refill(taker, book, quantity);
    var left := book[0].quantity - Min(book[0].quantity, quantity);
    forall p | p in Prices(next) ensures p in Prices(book) {
      var i :| 0 <= i < |next| && next[i].price == p;
      assert next[i] in multiset(next);
      if next[i] != book[0].(quantity := left) {
        var j :| 0 <= j < |book[1..]| && book[1..][j] == next[i];
        assert book[j + 1].price == p;
      } else {
        assert book[0].price == p;
      }
    }
  }

  /** Every trade executes at the price of an order that was resting in the
      opposite queue, and every order left in that queue is at a price that
      was already there. */
  lemma {:induction false} MatchTradesAtMakerPrices(taker: Side, book: seq<Order>, limit: int, quantity: int)
    ensures var r := Match(taker, book, limit, quantity);
      TradePrices(r.trades) <= Prices(book) && Prices(r.book) <= Prices(book)
    decreases |book|, if quantity > 0 then 1 else 0
  {
    if book != [] && Crosses(taker, book[0].price, limit) && quantity > 0 {
      var executed := Min(book[0].quantity, quantity);
      var next := Refill(taker, book, quantity);
      RefillKeepsPrices(taker, book, quantity);
      MatchTradesAtMakerPrices(taker, next, limit, quantity - executed);
      MatchStep(taker, book, limit, quantity);
      TradePricesCons(Trade(book[0].price, executed), Match(taker, next, limit, quantity - executed).trades);
      assert book[0].price in Prices(book);
    } else {
      MatchStops(taker, book, limit, quantity);
    }
  }

  lemma TradePricesCons(t: Trade, trades: seq<Trade>)
    ensures TradePrices([t] + trades) == {t.price} + TradePrices(trades)
  {
    var all := [t] + trades;
    forall p | p in TradePrices(all) ensures p in {t.price} + TradePrices(trades) {
      var i :| 0 <= i < |all| && all[i].price == p;
      if i > 0 {
        assert all[i] == trades[i - 1];
      }
    }
    forall p | p in TradePrices(trades) ensures p in TradePrices(all) {
      var i :| 0 <= i < |trades| && trades[i].price == p;
      assert all[i + 1] == trades[i];
    }
    assert all[0] == t;
  }

  /** Every trade is at a price that crosses `limit` for an incoming order of `taker`. */
  ghost predicate AllCross(taker: Side, trades: seq<Trade>, limit: int) {
    forall i :: 0 <= i < |trades| ==> Crosses(taker, trades[i].price, limit)
  }

  /** A buyer never pays more than its limit, a seller never receives less. */
  lemma {:induction false} MatchTradesCrossLimit(taker: Side, book: seq<Order>, limit: int, quantity: int)
    ensures AllCross(taker, Match(taker, book, limit, quantity).trades, limit)
    decreases |book|, if quantity > 0 then 1 else 0
  {
    if book != [] && Crosses(taker, book[0].price, limit) && quantity > 0 {
      var executed := Min(book[0].quantity, quantity);
      var next := Refill(taker, book, quantity);
      MatchTradesCrossLimit(taker, next, limit, quantity - executed);
      MatchStep(taker, book, limit, quantity);
      AllCrossCons(taker, Trade(book[0].price, executed), Match(taker, next, limit, quantity - executed).trades, limit);
    } else {
      MatchStops(taker, book, limit, quantity);
    }
  }

  lemma AllCrossCons(taker: Side, t: Trade, trades: seq<Trade>, limit: int)
    requires Crosses(taker, t.price, limit) && AllCross(taker, trades, limit)
    ensures AllCross(taker, [t] + trades, limit)
  {
    var all := [t] + trades;
    forall i | 0 < i < |all| ensures Crosses(taker, all[i].price, limit) {
      assert all[i] == trades[i - 1];
    }
  }

  /** One step of the loop leaves the opposite queue sorted. */
  lemma RefillKeepsSorted(taker: Side, book: seq<Order>, quantity: int)
    requires book != [] && SortedBy(Comparator(Opposite(taker)), book)
    ensures SortedBy(Comparator(Opposite(taker)), Refill(taker, book, quantity))
  {
    var cmp := Comparator(Opposite(taker));
    var left := book[0].quantity - Min(book[0].quantity, quantity);
    assert SortedBy(cmp, book[1..]) by {
      forall i, j | 0 <= i < j < |book[1..]| ensures cmp(book[1..][i], book[1..][j]) <= 0 {
        assert book[1..][i] == book[i + 1] && book[1..][j] == book[j + 1];
      }
    }
    if left > 0 {
      BuyCompareIsPreorder();
      SellCompareIsPreorder();
      InsertBySorted(cmp, book[1..], book[0].(quantity := left));
    }
  }

  /** The opposite queue stays sorted. */
  lemma {:induction false} MatchKeepsSorted(taker: Side, book: seq<Order>, limit: int, quantity: int)
    requires SortedBy(Comparator(Opposite(taker)), book)
    ensures SortedBy(Comparator(Opposite(taker)), Match(taker, book, limit, quantity).book)
    decreases |book|, if quantity > 0 then 1 else 0
  {
    if book != [] && Crosses(taker, book[0].price, limit) && quantity > 0 {
      RefillKeepsSorted(taker, book, quantity);
      MatchKeepsSorted(taker, Refill(taker, book, quantity), limit, quantity - Min(book[0].quantity, quantity));
      MatchStep(taker, book, limit, quantity);
    } else {
      MatchStops(taker, book, limit, quantity);
    }
  }

  /** The invariant of the matching loop: the trades made so far followed by
      those `Match` still makes from the current queue and quantity are the
      trades of the whole call, and it ends in the same queue and remainder. */
  ghost predicate Pending(taker: Side, book: seq<Order>, limit: int, quantity: int, trades: seq<Trade>, goal: MatchResult) {
    var m := Match(taker, book, limit, quantity);
    trades + m.trades == goal.trades && m.book == goal.book && m.remaining == goal.remaining
  }

  /** One turn of the matching loop keeps its invariant: one trade at the best
      price, the best order refilled or gone, and the quantity reduced. */
  lemma MatchLoopStep(taker: Side, book: seq<Order>, limit: int, quantity: int, trades: seq<Trade>, goal: MatchResult,
                      book': seq<Order>, quantity': int, trades': seq<Trade>)
    requires book != [] && Crosses(taker, book[0].price, limit) && quantity > 0
    requires Pending(taker, book, limit, quantity, trades, goal)
    requires book' == Refill(taker, book, quantity)
    requires quantity' == quantity - Min(book[0].quantity, quantity)
    requires trades' == trades + [Trade(book[0].price, Min(book[0].quantity, quantity))]
    ensures Pending(taker, book', limit, quantity', trades', goal)
  {
    MatchStep(taker, book, limit, quantity);
    TradesAhead(trades, Trade(book[0].price, Min(book[0].quantity, quantity)), Match(taker, book', limit, quantity').trades,
                goal.trades);
  }

  lemma TradesAhead(done: seq<Trade>, t: Trade, rest: seq<Trade>, all: seq<Trade>)
    requires done + ([t] + rest) == all
    ensures (done + [t]) + rest == all
  {
  }

  /** When the matching loop stops, what it made is the whole of `goal`. */
  lemma MatchLoopDone(taker: Side, book: seq<Order>, limit: int, quantity: int, trades: seq<Trade>, goal: MatchResult)
    requires !(book != [] && Crosses(taker, book[0].price, limit) && quantity > 0)
    requires Pending(taker, book, limit, quantity, trades, goal)
    ensures trades == goal.trades && book == goal.book && quantity == goal.remaining
  {
    MatchStops(taker, book, limit, quantity);
    assert trades + [] == trades;
  }

  // ---------------------------------------------------------------------------
  // Properties of processOrder
  // ---------------------------------------------------------------------------

  /** A re-enqueued order goes behind every order of the queue at its own
      price (and every better price), and ahead of every worse price. */
  lemma EnqueueKeepsTimePriority(side: Side, s: seq<Order>, x: Order)
    requires SortedBy(Comparator(side), s)
    ensures var k := InsertPos(Comparator(side), s, x);
      InsertBy(Comparator(side), s, x) == s[..k] + [x] + s[k..] &&
      (forall i :: 0 <= i < k ==> Ahead(side, s[i].price, x.price)) &&
      (forall i :: k <= i < |s| ==> !Ahead(side, s[i].price, x.price))
  {
    BuyCompareIsPreorder();
    SellCompareIsPreorder();
    InsertByDecomposition(Comparator(side), s, x);
  }

  /** In a sorted queue no order's price beats the first one's. */
  lemma SortedHeadIsBest(side: Side, s: seq<Order>)
    requires SortedBy(Comparator(side), s) && s != []
    ensures forall p :: p in Prices(s) ==> Ahead(side, s[0].price, p)
  {
    forall p | p in Prices(s) ensures Ahead(side, s[0].price, p) {
      var i :| 0 <= i < |s| && s[i].price == p;
      assert i == 0 || Comparator(side)(s[0], s[i]) <= 0;
    }
  }

  lemma InsertByHead(cmp: (Order, Order) -> int, s: seq<Order>, x: Order)
    ensures InsertBy(cmp, s, x)[0] == x || (s != [] && InsertBy(cmp, s, x)[0] == s[0])
  {
  }

  lemma MatchEmptyBook(taker: Side, limit: int, quantity: int)
    ensures Match(taker, [], limit, quantity).book == []
  {
  }

  /**
   * The book never crosses: if the best bid was strictly below the best ask
   * before `processOrder`, it still is afterwards.
   */
  lemma ProcessKeepsBookUncrossed(kind: string, ticker: string, price: int, quantity: int,
                                  bids: seq<Order>, asks: seq<Order>)
    requires SortedBy(BuyCompare, bids) && SortedBy(SellCompare, asks)
    requires NotCrossed(bids, asks)
    ensures var r := Process(kind, ticker, price, quantity, bids, asks); NotCrossed(r.bids, r.asks)
  {
    var r := Process(kind, ticker, price, quantity, bids, asks);
    if kind == "buy" {
      var m := Match(Buy, asks, price, quantity);
      if asks == [] {
        MatchEmptyBook(Buy, price, quantity);
      } else if m.book != [] {
        MatchTradesAtMakerPrices(Buy, asks, price, quantity);
        SortedHeadIsBest(Sell, asks);
        assert m.book[0].price in Prices(m.book);
        assert asks[0].price <= m.book[0].price;
        if m.remaining > 0 {
          InsertByHead(BuyCompare, bids, Order(kind, ticker, price, m.remaining));
        }
      }
    } else if kind == "sell" {
      var m := Match(Sell, bids, price, quantity);
      if bids == [] {
        MatchEmptyBook(Sell, price, quantity);
      } else if m.book != [] {
        MatchTradesAtMakerPrices(Sell, bids, price, quantity);
        SortedHeadIsBest(Buy, bids);
        assert m.book[0].price in Prices(m.book);
        assert m.book[0].price <= bids[0].price;
        if m.remaining > 0 {
          InsertByHead(SellCompare, asks, Order(kind, ticker, price, m.remaining));
        }
      }
    }
  }

  /** Both queues stay sorted. */
  lemma ProcessKeepsSorted(kind: string, ticker: string, price: int, quantity: int,
                           bids: seq<Order>, asks: seq<Order>)
    requires SortedBy(BuyCompare, bids) && SortedBy(SellCompare, asks)
    ensures var r := Process(kind, ticker, price, quantity, bids, asks);
      SortedBy(BuyCompare, r.bids) && SortedBy(SellCompare, r.asks)
  {
    BuyCompareIsPreorder();
    SellCompareIsPreorder();
    if kind == "buy" {
      MatchKeepsSorted(Buy, asks, price, quantity);
      var m := Match(Buy, asks, price, quantity);
      InsertBySorted(BuyCompare, bids, Order(kind, ticker, price, m.remaining));
    } else if kind == "sell" {
      MatchKeepsSorted(Sell, bids, price, quantity);
      var m := Match(Sell, bids, price, quantity);
      InsertBySorted(SellCompare, asks, Order(kind, ticker, price, m.remaining));
    }
  }

  /** No stored order ever has a quantity of 0 or less. */
  lemma ProcessKeepsQuantitiesPositive(kind: string, ticker: string, price: int, quantity: int,
                                       bids: seq<Order>, asks: seq<Order>)
    requires AllPositive(bids) && AllPositive(asks)
    ensures var r := Process(kind, ticker, price, quantity, bids, asks);
      AllPositive(r.bids) && AllPositive(r.asks) && AllTradesPositive(r.trades)
  {
    if quantity > 0 && (kind == "buy" || kind == "sell") {
      var (taker, own, book) := if kind == "buy" then (Buy, bids, asks) else (Sell, asks, bids);
      MatchKeepsQuantitiesPositive(taker, book, price, quantity);
      var m := Match(taker, book, price, quantity);
      if m.remaining > 0 {
        var o := Order(kind, ticker, price, m.remaining);
        var rested := InsertBy(Comparator(taker), own, o);
        forall i | 0 <= i < |rested| ensures rested[i].quantity > 0 {
          assert rested[i] in multiset(rested);
        }
      }
    }
  }

  /**
   * Conservation: the incoming quantity is what was traded plus what came to
   * rest on the order's own side, and the opposite side lost exactly what was
   * traded.
   */
  lemma ProcessConservesQuantity(kind: string, ticker: string, price: int, quantity: int,
                                 bids: seq<Order>, asks: seq<Order>)
    requires kind == "buy" || kind == "sell"
    requires AllPositive(bids) && AllPositive(asks) && quantity > 0
    ensures var r := Process(kind, ticker, price, quantity, bids, asks);
      var (own, own', opposite, opposite') :=
        if kind == "buy" then (bids, r.bids, asks, r.asks) else (asks, r.asks, bids, r.bids);
      quantity == SumTraded(r.trades) + (SumResting(own') - SumResting(own)) &&
      SumResting(opposite) == SumResting(opposite') + SumTraded(r.trades)
  {
    var (taker, own, book) := if kind == "buy" then (Buy, bids, asks) else (Sell, asks, bids);
    MatchConservesResting(taker, book, price, quantity);
    MatchKeepsQuantitiesPositive(taker, book, price, quantity);
    var m := Match(taker, book, price, quantity);
    if m.remaining > 0 {
      SumRestingInsert(Comparator(taker), own, Order(kind, ticker, price, m.remaining));
    }
  }

  /** The ticker takes no part in matching: two orders that differ only in their
      ticker make the same trades against the same orders. */
  lemma ProcessIgnoresTicker(kind: string, t1: string, t2: string, price: int, quantity: int,
                             bids: seq<Order>, asks: seq<Order>)
    ensures var r1, r2 := Process(kind, t1, price, quantity, bids, asks), Process(kind, t2, price, quantity, bids, asks);
      r1.trades == r2.trades &&
      (kind == "buy" ==> r1.asks == r2.asks && |r1.bids| == |r2.bids|) &&
      (kind == "sell" ==> r1.bids == r2.bids && |r1.asks| == |r2.asks|)
  {
  }

  /**
   * Two asks at the same price are filled in arrival order: SELL 10@100, then
   * SELL 5@100, then BUY 12@100 trades 10 and then 2 at 100, leaves the second
   * ask with 3 and rests no bid.
   */
  lemma PriceTimePriorityExample()
    ensures var s1 := Process("sell", "ACME", 100, 10, [], []);
      var s2 := Process("sell", "ACME", 100, 5, s1.bids, s1.asks);
      var b := Process("buy", "ACME", 100, 12, s2.bids, s2.asks);
      b.trades == [Trade(100, 10), Trade(100, 2)] &&
      b.bids == [] && b.asks == [Order("sell", "ACME", 100, 3)]
  {
    TwoAsksRest();
    BuyTwelveAgainstTwoAsks();
  }

  /** SELL 10@100 then SELL 5@100 on an empty book rest in arrival order. */
  lemma TwoAsksRest()
    ensures var s1 := Process("sell", "ACME", 100, 10, [], []);
      Process("sell", "ACME", 100, 5, s1.bids, s1.asks) ==
        BookResult([], [], [Order("sell", "ACME", 100, 10), Order("sell", "ACME", 100, 5)])
  {
    var a1, a2 := Order("sell", "ACME", 100, 10), Order("sell", "ACME", 100, 5);
    assert Match(Sell, [], 100, 10) == MatchResult([], [], 10);
    assert Process("sell", "ACME", 100, 10, [], []) == BookResult([], [], [a1]);
    assert Match(Sell, [], 100, 5) == MatchResult([], [], 5);
    assert InsertBy(SellCompare, [a1], a2) == [a1] + InsertBy(SellCompare, [], a2);
  }

  /** BUY 12@100 against those two asks fills the first and 2 of the second. */
  lemma BuyTwelveAgainstTwoAsks()
    ensures var a1, a2 := Order("sell", "ACME", 100, 10), Order("sell", "ACME", 100, 5);
      Process("buy", "ACME", 100, 12, [], [a1, a2]) ==
        BookResult([Trade(100, 10), Trade(100, 2)], [], [a2.(quantity := 3)])
  {
    var a1, a2 := Order("sell", "ACME", 100, 10), Order("sell", "ACME", 100, 5);
    var r2 := Match(Buy, [a2.(quantity := 3)], 100, 0);
    assert r2 == MatchResult([], [a2.(quantity := 3)], 0);
    assert InsertBy(SellCompare, [], a2.(quantity := 3)) == [a2.(quantity := 3)];
    var r1 := Match(Buy, [a2], 100, 2);
    assert r1 == MatchResult([Trade(100, 2)], [a2.(quantity := 3)], 0);
    assert [a1, a2][1..] == [a2];
    assert Match(Buy, [a1, a2], 100, 12) == MatchResult([Trade(100, 10), Trade(100, 2)], [a2.(quantity := 3)], 0);
  }

  /**
   * The program's state: one bid queue and one ask queue shared by all tickers.
   */
  class Market {
    const buyOrders: PriorityQueue
    const sellOrders: PriorityQueue

    ghost predicate Valid()
      reads this, buyOrders, sellOrders
    {
      buyOrders != sellOrders &&
      buyOrders.Valid() && sellOrders.Valid() &&
      buyOrders.compare == BuyCompare && sellOrders.compare == SellCompare
    }

    constructor()
      ensures Valid() && fresh(buyOrders) && fresh(sellOrders)
      ensures buyOrders.heap == [] && sellOrders.heap == []
    {
      BuyCompareIsPreorder();
      SellCompareIsPreorder();
      buyOrders := new PriorityQueue(BuyCompare);
      sellOrders := new PriorityQueue(SellCompare);
    }

    /**
     * `processOrder`: a buy trades against the ask queue and a sell against the
     * bid queue (`Fill`), and whatever is left of the incoming order rests in
     * its own queue; an order of any other kind changes nothing.
     */
    method ProcessOrder(kind: string, ticker: string, price: int, quantity: int) returns (trades: seq<Trade>)
      requires Valid()
      modifies buyOrders, sellOrders
      ensures Valid()
      ensures var r := Process(kind, ticker, price, quantity, old(buyOrders.heap), old(sellOrders.heap));
        trades == r.trades && buyOrders.heap == r.bids && sellOrders.heap == r.asks
    {
      var order := Order(kind, ticker, price, quantity);
      trades := [];
      if kind == "buy" {
        var qty;
        trades, qty := Fill(sellOrders, Buy, price, quantity);
        if qty > 0 {
          order := order.(quantity := qty);
          buyOrders.Enqueue(order);
        }
      } else if kind == "sell" {
        var qty;
        trades, qty := Fill(buyOrders, Sell, price, quantity);
        if qty > 0 {
          order := order.(quantity := qty);
          sellOrders.Enqueue(order);
        }
      }
    }
  }

  /**
   * The `while` loop of `processOrder` for an incoming order of `taker`: while
   * the opposite queue is not empty, its best order crosses `limit` and some
   * quantity is left, dequeue that order, trade the smaller of the two
   * quantities at its price, and enqueue it again if it has some left.
   */
  method Fill(queue: PriorityQueue, taker: Side, limit: int, quantity: int) returns (trades: seq<Trade>, qty: int)
    requires queue.Valid() && queue.compare == Comparator(Opposite(taker))
    modifies queue
    ensures queue.Valid()
    ensures var m := Match(taker, old(queue.heap), limit, quantity);
      trades == m.trades && queue.heap == m.book && qty == m.remaining
  {
    qty := quantity;
    trades := [];
    ghost var goal := Match(taker, queue.heap, limit, qty);
    while !queue.IsEmpty() && Crosses(taker, queue.Peek().value.price, limit) && qty > 0
      invariant queue.Valid() && queue.compare == Comparator(Opposite(taker))
      invariant Pending(taker, queue.heap, limit, qty, trades, goal)
      decreases |queue.heap|, if qty > 0 then 1 else 0
    {
      ghost var book, qty0, trades0 := queue.heap, qty, trades;
      var dequeued := queue.Dequeue();
      var maker := dequeued.value;
      var executedQty := Min(maker.quantity, qty);
      trades := trades + [Trade(maker.price, executedQty)];
      qty := qty - executedQty;
      maker := maker.(quantity := maker.quantity - executedQty);
      RefillOutcome(taker, book, qty0);
      assert maker == book[0].(quantity := book[0].quantity - Min(book[0].quantity, qty0));
      if maker.quantity > 0 {
        queue.Enqueue(maker);
      } else {
        assert queue.heap == book[1..];
      }
      MatchLoopStep(taker, book, limit, qty0, trades0, goal, queue.heap, qty, trades);
    }
    MatchLoopDone(taker, queue.heap, limit, qty, trades, goal);
  }
}
