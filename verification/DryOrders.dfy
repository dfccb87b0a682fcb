/**
  The simulated order book of dry-run mode: `create_dry_run_order`, `check_dry_limit_order_filled`,
  `fetch_dry_run_order` and the dry branch of `cancel_order`.
 */
module DryOrders {
  import opened Reals
  import opened Results
  import opened MarketFill

  datatype OrderType = Market | Limit | ExchangeSpecific(name: string)
  datatype Status = Open | Closed | Canceled
  datatype Fee = Fee(cost: real, rate: real)
  datatype OrderError = InvalidOrder | Pricing(cause: PricingError)

  /** The entries of an order that the engine reads or writes. */
  datatype Order = Order(
    side: Side, price: real, average: real, amount: real, cost: real, kind: OrderType,
    filled: real, remaining: real, status: Status, fee: Option<Fee>, stopLoss: bool)

  /** What a caller asks for; `book` is what the exchange shows at that moment. */
  datatype Request = Request(kind: OrderType, side: Side, amount: real, rate: real, stopLoss: bool, book: OrderBook)

  /** The exchange as the engine sees it. */
  datatype Venue = Venue(
    hasOrderBook: bool, takerFee: real, makerFee: real,
    roundAmount: real -> real, roundPrice: real -> real)

  const ALLOWED_DIFF := 0.01

  predicate Crossed(hasOrderBook: bool, side: Side, limit: real, book: OrderBook, offset: real) {
    !hasOrderBook
    || (side == Buy && book.asks != [] && limit * (1.0 - offset) >= book.asks[0].price)
    || (side == Sell && book.bids != [] && limit * (1.0 + offset) <= book.bids[0].price)
  }

  function FeeFor(cost: real, rate: real): Fee {
    Fee(cost * rate, rate)
  }

  function CostOf(amount: real, price: real): real {
    amount * price
  }

  function WithFee(o: Order, rate: real): Order {
    o.(fee := Some(FeeFor(o.cost, rate)))
  }

  predicate Fillable(o: Order) {
    o.status != Closed && o.kind == Limit && !o.stopLoss
  }

  function CheckFilled(v: Venue, o: Order, book: OrderBook, feeRate: real): Order {
    if Fillable(o) && Crossed(v.hasOrderBook, o.side, o.price, book, 0.0)
    then WithFee(o.(status := Closed, filled := o.amount, remaining := 0.0), feeRate)
    else o
  }

  function CancelOrder(o: Order): Order {
    o.(status := Canceled, filled := 0.0, remaining := o.amount)
  }

  function BlankOrder(v: Venue, q: Request): Order {
    var amount := v.roundAmount(q.amount);
    var kind := if q.kind == Limit && v.hasOrderBook && Crossed(true, q.side, q.rate, q.book, ALLOWED_DIFF)
                then Market else q.kind;
    Order(q.side, q.rate, q.rate, amount, CostOf(amount, q.rate), kind, 0.0, amount, Open, None, q.stopLoss)
  }

  function MarketPrice(v: Venue, q: Request): Result<real, OrderError> {
    if !v.hasOrderBook then Ok(q.rate)
    else if q.amount == 0.0 then Err(Pricing(DivisionByZero))
    else Ok(v.roundPrice(Forecast(q.side, if q.side == Buy then q.book.asks else q.book.bids, q.amount, q.rate)))
  }

  function NewOrder(v: Venue, q: Request): Result<Order, OrderError> {
    var o := BlankOrder(v, q);
    if o.kind == Market && !q.stopLoss then
      match MarketPrice(v, q)
      case Err(e) => Err(e)
      case Ok(average) =>
        Ok(WithFee(o.(average := average, filled := o.amount, remaining := 0.0, status := Closed,
                      cost := CostOf(o.amount, average)), v.takerFee))
    else
      Ok(CheckFilled(v, o, q.book, v.takerFee))
  }

  // ---------- The engine ----------

  class DryOrder {
    const side: Side
    const price: real
    const amount: real
    const stopLoss: bool
    var average: real
    var cost: real
    var kind: OrderType
    var filled: real
    var remaining: real
    var status: Status
    var fee: Option<Fee>

    function View(): Order
      reads this
    {
      Order(side, price, average, amount, cost, kind, filled, remaining, status, fee, stopLoss)
    }

    constructor (q: Request, amount: real)
      ensures View() == Order(q.side, q.rate, q.rate, amount, CostOf(amount, q.rate), q.kind, 0.0, amount,
                              Open, None, q.stopLoss)
    {
      side, price, average, this.amount := q.side, q.rate, q.rate, amount;
      cost, kind, filled, remaining := CostOf(amount, q.rate), q.kind, 0.0, amount;
      status, fee, stopLoss := Open, None, q.stopLoss;
    }

    method AddFee(rate: real)
      modifies this
      ensures View() == WithFee(old(View()), rate)
    {
      fee := Some(FeeFor(cost, rate));
    }

    method Cancel()
      modifies this
      ensures View() == CancelOrder(old(View()))
    {
      status, filled, remaining := Canceled, 0.0, amount;
    }
  }

  class DryExchange {
    const venue: Venue
    var orders: map<string, DryOrder>

    /** Two ids never share an order object. */
    ghost predicate Valid()
      reads this
    {
      forall a, b :: a in orders && b in orders && a != b ==> orders[a] != orders[b]
    }

    ghost function Contents(): (s: map<string, Order>)
      reads this, orders.Values
    {
      map id | id in orders :: orders[id].View()
    }

    constructor (venue: Venue)
      ensures this.venue == venue && Valid() && Contents() == map[]
    {
      this.venue := venue;
      orders := map[];
    }

    method CheckLimitOrderFilled(o: DryOrder, immediate: bool, book: OrderBook)
      modifies o
      ensures o.View() == CheckFilled(venue, old(o.View()), book,
                                      if immediate then venue.takerFee else venue.makerFee)
    {
      if o.status != Closed && o.kind == Limit && !o.stopLoss {
        if Crossed(venue.hasOrderBook, o.side, o.price, book, 0.0) {
          o.status, o.filled, o.remaining := Closed, o.amount, 0.0;
          o.AddFee(if immediate then venue.takerFee else venue.makerFee);
        }
      }
    }

    /** The order a request leads to, not yet stored. */
    method BuildOrder(q: Request) returns (r: Result<DryOrder, OrderError>)
      ensures r.Ok? <==> NewOrder(venue, q).Ok?
      ensures r.Ok? ==> fresh(r.value) && r.value.View() == NewOrder(venue, q).value
      ensures r.Err? ==> r.error == NewOrder(venue, q).error
    {
      var o := new DryOrder(q, venue.roundAmount(q.amount));
      if q.kind == Limit && venue.hasOrderBook {
        if Crossed(venue.hasOrderBook, q.side, q.rate, q.book, ALLOWED_DIFF) {
          o.kind := Market;
        }
      }
      assert o.View() == BlankOrder(venue, q);
      if o.kind == Market && !o.stopLoss {
        var price := GetDryMarketFillPrice(venue.hasOrderBook, q.side, q.amount, q.rate, Some(q.book), q.book,
                                           venue.roundPrice);
        if price.Err? {
          return Err(Pricing(price.error));
        }
        o.average, o.filled, o.remaining, o.status := price.value, o.amount, 0.0, Closed;
        o.cost := CostOf(o.amount, price.value);
        o.AddFee(venue.takerFee);
      }
      CheckLimitOrderFilled(o, true, q.book);
      r := Ok(o);
    }

    method CreateDryRunOrder(id: string, q: Request) returns (r: Result<DryOrder, OrderError>)
      requires Valid()
      modifies this
      ensures Valid() && Contents() == old(Step(venue, Contents(), Create(id, q)))
      ensures r.Ok? <==> NewOrder(venue, q).Ok?
      ensures r.Ok? ==> fresh(r.value) && orders == old(orders)[id := r.value]
      ensures r.Err? ==> orders == old(orders) && r.error == NewOrder(venue, q).error
    {
      r := BuildOrder(q);
      if r.Ok? {
        orders := orders[id := r.value];
        assert Contents() == old(Contents())[id := r.value.View()];
      }
    }

    method FetchDryRunOrder(id: string, book: OrderBook) returns (r: Result<DryOrder, OrderError>)
      requires Valid()
      modifies orders.Values
      ensures Valid() && Contents() == old(Step(venue, Contents(), Fetch(id, book)))
      ensures r == if id in orders then Ok(orders[id]) else Err(InvalidOrder)
    {
      if id !in orders {
        return Err(InvalidOrder);
      }
      var o := orders[id];
      CheckLimitOrderFilled(o, false, book);
      r := Ok(o);
    }

    method CancelDryRunOrder(id: string, book: OrderBook) returns (r: Option<DryOrder>)
      requires Valid()
      modifies orders.Values
      ensures Valid() && Contents() == old(Step(venue, Contents(), Cancel(id, book)))
      ensures r == if id in orders then Some(orders[id]) else None
    {
      var fetched := FetchDryRunOrder(id, book);
      if fetched.Err? {
        return None;
      }
      CancelStored(id);
      r := Some(fetched.value);
    }

    method CancelStored(id: string)
      requires Valid() && id in orders
      modifies orders[id]
      ensures Valid() && Contents() == old(Contents())[id := CancelOrder(old(Contents())[id])]
    {
      orders[id].Cancel();
    }
  }

  // ---------- Runs ----------

  datatype Event =
    | Create(id: string, request: Request)
    | Fetch(id: string, book: OrderBook)
    | Cancel(id: string, book: OrderBook)

  function Step(v: Venue, s: map<string, Order>, e: Event): map<string, Order> {
    match e
    case Create(id, q) =>
      (match NewOrder(v, q) case Ok(o) => s[id := o] case Err(_) => s)
    case Fetch(id, book) =>
      if id in s then s[id := CheckFilled(v, s[id], book, v.makerFee)] else s
    case Cancel(id, book) =>
      if id in s then s[id := CancelOrder(CheckFilled(v, s[id], book, v.makerFee))] else s
  }

  function Run(v: Venue, s: map<string, Order>, events: seq<Event>): map<string, Order>
    decreases events
  {
    if events == [] then s else Run(v, Step(v, s, events[0]), events[1..])
  }

  /** What holds of every order the engine ever stores. */
  predicate Coherent(o: Order) {
    && o.filled + o.remaining == o.amount
    && (o.filled == 0.0 || o.filled == o.amount)
    && (o.amount != 0.0 ==> (o.status == Closed <==> o.filled == o.amount))
    && (o.status == Closed ==> o.fee.Some?)
    && (o.stopLoss ==> o.status != Closed && o.filled == 0.0 && o.fee.None?)
    && o.cost == CostOf(o.amount, o.average)
    && (o.fee.Some? ==> o.fee.value == FeeFor(o.cost, o.fee.value.rate))
    && (o.kind == Limit ==> o.average == o.price)
  }

  /** After any sequence of creations, fetches and cancellations every stored order is coherent. */
  lemma {:induction false} EveryRunStaysCoherent(v: Venue, s: map<string, Order>, events: seq<Event>)
    requires forall id :: id in s ==> Coherent(s[id])
    ensures forall id :: id in Run(v, s, events) ==> Coherent(Run(v, s, events)[id])
    decreases events
  {
    if events != [] {
      StepStaysCoherent(v, s, events[0]);
      EveryRunStaysCoherent(v, Step(v, s, events[0]), events[1..]);
    }
  }

  lemma StepStaysCoherent(v: Venue, s: map<string, Order>, e: Event)
    requires forall id :: id in s ==> Coherent(s[id])
    ensures forall id :: id in Step(v, s, e) ==> Coherent(Step(v, s, e)[id])
  {
    if e.Create? {
      NewOrderIsCoherent(v, e.request);
    }
  }

  lemma NewOrderIsCoherent(v: Venue, q: Request)
    ensures NewOrder(v, q).Ok? ==> Coherent(NewOrder(v, q).value)
  {
  }

  // ---------- What orders cost ----------

  predicate PaysFee(o: Order, rate: real) {
    o.fee.Some? && o.fee.value.rate == rate && o.fee.value.cost == o.amount * o.average * rate
  }

  /** Costs and fees in plain arithmetic; every fee is at the rate of the taker or of the maker. */
  predicate IsAccounted(v: Venue, o: Order) {
    && o.cost == o.amount * o.average
    && (o.fee.Some? ==> PaysFee(o, v.takerFee) || PaysFee(o, v.makerFee))
  }

  /**
    A new order has what was asked for, with the amount rounded. It is filled at once, and pays the fee
    of a taker, or it rests at the rate asked for and pays nothing yet.
   */
  lemma NewOrderExactly(v: Venue, q: Request)
    requires NewOrder(v, q).Ok?
    ensures var o := NewOrder(v, q).value;
      && IsAccounted(v, o)
      && o.side == q.side && o.price == q.rate && o.stopLoss == q.stopLoss && o.amount == v.roundAmount(q.amount)
      && if o.status == Closed then
           o.filled == o.amount && o.remaining == 0.0 && PaysFee(o, v.takerFee)
         else
           && o.status == Open && o.filled == 0.0 && o.remaining == o.amount && o.average == q.rate && o.fee.None?
  {
    var o := NewOrder(v, q).value;
    FeeInFull(o.amount, o.average, o.cost, v.takerFee);
  }

  lemma FeeInFull(amount: real, average: real, cost: real, rate: real)
    requires cost == CostOf(amount, average)
    ensures cost == amount * average && FeeFor(cost, rate).cost == amount * average * rate
  {
  }

  /**
    Market orders are filled at once, at the rounded forecast for the side of the book they meet, or at
    the rate itself if the exchange has no order book, and fail only for an amount of zero there. Other
    kinds and stop-losses never fail, nor are they filled unless they are plain limit orders.
   */
  lemma NewOrderByKind(v: Venue, q: Request)
    ensures var r := NewOrder(v, q);
      if !q.stopLoss && (q.kind == Market || (q.kind == Limit && v.hasOrderBook && IsOnePercentOver(q))) then
        if v.hasOrderBook && q.amount == 0.0 then r == Err(Pricing(DivisionByZero))
        else
          && r.Ok? && r.value.kind == Market && r.value.status == Closed
          && r.value.average == if !v.hasOrderBook then q.rate
               else v.roundPrice(Forecast(q.side, if q.side == Buy then q.book.asks else q.book.bids, q.amount, q.rate))
      else
        && r.Ok? && (!q.stopLoss ==> r.value.kind == q.kind)
        && (q.stopLoss || q.kind != Limit ==> r.value.status == Open)
  {
  }

  /** The best opposite price lies at least 1% on the good side of the limit. */
  predicate IsOnePercentOver(q: Request) {
    match q.side
    case Buy => q.book.asks != [] && q.book.asks[0].price <= q.rate - 0.01 * q.rate
    case Sell => q.book.bids != [] && q.book.bids[0].price >= q.rate + 0.01 * q.rate
  }

  /** Over every run, costs and fees keep following from amount and average price. */
  lemma {:induction false} EveryRunStaysAccounted(v: Venue, s: map<string, Order>, events: seq<Event>)
    requires forall id :: id in s ==> IsAccounted(v, s[id])
    ensures forall id :: id in Run(v, s, events) ==> IsAccounted(v, Run(v, s, events)[id])
    decreases events
  {
    if events != [] {
      StepStaysAccounted(v, s, events[0]);
      EveryRunStaysAccounted(v, Step(v, s, events[0]), events[1..]);
    }
  }

  lemma StepStaysAccounted(v: Venue, s: map<string, Order>, e: Event)
    requires forall id :: id in s ==> IsAccounted(v, s[id])
    ensures forall id :: id in Step(v, s, e) ==> IsAccounted(v, Step(v, s, e)[id])
  {
    match e {
      case Create(id, q) =>
        if NewOrder(v, q).Ok? {
          NewOrderExactly(v, q);
        }
      case _ =>
    }
  }

  /**
    A fetch that sees the price of a resting order crossed fills all of it at its own price, for the fee
    of a maker, and changes nothing else; any other fetch changes nothing.
   */
  lemma FetchFillsExactly(v: Venue, s: map<string, Order>, id: string, book: OrderBook)
    requires id in s && IsAccounted(v, s[id])
    ensures var o, next := s[id], Step(v, s, Fetch(id, book));
      var crossed := match o.side
        case Buy => book.asks != [] && book.asks[0].price <= o.price
        case Sell => book.bids != [] && book.bids[0].price >= o.price;
      if o.status != Closed && o.kind == Limit && !o.stopLoss && (!v.hasOrderBook || crossed) then
        && next == s[id := o.(status := Closed, filled := o.amount, remaining := 0.0, fee := next[id].fee)]
        && PaysFee(next[id], v.makerFee)
      else
        next == s
  {
    var o := s[id];
    FeeInFull(o.amount, o.average, o.cost, v.makerFee);
    assert s[id := o] == s;
  }

  /** Cancelling fetches, and so possibly fills and charges the order, and then takes back what was filled. */
  lemma CancelFetchesFirst(v: Venue, s: map<string, Order>, id: string, book: OrderBook)
    requires id in s
    ensures var fetched := Step(v, s, Fetch(id, book));
      var o := fetched[id];
      Step(v, s, Cancel(id, book)) == fetched[id := o.(status := Canceled, filled := 0.0, remaining := o.amount)]
  {
  }

  predicate Touches(e: Event, id: string) {
    e.id == id && !e.Fetch?
  }

  /** A closed order is final: only cancelling it or reusing its id changes anything about it. */
  lemma {:induction false} ClosedOrdersAreFinal(v: Venue, s: map<string, Order>, events: seq<Event>, id: string)
    requires id in s && s[id].status == Closed
    requires forall i :: 0 <= i < |events| ==> !Touches(events[i], id)
    ensures id in Run(v, s, events) && Run(v, s, events)[id] == s[id]
    decreases events
  {
    if events != [] {
      assert !Touches(events[0], id);
      ClosedOrdersAreFinal(v, Step(v, s, events[0]), events[1..], id);
    }
  }

  /** The books a run shows while it fetches `id`. */
  function BooksFor(events: seq<Event>, id: string): seq<OrderBook> {
    if events == [] then []
    else (if events[0].Fetch? && events[0].id == id then [events[0].book] else []) + BooksFor(events[1..], id)
  }

  /**
    Cancelling is not final. A canceled order stays canceled through a run that neither cancels nor
    reuses it exactly when it is not a plain limit order or no fetch ever sees its price crossed;
    otherwise the run ends with it filled.
   */
  lemma {:induction false} CanceledStaysCanceledExactly(v: Venue, s: map<string, Order>, events: seq<Event>, id: string)
    requires id in s && s[id].status == Canceled
    requires forall i :: 0 <= i < |events| ==> !Touches(events[i], id)
    ensures id in Run(v, s, events)
    ensures Run(v, s, events)[id].status == Canceled <==>
      (Fillable(s[id]) ==>
         forall book :: book in BooksFor(events, id) ==>
           !Crossed(v.hasOrderBook, s[id].side, s[id].price, book, 0.0))
    ensures Run(v, s, events)[id].status != Canceled ==> Run(v, s, events)[id].status == Closed
    decreases events
  {
    if events != [] {
      assert !Touches(events[0], id);
      var next := Step(v, s, events[0]);
      if next[id].status == Canceled {
        assert next[id] == s[id];
        CanceledStaysCanceledExactly(v, next, events[1..], id);
      } else {
        assert events[0].book in BooksFor(events, id);
        ClosedOrdersAreFinal(v, next, events[1..], id);
      }
    }
  }

  /** A canceled order that fills again: the quirk above does occur. */
  lemma CanceledOrderCanFill(v: Venue)
    requires v.hasOrderBook && v.roundAmount(1.0) == 1.0
    ensures var empty := OrderBook([], []);
      var asks := OrderBook([Level(9.0, 1.0)], []);
      var events := [Create("a", Request(Limit, Buy, 1.0, 10.0, false, empty)), Cancel("a", empty), Fetch("a", asks)];
      var end := Run(v, map[], events);
      "a" in end && end["a"].status == Closed && end["a"].filled == 1.0
  {
    var empty := OrderBook([], []);
    var create := Create("a", Request(Limit, Buy, 1.0, 10.0, false, empty));
    var cancel, fetch := Cancel("a", empty), Fetch("a", OrderBook([Level(9.0, 1.0)], []));
    var s1 := Step(v, map[], create);
    var s2 := Step(v, s1, cancel);
    var s3 := Step(v, s2, fetch);
    assert [create, cancel, fetch][1..] == [cancel, fetch];
    assert [cancel, fetch][1..] == [fetch];
    assert Run(v, s2, [fetch]) == Run(v, s3, [fetch][1..]) == s3;
  }

  /**
    A limit order at a positive rate is filled on creation, at the taker fee, exactly when its price
    crosses the best opposite price; otherwise it rests, unfilled and without a fee.
   */
  lemma LimitFillsImmediatelyExactlyWhenCrossed(v: Venue, q: Request)
    requires q.kind == Limit && !q.stopLoss && q.rate > 0.0 && q.amount != 0.0
    ensures NewOrder(v, q).Ok?
    ensures var o := NewOrder(v, q).value;
      if Crossed(v.hasOrderBook, q.side, q.rate, q.book, 0.0)
      then o.status == Closed && o.filled == o.amount && o.fee == Some(FeeFor(o.cost, v.takerFee))
      else o.status == Open && o.filled == 0.0 && o.fee == None && o.average == q.rate
  {
    MulMonotone(1.0 - ALLOWED_DIFF, 1.0, q.rate);
    MulMonotone(1.0, 1.0 + ALLOWED_DIFF, q.rate);
  }

  // ---------- Converted orders ----------

  /** The request as it meets a book with the asks `best` and then `deeper`. */
  function Facing(q: Request, best: Level, deeper: seq<Level>): Request {
    q.(book := q.book.(asks := [best] + deeper))
  }

  predicate SortedBook(best: Level, deeper: seq<Level>) {
    ValidVolumes([best] + deeper) && Ascending([best] + deeper)
  }

  ghost predicate IsLimitBuy(v: Venue, q: Request) {
    && q.kind == Limit && q.side == Buy && !q.stopLoss && q.rate > 0.0 && q.amount > 0.0
    && v.hasOrderBook
  }

  /** Rounding keeps order, and keeps the limit, which was rounded before the order was created. */
  ghost predicate RoundsInOrder(v: Venue, rate: real) {
    && v.roundPrice(rate) == rate
    && forall x, y :: x <= y ==> v.roundPrice(x) <= v.roundPrice(y)
  }

  /** Does the order pay at most its limit whatever lies behind the best ask? */
  ghost predicate NeverAboveLimit(v: Venue, q: Request, best: Level) {
    forall deeper :: SortedBook(best, deeper) ==>
      NewOrder(v, Facing(q, best, deeper)).Ok? && NewOrder(v, Facing(q, best, deeper)).value.average <= q.rate
  }

  predicate Converts(q: Request, best: Level) {
    q.rate * (1.0 - ALLOWED_DIFF) >= best.price
  }

  /**
    A limit buy at least 1% above the best ask is turned into a market order, and its limit no longer
    protects it. It pays at most its limit, whatever lies behind the best ask, exactly when it is not
    converted, the best ask alone holds its amount, or rounding takes the 5% cap back to the limit.
   */
  lemma LimitBuyIsProtectedExactly(v: Venue, q: Request, best: Level)
    requires IsLimitBuy(v, q) && RoundsInOrder(v, q.rate) && best.volume >= 0.0
    ensures NeverAboveLimit(v, q, best) <==>
      !Converts(q, best) || best.volume >= q.amount || v.roundPrice(q.rate * (1.0 + SLIPPAGE)) == q.rate
  {
    var cap := q.rate * (1.0 + SLIPPAGE);
    MulStrict(1.0, 1.0 + SLIPPAGE, q.rate);
    if !Converts(q, best) || best.volume >= q.amount || v.roundPrice(cap) == q.rate {
      forall deeper | SortedBook(best, deeper)
        ensures NewOrder(v, Facing(q, best, deeper)).Ok?
        ensures NewOrder(v, Facing(q, best, deeper)).value.average <= q.rate
      {
        PriceOfLimitBuy(v, q, best, deeper);
        if Converts(q, best) && best.volume >= q.amount {
          BestAskSuffices(q, best, deeper);
        }
      }
    } else {
      var deeper := DearBook(q, best);
      PriceOfLimitBuy(v, q, best, deeper);
    }
  }

  function ForecastOf(q: Request, asks: seq<Level>): real
    requires q.amount != 0.0
  {
    Forecast(Buy, asks, q.amount, q.rate)
  }

  lemma PriceOfLimitBuy(v: Venue, q: Request, best: Level, deeper: seq<Level>)
    requires IsLimitBuy(v, q)
    ensures var r := NewOrder(v, Facing(q, best, deeper));
      && r.Ok?
      && r.value.average == if Converts(q, best) then v.roundPrice(ForecastOf(q, [best] + deeper)) else q.rate
    ensures ForecastOf(q, [best] + deeper) <= q.rate * (1.0 + SLIPPAGE)
  {
    assert ([best] + deeper)[0] == best;
  }

  lemma BestAskSuffices(q: Request, best: Level, deeper: seq<Level>)
    requires q.rate > 0.0 && q.amount > 0.0 && Converts(q, best) && best.volume >= q.amount
    ensures ForecastOf(q, [best] + deeper) <= q.rate
  {
    var asks := [best] + deeper;
    assert asks[0] == best && asks[1..] == deeper;
    WalkZero(deeper, best.price);
    assert Walk(asks, q.amount, 0.0) == q.amount * best.price;
    MulMonotone(1.0 - ALLOWED_DIFF, 1.0, q.rate);
    MulMonotone(best.price, q.rate, q.amount);
    MulSign(q.rate, q.amount);
    var value := Walk(asks, q.amount, 0.0);
    QuotientAtMost(if value > 0.0 then value else 0.0, q.amount, q.rate);
  }

  /** Behind a best ask that does not hold the amount, a level dear enough to reach the cap. */
  lemma DearBook(q: Request, best: Level) returns (deeper: seq<Level>)
    requires q.rate > 0.0 && 0.0 <= best.volume < q.amount
    ensures SortedBook(best, deeper) && ForecastOf(q, [best] + deeper) == q.rate * (1.0 + SLIPPAGE)
  {
    var cap, left := q.rate * (1.0 + SLIPPAGE), q.amount - best.volume;
    var missing := cap * q.amount - best.volume * best.price;
    var price := Max(best.price, missing / left);
    deeper := [Level(price, q.amount + 1.0)];
    var asks := [best] + deeper;
    assert asks[0] == best && asks[1..] == deeper && deeper[1..] == [];
    assert Walk(asks, q.amount, 0.0) == best.volume * best.price + left * price;
    QuotientAtMost(missing, left, price);
    MulStrict(0.0, 1.0 + SLIPPAGE, q.rate);
    CapIsReached(Walk(asks, q.amount, 0.0), cap, q.amount);
  }

  lemma CapIsReached(value: real, cap: real, amount: real)
    requires amount > 0.0 && cap > 0.0 && value >= cap * amount
    ensures value > 0.0 && value / amount >= cap
  {
    MulSign(cap, amount);
    QuotientAtMost(value, amount, cap);
  }

  /** Two units at a limit of 10 against asks of one at 9 and more at 20 cost 10.5 each. */
  lemma ConvertedBuyExceedsLimit(v: Venue)
    requires v.hasOrderBook && v.roundPrice(10.5) == 10.5
    ensures var asks := [Level(9.0, 1.0), Level(20.0, 10.0)];
      var r := NewOrder(v, Request(Limit, Buy, 2.0, 10.0, false, OrderBook(asks, [])));
      r.Ok? && r.value.kind == Market && r.value.average == 10.5
  {
    var asks := [Level(9.0, 1.0), Level(20.0, 10.0)];
    assert asks[1..] == [Level(20.0, 10.0)];
    assert Walk(asks, 2.0, 0.0) == 29.0;
  }

  // ---------- Converted sells ----------

  /** The request as it meets a book with the bids `best` and then `deeper`. */
  function Meeting(q: Request, best: Level, deeper: seq<Level>): Request {
    q.(book := q.book.(bids := [best] + deeper))
  }

  predicate SortedBids(best: Level, deeper: seq<Level>) {
    var bids := [best] + deeper;
    ValidVolumes(bids) && Descending(bids) && PricesAtLeast(bids, 0.0)
  }

  ghost predicate IsLimitSell(v: Venue, q: Request) {
    && q.kind == Limit && q.side == Sell && !q.stopLoss && q.rate > 0.0 && q.amount > 0.0
    && v.hasOrderBook
  }

  /** Does the order get at least its limit whatever lies behind the best bid? */
  ghost predicate NeverBelowLimit(v: Venue, q: Request, best: Level) {
    forall deeper :: SortedBids(best, deeper) ==>
      NewOrder(v, Meeting(q, best, deeper)).Ok? && NewOrder(v, Meeting(q, best, deeper)).value.average >= q.rate
  }

  predicate ConvertsSell(q: Request, best: Level) {
    q.rate * (1.0 + ALLOWED_DIFF) <= best.price
  }

  /** What the order gets if nothing but the best bid pays anything. */
  function WorstSale(q: Request, best: Level): real
    requires q.amount != 0.0
  {
    Max(Times(best.volume, best.price) / q.amount, q.rate * (1.0 - SLIPPAGE))
  }

  /**
    Nor is the limit of a sell at least 1% below the best bid protected. It gets at least its limit,
    whatever lies behind the best bid, exactly when it is not converted, the best bid alone takes its
    amount, or even the least it can get, the value of the best bid or the 5% cap, rounds to the limit.
   */
  lemma LimitSellIsProtectedExactly(v: Venue, q: Request, best: Level)
    requires IsLimitSell(v, q) && RoundsInOrder(v, q.rate) && best.volume >= 0.0 && best.price >= 0.0
    ensures NeverBelowLimit(v, q, best) <==>
      !ConvertsSell(q, best) || best.volume >= q.amount || v.roundPrice(WorstSale(q, best)) >= q.rate
  {
    if !ConvertsSell(q, best) || best.volume >= q.amount || v.roundPrice(WorstSale(q, best)) >= q.rate {
      forall deeper | SortedBids(best, deeper)
        ensures NewOrder(v, Meeting(q, best, deeper)).Ok?
        ensures NewOrder(v, Meeting(q, best, deeper)).value.average >= q.rate
      {
        PriceOfLimitSell(v, q, best, deeper);
        if ConvertsSell(q, best) {
          SaleIsAtLeast(q, best, deeper);
        }
      }
    } else {
      var deeper := [Level(0.0, q.amount + 1.0)];
      PriceOfLimitSell(v, q, best, deeper);
      WorthlessBids(q, best);
    }
  }

  function SaleForecast(q: Request, bids: seq<Level>): real
    requires q.amount != 0.0
  {
    Forecast(Sell, bids, q.amount, q.rate)
  }

  lemma PriceOfLimitSell(v: Venue, q: Request, best: Level, deeper: seq<Level>)
    requires IsLimitSell(v, q)
    ensures var r := NewOrder(v, Meeting(q, best, deeper));
      && r.Ok?
      && r.value.average == if ConvertsSell(q, best) then v.roundPrice(SaleForecast(q, [best] + deeper)) else q.rate
  {
    assert ([best] + deeper)[0] == best;
  }

  lemma SaleIsAtLeast(q: Request, best: Level, deeper: seq<Level>)
    requires q.rate > 0.0 && q.amount > 0.0 && SortedBids(best, deeper) && ConvertsSell(q, best)
    ensures SaleForecast(q, [best] + deeper) >= if best.volume >= q.amount then q.rate else WorstSale(q, best)
  {
    assert ([best] + deeper)[0] == best;
    if best.volume >= q.amount {
      BestBidSuffices(q, best, deeper);
    } else {
      BestBidIsTaken(q, best, deeper);
    }
  }

  lemma BestBidSuffices(q: Request, best: Level, deeper: seq<Level>)
    requires q.rate > 0.0 && 0.0 < q.amount <= best.volume && ConvertsSell(q, best)
    ensures SaleForecast(q, [best] + deeper) >= q.rate
  {
    var bids := [best] + deeper;
    assert bids[0] == best && bids[1..] == deeper;
    WalkZero(deeper, best.price);
    var value := Walk(bids, q.amount, 0.0);
    assert value == Times(q.amount, best.price);
    MulStrict(1.0, 1.0 + ALLOWED_DIFF, q.rate);
    MulMonotone(q.rate, best.price, q.amount);
    CapIsReached(value, q.rate, q.amount);
  }

  lemma BestBidIsTaken(q: Request, best: Level, deeper: seq<Level>)
    requires 0.0 <= best.volume < q.amount && best.price >= 0.0 && SortedBids(best, deeper)
    ensures SaleForecast(q, [best] + deeper) >= WorstSale(q, best)
  {
    var value := WalkPastBest(best, deeper, q.amount);
    QuotientInOrder(Times(best.volume, best.price), value, q.amount);
  }

  lemma WalkPastBest(best: Level, deeper: seq<Level>, amount: real) returns (value: real)
    requires 0.0 <= best.volume < amount && best.price >= 0.0 && SortedBids(best, deeper)
    ensures value == Walk([best] + deeper, amount, 0.0) && value >= Times(best.volume, best.price) >= 0.0
  {
    var bids := [best] + deeper;
    assert bids[0] == best && bids[1..] == deeper;
    assert forall i :: 0 <= i < |deeper| ==> deeper[i] == bids[i + 1];
    WalkIsNonNegative(deeper, amount - best.volume, best.price);
    MulSign(best.volume, best.price);
    value := Walk(bids, amount, 0.0);
    assert value == Times(best.volume, best.price) + Walk(deeper, amount - best.volume, best.price);
  }

  lemma QuotientInOrder(x: real, y: real, d: real)
    requires d > 0.0 && x <= y
    ensures x / d <= y / d
  {
    Quotient(y, d);
    QuotientAtMost(x, d, y / d);
  }

  lemma {:induction false} WalkIsNonNegative(levels: seq<Level>, amount: real, last: real)
    requires ValidVolumes(levels) && PricesAtLeast(levels, 0.0) && amount >= 0.0 && last >= 0.0
    ensures Walk(levels, amount, last) >= 0.0
  {
    if levels == [] {
      MulSign(amount, last);
    } else if amount > 0.0 {
      MulSign(amount, levels[0].price);
      if amount >= levels[0].volume {
        MulSign(levels[0].volume, levels[0].price);
        WalkIsNonNegative(levels[1..], amount - levels[0].volume, levels[0].price);
      }
    }
  }

  lemma WorthlessBids(q: Request, best: Level)
    requires q.rate > 0.0 && 0.0 <= best.volume < q.amount && best.price >= 0.0
    ensures var deeper := [Level(0.0, q.amount + 1.0)];
      SortedBids(best, deeper) && SaleForecast(q, [best] + deeper) == WorstSale(q, best)
  {
    var deeper := [Level(0.0, q.amount + 1.0)];
    var bids := [best] + deeper;
    assert bids[0] == best && bids[1..] == deeper && deeper[1..] == [];
    assert Walk(bids, q.amount, 0.0) == Times(best.volume, best.price);
    MulSign(best.volume, best.price);
  }

  /** Two units at a limit of 10 against bids of one at 11 and more at 5 get 9.5 each. */
  lemma ConvertedSellFallsBelowLimit(v: Venue)
    requires v.hasOrderBook && v.roundPrice(9.5) == 9.5
    ensures var bids := [Level(11.0, 1.0), Level(5.0, 10.0)];
      var r := NewOrder(v, Request(Limit, Sell, 2.0, 10.0, false, OrderBook([], bids)));
      r.Ok? && r.value.kind == Market && r.value.average == 9.5
  {
    var bids := [Level(11.0, 1.0), Level(5.0, 10.0)];
    assert bids[1..] == [Level(5.0, 10.0)];
    assert Walk(bids, 2.0, 0.0) == 16.0;
  }
}
