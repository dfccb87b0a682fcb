/**
  Pricing of simulated market orders: `Exchange.get_dry_market_fill_price` walks one side of the
  order book, and whatever the book cannot absorb is priced at its last level.
 */
module MarketFill {
  import opened Reals
  import opened Results

  datatype Side = Buy | Sell
  datatype Level = Level(price: real, volume: real)
  datatype OrderBook = OrderBook(asks: seq<Level>, bids: seq<Level>)
  datatype PricingError = DivisionByZero

  const SLIPPAGE := 0.05

  predicate ValidVolumes(levels: seq<Level>) {
    forall i :: 0 <= i < |levels| ==> levels[i].volume >= 0.0
  }

  predicate Ascending(levels: seq<Level>) {
    forall i, j :: 0 <= i < j < |levels| ==> levels[i].price <= levels[j].price
  }

  predicate Descending(levels: seq<Level>) {
    forall i, j :: 0 <= i < j < |levels| ==> levels[i].price >= levels[j].price
  }

  predicate PricesAtLeast(levels: seq<Level>, p: real) {
    forall i :: 0 <= i < |levels| ==> levels[i].price >= p
  }

  /** Value of taking `remaining` from `levels`; `last` prices what is left when no level remains. */
  function Walk(levels: seq<Level>, remaining: real, last: real): real {
    if levels == [] then remaining * last
    else if remaining <= 0.0 then 0.0
    else if remaining < levels[0].volume then remaining * levels[0].price
    else levels[0].volume * levels[0].price
         + Walk(levels[1..], remaining - levels[0].volume, levels[0].price)
  }

  /** The walk as the source runs it: a loop with two exits and an `else` for a book run dry. */
  method FillValue(levels: seq<Level>, amount: real) returns (filled: real)
    ensures filled == Walk(levels, amount, 0.0)
  {
    var remaining, entryPrice := amount, 0.0;
    filled := 0.0;
    var i := 0;
    while i < |levels|
      invariant 0 <= i <= |levels|
      invariant filled + Walk(levels[i..], remaining, entryPrice) == Walk(levels, amount, 0.0)
    {
      entryPrice := levels[i].price;
      var volume := levels[i].volume;
      assert levels[i..][1..] == levels[i + 1..];
      if remaining > 0.0 {
        if remaining < volume {
          filled := filled + remaining * entryPrice;
          return;
        } else {
          filled := filled + volume * entryPrice;
        }
        remaining := remaining - volume;
      } else {
        return;
      }
      i := i + 1;
    }
    filled := filled + remaining * entryPrice;
  }

  function SlippageLimit(side: Side, rate: real): real {
    if side == Buy then rate * (1.0 + SLIPPAGE) else rate * (1.0 - SLIPPAGE)
  }

  /** The forecast average price before it is rounded to the exchange's precision. */
  function Forecast(side: Side, levels: seq<Level>, amount: real, rate: real): real
    requires amount != 0.0
  {
    var value := Walk(levels, amount, 0.0);
    var average := (if value > 0.0 then value else 0.0) / amount;
    var limit := SlippageLimit(side, rate);
    if side == Buy then (if average < limit then average else limit)
    else (if average > limit then average else limit)
  }

  /** `fetched` is the book the exchange answers with when the caller passes none. */
  method GetDryMarketFillPrice(hasOrderBook: bool, side: Side, amount: real, rate: real,
                               orderbook: Option<OrderBook>, fetched: OrderBook, precision: real -> real)
    returns (r: Result<real, PricingError>)
    ensures !hasOrderBook ==> r == Ok(rate)
    ensures hasOrderBook && amount == 0.0 ==> r == Err(DivisionByZero)
    ensures hasOrderBook && amount != 0.0 ==>
      var book := orderbook.GetOr(fetched);
      r == Ok(precision(Forecast(side, if side == Buy then book.asks else book.bids, amount, rate)))
  {
    if !hasOrderBook {
      return Ok(rate);
    }
    var book := orderbook.GetOr(fetched);
    var value := FillValue(if side == Buy then book.asks else book.bids, amount);
    if amount == 0.0 {
      return Err(DivisionByZero);
    }
    var forecast := (if value > 0.0 then value else 0.0) / amount;
    var limit := SlippageLimit(side, rate);
    if side == Buy {
      forecast := if forecast < limit then forecast else limit;
    } else {
      forecast := if forecast > limit then forecast else limit;
    }
    r := Ok(precision(forecast));
  }

  // ---------- The walk is the best possible fill ----------

  function Sum(xs: seq<real>): real {
    if xs == [] then 0.0 else xs[0] + Sum(xs[1..])
  }

  function Cost(levels: seq<Level>, xs: seq<real>): real
    requires |xs| == |levels|
  {
    if xs == [] then 0.0 else Times(xs[0], levels[0].price) + Cost(levels[1..], xs[1..])
  }

  /** `xs` takes exactly `amount`, within every level's volume except the last level's. */
  predicate Allocation(levels: seq<Level>, xs: seq<real>, amount: real) {
    && |xs| == |levels|
    && (forall i :: 0 <= i < |xs| ==> 0.0 <= xs[i])
    && (forall i :: 0 <= i < |xs| - 1 ==> xs[i] <= levels[i].volume)
    && Sum(xs) == amount
  }

  /** Every further unit costs at least `p` when every level does. */
  lemma {:induction false} SlopeAtLeast(levels: seq<Level>, a: real, b: real, d: real, last: real, p: real)
    requires ValidVolumes(levels) && PricesAtLeast(levels, p)
    requires a >= 0.0 && d >= 0.0 && b == a + d && last >= p
    ensures Walk(levels, b, last) >= Walk(levels, a, last) + d * p
  {
    if levels == [] {
      SlopeAfterLast(a, b, d, last, p);
    } else if a > 0.0 && a >= levels[0].volume {
      SlopeAtLeast(levels[1..], a - levels[0].volume, b - levels[0].volume, d, levels[0].price, p);
    } else if b > 0.0 && b >= levels[0].volume {
      SlopeAtLeast(levels[1..], 0.0, b - levels[0].volume, b - levels[0].volume, levels[0].price, p);
      SlopeAcross(levels, a, b, d, last, p);
    } else {
      SlopeWithin(levels, a, b, d, last, p);
    }
  }

  lemma SlopeAfterLast(a: real, b: real, d: real, last: real, p: real)
    requires d >= 0.0 && b == a + d && last >= p
    ensures b * last >= a * last + d * p
  {
    Distribute(a, d, last);
    MulMonotone(p, last, d);
  }

  lemma SlopeWithin(levels: seq<Level>, a: real, b: real, d: real, last: real, p: real)
    requires levels != [] && levels[0].price >= p
    requires a >= 0.0 && d >= 0.0 && b == a + d && (b == 0.0 || b < levels[0].volume)
    ensures Walk(levels, b, last) >= Walk(levels, a, last) + d * p
  {
    Distribute(a, d, levels[0].price);
    MulMonotone(p, levels[0].price, d);
  }

  lemma SlopeAcross(levels: seq<Level>, a: real, b: real, d: real, last: real, p: real)
    requires levels != [] && levels[0].price >= p
    requires a >= 0.0 && d >= 0.0 && b == a + d && 0.0 < b
    requires a <= levels[0].volume <= b && (a > 0.0 ==> a < levels[0].volume)
    requires Walk(levels[1..], b - levels[0].volume, levels[0].price)
      >= Walk(levels[1..], 0.0, levels[0].price) + (b - levels[0].volume) * p
    ensures Walk(levels, b, last) >= Walk(levels, a, last) + d * p
  {
    var q, v := levels[0].price, levels[0].volume;
    var below := WalkBelow(levels, a, last);
    var all, rest := WalkBeyond(levels, b, last);
    WalkZero(levels[1..], q);
    AcrossAlgebra(a, b, d, v, q, p, below, all, rest);
  }

  lemma WalkBelow(levels: seq<Level>, a: real, last: real) returns (below: real)
    requires levels != [] && a >= 0.0 && (a > 0.0 ==> a < levels[0].volume)
    ensures below == Walk(levels, a, last) && below == Times(a, levels[0].price)
  {
    below := Walk(levels, a, last);
  }

  lemma WalkBeyond(levels: seq<Level>, b: real, last: real) returns (all: real, rest: real)
    requires levels != [] && b > 0.0 && levels[0].volume <= b
    ensures all == Walk(levels, b, last) && rest == Walk(levels[1..], b - levels[0].volume, levels[0].price)
    ensures all == Times(levels[0].volume, levels[0].price) + rest
  {
    all, rest := Walk(levels, b, last), Walk(levels[1..], b - levels[0].volume, levels[0].price);
  }

  lemma AcrossAlgebra(a: real, b: real, d: real, v: real, q: real, p: real, below: real, all: real, rest: real)
    requires b == a + d && a <= v <= b && p <= q
    requires below == Times(a, q) && all == Times(v, q) + rest && rest >= (b - v) * p
    ensures all >= below + d * p
  {
    Distribute(a, v - a, q);
    MulMonotone(p, q, v - a);
    Distribute(v - a, b - v, p);
  }

  lemma WalkIgnoresLast(levels: seq<Level>, amount: real, last: real, last': real)
    requires levels != []
    ensures Walk(levels, amount, last) == Walk(levels, amount, last')
  {
  }

  lemma WalkZero(levels: seq<Level>, last: real)
    ensures Walk(levels, 0.0, last) == 0.0
  {
  }

  function Greedy(levels: seq<Level>, amount: real): (xs: seq<real>)
    requires amount >= 0.0
  {
    if levels == [] then []
    else if |levels| == 1 then [amount]
    else
      var x := Take(amount, levels[0].volume);
      [x] + Greedy(levels[1..], amount - x)
  }

  function Take(amount: real, volume: real): real {
    if amount < volume then amount else volume
  }

  /** One level of the walk: take what it holds, and go on with the others. */
  lemma WalkTakes(levels: seq<Level>, amount: real)
    requires |levels| >= 2 && ValidVolumes(levels) && amount >= 0.0
    ensures var x := Take(amount, levels[0].volume);
      Walk(levels, amount, 0.0) == x * levels[0].price + Walk(levels[1..], amount - x, 0.0)
  {
    if amount == 0.0 {
      WalkZero(levels, 0.0);
      WalkZero(levels[1..], 0.0);
    } else if amount < levels[0].volume {
      WalkZero(levels[1..], 0.0);
    } else {
      WalkIgnoresLast(levels[1..], amount - levels[0].volume, 0.0, levels[0].price);
    }
  }

  lemma SingleLevelIsLinear(level: Level, a: real)
    requires level.volume >= 0.0 && a >= 0.0
    ensures Walk([level], a, 0.0) == a * level.price
  {
    if a > 0.0 && a >= level.volume {
      assert [level][1..] == [];
      Distribute(level.volume, a - level.volume, level.price);
    }
  }

  lemma CostOfOne(levels: seq<Level>, xs: seq<real>)
    requires |levels| == |xs| == 1
    ensures Cost(levels, xs) == xs[0] * levels[0].price && Sum(xs) == xs[0]
  {
    assert xs[1..] == [] && levels[1..] == [];
  }

  lemma {:induction false} GreedyIsTheWalk(levels: seq<Level>, amount: real)
    requires levels != [] && ValidVolumes(levels) && amount >= 0.0
    ensures Allocation(levels, Greedy(levels, amount), amount)
    ensures Cost(levels, Greedy(levels, amount)) == Walk(levels, amount, 0.0)
  {
    if |levels| == 1 {
      OneLevel(levels, amount, [amount]);
    } else {
      GreedyIsTheWalk(levels[1..], amount - Take(amount, levels[0].volume));
      GreedyStep(levels, amount);
    }
  }

  lemma OneLevel(levels: seq<Level>, amount: real, xs: seq<real>)
    requires |levels| == |xs| == 1 && ValidVolumes(levels) && amount >= 0.0 && xs[0] == amount
    ensures Allocation(levels, xs, amount) && Cost(levels, xs) == Walk(levels, amount, 0.0)
  {
    CostOfOne(levels, xs);
    SingleLevelIsLinear(levels[0], amount);
    assert levels == [levels[0]];
  }

  lemma GreedyStep(levels: seq<Level>, amount: real)
    requires |levels| >= 2 && ValidVolumes(levels) && amount >= 0.0
    requires var rest, left := levels[1..], amount - Take(amount, levels[0].volume);
      Allocation(rest, Greedy(rest, left), left) && Cost(rest, Greedy(rest, left)) == Walk(rest, left, 0.0)
    ensures Allocation(levels, Greedy(levels, amount), amount)
    ensures Cost(levels, Greedy(levels, amount)) == Walk(levels, amount, 0.0)
  {
    var x := Take(amount, levels[0].volume);
    var walked, taken, left := WalkTaken(levels, amount, x);
    PrependAllocation(levels, x, Greedy(levels[1..], amount - x), amount);
    assert Greedy(levels, amount) == [x] + Greedy(levels[1..], amount - x);
  }

  lemma PrependAllocation(levels: seq<Level>, x: real, rest: seq<real>, amount: real)
    requires |levels| >= 2 && 0.0 <= x <= levels[0].volume
    requires Allocation(levels[1..], rest, amount - x)
    ensures Allocation(levels, [x] + rest, amount)
    ensures Cost(levels, [x] + rest) == Times(x, levels[0].price) + Cost(levels[1..], rest)
  {
    assert ([x] + rest)[1..] == rest;
  }

  lemma {:induction false} WalkIsCheapest(levels: seq<Level>, amount: real, xs: seq<real>)
    requires levels != [] && ValidVolumes(levels) && Ascending(levels) && amount >= 0.0
    requires Allocation(levels, xs, amount)
    ensures Walk(levels, amount, 0.0) <= Cost(levels, xs)
  {
    if |levels| == 1 {
      CostOfOne(levels, xs);
      OneLevel(levels, amount, xs);
    } else {
      SumNonNegative(xs[1..]);
      WalkIsCheapest(levels[1..], amount - xs[0], xs[1..]);
      CheapestStep(levels, amount, xs);
    }
  }

  lemma CheapestStep(levels: seq<Level>, amount: real, xs: seq<real>)
    requires |levels| == |xs| >= 2 && ValidVolumes(levels) && Ascending(levels)
    requires 0.0 <= xs[0] <= levels[0].volume
    requires xs[0] <= amount && Walk(levels[1..], amount - xs[0], 0.0) <= Cost(levels[1..], xs[1..])
    ensures Walk(levels, amount, 0.0) <= Cost(levels, xs)
  {
    var r := Take(amount, levels[0].volume);
    var walked, taken, left := WalkTaken(levels, amount, r);
    var delayed := DelayCosts(levels, amount, xs[0], r, taken, left);
    CostSplits(levels, xs, delayed);
  }

  lemma CostSplits(levels: seq<Level>, xs: seq<real>, first: real)
    requires |xs| == |levels| >= 1 && first == Times(xs[0], levels[0].price)
    ensures Cost(levels, xs) == first + Cost(levels[1..], xs[1..])
  {
  }

  lemma WalkTaken(levels: seq<Level>, amount: real, r: real) returns (walked: real, taken: real, left: real)
    requires |levels| >= 2 && ValidVolumes(levels) && amount >= 0.0 && r == Take(amount, levels[0].volume)
    ensures taken == Times(r, levels[0].price) && left == Walk(levels[1..], amount - r, 0.0)
    ensures walked == Walk(levels, amount, 0.0) && walked == taken + left
  {
    WalkTakes(levels, amount);
    walked, taken, left := Walk(levels, amount, 0.0), Times(r, levels[0].price), Walk(levels[1..], amount - r, 0.0);
  }

  /** Taking less than possible from the best level can only cost more later. */
  lemma DelayCosts(levels: seq<Level>, amount: real, x: real, r: real, taken: real, left: real)
    returns (delayed: real)
    requires |levels| >= 2 && ValidVolumes(levels) && Ascending(levels) && x <= r <= amount
    requires taken == Times(r, levels[0].price) && left == Walk(levels[1..], amount - r, 0.0)
    ensures delayed == Times(x, levels[0].price)
    ensures taken + left <= delayed + Walk(levels[1..], amount - x, 0.0)
  {
    var p := levels[0].price;
    var extra: real, later: real;
    delayed, extra := SplitProduct(x, r, p);
    later := LaterIsDearer(levels[1..], amount - r, amount - x, r - x, p, left, extra);
  }

  lemma SplitProduct(x: real, r: real, p: real) returns (first: real, extra: real)
    ensures first == Times(x, p) && extra == Times(r - x, p) && Times(r, p) == first + extra
  {
    first, extra := Times(x, p), Times(r - x, p);
    Distribute(x, r - x, p);
  }

  lemma LaterIsDearer(rest: seq<Level>, a: real, b: real, d: real, p: real, left: real, extra: real)
    returns (later: real)
    requires rest != [] && ValidVolumes(rest) && PricesAtLeast(rest, p)
    requires a >= 0.0 && d >= 0.0 && b == a + d
    requires left == Walk(rest, a, 0.0) && extra == Times(d, p)
    ensures later == Walk(rest, b, 0.0) && later >= left + extra
  {
    SlopeAtLeast(rest, a, b, d, p, p);
    WalkIgnoresLast(rest, b, 0.0, p);
    WalkIgnoresLast(rest, a, 0.0, p);
    later := Walk(rest, b, 0.0);
  }

  lemma {:induction false} SumNonNegative(xs: seq<real>)
    requires forall i :: 0 <= i < |xs| ==> 0.0 <= xs[i]
    ensures Sum(xs) >= 0.0
  {
    if xs != [] {
      SumNonNegative(xs[1..]);
    }
  }

  /** Bids mirror asks: negating prices turns the dearest fill into the cheapest. */
  function Mirror(levels: seq<Level>): (r: seq<Level>)
    ensures |r| == |levels|
    ensures forall i :: 0 <= i < |levels| ==> r[i] == Level(-levels[i].price, levels[i].volume)
  {
    if levels == [] then [] else [Level(-levels[0].price, levels[0].volume)] + Mirror(levels[1..])
  }

  lemma {:induction false} MirrorNegates(levels: seq<Level>, amount: real, last: real, xs: seq<real>)
    ensures Walk(Mirror(levels), amount, -last) == -Walk(levels, amount, last)
    ensures |xs| == |levels| ==> Cost(Mirror(levels), xs) == -Cost(levels, xs)
  {
    if levels != [] {
      assert Mirror(levels)[1..] == Mirror(levels[1..]);
      MirrorNegates(levels[1..], amount - levels[0].volume, levels[0].price,
                    if xs == [] then [] else xs[1..]);
    }
  }

  /** Buying takes the cheapest allocation of exactly `amount`, and the walk is one. */
  lemma BuyFillIsOptimal(asks: seq<Level>, amount: real)
    requires asks != [] && ValidVolumes(asks) && Ascending(asks) && amount > 0.0
    ensures exists xs :: Allocation(asks, xs, amount) && Cost(asks, xs) == Walk(asks, amount, 0.0)
    ensures forall xs :: Allocation(asks, xs, amount) ==> Walk(asks, amount, 0.0) <= Cost(asks, xs)
  {
    GreedyIsTheWalk(asks, amount);
    forall xs | Allocation(asks, xs, amount)
      ensures Walk(asks, amount, 0.0) <= Cost(asks, xs)
    {
      WalkIsCheapest(asks, amount, xs);
    }
  }

  /** Selling takes the dearest allocation of exactly `amount`, and the walk is one. */
  lemma SellFillIsOptimal(bids: seq<Level>, amount: real)
    requires bids != [] && ValidVolumes(bids) && Descending(bids) && amount > 0.0
    ensures exists xs :: Allocation(bids, xs, amount) && Cost(bids, xs) == Walk(bids, amount, 0.0)
    ensures forall xs :: Allocation(bids, xs, amount) ==> Walk(bids, amount, 0.0) >= Cost(bids, xs)
  {
    GreedyIsTheWalk(bids, amount);
    forall xs | Allocation(bids, xs, amount)
      ensures Walk(bids, amount, 0.0) >= Cost(bids, xs)
    {
      MirrorNegates(bids, amount, 0.0, xs);
      WalkIsCheapest(Mirror(bids), amount, xs);
    }
  }

  // ---------- Filling in two steps ----------

  /** What the book still offers after `a` was taken; the last level never disappears. */
  function Residual(levels: seq<Level>, a: real): (r: seq<Level>)
    requires levels != [] && a >= 0.0 && ValidVolumes(levels)
    ensures r != [] && ValidVolumes(r)
  {
    if a < levels[0].volume then [Level(levels[0].price, levels[0].volume - a)] + levels[1..]
    else if |levels| == 1 then [Level(levels[0].price, 0.0)]
    else Residual(levels[1..], a - levels[0].volume)
  }

  /** Filling `a` and then `b` from what is left costs the same as filling `a + b` at once. */
  lemma {:induction false} FillIsAdditive(levels: seq<Level>, a: real, b: real)
    requires levels != [] && ValidVolumes(levels) && a >= 0.0 && b >= 0.0
    ensures Walk(levels, a + b, 0.0) == Walk(levels, a, 0.0) + Walk(Residual(levels, a), b, 0.0)
  {
    if |levels| == 1 {
      AdditiveOnOneLevel(levels, a, b);
    } else if a < levels[0].volume {
      AdditiveWithinLevel(levels, a, b);
    } else {
      FillIsAdditive(levels[1..], a - levels[0].volume, b);
      AdditiveBeyondLevel(levels, a, b);
    }
  }

  lemma AdditiveOnOneLevel(levels: seq<Level>, a: real, b: real)
    requires |levels| == 1 && ValidVolumes(levels) && a >= 0.0 && b >= 0.0
    ensures Walk(levels, a + b, 0.0) == Walk(levels, a, 0.0) + Walk(Residual(levels, a), b, 0.0)
  {
    var whole := FilledByOneLevel(levels, a + b);
    var first := FilledByOneLevel(levels, a);
    var second := FilledByOneLevel(Residual(levels, a), b);
    Distribute(a, b, levels[0].price);
    assert whole == Times(a, levels[0].price) + Times(b, levels[0].price);
  }

  lemma FilledByOneLevel(levels: seq<Level>, a: real) returns (value: real)
    requires |levels| == 1 && ValidVolumes(levels) && a >= 0.0
    ensures value == Walk(levels, a, 0.0) && value == Times(a, levels[0].price)
  {
    assert levels == [levels[0]];
    SingleLevelIsLinear(levels[0], a);
    value := Walk(levels, a, 0.0);
  }

  lemma AdditiveBeyondLevel(levels: seq<Level>, a: real, b: real)
    requires |levels| >= 2 && ValidVolumes(levels) && a >= levels[0].volume && b >= 0.0
    ensures Walk(levels, a + b, 0.0) - Walk(levels, a, 0.0)
      == Walk(levels[1..], a - levels[0].volume + b, 0.0) - Walk(levels[1..], a - levels[0].volume, 0.0)
  {
    WalkTakes(levels, a);
    WalkTakes(levels, a + b);
    assert a + b - levels[0].volume == a - levels[0].volume + b;
  }

  lemma AdditiveWithinLevel(levels: seq<Level>, a: real, b: real)
    requires |levels| >= 2 && ValidVolumes(levels) && 0.0 <= a < levels[0].volume && b >= 0.0
    ensures Walk(levels, a + b, 0.0) == Walk(levels, a, 0.0) + Walk(Residual(levels, a), b, 0.0)
  {
    var p, v, r := levels[0].price, levels[0].volume, Residual(levels, a);
    assert r[1..] == levels[1..] && r[0] == Level(p, v - a);
    var x := Take(b, v - a);
    WalkTakes(levels, a);
    WalkTakes(levels, a + b);
    WalkTakes(r, b);
    WalkZero(levels[1..], 0.0);
    assert Take(a + b, v) == a + x && a + b - (a + x) == b - x;
    Distribute(a, x, p);
  }

  /** The next price on offer: nothing so far cost more, and nothing left costs less. */
  lemma {:induction false} NextPrice(levels: seq<Level>, a: real) returns (q: real)
    requires levels != [] && ValidVolumes(levels) && Ascending(levels) && a >= 0.0
    ensures Walk(levels, a, 0.0) <= a * q
    ensures PricesAtLeast(Residual(levels, a), q)
    ensures levels[0].price <= q
  {
    if |levels| == 1 {
      SingleLevelIsLinear(levels[0], a);
      assert levels == [levels[0]];
      q := levels[0].price;
    } else if a < levels[0].volume {
      PastWithinLevel(levels, a);
      q := levels[0].price;
    } else {
      q := NextPrice(levels[1..], a - levels[0].volume);
      PastBeyondLevel(levels, a, q);
    }
  }

  lemma PastWithinLevel(levels: seq<Level>, a: real)
    requires |levels| >= 2 && ValidVolumes(levels) && 0.0 <= a < levels[0].volume
    ensures Walk(levels, a, 0.0) == a * levels[0].price
  {
    WalkTakes(levels, a);
    WalkZero(levels[1..], 0.0);
  }

  lemma PastBeyondLevel(levels: seq<Level>, a: real, q: real)
    requires |levels| >= 2 && ValidVolumes(levels) && 0.0 <= levels[0].volume <= a
    requires levels[0].price <= q
    requires Walk(levels[1..], a - levels[0].volume, 0.0) <= (a - levels[0].volume) * q
    ensures Walk(levels, a, 0.0) <= a * q
  {
    WalkTakes(levels, a);
    MulMonotone(levels[0].price, q, levels[0].volume);
    Distribute(levels[0].volume, a - levels[0].volume, q);
  }

  lemma AllCostAtLeast(levels: seq<Level>, d: real, p: real)
    requires levels != [] && ValidVolumes(levels) && PricesAtLeast(levels, p) && d >= 0.0
    ensures Walk(levels, d, 0.0) >= d * p
  {
    WalkZero(levels, p);
    SlopeAtLeast(levels, 0.0, d, d, p, p);
    WalkIgnoresLast(levels, d, 0.0, p);
  }

  /** A price that separates the first `a` units of a larger fill from the `d` others. */
  lemma PivotPrice(asks: seq<Level>, a: real, b: real, d: real) returns (q: real, later: real)
    requires asks != [] && ValidVolumes(asks) && Ascending(asks) && 0.0 < a && 0.0 <= d && b == a + d
    ensures Walk(asks, a, 0.0) <= a * q && later >= d * q
    ensures Walk(asks, b, 0.0) == Walk(asks, a, 0.0) + later
  {
    q := NextPrice(asks, a);
    LaterFill(asks, a, b, d);
    AllCostAtLeast(Residual(asks, a), d, q);
    later := Walk(Residual(asks, a), d, 0.0);
  }

  lemma LaterFill(asks: seq<Level>, a: real, b: real, d: real)
    requires asks != [] && ValidVolumes(asks) && 0.0 < a && 0.0 <= d && b == a + d
    ensures Walk(asks, b, 0.0) == Walk(asks, a, 0.0) + Walk(Residual(asks, a), d, 0.0)
  {
    FillIsAdditive(asks, a, d);
  }

  /** Buying more never lowers the average price. */
  lemma AverageNeverFalls(asks: seq<Level>, a: real, b: real)
    requires asks != [] && ValidVolumes(asks) && Ascending(asks) && 0.0 < a <= b
    ensures Walk(asks, a, 0.0) / a <= Walk(asks, b, 0.0) / b
  {
    var d := b - a;
    var q, later := PivotPrice(asks, a, b, d);
    CrossMultiply(Walk(asks, a, 0.0), Walk(asks, b, 0.0), later, a, b, d, q);
  }

  lemma CrossMultiply(first: real, all: real, later: real, a: real, b: real, d: real, q: real)
    requires 0.0 < a && 0.0 <= d && b == a + d
    requires first <= a * q && later >= d * q && all == first + later
    ensures first / a <= all / b
  {
    var m := first / a;
    Quotient(first, a);
    QuotientAtMost(first, a, q);
    MulMonotone(m, q, d);
    Distribute(a, d, m);
    QuotientAtMost(all, b, m);
  }

  /** Selling more never raises the average price. */
  lemma SellAverageNeverRises(bids: seq<Level>, a: real, b: real)
    requires bids != [] && ValidVolumes(bids) && Descending(bids) && 0.0 < a <= b
    ensures Walk(bids, a, 0.0) / a >= Walk(bids, b, 0.0) / b
  {
    AverageNeverFalls(Mirror(bids), a, b);
    MirrorAverage(bids, a);
    MirrorAverage(bids, b);
  }

  lemma MirrorAverage(levels: seq<Level>, a: real)
    requires a > 0.0
    ensures Walk(Mirror(levels), a, 0.0) / a == -(Walk(levels, a, 0.0) / a)
  {
    MirrorNegates(levels, a, 0.0, []);
    NegateQuotient(Walk(levels, a, 0.0), a);
  }

  lemma NegateQuotient(x: real, a: real)
    requires a != 0.0
    ensures (-x) / a == -(x / a)
  {
  }

  // ---------- The forecast price ----------

  /**
    With non-negative prices a buy is priced between the best ask and the slippage cap whenever the
    best ask is within the cap, and exactly at the cap otherwise; a sell mirrors this.
   */
  lemma ForecastStaysWithinSlippage(side: Side, levels: seq<Level>, amount: real, rate: real)
    requires levels != [] && ValidVolumes(levels) && PricesAtLeast(levels, 0.0) && amount > 0.0
    requires if side == Buy then Ascending(levels) else Descending(levels)
    ensures var limit := SlippageLimit(side, rate);
      var best := levels[0].price;
      var price := Forecast(side, levels, amount, rate);
      if side == Buy then (if best <= limit then best <= price <= limit else price == limit)
      else (if best >= limit then limit <= price <= best else price == limit)
  {
    var best, value := levels[0].price, Walk(levels, amount, 0.0);
    AllCostAtLeast(levels, amount, 0.0);
    if side == Buy {
      AllCostAtLeast(levels, amount, best);
    } else {
      MirrorNegates(levels, amount, 0.0, []);
      AllCostAtLeast(Mirror(levels), amount, -best);
    }
    QuotientAtMost(value, amount, best);
  }

  /**
    A simulated market buy at a positive rate is free exactly when the ask side is empty: the loop
    never sets a price, so nothing is charged.
   */
  lemma BuyIsFreeExactlyOnAnEmptyBook(asks: seq<Level>, amount: real, rate: real)
    requires ValidVolumes(asks) && amount > 0.0 && rate > 0.0
    requires forall i :: 0 <= i < |asks| ==> asks[i].price > 0.0
    ensures Forecast(Buy, asks, amount, rate) == 0.0 <==> asks == []
    ensures Forecast(Buy, asks, amount, rate) >= 0.0
  {
    if asks != [] {
      WalkIsPositive(asks, amount, 0.0);
      QuotientAtMost(Walk(asks, amount, 0.0), amount, 0.0);
    }
  }

  lemma {:induction false} WalkIsPositive(levels: seq<Level>, amount: real, last: real)
    requires ValidVolumes(levels) && amount >= 0.0 && last >= 0.0
    requires forall i :: 0 <= i < |levels| ==> levels[i].price > 0.0
    ensures Walk(levels, amount, last) >= 0.0
    ensures amount > 0.0 && (levels != [] || last > 0.0) ==> Walk(levels, amount, last) > 0.0
  {
    if levels == [] {
      MulSign(amount, last);
    } else if amount > 0.0 {
      MulSign(amount, levels[0].price);
      if amount >= levels[0].volume {
        MulSign(levels[0].volume, levels[0].price);
        WalkIsPositive(levels[1..], amount - levels[0].volume, levels[0].price);
      }
    }
  }
}
