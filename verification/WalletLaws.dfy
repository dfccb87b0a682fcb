/**
  What a rebuilt wallet holds, in terms of single trades, orders and currencies.
 */
module WalletLaws {
  import opened Results
  import opened Wallets

  // ---------- Positions ----------

  predicate IsOpenIn(t: Trade, pair: string) { t.isOpen && t.pair == pair }

  /** Trade `i` is the last open one of its pair. */
  predicate IsLastOfPair(trades: seq<Trade>, pair: string, i: nat) {
    i < |trades| && IsOpenIn(trades[i], pair) && forall j :: i < j < |trades| ==> !IsOpenIn(trades[j], pair)
  }

  /** A pair has a position exactly when a trade of it is open. */
  lemma {:induction false} PositionIsOpen(trades: seq<Trade>, pair: string)
    ensures pair in Positions(trades) <==> exists i :: 0 <= i < |trades| && IsOpenIn(trades[i], pair)
  {
    if trades != [] {
      PositionIsOpen(trades[..|trades| - 1], pair);
    }
  }

  /** It is the amount of the last such trade, and the collateral is the stake of that trade. */
  lemma {:induction false} PositionIsOfTheLast(trades: seq<Trade>, pair: string, i: nat)
    requires IsLastOfPair(trades, pair, i)
    ensures pair in Positions(trades)
    ensures Positions(trades)[pair].position == trades[i].amount
    ensures Positions(trades)[pair].collateral == trades[i].stake
  {
    if i < |trades| - 1 {
      var rest := trades[..|trades| - 1];
      assert IsLastOfPair(rest, pair, i);
      PositionIsOfTheLast(rest, pair, i);
      assert !IsOpenIn(trades[|trades| - 1], pair);
    }
  }

  function Collateral(positions: map<string, PositionWallet>): string -> real {
    pair => if pair in positions then positions[pair].collateral else 0.0
  }

  ghost predicate PairsAreDistinct(trades: seq<Trade>) {
    forall i, j :: 0 <= i < j < |trades| && trades[i].isOpen && trades[j].isOpen ==> trades[i].pair != trades[j].pair
  }

  /** If no pair is traded twice at once, the collaterals add up to everything that is tied up. */
  lemma {:induction false} CollateralsAddUp(trades: seq<Trade>)
    requires PairsAreDistinct(trades)
    ensures SumOver(Collateral(Positions(trades)), Positions(trades).Keys) == Tied(trades)
  {
    if trades != [] {
      var last, rest := trades[|trades| - 1], trades[..|trades| - 1];
      var before, after := Positions(rest), Positions(trades);
      CollateralsAddUp(rest);
      SumOfAppended(OpenStake, rest, last);
      assert rest + [last] == trades;
      if last.isOpen {
        PositionIsOpen(rest, last.pair);
        assert after.Keys - {last.pair} == before.Keys;
        SumWithout(Collateral(after), after.Keys, last.pair);
        SumAlike(Collateral(before), Collateral(after), before.Keys);
      }
    }
  }

  lemma {:induction false} SumAlike(f: string -> real, g: string -> real, keys: set<string>)
    requires forall key :: key in keys ==> f(key) == g(key)
    ensures SumOver(f, keys) == SumOver(g, keys)
    decreases keys
  {
    if key :| key in keys {
      SumWithout(f, keys, key);
      SumWithout(g, keys, key);
      SumAlike(f, g, keys - {key});
    }
  }

  // ---------- Pending orders ----------

  /** Pending orders add up: entries by their stakes, exits by their amounts. */
  lemma {:induction false} PendingAddsUp(orders: seq<PendingOrder>, o: PendingOrder)
    ensures SumPending(orders + [o], true) == SumPending(orders, true) + if o.isEntry then o.stake else 0.0
    ensures SumPending(orders + [o], false) == SumPending(orders, false) + if o.isEntry then 0.0 else o.amount
  {
    if orders == [] {
      assert [o][1..] == [];
    } else {
      assert (orders + [o])[1..] == orders[1..] + [o];
      PendingAddsUp(orders[1..], o);
    }
  }

  /**
    One more pending order of an open trade: in spot an entry counts as used and into the total, but never
    changes what is free; exits, orders of closed trades, and futures change nothing in the stake currency.
   */
  lemma PendingOrderIsUsed(c: Config, trades: seq<Trade>, i: nat, o: PendingOrder)
    requires i < |trades|
    ensures var more := trades[i := trades[i].(pending := trades[i].pending + [o])];
      var before, after := StakeWallet(c, trades), StakeWallet(c, more);
      var used := if !c.futures && trades[i].isOpen && o.isEntry then o.stake else 0.0;
      after.free == before.free && after.used == before.used + used && after.total == before.total + used
  {
    var t := trades[i].(pending := trades[i].pending + [o]);
    PendingAddsUp(trades[i].pending, o);
    SumOfUpdated(OpenStake, trades, i, t);
    SumOfUpdated(ProfitSoFar, trades, i, t);
    SumOfUpdated(EntriesPending, trades, i, t);
  }

  // ---------- Coins and currencies ----------

  /** Trade `i` is the last open one in its coin. */
  predicate IsLastInCoin(c: Config, trades: seq<Trade>, coin: string, i: nat) {
    i < |trades| && InCoin(c, trades[i], coin) && forall j :: i < j < |trades| ==> !InCoin(c, trades[j], coin)
  }

  /** A coin's wallet is that of the last open trade in it: what its pending exits sell is used, the rest is free. */
  lemma {:induction false} CoinIsOfTheLast(c: Config, trades: seq<Trade>, coin: string, i: nat)
    requires IsLastInCoin(c, trades, coin, i)
    ensures coin in CoinWallets(c, trades)
    ensures var w := CoinWallets(c, trades)[coin];
      && w.total == trades[i].amount + (if coin in c.startCap then c.startCap[coin] else 0.0)
      && w.used == SumPending(trades[i].pending, false) && w.free == w.total - w.used
  {
    var rest := trades[..|trades| - 1];
    if i < |trades| - 1 {
      assert IsLastInCoin(c, rest, coin, i);
      CoinIsOfTheLast(c, rest, coin, i);
      assert !InCoin(c, trades[|trades| - 1], coin);
    }
  }

  lemma {:induction false} CoinIsTraded(c: Config, trades: seq<Trade>, coin: string)
    ensures coin in CoinWallets(c, trades) <==> exists i :: 0 <= i < |trades| && InCoin(c, trades[i], coin)
  {
    if trades != [] {
      CoinIsTraded(c, trades[..|trades| - 1], coin);
    }
  }

  /**
    Every currency with a wallet: the stake currency, in spot the coins of open trades, and the starting
    balances, which are as they were unless they are one of those.
   */
  lemma WalletsExactly(c: Config, trades: seq<Trade>, currency: string)
    ensures var w := WalletsFor(c, trades);
      var traded := !c.futures && exists i :: 0 <= i < |trades| && InCoin(c, trades[i], currency);
      && (currency in w <==> currency == c.stakeCurrency || currency in c.startCap || traded)
      && (currency == c.stakeCurrency ==> w[currency] == StakeWallet(c, trades))
      && (currency != c.stakeCurrency && traded ==>
            currency in CoinWallets(c, trades) && w[currency] == CoinWallets(c, trades)[currency])
      && (currency != c.stakeCurrency && !traded && currency in c.startCap ==>
            w[currency] == Wallet(c.startCap[currency], 0.0, c.startCap[currency]))
  {
    CoinIsTraded(c, trades, currency);
  }

  /** What an event adds to the coins held. */
  function CoinsMoved(c: Config, trades: seq<Trade>, e: Event, coin: string): real
    requires Applies(trades, e)
  {
    match e
    case Open(pair, _, amount) => if c.baseOf(pair) == coin then amount else 0.0
    case PartialExit(i, _, amountBack, _) => if c.baseOf(trades[i].pair) == coin then -amountBack else 0.0
    case Close(i, _) => if c.baseOf(trades[i].pair) == coin then -trades[i].amount else 0.0
  }

  /** Coins move with the trades: an opening brings its amount, and exits take away theirs. */
  lemma ApplyMovesCoins(c: Config, trades: seq<Trade>, e: Event, coin: string)
    requires Applies(trades, e)
    ensures Held(c, Apply(trades, e), coin) == Held(c, trades, coin) + CoinsMoved(c, trades, e, coin)
  {
    if !e.Open? {
      HeldOfUpdated(c, trades, e.i, Apply(trades, e)[e.i], coin);
    }
  }

  lemma {:induction false} HeldOfUpdated(c: Config, trades: seq<Trade>, i: nat, t: Trade, coin: string)
    requires i < |trades|
    ensures Held(c, trades[i := t], coin) == Held(c, trades, coin)
      - (if InCoin(c, trades[i], coin) then trades[i].amount else 0.0) + (if InCoin(c, t, coin) then t.amount else 0.0)
  {
    var last := |trades| - 1;
    if i < last {
      assert trades[i := t][..last] == trades[..last][i := t];
      HeldOfUpdated(c, trades[..last], i, t, coin);
    } else {
      assert trades[i := t][..last] == trades[..last];
    }
  }

  // ---------- Cross margin ----------

  /**
    A further starting balance adds to what is free: its amount in the stake currency, and otherwise, in
    cross margin, what it is worth, its amount times its rate, nothing if that is unknown. Only a balance
    in the stake currency adds to the total.
   */
  lemma BalanceAddsItsWorth(c: Config, trades: seq<Trade>, currency: string, amount: real)
    requires currency !in c.startCap
    ensures var more := c.(startCap := c.startCap[currency := amount]);
      var before, after := StakeWallet(c, trades), StakeWallet(more, trades);
      var own := if currency == c.stakeCurrency then amount else 0.0;
      && after.total == before.total + own
      && after.free == before.free + own +
           if !c.crossMargin || currency == c.stakeCurrency then 0.0
           else match c.rateOf(currency) case None => 0.0 case Some(rate) => amount * rate
  {
    var more := c.(startCap := c.startCap[currency := amount]);
    assert more.startCap.Keys - {currency} == c.startCap.Keys;
    SumWithout(Worth(more), more.startCap.Keys, currency);
    WorthWith(c, more, currency, amount);
    SumAlike(Worth(c), Worth(more), c.startCap.Keys);
  }

  lemma WorthWith(c: Config, more: Config, currency: string, amount: real)
    requires currency !in c.startCap && more == c.(startCap := c.startCap[currency := amount])
    ensures Worth(more)(currency) ==
      if currency == c.stakeCurrency then 0.0
      else match c.rateOf(currency) case None => 0.0 case Some(rate) => amount * rate
    ensures forall other :: other in c.startCap ==> Worth(c)(other) == Worth(more)(other)
  {
  }

  /** Without starting balances there are no such funds. */
  lemma NoBalanceNoFunds(c: Config)
    requires c.startCap == map[]
    ensures Funds(c) == 0.0
  {
    assert c.startCap.Keys == {};
  }
}
