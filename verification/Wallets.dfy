/**
  Dry-run capital: the wallet that is rebuilt from the trades (`Wallets._update_dry`), the coins it leaves
  out, and the ledger it stands for.
 */
module Wallets {
  import opened Results

  datatype MaxOpen = NoLimit | AtMost(n: nat)
  datatype StakeSetting = UnlimitedStake | FixedStake(amount: real)

  /** `rateOf` gives what one unit of another currency is worth in the stake currency, if that is known. */
  datatype Config = Config(
    stakeCurrency: string, startCap: map<string, real>, futures: bool, baseOf: string -> string,
    crossMargin: bool, rateOf: string -> Option<real>,
    ratio: real, stake: StakeSetting, amendLast: bool, lastMinRatio: real, maxOpen: MaxOpen)

  datatype PendingOrder = PendingOrder(isEntry: bool, stake: real, amount: real)

  /** `realized` is the profit of partial exits; `closeProfit` is the whole profit once it is closed. */
  datatype Trade = Trade(pair: string, stake: real, amount: real, isOpen: bool, realized: real, closeProfit: real,
                         pending: seq<PendingOrder>)

  datatype Wallet = Wallet(free: real, used: real, total: real)
  datatype PositionWallet = PositionWallet(position: real, collateral: real)
  datatype FundsError = NotEnoughFunds | NoPrice

  // ---------- Sums over trades ----------

  function Sum(f: Trade -> real, trades: seq<Trade>): real {
    if trades == [] then 0.0 else f(trades[0]) + Sum(f, trades[1..])
  }

  lemma {:induction false} SumOfAppended(f: Trade -> real, trades: seq<Trade>, t: Trade)
    ensures Sum(f, trades + [t]) == Sum(f, trades) + f(t)
  {
    if trades == [] {
      assert [t][1..] == [];
    } else {
      assert (trades + [t])[1..] == trades[1..] + [t];
      SumOfAppended(f, trades[1..], t);
    }
  }

  lemma {:induction false} SumOfUpdated(f: Trade -> real, trades: seq<Trade>, i: nat, t: Trade)
    requires i < |trades|
    ensures Sum(f, trades[i := t]) == Sum(f, trades) - f(trades[i]) + f(t)
  {
    if i > 0 {
      assert trades[i := t][1..] == trades[1..][i - 1 := t];
      SumOfUpdated(f, trades[1..], i - 1, t);
    } else {
      assert trades[i := t][1..] == trades[1..];
    }
  }

  function OpenStake(t: Trade): real { if t.isOpen then t.stake else 0.0 }
  function ProfitSoFar(t: Trade): real { if t.isOpen then t.realized else t.closeProfit }

  function Tied(trades: seq<Trade>): real { Sum(OpenStake, trades) }
  function Profit(trades: seq<Trade>): real { Sum(ProfitSoFar, trades) }

  function SumPending(orders: seq<PendingOrder>, entry: bool): real {
    if orders == [] then 0.0
    else (if orders[0].isEntry != entry then 0.0 else if entry then orders[0].stake else orders[0].amount)
         + SumPending(orders[1..], entry)
  }

  function EntriesPending(t: Trade): real { if t.isOpen then SumPending(t.pending, true) else 0.0 }

  // ---------- The rebuilt wallet ----------

  function Start(c: Config, currency: string): real {
    if currency in c.startCap then c.startCap[currency] else 0.0
  }

  /** What a balance in another currency is worth; nothing if that is not known. */
  function Converted(c: Config, currency: string): real {
    if currency == c.stakeCurrency || currency !in c.startCap then 0.0
    else match c.rateOf(currency) case Some(rate) => c.startCap[currency] * rate case None => 0.0
  }

  function Worth(c: Config): string -> real { currency => Converted(c, currency) }

  lemma WorthOf(c: Config, currency: string)
    requires currency in c.startCap && currency != c.stakeCurrency
    ensures Converted(c, currency) == match c.rateOf(currency)
      case None => 0.0
      case Some(rate) => if rate == 0.0 then 0.0 else c.startCap[currency] * rate
  {
  }

  ghost function SumOver(f: string -> real, keys: set<string>): real
    decreases keys
  {
    if keys == {} then 0.0
    else
      var key :| key in keys;
      f(key) + SumOver(f, keys - {key})
  }

  /** The order in which they are added up does not matter. */
  lemma {:induction false} SumWithout(f: string -> real, keys: set<string>, key: string)
    requires key in keys
    ensures SumOver(f, keys) == f(key) + SumOver(f, keys - {key})
    decreases keys
  {
    var first :| first in keys && SumOver(f, keys) == f(first) + SumOver(f, keys - {first});
    if first != key {
      SumWithout(f, keys - {first}, key);
      SumWithout(f, keys - {key}, first);
      assert keys - {first} - {key} == keys - {key} - {first};
    }
  }

  /** In cross margin all other starting balances serve as collateral as well. */
  ghost function CrossFunds(c: Config): real {
    if c.crossMargin then SumOver(Worth(c), c.startCap.Keys) else 0.0
  }

  ghost function Funds(c: Config): real {
    Start(c, c.stakeCurrency) + CrossFunds(c)
  }

  ghost function Equity(c: Config, trades: seq<Trade>): real {
    Funds(c) + Profit(trades)
  }

  /** The total leaves the other currencies out, which have wallets of their own. */
  ghost function StakeWallet(c: Config, trades: seq<Trade>): Wallet {
    var free := Equity(c, trades) - Tied(trades);
    var used := if c.futures then Tied(trades) else Sum(EntriesPending, trades);
    Wallet(free, used, free + used - CrossFunds(c))
  }

  function CoinWallet(c: Config, t: Trade): Wallet {
    var leaving := SumPending(t.pending, false);
    var start := Start(c, c.baseOf(t.pair));
    Wallet(start + t.amount - leaving, leaving, t.amount + start)
  }

  /** One wallet per coin that is held in a spot trade; a later trade in the same coin replaces an earlier one. */
  function CoinWallets(c: Config, trades: seq<Trade>): map<string, Wallet> {
    if trades == [] then map[]
    else
      var last := trades[|trades| - 1];
      var rest := CoinWallets(c, trades[..|trades| - 1]);
      if last.isOpen then rest[c.baseOf(last.pair) := CoinWallet(c, last)] else rest
  }

  function Positions(trades: seq<Trade>): map<string, PositionWallet> {
    if trades == [] then map[]
    else
      var last := trades[|trades| - 1];
      var rest := Positions(trades[..|trades| - 1]);
      if last.isOpen then rest[last.pair := PositionWallet(last.amount, last.stake)] else rest
  }

  function Untouched(c: Config): map<string, Wallet> {
    map currency | currency in c.startCap :: Wallet(c.startCap[currency], 0.0, c.startCap[currency])
  }

  ghost function WalletsFor(c: Config, trades: seq<Trade>): map<string, Wallet> {
    Untouched(c) + (if c.futures then map[] else CoinWallets(c, trades))
    + map[c.stakeCurrency := StakeWallet(c, trades)]
  }

  lemma StakeWalletComesLast(untouched: map<string, Wallet>, coins: map<string, Wallet>, currency: string, w: Wallet)
    ensures untouched + coins[currency := w] == untouched + coins + map[currency := w]
  {
  }

  class Wallets {
    const config: Config
    var wallets: map<string, Wallet>
    var positions: map<string, PositionWallet>

    constructor (config: Config)
      ensures this.config == config && wallets == map[] && positions == map[]
    {
      this.config, wallets, positions := config, map[], map[];
    }

    function GetFree(currency: string): real
      reads this
    {
      if currency in wallets then wallets[currency].free else 0.0
    }

    method UpdateDry(trades: seq<Trade>)
      modifies this
      ensures wallets == WalletsFor(config, trades)
      ensures positions == if config.futures then Positions(trades) else map[]
    {
      var newWallets: map<string, Wallet> := map[];
      var newPositions: map<string, PositionWallet> := map[];
      var usedStake := 0.0;
      if !config.futures {
        newWallets, usedStake := CollectCoins(trades);
      } else {
        newPositions := CollectPositions(trades);
        usedStake := Tied(trades);
      }
      var stakeWallet := BalanceStake(trades, usedStake);
      StakeWalletComesLast(Untouched(config), newWallets, config.stakeCurrency, stakeWallet);
      newWallets := newWallets[config.stakeCurrency := stakeWallet];
      newWallets := Untouched(config) + newWallets;
      wallets, positions := newWallets, newPositions;
    }

    method BalanceStake(trades: seq<Trade>, usedStake: real) returns (w: Wallet)
      requires usedStake == if config.futures then Tied(trades) else Sum(EntriesPending, trades)
      ensures w == StakeWallet(config, trades)
    {
      var profit, tied := Profit(trades), Tied(trades);
      var crossMargin := CrossMargin();
      var current := Start(config, config.stakeCurrency) + profit - tied;
      var total := current + usedStake;
      w := Wallet(current + crossMargin, usedStake, total);
    }

    method CrossMargin() returns (funds: real)
      ensures funds == CrossFunds(config)
    {
      funds := 0.0;
      if config.crossMargin {
        var todo := config.startCap.Keys;
        while todo != {}
          invariant todo <= config.startCap.Keys
          invariant funds + SumOver(Worth(config), todo) == SumOver(Worth(config), config.startCap.Keys)
        {
          var currency :| currency in todo;
          SumWithout(Worth(config), todo, currency);
          if currency != config.stakeCurrency {
            var rate := config.rateOf(currency);
            if rate.Some? && rate.value != 0.0 {
              funds := funds + config.startCap[currency] * rate.value;
            }
            WorthOf(config, currency);
          }
          todo := todo - {currency};
        }
      }
    }

    method CollectCoins(trades: seq<Trade>) returns (coins: map<string, Wallet>, usedStake: real)
      ensures coins == CoinWallets(config, trades) && usedStake == Sum(EntriesPending, trades)
    {
      coins, usedStake := map[], 0.0;
      for i := 0 to |trades|
        invariant coins == CoinWallets(config, trades[..i]) && usedStake == Sum(EntriesPending, trades[..i])
      {
        assert trades[..i + 1][..i] == trades[..i];
        assert trades[..i + 1] == trades[..i] + [trades[i]];
        SumOfAppended(EntriesPending, trades[..i], trades[i]);
        if trades[i].isOpen {
          usedStake := usedStake + SumPending(trades[i].pending, true);
          coins := coins[config.baseOf(trades[i].pair) := CoinWallet(config, trades[i])];
        }
      }
      assert trades[..|trades|] == trades;
    }

    method CollectPositions(trades: seq<Trade>) returns (collected: map<string, PositionWallet>)
      ensures collected == Positions(trades)
    {
      collected := map[];
      for i := 0 to |trades|
        invariant collected == Positions(trades[..i])
      {
        assert trades[..i + 1][..i] == trades[..i];
        if trades[i].isOpen {
          collected := collected[trades[i].pair := PositionWallet(trades[i].amount, trades[i].stake)];
        }
      }
      assert trades[..|trades|] == trades;
    }
  }

  // ---------- Coins ----------

  predicate InCoin(c: Config, t: Trade, coin: string) { t.isOpen && c.baseOf(t.pair) == coin }

  function Held(c: Config, trades: seq<Trade>, coin: string): real {
    if trades == [] then 0.0
    else Held(c, trades[..|trades| - 1], coin)
         + if InCoin(c, trades[|trades| - 1], coin) then trades[|trades| - 1].amount else 0.0
  }

  function TradesIn(c: Config, trades: seq<Trade>, coin: string): nat {
    if trades == [] then 0
    else TradesIn(c, trades[..|trades| - 1], coin) + if InCoin(c, trades[|trades| - 1], coin) then 1 else 0
  }

  /**
    A coin has a wallet exactly when some open trade holds it. Its total is everything held plus the
    starting balance exactly when one trade holds it; with more, all but the last are left out.
   */
  lemma {:induction false} CoinTotalExactly(c: Config, trades: seq<Trade>, coin: string)
    requires forall i :: 0 <= i < |trades| ==> trades[i].amount > 0.0
    ensures coin in CoinWallets(c, trades) <==> TradesIn(c, trades, coin) > 0
    ensures Held(c, trades, coin) >= 0.0 && (Held(c, trades, coin) == 0.0 <==> TradesIn(c, trades, coin) == 0)
    ensures coin in CoinWallets(c, trades) ==>
      var w := CoinWallets(c, trades)[coin];
      w.free + w.used == w.total
      && (w.total == Start(c, coin) + Held(c, trades, coin) <==> TradesIn(c, trades, coin) == 1)
  {
    if trades != [] {
      CoinTotalExactly(c, trades[..|trades| - 1], coin);
    }
  }

  // ---------- The rebuilt wallet is an incremental ledger ----------

  /** What happens to the trades; partial exits give back a part of the stake. */
  datatype Event =
    | Open(pair: string, stake: real, amount: real)
    | PartialExit(i: nat, stakeBack: real, amountBack: real, profit: real)
    | Close(i: nat, profit: real)

  predicate Applies(trades: seq<Trade>, e: Event) {
    e.Open? || (e.i < |trades| && trades[e.i].isOpen)
  }

  function Apply(trades: seq<Trade>, e: Event): seq<Trade>
    requires Applies(trades, e)
  {
    match e
    case Open(pair, stake, amount) => trades + [Trade(pair, stake, amount, true, 0.0, 0.0, [])]
    case PartialExit(i, stakeBack, amountBack, profit) =>
      var t := trades[i];
      trades[i := t.(stake := t.stake - stakeBack, amount := t.amount - amountBack, realized := t.realized + profit)]
    case Close(i, profit) =>
      var t := trades[i];
      trades[i := t.(isOpen := false, closeProfit := t.realized + profit)]
  }

  function Replay(events: seq<Event>): Option<seq<Trade>> {
    if events == [] then Some([])
    else
      match Replay(events[..|events| - 1])
      case None => None
      case Some(trades) =>
        if Applies(trades, events[|events| - 1]) then Some(Apply(trades, events[|events| - 1])) else None
  }

  /** The ledger: cash pays for a stake, and gets the stake and the profit back. */
  function Cash(start: real, trades: seq<Trade>, e: Event): real
    requires Applies(trades, e)
  {
    match e
    case Open(_, stake, _) => start - stake
    case PartialExit(_, stakeBack, _, profit) => start + stakeBack + profit
    case Close(i, profit) => start + trades[i].stake + profit
  }

  ghost function Ledger(c: Config, events: seq<Event>): real
    requires Replay(events).Some?
  {
    if events == [] then Funds(c)
    else
      var before := events[..|events| - 1];
      Cash(Ledger(c, before), Replay(before).value, events[|events| - 1])
  }

  lemma ApplyMovesCash(c: Config, trades: seq<Trade>, e: Event)
    requires Applies(trades, e)
    ensures StakeWallet(c, Apply(trades, e)).free == Cash(StakeWallet(c, trades).free, trades, e)
  {
    match e {
      case Open(pair, stake, amount) =>
        var t := Trade(pair, stake, amount, true, 0.0, 0.0, []);
        SumOfAppended(OpenStake, trades, t);
        SumOfAppended(ProfitSoFar, trades, t);
      case _ =>
        var t := Apply(trades, e)[e.i];
        SumOfUpdated(OpenStake, trades, e.i, t);
        SumOfUpdated(ProfitSoFar, trades, e.i, t);
    }
  }

  /**
    After every history of openings, partial exits and closings, the free balance rebuilt from the
    trades is the balance of the ledger. The total, other currencies aside, is free plus what is tied up
    in futures, and in spot (no order pending) the free balance alone.
   */
  lemma {:induction false} RebuiltWalletIsLedger(c: Config, events: seq<Event>)
    requires Replay(events).Some?
    ensures var trades := Replay(events).value;
      var w := StakeWallet(c, trades);
      && WalletsFor(c, trades)[c.stakeCurrency] == w
      && w.free == Ledger(c, events)
      && w.total + CrossFunds(c) == if c.futures then Ledger(c, events) + Tied(trades) else Ledger(c, events)
  {
    if events != [] {
      var before := events[..|events| - 1];
      RebuiltWalletIsLedger(c, before);
      ApplyMovesCash(c, Replay(before).value, events[|events| - 1]);
    }
    NothingPending(events);
  }

  lemma {:induction false} NothingPending(events: seq<Event>)
    requires Replay(events).Some?
    ensures var trades := Replay(events).value;
      Sum(EntriesPending, trades) == 0.0 && forall i :: 0 <= i < |trades| ==> trades[i].pending == []
  {
    if events != [] {
      var before, e := events[..|events| - 1], events[|events| - 1];
      NothingPending(before);
      var trades := Replay(before).value;
      match e {
        case Open(pair, stake, amount) => SumOfAppended(EntriesPending, trades, Apply(trades, e)[|trades|]);
        case _ => SumOfUpdated(EntriesPending, trades, e.i, Apply(trades, e)[e.i]);
      }
    }
  }
}
