/**
  Opening trades: how much stake a trade may use (`get_available_stake_amount`, `get_trade_stake_amount`,
  `validate_stake_amount`), and which trades are opened (`FreqtradeBot.enter_positions`,
  `create_trade`, `execute_entry`).
 */
module Entries {
  import opened Reals
  import opened Results
  import opened Wallets

  // ---------- Stakes ----------

  /** What may still be staked: the tradable part of everything, less what is tied up, and no more than is free. */
  function Available(ratio: real, tied: real, free: real): real {
    Min((tied + free) * ratio - tied, free)
  }

  /** A further stake is affordable if it is free and keeps all stakes within the tradable part of the capital. */
  predicate Affordable(ratio: real, tied: real, free: real, stake: real) {
    stake <= free && tied + stake <= (tied + free) * ratio
  }

  /** What is available is the largest affordable stake. */
  lemma AvailableIsLargest(ratio: real, tied: real, free: real, available: real)
    ensures (forall stake :: Affordable(ratio, tied, free, stake) <==> stake <= available)
      <==> available == Available(ratio, tied, free)
  {
    var most := Available(ratio, tied, free);
    if forall stake :: Affordable(ratio, tied, free, stake) <==> stake <= available {
      assert Affordable(ratio, tied, free, most) && Affordable(ratio, tied, free, available);
    }
  }

  function UnlimitedShare(available: real, tied: real, maxOpen: MaxOpen): real {
    match maxOpen
    case NoLimit => Min(0.0, available)
    case AtMost(n) => if n == 0 then 0.0 else Min((available + tied) / n as real, available)
  }

  /** The least amount that a stake may be reduced to. */
  function LeastAmended(c: Config, stake: real): real { stake * c.lastMinRatio }

  function CheckAvailable(c: Config, stake: real, available: real): Result<real, FundsError> {
    var amended := if !c.amendLast then stake
                   else if available > LeastAmended(c, stake) then Min(stake, available)
                   else 0.0;
    if available < amended then Err(NotEnoughFunds) else Ok(Max(amended, 0.0))
  }

  function TradeStake(c: Config, tied: real, free: real): Result<real, FundsError> {
    var available := Available(c.ratio, tied, free);
    var stake := match c.stake
                 case UnlimitedStake => UnlimitedShare(available, tied, c.maxOpen)
                 case FixedStake(amount) => amount;
    CheckAvailable(c, stake, available)
  }

  /**
    The stake an order is placed with, or 0 for none: within the exchange's limits and the available
    balance, raised to the exchange's minimum by at most 30%.
   */
  method ValidateStakeAmount(stake: Option<real>, minStake: Option<real>, maxStake: real, available: real,
                             tradeAmount: Option<real>) returns (r: real)
    ensures r == Validated(stake, minStake, maxStake, available, tradeAmount)
  {
    if stake.None? || stake.value == 0.0 {
      return 0.0;
    }
    var amount := stake.value;
    var maxAllowed := Min(maxStake, available);
    if tradeAmount.Some? && tradeAmount.value != 0.0 {
      maxAllowed := Min(maxAllowed, maxStake - tradeAmount.value);
    }
    if minStake.Some? && minStake.value > maxAllowed {
      return 0.0;
    }
    if minStake.Some? && amount < minStake.value {
      if amount * 1.3 < minStake.value {
        return 0.0;
      }
      amount := minStake.value;
    }
    if amount > maxAllowed {
      amount := maxAllowed;
    }
    r := amount;
  }

  function MaxAllowed(maxStake: real, available: real, tradeAmount: Option<real>): real {
    var allowed := Min(maxStake, available);
    if tradeAmount.Some? && tradeAmount.value != 0.0 then Min(allowed, maxStake - tradeAmount.value) else allowed
  }

  /** A stake has room if it is within both limits and, with what an existing trade holds, within the greatest stake. */
  lemma MaxAllowedIsLargest(maxStake: real, available: real, tradeAmount: Option<real>, stake: real)
    ensures stake <= MaxAllowed(maxStake, available, tradeAmount) <==>
      && stake <= maxStake && stake <= available
      && (tradeAmount.GetOr(0.0) != 0.0 ==> tradeAmount.value + stake <= maxStake)
  {
  }

  function Validated(stake: Option<real>, minStake: Option<real>, maxStake: real, available: real,
                     tradeAmount: Option<real>): real {
    var allowed := MaxAllowed(maxStake, available, tradeAmount);
    if stake.None? || stake.value == 0.0 then 0.0
    else if minStake.None? then Min(stake.value, allowed)
    else if minStake.value > allowed || (stake.value < minStake.value && stake.value * 1.3 < minStake.value) then 0.0
    else Min(Max(stake.value, minStake.value), allowed)
  }

  /**
    What comes of a wanted stake, for a minimum that is not negative: nothing exactly when nothing is
    wanted, the limits leave exactly nothing, or the minimum lies above them or more than 30% above the
    wanted stake; a negative stake exactly when there is no minimum and the wanted stake or the room left
    is negative; and otherwise a stake within all limits: the minimum, if the wanted one is below it by
    at most 30%, the room left if the wanted one is larger, and else the wanted one.
   */
  lemma ValidatedExactly(stake: Option<real>, minStake: Option<real>, maxStake: real, available: real,
                         tradeAmount: Option<real>)
    requires minStake.Some? ==> minStake.value >= 0.0
    ensures var r := Validated(stake, minStake, maxStake, available, tradeAmount);
      var allowed := MaxAllowed(maxStake, available, tradeAmount);
      && (r == 0.0 <==>
            || stake.GetOr(0.0) == 0.0
            || (minStake.Some? && (minStake.value > allowed || minStake.value > 1.3 * stake.value))
            || (allowed == 0.0 && stake.value > 0.0))
      && (r < 0.0 <==> stake.GetOr(0.0) != 0.0 && minStake.None? && (stake.value < 0.0 || allowed < 0.0))
      && (r > 0.0 ==>
            && stake.Some? && r <= allowed && r <= maxStake && r <= available && r <= 1.3 * stake.value
            && (minStake.Some? ==> minStake.value <= r))
      && (r > 0.0 ==> r == if minStake.Some? && stake.value < minStake.value then minStake.value
                           else if stake.value > allowed then allowed else stake.value)
      && (stake.Some? && minStake.GetOr(stake.value) <= stake.value <= allowed ==> r == stake.value)
  {
  }

  // ---------- Entries ----------

  /**
    Everything outside the bot that decides about one entry: the strategy's signal, its own stake, its
    confirmation, locks, the order book, the exchange's limits, and what became of the order.
   */
  datatype Signal = Signal(
    enter: bool, locked: bool, depthAccepted: bool, price: real, leverage: real, minStake: Option<real>, maxStake: real,
    customStake: Option<real>, confirmed: bool, accepted: bool)

  function OpenTrades(trades: seq<Trade>): nat {
    if trades == [] then 0 else (if trades[0].isOpen then 1 else 0) + OpenTrades(trades[1..])
  }

  predicate HasFreeSlot(c: Config, trades: seq<Trade>) {
    c.maxOpen.NoLimit? || OpenTrades(trades) < c.maxOpen.n
  }

  function NewTrade(pair: string, stake: real, s: Signal): Trade
    requires s.price != 0.0
  {
    Trade(pair, stake, stake / s.price * s.leverage, true, 0.0, 0.0, [])
  }

  /** The stake of the trade that would be opened; 0 for none. */
  ghost function EntryStake(c: Config, trades: seq<Trade>, s: Signal): (r: Result<real, FundsError>)
    ensures r.Ok? && r.value != 0.0 ==> s.price != 0.0
  {
    var free := Equity(c, trades) - Tied(trades);
    if !HasFreeSlot(c, trades) || !s.enter || s.locked then Ok(0.0)
    else
      match TradeStake(c, Tied(trades), free)
      case Err(e) => Err(e)
      case Ok(stake) =>
        if !s.depthAccepted then Ok(0.0)
        else if s.price == 0.0 then Err(NoPrice)
        else
          var r := Validated(Some(s.customStake.GetOr(stake)), s.minStake, s.maxStake,
                             Available(c.ratio, Tied(trades), free), None);
          Ok(if s.confirmed && s.accepted then r else 0.0)
  }

  ghost function AfterEntry(c: Config, trades: seq<Trade>, pair: string, s: Signal): seq<Trade> {
    match EntryStake(c, trades, s)
    case Ok(stake) => if stake == 0.0 then trades else trades + [NewTrade(pair, stake, s)]
    case Err(_) => trades
  }

  /** Attempts for `pairs` in order; attempt number `n`, the first of them, meets the answers `signals(n)`. */
  ghost function AfterEntries(
      c: Config, trades: seq<Trade>, pairs: seq<string>, signals: nat -> Signal, n: nat): seq<Trade>
    decreases pairs
  {
    if pairs == [] then trades
    else AfterEntries(c, AfterEntry(c, trades, pairs[0], signals(n)), pairs[1..], signals, n + 1)
  }

  function RemoveFirst(pairs: seq<string>, pair: string): seq<string> {
    if pairs == [] then [] else if pairs[0] == pair then pairs[1..] else [pairs[0]] + RemoveFirst(pairs[1..], pair)
  }

  /** The whitelist without the pairs of open trades. */
  function Candidates(whitelist: seq<string>, trades: seq<Trade>): seq<string>
    decreases trades
  {
    if trades == [] then whitelist
    else if trades[0].isOpen then Candidates(RemoveFirst(whitelist, trades[0].pair), trades[1..])
    else Candidates(whitelist, trades[1..])
  }

  class FreqtradeBot {
    const config: Config
    const wallets: Wallets
    var trades: seq<Trade>

    ghost predicate Valid()
      reads this
    {
      wallets.config == config
    }

    constructor (config: Config)
      ensures Valid() && this.config == config && trades == [] && fresh(wallets)
    {
      this.config, trades := config, [];
      wallets := new Wallets(config);
    }

    function GetFreeOpenTrades(): (free: Option<nat>)
      reads this
      ensures free.None? <==> config.maxOpen.NoLimit?
      ensures free.Some? && OpenTrades(trades) <= config.maxOpen.n ==>
        free.value + OpenTrades(trades) == config.maxOpen.n
      ensures free.Some? && OpenTrades(trades) > config.maxOpen.n ==> free.value == 0
    {
      match config.maxOpen
      case NoLimit => None
      case AtMost(n) => Some(if OpenTrades(trades) < n then n - OpenTrades(trades) else 0)
    }

    method GetAvailableStake() returns (available: real)
      requires Valid() && config.stakeCurrency in wallets.wallets
      ensures forall stake :: stake <= available <==>
        Affordable(config.ratio, Tied(trades), wallets.wallets[config.stakeCurrency].free, stake)
    {
      var free := wallets.GetFree(config.stakeCurrency);
      available := Min((Tied(trades) + free) * config.ratio - Tied(trades), free);
    }

    method CreateTrade(pair: string, s: Signal) returns (created: Result<bool, FundsError>)
      requires Valid()
      modifies this, wallets
      ensures Valid() && trades == AfterEntry(config, old(trades), pair, s)
      ensures created.Err? <==> EntryStake(config, old(trades), s).Err?
      ensures created.Err? ==> created.error == EntryStake(config, old(trades), s).error
      ensures created.Ok? ==> (created.value <==> trades != old(trades))
    {
      if GetFreeOpenTrades() == Some(0) {
        return Ok(false);
      }
      if !s.enter || s.locked {
        return Ok(false);
      }
      wallets.UpdateDry(trades);
      var free := wallets.GetFree(config.stakeCurrency);
      var stake := TradeStake(config, Tied(trades), free);
      if stake.Err? {
        return Err(stake.error);
      }
      if !s.depthAccepted {
        return Ok(false);
      }
      if s.price == 0.0 {
        return Err(NoPrice);
      }
      var available := GetAvailableStake();
      AvailableIsLargest(config.ratio, Tied(trades), free, available);
      var wanted := s.customStake.GetOr(stake.value);
      var amount := ValidateStakeAmount(Some(wanted), s.minStake, s.maxStake, available, None);
      if amount == 0.0 || !s.confirmed || !s.accepted {
        return Ok(false);
      }
      trades := trades + [NewTrade(pair, amount, s)];
      wallets.UpdateDry(trades);
      created := Ok(true);
    }

    /** The strategy and the exchange are asked again for every attempt. */
    method EnterPositions(whitelist: seq<string>, signals: nat -> Signal, globalLock: bool) returns (created: nat)
      requires Valid()
      modifies this, wallets
      ensures Valid()
      ensures trades == if globalLock then old(trades)
                        else AfterEntries(config, old(trades), Candidates(whitelist, old(trades)), signals, 0)
      ensures |trades| == |old(trades)| + created
    {
      created := 0;
      var pairs := whitelist;
      for i := 0 to |trades|
        invariant Candidates(pairs, trades[i..]) == Candidates(whitelist, trades)
      {
        if trades[i].isOpen {
          pairs := RemoveFirst(pairs, trades[i].pair);
        }
      }
      if globalLock {
        return;
      }
      var n := 0;
      while n < |pairs|
        invariant 0 <= n <= |pairs| && Valid()
        invariant AfterEntries(config, trades, pairs[n..], signals, n)
          == AfterEntries(config, old(trades), pairs, signals, 0)
        invariant |trades| == |old(trades)| + created
      {
        var r := CreateTrade(pairs[n], signals(n));
        if r == Ok(true) {
          created := created + 1;
        }
        n := n + 1;
      }
    }
  }
}
