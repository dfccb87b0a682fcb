/**
  Simulated liquidation prices: the general formula (`Exchange.dry_run_liquidation_price`), Binance's with
  its cross-margin terms, Bybit's, and the safety buffer of `Exchange.get_liquidation_price`.
 */
module Liquidation {
  import opened Reals
  import opened Results
  import opened LeverageTiers

  datatype MarginMode = Isolated | Cross
  datatype Position = Position(pair: string, isShort: bool, openRate: real, amount: real, stake: real,
                               leverage: real, wallet: real)
  datatype LiquidationError = Unsupported | InverseContract | NoMaintenanceAmount | NoMarginRate(cause: TierError)

  predicate ValidPosition(p: Position) {
    p.amount > 0.0 && p.leverage > 0.0
  }

  function Side(isShort: bool): real {
    if isShort then -1.0 else 1.0
  }

  /** Profit of an amount opened at one price and valued at another. */
  function Profit(isShort: bool, amount: real, open: real, price: real): real {
    Side(isShort) * (amount * price - amount * open)
  }

  // ---------- The formulas ----------

  function BasePrice(p: Position, rate: real): real
    requires ValidPosition(p) && 0.0 <= rate < 1.0
  {
    var value := p.wallet / p.amount;
    if p.isShort then (p.openRate + value) / (1.0 + rate) else (p.openRate - value) / (1.0 - rate)
  }

  function BinancePrice(p: Position, rate: real, maintenanceAmount: real, cross: real): real
    requires ValidPosition(p) && 0.0 <= rate < 1.0
  {
    BinanceDivisor(p, rate);
    ((p.wallet + cross + maintenanceAmount) - Side(p.isShort) * p.amount * p.openRate)
      / (p.amount * rate - Side(p.isShort) * p.amount)
  }

  function BybitPrice(p: Position, rate: real): real
    requires ValidPosition(p)
  {
    var value := p.amount * p.openRate;
    var difference := (value / p.leverage - value * rate) / p.amount;
    if p.isShort then p.openRate + difference else p.openRate - difference
  }

  lemma BinanceDivisor(p: Position, rate: real)
    requires ValidPosition(p) && 0.0 <= rate < 1.0
    ensures p.amount * rate - Side(p.isShort) * p.amount == p.amount * (rate - Side(p.isShort))
    ensures p.isShort ==> p.amount * (rate - Side(p.isShort)) > 0.0
    ensures !p.isShort ==> p.amount * (rate - Side(p.isShort)) < 0.0
  {
    Distribute(rate, -Side(p.isShort), p.amount);
    MulSign(p.amount, 1.0 + rate);
    MulSign(p.amount, 1.0 - rate);
  }

  /** What remains of collateral and profit at `price` above the margin the position needs there. */
  function BaseSurplus(p: Position, rate: real, price: real): real {
    p.wallet + Profit(p.isShort, p.amount, p.openRate, price) - p.amount * price * rate
  }

  function BinanceSurplus(p: Position, rate: real, maintenanceAmount: real, cross: real, price: real): real {
    p.wallet + cross + Profit(p.isShort, p.amount, p.openRate, price)
    - (p.amount * price * rate - maintenanceAmount)
  }

  /** Bybit measures the margin at the entry price. */
  function BybitSurplus(p: Position, rate: real, price: real): real
    requires ValidPosition(p)
  {
    p.amount * p.openRate / p.leverage + Profit(p.isShort, p.amount, p.openRate, price)
    - p.amount * p.openRate * rate
  }

  /** `surplus` is zero at `root` only, and falls on the position's losing side. */
  predicate CrossesAt(isShort: bool, surplus: real, price: real, root: real) {
    && (surplus == 0.0 <==> price == root)
    && (surplus > 0.0 <==> if isShort then price < root else price > root)
  }

  lemma LinearCrossing(isShort: bool, slope: real, surplus: real, price: real, root: real)
    requires if isShort then slope < 0.0 else slope > 0.0
    requires surplus == slope * (price - root)
    ensures CrossesAt(isShort, surplus, price, root)
  {
    var steep, gap := if isShort then -slope else slope, if isShort then root - price else price - root;
    assert surplus == steep * gap;
    SignOfProduct(steep, gap);
  }

  lemma SignOfProduct(steep: real, gap: real)
    requires steep > 0.0
    ensures steep * gap == 0.0 <==> gap == 0.0
    ensures steep * gap > 0.0 <==> gap > 0.0
  {
    MulSign(steep, gap);
    MulSign(steep, -gap);
  }

  /** The general price is the one price at which collateral plus profit equals the margin. */
  lemma BasePriceIsTheCrossing(p: Position, rate: real, price: real)
    requires ValidPosition(p) && 0.0 <= rate < 1.0
    ensures CrossesAt(p.isShort, BaseSurplus(p, rate, price), price, BasePrice(p, rate))
  {
    var root := BasePrice(p, rate);
    var slope := BaseSlope(p, rate, price, root);
    LinearCrossing(p.isShort, slope, BaseSurplus(p, rate, price), price, root);
  }

  lemma BaseSlope(p: Position, rate: real, price: real, root: real) returns (slope: real)
    requires ValidPosition(p) && 0.0 <= rate < 1.0 && root == BasePrice(p, rate)
    ensures if p.isShort then slope < 0.0 else slope > 0.0
    ensures BaseSurplus(p, rate, price) == slope * (price - root)
  {
    var side, value := Side(p.isShort), p.wallet / p.amount;
    Quotient(p.wallet, p.amount);
    Quotient(p.openRate - side * value, 1.0 - side * rate);
    BaseRoot(p, rate, value);
    BaseAlgebra(p.wallet, value, side, p.amount, p.openRate, rate, price, root);
    slope := p.amount * (side - rate);
    MulSign(p.amount, 1.0 + rate);
    MulSign(p.amount, 1.0 - rate);
  }

  lemma BaseRoot(p: Position, rate: real, value: real)
    requires ValidPosition(p) && 0.0 <= rate < 1.0 && value == p.wallet / p.amount
    ensures BasePrice(p, rate) == (p.openRate - Side(p.isShort) * value) / (1.0 - Side(p.isShort) * rate)
  {
  }

  lemma BaseAlgebra(wallet: real, value: real, side: real, amount: real, open: real, rate: real, price: real,
                    root: real)
    requires wallet == value * amount && side * side == 1.0
    requires root * (1.0 - side * rate) == open - side * value
    ensures wallet + side * (amount * price - amount * open) - amount * price * rate
      == amount * (side - rate) * (price - root)
  {
    assert side * (root * (1.0 - side * rate)) == side * (open - side * value);
    assert root * (side - rate) == side * open - value by {
      assert side * (root * (1.0 - side * rate)) == root * side - root * (side * side) * rate;
      assert side * (open - side * value) == side * open - (side * side) * value;
    }
    assert amount * (root * (side - rate)) == amount * (side * open) - amount * value;
    assert amount * (side - rate) * (price - root) == amount * (side - rate) * price - amount * (root * (side - rate));
  }

  lemma BinancePriceIsTheCrossing(p: Position, rate: real, maintenanceAmount: real, cross: real, price: real)
    requires ValidPosition(p) && 0.0 <= rate < 1.0
    ensures CrossesAt(p.isShort, BinanceSurplus(p, rate, maintenanceAmount, cross, price), price,
                      BinancePrice(p, rate, maintenanceAmount, cross))
  {
    var root, side := BinancePrice(p, rate, maintenanceAmount, cross), Side(p.isShort);
    var divisor := p.amount * rate - side * p.amount;
    BinanceDivisor(p, rate);
    Quotient((p.wallet + cross + maintenanceAmount) - side * p.amount * p.openRate, divisor);
    BinanceAlgebra(p.wallet + cross + maintenanceAmount, side, p.amount, p.openRate, rate, price, root);
    LinearCrossing(p.isShort, -divisor, BinanceSurplus(p, rate, maintenanceAmount, cross, price), price, root);
  }

  lemma BinanceAlgebra(funds: real, side: real, amount: real, open: real, rate: real, price: real, root: real)
    requires root * (amount * rate - side * amount) == funds - side * amount * open
    ensures funds + side * (amount * price - amount * open) - amount * price * rate
      == -(amount * rate - side * amount) * (price - root)
  {
    var d := amount * rate - side * amount;
    assert -d * (price - root) == root * d - d * price;
    assert d * price == amount * price * rate - side * (amount * price);
    assert side * (amount * price - amount * open) == side * (amount * price) - side * amount * open;
  }

  lemma BybitPriceIsTheCrossing(p: Position, rate: real, price: real)
    requires ValidPosition(p)
    ensures CrossesAt(p.isShort, BybitSurplus(p, rate, price), price, BybitPrice(p, rate))
  {
    var value, side := p.amount * p.openRate, Side(p.isShort);
    var excess := value / p.leverage - value * rate;
    var d := excess / p.amount;
    Quotient(excess, p.amount);
    BybitAlgebra(excess, d, side, p.amount, p.openRate, price);
    LinearCrossing(p.isShort, side * p.amount, BybitSurplus(p, rate, price), price, BybitPrice(p, rate));
  }

  lemma BybitAlgebra(excess: real, d: real, side: real, amount: real, open: real, price: real)
    requires excess == d * amount && (side == 1.0 || side == -1.0)
    ensures excess + side * (amount * price - amount * open) == side * amount * (price - (open - side * d))
  {
    Distribute(price, -(open - side * d), amount);
  }

  // ---------- The buffer ----------

  function Away(a: real, b: real): real {
    if a >= b then a - b else b - a
  }

  function BufferAmount(gap: real, buffer: real): real {
    gap * buffer
  }

  function Buffered(p: Position, price: real, buffer: real): real {
    Shifted(p, price, BufferAmount(Away(p.openRate, price), buffer))
  }

  function Shifted(p: Position, price: real, away: real): real {
    var shifted := if p.isShort then price - away else price + away;
    if shifted > 0.0 then shifted else 0.0
  }

  lemma ShiftedBetween(p: Position, root: real, away: real)
    requires OnLosingSide(p, root) && 0.0 <= away <= Away(p.openRate, root) && p.openRate >= 0.0
    ensures var b := Shifted(p, root, away);
      && (if p.isShort then p.openRate <= b <= root else root <= b <= p.openRate)
      && (away > 0.0 ==> b != root)
  {
  }

  predicate OnLosingSide(p: Position, price: real) {
    if p.isShort then price >= p.openRate else price <= p.openRate
  }

  lemma LosingSideOfCrossing(p: Position, surplusAtEntry: real, root: real)
    requires CrossesAt(p.isShort, surplusAtEntry, p.openRate, root)
    ensures OnLosingSide(p, root) <==> surplusAtEntry >= 0.0
  {
  }

  lemma NoProfitAtEntry(p: Position)
    ensures Profit(p.isShort, p.amount, p.openRate, p.openRate) == 0.0
  {
  }

  /** The general price is on the losing side of the entry exactly when the wallet covers margin and fee there. */
  lemma BaseLosingSideExactly(p: Position, rate: real)
    requires ValidPosition(p) && 0.0 <= rate < 1.0
    ensures OnLosingSide(p, BasePrice(p, rate)) <==> p.wallet >= p.amount * p.openRate * rate
  {
    BasePriceIsTheCrossing(p, rate, p.openRate);
    LosingSideOfCrossing(p, BaseSurplus(p, rate, p.openRate), BasePrice(p, rate));
    NoProfitAtEntry(p);
  }

  /** Binance's exactly when wallet, cross terms and maintenance amount cover the margin there. */
  lemma BinanceLosingSideExactly(p: Position, rate: real, maintenanceAmount: real, cross: real)
    requires ValidPosition(p) && 0.0 <= rate < 1.0
    ensures OnLosingSide(p, BinancePrice(p, rate, maintenanceAmount, cross))
      <==> p.wallet + cross + maintenanceAmount >= p.amount * p.openRate * rate
  {
    BinancePriceIsTheCrossing(p, rate, maintenanceAmount, cross, p.openRate);
    LosingSideOfCrossing(p, BinanceSurplus(p, rate, maintenanceAmount, cross, p.openRate),
                         BinancePrice(p, rate, maintenanceAmount, cross));
    NoProfitAtEntry(p);
  }

  /** Bybit's exactly when the leverage is no higher than the margin rate allows. */
  lemma BybitLosingSideExactly(p: Position, rate: real)
    requires ValidPosition(p) && p.openRate > 0.0
    ensures OnLosingSide(p, BybitPrice(p, rate)) <==> rate * p.leverage <= 1.0
  {
    BybitPriceIsTheCrossing(p, rate, p.openRate);
    LosingSideOfCrossing(p, BybitSurplus(p, rate, p.openRate), BybitPrice(p, rate));
    BybitFundedExactly(p, rate);
  }

  lemma BybitFundedExactly(p: Position, rate: real)
    requires ValidPosition(p) && p.openRate > 0.0
    ensures BybitSurplus(p, rate, p.openRate) >= 0.0 <==> rate * p.leverage <= 1.0
  {
    var value := p.amount * p.openRate;
    NoProfitAtEntry(p);
    MulSign(p.amount, p.openRate);
    QuotientAtMost(value, p.leverage, value * rate);
    Associate(value, rate, p.leverage);
    if rate * p.leverage > 1.0 {
      MulStrict(1.0, rate * p.leverage, value);
    } else {
      MulMonotone(rate * p.leverage, 1.0, value);
    }
  }

  /** On the losing side the buffered price lies between liquidation and entry. */
  lemma BufferedBetween(p: Position, root: real, buffer: real)
    requires OnLosingSide(p, root) && 0.0 <= buffer < 1.0 && p.openRate >= 0.0
    ensures var b := Buffered(p, root, buffer);
      && (if p.isShort then p.openRate <= b <= root else root <= b <= p.openRate)
      && (buffer > 0.0 && root != p.openRate ==> b != root)
  {
    if p.isShort {
      assert Away(p.openRate, root) == root - p.openRate;
    } else {
      assert Away(p.openRate, root) == p.openRate - root;
    }
    BufferedGap(Away(p.openRate, root), buffer);
    ShiftedBetween(p, root, BufferAmount(Away(p.openRate, root), buffer));
  }

  /**
    The buffer takes its share off the distance between entry and liquidation price: what is left of it is
    exactly the rest, unless the price of a long would go below zero.
   */
  lemma BufferTakesItsShare(p: Position, root: real, buffer: real)
    requires OnLosingSide(p, root) && 0.0 <= buffer < 1.0 && p.openRate >= 0.0
    ensures var b := Buffered(p, root, buffer);
      && (p.isShort ==> b - p.openRate == (1.0 - buffer) * (root - p.openRate))
      && (!p.isShort && root >= 0.0 ==> p.openRate - b == (1.0 - buffer) * (p.openRate - root))
      && (!p.isShort && root < 0.0 ==> p.openRate - b == Min(p.openRate, (1.0 - buffer) * (p.openRate - root)))
  {
    var gap := Away(p.openRate, root);
    BufferedGap(gap, buffer);
    RestOfGap(gap, buffer);
  }

  lemma RestOfGap(gap: real, buffer: real)
    ensures gap - BufferAmount(gap, buffer) == (1.0 - buffer) * gap
  {
  }

  /**
    A position stopped at the buffered price is still funded, and not yet at its liquidation price if
    buffer and distance are positive.
   */
  lemma StopIsFunded(p: Position, root: real, stop: real, surplus: real)
    requires if p.isShort then stop <= root else root <= stop
    requires CrossesAt(p.isShort, surplus, stop, root)
    ensures surplus >= 0.0
    ensures stop != root ==> surplus > 0.0
  {
  }

  lemma BufferedGap(gap: real, buffer: real)
    requires gap >= 0.0 && 0.0 <= buffer < 1.0
    ensures 0.0 <= BufferAmount(gap, buffer) <= gap
    ensures buffer > 0.0 && gap > 0.0 ==> 0.0 < BufferAmount(gap, buffer)
  {
    MulSign(gap, buffer);
    MulMonotone(buffer, 1.0, gap);
  }

  // ---------- Cross margin on Binance ----------

  datatype OpenTrade = OpenTrade(pair: string, isShort: bool, amount: real, openRate: real, stake: real, mark: real)

  /** The profit of a trade as the code computes it, whatever its side. */
  function LongProfit(t: OpenTrade): real {
    t.amount * t.mark - t.amount * t.openRate
  }

  function MarginOf(t: OpenTrade, rate: real, amount: real): real {
    t.amount * t.mark * rate - amount
  }

  /** What the loop adds up for one other trade: its profit as the code computes it, less its margin. */
  function Contribution(tiers: map<string, seq<Tier>>, t: OpenTrade): Result<real, LiquidationError> {
    if t.pair !in tiers then Err(NoMarginRate(NoTiers))
    else
      match Maintenance(tiers[t.pair], t.stake)
      case Err(e) => Err(NoMarginRate(e))
      case Ok((rate, amount)) =>
        if amount.None? then Err(NoMaintenanceAmount)
        else Ok(LongProfit(t) - MarginOf(t, rate, amount.value))
  }

  function CrossTerms(tiers: map<string, seq<Tier>>, pair: string, trades: seq<OpenTrade>):
    Result<real, LiquidationError>
  {
    if trades == [] then Ok(0.0)
    else if trades[0].pair == pair then CrossTerms(tiers, pair, trades[1..])
    else
      match Contribution(tiers, trades[0])
      case Err(e) => Err(e)
      case Ok(own) =>
        match CrossTerms(tiers, pair, trades[1..])
        case Err(e) => Err(e)
        case Ok(others) => Ok(own + others)
  }

  function Plus(r: Result<real, LiquidationError>, x: real): Result<real, LiquidationError> {
    if r.Ok? then Ok(r.value + x) else r
  }

  /** The loop that accumulates maintenance margin and unrealised profit of the other trades. */
  method GetCrossTerms(tiers: map<string, seq<Tier>>, pair: string, trades: seq<OpenTrade>)
    returns (r: Result<real, LiquidationError>)
    ensures r == CrossTerms(tiers, pair, trades)
  {
    var margin, profit := 0.0, 0.0;
    var i := 0;
    while i < |trades|
      invariant 0 <= i <= |trades|
      invariant Plus(CrossTerms(tiers, pair, trades[i..]), profit - margin) == CrossTerms(tiers, pair, trades)
    {
      var t := trades[i];
      assert trades[i..][0] == t && trades[i..][1..] == trades[i + 1..];
      if t.pair != pair {
        if t.pair !in tiers {
          return Err(NoMarginRate(NoTiers));
        }
        var m := GetMaintenanceRatioAndAmt(tiers[t.pair], t.stake);
        if m.Err? {
          return Err(NoMarginRate(m.error));
        }
        if m.value.1.None? {
          return Err(NoMaintenanceAmount);
        }
        margin := margin + MarginOf(t, m.value.0, m.value.1.value);
        profit := profit + LongProfit(t);
      }
      i := i + 1;
    }
    r := Ok(profit - margin);
  }

  /**
    One trade in another pair adds the profit of a long and takes away the margin it needs at its mark
    price; the position's own pair adds nothing.
   */
  lemma CrossTermsOfOne(tiers: map<string, seq<Tier>>, pair: string, t: OpenTrade)
    ensures var r := CrossTerms(tiers, pair, [t]);
      if t.pair == pair then r == Ok(0.0)
      else if t.pair !in tiers then r == Err(NoMarginRate(NoTiers))
      else
        match Maintenance(tiers[t.pair], t.stake)
        case Err(e) => r == Err(NoMarginRate(e))
        case Ok((rate, amount)) =>
          if amount.None? then r == Err(NoMaintenanceAmount)
          else r.Ok? && r.value == t.amount * (t.mark - t.openRate) - (t.amount * t.mark * rate - amount.value)
  {
    assert [t][1..] == [];
    assert t.amount * (t.mark - t.openRate) == LongProfit(t);
  }

  /** Trades add up, and the first error counts. */
  lemma {:induction false} CrossTermsAddUp(tiers: map<string, seq<Tier>>, pair: string, a: seq<OpenTrade>,
                                           b: seq<OpenTrade>)
    ensures CrossTerms(tiers, pair, a + b) ==
      match CrossTerms(tiers, pair, a)
      case Err(e) => Err(e)
      case Ok(first) =>
        match CrossTerms(tiers, pair, b)
        case Err(e) => Err(e)
        case Ok(second) => Ok(first + second)
  {
    if a == [] {
      assert a + b == b;
    } else {
      assert (a + b)[1..] == a[1..] + b;
      CrossTermsAddUp(tiers, pair, a[1..], b);
    }
  }

  /** What the other trades really contribute: a short gains when the price falls. */
  function TrueTerms(tiers: map<string, seq<Tier>>, pair: string, trades: seq<OpenTrade>): real {
    if trades == [] then 0.0
    else
      var rest := TrueTerms(tiers, pair, trades[1..]);
      var t := trades[0];
      if t.pair == pair || Contribution(tiers, t).Err? then rest
      else
        rest + Contribution(tiers, t).value - LongProfit(t)
        + Profit(t.isShort, t.amount, t.openRate, t.mark)
  }

  /** Value the other short positions have moved since they were opened. */
  function ShortDrift(pair: string, trades: seq<OpenTrade>): real {
    if trades == [] then 0.0
    else
      var t := trades[0];
      ShortDrift(pair, trades[1..])
      + if t.pair != pair && t.isShort then LongProfit(t) else 0.0
  }

  lemma SidesOfProfit(t: OpenTrade)
    ensures Profit(t.isShort, t.amount, t.openRate, t.mark) == if t.isShort then -LongProfit(t) else LongProfit(t)
  {
  }

  lemma {:induction false} TermsDifferByShorts(tiers: map<string, seq<Tier>>, pair: string, trades: seq<OpenTrade>)
    requires CrossTerms(tiers, pair, trades).Ok?
    ensures CrossTerms(tiers, pair, trades).value
      == TrueTerms(tiers, pair, trades) + 2.0 * ShortDrift(pair, trades)
  {
    if trades != [] {
      TermsDifferByShorts(tiers, pair, trades[1..]);
      SidesOfProfit(trades[0]);
    }
  }

  /**
    In cross margin the account as a whole meets its maintenance margin exactly at the reported price
    if and only if the other short positions show no net move: the code values shorts like longs. If
    the shorts have lost, the account is already short of margin at the reported price.
   */
  lemma CrossPriceExactness(tiers: map<string, seq<Tier>>, p: Position, rate: real, maintenanceAmount: real,
                            trades: seq<OpenTrade>)
    requires ValidPosition(p) && 0.0 <= rate < 1.0
    requires CrossTerms(tiers, p.pair, trades).Ok?
    ensures var reported := BinancePrice(p, rate, maintenanceAmount, CrossTerms(tiers, p.pair, trades).value);
      var account := BinanceSurplus(p, rate, maintenanceAmount, TrueTerms(tiers, p.pair, trades), reported);
      && (account == 0.0 <==> ShortDrift(p.pair, trades) == 0.0)
      && (account < 0.0 <==> ShortDrift(p.pair, trades) > 0.0)
  {
    var cross := CrossTerms(tiers, p.pair, trades).value;
    var reported := BinancePrice(p, rate, maintenanceAmount, cross);
    TermsDifferByShorts(tiers, p.pair, trades);
    BinancePriceIsTheCrossing(p, rate, maintenanceAmount, cross, reported);
  }

  // ---------- The simulated price of an exchange ----------

  datatype Venue = Generic(takerFee: real) | Binance | Bybit

  /** Margin and fee never take the whole value. */
  predicate RatesBelowOne(v: Venue, tiers: map<string, seq<Tier>>) {
    && (v.Generic? ==> v.takerFee >= 0.0)
    && forall pair, i :: pair in tiers && 0 <= i < |tiers[pair]| ==>
         0.0 <= tiers[pair][i].maintenanceRate
         && tiers[pair][i].maintenanceRate + (if v.Generic? then v.takerFee else 0.0) < 1.0
  }

  /** `get_liquidation_price` in dry-run, for futures. */
  function LiquidationPrice(v: Venue, mode: MarginMode, inverse: bool, tiers: map<string, seq<Tier>>, p: Position,
                            trades: seq<OpenTrade>, buffer: real): Result<real, LiquidationError>
    requires ValidPosition(p) && RatesBelowOne(v, tiers)
  {
    if p.pair !in tiers then Err(NoMarginRate(NoTiers))
    else
      match Maintenance(tiers[p.pair], p.stake)
      case Err(e) => Err(NoMarginRate(e))
      case Ok((rate, amount)) =>
        if v.Binance? then
          var cross := if mode == Cross then CrossTerms(tiers, p.pair, trades) else Ok(0.0);
          if cross.Err? then Err(cross.error)
          else if amount.None? then Err(NoMaintenanceAmount)
          else Ok(Buffered(p, BinancePrice(p, rate, amount.value, cross.value), buffer))
        else if mode == Cross then Err(Unsupported)
        else if inverse then Err(InverseContract)
        else if v.Bybit? then Ok(Buffered(p, BybitPrice(p, rate), buffer))
        else Ok(Buffered(p, BasePrice(p, rate + v.takerFee), buffer))
  }

  /** The price reported for a liquidation at `root`: moved towards the entry by the buffer, never negative. */
  predicate IsReported(p: Position, root: real, buffer: real, reported: real) {
    var away := buffer * (if p.openRate >= root then p.openRate - root else root - p.openRate);
    reported == Max(0.0, if p.isShort then root - away else root + away)
  }

  /** Liquidation is at a price without surplus, and reported with the buffer. */
  ghost predicate Reports(p: Position, surplus: real -> real, buffer: real, r: Result<real, LiquidationError>) {
    r.Ok? && exists root :: surplus(root) == 0.0 && IsReported(p, root, buffer, r.value)
  }

  /**
    Every outcome: errors in the order in which they are looked for, or the buffered price at which the
    surplus of the venue is used up, in cross margin on Binance with the other trades.
   */
  lemma LiquidationPriceExactly(v: Venue, mode: MarginMode, inverse: bool, tiers: map<string, seq<Tier>>,
                                p: Position, trades: seq<OpenTrade>, buffer: real)
    requires ValidPosition(p) && RatesBelowOne(v, tiers)
    ensures var r := LiquidationPrice(v, mode, inverse, tiers, p, trades, buffer);
      if p.pair !in tiers then r == Err(NoMarginRate(NoTiers))
      else
        match Maintenance(tiers[p.pair], p.stake)
        case Err(e) => r == Err(NoMarginRate(e))
        case Ok((rate, amount)) =>
          match v
          case Binance =>
            (var cross := if mode.Cross? then CrossTerms(tiers, p.pair, trades) else Ok(0.0);
             if cross.Err? then r == Err(cross.error)
             else if amount.None? then r == Err(NoMaintenanceAmount)
             else Reports(p, price => BinanceSurplus(p, rate, amount.value, cross.value, price), buffer, r))
          case Generic(fee) =>
            if mode.Cross? then r == Err(Unsupported)
            else if inverse then r == Err(InverseContract)
            else Reports(p, price => BaseSurplus(p, rate + fee, price), buffer, r)
          case Bybit =>
            if mode.Cross? then r == Err(Unsupported)
            else if inverse then r == Err(InverseContract)
            else Reports(p, price => BybitSurplus(p, rate, price), buffer, r)
  {
    if p.pair in tiers && Maintenance(tiers[p.pair], p.stake).Ok? {
      var (rate, amount) := Maintenance(tiers[p.pair], p.stake).value;
      match v {
        case Binance =>
          var cross := if mode.Cross? then CrossTerms(tiers, p.pair, trades) else Ok(0.0);
          if cross.Ok? && amount.Some? {
            var root := BinancePrice(p, rate, amount.value, cross.value);
            BinancePriceIsTheCrossing(p, rate, amount.value, cross.value, root);
            BufferedIsReported(p, root, buffer);
          }
        case Generic(fee) =>
          var root := BasePrice(p, rate + fee);
          BasePriceIsTheCrossing(p, rate + fee, root);
          BufferedIsReported(p, root, buffer);
        case Bybit =>
          var root := BybitPrice(p, rate);
          BybitPriceIsTheCrossing(p, rate, root);
          BufferedIsReported(p, root, buffer);
      }
    }
  }

  lemma BufferedIsReported(p: Position, root: real, buffer: real)
    ensures IsReported(p, root, buffer, Buffered(p, root, buffer))
  {
    var gap := Away(p.openRate, root);
    assert BufferAmount(gap, buffer) == buffer * gap;
  }

  /** The margin surplus the price of a venue is about. */
  function Surplus(v: Venue, rate: real, amount: Option<real>, p: Position, price: real): real
    requires ValidPosition(p)
  {
    match v
    case Generic(fee) => BaseSurplus(p, rate + fee, price)
    case Binance => BinanceSurplus(p, rate, amount.GetOr(0.0), 0.0, price)
    case Bybit => BybitSurplus(p, rate, price)
  }

  /**
    With isolated margin, whatever the venue: a position funded at its entry still has margin left when
    the simulated liquidation price is reached.
   */
  lemma IsolatedStopIsFunded(v: Venue, tiers: map<string, seq<Tier>>, p: Position, trades: seq<OpenTrade>, buffer: real)
    requires ValidPosition(p) && p.openRate >= 0.0 && 0.0 <= buffer < 1.0
    requires RatesBelowOne(v, tiers)
    requires p.pair in tiers && Maintenance(tiers[p.pair], p.stake).Ok?
    requires LiquidationPrice(v, Isolated, false, tiers, p, trades, buffer).Ok?
    requires var (rate, amount) := Maintenance(tiers[p.pair], p.stake).value;
      Surplus(v, rate, amount, p, p.openRate) >= 0.0
    ensures var (rate, amount) := Maintenance(tiers[p.pair], p.stake).value;
      var stop := LiquidationPrice(v, Isolated, false, tiers, p, trades, buffer).value;
      && Surplus(v, rate, amount, p, stop) >= 0.0
      && (buffer > 0.0 && Surplus(v, rate, amount, p, p.openRate) > 0.0 ==> Surplus(v, rate, amount, p, stop) > 0.0)
  {
    var (rate, amount) := Maintenance(tiers[p.pair], p.stake).value;
    var stop := LiquidationPrice(v, Isolated, false, tiers, p, trades, buffer).value;
    var root := match v
                case Generic(fee) => BasePrice(p, rate + fee)
                case Binance => BinancePrice(p, rate, amount.value, 0.0)
                case Bybit => BybitPrice(p, rate);
    match v {
      case Generic(fee) =>
        BasePriceIsTheCrossing(p, rate + fee, p.openRate);
        BasePriceIsTheCrossing(p, rate + fee, stop);
      case Binance =>
        BinancePriceIsTheCrossing(p, rate, amount.value, 0.0, p.openRate);
        BinancePriceIsTheCrossing(p, rate, amount.value, 0.0, stop);
      case Bybit =>
        BybitPriceIsTheCrossing(p, rate, p.openRate);
        BybitPriceIsTheCrossing(p, rate, stop);
    }
    LosingSideOfCrossing(p, Surplus(v, rate, amount, p, p.openRate), root);
    BufferedBetween(p, root, buffer);
    StopIsFunded(p, root, stop, Surplus(v, rate, amount, p, stop));
  }
}
