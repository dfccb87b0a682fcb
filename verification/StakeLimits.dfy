/**
  The least and the greatest stake a market allows (`Exchange._get_stake_amount_limit`), with the
  reserve kept for the stop-loss and the leverage taken into account.
 */
module StakeLimits {
  import opened Reals
  import opened Results
  import opened LeverageTiers

  /** Limits of a market in quote currency (`cost`) and in base currency (`amount`). */
  datatype Limits = Limits(cost: Option<real>, amount: Option<real>)

  function Magnitude(x: real): real { if x < 0.0 then -x else x }
  function Clamp(x: real, lo: real, hi: real): real { if x > hi then hi else if x < lo then lo else x }

  /** Reserve for the loss until the stop-loss; between nothing and half of the limit. */
  function StoplossReserve(marginReserve: real, stoploss: real): real {
    Clamp(if Magnitude(stoploss) != 1.0 then marginReserve / (1.0 - Magnitude(stoploss)) else 1.5, 1.0, 1.5)
  }

  function CostLimit(l: Limits, reserve: real): seq<real> {
    match l.cost case Some(cost) => [Times(cost, reserve)] case None => []
  }

  function AmountLimit(l: Limits, price: real, reserve: real): seq<real> {
    match l.amount case Some(amount) => [Times(Times(amount, price), reserve)] case None => []
  }

  function MinLimits(l: Limits, price: real, stoploss: real, reserve: real): seq<real> {
    CostLimit(l, StoplossReserve(reserve, stoploss)) + AmountLimit(l, price, reserve)
  }

  function MaxLimits(l: Limits, price: real, cap: Option<real>): seq<real> {
    (if cap.Some? && cap.value != 0.0 then [cap.value] else []) + CostLimit(l, 1.0) + AmountLimit(l, price, 1.0)
  }

  function Greatest(xs: seq<real>): (r: real)
    requires xs != []
    ensures forall x :: x in xs ==> x <= r
    ensures r in xs
  {
    if |xs| == 1 then xs[0]
    else
      assert forall x :: x in xs ==> x == xs[0] || x in xs[1..];
      var rest := Greatest(xs[1..]);
      if xs[0] > rest then xs[0] else rest
  }

  function Least(xs: seq<real>): (r: real)
    requires xs != []
    ensures forall x :: x in xs ==> r <= x
    ensures r in xs
  {
    if |xs| == 1 then xs[0]
    else
      assert forall x :: x in xs ==> x == xs[0] || x in xs[1..];
      var rest := Least(xs[1..]);
      if xs[0] < rest then xs[0] else rest
  }

  function Effective(leverage: real): real {
    if leverage == 0.0 then 1.0 else leverage
  }

  /** The least stake, if the market has limits at all; `reservePercent` is 0.05 unless configured. */
  function MinPairStake(l: Limits, price: real, stoploss: real, reservePercent: real, leverage: real): Option<real> {
    var limits := MinLimits(l, price, stoploss, 1.0 + reservePercent);
    if limits == [] then None else Some(Greatest(limits) / Effective(leverage))
  }

  /** The greatest stake; none means unlimited. */
  function MaxPairStake(l: Limits, price: real, tiers: seq<Tier>, leverage: real): Option<real> {
    var limits := MaxLimits(l, price, MaxNotional(tiers, leverage));
    if limits == [] then None else Some(Least(limits) / Effective(leverage))
  }

  /** A position opened with at least the minimum stake meets both of the market's minimums. */
  lemma MinStakeMeetsMinimums(l: Limits, price: real, stoploss: real, reservePercent: real, leverage: real, stake: real)
    requires leverage > 0.0 && price >= 0.0 && reservePercent >= 0.0
    requires l.cost.Some? ==> l.cost.value >= 0.0
    requires l.amount.Some? ==> l.amount.value >= 0.0
    requires var least := MinPairStake(l, price, stoploss, reservePercent, leverage);
      least.Some? && stake >= least.value
    ensures l.cost.Some? ==> Times(stake, leverage) >= l.cost.value
    ensures l.amount.Some? ==> Times(stake, leverage) >= Times(l.amount.value, price)
  {
    var reserve := 1.0 + reservePercent;
    var limits := MinLimits(l, price, stoploss, reserve);
    Reaches(Greatest(limits), leverage, stake);
    MinLimitsCover(l, price, stoploss, reserve);
  }

  lemma MinLimitsCover(l: Limits, price: real, stoploss: real, reserve: real)
    requires price >= 0.0 && reserve >= 1.0 && MinLimits(l, price, stoploss, reserve) != []
    requires l.cost.Some? ==> l.cost.value >= 0.0
    requires l.amount.Some? ==> l.amount.value >= 0.0
    ensures var greatest := Greatest(MinLimits(l, price, stoploss, reserve));
      && (l.cost.Some? ==> l.cost.value <= greatest)
      && (l.amount.Some? ==> Times(l.amount.value, price) <= greatest)
  {
    var limits := MinLimits(l, price, stoploss, reserve);
    if l.cost.Some? {
      CostIsCovered(l.cost.value, StoplossReserve(reserve, stoploss));
      assert limits[0] in limits;
    }
    if l.amount.Some? {
      MulSign(l.amount.value, price);
      CostIsCovered(Times(l.amount.value, price), reserve);
      assert limits[|limits| - 1] in limits;
    }
  }

  lemma CostIsCovered(cost: real, reserve: real)
    requires cost >= 0.0 && reserve >= 1.0
    ensures cost <= Times(cost, reserve)
  {
    MulMonotone(1.0, reserve, cost);
  }

  lemma Reaches(limit: real, leverage: real, stake: real)
    requires leverage > 0.0
    ensures stake >= limit / leverage <==> Times(stake, leverage) >= limit
    ensures stake <= limit / leverage <==> Times(stake, leverage) <= limit
  {
    QuotientAtMost(limit, leverage, stake);
  }

  /**
    The reserve is there so that a position can still be sold after it has lost as much as the
    stop-loss allows. Because it is cut off at one half, the least position still has the market's
    minimum value then exactly for stop-losses of up to one third.
   */
  lemma ReserveSurvivesStoplossExactly(cost: real, stoploss: real, marginReserve: real)
    requires cost > 0.0 && Magnitude(stoploss) < 1.0 && marginReserve >= 1.0
    ensures cost * StoplossReserve(marginReserve, stoploss) * (1.0 - Magnitude(stoploss)) >= cost
      <==> 3.0 * Magnitude(stoploss) <= 1.0
  {
    var kept := 1.0 - Magnitude(stoploss);
    var r := StoplossReserve(marginReserve, stoploss);
    Quotient(marginReserve, kept);
    QuotientAtMost(marginReserve, kept, 1.5);
    QuotientAtMost(marginReserve, kept, 1.0);
    assert r * kept >= 1.0 <==> 3.0 * Magnitude(stoploss) <= 1.0;
    Associate(cost, r, kept);
    if r * kept >= 1.0 {
      MulMonotone(1.0, r * kept, cost);
    } else {
      MulStrict(r * kept, 1.0, cost);
    }
  }

  /**
    The reserve makes up for the whole loss until the stop-loss, but is cut off at one half; where nothing
    would be left it is one half as well, and there is none for a stop-loss beyond the whole value.
   */
  lemma ReserveExactly(marginReserve: real, stoploss: real)
    requires marginReserve >= 1.0
    ensures var loss := if stoploss >= 0.0 then stoploss else -stoploss;
      var r := StoplossReserve(marginReserve, stoploss);
      && (loss < 1.0 && marginReserve < 1.5 * (1.0 - loss) ==> r * (1.0 - loss) == marginReserve)
      && (loss < 1.0 && marginReserve >= 1.5 * (1.0 - loss) ==> r == 1.5)
      && (loss == 1.0 ==> r == 1.5)
      && (loss > 1.0 ==> r == 1.0)
  {
    var loss := if stoploss >= 0.0 then stoploss else -stoploss;
    if loss < 1.0 {
      Quotient(marginReserve, 1.0 - loss);
      QuotientAtMost(marginReserve, 1.0 - loss, 1.5);
      QuotientAtMost(marginReserve, 1.0 - loss, 1.0);
    } else if loss > 1.0 {
      NegativeQuotient(marginReserve, 1.0 - loss);
    }
  }

  lemma NegativeQuotient(x: real, d: real)
    requires x >= 0.0 && d < 0.0
    ensures x / d <= 0.0
  {
    var q := x / d;
    Quotient(x, d);
    if q > 0.0 {
      MulSign(q, -d);
    }
  }

  /** A leverage of zero counts as one. */
  function Leveraged(stake: real, leverage: real): real {
    if leverage == 0.0 then stake else Times(stake, leverage)
  }

  /** A stake is large enough exactly when its position meets both of the market's minimums with their reserves. */
  lemma MinStakeExactly(l: Limits, price: real, stoploss: real, reservePercent: real, leverage: real, stake: real)
    requires leverage >= 0.0
    ensures var least := MinPairStake(l, price, stoploss, reservePercent, leverage);
      && (least.None? <==> l.cost.None? && l.amount.None?)
      && (least.Some? ==>
            (stake >= least.value <==>
               && (l.cost.Some? ==>
                     Leveraged(stake, leverage) >= Times(l.cost.value, StoplossReserve(1.0 + reservePercent, stoploss)))
               && (l.amount.Some? ==>
                     Leveraged(stake, leverage) >= Times(Times(l.amount.value, price), 1.0 + reservePercent))))
  {
    var reserve := 1.0 + reservePercent;
    var costs, amounts := CostLimit(l, StoplossReserve(reserve, stoploss)), AmountLimit(l, price, reserve);
    if costs + amounts != [] {
      Reaches(Greatest(costs + amounts), Effective(leverage), stake);
      AtLeastGreatest(costs, amounts, Times(stake, Effective(leverage)));
    }
  }

  lemma AtLeastGreatest(costs: seq<real>, amounts: seq<real>, bound: real)
    requires costs + amounts != []
    ensures bound >= Greatest(costs + amounts)
      <==> (forall x :: x in costs ==> bound >= x) && (forall x :: x in amounts ==> bound >= x)
  {
    forall x
      ensures x in costs + amounts <==> x in costs || x in amounts
    {
    }
  }

  /** A stake is small enough exactly when its position is within the market's maximums and the tiers' limit. */
  lemma MaxStakeExactly(l: Limits, price: real, tiers: seq<Tier>, leverage: real, stake: real)
    requires leverage >= 0.0
    ensures var greatest, cap := MaxPairStake(l, price, tiers, leverage), MaxNotional(tiers, leverage).GetOr(0.0);
      && (greatest.None? <==> l.cost.None? && l.amount.None? && cap == 0.0)
      && (greatest.Some? ==>
            (stake <= greatest.value <==>
               && (cap != 0.0 ==> Leveraged(stake, leverage) <= cap)
               && (l.cost.Some? ==> Leveraged(stake, leverage) <= l.cost.value)
               && (l.amount.Some? ==> Leveraged(stake, leverage) <= Times(l.amount.value, price))))
  {
    var cap := MaxNotional(tiers, leverage);
    var caps := if cap.Some? && cap.value != 0.0 then [cap.value] else [];
    var limits := caps + CostLimit(l, 1.0) + AmountLimit(l, price, 1.0);
    PlainLimits(l, price);
    if limits != [] {
      Reaches(Least(limits), Effective(leverage), stake);
      AtMostLeast(limits, Times(stake, Effective(leverage)));
      forall x
        ensures x in limits <==> x in caps || x in CostLimit(l, 1.0) || x in AmountLimit(l, price, 1.0)
      {
      }
    }
  }

  /**
    With a leverage up to the maximum for the stake, the tiers never cut the stake: it is allowed
    exactly when the market's own maximums allow the position.
   */
  lemma TiersNeverCutTheStake(l: Limits, price: real, tiers: seq<Tier>, stake: real, leverage: real)
    requires Graded(tiers) && stake > 0.0 && leverage > 0.0
    requires MaxLeverage(tiers, stake).Ok? && leverage <= MaxLeverage(tiers, stake).value
    ensures var greatest := MaxPairStake(l, price, tiers, leverage);
      && greatest.Some?
      && (stake <= greatest.value <==>
            (l.cost.Some? ==> Times(stake, leverage) <= l.cost.value)
            && (l.amount.Some? ==> Times(stake, leverage) <= Times(l.amount.value, price)))
  {
    LeverageKeepsStakeWithinCap(tiers, stake, leverage);
    MulSign(stake, leverage);
    var cap := MaxNotional(tiers, leverage).value;
    assert Times(stake, leverage) <= cap;
    assert MaxLimits(l, price, Some(cap)) == [cap] + CostLimit(l, 1.0) + AmountLimit(l, price, 1.0);
    Reaches(Least(MaxLimits(l, price, Some(cap))), leverage, stake);
    WithinLeast(cap, CostLimit(l, 1.0), AmountLimit(l, price, 1.0), Times(stake, leverage));
    PlainLimits(l, price);
  }

  lemma PlainLimits(l: Limits, price: real)
    ensures l.cost.Some? ==> CostLimit(l, 1.0) == [l.cost.value]
    ensures l.amount.Some? ==> AmountLimit(l, price, 1.0) == [Times(l.amount.value, price)]
  {
  }

  lemma WithinLeast(cap: real, costs: seq<real>, amounts: seq<real>, notional: real)
    requires notional <= cap
    ensures notional <= Least([cap] + costs + amounts) <==>
      (forall x :: x in costs ==> notional <= x) && (forall x :: x in amounts ==> notional <= x)
  {
    var all := [cap] + costs + amounts;
    AtMostLeast(all, notional);
    forall x
      ensures x in all <==> x == cap || x in costs || x in amounts
    {
    }
  }

  lemma AtMostLeast(xs: seq<real>, bound: real)
    requires xs != []
    ensures bound <= Least(xs) <==> forall x :: x in xs ==> bound <= x
  {
  }
}
