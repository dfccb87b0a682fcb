/**
  Leverage tiers of a futures market: the scan for the highest leverage a stake may use
  (`Exchange.get_max_leverage`), the largest position a leverage allows (`_get_max_notional_from_tiers`),
  and the maintenance margin of a position (`get_maintenance_ratio_and_amt`).
 */
module LeverageTiers {
  import opened Reals
  import opened Results

  datatype Tier = Tier(minNotional: real, maxNotional: real, maxLeverage: real,
                       maintenanceRate: real, maintenanceAmount: Option<real>)
  datatype TierError = NoTiers | StakeTooHigh | LoopedThroughAllTiers | NegativeNotional

  predicate Positive(tiers: seq<Tier>) {
    forall i :: 0 <= i < |tiers| ==> tiers[i].maxLeverage > 0.0
  }

  function MaxStake(tier: Tier): real
    requires tier.maxLeverage != 0.0
  {
    tier.maxNotional / tier.maxLeverage
  }

  /** The simplified scan: the first tier whose largest stake covers `stake`. */
  function FirstFitting(tiers: seq<Tier>, stake: real): (i: nat)
    requires Positive(tiers)
    ensures i <= |tiers|
    ensures i < |tiers| ==> stake <= MaxStake(tiers[i])
    ensures forall k :: 0 <= k < i ==> stake > MaxStake(tiers[k])
  {
    if tiers == [] then 0
    else if stake <= MaxStake(tiers[0]) then 0
    else 1 + FirstFitting(tiers[1..], stake)
  }

  function MaxLeverage(tiers: seq<Tier>, stake: real): Result<real, TierError>
    requires Positive(tiers)
  {
    if tiers == [] then Err(NoTiers)
    else if stake == 0.0 then Ok(tiers[0].maxLeverage)
    else
      var i := FirstFitting(tiers, stake);
      if i < |tiers| then Ok(tiers[i].maxLeverage) else Err(StakeTooHigh)
  }

  /**
    The scan as the source runs it, with the lower bound of each tier measured at the leverage of the
    tier before, a fallback into gaps between tiers, and a final error that is never reached.
   */
  method GetMaxLeverage(tiers: seq<Tier>, stake: real) returns (r: Result<real, TierError>)
    requires Positive(tiers)
    ensures r == MaxLeverage(tiers, stake)
    ensures r != Err(LoopedThroughAllTiers)
  {
    if tiers == [] {
      return Err(NoTiers);
    }
    if stake == 0.0 {
      return Ok(tiers[0].maxLeverage);
    }
    var priorMaxLeverage: Option<real> := None;
    var maxStake := 0.0;
    var i := 0;
    while i < |tiers|
      invariant 0 <= i <= |tiers|
      invariant priorMaxLeverage.Some? ==> priorMaxLeverage.value > 0.0
      invariant forall k :: 0 <= k < i ==> stake > MaxStake(tiers[k])
      invariant i > 0 ==> maxStake == MaxStake(tiers[i - 1])
    {
      var tier := tiers[i];
      var minStake := tier.minNotional / priorMaxLeverage.GetOr(tier.maxLeverage);
      maxStake := tier.maxNotional / tier.maxLeverage;
      priorMaxLeverage := Some(tier.maxLeverage);
      if minStake <= stake <= maxStake {
        return Ok(tier.maxLeverage);
      }
      if stake < minStake && stake <= maxStake {
        return Ok(tier.maxLeverage);
      }
      i := i + 1;
    }
    if stake > maxStake {
      return Err(StakeTooHigh);
    }
    r := Err(LoopedThroughAllTiers);
  }

  /** The last tier that allows `leverage`, searched from the end; -1 if none does. */
  function LastAllowing(tiers: seq<Tier>, leverage: real): (i: int)
    ensures -1 <= i < |tiers|
    ensures 0 <= i ==> leverage <= tiers[i].maxLeverage
    ensures forall k :: i < k < |tiers| ==> leverage > tiers[k].maxLeverage
  {
    if tiers == [] then -1
    else if leverage <= tiers[|tiers| - 1].maxLeverage then |tiers| - 1
    else LastAllowing(tiers[..|tiers| - 1], leverage)
  }

  function MaxNotional(tiers: seq<Tier>, leverage: real): Option<real> {
    var i := LastAllowing(tiers, leverage);
    if i < 0 then None else Some(tiers[i].maxNotional)
  }

  method GetMaxNotionalFromTiers(tiers: seq<Tier>, leverage: real) returns (r: Option<real>)
    ensures r == MaxNotional(tiers, leverage)
  {
    var i := |tiers|;
    while i > 0
      invariant 0 <= i <= |tiers|
      invariant LastAllowing(tiers[..i], leverage) == LastAllowing(tiers, leverage)
    {
      i := i - 1;
      assert tiers[..i + 1][..i] == tiers[..i];
      if leverage <= tiers[i].maxLeverage {
        return Some(tiers[i].maxNotional);
      }
    }
    r := None;
  }

  /** Higher tiers allow larger positions at lower leverage. */
  predicate Graded(tiers: seq<Tier>) {
    && Positive(tiers)
    && (forall i, j :: 0 <= i < j < |tiers| ==> tiers[i].maxLeverage > tiers[j].maxLeverage)
    && (forall i, j :: 0 <= i < j < |tiers| ==> tiers[i].maxNotional <= tiers[j].maxNotional)
  }

  /**
    The two scans agree: a stake used with any leverage up to the maximum for it stays within the
    position limit of that leverage, so the stake never has to be cut because of its leverage.
   */
  lemma LeverageKeepsStakeWithinCap(tiers: seq<Tier>, stake: real, leverage: real)
    requires Graded(tiers) && stake > 0.0 && leverage > 0.0
    requires MaxLeverage(tiers, stake).Ok? && leverage <= MaxLeverage(tiers, stake).value
    ensures MaxNotional(tiers, leverage).Some?
    ensures stake * leverage <= MaxNotional(tiers, leverage).value
    ensures stake <= MaxNotional(tiers, leverage).value / leverage
  {
    var i, j := FirstFitting(tiers, stake), LastAllowing(tiers, leverage);
    assert i <= j;
    CapCovers(tiers[i], tiers[j], stake, leverage);
  }

  lemma CapCovers(fitting: Tier, allowing: Tier, stake: real, leverage: real)
    requires stake > 0.0 && 0.0 < leverage <= fitting.maxLeverage && stake <= MaxStake(fitting)
    requires fitting.maxNotional <= allowing.maxNotional
    ensures stake * leverage <= allowing.maxNotional
    ensures stake <= allowing.maxNotional / leverage
  {
    QuotientAtMost(fitting.maxNotional, fitting.maxLeverage, stake);
    MulMonotone(leverage, fitting.maxLeverage, stake);
    QuotientAtMost(allowing.maxNotional, leverage, stake);
  }

  /** With positive limits, larger tiers also hold larger stakes. */
  lemma StakesAreGraded(tiers: seq<Tier>, i: nat, j: nat)
    requires Graded(tiers) && i <= j < |tiers| && tiers[i].maxNotional >= 0.0
    ensures MaxStake(tiers[i]) <= MaxStake(tiers[j])
  {
    if i < j {
      GradedPair(tiers[i], tiers[j]);
    }
  }

  lemma GradedPair(a: Tier, b: Tier)
    requires 0.0 < b.maxLeverage <= a.maxLeverage && 0.0 <= a.maxNotional <= b.maxNotional
    ensures MaxStake(a) <= MaxStake(b)
  {
    var s := MaxStake(a);
    Quotient(a.maxNotional, a.maxLeverage);
    QuotientAtMost(a.maxNotional, a.maxLeverage, 0.0);
    MulMonotone(b.maxLeverage, a.maxLeverage, s);
    QuotientAtMost(b.maxNotional, b.maxLeverage, s);
  }

  /**
    The result is the best of the tiers' leverages: a tier's own leverage keeps the stake within its
    position limit exactly when it is not above the result; if there is no result, no tier's does.
   */
  lemma MaxLeverageIsBest(tiers: seq<Tier>, stake: real, k: nat)
    requires Graded(tiers) && stake > 0.0 && k < |tiers| && tiers[0].maxNotional >= 0.0
    ensures var best, own := MaxLeverage(tiers, stake), tiers[k].maxLeverage;
      && MaxNotional(tiers, own) == Some(tiers[k].maxNotional)
      && (stake <= tiers[k].maxNotional / own <==> best.Ok? && own <= best.value)
  {
    TiersThatFit(tiers, stake, k);
    OwnLimit(tiers, k);
    var i := FirstFitting(tiers, stake);
    if i < |tiers| {
      assert tiers[k].maxLeverage <= tiers[i].maxLeverage <==> i <= k;
    }
  }

  lemma TiersThatFit(tiers: seq<Tier>, stake: real, k: nat)
    requires Graded(tiers) && k < |tiers| && tiers[0].maxNotional >= 0.0
    ensures stake <= MaxStake(tiers[k]) <==> FirstFitting(tiers, stake) <= k
  {
    var i := FirstFitting(tiers, stake);
    if i <= k {
      StakesAreGraded(tiers, i, k);
    }
  }

  lemma OwnLimit(tiers: seq<Tier>, k: nat)
    requires Graded(tiers) && k < |tiers|
    ensures MaxNotional(tiers, tiers[k].maxLeverage) == Some(tiers[k].maxNotional)
  {
    assert LastAllowing(tiers, tiers[k].maxLeverage) == k;
  }

  /** A larger stake never gets a higher leverage. */
  lemma LargerStakeNeverMoreLeverage(tiers: seq<Tier>, small: real, large: real)
    requires Graded(tiers) && 0.0 < small <= large && MaxLeverage(tiers, large).Ok?
    ensures MaxLeverage(tiers, small).Ok?
    ensures MaxLeverage(tiers, large).value <= MaxLeverage(tiers, small).value
  {
    var i, j := FirstFitting(tiers, small), FirstFitting(tiers, large);
    assert i <= j;
  }

  // ---------- Maintenance margin ----------

  function LastReached(tiers: seq<Tier>, notional: real): (i: int)
    ensures -1 <= i < |tiers|
    ensures 0 <= i ==> notional >= tiers[i].minNotional
    ensures forall k :: i < k < |tiers| ==> notional < tiers[k].minNotional
  {
    if tiers == [] then -1
    else if notional >= tiers[|tiers| - 1].minNotional then |tiers| - 1
    else LastReached(tiers[..|tiers| - 1], notional)
  }

  function Maintenance(tiers: seq<Tier>, notional: real): Result<(real, Option<real>), TierError> {
    var i := LastReached(tiers, notional);
    if i < 0 then Err(NegativeNotional) else Ok((tiers[i].maintenanceRate, tiers[i].maintenanceAmount))
  }

  method GetMaintenanceRatioAndAmt(tiers: seq<Tier>, notional: real)
    returns (r: Result<(real, Option<real>), TierError>)
    ensures r == Maintenance(tiers, notional)
  {
    var i := |tiers|;
    while i > 0
      invariant 0 <= i <= |tiers|
      invariant LastReached(tiers[..i], notional) == LastReached(tiers, notional)
    {
      i := i - 1;
      assert tiers[..i + 1][..i] == tiers[..i];
      if notional >= tiers[i].minNotional {
        return Ok((tiers[i].maintenanceRate, tiers[i].maintenanceAmount));
      }
    }
    r := Err(NegativeNotional);
  }

  /** Tiers that start at zero and each begin where the one before ends. */
  predicate Contiguous(tiers: seq<Tier>) {
    && tiers != [] && tiers[0].minNotional == 0.0
    && (forall i :: 0 < i < |tiers| ==> tiers[i].minNotional == tiers[i - 1].maxNotional)
    && (forall i :: 0 <= i < |tiers| ==> tiers[i].minNotional < tiers[i].maxNotional)
  }

  lemma {:induction false} MinNotionalsAreNonNegative(tiers: seq<Tier>, i: nat)
    requires Contiguous(tiers) && i < |tiers|
    ensures tiers[i].minNotional >= 0.0
  {
    if i > 0 {
      MinNotionalsAreNonNegative(tiers, i - 1);
    }
  }

  /** A position's margin is found, in the one tier that contains its notional, exactly from zero on. */
  lemma MaintenanceFindsTheTier(tiers: seq<Tier>, notional: real)
    requires Contiguous(tiers)
    ensures Maintenance(tiers, notional).Ok? <==> notional >= 0.0
    ensures var i := LastReached(tiers, notional);
      0 <= i ==> tiers[i].minNotional <= notional && (i < |tiers| - 1 ==> notional < tiers[i].maxNotional)
  {
    var i := LastReached(tiers, notional);
    if 0 <= i {
      MinNotionalsAreNonNegative(tiers, i);
    }
  }
}
