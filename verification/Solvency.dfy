/**
  What the capital rules guarantee over whole runs: the bot never stakes more than the tradable part of
  its capital, never has a negative balance, never exceeds its slots, and never trades a pair twice.
 */
module Solvency {
  import opened Reals
  import opened Results
  import opened Wallets
  import opened Entries

  ghost predicate ValidConfig(c: Config) {
    && 0.0 < c.ratio <= 1.0
    && Funds(c) >= 0.0
    && (c.stake.FixedStake? ==> c.stake.amount >= 0.0)
  }

  predicate DistinctOpenPairs(trades: seq<Trade>) {
    forall i, j :: 0 <= i < j < |trades| && trades[i].isOpen && trades[j].isOpen ==> trades[i].pair != trades[j].pair
  }

  predicate StakesAreNonNegative(trades: seq<Trade>) {
    forall i :: 0 <= i < |trades| && trades[i].isOpen ==> trades[i].stake >= 0.0
  }

  predicate WithinSlots(c: Config, trades: seq<Trade>) {
    c.maxOpen.AtMost? ==> OpenTrades(trades) <= c.maxOpen.n
  }

  function Part(ratio: real, equity: real): real { ratio * equity }

  /** The tradable part of everything the bot owns. */
  ghost function Tradable(c: Config, trades: seq<Trade>): real { Part(c.ratio, Equity(c, trades)) }

  ghost predicate Solvent(c: Config, trades: seq<Trade>) {
    && StakesAreNonNegative(trades) && Tied(trades) <= Tradable(c, trades)
    && WithinSlots(c, trades) && DistinctOpenPairs(trades)
  }

  // ---------- One balance ----------

  lemma {:induction false} TiedIsNonNegative(trades: seq<Trade>)
    requires StakesAreNonNegative(trades)
    ensures Tied(trades) >= 0.0
  {
    if trades != [] {
      assert forall i :: 0 <= i < |trades[1..]| ==> trades[1..][i] == trades[i + 1];
      TiedIsNonNegative(trades[1..]);
    }
  }

  /** A solvent bot keeps at least the untradable part of its capital free. */
  lemma SolventBalances(c: Config, trades: seq<Trade>)
    requires ValidConfig(c) && Solvent(c, trades)
    ensures var equity, free := Equity(c, trades), StakeWallet(c, trades).free;
      && 0.0 <= Tied(trades) <= Tradable(c, trades) <= equity
      && free >= equity - Tradable(c, trades) >= 0.0
      && Available(c.ratio, Tied(trades), free) == Tradable(c, trades) - Tied(trades)
  {
    TiedIsNonNegative(trades);
    RatioOfEquity(c.ratio, Equity(c, trades), Tied(trades));
  }

  lemma RatioOfEquity(ratio: real, equity: real, tied: real)
    requires 0.0 < ratio <= 1.0 && 0.0 <= tied <= Part(ratio, equity)
    ensures 0.0 <= Part(ratio, equity) <= equity
    ensures Available(ratio, tied, equity - tied) == Part(ratio, equity) - tied
  {
    if equity < 0.0 {
      MulSign(ratio, -equity);
    }
    MulMonotone(ratio, 1.0, equity);
    assert (tied + (equity - tied)) * ratio == Part(ratio, equity);
  }

  // ---------- Entries ----------

  /** What is asked of the outside world: limits are not negative, and a stake of the strategy's own that
      the exchange does not bound from below is not negative either. */
  predicate Sane(s: Signal) {
    && s.maxStake >= 0.0
    && (s.minStake.Some? ==> s.minStake.value >= 0.0)
    && (s.minStake.None? && s.customStake.Some? ==> s.customStake.value >= 0.0)
  }

  lemma EntryStakeIsCovered(c: Config, trades: seq<Trade>, s: Signal)
    requires ValidConfig(c) && Solvent(c, trades) && Sane(s) && EntryStake(c, trades, s).Ok?
    ensures var stake := EntryStake(c, trades, s).value;
      && 0.0 <= stake <= Tradable(c, trades) - Tied(trades)
      && (stake != 0.0 ==> HasFreeSlot(c, trades))
  {
    SolventBalances(c, trades);
    var free := Equity(c, trades) - Tied(trades);
    var available := Available(c.ratio, Tied(trades), free);
    var stake := TradeStake(c, Tied(trades), free);
    if stake.Ok? {
      ValidatedExactly(Some(s.customStake.GetOr(stake.value)), s.minStake, s.maxStake, available, None);
    }
  }

  lemma {:induction false} OpenTradesOfAppended(trades: seq<Trade>, t: Trade)
    ensures OpenTrades(trades + [t]) == OpenTrades(trades) + if t.isOpen then 1 else 0
  {
    if trades == [] {
      assert [t][1..] == [];
    } else {
      assert (trades + [t])[1..] == trades[1..] + [t];
      OpenTradesOfAppended(trades[1..], t);
    }
  }

  lemma {:induction false} OpenTradesOfUpdated(trades: seq<Trade>, i: nat, t: Trade)
    requires i < |trades| && trades[i].isOpen
    ensures OpenTrades(trades[i := t]) == OpenTrades(trades) - if t.isOpen then 0 else 1
  {
    if i > 0 {
      assert trades[i := t][1..] == trades[1..][i - 1 := t];
      OpenTradesOfUpdated(trades[1..], i - 1, t);
    } else {
      assert trades[i := t][1..] == trades[1..];
    }
  }

  predicate IsOpenPair(trades: seq<Trade>, pair: string) {
    exists i :: 0 <= i < |trades| && trades[i].isOpen && trades[i].pair == pair
  }

  lemma AppendKeepsSolvent(c: Config, trades: seq<Trade>, t: Trade)
    requires Solvent(c, trades) && HasFreeSlot(c, trades) && !IsOpenPair(trades, t.pair)
    requires t.isOpen && t.realized == 0.0 && 0.0 <= t.stake <= Tradable(c, trades) - Tied(trades)
    ensures Solvent(c, trades + [t]) && Equity(c, trades + [t]) == Equity(c, trades)
  {
    SumOfAppended(OpenStake, trades, t);
    SumOfAppended(ProfitSoFar, trades, t);
    OpenTradesOfAppended(trades, t);
  }

  lemma EntryKeepsSolvent(c: Config, trades: seq<Trade>, pair: string, s: Signal)
    requires ValidConfig(c) && Solvent(c, trades) && Sane(s) && !IsOpenPair(trades, pair)
    ensures var next := AfterEntry(c, trades, pair, s);
      Solvent(c, next) && forall p :: IsOpenPair(next, p) ==> IsOpenPair(trades, p) || p == pair
  {
    if EntryStake(c, trades, s).Ok? && EntryStake(c, trades, s).value != 0.0 {
      EntryStakeIsCovered(c, trades, s);
      AppendKeepsSolvent(c, trades, NewTrade(pair, EntryStake(c, trades, s).value, s));
    }
  }

  predicate Distinct(pairs: seq<string>) {
    forall i, j :: 0 <= i < j < |pairs| ==> pairs[i] != pairs[j]
  }

  lemma {:induction false} EntriesKeepSolvent(c: Config, trades: seq<Trade>, pairs: seq<string>,
                                              signals: nat -> Signal, n: nat)
    requires ValidConfig(c) && Solvent(c, trades) && Distinct(pairs) && forall m :: Sane(signals(m))
    requires forall p :: p in pairs ==> !IsOpenPair(trades, p)
    ensures Solvent(c, AfterEntries(c, trades, pairs, signals, n))
    decreases pairs
  {
    if pairs != [] {
      EntryKeepsSolvent(c, trades, pairs[0], signals(n));
      EntriesKeepSolvent(c, AfterEntry(c, trades, pairs[0], signals(n)), pairs[1..], signals, n + 1);
    }
  }

  lemma {:induction false} RemoveFirstFromDistinct(pairs: seq<string>, pair: string)
    requires Distinct(pairs)
    ensures Distinct(RemoveFirst(pairs, pair))
    ensures forall p :: p in RemoveFirst(pairs, pair) <==> p in pairs && p != pair
  {
    if pairs != [] && pairs[0] != pair {
      RemoveFirstFromDistinct(pairs[1..], pair);
      assert pairs[0] !in RemoveFirst(pairs[1..], pair);
    }
  }

  lemma {:induction false} CandidatesAreNotOpen(whitelist: seq<string>, trades: seq<Trade>)
    requires Distinct(whitelist)
    ensures Distinct(Candidates(whitelist, trades))
    ensures forall p :: p in Candidates(whitelist, trades) <==> p in whitelist && !IsOpenPair(trades, p)
    decreases trades
  {
    if trades != [] {
      RemoveFirstFromDistinct(whitelist, trades[0].pair);
      CandidatesAreNotOpen(if trades[0].isOpen then RemoveFirst(whitelist, trades[0].pair) else whitelist, trades[1..]);
      forall p
        ensures IsOpenPair(trades, p) <==> (trades[0].isOpen && trades[0].pair == p) || IsOpenPair(trades[1..], p)
      {
        OpenPairSplit(trades, p);
      }
    }
  }

  lemma OpenPairSplit(trades: seq<Trade>, p: string)
    requires trades != []
    ensures IsOpenPair(trades, p) <==> (trades[0].isOpen && trades[0].pair == p) || IsOpenPair(trades[1..], p)
  {
    if i :| 0 <= i < |trades[1..]| && trades[1..][i].isOpen && trades[1..][i].pair == p {
      assert trades[i + 1].isOpen && trades[i + 1].pair == p;
    }
    if i :| 0 < i < |trades| && trades[i].isOpen && trades[i].pair == p {
      assert trades[1..][i - 1].isOpen && trades[1..][i - 1].pair == p;
    }
  }

  // ---------- Runs ----------

  /** One thing that happens: a round of entries, or an exit. */
  datatype Action =
    | Enter(whitelist: seq<string>, signals: nat -> Signal, globalLock: bool)
    | Exit(event: Event)

  /** Exits lose at most the stake they give back. */
  predicate BoundedLoss(trades: seq<Trade>, e: Event) {
    match e
    case Open(_, _, _) => false
    case PartialExit(i, stakeBack, _, profit) =>
      Applies(trades, e) && 0.0 <= stakeBack <= trades[i].stake && profit >= -stakeBack
    case Close(i, profit) => Applies(trades, e) && profit >= -trades[i].stake
  }

  ghost predicate Possible(trades: seq<Trade>, a: Action) {
    match a
    case Enter(whitelist, signals, _) => Distinct(whitelist) && forall n :: Sane(signals(n))
    case Exit(e) => BoundedLoss(trades, e)
  }

  ghost function Perform(c: Config, trades: seq<Trade>, a: Action): seq<Trade>
    requires Possible(trades, a)
  {
    match a
    case Enter(whitelist, signals, globalLock) =>
      if globalLock then trades else AfterEntries(c, trades, Candidates(whitelist, trades), signals, 0)
    case Exit(e) => Apply(trades, e)
  }

  /** A round of entries only ever adds trades, and none under a global lock. */
  lemma EntriesOnlyAdd(c: Config, trades: seq<Trade>, a: Action)
    requires Possible(trades, a) && a.Enter?
    ensures trades <= Perform(c, trades, a)
    ensures a.globalLock ==> Perform(c, trades, a) == trades
    ensures !a.globalLock ==>
      Perform(c, trades, a) == AfterEntries(c, trades, Candidates(a.whitelist, trades), a.signals, 0)
  {
    EntriesOnlyAppend(c, trades, Candidates(a.whitelist, trades), a.signals, 0);
  }

  lemma {:induction false} EntriesOnlyAppend(
      c: Config, trades: seq<Trade>, pairs: seq<string>, signals: nat -> Signal, n: nat)
    ensures trades <= AfterEntries(c, trades, pairs, signals, n)
    decreases pairs
  {
    if pairs != [] {
      EntriesOnlyAppend(c, AfterEntry(c, trades, pairs[0], signals(n)), pairs[1..], signals, n + 1);
    }
  }

  lemma ExitKeepsSolvent(c: Config, trades: seq<Trade>, e: Event)
    requires ValidConfig(c) && Solvent(c, trades) && BoundedLoss(trades, e)
    ensures Solvent(c, Apply(trades, e))
  {
    var back := if e.Close? then trades[e.i].stake else e.stakeBack;
    ExitBalances(c, trades, e, back);
    LossIsCovered(c.ratio, Equity(c, trades), Tied(trades), back, e.profit);
    OpenTradesOfUpdated(trades, e.i, Apply(trades, e)[e.i]);
  }

  lemma ExitBalances(c: Config, trades: seq<Trade>, e: Event, back: real)
    requires !e.Open? && Applies(trades, e) && back == if e.Close? then trades[e.i].stake else e.stakeBack
    ensures Tied(Apply(trades, e)) == Tied(trades) - back
    ensures Equity(c, Apply(trades, e)) == Equity(c, trades) + e.profit
  {
    SumOfUpdated(OpenStake, trades, e.i, Apply(trades, e)[e.i]);
    SumOfUpdated(ProfitSoFar, trades, e.i, Apply(trades, e)[e.i]);
  }

  lemma LossIsCovered(ratio: real, equity: real, tied: real, back: real, profit: real)
    requires 0.0 < ratio <= 1.0 && tied <= Part(ratio, equity) && back >= 0.0 && profit >= -back
    ensures tied - back <= Part(ratio, equity + profit)
  {
    PartOfSum(ratio, equity, profit);
    PartOfLoss(ratio, back, profit);
  }

  lemma PartOfSum(ratio: real, a: real, b: real)
    ensures Part(ratio, a + b) == Part(ratio, a) + Part(ratio, b)
  {
    Distribute(a, b, ratio);
  }

  lemma PartOfLoss(ratio: real, back: real, profit: real)
    requires 0.0 < ratio <= 1.0 && back >= 0.0 && profit >= -back
    ensures Part(ratio, profit) >= -back
  {
    MulSign(ratio, profit + back);
    MulSign(1.0 - ratio, back);
    assert Part(ratio, profit) + back == ratio * (profit + back) + (1.0 - ratio) * back;
  }

  ghost predicate AllPossible(c: Config, trades: seq<Trade>, actions: seq<Action>)
    decreases actions
  {
    actions == [] || (Possible(trades, actions[0]) && AllPossible(c, Perform(c, trades, actions[0]), actions[1..]))
  }

  ghost function Run(c: Config, trades: seq<Trade>, actions: seq<Action>): seq<Trade>
    requires AllPossible(c, trades, actions)
    decreases actions
  {
    if actions == [] then trades else Run(c, Perform(c, trades, actions[0]), actions[1..])
  }

  /**
    Over any run of entries and of exits that lose at most their stake, the stakes of open trades never
    exceed the tradable part of the capital, the free balance is never negative, the number of open
    trades stays within its limit, and no pair is traded twice at once.
   */
  lemma {:induction false} EveryRunIsSolvent(c: Config, trades: seq<Trade>, actions: seq<Action>)
    requires ValidConfig(c) && Solvent(c, trades) && AllPossible(c, trades, actions)
    ensures var end := Run(c, trades, actions);
      && Solvent(c, end)
      && WalletsFor(c, end)[c.stakeCurrency].free >= 0.0
    decreases actions
  {
    if actions == [] {
      SolventBalances(c, trades);
    } else {
      match actions[0] {
        case Enter(whitelist, signals, globalLock) =>
          CandidatesAreNotOpen(whitelist, trades);
          EntriesKeepSolvent(c, trades, Candidates(whitelist, trades), signals, 0);
        case Exit(e) => ExitKeepsSolvent(c, trades, e);
      }
      EveryRunIsSolvent(c, Perform(c, trades, actions[0]), actions[1..]);
    }
  }

  /** A bot that has not traded yet is solvent, so every run from the start is. */
  lemma StartIsSolvent(c: Config)
    requires ValidConfig(c)
    ensures Solvent(c, [])
  {
    MulSign(c.ratio, Funds(c));
  }
}
