/**
  Pairs listed more than once: `FreqtradeBot.enter_positions` removes one entry of the whitelist for every open
  trade and then tries what is left, so a repeated pair can be traded twice at once.
 */
module RepeatedPairs {
  import opened Results
  import opened Wallets
  import opened Entries
  import opened Solvency

  function Listed(pairs: seq<string>, pair: string): nat {
    if pairs == [] then 0 else (if pairs[0] == pair then 1 else 0) + Listed(pairs[1..], pair)
  }

  function OpenIn(trades: seq<Trade>, pair: string): nat {
    if trades == [] then 0
    else (if trades[0].isOpen && trades[0].pair == pair then 1 else 0) + OpenIn(trades[1..], pair)
  }

  predicate HasSlots(c: Config, trades: seq<Trade>, k: nat) {
    c.maxOpen.AtMost? ==> OpenTrades(trades) + k <= c.maxOpen.n
  }

  predicate StakeIsFixed(c: Config) {
    c.stake.FixedStake? && !c.amendLast
  }

  /** Are there slots for `k` more trades, and capital left from which to propose a stake `k` times, `k` one or two? */
  ghost predicate CanOpen(c: Config, trades: seq<Trade>, k: nat) {
    var available := Tradable(c, trades) - Tied(trades);
    && HasSlots(c, trades, k) && available > 0.0
    && (StakeIsFixed(c) ==> if k == 1 then available >= c.stake.amount else available > c.stake.amount)
  }

  /** The number of trades that must still be opened before `pair` is traded twice. */
  function Needed(trades: seq<Trade>, pair: string): nat {
    if IsOpenPair(trades, pair) then 1 else 2
  }

  // ---------- The candidates ----------

  lemma {:induction false} ListedAfterRemoval(pairs: seq<string>, pair: string, p: string)
    ensures Listed(RemoveFirst(pairs, pair), p)
      == if p == pair && Listed(pairs, p) > 0 then Listed(pairs, p) - 1 else Listed(pairs, p)
  {
    if pairs != [] && pairs[0] != pair {
      ListedAfterRemoval(pairs[1..], pair, p);
      assert ([pairs[0]] + RemoveFirst(pairs[1..], pair))[1..] == RemoveFirst(pairs[1..], pair);
    }
  }

  lemma {:induction false} ListedCandidates(whitelist: seq<string>, trades: seq<Trade>, p: string)
    ensures var l, n := Listed(whitelist, p), OpenIn(trades, p);
      Listed(Candidates(whitelist, trades), p) == if l >= n then l - n else 0
    decreases trades
  {
    if trades != [] {
      ListedAfterRemoval(whitelist, trades[0].pair, p);
      ListedCandidates(if trades[0].isOpen then RemoveFirst(whitelist, trades[0].pair) else whitelist, trades[1..], p);
    }
  }

  lemma {:induction false} OpenAtMostOnce(trades: seq<Trade>, p: string)
    requires DistinctOpenPairs(trades)
    ensures OpenIn(trades, p) == if IsOpenPair(trades, p) then 1 else 0
  {
    if trades != [] {
      assert forall i :: 0 <= i < |trades[1..]| ==> trades[1..][i] == trades[i + 1];
      OpenAtMostOnce(trades[1..], p);
      OpenPairSplit(trades, p);
    }
  }

  // ---------- A round that opens a pair twice ----------

  function Idle(): Signal {
    Signal(false, false, false, 0.0, 1.0, None, 0.0, None, false, false)
  }

  function Wanting(stake: real): Signal {
    Signal(true, false, true, 1.0, 1.0, None, stake, Some(stake), true, true)
  }

  /** Answers to a round over `pairs` with which only the attempts for `pair` are made, at one stake. */
  function OnlyFor(pairs: seq<string>, pair: string, stake: real): nat -> Signal {
    (n: nat) => if n < |pairs| && pairs[n] == pair then Wanting(stake) else Idle()
  }

  lemma ProposalExactly(c: Config, tied: real, free: real)
    requires Available(c.ratio, tied, free) > 0.0
    ensures TradeStake(c, tied, free).Ok? <==>
      (StakeIsFixed(c) ==> Available(c.ratio, tied, free) >= c.stake.amount)
  {
  }

  lemma WantedStake(c: Config, trades: seq<Trade>, stake: real)
    requires ValidConfig(c) && Solvent(c, trades) && CanOpen(c, trades, 1)
    requires 0.0 < stake <= Tradable(c, trades) - Tied(trades)
    ensures EntryStake(c, trades, Wanting(stake)) == Ok(stake)
  {
    SolventBalances(c, trades);
    var free := Equity(c, trades) - Tied(trades);
    ProposalExactly(c, Tied(trades), free);
    assert Validated(Some(stake), None, stake, Available(c.ratio, Tied(trades), free), None) == stake;
  }

  /** From attempt `n` on, the first one that is made is number `m`. */
  lemma {:induction false} FirstAttempt(c: Config, trades: seq<Trade>, pairs: seq<string>, n: nat, pair: string,
                                        stake: real)
    returns (m: nat)
    requires n <= |pairs| && Listed(pairs[n..], pair) > 0
    ensures m < |pairs| && Listed(pairs[m + 1..], pair) == Listed(pairs[n..], pair) - 1
    ensures var signals := OnlyFor(pairs, pair, stake);
      AfterEntries(c, trades, pairs[n..], signals, n)
        == AfterEntries(c, AfterEntry(c, trades, pair, Wanting(stake)), pairs[m + 1..], signals, m + 1)
    decreases |pairs| - n
  {
    assert pairs[n..][0] == pairs[n] && pairs[n..][1..] == pairs[n + 1..];
    if pairs[n] == pair {
      m := n;
    } else {
      assert AfterEntry(c, trades, pairs[n], Idle()) == trades;
      m := FirstAttempt(c, trades, pairs, n + 1, pair, stake);
    }
  }

  /** One more entry for a pair that is open already: it is traded twice from then on. */
  lemma OpensAgain(c: Config, trades: seq<Trade>, pairs: seq<string>, n: nat, pair: string, stake: real)
    requires ValidConfig(c) && Solvent(c, trades) && CanOpen(c, trades, 1)
    requires IsOpenPair(trades, pair) && n <= |pairs| && Listed(pairs[n..], pair) >= 1
    requires 0.0 < stake <= Tradable(c, trades) - Tied(trades)
    ensures !DistinctOpenPairs(AfterEntries(c, trades, pairs[n..], OnlyFor(pairs, pair, stake), n))
  {
    WantedStake(c, trades, stake);
    var m := FirstAttempt(c, trades, pairs, n, pair, stake);
    var t := NewTrade(pair, stake, Wanting(stake));
    EntriesOnlyAppend(c, trades + [t], pairs[m + 1..], OnlyFor(pairs, pair, stake), m + 1);
    TradedTwice(trades, t, AfterEntries(c, trades + [t], pairs[m + 1..], OnlyFor(pairs, pair, stake), m + 1));
  }

  lemma TradedTwice(trades: seq<Trade>, t: Trade, end: seq<Trade>)
    requires t.isOpen && IsOpenPair(trades, t.pair) && trades + [t] <= end
    ensures !DistinctOpenPairs(end)
  {
    var next := trades + [t];
    var i :| 0 <= i < |trades| && trades[i].isOpen && trades[i].pair == t.pair;
    assert end[i] == next[i] && end[|trades|] == next[|trades|];
  }

  lemma OpensTwice(c: Config, trades: seq<Trade>, pairs: seq<string>, pair: string) returns (stake: real)
    requires ValidConfig(c) && Solvent(c, trades) && CanOpen(c, trades, 2)
    requires !IsOpenPair(trades, pair) && Listed(pairs[0..], pair) >= 2
    ensures stake >= 0.0
    ensures !DistinctOpenPairs(AfterEntries(c, trades, pairs[0..], OnlyFor(pairs, pair, stake), 0))
  {
    SolventBalances(c, trades);
    var available := Tradable(c, trades) - Tied(trades);
    stake := (if StakeIsFixed(c) then available - c.stake.amount else available) / 3.0;
    WantedStake(c, trades, stake);
    var m := FirstAttempt(c, trades, pairs, 0, pair, stake);
    var t := NewTrade(pair, stake, Wanting(stake));
    var next := EntryMovesCapital(c, trades, t);
    assert next[|trades|].isOpen && next[|trades|].pair == pair;
    OpensAgain(c, next, pairs, m + 1, pair, stake);
  }

  lemma EntryMovesCapital(c: Config, trades: seq<Trade>, t: Trade) returns (next: seq<Trade>)
    requires Solvent(c, trades) && HasFreeSlot(c, trades) && !IsOpenPair(trades, t.pair)
    requires t.isOpen && t.realized == 0.0 && 0.0 <= t.stake <= Tradable(c, trades) - Tied(trades)
    ensures next == trades + [t] && Solvent(c, next) && OpenTrades(next) == OpenTrades(trades) + 1
    ensures Tradable(c, next) - Tied(next) == Tradable(c, trades) - Tied(trades) - t.stake
  {
    next := trades + [t];
    AppendKeepsSolvent(c, trades, t);
    SumOfAppended(OpenStake, trades, t);
    OpenTradesOfAppended(trades, t);
  }

  // ---------- Rounds that cannot ----------

  /** Every pair that could be traded twice lacks the slots or the capital for it. */
  ghost predicate Safe(c: Config, trades: seq<Trade>, pairs: seq<string>) {
    forall p :: Listed(pairs, p) >= Needed(trades, p) ==> !CanOpen(c, trades, Needed(trades, p))
  }

  lemma {:induction false} SafeRound(c: Config, trades: seq<Trade>, pairs: seq<string>, signals: nat -> Signal, n: nat)
    requires ValidConfig(c) && Solvent(c, trades) && Safe(c, trades, pairs) && forall m :: Sane(signals(m))
    ensures DistinctOpenPairs(AfterEntries(c, trades, pairs, signals, n))
    decreases pairs
  {
    if pairs != [] {
      var s := signals(n);
      var entry := EntryStake(c, trades, s);
      if entry.Ok? && entry.value != 0.0 {
        SafeEntry(c, trades, pairs, s);
      }
      SafeRound(c, AfterEntry(c, trades, pairs[0], s), pairs[1..], signals, n + 1);
    }
  }

  lemma SafeEntry(c: Config, trades: seq<Trade>, pairs: seq<string>, s: Signal)
    requires ValidConfig(c) && Solvent(c, trades) && pairs != [] && Safe(c, trades, pairs) && Sane(s)
    requires EntryStake(c, trades, s).Ok? && EntryStake(c, trades, s).value != 0.0
    ensures var next := AfterEntry(c, trades, pairs[0], s);
      Solvent(c, next) && Safe(c, next, pairs[1..])
  {
    var stake := EntryStake(c, trades, s).value;
    EntryStakeIsCovered(c, trades, s);
    SolventBalances(c, trades);
    ProposalExactly(c, Tied(trades), Equity(c, trades) - Tied(trades));
    assert CanOpen(c, trades, 1);
    assert Listed(pairs, pairs[0]) >= 1;
    assert !IsOpenPair(trades, pairs[0]);
    var t := NewTrade(pairs[0], stake, s);
    var next := EntryMovesCapital(c, trades, t);
    forall p | Listed(pairs[1..], p) >= Needed(next, p)
      ensures !CanOpen(c, next, Needed(next, p))
    {
      NeededAfter(trades, t, p);
      assert Listed(pairs, p) >= Needed(trades, p);
    }
  }

  lemma NeededAfter(trades: seq<Trade>, t: Trade, p: string)
    requires t.isOpen
    ensures Needed(trades + [t], p) == if p == t.pair then 1 else Needed(trades, p)
  {
    var next := trades + [t];
    assert next[|trades|] == t;
    if IsOpenPair(trades, p) {
      var i :| 0 <= i < |trades| && trades[i].isOpen && trades[i].pair == p;
      assert next[i] == trades[i];
    }
  }

  lemma UnsafeRound(c: Config, trades: seq<Trade>, pairs: seq<string>, p: string) returns (signals: nat -> Signal)
    requires ValidConfig(c) && Solvent(c, trades)
    requires Listed(pairs, p) >= Needed(trades, p) && CanOpen(c, trades, Needed(trades, p))
    ensures forall n :: Sane(signals(n))
    ensures !DistinctOpenPairs(AfterEntries(c, trades, pairs, signals, 0))
  {
    var stake := Tradable(c, trades) - Tied(trades);
    assert pairs[0..] == pairs;
    if IsOpenPair(trades, p) {
      OpensAgain(c, trades, pairs, 0, p, stake);
    } else {
      stake := OpensTwice(c, trades, pairs, p);
    }
    signals := OnlyFor(pairs, p, stake);
    forall n: nat
      ensures Sane(signals(n))
    {
      assert signals(n) == Wanting(stake) || signals(n) == Idle();
    }
  }

  lemma StillListed(trades: seq<Trade>, whitelist: seq<string>, p: string)
    requires DistinctOpenPairs(trades)
    ensures Listed(whitelist, p) >= 2 <==> Listed(Candidates(whitelist, trades), p) >= Needed(trades, p)
  {
    ListedCandidates(whitelist, trades, p);
    OpenAtMostOnce(trades, p);
  }

  /** Can no answers of the strategy and the exchange make the round trade a pair twice at once? */
  ghost predicate NeverTwice(c: Config, trades: seq<Trade>, whitelist: seq<string>) {
    forall signals: nat -> Signal :: (forall n :: Sane(signals(n))) ==>
      DistinctOpenPairs(AfterEntries(c, trades, Candidates(whitelist, trades), signals, 0))
  }

  /**
    Whatever the strategy and the exchange answer to each attempt, a round of entries never trades a pair twice at
    once, exactly when every pair listed twice or more lacks a slot or the capital for the trades
    that are still needed: one if it is open, two if it is not.
   */
  lemma PairsStayDistinctExactly(c: Config, trades: seq<Trade>, whitelist: seq<string>)
    requires ValidConfig(c) && Solvent(c, trades)
    ensures NeverTwice(c, trades, whitelist)
      <==> forall p :: Listed(whitelist, p) >= 2 ==> !CanOpen(c, trades, Needed(trades, p))
  {
    var pairs := Candidates(whitelist, trades);
    if p :| Listed(whitelist, p) >= 2 && CanOpen(c, trades, Needed(trades, p)) {
      StillListed(trades, whitelist, p);
      var signals := UnsafeRound(c, trades, pairs, p);
    } else {
      forall p
        ensures Listed(whitelist, p) >= 2 <==> Listed(pairs, p) >= Needed(trades, p)
      {
        StillListed(trades, whitelist, p);
      }
      forall signals: nat -> Signal | forall n :: Sane(signals(n))
        ensures DistinctOpenPairs(AfterEntries(c, trades, pairs, signals, 0))
      {
        SafeRound(c, trades, pairs, signals, 0);
      }
    }
  }

  /** A whitelist that lists a pair twice, where the pair is opened twice. */
  lemma RepeatedPairIsOpenedTwice(c: Config, pair: string, s: Signal, signals: nat -> Signal)
    requires ValidConfig(c) && c.maxOpen == NoLimit && c.stake == FixedStake(1.0) && !c.amendLast
    requires Funds(c) == 10.0 && c.ratio == 1.0
    requires s == Signal(true, false, true, 1.0, 1.0, None, 100.0, None, true, true) && forall n :: signals(n) == s
    ensures var trades := AfterEntries(c, [], Candidates([pair, pair], []), signals, 0);
      |trades| == 2 && !DistinctOpenPairs(trades)
  {
    var t := NewTrade(pair, 1.0, s);
    assert EntryStake(c, [], s) == Ok(1.0);
    assert AfterEntry(c, [], pair, s) == [t];
    assert [t][1..] == [] && Tied([t]) == 1.0 && Profit([t]) == 0.0;
    assert EntryStake(c, [t], s) == Ok(1.0);
    var both := [t, t];
    assert AfterEntry(c, [t], pair, s) == both;
    assert [pair, pair][1..] == [pair] && [pair][1..] == [];
    assert AfterEntries(c, [t], [pair], signals, 1) == AfterEntries(c, both, [], signals, 2);
    assert AfterEntries(c, [], [pair, pair], signals, 0) == AfterEntries(c, [t], [pair], signals, 1);
    assert both[0].isOpen && both[1].isOpen && both[0].pair == both[1].pair;
  }
}
