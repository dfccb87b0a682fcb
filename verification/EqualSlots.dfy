/**
  Unlimited stakes: with nothing else in the way, filling all slots divides the tradable capital into
  equal parts and uses up all of it.
 */
module EqualSlots {
  import opened Reals
  import opened Results
  import opened Wallets
  import opened Entries
  import opened Solvency

  function Share(c: Config, equity: real, n: nat): real
    requires n > 0
  {
    c.ratio * equity / n as real
  }

  /** A signal that leads to a trade at the proposed stake, with limits that do not bind. */
  predicate Plain(s: Signal, share: real) {
    && s.enter && !s.locked && s.depthAccepted && s.price != 0.0 && s.customStake.None? && s.confirmed && s.accepted
    && (s.minStake.Some? ==> s.minStake.value <= share) && s.maxStake >= share
  }

  ghost predicate Slotted(c: Config, n: nat) {
    && ValidConfig(c) && n > 0 && c.stake == UnlimitedStake && c.maxOpen == AtMost(n)
    && (c.amendLast ==> c.lastMinRatio < 1.0)
  }

  /** `k` of the `n` slots are taken, each by one share. */
  ghost predicate SharesTaken(c: Config, trades: seq<Trade>, n: nat, k: nat)
    requires n > 0
  {
    && k <= n && OpenTrades(trades) == k && Equity(c, trades) > 0.0
    && Tied(trades) == k as real * Share(c, Equity(c, trades), n)
  }

  lemma ShareFacts(ratio: real, equity: real, n: nat, k: nat, share: real, tied: real)
    requires 0.0 < ratio <= 1.0 && equity > 0.0 && n > 0 && k <= n
    requires share == ratio * equity / n as real && tied == k as real * share
    ensures share > 0.0
    ensures var available := Available(ratio, tied, equity - tied);
      && available == (n - k) as real * share
      && (available + tied) / n as real == share
      && (k < n ==> available >= share)
  {
    Quotient(ratio * equity, n as real);
    MulSign(ratio, equity);
    QuotientAtMost(ratio * equity, n as real, 0.0);
    MulMonotone(ratio, 1.0, equity);
    Distribute((n - k) as real, k as real, share);
    assert (n - k) as real + k as real == n as real;
    assert (tied + (equity - tied)) * ratio == ratio * equity;
    if k < n {
      MulMonotone(1.0, (n - k) as real, share);
    }
  }

  /** The next stake is one share. */
  lemma NextStakeIsOneShare(c: Config, trades: seq<Trade>, n: nat, k: nat, s: Signal)
    requires Slotted(c, n) && SharesTaken(c, trades, n, k) && k < n
    requires Plain(s, Share(c, Equity(c, trades), n))
    ensures EntryStake(c, trades, s) == Ok(Share(c, Equity(c, trades), n))
    ensures Share(c, Equity(c, trades), n) > 0.0
  {
    var share, tied := Share(c, Equity(c, trades), n), Tied(trades);
    var free := Equity(c, trades) - tied;
    ShareIsProposed(c, Equity(c, trades), n, k, share, tied, free);
    AcceptedStake(s, share, Available(c.ratio, tied, free));
    StakeOfPlainSignal(c, trades, s, share);
  }

  lemma ShareIsProposed(c: Config, equity: real, n: nat, k: nat, share: real, tied: real, free: real)
    requires Slotted(c, n) && k < n && equity > 0.0 && free == equity - tied
    requires share == c.ratio * equity / n as real && tied == k as real * share
    ensures TradeStake(c, tied, free) == Ok(share) && 0.0 < share <= Available(c.ratio, tied, free)
  {
    ShareFacts(c.ratio, equity, n, k, share, tied);
    ProposedStake(c, n, tied, free, share);
  }

  lemma StakeOfPlainSignal(c: Config, trades: seq<Trade>, s: Signal, share: real)
    requires Plain(s, share) && HasFreeSlot(c, trades)
    requires var free := Equity(c, trades) - Tied(trades);
      && TradeStake(c, Tied(trades), free) == Ok(share)
      && Validated(Some(share), s.minStake, s.maxStake, Available(c.ratio, Tied(trades), free), None) == share
    ensures EntryStake(c, trades, s) == Ok(share)
  {
  }

  lemma ProposedStake(c: Config, n: nat, tied: real, free: real, share: real)
    requires Slotted(c, n) && share > 0.0
    requires var available := Available(c.ratio, tied, free);
      (available + tied) / n as real == share && available >= share
    ensures TradeStake(c, tied, free) == Ok(share)
  {
    var available := Available(c.ratio, tied, free);
    assert UnlimitedShare(available, tied, c.maxOpen) == share;
    AmendedStake(c, share, available);
  }

  lemma AmendedStake(c: Config, share: real, available: real)
    requires (c.amendLast ==> c.lastMinRatio < 1.0) && 0.0 < share <= available
    ensures CheckAvailable(c, share, available) == Ok(share)
  {
    if c.amendLast {
      MulStrict(c.lastMinRatio, 1.0, share);
      assert LeastAmended(c, share) < share;
    }
  }

  lemma AcceptedStake(s: Signal, share: real, available: real)
    requires Plain(s, share) && 0.0 < share <= available
    ensures Validated(Some(share), s.minStake, s.maxStake, available, None) == share
  {
  }

  lemma TakeOneShare(c: Config, trades: seq<Trade>, n: nat, k: nat, t: Trade)
    requires n > 0 && SharesTaken(c, trades, n, k) && k < n
    requires t.isOpen && t.realized == 0.0 && t.stake == Share(c, Equity(c, trades), n)
    ensures SharesTaken(c, trades + [t], n, k + 1) && Equity(c, trades + [t]) == Equity(c, trades)
  {
    SumOfAppended(OpenStake, trades, t);
    SumOfAppended(ProfitSoFar, trades, t);
    OpenTradesOfAppended(trades, t);
    Distribute(k as real, 1.0, t.stake);
    assert (k + 1) as real == k as real + 1.0;
  }

  /** `end` is `trades` with one open trade more for each of `pairs`, every one of the same stake. */
  predicate OpenedEqually(trades: seq<Trade>, end: seq<Trade>, pairs: seq<string>, stake: real) {
    && |end| == |trades| + |pairs| && trades == end[..|trades|]
    && forall i :: 0 <= i < |pairs| ==> IsOpened(end[|trades| + i], pairs[i], stake)
  }

  predicate IsOpened(t: Trade, pair: string, stake: real) {
    t.isOpen && t.stake == stake && t.pair == pair
  }

  lemma OpenedOneMore(trades: seq<Trade>, t: Trade, end: seq<Trade>, pairs: seq<string>, stake: real)
    requires pairs != [] && t.isOpen && t.stake == stake && t.pair == pairs[0]
    requires OpenedEqually(trades + [t], end, pairs[1..], stake)
    ensures OpenedEqually(trades, end, pairs, stake)
  {
    var more := trades + [t];
    assert more == end[..|more|] && more[|trades|] == t;
    assert end[..|trades|] == more[..|trades|];
    forall i | 0 <= i < |pairs|
      ensures IsOpened(end[|trades| + i], pairs[i], stake)
    {
      if i == 0 {
        assert end[|trades|] == more[|trades|];
      } else {
        assert IsOpened(end[|more| + (i - 1)], pairs[1..][i - 1], stake);
      }
    }
  }

  /**
    Filling the remaining slots gives every new trade exactly one share, tradable capital divided by
    slots, and afterwards exactly nothing is available.
   */
  lemma {:induction false} SlotsAreEqual(c: Config, trades: seq<Trade>, n: nat, k: nat, pairs: seq<string>,
                                         signals: nat -> Signal, m: nat)
    requires Slotted(c, n) && SharesTaken(c, trades, n, k) && |pairs| == n - k
    requires forall a :: Plain(signals(a), Share(c, Equity(c, trades), n))
    ensures var end := AfterEntries(c, trades, pairs, signals, m);
      && OpenedEqually(trades, end, pairs, Share(c, Equity(c, trades), n))
      && Equity(c, end) == Equity(c, trades)
      && Available(c.ratio, Tied(end), StakeWallet(c, end).free) == 0.0
    decreases pairs
  {
    var share := Share(c, Equity(c, trades), n);
    if pairs == [] {
      NothingIsLeft(c, trades, n);
      assert AfterEntries(c, trades, pairs, signals, m) == trades && OpenedEqually(trades, trades, pairs, share);
    } else {
      var t := OpensOneShare(c, trades, n, k, pairs[0], signals(m));
      SlotsAreEqual(c, trades + [t], n, k + 1, pairs[1..], signals, m + 1);
      OpenedOneMore(trades, t, AfterEntries(c, trades, pairs, signals, m), pairs, share);
    }
  }

  lemma NothingIsLeft(c: Config, trades: seq<Trade>, n: nat)
    requires Slotted(c, n) && SharesTaken(c, trades, n, n)
    ensures Available(c.ratio, Tied(trades), StakeWallet(c, trades).free) == 0.0
  {
    ShareFacts(c.ratio, Equity(c, trades), n, n, Share(c, Equity(c, trades), n), Tied(trades));
  }

  lemma OpensOneShare(c: Config, trades: seq<Trade>, n: nat, k: nat, pair: string, s: Signal) returns (t: Trade)
    requires Slotted(c, n) && SharesTaken(c, trades, n, k) && k < n
    requires Plain(s, Share(c, Equity(c, trades), n))
    ensures AfterEntry(c, trades, pair, s) == trades + [t]
    ensures t.isOpen && t.pair == pair && t.stake == Share(c, Equity(c, trades), n)
    ensures SharesTaken(c, trades + [t], n, k + 1) && Equity(c, trades + [t]) == Equity(c, trades)
  {
    NextStakeIsOneShare(c, trades, n, k, s);
    t := NewTrade(pair, Share(c, Equity(c, trades), n), s);
    TakeOneShare(c, trades, n, k, t);
  }
}
