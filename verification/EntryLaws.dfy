/**
  What an entry attempt does, in terms of slots, money and the answers of strategy and exchange: when a
  trade is opened, when the attempt fails, and what the trade is worth.
 */
module EntryLaws {
  import opened Reals
  import opened Results
  import opened Wallets
  import opened Entries

  // ---------- Slots ----------

  function OpenOnes(trades: seq<Trade>): set<int> {
    set i | 0 <= i < |trades| && trades[i].isOpen
  }

  lemma OpenOnesOfLast(trades: seq<Trade>)
    requires trades != []
    ensures var last := |trades| - 1;
      && last !in OpenOnes(trades[..last])
      && OpenOnes(trades) == if trades[last].isOpen then OpenOnes(trades[..last]) + {last} else OpenOnes(trades[..last])
  {
  }

  lemma {:induction false} OpenTradesAreCounted(trades: seq<Trade>)
    ensures OpenTrades(trades) == |OpenOnes(trades)|
  {
    if trades != [] {
      OpenTradesAreCounted(trades[..|trades| - 1]);
      OpenTradesOfLast(trades);
      OpenOnesOfLast(trades);
    } else {
      assert OpenOnes(trades) == {};
    }
  }

  lemma {:induction false} OpenTradesOfLast(trades: seq<Trade>)
    requires trades != []
    ensures var last := |trades| - 1;
      OpenTrades(trades) == OpenTrades(trades[..last]) + if trades[last].isOpen then 1 else 0
  {
    var last := |trades| - 1;
    if last > 0 {
      OpenTradesOfLast(trades[1..]);
      assert trades[1..][..last - 1] == trades[..last][1..];
    }
  }

  predicate SlotIsFree(c: Config, trades: seq<Trade>) {
    c.maxOpen.AtMost? ==> |OpenOnes(trades)| < c.maxOpen.n
  }

  // ---------- The proposed stake ----------

  ghost predicate IsLargestAffordable(c: Config, tied: real, free: real, stake: real) {
    forall other :: Affordable(c.ratio, tied, free, other) <==> other <= stake
  }

  /**
    A fixed stake is proposed as it is if it is affordable, and otherwise there is no money, unless the
    last stake may be reduced: then the largest affordable one is proposed if it is more than the
    least fraction allowed, and none if it is not.
   */
  lemma FixedProposalExactly(c: Config, tied: real, free: real)
    requires c.stake.FixedStake? && c.stake.amount > 0.0
    ensures var proposal := TradeStake(c, tied, free);
      if !c.amendLast then
        if Affordable(c.ratio, tied, free, c.stake.amount) then proposal == Ok(c.stake.amount)
        else proposal == Err(NotEnoughFunds)
      else
        forall most :: IsLargestAffordable(c, tied, free, most) ==>
          if most > c.stake.amount * c.lastMinRatio then
            proposal == Ok(Max(0.0, if most < c.stake.amount then most else c.stake.amount))
          else if most < 0.0 then proposal == Err(NotEnoughFunds)
          else proposal == Ok(0.0)
  {
    var available := Available(c.ratio, tied, free);
    AvailableIsLargest(c.ratio, tied, free, available);
    forall most | IsLargestAffordable(c, tied, free, most)
      ensures most == available
    {
      AvailableIsLargest(c.ratio, tied, free, most);
    }
  }

  /**
    An unlimited stake is an equal part of what is tied up and available together, but no more than is
    available. Without a number of slots to divide by it is nothing.
   */
  lemma UnlimitedProposalExactly(c: Config, tied: real, free: real, most: real)
    requires c.stake.UnlimitedStake? && !c.amendLast && most >= 0.0 && tied >= 0.0
    requires IsLargestAffordable(c, tied, free, most)
    ensures var proposal := TradeStake(c, tied, free);
      && proposal.Ok?
      && if c.maxOpen.NoLimit? || c.maxOpen.n == 0 then proposal.value == 0.0
         else if tied + most <= most * c.maxOpen.n as real then proposal.value * c.maxOpen.n as real == tied + most
         else proposal.value == most
  {
    AvailableIsLargest(c.ratio, tied, free, most);
    if c.maxOpen.AtMost? && c.maxOpen.n > 0 {
      var n := c.maxOpen.n as real;
      Quotient(most + tied, n);
      QuotientAtMost(most + tied, n, most);
      QuotientAtMost(most + tied, n, 0.0);
    }
  }

  // ---------- Entries ----------

  /** Everything but money allows an entry: a slot, a signal, no lock, depth, a price, and both confirmations. */
  predicate IsCleared(c: Config, trades: seq<Trade>, s: Signal) {
    && SlotIsFree(c, trades)
    && s.enter && !s.locked && s.depthAccepted && s.price != 0.0 && s.confirmed && s.accepted
  }

  /** A fresh trade of `pair`, whose position is worth its leveraged stake at the price of the entry. */
  predicate IsEntry(t: Trade, pair: string, s: Signal) {
    && t.pair == pair && t.isOpen && t.realized == 0.0 && t.closeProfit == 0.0 && t.pending == []
    && t.stake != 0.0 && t.amount * s.price == t.stake * s.leverage
  }

  /**
    An attempt adds nothing, or one trade of the pair asked for. It adds one only if everything clears
    the entry, and none if the proposed stake or the exchange's limits leave nothing.
   */
  lemma EntryNeedsClearance(c: Config, trades: seq<Trade>, pair: string, s: Signal)
    ensures var next := AfterEntry(c, trades, pair, s);
      next == trades
      || (&& |next| == |trades| + 1 && next[..|trades|] == trades
          && IsCleared(c, trades, s) && IsEntry(next[|trades|], pair, s))
  {
    OpenTradesAreCounted(trades);
    var stake := EntryStake(c, trades, s);
    if stake.Ok? && stake.value != 0.0 {
      AmountIsWorthStake(stake.value, s.price, s.leverage);
    }
  }

  lemma AmountIsWorthStake(stake: real, price: real, leverage: real)
    requires price != 0.0
    ensures (stake / price * leverage) * price == stake * leverage
  {
    var q := stake / price;
    Quotient(stake, price);
    assert (q * leverage) * price == (q * price) * leverage;
  }

  /** A stake is paid for if it is free and keeps all stakes within the tradable part of the capital. */
  ghost predicate IsPaid(c: Config, trades: seq<Trade>, stake: real) {
    stake <= Equity(c, trades) - Tied(trades) && Tied(trades) + stake <= Equity(c, trades) * c.ratio
  }

  /** Is `stake` the strategy's own, or the fixed one where the strategy has none? */
  predicate IsWanted(c: Config, s: Signal, stake: real) {
    if s.customStake.Some? then s.customStake.value == stake else c.stake == FixedStake(stake)
  }

  /** A proposal is made even if the strategy has a stake of its own: a fixed one must be paid, or reduced. */
  ghost predicate HasProposal(c: Config, trades: seq<Trade>) {
    if c.amendLast then c.lastMinRatio < 1.0 else c.stake.FixedStake? ==> IsPaid(c, trades, c.stake.amount)
  }

  /** A wanted stake that is paid for and within the limits is used as it is, if everything clears the entry. */
  lemma WantedStakeIsUsed(c: Config, trades: seq<Trade>, pair: string, s: Signal, stake: real)
    requires stake > 0.0 && IsWanted(c, s, stake) && HasProposal(c, trades)
    requires IsPaid(c, trades, stake) && s.minStake.GetOr(stake) <= stake <= s.maxStake
    ensures var next := AfterEntry(c, trades, pair, s);
      if IsCleared(c, trades, s) then |next| == |trades| + 1 && next[|trades|].stake == stake else next == trades
  {
    EntryNeedsClearance(c, trades, pair, s);
    if IsCleared(c, trades, s) {
      var tied, free := Tied(trades), Equity(c, trades) - Tied(trades);
      OpenTradesAreCounted(trades);
      PaidIsAvailable(c, trades, stake, tied, free);
      WantedIsProposed(c, trades, s, stake, tied, free);
      assert EntryStake(c, trades, s) == Ok(stake);
    }
  }

  lemma PaidIsAvailable(c: Config, trades: seq<Trade>, stake: real, tied: real, free: real)
    requires tied == Tied(trades) && free == Equity(c, trades) - tied
    ensures IsPaid(c, trades, stake) <==> stake <= Available(c.ratio, tied, free)
  {
    assert tied + free == Equity(c, trades);
  }

  lemma WantedIsProposed(c: Config, trades: seq<Trade>, s: Signal, stake: real, tied: real, free: real)
    requires tied == Tied(trades) && free == Equity(c, trades) - tied
    requires stake > 0.0 && IsWanted(c, s, stake) && HasProposal(c, trades) && stake <= Available(c.ratio, tied, free)
    requires s.minStake.GetOr(stake) <= stake <= s.maxStake
    ensures var proposal := TradeStake(c, tied, free);
      proposal.Ok? && (s.customStake.None? ==> proposal.value == stake)
    ensures Validated(Some(stake), s.minStake, s.maxStake, Available(c.ratio, tied, free), None) == stake
  {
    var available := Available(c.ratio, tied, free);
    if c.stake.FixedStake? {
      PaidIsAvailable(c, trades, c.stake.amount, tied, free);
      FixedIsProposed(c, c.stake.amount, available);
    } else {
      assert UnlimitedShare(available, tied, c.maxOpen) <= available;
    }
  }

  lemma FixedIsProposed(c: Config, amount: real, available: real)
    requires available > 0.0 && if c.amendLast then c.lastMinRatio < 1.0 else amount <= available
    ensures CheckAvailable(c, amount, available).Ok?
    ensures 0.0 < amount <= available ==> CheckAvailable(c, amount, available).value == amount
  {
    if c.amendLast && amount > 0.0 {
      MulStrict(c.lastMinRatio, 1.0, amount);
    }
  }

  /** An attempt fails exactly when there is a signal to act on, and no money for it or else no price. */
  lemma EntryFailsExactly(c: Config, trades: seq<Trade>, s: Signal)
    ensures var proposal := TradeStake(c, Tied(trades), Equity(c, trades) - Tied(trades));
      var acts := SlotIsFree(c, trades) && s.enter && !s.locked;
      && (EntryStake(c, trades, s) == Err(NotEnoughFunds) <==> acts && proposal.Err?)
      && (EntryStake(c, trades, s) == Err(NoPrice) <==> acts && proposal.Ok? && s.depthAccepted && s.price == 0.0)
  {
    OpenTradesAreCounted(trades);
  }
}
