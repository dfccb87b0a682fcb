# Verified models of freqtrade's trading core

freqtrade is a trading bot: it reads candles, opens and closes positions, and in dry-run mode simulates an
exchange. This project models the parts of it in which many operations share state or arithmetic, and proves
what they keep, for all inputs and over whole runs. Money, prices and amounts are exact `real` numbers; candle
dates, timestamps and identifiers are integers. The exchange, the strategy and the database are an environment
whose answers are arguments, so every theorem holds for whatever they answer within the stated conditions.

Objects that the program updates in place are classes (`DryOrder`, `DryExchange`, `DataProvider`, `OhlcvCache`,
`StopKeeper`, `Wallets`, `FreqtradeBot`, `Dict`) and its loops are loops. Each such method is proved equal to a function of
the old state, and the theorems are about those functions.

| file | what it models |
|---|---|
| `MarketFill.dfy` | the walk over the order book that prices simulated market orders |
| `DryOrders.dfy` | the simulated orders: creation, filling, fetching, cancelling |
| `Wallets.dfy`, `WalletLaws.dfy` | the dry-run wallet that is rebuilt from the trades, against an incremental ledger; what it holds of each trade, order and currency |
| `Entries.dfy`, `EntryLaws.dfy`, `Solvency.dfy`, `EqualSlots.dfy`, `RepeatedPairs.dfy` | stakes, the entry loop, when an entry is made and what it is worth, what they guarantee over runs, and when a pair is traded twice |
| `ProducerFrames.dfy` | a consumer that rebuilds a producer's candles from messages |
| `CandleFrames.dfy` | grouping, merging and filling of candle frames |
| `CandleCache.dfy`, `CandleHoles.dfy` | when the candle cache is refreshed, how much is asked for, how answers are merged, and how late they may be |
| `CandleGaps.dfy` | the same cache on an exchange that sends no candle where nothing was traded |
| `TradePagination.dfy` | the download of trades page by page, by id |
| `LeverageTiers.dfy`, `StakeLimits.dfy` | leverage tiers, maintenance margin, least and greatest stake |
| `Liquidation.dfy` | simulated liquidation prices of three exchanges and their safety buffer |
| `PriceRounding.dfy`, `TrailingStop.dfy` | directed rounding, and the trailing stop that relies on it |
| `Drawdown.dfy` | one-pass maximum drawdown against its all-pairs definition |
| `TimeRanges.dfy` | printer and parser of time ranges, with the calendar between them |
| `ConfigMerge.dfy`, `InPlaceMerge.dfy` | merging of nested configuration, as a function and in place, and the recursive file loader |
| `Results.dfy`, `Reals.dfy`, `Integers.dfy` | options and results; comparisons; small facts about products and quotients |

## Where the code does not do what one might expect

Each of these is a theorem below, with the exact condition under which the code does meet the expectation.

- A simulated market buy is free when the ask side of the book is empty (`BuyIsFreeExactlyOnAnEmptyBook`).
- A canceled simulated limit order can still fill on a later fetch (`CanceledStaysCanceledExactly`).
- A limit buy at least 1% above the best ask becomes a market order and can pay more than its limit
  (`ConvertedBuyExceedsLimit`). Whatever lies behind the best ask, it pays at most its limit if and only if it is not
  converted, the best ask holds its amount, or rounding takes the 5% cap back to the limit (`LimitBuyIsProtectedExactly`).
  Limit sells mirror that (`ConvertedSellFallsBelowLimit`, `LimitSellIsProtectedExactly`).
- An existing trade larger than the maximum stake, or a negative balance, can give a negative stake (`ValidatedExactly`).
- A late or repeated candle message moves a replica back (`ReplicaMovesBackExactlyWhen`), and recovery of a gap in one
  round needs that at most one more candle closes meanwhile, or a full request (`GapRecovery`).
- A cache that drops the open candle stays free of holes if at most six candles open between the decision for one call
  and the answer; a seventh can leave a hole that is filled with made-up candles (`LatenessIsExact`, `HoleExactly`).
  Where nothing was traded, an answer that is a lone open candle and merely adjoins the frame leaves its date behind
  without its candle (`LoneCandleMisleads`); every other such answer leaves the right date (`JoinedUpdate`).
- Overlapping pages of a single trade stop a download at once; every other page size misses nothing
  (`NothingMissedExactly`).
- The reserve for the stop-loss covers stop-losses of at most one third (`ReserveSurvivesStoplossExactly`).
- Binance's cross-margin price values other short positions like long ones (`CrossPriceExactness`).
- Reported high minus low is not always the drawdown (`HighIsNotThePeak`): it is if and only if the first trade broke
  even or the first largest fall starts from a positive peak (`HighAndLowExactness`). A single trade is an error
  (`CalculateMaxDrawdown`). When the account goes below zero the relative drawdown need not be the largest fall
  (`NegativeAccountsFallFurther`); it is if and only if every value below zero, measured from the least positive value
  before it, is matched by one measured from its peak (`RelativeModeExactly`, `FirstDipExactly`).
- Time ranges after November 2286 do not survive printing: `dt_from_ts` takes their seconds for milliseconds
  (`RoundTripExactly`).
- Only the last of several open trades in one coin is in that coin's wallet (`CoinTotalExactly`).
- A pair that the whitelist repeats can be traded twice at once, if and only if slots and capital suffice
  (`PairsStayDistinctExactly`). `freqtrade/plugins/pairlist/IPairList.py:284` removes repetitions, so
  such a whitelist arrives only from a static pair list with `allow_inactive`
  (`freqtrade/plugins/pairlist/StaticPairList.py:63-67`).

## Model

| member | source | states |
|---|---|---|
| MarketFill.FillValue | freqtrade/exchange/exchange.py:1168-1186 | The loop with its two exits and its `else` computes the recursive walk, including the part no level can absorb |
| MarketFill.GetDryMarketFillPrice | freqtrade/exchange/exchange.py:1155-1197 | The rate itself without an order book, a division error for amount 0, otherwise the rounded forecast for the right side of the book, passed in or fetched |
| MarketFill.BuyFillIsOptimal | freqtrade/exchange/exchange.py:1168-1186 | For ascending asks the walk's value is reached by some allocation of exactly the amount and is the minimum over all of them; every level but the last is bounded by its volume |
| MarketFill.SellFillIsOptimal | freqtrade/exchange/exchange.py:1168-1186 | For descending bids it is likewise the maximum |
| MarketFill.FillIsAdditive | freqtrade/exchange/exchange.py:1168-1186 | Filling `a`, then `b` from the residual book, costs what filling `a + b` costs |
| MarketFill.AverageNeverFalls | freqtrade/exchange/exchange.py:1168-1188 | Buying more never lowers the average price |
| MarketFill.SellAverageNeverRises | freqtrade/exchange/exchange.py:1168-1188 | Selling more never raises the average price |
| MarketFill.ForecastStaysWithinSlippage | freqtrade/exchange/exchange.py:1165-1194 | The forecast lies between the best price and the 5% cap when the best price is within the cap, and is the cap otherwise, on both sides |
| MarketFill.BuyIsFreeExactlyOnAnEmptyBook | freqtrade/exchange/exchange.py:1168-1191 | With positive prices and rate the forecast of a buy is 0 if and only if no ask exists |
| DryOrders.DryExchange.CreateDryRunOrder | freqtrade/exchange/exchange.py:1062-1135 | Stores exactly the order the request leads to, touches no other order, and stores nothing on an error |
| DryOrders.DryExchange.BuildOrder | freqtrade/exchange/exchange.py:1076-1133 | The order after conversion to a market order, pricing, fee and immediate fill, each branch as a function of the request and the venue |
| DryOrders.DryExchange.CheckLimitOrderFilled | freqtrade/exchange/exchange.py:1225-1252 | Fills exactly plain limit orders that are not closed and whose price is crossed, with the taker or the maker fee |
| DryOrders.DryExchange.FetchDryRunOrder | freqtrade/exchange/exchange.py:1254-1277 | Steps the one order fetched and returns that object, or an error for an unknown id |
| DryOrders.DryExchange.CancelDryRunOrder | freqtrade/exchange/exchange.py:1619-1627 | Fetches (and so possibly fills) the order first, then cancels it, leaving every other order alone |
| DryOrders.EveryRunStaysCoherent | freqtrade/exchange/exchange.py:1076-1135 | After any sequence of creations, fetches and cancellations each order has filled + remaining = amount, is filled wholly or not at all, is closed exactly when filled, carries the fee of its cost when closed, and is never filled if it is a stop-loss |
| DryOrders.NewOrderExactly | freqtrade/exchange/exchange.py:1076-1153 | A new order has the side, rate and kind of stop asked for and the rounded amount; its cost is amount times average price; it is filled wholly, for the taker rate times that cost, or rests at the rate asked for without a fee |
| DryOrders.NewOrderByKind | freqtrade/exchange/exchange.py:1100-1131 | Market orders, and limit orders at least 1% beyond the best opposite price, are filled at once at the rounded forecast for the side of the book they meet, and fail exactly for an amount of zero against a book; everything else keeps its kind and never fails, and only plain limit orders are filled at once |
| DryOrders.EveryRunStaysAccounted | freqtrade/exchange/exchange.py:1137-1153 | Over every run each order's cost is amount times average price, and each fee is that times the taker or the maker rate |
| DryOrders.FetchFillsExactly | freqtrade/exchange/exchange.py:1225-1262 | A fetch fills a plain limit order that is not closed exactly when the best opposite price has reached its own, wholly, for the maker rate times its cost, and changes nothing else |
| DryOrders.CancelFetchesFirst | freqtrade/exchange/exchange.py:1619-1627 | A cancellation is a fetch followed by taking back what is filled |
| DryOrders.ClosedOrdersAreFinal | freqtrade/exchange/exchange.py:1225-1262 | A closed order changes in no run that neither cancels it nor reuses its id |
| DryOrders.CanceledStaysCanceledExactly | freqtrade/exchange/exchange.py:1231-1262 | A canceled order stays canceled if and only if it is not a plain limit order or no fetch of the run sees its price crossed; otherwise it ends closed |
| DryOrders.CanceledOrderCanFill | freqtrade/exchange/exchange.py:1619-1627 | A concrete create, cancel, fetch run that ends with the canceled order filled |
| DryOrders.LimitFillsImmediatelyExactlyWhenCrossed | freqtrade/exchange/exchange.py:1104-1131 | A limit order is filled on creation, at the taker fee, if and only if it crosses the best opposite price; conversion to a market order never decides that |
| DryOrders.LimitBuyIsProtectedExactly | freqtrade/exchange/exchange.py:1104-1127 | For rounding that keeps order and keeps the limit (which `create_order` has rounded, lines 1317-1320): a limit buy pays at most its limit in every sorted book behind a given best ask if and only if it is not converted, the best ask holds the amount, or the 5% cap rounds to the limit |
| DryOrders.ConvertedBuyExceedsLimit | freqtrade/exchange/exchange.py:1104-1127 | A concrete converted buy that pays 10.5 at a limit of 10 |
| DryOrders.LimitSellIsProtectedExactly | freqtrade/exchange/exchange.py:1104-1127 | Under the same rounding, a limit sell gets at least its limit in every sorted book behind a given best bid if and only if it is not converted, the best bid takes the amount, or the least it can get, the greater of the 5% cap and the best bid's share, rounds to the limit |
| DryOrders.ConvertedSellFallsBelowLimit | freqtrade/exchange/exchange.py:1104-1127 | A concrete converted sell that gets 9.5 at a limit of 10 |
| Wallets.Wallets.UpdateDry | freqtrade/wallets.py:99-177 | Replaces wallets and positions by exactly those of the trades, in spot and in futures, adds untouched starting balances, and in cross margin moves what those are worth into the free stake balance, but not into the total |
| Wallets.Wallets.CrossMargin | freqtrade/wallets.py:151-161 | The loop over the starting balances, in any order, gives the worth of all currencies but the stake currency whose rate is known, and nothing outside cross margin |
| Wallets.Wallets.CollectCoins | freqtrade/wallets.py:121-138 | The loop over open trades gives the coin wallets and the stake of pending entries |
| Wallets.Wallets.CollectPositions | freqtrade/wallets.py:140-147 | The loop over open trades gives one position per pair |
| Wallets.CoinTotalExactly | freqtrade/wallets.py:122-138 | A coin has a wallet if and only if an open trade holds it; free + used = total; the total is everything held plus the start if and only if one trade holds it |
| WalletLaws.PositionIsOpen | freqtrade/wallets.py:140-147 | A pair has a position if and only if a trade of it is open |
| WalletLaws.PositionIsOfTheLast | freqtrade/wallets.py:140-147 | The position is the amount, and the collateral the stake, of the last open trade of the pair |
| WalletLaws.CollateralsAddUp | freqtrade/wallets.py:140-149 | If no pair is traded twice at once, the collaterals add up to all stakes tied up |
| WalletLaws.PendingAddsUp | freqtrade/wallets.py:112-129 | Pending orders add up one by one, entries by their stakes and exits by their amounts |
| WalletLaws.PendingOrderIsUsed | freqtrade/wallets.py:112-171 | In spot a further pending entry of an open trade counts as used and into the total, and nothing else does; what is free never changes |
| WalletLaws.CoinIsOfTheLast | freqtrade/wallets.py:122-138 | A coin's wallet has the amount of the last open trade in it and the start; what its pending exits sell is used, the rest free |
| WalletLaws.WalletsExactly | freqtrade/wallets.py:121-177 | The currencies with a wallet are the stake currency, in spot the coins of open trades, and the starting balances, which are untouched unless they are among those |
| WalletLaws.BalanceAddsItsWorth | freqtrade/wallets.py:151-171 | A further starting balance adds to the free balance its amount in the stake currency, and in cross margin its amount times its rate otherwise; only the former adds to the total |
| WalletLaws.ApplyMovesCoins | freqtrade/wallets.py:122-138 | The coins held follow the events: an opening brings its amount, exits take away theirs |
| Wallets.RebuiltWalletIsLedger | freqtrade/wallets.py:106-177 | After every history of openings, partial exits and closings the rebuilt free balance is that of a ledger that pays stakes and receives stakes plus profits, and starts with what other currencies are worth in cross margin; the total leaves those out and adds what is tied up in futures |
| Entries.ValidateStakeAmount | freqtrade/wallets.py:377-426 | The stake, reassigned along the branches, ends as the closed form with both limits, the 30% rule and the cap of an existing trade |
| Entries.ValidatedExactly | freqtrade/wallets.py:385-426 | For every input with a minimum that is not negative: the stake is zero, negative or positive under exact conditions on wanted stake, minimum and room; a positive one is the minimum if the wanted one is below it by at most 30%, the room left if the wanted one is larger, and else the wanted one |
| Entries.MaxAllowedIsLargest | freqtrade/wallets.py:392-396 | A stake has room if and only if it is within the greatest stake and the available balance and, together with what an existing trade holds, within the greatest stake |
| Entries.FreqtradeBot.GetAvailableStake | freqtrade/wallets.py:283-314 | The result is the largest affordable stake: a stake is at most the result if and only if it is free and keeps all stakes within the tradable part of the capital |
| Entries.FreqtradeBot.CreateTrade | freqtrade/freqtradebot.py:651-707 | Opens exactly the trade whose stake follows from slots, signal, locks, wallet, limits and confirmation; reports whether it did, and fails exactly for lack of funds or price |
| Entries.FreqtradeBot.EnterPositions | freqtrade/freqtradebot.py:601-649 | Tries exactly the whitelisted pairs without open trade, in order, each attempt with the capital it finds and its own answers of strategy and exchange; the count is the number of trades added |
| EntryLaws.EntryNeedsClearance | freqtrade/freqtradebot.py:651-707 | An attempt adds nothing, or one trade of the pair asked for, only with a free slot, a signal, no lock, accepted depth, a price, a confirmation and an accepted order; its amount times the price is its stake times the leverage |
| EntryLaws.WantedStakeIsUsed | freqtrade/freqtradebot.py:676-707 | A stake of the strategy, or else the configured fixed one, that is paid for and within the limits is the stake of the trade, if and only if everything clears the entry |
| EntryLaws.EntryFailsExactly | freqtrade/freqtradebot.py:663-707 | An attempt fails exactly when there is a slot, a signal and no lock, and the stake cannot be proposed, or depth is accepted and there is no price |
| EntryLaws.FixedProposalExactly | freqtrade/wallets.py:330-375 | A fixed stake is proposed if it is affordable; otherwise it is an error, or, if the last stake may be reduced, the largest affordable one if that is more than the least fraction, and else nothing |
| EntryLaws.UnlimitedProposalExactly | freqtrade/wallets.py:316-328 | An unlimited stake times the slots is what is tied up and available together, but no more than is available is proposed, and nothing without a number of slots |
| EntryLaws.OpenTradesAreCounted | freqtrade/freqtradebot.py:663-665 | The slots taken are the number of open trades |
| Solvency.CandidatesAreNotOpen | freqtrade/freqtradebot.py:607-616 | For a whitelist without repetition the candidates are exactly the whitelisted pairs without an open trade |
| Solvency.SolventBalances | freqtrade/wallets.py:283-314 | While solvent, the untradable part of the capital stays free and the available stake is tradable capital minus tied-up stakes |
| Solvency.EntryStakeIsCovered | freqtrade/wallets.py:316-426 | For limits and own stakes of the strategy that are not negative, a new stake is at least 0 and at most the tradable capital not tied up, and needs a free slot |
| Solvency.EveryRunIsSolvent | freqtrade/freqtradebot.py:347-353 | Over any run of entry rounds (distinct whitelists, limits and own stakes that are not negative) and exits that lose at most their stake: tied-up stakes never exceed ratio times (start plus profit), free balance is never negative, slots are respected, no pair is traded twice at once |
| Solvency.EntriesOnlyAdd | freqtrade/freqtradebot.py:601-649 | A round of entries keeps all trades, and under a global lock adds none |
| Solvency.StartIsSolvent | freqtrade/wallets.py:163-171 | A bot without trades is solvent, so every run from the start is |
| RepeatedPairs.PairsStayDistinctExactly | freqtrade/freqtradebot.py:612-641 | Whatever strategy and exchange answer, at each attempt anew, a round never trades a pair twice at once, if and only if every pair listed twice or more lacks the slots or the capital for the trades still needed (one if it is open, two if not) |
| RepeatedPairs.RepeatedPairIsOpenedTwice | freqtrade/freqtradebot.py:612-641 | A concrete round with a repeated pair that opens it twice |
| EqualSlots.NextStakeIsOneShare | freqtrade/wallets.py:316-375 | With `k` of `n` slots taken by equal shares, the next unlimited stake is one share, ratio times equity divided by `n` |
| EqualSlots.SlotsAreEqual | freqtrade/wallets.py:316-328 | Filling the remaining slots gives every trade exactly one share and leaves exactly nothing available |
| ProducerFrames.DataProvider.ReplaceExternalDf | freqtrade/data/dataprovider.py:146-170 | Stores the frame under producer and key with the given or current time, and changes no other frame |
| ProducerFrames.DataProvider.AddExternalDf | freqtrade/data/dataprovider.py:172-253 | Stores what the merge gives with the given or current time, or reports the missing count and changes nothing; no other key changes |
| ProducerFrames.DataProvider.GetProducerDf | freqtrade/data/dataprovider.py:255-287 | The stored frame and its time, or an empty frame and time 0 for an unknown producer or key |
| ProducerFrames.MergeOfSlices | freqtrade/data/dataprovider.py:196-253 | The exact result for a replica and a message cut anywhere from one gapless history: replaced, rejected with the gap, or extended and cut to 1500 |
| ProducerFrames.ReplicaIsAPieceOfHistory | freqtrade/data/dataprovider.py:172-253 | After any run of full, partial, stale or rejected messages the replica is a non-empty gapless piece of the history, no longer than 1500 or the longest full message |
| ProducerFrames.AppendOfSlices | freqtrade/misc.py:223-238 | Appending adjoining pieces of history gives one piece, of the newest 1500 candles |
| ProducerFrames.ReplicaMovesBackExactlyWhen | freqtrade/data/dataprovider.py:218-253 | The replica loses its newest candles if and only if an accepted message ends before it |
| ProducerFrames.GapRecovery | freqtrade/rpc/external_message_consumer.py:361-385 | After a gap, for any frame of the producer: the answer to the consumer's request is accepted if and only if at most one more candle closed meanwhile or a full frame was requested, or, when the producer's frame starts after the gap, if and only if a full frame was requested and it has a hundred candles; then the replica ends with the producer's newest candle |
| ProducerFrames.RequestOverlapsByOne | freqtrade/rpc/external_message_consumer.py:372-384 | What is requested after a gap starts, without delay, with the newest candle of the replica; from a hundred candles on it is everything |
| ProducerFrames.EmptyMessageIsRejected | freqtrade/data/dataprovider.py:192-194 | An empty message is rejected with a gap of 0 and leaves the replica as it is |
| ProducerFrames.MissingCandlesAreEnough | freqtrade/data/dataprovider.py:221-253 | The producer's last candles, as many as reported missing and ending at the rejected one, always continue the replica |
| ProducerFrames.FirstFrameNeedsAHundredCandles | freqtrade/data/dataprovider.py:196-216 | Without a frame a message is rejected with 1000, and the answer to the request is accepted if and only if the producer has 100 candles |
| CandleCache.RequiredCalls | freqtrade/exchange/exchange.py:832-868 | The number of calls is the least that covers the start-up candles and the open one; an error exactly beyond five calls, or one without history |
| CandleCache.OhlcvCache.NowIsTimeToRefresh | freqtrade/exchange/exchange.py:2718-2724 | A refresh is due if and only if some candle newer than the recorded one is complete, whatever date is recorded |
| CandleCache.OhlcvCache.BuildCoroutine | freqtrade/exchange/exchange.py:2457-2554 | No call exactly when there is a cached frame and the candles of a websocket are usable; otherwise one call or a download and from when, with and without cache and given start, and eviction of the frame exactly when one call cannot bridge the gap; no other key changes |
| CandleCache.PlanExactly | freqtrade/exchange/exchange.py:2512-2554 | One call is made if and only if the exchange needs no start and either one response holds all start-up candles or the cached frame reaches back far enough; a download starts as many full responses before the end of the open candle as there are calls |
| CandleCache.UsableExactly | freqtrade/exchange/exchange.py:2457-2492 | The candles of a websocket are used if and only if the newest of several is the newest complete one or a later one, a single one is complete, and the last came in at most half a candle before the open one opened |
| CandleCache.OhlcvCache.ProcessOhlcvDf | freqtrade/exchange/exchange.py:2593-2631 | With cache, records the newest complete candle and merges, fills and trims the frame; without, only cleans the answer; no other key changes |
| CandleCache.GetHistoricOhlcv | freqtrade/exchange/exchange.py:2411-2455 | The chunks of one call each from `since` to the end, in order |
| CandleFrames.MergeSlices | freqtrade/data/converter/converter.py:76-94 | Grouping two overlapping or adjoining pieces of a history by date gives one piece |
| CandleFrames.GroupOfOneDate | freqtrade/data/converter/converter.py:76-85 | Any rows of one date become one: first open, highest high, lowest low, last close, largest volume |
| CandleFrames.GroupsAreApart | freqtrade/data/converter/converter.py:76-85 | Rows of different dates are grouped apart |
| CandleFrames.MergeByDate | freqtrade/exchange/exchange.py:2608-2615 | A merged frame has for each date the row of the frame that has it, or the group of both rows |
| CandleFrames.FillLeavesNoHole | freqtrade/data/converter/converter.py:97-134 | Filling any sorted frame on the grid of dates leaves no hole, keeps every candle and both ends, and adds only candles made up from the close before them |
| CandleCache.SkippedExactlyWhenCurrent | freqtrade/exchange/exchange.py:2718-2724 | A refresh is skipped if and only if the newest complete candle is cached |
| CandleHoles.GraceIsExact | freqtrade/exchange/exchange.py:2518-2535 | One response overlaps every cache that passes the guard if and only if at most five candles opened between decision and answer |
| CandleHoles.LatenessIsExact | freqtrade/exchange/exchange.py:2518-2535 | It overlaps or adjoins every such cache if and only if it ends at most seven candles after the open one of the decision, that one counted |
| CandleHoles.HoleExactly | freqtrade/exchange/exchange.py:2602-2630 | With trades in every candle, a refresh by one call leaves a cache without hole or made-up candle if and only if the answer overlaps or adjoins it, or nothing older than the answer is kept |
| CandleCache.HistoryIsSlice | freqtrade/exchange/exchange.py:2425-2455 | The chunks of a download join to one unbroken piece up to what the exchange shows |
| CandleCache.RefreshKeepsFaithful | freqtrade/exchange/exchange.py:2504-2631 | With trades in every candle, one visit keeps the cache an unbroken piece of genuine candles, ending no earlier than the newest candle complete at the decision unless the call failed, and keeps enough start-up candles if the history reaches back far enough; only an answer of one call that is joined to a kept frame must not be later than `LatenessIsExact` allows |
| CandleCache.CacheStaysFaithful | freqtrade/exchange/exchange.py:2504-2724 | With trades in every candle, over every run of visits, skipped, answered however late, failed or after a pause, in which only answers of one call joined to a kept frame have that bound, also for pairs with a short history, the cache holds no hole and no made-up candle; if the history reaches back to the first cold start and the calls cover the start-up candles, it holds those whenever it holds anything |
| CandleGaps.CacheStaysFilled | freqtrade/exchange/exchange.py:2504-2724 | With any candles left out for lack of trades, over every run of visits from an empty cache, the cached frame is the filling of the traded candles: every one between its ends is there, and a candle is made up only where nothing was traded; the recorded date is never newer than the frame, and an answer to the last visit brings what it covers |
| CandleGaps.UpdateKeepsFilled | freqtrade/exchange/exchange.py:2504-2631 | One visit keeps that; an answer brings every traded candle it covers that was complete at the decision, or all but the newest if open candles are dropped and nothing was traded since; a skipped refresh misses none |
| CandleGaps.FillTraded | freqtrade/data/converter/converter.py:97-134 | Filling the traded candles of any stretch gives the filled history from the first to the last of them |
| CandleGaps.MadeUpExactly | freqtrade/data/converter/converter.py:97-134 | A candle of the filled history is the traded one, or four times the close of the last trade before it, without volume |
| CandleGaps.JoinTraded | freqtrade/exchange/exchange.py:2608-2627 | A cached piece of the filled history, merged with the traded candles of an overlapping or adjoining answer, filled and trimmed, is again such a piece, and no shorter but for the trimming |
| CandleGaps.JoinedUpdate | freqtrade/exchange/exchange.py:2593-2631 | An answer that overlaps a cached frame, or adjoins it and is not one candle that is dropped, leaves the filling of the traded candles it covers, with a date that is not newer |
| CandleGaps.LoneCandleMisleads | freqtrade/exchange/exchange.py:2602-2627 | If the answer is one candle, which is dropped, and merely adjoins the frame, the frame is only trimmed but the date recorded is newer than its newest candle |
| TradePagination.GetTradeHistoryId | freqtrade/exchange/exchange.py:3076-3128 | The download terminates and returns one unbroken stretch of the history, without gap or duplicate, with overlapping and with disjoint pages, by id or by time first |
| TradePagination.FollowPages | freqtrade/exchange/exchange.py:3104-3126 | The loop over pages returns the trades kept before it and everything up to the stop, with the remaining history as its measure |
| TradePagination.AddPage | freqtrade/exchange/exchange.py:3109-3120 | One page extends the trades by exactly its new part, and ends the loop exactly when the key did not change or the page reaches past `until` |
| TradePagination.StopReasons | freqtrade/exchange/exchange.py:3109-3126 | It stops only at the end of what the exchange shows, after a trade later than `until`, or when interrupted |
| TradePagination.NothingMissed | freqtrade/exchange/exchange.py:3104-3126 | Every trade up to `until` that existed at the start is returned |
| TradePagination.LittleInVain | freqtrade/exchange/exchange.py:3110-3116 | At most one page of trades later than `until` is returned |
| TradePagination.NothingMissedExactly | freqtrade/exchange/exchange.py:3104-3126 | No uninterrupted download ever misses a trade if and only if pages do not overlap or hold two trades or more |
| TradePagination.SingleTradePagesStopAtOnce | freqtrade/exchange/exchange.py:3109-3120 | With overlapping pages of one trade it stops after the first key |
| LeverageTiers.GetMaxLeverage | freqtrade/exchange/exchange.py:3432-3464 | The scan with shifting lower bounds and fallback equals "first tier whose largest stake covers the stake"; the final error is unreachable |
| LeverageTiers.GetMaxNotionalFromTiers | freqtrade/exchange/exchange.py:3475-3490 | The position limit of the last tier that allows the leverage |
| LeverageTiers.LeverageKeepsStakeWithinCap | freqtrade/exchange/exchange.py:3437-3490 | Any leverage up to the maximum for a stake keeps the stake within the position limit of that leverage |
| LeverageTiers.MaxLeverageIsBest | freqtrade/exchange/exchange.py:3437-3490 | A tier's leverage keeps the stake within its limit if and only if it is not above the result |
| LeverageTiers.LargerStakeNeverMoreLeverage | freqtrade/exchange/exchange.py:3437-3459 | A larger stake never gets more leverage |
| LeverageTiers.GetMaintenanceRatioAndAmt | freqtrade/exchange/exchange.py:3829-3862 | Rate and amount of the last tier whose lower bound is reached, or the error for a negative notional |
| LeverageTiers.MaintenanceFindsTheTier | freqtrade/exchange/exchange.py:3851-3859 | For contiguous tiers it succeeds if and only if the notional is not negative, and finds the tier that contains it |
| StakeLimits.MinStakeMeetsMinimums | freqtrade/exchange/exchange.py:999-1058 | A position of at least the minimum stake meets the market's minimum cost and minimum amount |
| StakeLimits.MinStakeExactly | freqtrade/exchange/exchange.py:999-1058 | A stake is at least the minimum if and only if its leveraged position meets the market's minimum cost with the stop-loss reserve and its minimum amount with the margin reserve; there is no minimum exactly if the market has neither |
| StakeLimits.MaxStakeExactly | freqtrade/exchange/exchange.py:1024-1058 | A stake is at most the maximum if and only if its leveraged position is within the tiers' limit and the market's maximum cost and amount, as far as there are any |
| StakeLimits.ReserveExactly | freqtrade/exchange/exchange.py:1018-1023 | The reserve times what a stop-loss leaves is the margin reserve, cut off at one half; one half for a stop-loss of everything, none beyond |
| StakeLimits.ReserveSurvivesStoplossExactly | freqtrade/exchange/exchange.py:1018-1023 | The least position is still worth the minimum after the stop-loss if and only if the stop-loss is at most one third |
| StakeLimits.TiersNeverCutTheStake | freqtrade/exchange/exchange.py:1024-1058 | With a leverage the tiers grant, the greatest stake is decided by the market's own maximums alone, in both directions |
| Liquidation.GetCrossTerms | freqtrade/exchange/binance.py:323-346 | The loop over other trades gives unrealised profit minus maintenance margin, or the first error |
| Liquidation.CrossTermsOfOne | freqtrade/exchange/binance.py:323-346 | One other trade adds amount times price change, and takes away amount times mark price times rate less the maintenance amount; the own pair adds nothing; the errors in order |
| Liquidation.CrossTermsAddUp | freqtrade/exchange/binance.py:323-346 | Trades add up, and the first error counts |
| Liquidation.BasePriceIsTheCrossing | freqtrade/exchange/exchange.py:3810-3823 | The general price is the one price where collateral plus profit equals margin and taker fee; the surplus falls on the losing side |
| Liquidation.BinancePriceIsTheCrossing | freqtrade/exchange/binance.py:347-359 | The same for Binance, maintenance amount and cross terms included |
| Liquidation.BybitPriceIsTheCrossing | freqtrade/exchange/bybit.py:224-238 | The same for Bybit, whose margin is measured at the entry price |
| Liquidation.BaseLosingSideExactly | freqtrade/exchange/exchange.py:3810-3823 | The general price is on the losing side of the entry if and only if the wallet covers margin and fee there |
| Liquidation.BinanceLosingSideExactly | freqtrade/exchange/binance.py:347-359 | Binance's is if and only if wallet, cross terms and maintenance amount cover the margin there |
| Liquidation.BybitLosingSideExactly | freqtrade/exchange/bybit.py:224-238 | Bybit's is if and only if the margin rate times the leverage is at most one |
| Liquidation.BufferedBetween | freqtrade/exchange/exchange.py:3765-3770 | On the losing side the buffered price lies between liquidation and entry, strictly off the liquidation price for a positive buffer |
| Liquidation.BufferTakesItsShare | freqtrade/exchange/exchange.py:3765-3770 | The distance from entry to the reported price is (1 - buffer) times that to the liquidation price, unless a long's price would go below zero |
| Liquidation.LiquidationPriceExactly | freqtrade/exchange/exchange.py:3725-3772 | For every venue and margin mode: the errors in the order in which they are looked for, or the price at which the surplus of the venue, in cross margin with the other trades, is used up, moved by the buffer and not negative |
| Liquidation.CrossPriceExactness | freqtrade/exchange/binance.py:319-359 | At Binance's cross-margin price the account meets its margin if and only if the other shorts show no net move, and falls short if and only if they lost |
| Liquidation.IsolatedStopIsFunded | freqtrade/exchange/exchange.py:3751-3770 | On every venue a position funded at entry still has margin at the reported price |
| PriceRounding.RoundIsUnits | freqtrade/exchange/exchange_utils.py:322-341 | Remainder arithmetic and scaled ceilings both give a whole number of ticks |
| PriceRounding.RoundIsNearest | freqtrade/exchange/exchange_utils.py:322-341 | The result is the nearest grid price in the direction asked for, less than a tick away |
| PriceRounding.RoundIsMonotone | freqtrade/exchange/exchange_utils.py:322-341 | Rounding keeps order |
| PriceRounding.RoundKeepsGrid | freqtrade/exchange/exchange_utils.py:322-341 | A price is unchanged if and only if it is on the grid, and rounding is idempotent |
| PriceRounding.TenToExactly | freqtrade/exchange/exchange_utils.py:333-341 | The scale of decimal places is the power of ten, for negative numbers of digits too |
| TrailingStop.StopKeeper.CreateStoploss | freqtrade/exchange/exchange.py:1456-1475 | Places the rounded stop and limit and records the time, or changes nothing when the limit is on the wrong side |
| TrailingStop.StopKeeper.HandleTrailingStoploss | freqtrade/freqtradebot.py:1523-1559 | Cancel and replace exactly when the rounded stop is tighter and the interval has passed; no new order once the trade is closed |
| TrailingStop.ReplacesExactlyWhenTighter | freqtrade/exchange/exchange.py:1374-1385 | After the interval the order is replaced if and only if the trade's unrounded stop is tighter than the placed one |
| TrailingStop.EarlyCallIsQuiet | freqtrade/freqtradebot.py:1536-1540 | Before the interval has passed a call changes nothing |
| TrailingStop.HandleExactly | freqtrade/freqtradebot.py:1523-1559 | A call acts exactly when the interval has passed and the trade's stop is tighter than the active one; then the active order is gone, and the trade was stopped out, or the rounded stop is placed at that time, or its limit was on the wrong side |
| TrailingStop.PlacementsAreSpaced | freqtrade/freqtradebot.py:1536-1559 | Over any run each stop is placed at least one interval after the one before |
| TrailingStop.LimitFollowsRatio | freqtrade/exchange/exchange.py:1398-1418 | The limit of a stop lies behind it by one minus the ratio, rounded in the same direction; without a ratio there is none |
| TrailingStop.HandleKeepsRatchet | freqtrade/freqtradebot.py:1531-1559 | A replacement is tighter than every stop before and at least as tight as the trade's stop |
| TrailingStop.UnchangedStopIsQuiet | freqtrade/freqtradebot.py:1531-1559 | The same stop never causes a second replacement, whenever it is looked at again |
| TrailingStop.StopsOnlyTighten | freqtrade/freqtradebot.py:1523-1559 | Over any run the stops placed strictly rise for longs and strictly fall for shorts |
| TrailingStop.FirstStopIsKept | freqtrade/exchange/exchange.py:1456-1475 | The first stop placed for a trade is at least as tight as the trade's stop, which is what a run starts from |
| TrailingStop.StopsOnlyTightenFromTheFirst | freqtrade/freqtradebot.py:1523-1559 | So from the first stop of a trade on, whatever stops and times follow, the stops placed strictly tighten |
| TrailingStop.LimitStaysBehindStop | freqtrade/exchange/exchange.py:1398-1418 | With a ratio of at most one a limit stop is placed, and even rounded its limit is not tighter than its stop |
| TrailingStop.RatioBoundIsExact | freqtrade/exchange/exchange.py:1398-1418 | At a positive price a stop is placed if and only if the ratio is at most one, the bound of `freqtrade/config_schema/config_schema.py:383-388` |
| Drawdown.CalcDrawdownSeries | freqtrade/data/metrics.py:128-146 | The columns are balances, peaks with the start included, drawdowns and relative drawdowns |
| Drawdown.CalculateMaxDrawdown | freqtrade/data/metrics.py:214-253 | Succeeds exactly for two or more trades (with a comparable relative value in relative mode); the absolute drawdown is the largest fall over all pairs, the relative one under its exact condition; the low is the first row of the largest fall, absolute or relative; the high is the first highest row up to the low; the current values are those of the last row and the current high the first highest before it |
| Drawdown.AbsoluteModeIsLargestDrop | freqtrade/data/metrics.py:222-233 | The absolute drawdown is the largest fall over all pairs of balances, the start included |
| Drawdown.HighAndLowExactness | freqtrade/data/metrics.py:228-232 | Reported high minus low is the fall at the low if and only if the first trade broke even or the peak before the first largest fall, absolute or relative, is positive; the high is not after the low |
| Drawdown.HighIsNotThePeak | freqtrade/data/metrics.py:228-232 | Concrete trades that lose 10, then 5, for which high minus low is not the drawdown |
| Drawdown.RelativeModeExactly | freqtrade/data/metrics.py:222-233 | For a positive start the relative drawdown is the largest relative fall over all pairs of account values if and only if every value below zero, measured from the least positive value before it, is matched by one measured from its peak; so always if none is below zero |
| Drawdown.FirstDipExactly | freqtrade/data/metrics.py:222-233 | If only the last trade takes the account below zero, that condition holds if and only if every earlier account value is the start or zero |
| Drawdown.LowWithoutStart | freqtrade/data/metrics.py:136-145 | In relative mode without a starting balance the low is the first fall from a peak of zero, if there is one, and else the largest part of a positive peak |
| Drawdown.NegativeAccountsFallFurther | freqtrade/data/metrics.py:138-141 | A concrete account that goes below zero, where a larger relative fall exists |
| TimeRanges.ParseTimerange | freqtrade/configuration/timerange.py:121-175 | The loop over the nine syntax rules gives the first match, with every error case |
| TimeRanges.SyntaxExactly | freqtrade/configuration/timerange.py:127-175 | A text is refused for its syntax if and only if it is not two bounds with a dash between, each with eight, ten or thirteen digits or absent, and of equal length |
| TimeRanges.ParseExactly | freqtrade/configuration/timerange.py:127-174 | A text of that form is an error exactly if a bound is no date, or both are given and the first is later; otherwise it gives those bounds; no text gives a range without bounds |
| TimeRanges.MillisecondsAreCut | freqtrade/configuration/timerange.py:152-155 | A bound of thirteen digits means the second written by its first ten |
| TimeRanges.SecondsExactly | freqtrade/util/datetime_helpers.py:63-71 | A timestamp up to ten billion is taken for seconds, a larger one for milliseconds |
| TimeRanges.FromOrdinal | freqtrade/configuration/timerange.py:58-60 | Every day number has a valid date with that number |
| TimeRanges.OrdinalIsInjective | freqtrade/configuration/timerange.py:151-153 | Different dates have different day numbers |
| TimeRanges.ParseOfPrint | freqtrade/configuration/timerange.py:49-61 | What parsing makes of any printed range, errors included |
| TimeRanges.RoundTripExactly | freqtrade/configuration/timerange.py:49-61 | Parsing gives the printed range back if and only if its types match its bounds, the bounds are whole days in order, at least one is set, and none is beyond ten billion seconds |
| TimeRanges.PrintOfParse | freqtrade/configuration/timerange.py:121-175 | A canonical text that parses is printed again as it was |
| InPlaceMerge.DeepMergeDicts | freqtrade/misc.py:98-115 | The loop over the source, in any order of entries and with and without null overrides, fails exactly on a clash of shapes, and then leaves the merge of the entries before the failing one and, recursively, what the failed merge of that one left; otherwise it leaves the destination, updated in place down to its inner dictionaries, with the contents of the merge function and still without sharing |
| InPlaceMerge.InterruptedMixes | freqtrade/misc.py:107-113 | What a failed merge leaves is a mixture: entries the source does not mention are untouched, and every value is the one before or the one of the source |
| InPlaceMerge.MergeBelow | freqtrade/misc.py:108-111 | Merging into one inner dictionary changes nothing else in the destination |
| ConfigMerge.MergeIsAssociative | freqtrade/misc.py:98-115 | How merges are nested does not matter for what they give |
| ConfigMerge.FailuresAreAssociative | freqtrade/misc.py:98-115 | Nor for whether they fail, but for one case: if the middle one clashes with the last, merging those first fails even where the first would have overridden the clash |
| ConfigMerge.RaisesExactly | freqtrade/misc.py:107-113 | A merge fails if and only if at some path the source has a dictionary that is not empty and the destination a value |
| ConfigMerge.NullsAreLeftOut | freqtrade/misc.py:98-115 | Without null overrides a merge gives, and fails as, the merge of the source without its null values at any depth |
| ConfigMerge.MergeIsIdempotent | freqtrade/misc.py:98-115 | Merging a source again changes nothing |
| ConfigMerge.MergeAt | freqtrade/misc.py:107-113 | A leaf comes from the source if the source defines it, and from the destination otherwise |
| ConfigMerge.LoadFromFiles | freqtrade/configuration/load_config.py:80-120 | The recursive loop computes the load function, with the level bound, minimal configuration, standard input and file errors; it terminates |
| ConfigMerge.ReadFile | freqtrade/configuration/load_config.py:105-111 | One file, merged over the files it adds, with their names; the errors of reading, loading and merging in that order |
| ConfigMerge.AddingFileExactly | freqtrade/configuration/load_config.py:105-111 | A file that adds others fails with them, or on a clash with what they give; else it overrides that and takes over the recorded names |
| ConfigMerge.RecordedNames | freqtrade/configuration/load_config.py:92-120 | The recorded names are the listed files, the last one first, followed by what each takes over, in order |
| ConfigMerge.LoadIsFold | freqtrade/configuration/load_config.py:80-120 | What is loaded from any nesting of files is the fold of their contents in override order |
| ConfigMerge.LastDefinitionWins | freqtrade/configuration/load_config.py:80-120 | Every setting has the value of the last layer that defines it, files overriding those they add |
| ConfigMerge.CyclesNeverLoad | freqtrade/configuration/load_config.py:80-120 | No list of files that leads into a cycle of files adding each other is loaded, whatever the length of the cycle and whatever else is listed |
| ConfigMerge.IncludingItselfFails | freqtrade/configuration/load_config.py:88-89 | A file that adds itself always ends in the loop error |

## Left out

- InPlaceMerge.DeepMergeDicts: lists are values, so that source and destination share them is not captured.
- ConfigMerge.LoadFromFiles: merges values; the dictionaries it merges are its own.
- ConfigMerge.MergeIsAssociative: is about merging with null overrides, the mode the loader uses, and so are the laws after it; `NullsAreLeftOut` leads the other mode back to it.
- Drawdown.RelativeModeExactly: is about a positive start; a start of zero is the subject of `Drawdown.LowWithoutStart`, and negative ones are left out.
- Drawdown.CalculateMaxDrawdown: trades come sorted by date; an all-undefined relative column is an error, as current pandas versions do it.
- TimeRanges.RoundTripExactly: years have four digits; the locale and non-ASCII digits of regular expressions are not modelled, nor are `adjust_start_if_necessary` and `subtract_start`.
- Solvency.EveryRunIsSolvent: one entry order per trade, filled at its stake; no pending position adjustment, no `available_capital`; in cross margin, conversion rates are fixed over a run.
- TrailingStop.StopKeeper.HandleTrailingStoploss: the emergency exit after a failed placement and the live exchange's errors are not modelled.
- CandleCache.CacheStaysFaithful: every candle has a trade, so that filling changes nothing; gaps are the subject of `CandleGaps.CacheStaysFilled`. It is about the cached path with a start the cache chooses; responses too short to hold a complete candle are left out, and timeframes are a whole number of milliseconds on one grid.
- CandleGaps.CacheStaysFilled: a response to a call of a download covers the candles of its range and no more; how many start-up candles there are then is not stated, since it depends on where trades are.
- CandleCache.OhlcvCache.BuildCoroutine: answers of a websocket are no part of the runs, and a computed start of exactly 0, in January 1970, is left out. The comment at `freqtrade/exchange/exchange.py:2476` speaks of a single candle that is the open one; the code takes a single candle only if it is an earlier one, and so does the model.
- Wallets.Wallets.CollectPositions: leverage and side of a position, which are copied from the trade, are left out.
- Wallets.Wallets.UpdateDry: what a currency is worth is an argument, since it comes from the exchange.
- The database fallback of `fetch_dry_run_order`: it needs stored orders that are not part of this model.
- Rounding by significant digits and to the nearest price is done by the ccxt library, and floating-point noise (`round(..., 14)`) is not modelled; where a rounded price is only passed on, rounding is an arbitrary function.
- LeverageTiers.GetMaxLeverage: starts where the pair's tiers are known; the constants for spot markets and unknown pairs are left out, and an empty list is one error.
- Contract sizes: amounts are those of contract size 1; rounding of amounts is an arbitrary function.
- Loading of leverage tiers, funding fees, and the branches for a live exchange: input and output.
- Order replacement, trade deletion, exits decided by the strategy, and protections: the state they work on is not part of this model; exits appear as events with arbitrary bounded losses.
- Retries, asynchronous scheduling, logging, the messages' transport, configuration validation and the user interfaces: they carry no state the properties depend on.
