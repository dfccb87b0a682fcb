/**
  The in-memory candle cache of one exchange: when to refresh, how much to ask for, and how an answer
  is merged (`_now_is_time_to_refresh`, `_build_coroutine`, `_async_get_historic_ohlcv`,
  `_process_ohlcv_df`, `validate_required_startup_candles`).
  Times are in milliseconds; the candle with number `i` opens at `i * timeframe`.
 */
module CandleCache {
  import opened Integers
  import Reals
  import opened Results
  import opened CandleFrames

  datatype Key = Key(pair: string, timeframe: string, candleType: string)

  /** `limit` is the number of candles per response, `calls` the number of calls a cold start takes. */
  datatype Settings = Settings(
    timeframe: int, limit: int, startup: nat, calls: int, requireSince: bool, dropIncomplete: bool)

  /** The cached frame of one key and the recorded date of its newest complete candle (0 if none). */
  datatype Cached = Cached(frame: Option<Frame>, lastRefresh: int)
  datatype Plan = OneCall | Download(since: int)
  datatype ConfigError = TooManyCalls

  /** What a websocket has of a pair: the dates of its candles, and when the last of them came in. */
  datatype Watched = Watched(dates: seq<int>, lastRefresh: int)

  const GRACE := 5
  const MAX_CALLS := 5

  predicate ValidSettings(s: Settings) {
    s.timeframe > 0 && s.limit >= 2 && s.calls >= 1
  }

  // ---------- Frames ----------

  /** A cached frame extended by newly fetched candles; old candles age out. */
  function Join(s: Settings, held: Frame, frame: Frame): Frame
    requires ValidSettings(s)
  {
    Tail(FillMissing(MergeFrames(held, frame), s.timeframe), s.limit + s.startup)
  }

  // ---------- Decisions ----------

  function PrevDate(timeframe: int, now: int): int
    requires timeframe > 0
  {
    now - now % timeframe
  }

  function NextDate(timeframe: int, now: int): int
    requires timeframe > 0
  {
    PrevDate(timeframe, now) + timeframe
  }

  predicate TimeToRefresh(s: Settings, c: Cached, now: int)
    requires s.timeframe > 0
  {
    c.lastRefresh + s.timeframe < PrevDate(s.timeframe, now)
  }

  /** Can one response of `limit` candles still be joined to the cache? */
  predicate OneCallSuffices(s: Settings, c: Cached, now: int)
    requires s.timeframe > 0
  {
    PrevDate(s.timeframe, now) - s.timeframe * (s.limit - GRACE) < c.lastRefresh
  }

  function Evict(s: Settings, c: Cached, now: int): Cached
    requires s.timeframe > 0
  {
    if c.frame.Some? && !OneCallSuffices(s, c, now) then c.(frame := None) else c
  }

  /** Where a download starts that has to fetch everything the calls allow. */
  function ColdStart(s: Settings, now: int): int
    requires s.timeframe > 0
  {
    NextDate(s.timeframe, now) - s.timeframe * s.limit * s.calls
  }

  function ChoosePlan(s: Settings, c: Cached, now: int): Plan
    requires s.timeframe > 0
  {
    var usable := c.frame.Some? && OneCallSuffices(s, c, now);
    var notAllData := s.calls > 1 && !usable;
    if s.requireSince || notAllData
    then Download(ColdStart(s, now))
    else OneCall
  }

  /**
    Can candles from a websocket stand in for a call? They must reach the newest complete candle (a single
    one must come before the open candle), and have come in no earlier than half a candle before that opened.
   */
  predicate IsUsable(s: Settings, now: int, w: Watched)
    requires s.timeframe > 0
  {
    var candle := PrevDate(s.timeframe, now);
    var previous := candle - s.timeframe;
    && w.dates != []
    && var newest := w.dates[|w.dates| - 1];
    && (if |w.dates| > 1 then newest >= previous else newest < candle)
    && w.lastRefresh >= (2 * candle - s.timeframe) / 2
  }

  /**
    In candles: with two or more the newest one is the newest complete candle or a later one, a single one
    is complete; and the last of them came in at most half a candle before the open one opened.
   */
  lemma UsableExactly(s: Settings, now: int, w: Watched)
    requires s.timeframe > 0 && w.dates != []
    ensures var open, newest := now / s.timeframe * s.timeframe, w.dates[|w.dates| - 1];
      IsUsable(s, now, w) <==>
        && (|w.dates| >= 2 ==> newest + s.timeframe >= open)
        && (|w.dates| == 1 ==> newest < open)
        && 2 * (open - w.lastRefresh) <= s.timeframe + 1
  {
    assert now - now % s.timeframe == now / s.timeframe * s.timeframe;
  }

  /** Without candles a websocket is of no use. */
  lemma NothingWatched(s: Settings, now: int, w: Watched)
    requires s.timeframe > 0 && w.dates == []
    ensures !IsUsable(s, now, w)
  {
  }

  function Process(s: Settings, c: Cached, ticks: Frame): Cached
    requires ValidSettings(s)
  {
    var last := if ticks == [] then c.lastRefresh
                else if s.dropIncomplete && |ticks| > 1 then ticks[|ticks| - 2].date
                else ticks[|ticks| - 1].date;
    var frame := CleanFrame(ticks, s.timeframe, c.frame.None?, s.dropIncomplete);
    if c.frame.None? then Cached(Some(frame), last)
    else Cached(Some(Join(s, c.frame.value, frame)), last)
  }

  /**
    One call suffices exactly if the exchange can do without a start and either the cache reaches back far
    enough or everything fits into one response. A download starts as many responses back as there are calls.
   */
  lemma PlanExactly(s: Settings, c: Cached, now: int)
    requires ValidSettings(s)
    ensures var plan := ChoosePlan(s, c, now);
      && (plan == OneCall <==> !s.requireSince && (s.calls == 1 || (c.frame.Some? && OneCallSuffices(s, c, now))))
      && (plan != OneCall ==> plan == Download((now / s.timeframe + 1 - s.limit * s.calls) * s.timeframe))
  {
    var open, n := now / s.timeframe, s.limit * s.calls;
    assert now == open * s.timeframe + now % s.timeframe;
    assert s.timeframe * s.limit * s.calls == n * s.timeframe;
    assert (open + 1 - n) * s.timeframe == (open + 1) * s.timeframe - n * s.timeframe;
  }

  /** Number of calls a cold start needs; one more candle is fetched for the one still open. */
  function RequiredCalls(startup: nat, limit: int, hasHistory: bool): (r: Result<int, ConfigError>)
    requires limit > 0
    ensures r.Ok? ==>
      && 1 <= r.value <= MAX_CALLS
      && (r.value - 1) * limit < startup + 1 <= r.value * limit
      && (!hasHistory ==> r.value == 1)
    ensures r.Err? <==> startup + 1 > limit * (if hasHistory then MAX_CALLS else 1)
  {
    var count := startup + 1;
    var calls := (count as real / limit as real + if count % limit == 0 then 0.0 else 1.0).Floor;
    RoundUpDivision(count, limit);
    MultiplesOfLimit(calls, limit);
    if hasHistory then (if calls > MAX_CALLS then Err(TooManyCalls) else Ok(calls))
    else if calls > 1 then Err(TooManyCalls)
    else Ok(calls)
  }

  lemma RoundUpDivision(count: int, limit: int)
    requires limit > 0 && count > 0
    ensures var calls := (count as real / limit as real + if count % limit == 0 then 0.0 else 1.0).Floor;
      calls >= 1 && (calls - 1) * limit < count <= calls * limit
  {
    var q, r := count / limit, count % limit;
    assert count == q * limit + r;
    FloorOfQuotient(count, limit);
    var x := count as real / limit as real;
    assert (x + 1.0).Floor == x.Floor + 1;
    assert (q - 1) * limit == q * limit - limit;
    assert (q + 1) * limit == q * limit + limit;
  }

  lemma FloorOfQuotient(count: int, limit: int)
    requires limit > 0
    ensures (count as real / limit as real).Floor == count / limit
  {
    var q, r := count / limit, count % limit;
    assert count == q * limit + r;
    assert (q + 1) * limit == q * limit + limit;
    assert (q * limit) as real == q as real * limit as real;
    assert ((q + 1) * limit) as real == (q + 1) as real * limit as real;
    Reals.QuotientAtMost(count as real, limit as real, q as real);
    Reals.QuotientAtMost(count as real, limit as real, (q + 1) as real);
  }

  lemma MultiplesOfLimit(calls: int, limit: int)
    requires limit > 0
    ensures calls > MAX_CALLS ==> (calls - 1) * limit >= MAX_CALLS * limit
    ensures calls <= MAX_CALLS ==> calls * limit <= MAX_CALLS * limit
    ensures calls > 1 ==> (calls - 1) * limit >= limit
  {
  }

  /** Candle `i` is complete at `now`, and newer than the newest one recorded. */
  predicate IsMissing(s: Settings, c: Cached, now: int, i: int) {
    c.lastRefresh < i * s.timeframe && (i + 1) * s.timeframe <= now
  }

  /** A refresh is due exactly when some complete candle is missing, whatever date is recorded. */
  lemma MissingExactly(s: Settings, c: Cached, now: int)
    requires ValidSettings(s)
    ensures TimeToRefresh(s, c, now) <==> exists i :: IsMissing(s, c, now, i)
  {
    var last := now / s.timeframe - 1;
    LastComplete(s.timeframe, now, last);
    if TimeToRefresh(s, c, now) {
      assert IsMissing(s, c, now, last);
    }
    if i :| IsMissing(s, c, now, i) {
      LastComplete(s.timeframe, now, i);
    }
  }

  lemma LastComplete(timeframe: int, now: int, i: int)
    requires timeframe > 0
    ensures (i + 1) * timeframe <= now <==> i <= now / timeframe - 1
    ensures PrevDate(timeframe, now) - timeframe == (now / timeframe - 1) * timeframe
    ensures i <= now / timeframe - 1 ==> i * timeframe <= (now / timeframe - 1) * timeframe
  {
    var open := now / timeframe;
    assert now == open * timeframe + now % timeframe;
    Earlier(timeframe, i + 1, open + 1);
    Earlier(timeframe, open, i + 1);
    Earlier(timeframe, open - 1, i);
    Earlier(timeframe, open, open - 1);
  }

  // ---------- The cache ----------

  class OhlcvCache {
    var klines: map<Key, Frame>
    var lastRefreshTime: map<Key, int>

    function Entry(key: Key): Cached
      reads this
    {
      Cached(if key in klines then Some(klines[key]) else None,
             if key in lastRefreshTime then lastRefreshTime[key] else 0)
    }

    constructor ()
      ensures forall key :: Entry(key) == Cached(None, 0)
    {
      klines, lastRefreshTime := map[], map[];
    }

    method NowIsTimeToRefresh(key: Key, s: Settings, now: int) returns (due: bool)
      requires ValidSettings(s)
      ensures due <==> exists i :: IsMissing(s, Entry(key), now, i)
    {
      var last := if key in lastRefreshTime then lastRefreshTime[key] else 0;
      due := last + s.timeframe < PrevDate(s.timeframe, now);
      MissingExactly(s, Entry(key), now);
    }

    /**
      `since` is a start the caller asks for; without `cache` the cached frames are neither used nor
      changed. There is no plan if the candles `watched` on a websocket, where one is in use, do.
     */
    method BuildCoroutine(key: Key, s: Settings, now: int, since: Option<int>, cache: bool, watched: Option<Watched>)
      returns (plan: Option<Plan>)
      requires ValidSettings(s)
      modifies this
      ensures plan.None? <==>
        cache && old(Entry(key)).frame.Some? && watched.Some? && IsUsable(s, now, watched.value)
      ensures plan.Some? ==>
        plan.value == if since.GetOr(0) != 0 then Download(since.value)
                      else if cache then ChoosePlan(s, old(Entry(key)), now)
                      else if s.requireSince then Download(ColdStart(s, now)) else OneCall
      ensures plan.Some? && s.requireSince ==> plan.value.Download?
      ensures Entry(key) == if cache && plan.Some? then Evict(s, old(Entry(key)), now) else old(Entry(key))
      ensures forall k :: k != key ==> Entry(k) == old(Entry(k))
    {
      var notAllData := cache && s.calls > 1;
      if cache && key in klines {
        var minTs := PrevDate(s.timeframe, now) - s.timeframe * (s.limit - GRACE);
        if watched.Some? && IsUsable(s, now, watched.value) {
          return None;
        }
        var last := if key in lastRefreshTime then lastRefreshTime[key] else 0;
        if minTs < last {
          notAllData := false;
        } else {
          klines := klines - {key};
        }
      }
      if since.GetOr(0) != 0 {
        plan := Some(Download(since.value));
      } else if s.requireSince || notAllData {
        var oneCall := s.timeframe * s.limit;
        var moveTo := oneCall * s.calls;
        plan := Some(Download(NextDate(s.timeframe, now) - moveTo));
      } else {
        plan := Some(OneCall);
      }
    }

    method ProcessOhlcvDf(key: Key, s: Settings, ticks: Frame, cache: bool) returns (frame: Frame)
      requires ValidSettings(s)
      modifies this
      ensures cache ==> Entry(key) == Process(s, old(Entry(key)), ticks) && Entry(key).frame == Some(frame)
      ensures !cache ==> Entry(key) == old(Entry(key)) && Process(s, Cached(None, 0), ticks).frame == Some(frame)
      ensures forall k :: k != key ==> Entry(k) == old(Entry(k))
    {
      if !cache {
        frame := CleanFrame(ticks, s.timeframe, true, s.dropIncomplete);
        return;
      }
      if ticks != [] {
        var back := if s.dropIncomplete && |ticks| > 1 then 2 else 1;
        lastRefreshTime := lastRefreshTime[key := ticks[|ticks| - back].date];
      }
      frame := CleanFrame(ticks, s.timeframe, key !in klines, s.dropIncomplete);
      if key in klines {
        frame := Join(s, klines[key], frame);
      }
      klines := klines[key := frame];
    }
  }

  // ---------- The exchange ----------

  /** `final(i)` is candle `i` once it is complete; no candle before `genesis` exists. */
  datatype Exchange = Exchange(final: int -> Tick, genesis: int)

  /**
    One visit to the cache: decided at `now`, the download's range ends at `until`, and the exchange
    answers while candle `seen` is open and looks like `live`. `arrived` is false if the call failed.
   */
  datatype Visit = Visit(now: int, until: int, seen: int, live: Tick, arrived: bool)

  function View(x: Exchange, v: Visit): int -> Tick {
    i => if i < v.seen then x.final(i) else v.live
  }

  /** The end of what the exchange returns: the open candle is included only if the cache drops it. */
  function VisibleEnd(s: Settings, v: Visit): int {
    if s.dropIncomplete then v.seen + 1 else v.seen
  }

  function Chunk(s: Settings, x: Exchange, v: Visit, since: int): Frame
    requires s.timeframe > 0
  {
    var from := since / s.timeframe;
    Slice(View(x, v), Max(x.genesis, from), Min(from + s.limit, VisibleEnd(s, v)))
  }

  /** One call per `step`, from `since` up to but excluding `until`, in order of time. */
  function History(s: Settings, x: Exchange, v: Visit, since: int): Frame
    requires ValidSettings(s)
    decreases v.until - since
  {
    if since >= v.until then []
    else
      StepIsPositive(s);
      Chunk(s, x, v, since) + History(s, x, v, since + s.timeframe * s.limit)
  }

  lemma StepIsPositive(s: Settings)
    requires ValidSettings(s)
    ensures s.timeframe * s.limit > 0
  {
  }

  method GetHistoricOhlcv(s: Settings, x: Exchange, v: Visit, since: int) returns (data: Frame)
    requires ValidSettings(s)
    ensures data == History(s, x, v, since)
  {
    StepIsPositive(s);
    var start := since;
    data := [];
    while start < v.until
      invariant data + History(s, x, v, start) == History(s, x, v, since)
      decreases v.until - start
    {
      data := data + Chunk(s, x, v, start);
      start := start + s.timeframe * s.limit;
    }
  }

  function Answer(s: Settings, x: Exchange, v: Visit, plan: Plan): Frame
    requires ValidSettings(s)
  {
    match plan
    case OneCall =>
      Slice(View(x, v), Max(x.genesis, VisibleEnd(s, v) - s.limit), VisibleEnd(s, v))
    case Download(since) => History(s, x, v, since)
  }

  predicate Due(s: Settings, c: Cached, now: int)
    requires s.timeframe > 0
  {
    c.frame.None? || TimeToRefresh(s, c, now)
  }

  function Refresh(s: Settings, x: Exchange, c: Cached, v: Visit): Cached
    requires ValidSettings(s)
  {
    if !Due(s, c, v.now) then c
    else if !v.arrived then Evict(s, c, v.now)
    else Process(s, Evict(s, c, v.now), Answer(s, x, v, ChoosePlan(s, c, v.now)))
  }

  // ---------- Pieces ----------

  /**
    The cached frame is an unbroken piece of the exchange's own complete candles, ending with the
    candle whose date is recorded; nothing in it was made up.
   */
  ghost predicate Faithful(s: Settings, x: Exchange, c: Cached)
    requires s.timeframe > 0
  {
    c.frame.Some? ==>
      var hi := End(s, c);
      var n := |c.frame.value|;
      && n > 0 && c.lastRefresh == (hi - 1) * s.timeframe
      && x.genesis <= hi - n
      && c.frame.value == Slice(x.final, hi - n, hi)
  }

  /** The number of the first candle after the cached ones. */
  function End(s: Settings, c: Cached): int
    requires s.timeframe > 0
  {
    c.lastRefresh / s.timeframe + 1
  }

  ghost predicate Honest(s: Settings, x: Exchange) {
    && ValidSettings(s)
    && forall i :: x.final(i).date == i * s.timeframe
  }

  /** The visit happens after candle `genesis` completed, and is answered no earlier than it is decided. */
  predicate Timely(s: Settings, x: Exchange, v: Visit)
    requires s.timeframe > 0
  {
    var open := v.now / s.timeframe;
    && x.genesis < open <= v.seen
    && v.now <= v.until
    && v.live.date == v.seen * s.timeframe
  }

  /** Is this an answer of one call that is joined to the frame kept so far? */
  predicate IsJoined(s: Settings, c: Cached, v: Visit)
    requires s.timeframe > 0
  {
    Due(s, c, v.now) && v.arrived && Evict(s, c, v.now).frame.Some? && ChoosePlan(s, c, v.now).OneCall?
  }

  /**
    Only such an answer must not be too late: it ends at most seven candles after the one open at the
    decision, that one counted.
   */
  predicate NotTooLate(s: Settings, c: Cached, v: Visit)
    requires s.timeframe > 0
  {
    IsJoined(s, c, v) ==> VisibleEnd(s, v) <= v.now / s.timeframe + GRACE + 2
  }

  function CompleteEnd(s: Settings, l: int): int {
    if s.dropIncomplete then l - 1 else l
  }

  /** An answer for the candles `a..l`, cleaned, is the complete ones among them. */
  lemma CleanSlice(s: Settings, x: Exchange, v: Visit, a: int, l: int, fill: bool)
    requires Honest(s, x) && v.live.date == v.seen * s.timeframe
    requires l <= VisibleEnd(s, v) && a < CompleteEnd(s, l)
    ensures var ticks := Slice(View(x, v), a, l);
      var e := CompleteEnd(s, l);
      && CleanFrame(ticks, s.timeframe, fill, s.dropIncomplete) == Slice(x.final, a, e)
      && |ticks| == l - a && (s.dropIncomplete ==> |ticks| > 1)
      && ticks[e - 1 - a].date == (e - 1) * s.timeframe
  {
    var e, ticks := CompleteEnd(s, l), Slice(View(x, v), a, l);
    assert GroupTicks(ticks) == ticks by {
      DatedIsRising(View(x, v), s.timeframe, a, l);
      GroupSlice(View(x, v), a, l);
    }
    CompletePart(s, x, v, a, l);
    assert FillMissing(Slice(x.final, a, e), s.timeframe) == Slice(x.final, a, e) by {
      FillSlice(x.final, s.timeframe, a, e);
    }
  }

  lemma CompletePart(s: Settings, x: Exchange, v: Visit, a: int, l: int)
    requires l <= VisibleEnd(s, v) && a < CompleteEnd(s, l)
    ensures var ticks, e := Slice(View(x, v), a, l), CompleteEnd(s, l);
      && |ticks| == l - a && ticks[e - 1 - a] == x.final(e - 1)
      && (if s.dropIncomplete then ticks[..|ticks| - 1] else ticks) == Slice(x.final, a, e)
  {
  }

  /** What an answer for the candles `a..l` does to an empty cache. */
  lemma ProcessFresh(s: Settings, x: Exchange, v: Visit, c: Cached, a: int, l: int)
    requires Honest(s, x) && v.live.date == v.seen * s.timeframe && c.frame.None?
    requires x.genesis <= a < CompleteEnd(s, l) && l <= VisibleEnd(s, v)
    ensures var r := Process(s, c, Slice(View(x, v), a, l));
      && r.frame.Some? && Faithful(s, x, r)
      && End(s, r) == CompleteEnd(s, l) && |r.frame.value| == CompleteEnd(s, l) - a
  {
    CleanSlice(s, x, v, a, l, true);
    EndOf(s.timeframe, CompleteEnd(s, l));
  }

  /** What an answer for the candles `a..l` does to a cache it overlaps or adjoins. */
  lemma ProcessJoined(s: Settings, x: Exchange, v: Visit, c: Cached, a: int, l: int)
    requires Honest(s, x) && v.live.date == v.seen * s.timeframe && c.frame.Some? && Faithful(s, x, c)
    requires x.genesis <= a < CompleteEnd(s, l) && l <= VisibleEnd(s, v)
    requires a <= End(s, c) <= CompleteEnd(s, l)
    ensures var r := Process(s, c, Slice(View(x, v), a, l));
      && r.frame.Some? && Faithful(s, x, r) && End(s, r) == CompleteEnd(s, l)
      && |r.frame.value| == Min(s.limit + s.startup, End(s, r) - Min(a, End(s, c) - |c.frame.value|))
  {
    var e, hi, n := CompleteEnd(s, l), End(s, c), |c.frame.value|;
    var from := Max(Min(hi - n, a), e - (s.limit + s.startup));
    var ticks := Slice(View(x, v), a, l);
    var piece := JoinedSlice(s, x, v, c.frame.value, hi - n, hi, a, l, from);
    ProcessedPiece(s, x, c, ticks, piece, from, e);
  }

  lemma JoinedSlice(s: Settings, x: Exchange, v: Visit, held: Frame, lo: int, hi: int, a: int, l: int, from: int)
    returns (piece: Frame)
    requires Honest(s, x) && v.live.date == v.seen * s.timeframe && held == Slice(x.final, lo, hi)
    requires a < CompleteEnd(s, l) && l <= VisibleEnd(s, v)
    requires lo <= hi && a <= hi <= CompleteEnd(s, l)
    requires from == Max(Min(lo, a), CompleteEnd(s, l) - (s.limit + s.startup))
    ensures var ticks, e := Slice(View(x, v), a, l), CompleteEnd(s, l);
      && ticks != [] && (s.dropIncomplete ==> |ticks| > 1)
      && ticks[|ticks| - if s.dropIncomplete then 2 else 1].date == (e - 1) * s.timeframe
      && CleanFrame(ticks, s.timeframe, false, s.dropIncomplete) == piece
      && Join(s, held, piece) == Slice(x.final, from, e)
  {
    CleanSlice(s, x, v, a, l, false);
    piece := Slice(x.final, a, CompleteEnd(s, l));
    JoinPieces(s, x, lo, hi, a, CompleteEnd(s, l));
  }

  /** A join that gives the candles `from..e` leaves the cache faithful. */
  lemma ProcessedPiece(s: Settings, x: Exchange, c: Cached, ticks: Frame, piece: Frame, from: int, e: int)
    requires Honest(s, x) && c.frame.Some? && x.genesis <= from < e
    requires ticks != [] && (s.dropIncomplete ==> |ticks| > 1)
    requires ticks[|ticks| - if s.dropIncomplete then 2 else 1].date == (e - 1) * s.timeframe
    requires CleanFrame(ticks, s.timeframe, false, s.dropIncomplete) == piece
    requires Join(s, c.frame.value, piece) == Slice(x.final, from, e)
    ensures var r := Process(s, c, ticks);
      r.frame.Some? && Faithful(s, x, r) && End(s, r) == e && |r.frame.value| == e - from
  {
    assert Process(s, c, ticks) == Cached(Some(Slice(x.final, from, e)), (e - 1) * s.timeframe);
    EndOf(s.timeframe, e);
  }

  lemma JoinSteps(s: Settings, held: Frame, next: Frame, merged: Frame, filled: Frame, kept: Frame)
    requires ValidSettings(s) && MergeFrames(held, next) == merged && FillMissing(merged, s.timeframe) == filled
    requires Tail(filled, s.limit + s.startup) == kept
    ensures Join(s, held, next) == kept
  {
  }

  /** A join whose filled frame is a piece of history keeps the newest candles of it. */
  lemma FilledTail(s: Settings, history: int -> Tick, held: Frame, next: Frame, merged: Frame, b: int, end: int)
    returns (from: int)
    requires ValidSettings(s) && b <= end && merged == MergeFrames(held, next)
    requires FillMissing(merged, s.timeframe) == Slice(history, b, end)
    ensures from == Max(b, end - (s.limit + s.startup)) && Join(s, held, next) == Slice(history, from, end)
  {
    from := Max(b, end - (s.limit + s.startup));
    TailSlice(history, b, end, s.limit + s.startup);
    JoinSteps(s, held, next, merged, Slice(history, b, end), Slice(history, from, end));
  }

  lemma JoinPieces(s: Settings, x: Exchange, lo: int, hi: int, a: int, e: int)
    requires Honest(s, x) && lo <= hi && a <= hi <= e
    ensures Join(s, Slice(x.final, lo, hi), Slice(x.final, a, e))
      == Slice(x.final, Max(Min(lo, a), e - (s.limit + s.startup)), e)
  {
    MergePieces(s, x, lo, hi, a, e);
    var from := FilledTail(
      s, x.final, Slice(x.final, lo, hi), Slice(x.final, a, e), Slice(x.final, Min(lo, a), e), Min(lo, a), e);
  }

  lemma MergePieces(s: Settings, x: Exchange, lo: int, hi: int, a: int, e: int)
    requires Honest(s, x) && lo <= hi && a <= hi <= e
    ensures var joined := Slice(x.final, Min(lo, a), e);
      && MergeFrames(Slice(x.final, lo, hi), Slice(x.final, a, e)) == joined
      && FillMissing(joined, s.timeframe) == joined
  {
    DatedIsRising(x.final, s.timeframe, Min(lo, a), e);
    MergeSlices(x.final, lo, hi, a, e);
    FillSlice(x.final, s.timeframe, Min(lo, a), e);
  }

  // ---------- What the guards mean in candles ----------

  lemma OpenCandle(timeframe: int, now: int)
    requires timeframe > 0
    ensures PrevDate(timeframe, now) == (now / timeframe) * timeframe
    ensures NextDate(timeframe, now) == (now / timeframe + 1) * timeframe
  {
    Earlier(timeframe, now / timeframe, 0);
  }

  /** The guard for a single call, for a cache that ends before candle `hi`. */
  predicate GuardPasses(s: Settings, open: int, hi: int) {
    hi >= open - s.limit + GRACE + 2
  }

  lemma GuardsInCandles(s: Settings, x: Exchange, c: Cached, now: int)
    requires Honest(s, x) && Faithful(s, x, c) && c.frame.Some?
    ensures TimeToRefresh(s, c, now) <==> End(s, c) < now / s.timeframe
    ensures OneCallSuffices(s, c, now) <==> GuardPasses(s, now / s.timeframe, End(s, c))
  {
    var open, hi := now / s.timeframe, End(s, c);
    OpenCandle(s.timeframe, now);
    Earlier(s.timeframe, hi - 1, hi);
    Earlier(s.timeframe, hi, open);
    Earlier(s.timeframe, open - (s.limit - GRACE), hi - 1);
    assert (open - (s.limit - GRACE)) * s.timeframe == open * s.timeframe - s.timeframe * (s.limit - GRACE);
  }

  /** A refresh is skipped exactly when the newest complete candle is already cached. */
  lemma SkippedExactlyWhenCurrent(s: Settings, x: Exchange, c: Cached, now: int)
    requires Honest(s, x) && Faithful(s, x, c) && c.frame.Some?
    ensures !Due(s, c, now) <==> End(s, c) >= now / s.timeframe
    ensures !Due(s, c, now) && End(s, c) <= now / s.timeframe ==>
      c.frame.value[|c.frame.value| - 1] == x.final(now / s.timeframe - 1)
  {
    GuardsInCandles(s, x, c, now);
  }

  // ---------- Downloads ----------

  lemma {:induction false} HistoryIsSlice(s: Settings, x: Exchange, v: Visit, from: int)
    returns (k: nat, to: int)
    requires ValidSettings(s)
    ensures to == from + k * s.limit && to >= from && to * s.timeframe >= v.until
    ensures History(s, x, v, from * s.timeframe)
      == Slice(View(x, v), Max(x.genesis, from), Min(VisibleEnd(s, v), to))
    decreases v.until - from * s.timeframe
  {
    if from * s.timeframe >= v.until {
      k, to := 0, from;
    } else {
      NextChunk(s, from);
      k, to := HistoryIsSlice(s, x, v, from + s.limit);
      assert (k + 1) * s.limit == k * s.limit + s.limit;
      k := k + 1;
      Adjoin(View(x, v), x.genesis, from, s.limit, VisibleEnd(s, v), to);
    }
  }

  lemma NextChunk(s: Settings, from: int)
    requires ValidSettings(s)
    ensures from * s.timeframe + s.timeframe * s.limit == (from + s.limit) * s.timeframe
    ensures s.timeframe * s.limit > 0
    ensures (from * s.timeframe) / s.timeframe == from
  {
    EndOf(s.timeframe, from + 1);
  }

  lemma Adjoin(view: int -> Tick, genesis: int, from: int, limit: int, end: int, to: int)
    requires limit > 0 && to >= from + limit
    ensures Slice(view, Max(genesis, from), Min(from + limit, end))
          + Slice(view, Max(genesis, from + limit), Min(end, to))
      == Slice(view, Max(genesis, from), Min(end, to))
  {
  }

  /** The first candle a cold start asks for. */
  function FirstWanted(s: Settings, now: int): int
    requires s.timeframe > 0
  {
    now / s.timeframe + 1 - s.limit * s.calls
  }

  lemma FirstWantedIsEarly(s: Settings, now: int)
    requires ValidSettings(s)
    ensures FirstWanted(s, now) <= now / s.timeframe + 1 - s.limit
    ensures ColdStart(s, now) == FirstWanted(s, now) * s.timeframe
  {
    OpenCandle(s.timeframe, now);
    assert s.limit * s.calls >= s.limit;
    var open, n := now / s.timeframe, s.limit * s.calls;
    assert s.timeframe * s.limit * s.calls == n * s.timeframe;
    assert (open + 1 - n) * s.timeframe == (open + 1) * s.timeframe - n * s.timeframe;
  }

  /** Every answer is one piece of history that reaches the newest complete candle. */
  lemma AnswerIsSlice(s: Settings, x: Exchange, v: Visit, plan: Plan) returns (a: int, l: int)
    requires Honest(s, x) && Timely(s, x, v)
    requires plan == OneCall || plan == Download(FirstWanted(s, v.now) * s.timeframe)
    ensures Answer(s, x, v, plan) == Slice(View(x, v), a, l) && l <= VisibleEnd(s, v)
    ensures a == Max(x.genesis, if plan.OneCall? then VisibleEnd(s, v) - s.limit else FirstWanted(s, v.now))
    ensures v.now / s.timeframe <= CompleteEnd(s, l) <= v.seen
    ensures plan.OneCall? ==> l == VisibleEnd(s, v)
  {
    if plan == OneCall {
      a, l := Max(x.genesis, VisibleEnd(s, v) - s.limit), VisibleEnd(s, v);
    } else {
      var from := FirstWanted(s, v.now);
      var k, to := HistoryIsSlice(s, x, v, from);
      a, l := Max(x.genesis, from), Min(VisibleEnd(s, v), to);
      ReachesOpenCandle(s, v.now, v.until, k);
    }
  }

  lemma ReachesOpenCandle(s: Settings, now: int, until: int, k: nat)
    requires ValidSettings(s)
    ensures now <= until <= (FirstWanted(s, now) + k * s.limit) * s.timeframe ==>
      FirstWanted(s, now) + k * s.limit >= now / s.timeframe + 1
  {
    var open, to := now / s.timeframe, FirstWanted(s, now) + k * s.limit;
    OpenCandle(s.timeframe, now);
    Earlier(s.timeframe, to, open);
    assert to - (open + 1) == (k - s.calls) * s.limit;
    SignOfProduct(k - s.calls, s.limit);
  }

  lemma SignOfProduct(n: int, m: int)
    requires m > 0
    ensures n < 0 ==> n * m <= -m
    ensures n >= 0 ==> n * m >= 0
  {
  }

  // ---------- Whole runs ----------

  /** There are enough candles for the strategy whenever the exchange has that many. */
  predicate Warm(s: Settings, c: Cached) {
    c.frame.Some? ==> |c.frame.value| >= s.startup
  }

  /**
    One visit. The cache stays an unbroken piece of genuine candles; unless the call failed it then
    contains the newest candle complete at the decision; and it never gets too short.
   */
  lemma RefreshKeepsFaithful(s: Settings, x: Exchange, c: Cached, v: Visit)
    requires Honest(s, x) && Faithful(s, x, c) && Timely(s, x, v) && NotTooLate(s, c, v)
    requires c.frame.Some? ==> End(s, c) <= v.now / s.timeframe
    ensures var r := Refresh(s, x, c, v);
      && Faithful(s, x, r)
      && (r.frame.Some? ==> End(s, r) <= v.seen)
      && (v.arrived || !Due(s, c, v.now) ==> r.frame.Some? && End(s, r) >= v.now / s.timeframe)
      && (Warm(s, c) && s.startup + 1 <= s.calls * s.limit && x.genesis <= FirstWanted(s, v.now) ==> Warm(s, r))
  {
    if c.frame.Some? {
      GuardsInCandles(s, x, c, v.now);
    }
    if Due(s, c, v.now) && v.arrived {
      FirstWantedIsEarly(s, v.now);
      var a, e := ArrivalKeepsFaithful(s, x, c, v);
      if Warm(s, c) && s.startup + 1 <= s.calls * s.limit && x.genesis <= FirstWanted(s, v.now) {
        LengthSuffices(s, x, c, v, a, e);
      }
    }
  }

  /** The length of the frame after an answer from candle `a` on that reached the end `e`. */
  function Length(s: Settings, c: Cached, now: int, a: int, e: int): int
    requires s.timeframe > 0
  {
    match Evict(s, c, now).frame
    case None => e - a
    case Some(held) => Min(s.limit + s.startup, e - Min(a, End(s, c) - |held|))
  }

  function AnswerStart(s: Settings, x: Exchange, v: Visit, plan: Plan): int
    requires s.timeframe > 0
  {
    Max(x.genesis, if plan.OneCall? then VisibleEnd(s, v) - s.limit else FirstWanted(s, v.now))
  }

  lemma ArrivalKeepsFaithful(s: Settings, x: Exchange, c: Cached, v: Visit) returns (a: int, e: int)
    requires Honest(s, x) && Faithful(s, x, c) && Timely(s, x, v) && NotTooLate(s, c, v)
    requires Due(s, c, v.now) && v.arrived
    requires c.frame.Some? ==> End(s, c) <= v.now / s.timeframe
    requires c.frame.Some? ==> (OneCallSuffices(s, c, v.now) <==> GuardPasses(s, v.now / s.timeframe, End(s, c)))
    requires FirstWanted(s, v.now) <= v.now / s.timeframe + 1 - s.limit
    requires ColdStart(s, v.now) == FirstWanted(s, v.now) * s.timeframe
    ensures var r := Refresh(s, x, c, v);
      && r.frame.Some? && Faithful(s, x, r) && e == End(s, r) && |r.frame.value| == Length(s, c, v.now, a, e)
    ensures v.now / s.timeframe <= e <= v.seen && a == AnswerStart(s, x, v, ChoosePlan(s, c, v.now))
    ensures ChoosePlan(s, c, v.now).OneCall? ==> e == v.seen
  {
    var plan, held := ChoosePlan(s, c, v.now), Evict(s, c, v.now);
    var l: int;
    a, l := AnswerIsSlice(s, x, v, plan);
    e := CompleteEnd(s, l);
    if held.frame.None? {
      ProcessFresh(s, x, v, held, a, l);
    } else {
      ProcessJoined(s, x, v, held, a, l);
    }
  }

  lemma LengthSuffices(s: Settings, x: Exchange, c: Cached, v: Visit, a: int, e: int)
    requires ValidSettings(s) && Warm(s, c) && s.startup + 1 <= s.calls * s.limit
    requires c.frame.Some? ==> End(s, c) <= v.now / s.timeframe
    requires x.genesis <= FirstWanted(s, v.now) && v.now / s.timeframe <= e <= v.seen
    requires a == AnswerStart(s, x, v, ChoosePlan(s, c, v.now)) && Timely(s, x, v)
    requires ChoosePlan(s, c, v.now).OneCall? ==> e == v.seen
    ensures Length(s, c, v.now, a, e) >= s.startup
  {
  }

  function RunVisits(s: Settings, x: Exchange, c: Cached, visits: seq<Visit>): Cached
    requires ValidSettings(s)
    decreases visits
  {
    if visits == [] then c else RunVisits(s, x, Refresh(s, x, c, visits[0]), visits[1..])
  }

  /** Along the run, no answer of one call that is joined to a kept frame is too late. */
  predicate NeverTooLate(s: Settings, x: Exchange, c: Cached, visits: seq<Visit>)
    requires ValidSettings(s)
    decreases visits
  {
    visits == []
    || (NotTooLate(s, c, visits[0]) && NeverTooLate(s, x, Refresh(s, x, c, visits[0]), visits[1..]))
  }

  /** Visits in order of time: each is decided no earlier than the one before was answered. */
  predicate Schedule(s: Settings, x: Exchange, visits: seq<Visit>)
    requires s.timeframe > 0
  {
    && (forall i :: 0 <= i < |visits| ==> Timely(s, x, visits[i]))
    && (forall i :: 0 < i < |visits| ==> visits[i - 1].seen <= visits[i].now / s.timeframe)
  }

  /**
    Over whole runs, with refreshes skipped, answered, failed, restarted after a pause or extended,
    the cache never holds a made-up candle or a hole. If the calls cover the start-up candles and the
    history reaches back to the first cold start, it holds those whenever it holds anything.
   */
  lemma {:induction false} CacheStaysFaithful(s: Settings, x: Exchange, c: Cached, visits: seq<Visit>)
    requires Honest(s, x) && Faithful(s, x, c) && Schedule(s, x, visits) && NeverTooLate(s, x, c, visits)
    requires visits != [] && c.frame.Some? ==> End(s, c) <= visits[0].now / s.timeframe
    ensures var end := RunVisits(s, x, c, visits);
      && Faithful(s, x, end)
      && (visits != [] && visits[|visits| - 1].arrived ==>
            end.frame.Some? && End(s, end) >= visits[|visits| - 1].now / s.timeframe)
    ensures Warm(s, c) && s.startup + 1 <= s.calls * s.limit ==>
      (visits != [] ==> x.genesis <= FirstWanted(s, visits[0].now)) ==> Warm(s, RunVisits(s, x, c, visits))
    decreases visits
  {
    if visits != [] {
      var v, rest := visits[0], visits[1..];
      var next := Refresh(s, x, c, v);
      RefreshKeepsFaithful(s, x, c, v);
      if rest != [] {
        assert rest[0] == visits[1];
        assert Schedule(s, x, rest);
        CacheStaysFaithful(s, x, next, rest);
      } else {
        assert RunVisits(s, x, next, []) == next;
      }
    }
  }
}
