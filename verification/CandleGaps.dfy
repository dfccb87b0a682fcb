/**
  The candle cache on an exchange that sends no candle where there was no trade: what it holds over whole
  runs is the filling of the traded candles.
 */
module CandleGaps {
  import opened Integers
  import opened Results
  import opened CandleFrames
  import opened CandleCache

  /** `traded(i)` is candle `i` once it is complete, if it had a trade; the first trade was in candle `genesis`. */
  datatype Market = Market(traded: int -> Option<Tick>, genesis: int)

  /**
    One visit to the cache, as in `CandleCache.Visit`; `live` is the open candle at the answer, if it has
    a trade yet. A single call is answered for the candles from number `from` on: exchanges that count only
    candles with trades reach further back.
   */
  datatype Update = Update(now: int, until: int, seen: int, from: int, live: Option<Tick>, arrived: bool)

  // ---------- Frames with candles left out ----------

  /** The candles among `lo..hi` that `view` has. */
  function Shown(view: int -> Option<Tick>, lo: int, hi: int): Frame
    decreases hi - lo
  {
    if lo >= hi then []
    else (match view(lo) case Some(t) => [t] case None => []) + Shown(view, lo + 1, hi)
  }

  ghost predicate OnGrid(view: int -> Option<Tick>, timeframe: int) {
    forall i :: view(i).Some? ==> view(i).value.date == i * timeframe
  }

  lemma {:induction false} ShownIsSorted(view: int -> Option<Tick>, timeframe: int, lo: int, hi: int)
    requires timeframe > 0 && OnGrid(view, timeframe)
    ensures Sorted(Shown(view, lo, hi))
    ensures forall k :: 0 <= k < |Shown(view, lo, hi)| ==> Shown(view, lo, hi)[k].date >= lo * timeframe
    decreases hi - lo
  {
    if lo < hi {
      ShownIsSorted(view, timeframe, lo + 1, hi);
      Earlier(timeframe, lo, lo + 1);
    }
  }

  lemma {:induction false} GroupSorted(f: Frame)
    requires Sorted(f)
    ensures GroupTicks(f) == f
    decreases |f|
  {
    if |f| > 1 {
      assert f[0].date < f[1].date;
      GroupSorted(f[1..]);
    }
  }

  lemma {:induction false} ShownSplit(view: int -> Option<Tick>, lo: int, mid: int, hi: int)
    requires lo <= mid <= hi
    ensures Shown(view, lo, hi) == Shown(view, lo, mid) + Shown(view, mid, hi)
    decreases mid - lo
  {
    if lo < mid {
      ShownSplit(view, lo + 1, mid, hi);
    }
  }

  lemma {:induction false} ShownNone(view: int -> Option<Tick>, lo: int, hi: int)
    requires forall i :: lo <= i < hi ==> view(i).None?
    ensures Shown(view, lo, hi) == []
    decreases hi - lo
  {
    if lo < hi {
      ShownNone(view, lo + 1, hi);
    }
  }

  lemma {:induction false} ShownAlike(p: int -> Option<Tick>, q: int -> Option<Tick>, lo: int, hi: int)
    requires forall i :: lo <= i < hi ==> p(i) == q(i)
    ensures Shown(p, lo, hi) == Shown(q, lo, hi)
    decreases hi - lo
  {
    if lo < hi {
      ShownAlike(p, q, lo + 1, hi);
    }
  }

  /** The newest candle among `lo..hi` that `view` has, `lo - 1` if there is none. */
  function Newest(view: int -> Option<Tick>, lo: int, hi: int): (k: int)
    ensures lo - 1 <= k && (k < hi || k == lo - 1)
    ensures k >= lo ==> view(k).Some?
    ensures forall i :: lo <= i < hi && view(i).Some? ==> i <= k
    decreases hi - lo
  {
    if lo >= hi then lo - 1
    else if view(hi - 1).Some? then hi - 1
    else Newest(view, lo, hi - 1)
  }

  lemma ShownUpToNewest(view: int -> Option<Tick>, lo: int, hi: int)
    ensures var k := Newest(view, lo, hi);
      Shown(view, lo, hi) == if k < lo then [] else Shown(view, lo, k) + [view(k).value]
  {
    var k := Newest(view, lo, hi);
    if k < lo {
      ShownNone(view, lo, hi);
    } else {
      ShownSplit(view, lo, k, hi);
      ShownSplit(view, k, k + 1, hi);
      ShownNone(view, k + 1, hi);
      assert Shown(view, k + 1, k + 1) == [];
    }
  }

  /** The oldest candle among `lo..hi` that `view` has, `hi` if there is none. */
  function Oldest(view: int -> Option<Tick>, lo: int, hi: int): (k: int)
    requires lo <= hi
    ensures lo <= k <= hi && (k < hi ==> view(k).Some?)
    ensures forall i :: lo <= i < k ==> view(i).None?
    decreases hi - lo
  {
    if lo == hi then hi else if view(lo).Some? then lo else Oldest(view, lo + 1, hi)
  }

  function Within(view: int -> Option<Tick>, lo: int, hi: int): int -> Option<Tick> {
    i => if lo <= i < hi then view(i) else None
  }

  lemma ShownWithin(view: int -> Option<Tick>, lo: int, hi: int, a: int, e: int)
    requires lo <= a && e <= hi && lo <= hi
    ensures Shown(Within(view, a, e), lo, hi) == Shown(view, a, e)
  {
    var p := Within(view, a, e);
    if a < e {
      ShownSplit(p, lo, a, hi);
      ShownSplit(p, a, e, hi);
      ShownNone(p, lo, a);
      ShownNone(p, e, hi);
      ShownAlike(p, view, a, e);
    } else {
      ShownNone(p, lo, hi);
    }
  }

  function Either(p: int -> Option<Tick>, q: int -> Option<Tick>): int -> Option<Tick> {
    i => if p(i).Some? then p(i) else q(i)
  }

  /** Grouping two frames by date gives the candles that either of them has, if they agree. */
  lemma {:induction false} MergeShown(
      p: int -> Option<Tick>, q: int -> Option<Tick>, timeframe: int, lo: int, hi: int)
    requires timeframe > 0 && OnGrid(p, timeframe) && OnGrid(q, timeframe)
    requires forall i :: p(i).Some? && q(i).Some? ==> p(i) == q(i)
    ensures MergeFrames(Shown(p, lo, hi), Shown(q, lo, hi)) == Shown(Either(p, q), lo, hi)
    decreases hi - lo
  {
    if lo < hi {
      MergeShown(p, q, timeframe, lo + 1, hi);
      ShownIsSorted(p, timeframe, lo + 1, hi);
      ShownIsSorted(q, timeframe, lo + 1, hi);
      Earlier(timeframe, lo, lo + 1);
      MergeHeads(p(lo), q(lo), Shown(p, lo + 1, hi), Shown(q, lo + 1, hi));
    }
  }

  function Listed(t: Option<Tick>): Frame {
    match t case Some(t) => [t] case None => []
  }

  lemma MergeFirst(t: Tick, held: Frame, next: Frame)
    requires next != [] ==> t.date < next[0].date
    ensures MergeFrames([t] + held, next) == [t] + MergeFrames(held, next)
  {
    assert ([t] + held)[1..] == held;
  }

  lemma MergeSecond(t: Tick, held: Frame, next: Frame)
    requires held != [] ==> t.date < held[0].date
    ensures MergeFrames(held, [t] + next) == [t] + MergeFrames(held, next)
  {
    assert ([t] + next)[1..] == next;
  }

  lemma MergeBoth(t: Tick, held: Frame, next: Frame)
    ensures MergeFrames([t] + held, [t] + next) == [t] + MergeFrames(held, next)
  {
    CombineSame(t);
    assert ([t] + held)[1..] == held && ([t] + next)[1..] == next;
  }

  lemma MergeHeads(p: Option<Tick>, q: Option<Tick>, held: Frame, next: Frame)
    requires p.Some? && q.Some? ==> p == q
    requires p.Some? && next != [] ==> p.value.date < next[0].date
    requires q.Some? && held != [] ==> q.value.date < held[0].date
    ensures MergeFrames(Listed(p) + held, Listed(q) + next)
      == Listed(if p.Some? then p else q) + MergeFrames(held, next)
  {
    match (p, q) {
      case (Some(t), Some(_)) => MergeBoth(t, held, next);
      case (Some(t), None) =>
        MergeFirst(t, held, next);
        assert Listed(q) + next == next;
      case (None, Some(t)) =>
        MergeSecond(t, held, next);
        assert Listed(p) + held == held;
      case (None, None) => assert Listed(p) + held == held && Listed(q) + next == next;
    }
  }

  // ---------- The filling of a history ----------

  /** Candle `i` of the filled history: the traded one, or one made up from the close before it. */
  function Filled(m: Market, timeframe: int, i: int): Tick
    decreases i - m.genesis
  {
    match m.traded(i)
    case Some(t) => t
    case None =>
      if i <= m.genesis then Tick(i * timeframe, 0.0, 0.0, 0.0, 0.0, 0.0)
      else Filler(Filled(m, timeframe, i - 1), timeframe)
  }

  function FilledHistory(m: Market, timeframe: int): int -> Tick {
    i => Filled(m, timeframe, i)
  }

  ghost predicate Trading(s: Settings, m: Market) {
    && ValidSettings(s)
    && OnGrid(m.traded, s.timeframe)
    && m.traded(m.genesis).Some?
    && forall i :: i < m.genesis ==> m.traded(i).None?
  }

  lemma {:induction false} FilledIsDated(s: Settings, m: Market, i: int)
    requires Trading(s, m)
    ensures Filled(m, s.timeframe, i).date == i * s.timeframe
    decreases i - m.genesis
  {
    if m.traded(i).None? && i > m.genesis {
      FilledIsDated(s, m, i - 1);
      Earlier(s.timeframe, i - 1, i);
    }
  }

  /** One step of filling. */
  lemma FillNext(first: Tick, rest: Frame, timeframe: int)
    requires timeframe > 0 && rest != []
    ensures var f := [first] + rest;
      FillMissing(f, timeframe) == [first] + FillMissing(
        if rest[0].date <= first.date + timeframe then rest else [Filler(first, timeframe)] + rest, timeframe)
  {
    var f := [first] + rest;
    assert f[1..] == rest && f[1] == rest[0];
  }

  /** Filling any selection of the filled history that has all traded candles gives that history. */
  lemma {:induction false} FillShown(s: Settings, m: Market, p: int -> Option<Tick>, b: int, e: int)
    requires Trading(s, m) && m.genesis <= b < e && OnGrid(p, s.timeframe) && (b + 1 < e ==> p(e - 1).Some?)
    requires forall i :: b < i < e && p(i).Some? ==> p(i).value == Filled(m, s.timeframe, i)
    requires forall i :: b < i < e && m.traded(i).Some? ==> p(i).Some?
    ensures FillMissing([Filled(m, s.timeframe, b)] + Shown(p, b + 1, e), s.timeframe)
      == Slice(FilledHistory(m, s.timeframe), b, e)
    decreases e - b
  {
    HeadOfSlice(FilledHistory(m, s.timeframe), b, e);
    if b + 1 < e {
      FillShown(s, m, p, b + 1, e);
      NextToFill(s, m, p, b, e);
    }
  }

  lemma HeadOfSlice(view: int -> Tick, lo: int, hi: int)
    requires lo < hi
    ensures Slice(view, lo, hi) == [view(lo)] + Slice(view, lo + 1, hi)
  {
  }

  lemma NextToFill(s: Settings, m: Market, p: int -> Option<Tick>, b: int, e: int)
    requires Trading(s, m) && m.genesis <= b && b + 1 < e && OnGrid(p, s.timeframe) && p(e - 1).Some?
    requires p(b + 1).Some? ==> p(b + 1).value == Filled(m, s.timeframe, b + 1)
    requires m.traded(b + 1).Some? ==> p(b + 1).Some?
    ensures FillMissing([Filled(m, s.timeframe, b)] + Shown(p, b + 1, e), s.timeframe)
      == [Filled(m, s.timeframe, b)] + FillMissing([Filled(m, s.timeframe, b + 1)] + Shown(p, b + 2, e), s.timeframe)
  {
    var first, next, rest := Filled(m, s.timeframe, b), Filled(m, s.timeframe, b + 1), Shown(p, b + 1, e);
    RestShown(s, m, p, b, e, rest);
    FillNext(first, rest, s.timeframe);
    if p(b + 1).Some? {
      assert rest == [next] + Shown(p, b + 2, e);
    } else {
      assert rest == Shown(p, b + 2, e);
    }
  }

  /** What follows candle `b` starts one candle later if `p` has that one, and after more than one if not. */
  lemma RestShown(s: Settings, m: Market, p: int -> Option<Tick>, b: int, e: int, rest: Frame)
    requires Trading(s, m) && b + 1 < e && OnGrid(p, s.timeframe) && p(e - 1).Some?
    requires rest == Shown(p, b + 1, e)
    ensures rest != [] && (p(b + 1).Some? <==> rest[0].date <= Filled(m, s.timeframe, b).date + s.timeframe)
  {
    FilledIsDated(s, m, b);
    Earlier(s.timeframe, b, b + 1);
    Earlier(s.timeframe, b + 1, b + 2);
    if p(b + 1).None? {
      ShownSplit(p, b + 2, e - 1, e);
      assert Shown(p, e - 1, e) == [p(e - 1).value];
      ShownIsSorted(p, s.timeframe, b + 2, e);
    }
  }

  lemma {:induction false} SliceIsShown(view: int -> Tick, p: int -> Option<Tick>, lo: int, hi: int)
    requires forall i :: lo <= i < hi ==> p(i) == Some(view(i))
    ensures Slice(view, lo, hi) == Shown(p, lo, hi)
    decreases hi - lo
  {
    if lo < hi {
      HeadOfSlice(view, lo, hi);
      SliceIsShown(view, p, lo + 1, hi);
    }
  }

  /** A made-up candle repeats the close of the last trade before it. */
  lemma {:induction false} MadeUpExactly(s: Settings, m: Market, i: int)
    requires Trading(s, m) && i >= m.genesis
    ensures var k := Newest(m.traded, m.genesis, i + 1);
      && m.genesis <= k <= i && m.traded(k).Some?
      && var close := m.traded(k).value.close;
         Filled(m, s.timeframe, i)
           == if k == i then m.traded(i).value else Tick(i * s.timeframe, close, close, close, close, 0.0)
    decreases i - m.genesis
  {
    FilledIsDated(s, m, i);
    if m.traded(i).None? {
      MadeUpExactly(s, m, i - 1);
    }
  }

  // ---------- Answers ----------

  function Visible(m: Market, u: Update): int -> Option<Tick> {
    i => if i < u.seen then m.traded(i) else if i == u.seen then u.live else None
  }

  /** The end of what the exchange returns: the open candle is included only if the cache drops it. */
  function VisibleTo(s: Settings, u: Update): int {
    if s.dropIncomplete then u.seen + 1 else u.seen
  }

  /** One call per `step`, from `since` up to but excluding `until`, in order of time. */
  function GapHistory(s: Settings, m: Market, u: Update, since: int): Frame
    requires ValidSettings(s)
    decreases u.until - since
  {
    if since >= u.until then []
    else
      StepIsPositive(s);
      var from := since / s.timeframe;
      Shown(Visible(m, u), from, Min(from + s.limit, VisibleTo(s, u)))
      + GapHistory(s, m, u, since + s.timeframe * s.limit)
  }

  function GapAnswer(s: Settings, m: Market, u: Update, plan: Plan): Frame
    requires ValidSettings(s)
  {
    match plan
    case OneCall => Shown(Visible(m, u), u.from, VisibleTo(s, u))
    case Download(since) => GapHistory(s, m, u, since)
  }

  function GapRefresh(s: Settings, m: Market, c: Cached, u: Update): Cached
    requires ValidSettings(s)
  {
    if !Due(s, c, u.now) then c
    else if !u.arrived then Evict(s, c, u.now)
    else Process(s, Evict(s, c, u.now), GapAnswer(s, m, u, ChoosePlan(s, c, u.now)))
  }

  lemma {:induction false} DownloadIsShown(s: Settings, m: Market, u: Update, from: int) returns (k: nat, to: int)
    requires ValidSettings(s)
    ensures to == from + k * s.limit && to >= from && to * s.timeframe >= u.until
    ensures GapHistory(s, m, u, from * s.timeframe) == Shown(Visible(m, u), from, Min(VisibleTo(s, u), to))
    decreases u.until - from * s.timeframe
  {
    if from * s.timeframe >= u.until {
      k, to := 0, from;
    } else {
      NextChunk(s, from);
      k, to := DownloadIsShown(s, m, u, from + s.limit);
      assert (k + 1) * s.limit == k * s.limit + s.limit;
      k := k + 1;
      if VisibleTo(s, u) > from + s.limit {
        ShownSplit(Visible(m, u), from, from + s.limit, Min(VisibleTo(s, u), to));
      }
    }
  }

  // ---------- Joining ----------

  /** The number of the first candle after a frame. */
  function EndOfFrame(s: Settings, f: Frame): int
    requires s.timeframe > 0 && f != []
  {
    f[|f| - 1].date / s.timeframe + 1
  }

  /**
    A cached frame, unless empty, is a piece of the filled history that ends with a traded candle; the
    recorded date is not after that candle.
   */
  ghost predicate IsFilled(s: Settings, m: Market, c: Cached)
    requires s.timeframe > 0
  {
    c.frame.Some? && c.frame.value != [] ==>
      var f := c.frame.value;
      var hi := EndOfFrame(s, f);
      && m.genesis <= hi - |f|
      && f == Slice(FilledHistory(m, s.timeframe), hi - |f|, hi)
      && m.traded(hi - 1).Some?
      && c.lastRefresh <= (hi - 1) * s.timeframe
  }

  lemma EndOfPiece(s: Settings, m: Market, lo: int, hi: int)
    requires Trading(s, m) && lo < hi
    ensures EndOfFrame(s, Slice(FilledHistory(m, s.timeframe), lo, hi)) == hi
  {
    FilledIsDated(s, m, hi - 1);
    EndOf(s.timeframe, hi);
  }

  /** Filling the traded candles `a..e`, all of them from the oldest to the newest. */
  lemma FillTraded(s: Settings, m: Market, a: int, e: int) returns (b: int, h: int)
    requires Trading(s, m) && Shown(m.traded, a, e) != []
    ensures m.genesis <= b < h <= e && a <= b && m.traded(h - 1).Some?
    ensures h == Newest(m.traded, a, e) + 1
    ensures FillMissing(Shown(m.traded, a, e), s.timeframe) == Slice(FilledHistory(m, s.timeframe), b, h)
  {
    b, h := FillSelection(s, m, m.traded, a, e);
  }

  lemma FillSelection(s: Settings, m: Market, p: int -> Option<Tick>, a: int, e: int) returns (b: int, h: int)
    requires Trading(s, m) && OnGrid(p, s.timeframe) && Shown(p, a, e) != []
    requires forall i :: p(i).Some? ==> i >= m.genesis && p(i).value == Filled(m, s.timeframe, i)
    requires forall i :: a <= i < e && m.traded(i).Some? ==> p(i).Some?
    ensures a <= e && b == Oldest(p, a, e) && h == Newest(p, a, e) + 1 && m.genesis <= b < h <= e
    ensures FillMissing(Shown(p, a, e), s.timeframe) == Slice(FilledHistory(m, s.timeframe), b, h)
  {
    h := Newest(p, a, e) + 1;
    ShownUpToNewest(p, a, e);
    b := Oldest(p, a, e);
    Selection(p, a, e, b, h);
    FillShown(s, m, p, b, h);
  }

  lemma Selection(p: int -> Option<Tick>, a: int, e: int, b: int, h: int)
    requires a < e && b == Oldest(p, a, e) && h == Newest(p, a, e) + 1 && h > a
    ensures b < h && Shown(p, a, e) == [p(b).value] + Shown(p, b + 1, h)
  {
    ShownTrimmed(p, a, b, h, e);
    HeadShown(p, b, h);
  }

  lemma ShownTrimmed(p: int -> Option<Tick>, a: int, b: int, h: int, e: int)
    requires a <= b <= h <= e
    requires forall i :: a <= i < b || h <= i < e ==> p(i).None?
    ensures Shown(p, a, e) == Shown(p, b, h)
  {
    ShownSplit(p, a, b, e);
    ShownNone(p, a, b);
    ShownSplit(p, b, h, e);
    ShownNone(p, h, e);
  }

  lemma HeadShown(p: int -> Option<Tick>, lo: int, hi: int)
    requires lo < hi && p(lo).Some?
    ensures Shown(p, lo, hi) == [p(lo).value] + Shown(p, lo + 1, hi)
  {
  }

  /** The candles `lo..hi` of the filled history, and the traded ones among `a..e`. */
  ghost predicate IsMerged(s: Settings, m: Market, p: int -> Option<Tick>, lo: int, hi: int, a: int, e: int)
    requires ValidSettings(s)
  {
    forall i :: p(i) == if lo <= i < hi then Some(Filled(m, s.timeframe, i))
                        else if a <= i < e then m.traded(i) else None
  }

  /** A piece of the filled history joined with the traded candles `a..e` is a piece of the filled history. */
  lemma JoinTraded(s: Settings, m: Market, lo: int, hi: int, a: int, e: int) returns (from: int, end: int)
    requires Trading(s, m) && m.genesis <= lo < hi && m.traded(hi - 1).Some? && a <= hi && lo <= e
    ensures m.genesis <= from < end && hi <= end <= Max(hi, e) && m.traded(end - 1).Some? && from >= Min(lo, a)
    ensures forall i :: a <= i < e && m.traded(i).Some? ==> i < end
    ensures end - from >= Min(s.limit + s.startup, hi - lo)
    ensures Join(s, Slice(FilledHistory(m, s.timeframe), lo, hi), Shown(m.traded, a, e))
      == Slice(FilledHistory(m, s.timeframe), from, end)
  {
    var p := MergedSelection(s, m, lo, hi, a, e);
    var b: int;
    b, end := FillMerged(s, m, p, lo, hi, a, e);
    var history := FilledHistory(m, s.timeframe);
    var held, next, merged := Slice(history, lo, hi), Shown(m.traded, a, e), Shown(p, Min(lo, a), Max(hi, e));
    from := FilledTail(s, history, held, next, merged, b, end);
  }

  lemma FillMerged(s: Settings, m: Market, p: int -> Option<Tick>, lo: int, hi: int, a: int, e: int)
    returns (b: int, end: int)
    requires Trading(s, m) && m.genesis <= lo < hi && m.traded(hi - 1).Some? && a <= hi && lo <= e
    requires OnGrid(p, s.timeframe) && IsMerged(s, m, p, lo, hi, a, e)
    ensures Min(lo, a) <= b <= lo && m.genesis <= b && hi <= end <= Max(hi, e) && m.traded(end - 1).Some?
    ensures forall i :: a <= i < e && m.traded(i).Some? ==> i < end
    ensures FillMissing(Shown(p, Min(lo, a), Max(hi, e)), s.timeframe) == Slice(FilledHistory(m, s.timeframe), b, end)
  {
    var l, r := Min(lo, a), Max(hi, e);
    assert p(lo).Some? && p(hi - 1).Some?;
    ShownUpToNewest(p, l, r);
    b, end := FillSelection(s, m, p, l, r);
    assert p(end - 1).Some?;
  }

  /** Merging gives the candles of the piece and the traded ones. */
  lemma MergedSelection(s: Settings, m: Market, lo: int, hi: int, a: int, e: int) returns (p: int -> Option<Tick>)
    requires Trading(s, m) && lo < hi
    ensures OnGrid(p, s.timeframe) && IsMerged(s, m, p, lo, hi, a, e)
    ensures MergeFrames(Slice(FilledHistory(m, s.timeframe), lo, hi), Shown(m.traded, a, e))
      == Shown(p, Min(lo, a), Max(hi, e))
  {
    var l, r := Min(lo, a), Max(hi, e);
    var piece := i => Some(Filled(m, s.timeframe, i));
    var held, next := Within(piece, lo, hi), Within(m.traded, a, e);
    SliceIsShown(FilledHistory(m, s.timeframe), piece, lo, hi);
    ShownWithin(piece, l, r, lo, hi);
    ShownWithin(m.traded, l, r, a, e);
    forall i
      ensures Filled(m, s.timeframe, i).date == i * s.timeframe
    {
      FilledIsDated(s, m, i);
    }
    MergeShown(held, next, s.timeframe, l, r);
    p := Either(held, next);
  }

  // ---------- One update ----------

  ghost predicate Punctual(s: Settings, u: Update)
    requires s.timeframe > 0
  {
    && u.now / s.timeframe <= u.seen
    && u.now <= u.until
    && u.from <= VisibleTo(s, u) - s.limit
    && (u.live.Some? ==> u.live.value.date == u.seen * s.timeframe)
  }

  /** Where the cleaned candles of an answer for `a..l` end: the newest one is dropped if it may be open. */
  function CleanEnd(s: Settings, m: Market, u: Update, a: int, l: int): int {
    if s.dropIncomplete then Max(a, Newest(Visible(m, u), a, l)) else l
  }

  lemma CleanedAnswer(s: Settings, m: Market, u: Update, a: int, l: int, fill: bool)
    requires Trading(s, m) && Punctual(s, u) && l <= VisibleTo(s, u)
    ensures var ticks, kept := Shown(Visible(m, u), a, l), Shown(m.traded, a, CleanEnd(s, m, u, a, l));
      && CleanFrame(ticks, s.timeframe, fill, s.dropIncomplete)
          == (if fill then FillMissing(kept, s.timeframe) else kept)
      && kept == (if s.dropIncomplete && ticks != [] then ticks[..|ticks| - 1] else ticks)
  {
    var view, e := Visible(m, u), CleanEnd(s, m, u, a, l);
    ShownIsSorted(view, s.timeframe, a, l);
    GroupSorted(Shown(view, a, l));
    ShownUpToNewest(view, a, l);
    ShownAlike(view, m.traded, a, e);
  }

  /** The date recorded is not after the newest candle cleaned, unless that was the only one and dropped. */
  lemma RecordedDate(s: Settings, m: Market, u: Update, c: Cached, a: int, l: int)
    requires Trading(s, m) && Punctual(s, u) && l <= VisibleTo(s, u)
    ensures var e := CleanEnd(s, m, u, a, l);
      var ticks, kept := Shown(Visible(m, u), a, l), Shown(m.traded, a, e);
      Process(s, c, ticks).lastRefresh
        == if ticks == [] then c.lastRefresh
           else (if kept == [] then Newest(Visible(m, u), a, l) else Newest(m.traded, a, e)) * s.timeframe
  {
    CleanedAnswer(s, m, u, a, l, false);
    ShownUpToNewest(Visible(m, u), a, l);
    ShownUpToNewest(m.traded, a, CleanEnd(s, m, u, a, l));
  }

  /** The frame holds a candle after every traded one among `from..to`. */
  ghost predicate Reaches(s: Settings, m: Market, c: Cached, from: int, to: int)
    requires s.timeframe > 0
  {
    forall i :: from <= i < to && m.traded(i).Some? ==>
      c.frame.Some? && c.frame.value != [] && i < EndOfFrame(s, c.frame.value)
  }

  /** The number of the first candle the frame does not reach. */
  ghost predicate EndsBy(s: Settings, c: Cached, e: int)
    requires s.timeframe > 0
  {
    c.frame.Some? && c.frame.value != [] ==> EndOfFrame(s, c.frame.value) <= e
  }

  /** What the cache becomes once the cleaned answer and the date are known. */
  lemma Processed(s: Settings, m: Market, u: Update, c: Cached, a: int, l: int) returns (kept: Frame, date: int)
    requires Trading(s, m) && Punctual(s, u) && l <= VisibleTo(s, u)
    ensures kept == Shown(m.traded, a, CleanEnd(s, m, u, a, l))
    ensures Process(s, c, Shown(Visible(m, u), a, l)) == Cached(
      Some(match c.frame case None => FillMissing(kept, s.timeframe) case Some(held) => Join(s, held, kept)), date)
    ensures kept != [] ==> date == Newest(m.traded, a, CleanEnd(s, m, u, a, l)) * s.timeframe
    ensures kept == [] ==>
      date == if Newest(Visible(m, u), a, l) < a then c.lastRefresh else Newest(Visible(m, u), a, l) * s.timeframe
  {
    kept := Shown(m.traded, a, CleanEnd(s, m, u, a, l));
    date := Process(s, c, Shown(Visible(m, u), a, l)).lastRefresh;
    CleanedAnswer(s, m, u, a, l, c.frame.None?);
    RecordedDate(s, m, u, c, a, l);
    ShownUpToNewest(Visible(m, u), a, l);
  }

  lemma IsPiece(s: Settings, m: Market, c: Cached, from: int, end: int)
    requires Trading(s, m) && m.genesis <= from < end && m.traded(end - 1).Some?
    requires c.frame == Some(Slice(FilledHistory(m, s.timeframe), from, end))
    requires c.lastRefresh <= (end - 1) * s.timeframe
    ensures IsFilled(s, m, c) && c.frame.value != [] && EndOfFrame(s, c.frame.value) == end
  {
    EndOfPiece(s, m, from, end);
  }

  /** An empty cache takes the filled candles of the answer. */
  lemma FreshFrame(s: Settings, m: Market, r: Cached, kept: Frame, trimmed: bool, a: int, e: int)
    requires Trading(s, m) && kept == Shown(m.traded, a, e)
    requires var filled := FillMissing(kept, s.timeframe);
      r.frame == Some(if trimmed then Tail(filled, s.limit + s.startup) else filled)
    requires kept != [] ==> r.lastRefresh == Newest(m.traded, a, e) * s.timeframe
    ensures IsFilled(s, m, r) && Reaches(s, m, r, a, e) && (a < e ==> EndsBy(s, r, e))
  {
    ShownUpToNewest(m.traded, a, e);
    if kept != [] {
      var from, end := FreshPiece(s, m, r.frame.value, kept, trimmed, a, e);
      IsPiece(s, m, r, from, end);
    } else {
      assert FillMissing(kept, s.timeframe) == [];
    }
  }

  lemma FreshPiece(s: Settings, m: Market, f: Frame, kept: Frame, trimmed: bool, a: int, e: int)
    returns (from: int, end: int)
    requires Trading(s, m) && kept == Shown(m.traded, a, e) && kept != []
    requires var filled := FillMissing(kept, s.timeframe);
      f == if trimmed then Tail(filled, s.limit + s.startup) else filled
    ensures m.genesis <= from < end <= e && end == Newest(m.traded, a, e) + 1 && m.traded(end - 1).Some?
    ensures f == Slice(FilledHistory(m, s.timeframe), from, end)
  {
    from, end := FillTraded(s, m, a, e);
    if trimmed {
      TailSlice(FilledHistory(m, s.timeframe), from, end, s.limit + s.startup);
      from := Max(from, end - (s.limit + s.startup));
    }
  }

  lemma MergeEmpty(s: Settings, kept: Frame)
    requires ValidSettings(s)
    ensures Join(s, [], kept) == Tail(FillMissing(kept, s.timeframe), s.limit + s.startup)
  {
    var filled := FillMissing(kept, s.timeframe);
    JoinSteps(s, [], kept, kept, filled, Tail(filled, s.limit + s.startup));
  }

  lemma FreshUpdate(s: Settings, m: Market, u: Update, c: Cached, a: int, l: int) returns (r: Cached)
    requires Trading(s, m) && Punctual(s, u) && l <= VisibleTo(s, u) && (c.frame.None? || c.frame.value == [])
    ensures r == Process(s, c, Shown(Visible(m, u), a, l))
    ensures IsFilled(s, m, r) && Reaches(s, m, r, a, CleanEnd(s, m, u, a, l)) && EndsBy(s, r, u.seen)
  {
    var e := CleanEnd(s, m, u, a, l);
    var kept, date := Processed(s, m, u, c, a, l);
    MergeEmpty(s, kept);
    r := Process(s, c, Shown(Visible(m, u), a, l));
    FreshFrame(s, m, r, kept, c.frame.Some?, a, e);
  }

  /** A frame that ends before `hi`, joined with an answer that overlaps or adjoins it. */
  lemma JoinHeld(s: Settings, m: Market, c: Cached, kept: Frame, a: int, e: int, hi: int) returns (from: int, end: int)
    requires Trading(s, m) && IsFilled(s, m, c) && c.frame.Some? && c.frame.value != []
    requires hi == EndOfFrame(s, c.frame.value) && a <= hi <= e + 1 && kept == Shown(m.traded, a, e)
    ensures m.genesis <= from < end && hi <= end <= Max(hi, e) && m.traded(end - 1).Some?
    ensures forall i :: a <= i < e && m.traded(i).Some? ==> i < end
    ensures end - from >= Min(s.limit + s.startup, |c.frame.value|)
    ensures Join(s, c.frame.value, kept) == Slice(FilledHistory(m, s.timeframe), from, end)
  {
    var held := c.frame.value;
    var lo := PieceHeld(s, m, c, held, hi);
    from, end := JoinTraded(s, m, lo, hi, a, e);
  }

  lemma PieceHeld(s: Settings, m: Market, c: Cached, held: Frame, hi: int) returns (lo: int)
    requires Trading(s, m) && IsFilled(s, m, c) && c.frame == Some(held) && held != [] && hi == EndOfFrame(s, held)
    ensures lo == hi - |held| && m.genesis <= lo < hi && held == Slice(FilledHistory(m, s.timeframe), lo, hi)
    ensures m.traded(hi - 1).Some?
  {
    lo := hi - |held|;
  }

  /** The joined frame is recorded with a date not after candle `k`, which was held already, or brought. */
  lemma JoinedFrame(s: Settings, m: Market, c: Cached, r: Cached, kept: Frame, k: int, a: int, e: int, hi: int)
    requires Trading(s, m) && IsFilled(s, m, c) && c.frame.Some? && c.frame.value != []
    requires hi == EndOfFrame(s, c.frame.value) && a <= hi <= e + 1 && kept == Shown(m.traded, a, e)
    requires r.frame == Some(Join(s, c.frame.value, kept)) && r.lastRefresh <= k * s.timeframe
    requires k == hi - 1 || (a <= k < e && m.traded(k).Some?)
    ensures IsFilled(s, m, r) && Reaches(s, m, r, a, e) && EndsBy(s, r, Max(hi, e))
    ensures |r.frame.value| >= Min(s.limit + s.startup, |c.frame.value|)
  {
    var from, end := JoinHeld(s, m, c, kept, a, e, hi);
    PieceReaches(s, m, r, from, end, k, a, e);
  }

  lemma PieceReaches(s: Settings, m: Market, r: Cached, from: int, end: int, k: int, a: int, e: int)
    requires Trading(s, m) && m.genesis <= from < end && m.traded(end - 1).Some? && k < end
    requires r.frame == Some(Slice(FilledHistory(m, s.timeframe), from, end)) && r.lastRefresh <= k * s.timeframe
    requires forall i :: a <= i < e && m.traded(i).Some? ==> i < end
    ensures IsFilled(s, m, r) && Reaches(s, m, r, a, e) && EndsBy(s, r, end) && |r.frame.value| == end - from
  {
    Earlier(s.timeframe, end - 1, k);
    IsPiece(s, m, r, from, end);
  }

  /** The newest candle that an answer joined to a frame, which ends before `hi`, leaves in it for sure. */
  lemma NewestJoined(s: Settings, m: Market, u: Update, a: int, l: int, hi: int) returns (k: int)
    requires m.traded(hi - 1).Some? && a <= hi <= Min(l, u.seen)
    ensures var e := CleanEnd(s, m, u, a, l);
      && hi <= e + 1 && (k == hi - 1 || (a <= k < e && m.traded(k).Some?))
      && if Shown(m.traded, a, e) != [] then k == Newest(m.traded, a, e)
         else k == hi - 1 && (a < hi ==> k == Newest(Visible(m, u), a, l))
  {
    var e := CleanEnd(s, m, u, a, l);
    ShownUpToNewest(m.traded, a, e);
    if a < hi {
      assert Visible(m, u)(hi - 1).Some?;
    }
    k := if Shown(m.traded, a, e) != [] then Newest(m.traded, a, e) else hi - 1;
  }

  /** Is the answer nothing but one candle that is dropped? */
  predicate IsLone(s: Settings, m: Market, u: Update, a: int, l: int) {
    s.dropIncomplete && |Shown(Visible(m, u), a, l)| == 1
  }

  /** A lone candle is the only case in which a date is recorded although no candle is cleaned. */
  lemma LoneExactly(s: Settings, m: Market, u: Update, a: int, l: int)
    requires Trading(s, m) && Punctual(s, u) && l <= VisibleTo(s, u)
    ensures IsLone(s, m, u, a, l)
      <==> Shown(m.traded, a, CleanEnd(s, m, u, a, l)) == [] && Newest(Visible(m, u), a, l) >= a
  {
    CleanedAnswer(s, m, u, a, l, false);
    ShownUpToNewest(Visible(m, u), a, l);
  }

  lemma DateOfJoined(s: Settings, m: Market, u: Update, c: Cached, a: int, l: int, hi: int)
    returns (kept: Frame, date: int, k: int)
    requires Trading(s, m) && Punctual(s, u) && l <= VisibleTo(s, u) && c.lastRefresh <= (hi - 1) * s.timeframe
    requires m.traded(hi - 1).Some? && a <= hi <= Min(l, u.seen) && (a < hi || !IsLone(s, m, u, a, l))
    ensures var e := CleanEnd(s, m, u, a, l);
      && kept == Shown(m.traded, a, e) && hi <= e + 1 && e <= Max(a, u.seen)
      && (k == hi - 1 || (a <= k < e && m.traded(k).Some?))
    ensures date <= k * s.timeframe
    ensures c.frame.Some? ==>
      Process(s, c, Shown(Visible(m, u), a, l)) == Cached(Some(Join(s, c.frame.value, kept)), date)
  {
    kept, date := Processed(s, m, u, c, a, l);
    k := NewestJoined(s, m, u, a, l, hi);
    LoneExactly(s, m, u, a, l);
  }

  lemma JoinedUpdate(s: Settings, m: Market, u: Update, c: Cached, a: int, l: int) returns (r: Cached)
    requires Trading(s, m) && Punctual(s, u) && l <= VisibleTo(s, u) && IsFilled(s, m, c)
    requires c.frame.Some? && c.frame.value != [] && a <= EndOfFrame(s, c.frame.value) <= Min(l, u.seen)
    requires a < EndOfFrame(s, c.frame.value) || !IsLone(s, m, u, a, l)
    ensures r == Process(s, c, Shown(Visible(m, u), a, l))
    ensures IsFilled(s, m, r) && Reaches(s, m, r, a, CleanEnd(s, m, u, a, l)) && EndsBy(s, r, u.seen)
    ensures r.frame.Some? && |r.frame.value| >= Min(s.limit + s.startup, |c.frame.value|)
  {
    var hi := EndOfFrame(s, c.frame.value);
    var kept, date, k := DateOfJoined(s, m, u, c, a, l, hi);
    r := Cached(Some(Join(s, c.frame.value, kept)), date);
    JoinedFrame(s, m, c, r, kept, k, a, CleanEnd(s, m, u, a, l), hi);
  }

  /**
    A lone candle that merely adjoins the frame is dropped but leaves its date: the frame is only trimmed,
    but its newest candle seems newer than it is, and the next answer need not reach it.
   */
  lemma LoneCandleMisleads(s: Settings, m: Market, u: Update, c: Cached, a: int, l: int)
    requires Trading(s, m) && Punctual(s, u) && l <= VisibleTo(s, u) && IsFilled(s, m, c)
    requires c.frame.Some? && c.frame.value != [] && a == EndOfFrame(s, c.frame.value) && IsLone(s, m, u, a, l)
    ensures var r := Process(s, c, Shown(Visible(m, u), a, l));
      && r.frame == Some(Tail(c.frame.value, s.limit + s.startup))
      && r.lastRefresh >= a * s.timeframe && !IsFilled(s, m, r)
  {
    var kept, date := Processed(s, m, u, c, a, l);
    LoneExactly(s, m, u, a, l);
    LoneDate(s, a, Newest(Visible(m, u), a, l));
    JoinNothing(s, m, c, a);
    LaterThanFrame(s, m, Process(s, c, Shown(Visible(m, u), a, l)), a);
  }

  lemma JoinNothing(s: Settings, m: Market, c: Cached, hi: int)
    requires Trading(s, m) && IsFilled(s, m, c) && c.frame.Some? && c.frame.value != []
    requires hi == EndOfFrame(s, c.frame.value)
    ensures var f := Tail(c.frame.value, s.limit + s.startup);
      Join(s, c.frame.value, []) == f && f != [] && EndOfFrame(s, f) == hi
  {
    var lo := PieceHeld(s, m, c, c.frame.value, hi);
    FillFilled(s, m, lo, hi);
    JoinNothingFilled(s, c.frame.value);
    EndOfTail(s, c.frame.value, s.limit + s.startup);
  }

  lemma JoinNothingFilled(s: Settings, f: Frame)
    requires ValidSettings(s) && FillMissing(f, s.timeframe) == f
    ensures Join(s, f, []) == Tail(f, s.limit + s.startup)
  {
    JoinSteps(s, f, [], f, f, Tail(f, s.limit + s.startup));
  }

  lemma EndOfTail(s: Settings, f: Frame, n: int)
    requires s.timeframe > 0 && f != [] && n > 0
    ensures Tail(f, n) != [] && EndOfFrame(s, Tail(f, n)) == EndOfFrame(s, f)
  {
  }

  lemma FillFilled(s: Settings, m: Market, lo: int, hi: int)
    requires Trading(s, m)
    ensures var piece := Slice(FilledHistory(m, s.timeframe), lo, hi); FillMissing(piece, s.timeframe) == piece
  {
    var history := FilledHistory(m, s.timeframe);
    forall i | lo <= i < hi
      ensures history(i).date == i * s.timeframe
    {
      FilledIsDated(s, m, i);
    }
    FillSlice(history, s.timeframe, lo, hi);
  }

  lemma LaterThanFrame(s: Settings, m: Market, r: Cached, hi: int)
    requires Trading(s, m) && r.frame.Some? && r.frame.value != []
    requires hi == EndOfFrame(s, r.frame.value) && r.lastRefresh > (hi - 1) * s.timeframe
    ensures !IsFilled(s, m, r)
  {
  }

  lemma LoneDate(s: Settings, hi: int, k: int)
    requires ValidSettings(s) && k >= hi
    ensures (hi - 1) * s.timeframe < hi * s.timeframe <= k * s.timeframe
  {
    Earlier(s.timeframe, hi - 1, hi);
    Earlier(s.timeframe, k, hi);
  }

  // ---------- Whole runs ----------

  /** Is this an answer of one call that is joined to candles kept so far? */
  predicate JoinsCandles(s: Settings, c: Cached, u: Update)
    requires s.timeframe > 0
  {
    var kept := Evict(s, c, u.now).frame;
    Due(s, c, u.now) && u.arrived && kept.Some? && kept.value != [] && ChoosePlan(s, c, u.now).OneCall?
  }

  /**
    Such an answer ends at most six candles after the one open at the decision, that one counted, or at
    most seven if it is not a lone candle.
   */
  predicate InTime(s: Settings, m: Market, c: Cached, u: Update)
    requires s.timeframe > 0
  {
    JoinsCandles(s, c, u) ==>
      VisibleTo(s, u) <= u.now / s.timeframe + GRACE + if IsLone(s, m, u, u.from, VisibleTo(s, u)) then 1 else 2
  }

  function AnswerFrom(s: Settings, u: Update, plan: Plan): int
    requires s.timeframe > 0
  {
    if plan.OneCall? then u.from else FirstWanted(s, u.now)
  }

  /** Every answer is one stretch of what is visible, and covers the candle open at the decision. */
  lemma AnswerIsShown(s: Settings, m: Market, c: Cached, u: Update) returns (l: int)
    requires Trading(s, m) && Punctual(s, u)
    ensures var plan := ChoosePlan(s, c, u.now);
      GapAnswer(s, m, u, plan) == Shown(Visible(m, u), AnswerFrom(s, u, plan), l)
    ensures Min(VisibleTo(s, u), u.now / s.timeframe + 1) <= l <= VisibleTo(s, u)
    ensures ChoosePlan(s, c, u.now).OneCall? ==> l == VisibleTo(s, u)
  {
    FirstWantedIsEarly(s, u.now);
    l := VisibleTo(s, u);
    if ChoosePlan(s, c, u.now).Download? {
      var k, to := DownloadIsShown(s, m, u, FirstWanted(s, u.now));
      ReachesOpenCandle(s, u.now, u.until, k);
      l := Min(VisibleTo(s, u), to);
    }
  }

  /** Candles are kept only if the answer shows the last of them again, or follows it with more than one candle. */
  lemma KeptOverlaps(s: Settings, m: Market, c: Cached, u: Update)
    requires Trading(s, m) && Punctual(s, u) && IsFilled(s, m, c) && InTime(s, m, c, u)
    requires Due(s, c, u.now) && u.arrived
    requires Evict(s, c, u.now).frame.Some? && c.frame.value != []
    ensures var plan, hi := ChoosePlan(s, c, u.now), EndOfFrame(s, c.frame.value);
      && AnswerFrom(s, u, plan) <= hi
      && (AnswerFrom(s, u, plan) == hi ==> plan.OneCall? && !IsLone(s, m, u, hi, VisibleTo(s, u)))
  {
    var open, hi := u.now / s.timeframe, EndOfFrame(s, c.frame.value);
    OpenCandle(s.timeframe, u.now);
    FirstWantedIsEarly(s, u.now);
    GuardGap(s.timeframe, open, s.limit - GRACE, c.lastRefresh, hi - 1);
  }

  lemma GuardGap(timeframe: int, open: int, back: int, last: int, k: int)
    requires timeframe > 0 && open * timeframe - timeframe * back < last <= k * timeframe
    ensures open - back < k
  {
    assert (open - back) * timeframe == open * timeframe - timeframe * back;
    Earlier(timeframe, open - back, k);
  }

  /**
    What an answer brings: every traded candle it covers that was complete at the decision. If open
    candles are dropped and nothing traded since, that drops the newest complete one instead.
   */
  ghost predicate BringsTraded(s: Settings, m: Market, c: Cached, u: Update, r: Cached)
    requires s.timeframe > 0
  {
    var open := u.now / s.timeframe;
    var a := AnswerFrom(s, u, ChoosePlan(s, c, u.now));
    if !s.dropIncomplete || Visible(m, u)(open).Some? then Reaches(s, m, r, a, open)
    else forall i :: i < open && m.traded(i).Some? ==> Reaches(s, m, r, a, i)
  }

  lemma CoversTraded(s: Settings, m: Market, c: Cached, u: Update, r: Cached, l: int)
    requires Trading(s, m) && Punctual(s, u)
    requires Min(VisibleTo(s, u), u.now / s.timeframe + 1) <= l <= VisibleTo(s, u)
    requires var a := AnswerFrom(s, u, ChoosePlan(s, c, u.now)); Reaches(s, m, r, a, CleanEnd(s, m, u, a, l))
    ensures BringsTraded(s, m, c, u, r)
  {
    var open, a := u.now / s.timeframe, AnswerFrom(s, u, ChoosePlan(s, c, u.now));
    var view := Visible(m, u);
    forall i | a <= i < open && m.traded(i).Some?
      ensures view(i).Some? && i <= Newest(view, a, l)
    {
    }
  }

  /**
    One visit keeps the cache a filling of the traded candles. An answer brings all the traded candles
    it covers, and a skipped refresh misses none.
   */
  lemma UpdateKeepsFilled(s: Settings, m: Market, c: Cached, u: Update)
    requires Trading(s, m) && Punctual(s, u) && IsFilled(s, m, c) && InTime(s, m, c, u)
    requires EndsBy(s, c, u.now / s.timeframe)
    ensures var r := GapRefresh(s, m, c, u);
      && IsFilled(s, m, r) && EndsBy(s, r, u.seen)
      && (Due(s, c, u.now) && u.arrived ==> BringsTraded(s, m, c, u, r))
      && (!Due(s, c, u.now) && c.frame.value != [] ==> EndOfFrame(s, r.frame.value) == u.now / s.timeframe)
  {
    if !Due(s, c, u.now) {
      SkippedIsCurrent(s, m, c, u);
    } else if u.arrived {
      var l := AnswerIsShown(s, m, c, u);
      var kept, a := Evict(s, c, u.now), AnswerFrom(s, u, ChoosePlan(s, c, u.now));
      var r: Cached;
      if kept.frame.Some? && kept.frame.value != [] {
        KeptOverlaps(s, m, c, u);
        r := JoinedUpdate(s, m, u, kept, a, l);
      } else {
        r := FreshUpdate(s, m, u, kept, a, l);
      }
      CoversTraded(s, m, c, u, r, l);
    }
  }

  lemma SkippedIsCurrent(s: Settings, m: Market, c: Cached, u: Update)
    requires Trading(s, m) && IsFilled(s, m, c) && !Due(s, c, u.now) && EndsBy(s, c, u.now / s.timeframe)
    ensures c.frame.value != [] ==> EndOfFrame(s, c.frame.value) == u.now / s.timeframe
  {
    if c.frame.value != [] {
      var open, hi := u.now / s.timeframe, EndOfFrame(s, c.frame.value);
      OpenCandle(s.timeframe, u.now);
      Earlier(s.timeframe, hi - 1, hi);
      Earlier(s.timeframe, hi, open);
    }
  }

  function RunUpdates(s: Settings, m: Market, c: Cached, updates: seq<Update>): Cached
    requires ValidSettings(s)
  {
    if updates == [] then c
    else GapRefresh(s, m, RunUpdates(s, m, c, updates[..|updates| - 1]), updates[|updates| - 1])
  }

  /** Visits in order of time; each is decided no earlier than the one before was answered. */
  ghost predicate Planned(s: Settings, m: Market, c: Cached, updates: seq<Update>)
    requires ValidSettings(s)
  {
    updates == []
    || var before, u := updates[..|updates| - 1], updates[|updates| - 1];
       && Planned(s, m, c, before)
       && Punctual(s, u)
       && (before != [] ==> before[|before| - 1].seen <= u.now / s.timeframe)
       && InTime(s, m, RunUpdates(s, m, c, before), u)
  }

  /**
    Over whole runs on an exchange with gaps, from an empty cache, the frame is the filling of the traded
    candles: nothing traded is missing between its ends, and it makes up a candle only where nothing traded.
   */
  lemma {:induction false} CacheStaysFilled(s: Settings, m: Market, c: Cached, updates: seq<Update>)
    requires Trading(s, m) && c.frame.None? && Planned(s, m, c, updates)
    ensures var end := RunUpdates(s, m, c, updates);
      && IsFilled(s, m, end)
      && (updates != [] ==> EndsBy(s, end, updates[|updates| - 1].seen))
    ensures updates != [] ==>
      var before, u := RunUpdates(s, m, c, updates[..|updates| - 1]), updates[|updates| - 1];
      Due(s, before, u.now) && u.arrived ==> BringsTraded(s, m, before, u, RunUpdates(s, m, c, updates))
  {
    if updates != [] {
      var earlier, u := updates[..|updates| - 1], updates[|updates| - 1];
      CacheStaysFilled(s, m, c, earlier);
      UpdateKeepsFilled(s, m, RunUpdates(s, m, c, earlier), u);
    }
  }
}
