/**
  How late an answer of the exchange may be before a refresh leaves a hole in the candle cache.
 */
module CandleHoles {
  import opened Integers
  import opened Results
  import opened CandleFrames
  import opened CandleCache

  // ---------- Frames with a hole ----------

  /** The candles from number `lo` on are genuine but for those from `hi` to `a`, which had no volume. */
  ghost predicate HasHole(view: int -> Tick, g: Frame, lo: int, hi: int, a: int) {
    forall j :: 0 <= j < |g| ==>
      if lo + j < hi || a <= lo + j then g[j] == view(lo + j) else g[j].volume == 0.0
  }

  /** Two pieces with a hole between them are put one after the other, and the hole is filled up. */
  lemma FilledHole(view: int -> Tick, timeframe: int, lo: int, hi: int, a: int, e: int) returns (g: Frame)
    requires timeframe > 0 && Dated(view, timeframe, lo, e) && lo < hi < a < e
    ensures g == FillMissing(MergeFrames(Slice(view, lo, hi), Slice(view, a, e)), timeframe) && |g| == e - lo
    ensures HasHole(view, g, lo, hi, a)
  {
    MergeApart(view, timeframe, lo, hi, a, e);
    g := FilledApart(view, timeframe, lo, hi, a, e);
    LengthOfFilled(g, timeframe, lo, e);
    CandlesOfFilled(view, timeframe, lo, hi, a, e, g);
  }

  lemma FilledApart(view: int -> Tick, timeframe: int, lo: int, hi: int, a: int, e: int) returns (g: Frame)
    requires timeframe > 0 && Dated(view, timeframe, lo, e) && lo < hi < a < e
    ensures var f := Apart(view, lo, hi, a, e);
      && g == FillMissing(f, timeframe) && f != [] && g != []
      && FilledFrom(g, f[1..], timeframe) && forall t :: t in f ==> t in g
    ensures g[0] == view(lo) && g[0].date == lo * timeframe && g[|g| - 1].date == (e - 1) * timeframe
    ensures Gapless(g, timeframe)
  {
    var f := Apart(view, lo, hi, a, e);
    ApartOnGrid(view, timeframe, lo, hi, a, e);
    FillLeavesNoHole(f, timeframe);
    g := FillMissing(f, timeframe);
  }

  function Apart(view: int -> Tick, lo: int, hi: int, a: int, e: int): Frame {
    Slice(view, lo, hi) + Slice(view, a, e)
  }

  lemma ApartAt(view: int -> Tick, lo: int, hi: int, a: int, e: int, k: nat) returns (i: int)
    requires lo < hi < a < e && k < |Apart(view, lo, hi, a, e)|
    ensures Apart(view, lo, hi, a, e)[k] == view(i)
    ensures if k < hi - lo then i == lo + k else i == a + k - (hi - lo)
    ensures lo <= i < hi || a <= i < e
  {
    i := if k < hi - lo then lo + k else a + k - (hi - lo);
  }

  lemma ApartIsSorted(view: int -> Tick, timeframe: int, lo: int, hi: int, a: int, e: int)
    requires timeframe > 0 && Dated(view, timeframe, lo, e) && lo < hi < a < e
    ensures Sorted(Apart(view, lo, hi, a, e))
  {
    var f := Apart(view, lo, hi, a, e);
    forall k, m | 0 <= k < m < |f|
      ensures f[k].date < f[m].date
    {
      var i := ApartAt(view, lo, hi, a, e, k);
      var j := ApartAt(view, lo, hi, a, e, m);
      Earlier(timeframe, i, j);
    }
  }

  lemma ApartOnGrid(view: int -> Tick, timeframe: int, lo: int, hi: int, a: int, e: int)
    requires timeframe > 0 && Dated(view, timeframe, lo, e) && lo < hi < a < e
    ensures var f := Apart(view, lo, hi, a, e);
      Sorted(f) && Aligned(f, timeframe) && f != [] && f[0] == view(lo) && f[|f| - 1] == view(e - 1)
  {
    var f := Apart(view, lo, hi, a, e);
    ApartIsSorted(view, timeframe, lo, hi, a, e);
    forall k | 0 <= k < |f|
      ensures f[k].date % timeframe == 0
    {
      var i := ApartAt(view, lo, hi, a, e, k);
      OnGridDate(timeframe, i);
    }
  }

  lemma MergeApart(view: int -> Tick, timeframe: int, lo: int, hi: int, a: int, e: int)
    requires timeframe > 0 && Dated(view, timeframe, lo, e) && lo < hi < a < e
    ensures MergeFrames(Slice(view, lo, hi), Slice(view, a, e)) == Apart(view, lo, hi, a, e)
  {
    var held, next, f := Slice(view, lo, hi), Slice(view, a, e), Apart(view, lo, hi, a, e);
    ApartIsSorted(view, timeframe, lo, hi, a, e);
    assert f[..|held|] == held && f[|held|..] == next;
    MergeOverlap(f, |held|, |held|);
  }

  lemma LengthOfFilled(g: Frame, timeframe: int, lo: int, e: int)
    requires timeframe > 0 && g != [] && Gapless(g, timeframe)
    requires g[0].date == lo * timeframe && g[|g| - 1].date == (e - 1) * timeframe
    ensures |g| == e - lo
  {
    DatesOfGapless(g, timeframe, lo, |g| - 1);
    SameNumber(timeframe, lo + |g| - 1, e - 1);
  }

  lemma {:induction false} DatesOfGapless(g: Frame, timeframe: int, lo: int, j: nat)
    requires timeframe > 0 && j < |g| && Gapless(g, timeframe) && g[0].date == lo * timeframe
    ensures g[j].date == (lo + j) * timeframe
  {
    if j > 0 {
      DatesOfGapless(g, timeframe, lo, j - 1);
      Earlier(timeframe, lo + j - 1, lo + j);
    }
  }

  lemma CandlesOfFilled(view: int -> Tick, timeframe: int, lo: int, hi: int, a: int, e: int, g: Frame)
    requires timeframe > 0 && Dated(view, timeframe, lo, e) && lo < hi < a < e
    requires var f := Apart(view, lo, hi, a, e);
      && f != [] && FilledFrom(g, f[1..], timeframe) && forall t :: t in f ==> t in g
    requires |g| == e - lo && g[0] == view(lo) && Gapless(g, timeframe)
    ensures HasHole(view, g, lo, hi, a)
  {
    forall j | 0 <= j < |g|
      ensures if lo + j < hi || a <= lo + j then g[j] == view(lo + j) else g[j].volume == 0.0
    {
      CandleOfFilled(view, timeframe, lo, hi, a, e, g, j);
    }
  }

  lemma CandleOfFilled(view: int -> Tick, timeframe: int, lo: int, hi: int, a: int, e: int, g: Frame, j: nat)
    requires timeframe > 0 && Dated(view, timeframe, lo, e) && lo < hi < a < e
    requires var f := Apart(view, lo, hi, a, e);
      && f != [] && FilledFrom(g, f[1..], timeframe) && forall t :: t in f ==> t in g
    requires j < |g| == e - lo && g[0] == view(lo) && Gapless(g, timeframe)
    ensures if lo + j < hi || a <= lo + j then g[j] == view(lo + j) else g[j].volume == 0.0
  {
    if lo + j < hi || a <= lo + j {
      GenuineCandle(view, timeframe, lo, hi, a, e, g, j);
    } else {
      MadeUpCandle(view, timeframe, lo, hi, a, e, g, j);
    }
  }

  lemma GenuineCandle(view: int -> Tick, timeframe: int, lo: int, hi: int, a: int, e: int, g: Frame, j: nat)
    requires timeframe > 0 && Dated(view, timeframe, lo, e) && lo < hi < a < e
    requires forall t :: t in Apart(view, lo, hi, a, e) ==> t in g
    requires j < |g| == e - lo && g[0] == view(lo) && Gapless(g, timeframe)
    requires lo + j < hi || a <= lo + j
    ensures g[j] == view(lo + j)
  {
    var at := if lo + j < hi then j else hi - lo + (lo + j - a);
    var i := ApartAt(view, lo, hi, a, e, at);
    assert Apart(view, lo, hi, a, e)[at] in g;
    var k :| 0 <= k < |g| && g[k] == view(lo + j);
    SameDate(view, timeframe, lo, e, g, k, lo + j);
  }

  lemma MadeUpCandle(view: int -> Tick, timeframe: int, lo: int, hi: int, a: int, e: int, g: Frame, j: nat)
    requires timeframe > 0 && Dated(view, timeframe, lo, e) && lo < hi < a < e
    requires var f := Apart(view, lo, hi, a, e); f != [] && FilledFrom(g, f[1..], timeframe)
    requires j < |g| == e - lo && g[0] == view(lo) && Gapless(g, timeframe)
    requires hi <= lo + j < a
    ensures g[j].volume == 0.0
  {
    var rest := Apart(view, lo, hi, a, e)[1..];
    if g[j] in rest {
      var at :| 0 <= at < |rest| && g[j] == rest[at];
      var i := ApartAt(view, lo, hi, a, e, at + 1);
      SameDate(view, timeframe, lo, e, g, j, i);
      assert false;
    } else {
      assert g[j] == Filler(g[j - 1], timeframe);
    }
  }

  lemma SameDate(view: int -> Tick, timeframe: int, lo: int, e: int, g: Frame, k: nat, i: int)
    requires timeframe > 0 && Dated(view, timeframe, lo, e) && lo <= i < e
    requires k < |g| && g[0] == view(lo) && Gapless(g, timeframe) && g[k] == view(i)
    ensures i == lo + k
  {
    DatesOfGapless(g, timeframe, lo, k);
    SameNumber(timeframe, i, lo + k);
  }

  // ---------- Late answers ----------

  /**
    What a late answer of one call does to a cached frame, on an exchange with trades in every candle:
    the cache stays free of holes and made-up candles exactly when the answer overlaps or adjoins the
    frame, or nothing older than the answer is kept.
   */
  lemma HoleExactly(s: Settings, x: Exchange, c: Cached, v: Visit)
    requires Honest(s, x) && Faithful(s, x, c) && c.frame.Some? && v.live.date == v.seen * s.timeframe
    requires End(s, c) <= v.seen && forall i :: x.genesis <= i < v.seen ==> x.final(i).volume > 0.0
    ensures Faithful(s, x, Process(s, c, Answer(s, x, v, OneCall))) <==>
      VisibleEnd(s, v) - s.limit <= End(s, c) || (!s.dropIncomplete && s.startup == 0)
  {
    var a, hi := Max(x.genesis, VisibleEnd(s, v) - s.limit), End(s, c);
    var answer := OneAnswer(s, x, v);
    if a <= hi {
      ProcessJoined(s, x, v, c, a, VisibleEnd(s, v));
    } else {
      var r := ProcessApart(s, x, v, c, a, hi - |c.frame.value|, hi);
    }
  }

  lemma OneAnswer(s: Settings, x: Exchange, v: Visit) returns (answer: Frame)
    requires ValidSettings(s)
    ensures answer == Answer(s, x, v, OneCall)
    ensures answer == Slice(View(x, v), Max(x.genesis, VisibleEnd(s, v) - s.limit), VisibleEnd(s, v))
  {
    answer := Answer(s, x, v, OneCall);
  }

  lemma ProcessApart(s: Settings, x: Exchange, v: Visit, c: Cached, a: int, lo: int, hi: int) returns (r: Cached)
    requires Honest(s, x) && v.live.date == v.seen * s.timeframe
    requires c.frame == Some(Slice(x.final, lo, hi)) && x.genesis <= lo < hi < a == VisibleEnd(s, v) - s.limit
    requires x.final(a - 1).volume > 0.0
    ensures r == Process(s, c, Slice(View(x, v), a, VisibleEnd(s, v)))
    ensures Faithful(s, x, r) <==> !s.dropIncomplete && s.startup == 0
  {
    var kept: Frame, g: Frame;
    r, kept, g := JoinedHole(s, x, v, c, a, lo, hi);
    TailOfFilled(s, x, g, kept, lo, hi, a, v.seen);
    FaithfulPiece(s, x, r, kept, v.seen);
  }

  lemma JoinedHole(s: Settings, x: Exchange, v: Visit, c: Cached, a: int, lo: int, hi: int)
    returns (r: Cached, kept: Frame, g: Frame)
    requires Honest(s, x) && v.live.date == v.seen * s.timeframe
    requires c.frame == Some(Slice(x.final, lo, hi)) && lo < hi < a < v.seen
    ensures r == Process(s, c, Slice(View(x, v), a, VisibleEnd(s, v)))
    ensures kept == Tail(g, s.limit + s.startup) && r == Cached(Some(kept), (v.seen - 1) * s.timeframe)
    ensures |g| == v.seen - lo && HasHole(x.final, g, lo, hi, a)
  {
    g := FilledHole(x.final, s.timeframe, lo, hi, a, v.seen);
    r, kept := JoinedApart(s, x, v, c, a, g);
  }

  lemma JoinedApart(s: Settings, x: Exchange, v: Visit, c: Cached, a: int, g: Frame) returns (r: Cached, kept: Frame)
    requires Honest(s, x) && v.live.date == v.seen * s.timeframe && a < v.seen && c.frame.Some?
    requires g == FillMissing(MergeFrames(c.frame.value, Slice(x.final, a, v.seen)), s.timeframe)
    ensures kept == Tail(g, s.limit + s.startup) && r == Cached(Some(kept), (v.seen - 1) * s.timeframe)
    ensures r == Process(s, c, Slice(View(x, v), a, VisibleEnd(s, v)))
  {
    CleanSlice(s, x, v, a, VisibleEnd(s, v), false);
    kept := Tail(g, s.limit + s.startup);
    r := Process(s, c, Slice(View(x, v), a, VisibleEnd(s, v)));
  }

  /** The frame is what the exchange's history holds before candle `e`. */
  ghost predicate EndsHistory(x: Exchange, kept: Frame, e: int) {
    kept == Slice(x.final, e - |kept|, e)
  }

  lemma FaithfulPiece(s: Settings, x: Exchange, r: Cached, kept: Frame, e: int)
    requires ValidSettings(s) && kept != [] && x.genesis <= e - |kept|
    requires r == Cached(Some(kept), (e - 1) * s.timeframe)
    ensures Faithful(s, x, r) <==> EndsHistory(x, kept, e)
  {
    EndOf(s.timeframe, e);
  }

  /** The kept part of a filled frame is a piece of history exactly when it starts after the hole. */
  lemma TailOfFilled(s: Settings, x: Exchange, g: Frame, kept: Frame, lo: int, hi: int, a: int, e: int)
    requires ValidSettings(s) && kept == Tail(g, s.limit + s.startup) && x.genesis <= lo < hi < a < e && |g| == e - lo
    requires s.limit - 1 <= e - a <= s.limit && (e - a == s.limit <==> !s.dropIncomplete)
    requires HasHole(x.final, g, lo, hi, a) && x.final(a - 1).volume > 0.0
    ensures kept != [] && x.genesis <= e - |kept|
    ensures EndsHistory(x, kept, e) <==> !s.dropIncomplete && s.startup == 0
  {
    var m := e - |kept|;
    KeptCandles(s, x, g, kept, lo, hi, a, e);
    if m < a {
      assert kept[a - 1 - m].volume == 0.0;
      assert Slice(x.final, m, e)[a - 1 - m] == x.final(a - 1);
    } else {
      assert kept == Slice(x.final, m, e);
    }
  }

  lemma KeptCandles(s: Settings, x: Exchange, g: Frame, kept: Frame, lo: int, hi: int, a: int, e: int)
    requires ValidSettings(s) && kept == Tail(g, s.limit + s.startup) && |g| == e - lo
    requires HasHole(x.final, g, lo, hi, a)
    ensures HasHole(x.final, kept, e - |kept|, hi, a)
  {
    var m := e - |kept|;
    forall j | 0 <= j < |kept|
      ensures if m + j < hi || a <= m + j then kept[j] == x.final(m + j) else kept[j].volume == 0.0
    {
      TailAt(g, s.limit + s.startup, j);
      assert lo + (|g| - |kept| + j) == m + j;
    }
  }

  /**
    How late an answer of one call may be: it overlaps or adjoins every cache that passes the guard
    exactly when it ends at most seven candles after the open one of the decision, that one counted.
    With the open candle dropped, that is six candles that opened meanwhile.
   */
  lemma LatenessIsExact(s: Settings, open: int, v: Visit)
    requires s.limit >= GRACE + 2
    ensures (forall hi :: GuardPasses(s, open, hi) && hi <= open ==> VisibleEnd(s, v) - s.limit <= hi)
      <==> VisibleEnd(s, v) <= open + GRACE + 2
  {
    assert GuardPasses(s, open, open - s.limit + GRACE + 2);
  }

  /**
    The five candles of grace are exact: one response overlaps every cache that passes the guard if
    and only if at most five candles opened between the decision and the answer.
   */
  lemma GraceIsExact(s: Settings, open: int, seen: int)
    requires s.dropIncomplete && s.limit >= GRACE + 2
    ensures (forall hi :: GuardPasses(s, open, hi) && hi <= open ==> seen + 1 - s.limit < hi)
      <==> seen <= open + GRACE
  {
    assert GuardPasses(s, open, open - s.limit + GRACE + 2);
  }
}
