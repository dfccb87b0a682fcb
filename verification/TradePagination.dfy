/**
  Download of trades by id: `Exchange._async_get_trade_history_id` asks for page after page, using the id
  of the last trade it has seen, until the history ends or the requested period is over.
 */
module TradePagination {
  import opened Integers
  import opened Results

  datatype Trade = Trade(time: int, id: int)

  /**
    The exchange and the circumstances of one download. Call number `n` is answered from the first
    `visible(n)` trades of `history`, which may grow between calls, and is interrupted if
    `cancelled(n)`. With `overlap` a page starts with the trade whose id was asked for.
   */
  datatype World = World(history: seq<Trade>, limit: nat, overlap: bool, until: int,
                         visible: nat -> nat, cancelled: nat -> bool)

  ghost predicate ValidWorld(w: World) {
    && w.limit >= 1
    && (forall i, j :: 0 <= i < j < |w.history| ==> w.history[i].id != w.history[j].id)
    && (forall n, m :: n <= m ==> w.visible(n) <= w.visible(m))
    && (forall n :: w.visible(n) <= |w.history|)
  }

  predicate InTimeOrder(h: seq<Trade>) {
    forall i, j :: 0 <= i < j < |h| ==> h[i].time <= h[j].time
  }

  /** The last trade of the page for key `i`, or `i` itself when a page without overlap is empty. */
  function LastOfPage(w: World, n: nat, i: nat): (j: nat)
    requires w.limit >= 1 && i < w.visible(n)
    ensures i <= j < w.visible(n)
  {
    Min(if w.overlap then i + w.limit else i + 1 + w.limit, w.visible(n)) - 1
  }

  function Page(w: World, n: nat, i: nat): seq<Trade>
    requires w.limit >= 1 && i < w.visible(n) <= |w.history|
  {
    w.history[if w.overlap then i else i + 1..LastOfPage(w, n, i) + 1]
  }

  ghost predicate Serves(fetch: (nat, int) -> seq<Trade>, w: World)
    requires ValidWorld(w)
  {
    forall n, i :: 0 <= i < w.visible(n) ==> fetch(n, w.history[i].id) == Page(w, n, i)
  }

  /** The number of the trade after the last one kept when call `n` asks for key `i`. */
  ghost function Stop(w: World, n: nat, i: nat): (end: nat)
    requires ValidWorld(w) && i < w.visible(n)
    ensures end <= |w.history| && end >= if w.overlap then i else i + 1
    decreases |w.history| - i
  {
    if w.cancelled(n) then (if w.overlap then i else i + 1)
    else
      var j := LastOfPage(w, n, i);
      if j == i || w.history[j].time > w.until then j + 1
      else
        assert w.visible(n) <= w.visible(n + 1);
        Stop(w, n + 1, j)
  }

  function Kept(page: seq<Trade>, overlap: bool): seq<Trade> {
    if overlap && page != [] then page[..|page| - 1] else page
  }

  /** The key of the first call: the id asked for, or the last trade of a first page found by time. */
  function FirstKey(fromId: Option<int>, first: nat, startup: seq<Trade>): nat
    requires fromId.None? ==> startup != []
  {
    if fromId.Some? then first else first + |startup| - 1
  }

  function Begin(fromId: Option<int>, first: nat, overlap: bool): nat {
    if fromId.Some? && !overlap then first + 1 else first
  }

  ghost predicate ValidStart(w: World, fromId: Option<int>, first: nat, startup: seq<Trade>)
    requires ValidWorld(w)
  {
    match fromId
    case Some(id) => first < w.visible(0) && id == w.history[first].id
    case None => startup != [] && first + |startup| <= w.visible(0)
                 && startup == w.history[first..first + |startup|]
  }

  /** What the trades kept so far are when the next key is trade `i`. */
  function SoFar(h: seq<Trade>, begin: nat, overlap: bool, i: nat): seq<Trade>
    requires begin <= (if overlap then i else i + 1) && i < |h|
  {
    h[begin..if overlap then i else i + 1]
  }

  lemma OverlappingPage(h: seq<Trade>, begin: nat, i: nat, j: nat)
    requires begin <= i <= j < |h|
    ensures var page := h[i..j + 1];
      && Kept(page, true) == h[i..j] && page[|page| - 1..] == h[j..j + 1]
      && h[begin..i] + h[i..j] == h[begin..j] && h[begin..j] + h[j..j + 1] == h[begin..j + 1]
  {
  }

  lemma FollowingPage(h: seq<Trade>, begin: nat, i: nat, j: nat)
    requires begin <= i + 1 && i <= j < |h|
    ensures h[begin..i + 1] + h[i + 1..j + 1] == h[begin..j + 1]
  {
  }

  lemma PageExtends(w: World, i: nat, j: nat, begin: nat)
    requires i <= j < |w.history| && begin <= (if w.overlap then i else i + 1)
    ensures var h, page := w.history, w.history[if w.overlap then i else i + 1..j + 1];
      && (page == [] <==> !w.overlap && j == i)
      && SoFar(h, begin, w.overlap, i) + Kept(page, w.overlap) == SoFar(h, begin, w.overlap, j)
      && (page != [] ==> page[|page| - 1] == h[j])
      && (page != [] && w.overlap ==> SoFar(h, begin, true, j) + page[|page| - 1..] == h[begin..j + 1])
  {
    if w.overlap {
      OverlappingPage(w.history, begin, i, j);
    } else {
      FollowingPage(w.history, begin, i, j);
    }
  }

  /** The loop over pages, from the key of trade `start` and the trades kept up to there. */
  method FollowPages(kept: seq<Trade>, firstKey: int, overlap: bool, until: int, fetch: (nat, int) -> seq<Trade>,
                     cancelled: nat -> bool, ghost w: World, ghost begin: nat, ghost start: nat)
    returns (trades: seq<Trade>)
    requires ValidWorld(w) && w.overlap == overlap && w.until == until && w.cancelled == cancelled && Serves(fetch, w)
    requires start < w.visible(0) && firstKey == w.history[start].id
    requires begin <= (if overlap then start else start + 1) && kept == SoFar(w.history, begin, overlap, start)
    ensures begin <= Stop(w, 0, start) && trades == w.history[begin..Stop(w, 0, start)]
  {
    trades := kept;
    var key, n: nat := firstKey, 0;
    ghost var i := start;
    while true
      invariant start <= i < w.visible(n) <= |w.history| && key == w.history[i].id
      invariant begin <= (if overlap then i else i + 1) && trades == SoFar(w.history, begin, overlap, i)
      invariant Stop(w, n, i) == Stop(w, 0, start)
      decreases |w.history| - i
    {
      if cancelled(n) {
        break;
      }
      var page := fetch(n, key);
      assert page == Page(w, n, i);
      if page == [] {
        break;
      }
      var next, done := page[|page| - 1].id, false;
      trades, done := AddPage(trades, page, key, overlap, until, w, begin, i, LastOfPage(w, n, i));
      if done {
        LastCall(w, n, i);
        break;
      }
      NextCall(w, n, i);
      key, i, n := next, LastOfPage(w, n, i), n + 1;
    }
  }

  /** Keeps the trades of one page, the last one only if this is where the download is done. */
  method AddPage(trades: seq<Trade>, page: seq<Trade>, key: int, overlap: bool, until: int,
                 ghost w: World, ghost begin: nat, ghost i: nat, ghost j: nat)
    returns (extended: seq<Trade>, done: bool)
    requires ValidWorld(w) && w.overlap == overlap && w.until == until
    requires i <= j < |w.history| && begin <= (if overlap then i else i + 1) && key == w.history[i].id
    requires page != [] && page == w.history[if overlap then i else i + 1..j + 1]
    requires trades == SoFar(w.history, begin, overlap, i)
    ensures page[|page| - 1] == w.history[j]
    ensures done <==> i == j || w.history[j].time > until
    ensures extended == if done then w.history[begin..j + 1] else SoFar(w.history, begin, overlap, j)
  {
    PageExtends(w, i, j, begin);
    extended := trades + Kept(page, overlap);
    done := key == page[|page| - 1].id || page[|page| - 1].time > until;
    if done && overlap {
      extended := extended + page[|page| - 1..];
    }
  }

  lemma LastCall(w: World, n: nat, i: nat)
    requires ValidWorld(w) && i < w.visible(n) && !w.cancelled(n)
    requires var j := LastOfPage(w, n, i);
      w.history[j].id == w.history[i].id || w.history[j].time > w.until
    ensures Stop(w, n, i) == LastOfPage(w, n, i) + 1
  {
  }

  lemma NextCall(w: World, n: nat, i: nat)
    requires ValidWorld(w) && i < w.visible(n) && !w.cancelled(n)
    requires var j := LastOfPage(w, n, i); j != i && w.history[j].time <= w.until
    ensures LastOfPage(w, n, i) < w.visible(n) <= w.visible(n + 1)
    ensures Stop(w, n, i) == Stop(w, n + 1, LastOfPage(w, n, i))
  {
  }

  /** The download returns one unbroken stretch of the history, without a gap or a duplicate. */
  method GetTradeHistoryId(overlap: bool, until: int, fromId: Option<int>, startup: seq<Trade>,
                           fetch: (nat, int) -> seq<Trade>, cancelled: nat -> bool, ghost w: World, ghost first: nat)
    returns (trades: seq<Trade>)
    requires ValidWorld(w) && w.overlap == overlap && w.until == until && w.cancelled == cancelled
    requires Serves(fetch, w) && ValidStart(w, fromId, first, startup)
    ensures var begin, end := Begin(fromId, first, overlap), Stop(w, 0, FirstKey(fromId, first, startup));
      begin <= end && trades == w.history[begin..end]
  {
    trades := [];
    ghost var begin, start := Begin(fromId, first, overlap), FirstKey(fromId, first, startup);
    var key: int;
    if fromId.None? {
      key := startup[|startup| - 1].id;
      trades := trades + Kept(startup, overlap);
    } else {
      key := fromId.value;
    }
    assert trades == SoFar(w.history, begin, overlap, start);
    trades := FollowPages(trades, key, overlap, until, fetch, cancelled, w, begin, start);
  }

  /**
    The loop stops only at the end of what the exchange shows, after a trade later than `until`, or
    when it is interrupted - unless pages overlap and hold a single trade.
   */
  lemma {:induction false} StopReasons(w: World, n: nat, i: nat)
    requires ValidWorld(w) && i < w.visible(n) && !(w.overlap && w.limit == 1)
    ensures var end := Stop(w, n, i);
      || (exists m: nat :: m >= n && w.cancelled(m))
      || (exists m: nat :: m >= n && end == w.visible(m))
      || (0 < end && w.history[end - 1].time > w.until)
    decreases |w.history| - i
  {
    var j := LastOfPage(w, n, i);
    if !w.cancelled(n) && j != i && w.history[j].time <= w.until {
      assert w.visible(n) <= w.visible(n + 1);
      StopReasons(w, n + 1, j);
    }
  }

  /** Nothing wanted is missed: every trade up to `until` that existed at the start is returned. */
  lemma {:induction false} NothingMissed(w: World, n: nat, i: nat, k: nat)
    requires ValidWorld(w) && InTimeOrder(w.history) && !(w.overlap && w.limit == 1)
    requires forall m :: !w.cancelled(m)
    requires i < w.visible(n) && k < w.visible(n) && w.history[k].time <= w.until
    ensures k < Stop(w, n, i)
  {
    StopReasons(w, n, i);
    var end := Stop(w, n, i);
    if m: nat :| m >= n && end == w.visible(m) {
      assert w.visible(n) <= w.visible(m);
    }
  }

  /** Little is downloaded in vain: after the first key, at most one page of trades later than `until`. */
  lemma {:induction false} LittleInVain(w: World, n: nat, i: nat)
    requires ValidWorld(w) && InTimeOrder(w.history) && i < w.visible(n)
    ensures var end := Stop(w, n, i);
      forall k :: i < k < end && w.history[k].time > w.until ==> end - k <= w.limit
    decreases |w.history| - i
  {
    var j := LastOfPage(w, n, i);
    if !w.cancelled(n) && j != i && w.history[j].time <= w.until {
      assert w.visible(n) <= w.visible(n + 1);
      LittleInVain(w, n + 1, j);
    }
  }

  /** A download that is not interrupted returns everything up to `until` that existed at its start. */
  ghost predicate MissesNothing(w: World)
    requires ValidWorld(w)
  {
    forall i, k :: 0 <= i < w.visible(0) && 0 <= k < w.visible(0) && w.history[k].time <= w.until ==> k < Stop(w, 0, i)
  }

  ghost predicate Undisturbed(w: World) {
    ValidWorld(w) && InTimeOrder(w.history) && forall n :: !w.cancelled(n)
  }

  /** Two trades at the same time, of which a download by pages of one trade returns the first. */
  lemma MissedTrade() returns (w: World)
    ensures Undisturbed(w) && w.overlap && w.limit == 1 && !MissesNothing(w)
  {
    var h := [Trade(0, 0), Trade(0, 1)];
    w := World(h, 1, true, 0, _ => 2, _ => false);
    assert h[0].id != h[1].id && |h| == 2;
    assert ValidWorld(w);
    SingleTradePagesStopAtOnce(w, 0);
    assert Stop(w, 0, 0) == 1 && w.visible(0) == 2 && w.history[1].time <= w.until;
  }

  /** Pages of two trades or without overlap are exactly those with which no download ever misses a trade. */
  lemma NothingMissedExactly(overlap: bool, limit: nat)
    requires limit >= 1
    ensures (forall w :: Undisturbed(w) && w.overlap == overlap && w.limit == limit ==> MissesNothing(w))
      <==> !(overlap && limit == 1)
  {
    if overlap && limit == 1 {
      var w := MissedTrade();
    } else {
      forall w, i, k | Undisturbed(w) && w.overlap == overlap && w.limit == limit
                       && 0 <= i < w.visible(0) && 0 <= k < w.visible(0) && w.history[k].time <= w.until
        ensures k < Stop(w, 0, i)
      {
        NothingMissed(w, 0, i, k);
      }
    }
  }

  /** Overlapping pages of one trade make no progress: the download stops after its first key. */
  lemma SingleTradePagesStopAtOnce(w: World, i: nat)
    requires ValidWorld(w) && i < w.visible(0) && w.overlap && w.limit == 1 && !w.cancelled(0)
    ensures Stop(w, 0, i) == i + 1
  {
  }
}
