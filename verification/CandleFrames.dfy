/**
  Candle frames as `data/converter` makes them: grouping by date and filling of missing candles
  (`clean_ohlcv_dataframe`, `ohlcv_fill_up_missing_data`), and frames that are pieces of a history.
 */
module CandleFrames {
  import opened Integers
  import Reals

  datatype Tick = Tick(date: int, open: real, high: real, low: real, close: real, volume: real)
  type Frame = seq<Tick>

  /** Two rows of the same date: first open, highest high, lowest low, last close, largest volume. */
  function Combine(a: Tick, b: Tick): Tick {
    Tick(a.date, a.open, Reals.Max(a.high, b.high), Reals.Min(a.low, b.low), b.close, Reals.Max(a.volume, b.volume))
  }

  /** Grouping of a sorted list of ticks by date. */
  function GroupTicks(ticks: Frame): Frame
    decreases |ticks|
  {
    if |ticks| <= 1 then ticks
    else if ticks[0].date == ticks[1].date then GroupTicks([Combine(ticks[0], ticks[1])] + ticks[2..])
    else [ticks[0]] + GroupTicks(ticks[1..])
  }

  /** Grouping of two frames, each sorted by distinct dates. */
  function MergeFrames(held: Frame, next: Frame): Frame
    decreases |held| + |next|
  {
    if held == [] then next
    else if next == [] then held
    else if held[0].date < next[0].date then [held[0]] + MergeFrames(held[1..], next)
    else if next[0].date < held[0].date then [next[0]] + MergeFrames(held, next[1..])
    else [Combine(held[0], next[0])] + MergeFrames(held[1..], next[1..])
  }

  function Filler(t: Tick, timeframe: int): Tick {
    Tick(t.date + timeframe, t.close, t.close, t.close, t.close, 0.0)
  }

  /** Missing candles are made up from the close before them. */
  function FillMissing(f: Frame, timeframe: int): Frame
    requires timeframe > 0
    decreases |f|, if |f| > 1 then Max(0, f[1].date - f[0].date) else 0
  {
    if |f| <= 1 then f
    else if f[1].date <= f[0].date + timeframe then [f[0]] + FillMissing(f[1..], timeframe)
    else [f[0]] + FillMissing([Filler(f[0], timeframe)] + f[1..], timeframe)
  }

  function Tail(f: Frame, n: int): Frame
    requires n >= 0
  {
    if |f| > n then f[|f| - n..] else f
  }

  function CleanFrame(ticks: Frame, timeframe: int, fill: bool, dropIncomplete: bool): Frame
    requires timeframe > 0
  {
    var grouped := GroupTicks(ticks);
    var kept := if dropIncomplete && grouped != [] then grouped[..|grouped| - 1] else grouped;
    if fill then FillMissing(kept, timeframe) else kept
  }

  // ---------- The grid of dates ----------

  lemma Earlier(timeframe: int, i: int, j: int)
    requires timeframe > 0
    ensures i * timeframe < j * timeframe <==> i < j
    ensures (i + 1) * timeframe == i * timeframe + timeframe
  {
    assert (j - i) * timeframe == j * timeframe - i * timeframe;
    if i < j {
      assert (j - i) * timeframe > 0;
    } else {
      assert (i - j) * timeframe >= 0;
      assert (i - j) * timeframe == i * timeframe - j * timeframe;
    }
  }

  lemma EndOf(timeframe: int, hi: int)
    requires timeframe > 0
    ensures ((hi - 1) * timeframe) / timeframe + 1 == hi
  {
    var k, q, r := hi - 1, ((hi - 1) * timeframe) / timeframe, ((hi - 1) * timeframe) % timeframe;
    assert k * timeframe == q * timeframe + r;
    Earlier(timeframe, k, q);
    Earlier(timeframe, q, k);
    Earlier(timeframe, q + 1, k);
  }

  lemma SameNumber(timeframe: int, i: int, j: int)
    requires timeframe > 0 && i * timeframe == j * timeframe
    ensures i == j
  {
    Earlier(timeframe, i, j);
    Earlier(timeframe, j, i);
  }

  lemma OnGridDate(timeframe: int, k: int)
    requires timeframe > 0
    ensures (k * timeframe) % timeframe == 0
  {
    EndOf(timeframe, k + 1);
    assert k * timeframe == (k * timeframe) / timeframe * timeframe + (k * timeframe) % timeframe;
  }

  lemma NextOnGrid(a: int, b: int, timeframe: int)
    requires timeframe > 0 && a < b && a % timeframe == 0 && b % timeframe == 0
    ensures a + timeframe <= b && (a + timeframe) % timeframe == 0
  {
    var i, j := a / timeframe, b / timeframe;
    assert a == i * timeframe && b == j * timeframe;
    Earlier(timeframe, i, j);
    Earlier(timeframe, i + 1, j);
    EndOf(timeframe, i + 2);
    assert (i + 1) * timeframe == a + timeframe;
  }

  // ---------- Pieces of a history ----------

  /** The candles `lo..hi` as `view` shows them. */
  function Slice(view: int -> Tick, lo: int, hi: int): (f: Frame)
    ensures |f| == Max(0, hi - lo)
    ensures forall i :: 0 <= i < |f| ==> f[i] == view(lo + i)
  {
    seq(Max(0, hi - lo), i => view(lo + i))
  }

  ghost predicate Dated(view: int -> Tick, timeframe: int, lo: int, hi: int) {
    forall i :: lo <= i < hi ==> view(i).date == i * timeframe
  }

  ghost predicate Rising(view: int -> Tick, lo: int, hi: int) {
    forall i, j :: lo <= i < j < hi ==> view(i).date < view(j).date
  }

  lemma DatedIsRising(view: int -> Tick, timeframe: int, lo: int, hi: int)
    requires timeframe > 0 && Dated(view, timeframe, lo, hi)
    ensures Rising(view, lo, hi)
  {
    forall i, j | lo <= i < j < hi ensures view(i).date < view(j).date {
      Earlier(timeframe, i, j);
    }
  }

  lemma {:induction false} GroupSlice(view: int -> Tick, lo: int, hi: int)
    requires Rising(view, lo, hi)
    ensures GroupTicks(Slice(view, lo, hi)) == Slice(view, lo, hi)
    decreases hi - lo
  {
    if lo + 1 < hi {
      var f := Slice(view, lo, hi);
      assert f[0] == view(lo) && f[1] == view(lo + 1);
      assert f[1..] == Slice(view, lo + 1, hi);
      GroupSlice(view, lo + 1, hi);
    }
  }

  lemma {:induction false} FillSlice(view: int -> Tick, timeframe: int, lo: int, hi: int)
    requires timeframe > 0 && Dated(view, timeframe, lo, hi)
    ensures FillMissing(Slice(view, lo, hi), timeframe) == Slice(view, lo, hi)
    decreases hi - lo
  {
    if lo + 1 < hi {
      var f := Slice(view, lo, hi);
      assert f[0] == view(lo) && f[1] == view(lo + 1);
      Earlier(timeframe, lo, lo + 1);
      assert f[1..] == Slice(view, lo + 1, hi);
      FillSlice(view, timeframe, lo + 1, hi);
    }
  }

  ghost predicate Sorted(f: Frame) {
    forall i, j :: 0 <= i < j < |f| ==> f[i].date < f[j].date
  }

  // ---------- Rows of one date ----------

  /** `t` stands for `rows`: first open, highest high, lowest low, last close and largest volume. */
  predicate IsGroup(t: Tick, rows: Frame)
    requires rows != []
  {
    && t.date == rows[0].date && t.open == rows[0].open && t.close == rows[|rows| - 1].close
    && (forall i :: 0 <= i < |rows| ==> t.low <= rows[i].low && rows[i].high <= t.high && rows[i].volume <= t.volume)
    && (exists i :: 0 <= i < |rows| && rows[i].high == t.high)
    && (exists i :: 0 <= i < |rows| && rows[i].low == t.low)
    && (exists i :: 0 <= i < |rows| && rows[i].volume == t.volume)
  }

  lemma CombineIsGroup(a: Tick, b: Tick)
    ensures IsGroup(Combine(a, b), [a, b])
  {
    var rows := [a, b];
    assert rows[0] == a && rows[1] == b;
  }

  /** Rows of one date become one row. */
  lemma {:induction false} GroupOfOneDate(rows: Frame)
    requires rows != [] && forall i :: 0 <= i < |rows| ==> rows[i].date == rows[0].date
    ensures |GroupTicks(rows)| == 1 && IsGroup(GroupTicks(rows)[0], rows)
    decreases |rows|
  {
    if |rows| > 1 {
      var fewer := [Combine(rows[0], rows[1])] + rows[2..];
      GroupOfOneDate(fewer);
      GroupOfFewer(GroupTicks(fewer)[0], rows, fewer);
    }
  }

  lemma GroupOfFewer(t: Tick, rows: Frame, fewer: Frame)
    requires |rows| > 1 && fewer == [Combine(rows[0], rows[1])] + rows[2..] && IsGroup(t, fewer)
    ensures IsGroup(t, rows)
  {
    forall i | 0 <= i < |rows|
      ensures t.low <= rows[i].low && rows[i].high <= t.high && rows[i].volume <= t.volume
    {
      assert i < 2 || fewer[i - 1] == rows[i];
    }
    var h :| 0 <= h < |fewer| && fewer[h].high == t.high;
    var l :| 0 <= l < |fewer| && fewer[l].low == t.low;
    var v :| 0 <= v < |fewer| && fewer[v].volume == t.volume;
    assert h > 0 ==> rows[h + 1].high == t.high;
    assert l > 0 ==> rows[l + 1].low == t.low;
    assert v > 0 ==> rows[v + 1].volume == t.volume;
  }

  /** Rows of different dates are grouped apart. */
  lemma {:induction false} GroupsAreApart(a: Frame, b: Frame)
    requires a != [] && b != [] && a[|a| - 1].date != b[0].date
    ensures GroupTicks(a + b) == GroupTicks(a) + GroupTicks(b)
    decreases |a|
  {
    if |a| == 1 {
      assert (a + b)[1..] == b;
    } else if a[0].date == a[1].date {
      var fewer := [Combine(a[0], a[1])] + a[2..];
      assert [Combine(a[0], a[1])] + (a + b)[2..] == fewer + b;
      GroupsAreApart(fewer, b);
    } else {
      assert (a + b)[1..] == a[1..] + b;
      GroupsAreApart(a[1..], b);
    }
  }

  /** The row of a date, if there is one. */
  function At(f: Frame, date: int): Frame {
    if f == [] then [] else if f[0].date == date then [f[0]] else At(f[1..], date)
  }

  lemma {:induction false} NotBeforeFirst(f: Frame, date: int)
    requires Sorted(f) && (f != [] ==> date < f[0].date)
    ensures At(f, date) == []
  {
    if f != [] {
      NotBeforeFirst(f[1..], date);
    }
  }

  lemma {:induction false} AtIsOneRow(f: Frame, date: int)
    ensures At(f, date) != [] ==> |At(f, date)| == 1 && IsGroup(At(f, date)[0], At(f, date))
  {
    if f != [] {
      AtIsOneRow(f[1..], date);
      var rows := [f[0]];
      assert rows[0].high == f[0].high;
    }
  }

  /** `merged` is nothing if there are no rows, and else the one row that stands for them. */
  predicate StandsFor(merged: Frame, rows: Frame) {
    if rows == [] then merged == [] else |merged| == 1 && IsGroup(merged[0], rows)
  }

  /** A merged frame has for each date the row of the frame that has it, or the group of both rows. */
  lemma {:induction false} MergeByDate(held: Frame, next: Frame, date: int)
    requires Sorted(held) && Sorted(next)
    ensures StandsFor(At(MergeFrames(held, next), date), At(held, date) + At(next, date))
    decreases |held| + |next|
  {
    AtIsOneRow(held, date);
    AtIsOneRow(next, date);
    if held == [] {
      assert At(held, date) + At(next, date) == At(next, date);
    } else if next == [] {
      assert At(held, date) + At(next, date) == At(held, date);
    } else if held[0].date < next[0].date {
      MergeByDate(held[1..], next, date);
      NotBeforeFirst(next, held[0].date);
      if date == held[0].date {
        assert At(held, date) + At(next, date) == At(held, date);
      }
    } else if next[0].date < held[0].date {
      MergeByDate(held, next[1..], date);
      NotBeforeFirst(held, next[0].date);
      if date == next[0].date {
        assert At(held, date) + At(next, date) == At(next, date);
      }
    } else {
      MergeByDate(held[1..], next[1..], date);
      CombineIsGroup(held[0], next[0]);
      assert [held[0]] + [next[0]] == [held[0], next[0]];
    }
  }

  lemma CombineSame(t: Tick)
    ensures Combine(t, t) == t
  {
  }

  lemma {:induction false} MergePrefix(f: Frame, n: nat)
    requires n <= |f|
    ensures MergeFrames(f[..n], f) == f
    decreases f
  {
    if n == 0 {
      assert f[..n] == [];
    } else {
      assert f[..n][1..] == f[1..][..n - 1];
      CombineSame(f[0]);
      MergePrefix(f[1..], n - 1);
    }
  }

  /** Overlapping or adjacent pieces of a sorted frame join to that frame. */
  lemma {:induction false} MergeOverlap(f: Frame, k: nat, n: nat)
    requires Sorted(f) && k <= n <= |f|
    ensures MergeFrames(f[..n], f[k..]) == f
    decreases f
  {
    if k == 0 {
      assert f[k..] == f;
      MergePrefix(f, n);
    } else if k == |f| {
      assert f[..n] == f && f[k..] == [];
    } else {
      assert f[..n][1..] == f[1..][..n - 1] && f[k..] == f[1..][k - 1..];
      assert f[..n][0] == f[0] && f[k..][0] == f[k] && f[0].date < f[k].date;
      MergeOverlap(f[1..], k - 1, n - 1);
    }
  }

  lemma PartOfRest(f: Frame, k: nat, n: nat)
    requires 0 < k <= n <= |f|
    ensures f[k..n] == f[1..][k - 1..n - 1]
  {
    var rest := f[1..];
    forall i | 0 <= i < n - k
      ensures f[k..n][i] == rest[k - 1..n - 1][i]
    {
      assert f[k..n][i] == f[k + i] == rest[k - 1 + i];
    }
  }

  lemma {:induction false} MergeInside(f: Frame, k: nat, n: nat)
    requires Sorted(f) && k <= n <= |f|
    ensures MergeFrames(f[k..n], f) == f
    decreases f
  {
    if k == n {
      assert f[k..n] == [];
    } else if k == 0 {
      assert f[k..n] == f[..n];
      MergePrefix(f, n);
    } else {
      PartOfRest(f, k, n);
      assert f[k..n][0] == f[k] && f[0].date < f[k].date;
      MergeInside(f[1..], k - 1, n - 1);
    }
  }

  lemma SliceIsSorted(view: int -> Tick, lo: int, hi: int)
    requires Rising(view, lo, hi)
    ensures Sorted(Slice(view, lo, hi))
  {
  }

  /** Overlapping or adjacent pieces join to one piece. */
  lemma MergeSlices(view: int -> Tick, lo: int, hi: int, a: int, b: int)
    requires Rising(view, Min(lo, a), b)
    requires lo <= hi && a <= hi <= b
    ensures MergeFrames(Slice(view, lo, hi), Slice(view, a, b)) == Slice(view, Min(lo, a), b)
  {
    if lo <= a {
      MergeFromLeft(view, lo, hi, a, b);
    } else {
      MergeFromRight(view, lo, hi, a, b);
    }
  }

  lemma MergeFromLeft(view: int -> Tick, lo: int, hi: int, a: int, b: int)
    requires Rising(view, lo, b) && lo <= a <= hi <= b
    ensures MergeFrames(Slice(view, lo, hi), Slice(view, a, b)) == Slice(view, lo, b)
  {
    var f, k, n := Slice(view, lo, b), a - lo, hi - lo;
    SliceIsSorted(view, lo, b);
    var held, next := f[..n], f[k..];
    assert held == Slice(view, lo, hi) && next == Slice(view, a, b);
    MergeOverlap(f, k, n);
  }

  lemma MergeFromRight(view: int -> Tick, lo: int, hi: int, a: int, b: int)
    requires Rising(view, a, b) && a <= lo <= hi <= b
    ensures MergeFrames(Slice(view, lo, hi), Slice(view, a, b)) == Slice(view, a, b)
  {
    var f, k, n := Slice(view, a, b), lo - a, hi - a;
    SliceIsSorted(view, a, b);
    var held := f[k..n];
    assert held == Slice(view, lo, hi);
    MergeInside(f, k, n);
  }

  lemma TailSlice(view: int -> Tick, lo: int, hi: int, n: int)
    requires n >= 0 && lo <= hi
    ensures Tail(Slice(view, lo, hi), n) == Slice(view, Max(lo, hi - n), hi)
  {
  }

  lemma TailAt(f: Frame, n: nat, j: nat)
    requires j < |Tail(f, n)|
    ensures Tail(f, n)[j] == f[|f| - |Tail(f, n)| + j]
  {
  }

  // ---------- Filling ----------

  ghost predicate Aligned(f: Frame, timeframe: int)
    requires timeframe > 0
  {
    forall i :: 0 <= i < |f| ==> f[i].date % timeframe == 0
  }

  ghost predicate Gapless(f: Frame, timeframe: int) {
    forall i :: 0 < i < |f| ==> f[i].date == f[i - 1].date + timeframe
  }

  /** Every candle of `g` after the first is one of `f` or made up from the one before it. */
  ghost predicate FilledFrom(g: Frame, f: Frame, timeframe: int) {
    forall i :: 0 < i < |g| ==> g[i] in f || g[i] == Filler(g[i - 1], timeframe)
  }

  /**
    Filling a sorted frame whose dates lie on the grid leaves no hole, keeps every candle of the frame
    and both ends, and adds only candles made up from the close before them.
   */
  lemma {:induction false} FillLeavesNoHole(f: Frame, timeframe: int)
    requires timeframe > 0 && f != [] && Sorted(f) && Aligned(f, timeframe)
    ensures var g := FillMissing(f, timeframe);
      && g != [] && g[0] == f[0] && g[|g| - 1].date == f[|f| - 1].date
      && Gapless(g, timeframe) && FilledFrom(g, f[1..], timeframe)
      && forall t :: t in f ==> t in g
    decreases |f|, if |f| > 1 then Max(0, f[1].date - f[0].date) else 0
  {
    if |f| > 1 {
      var rest := RestToFill(f, timeframe);
      FillLeavesNoHole(rest, timeframe);
      FillStep(f, rest, FillMissing(rest, timeframe), timeframe);
    }
  }

  /** What is left to fill after the first candle. */
  lemma RestToFill(f: Frame, timeframe: int) returns (rest: Frame)
    requires timeframe > 0 && |f| > 1 && Sorted(f) && Aligned(f, timeframe)
    ensures FillMissing(f, timeframe) == [f[0]] + FillMissing(rest, timeframe)
    ensures rest != [] && Sorted(rest) && Aligned(rest, timeframe)
    ensures rest[0].date == f[0].date + timeframe && rest[|rest| - 1].date == f[|f| - 1].date
    ensures rest == f[1..] || (rest == [Filler(f[0], timeframe)] + f[1..] && f[1].date - f[0].date > timeframe)
  {
    NextOnGrid(f[0].date, f[1].date, timeframe);
    rest := f[1..];
    if f[1].date > f[0].date + timeframe {
      var filler := Filler(f[0], timeframe);
      NextOnGrid(filler.date, f[1].date, timeframe);
      InsertedFirst(filler, rest, timeframe);
      rest := [filler] + rest;
    }
  }

  lemma InsertedFirst(t: Tick, f: Frame, timeframe: int)
    requires timeframe > 0 && f != [] && Sorted(f) && Aligned(f, timeframe)
    requires t.date < f[0].date && t.date % timeframe == 0
    ensures Sorted([t] + f) && Aligned([t] + f, timeframe)
  {
    var g := [t] + f;
    forall i, j | 0 <= i < j < |g|
      ensures g[i].date < g[j].date
    {
      assert g[j] == f[j - 1];
      assert i == 0 || g[i] == f[i - 1];
    }
  }

  lemma FillStep(f: Frame, rest: Frame, g: Frame, timeframe: int)
    requires timeframe > 0 && |f| > 1 && rest != [] && g != [] && g[0] == rest[0]
    requires rest == f[1..] || rest == [Filler(f[0], timeframe)] + f[1..]
    requires f[0].date + timeframe == rest[0].date && g[|g| - 1].date == f[|f| - 1].date
    requires Gapless(g, timeframe) && FilledFrom(g, rest[1..], timeframe) && forall t :: t in rest ==> t in g
    ensures var whole := [f[0]] + g;
      && whole[|whole| - 1].date == f[|f| - 1].date
      && Gapless(whole, timeframe) && FilledFrom(whole, f[1..], timeframe)
      && forall t :: t in f ==> t in whole
  {
    var whole := [f[0]] + g;
    assert forall t :: t in rest[1..] ==> t in f[1..];
    assert f[1..] <= rest || f[1..] == rest[1..];
    forall i | 0 < i < |whole|
      ensures whole[i] in f[1..] || whole[i] == Filler(whole[i - 1], timeframe)
      ensures whole[i].date == whole[i - 1].date + timeframe
    {
      assert whole[i] == g[i - 1];
      if i > 1 {
        assert whole[i - 1] == g[i - 2];
      }
    }
    forall t | t in f
      ensures t in whole
    {
      if t != f[0] {
        assert t in f[1..];
        assert t in rest;
      }
    }
  }
}
