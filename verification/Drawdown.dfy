/**
  Maximum drawdown of a list of closed trades: the one-pass form of `_calc_drawdown_series` and
  `calculate_max_drawdown` in `data/metrics.py`, and the all-pairs definition it stands for.
 */
module Drawdown {
  import opened Reals
  import opened Results

  /** Trades come in the order of their close dates. */
  datatype ClosedTrade = ClosedTrade(closeDate: int, profit: real)

  /** A quotient as a floating-point column holds it. */
  datatype Ratio = NaN | Infinite(positive: bool) | Finite(value: real)

  datatype DrawdownError = EmptyFrame | NoSequence | NothingToCompare

  datatype Report = Report(
    drawdownAbs: real, highDate: int, lowDate: int, highValue: real, lowValue: real, relative: Ratio,
    currentHighDate: int, currentHighValue: real, currentDrawdownAbs: real, currentRelative: Ratio)

  function Divide(x: real, y: real): Ratio {
    if y != 0.0 then Finite(x / y)
    else if x == 0.0 then NaN
    else Infinite(x > 0.0)
  }

  predicate Less(a: Ratio, b: Ratio) {
    match (a, b)
    case (Finite(x), Finite(y)) => x < y
    case (Infinite(p), Infinite(q)) => !p && q
    case (Infinite(p), Finite(_)) => !p
    case (Finite(_), Infinite(q)) => q
    case _ => false
  }

  /** Ratios are ordered by value between the two infinities; NaN is not comparable. */
  lemma RatiosAreOrdered(a: Ratio, b: Ratio, c: Ratio)
    ensures !Less(a, a) && (Less(a, b) && Less(b, c) ==> Less(a, c))
    ensures Less(a, b) || Less(b, a) || a == b || a.NaN? || b.NaN?
    ensures a.NaN? || b.NaN? ==> !Less(a, b)
    ensures a.Finite? && b.Finite? ==> (Less(a, b) <==> a.value < b.value)
    ensures a.Finite? ==> Less(Infinite(false), a) && Less(a, Infinite(true))
    ensures Less(Infinite(false), Infinite(true))
  {
  }

  // ---------- The definition ----------

  /** Profit after the first `n` trades. */
  function Balance(trades: seq<ClosedTrade>, n: nat): real
    requires n <= |trades|
  {
    if n == 0 then 0.0 else Balance(trades, n - 1) + trades[n - 1].profit
  }

  /** The highest balance so far, the start included. */
  function Peak(trades: seq<ClosedTrade>, n: nat): real
    requires n <= |trades|
  {
    if n == 0 then 0.0 else Max(Peak(trades, n - 1), Balance(trades, n))
  }

  function Drop(trades: seq<ClosedTrade>, i: nat, j: nat): real
    requires i <= |trades| && j <= |trades|
  {
    Balance(trades, i) - Balance(trades, j)
  }

  /** `d` is the largest fall from any balance, the start included, to any later one. */
  ghost predicate IsLargestDrop(trades: seq<ClosedTrade>, d: real) {
    && (exists i, j :: 0 <= i <= j <= |trades| && Drop(trades, i, j) == d)
    && (forall i, j :: 0 <= i <= j <= |trades| ==> Drop(trades, i, j) <= d)
  }

  function RelativeDrop(trades: seq<ClosedTrade>, start: real, i: nat, j: nat): real
    requires i <= |trades| && j <= |trades| && start + Balance(trades, i) != 0.0
  {
    Drop(trades, i, j) / (start + Balance(trades, i))
  }

  /** `x` is the largest fall from any positive account value to any later one, as a part of the former. */
  ghost predicate IsLargestRelativeDrop(trades: seq<ClosedTrade>, start: real, x: real) {
    && (exists i, j :: 0 <= i <= j <= |trades| && start + Balance(trades, i) > 0.0
                       && RelativeDrop(trades, start, i, j) == x)
    && (forall i, j :: 0 <= i <= j <= |trades| && start + Balance(trades, i) > 0.0 ==>
          RelativeDrop(trades, start, i, j) <= x)
  }

  lemma {:induction false} PeakIsHighest(trades: seq<ClosedTrade>, n: nat)
    requires n <= |trades|
    ensures forall k :: 0 <= k <= n ==> Balance(trades, k) <= Peak(trades, n)
    ensures exists k :: 0 <= k <= n && Balance(trades, k) == Peak(trades, n)
  {
    if n > 0 {
      PeakIsHighest(trades, n - 1);
      if Peak(trades, n - 1) < Balance(trades, n) {
        assert Balance(trades, n) == Peak(trades, n);
      } else {
        var k :| 0 <= k <= n - 1 && Balance(trades, k) == Peak(trades, n - 1);
        assert Balance(trades, k) == Peak(trades, n);
      }
    } else {
      assert Balance(trades, 0) == Peak(trades, 0);
    }
  }

  lemma {:induction false} PeakRises(trades: seq<ClosedTrade>, m: nat, n: nat)
    requires m <= n <= |trades|
    ensures Peak(trades, m) <= Peak(trades, n)
  {
    if m < n {
      PeakRises(trades, m, n - 1);
    }
  }

  // ---------- The one-pass form ----------

  /** The value of the relative column after `n` trades. */
  function RelativeAt(trades: seq<ClosedTrade>, start: real, n: nat): Ratio
    requires n <= |trades|
  {
    if start != 0.0
    then Divide((start + Peak(trades, n)) - (start + Balance(trades, n)), start + Peak(trades, n))
    else Divide(Peak(trades, n) - Balance(trades, n), Peak(trades, n))
  }

  /** The four columns, row by row: balances, peaks with the start included, drawdowns and their parts. */
  ghost predicate AreColumns(trades: seq<ClosedTrade>, start: real, cumulative: seq<real>, highs: seq<real>,
                             drawdown: seq<real>, part: seq<Ratio>) {
    && |cumulative| == |highs| == |drawdown| == |part| == |trades|
    && forall k :: 0 <= k < |trades| ==>
      && cumulative[k] == Balance(trades, k + 1) && highs[k] == Peak(trades, k + 1)
      && drawdown[k] == cumulative[k] - highs[k] && part[k] == RelativeAt(trades, start, k + 1)
  }

  method CalcDrawdownSeries(trades: seq<ClosedTrade>, start: real)
    returns (cumulative: seq<real>, high: seq<real>, drawdown: seq<real>, relative: seq<Ratio>)
    ensures AreColumns(trades, start, cumulative, high, drawdown, relative)
  {
    cumulative, high, drawdown, relative := [], [], [], [];
    var sum, top := 0.0, 0.0;
    for n := 0 to |trades|
      invariant sum == Balance(trades, n) && top == Peak(trades, n)
      invariant |cumulative| == |high| == |drawdown| == |relative| == n
      invariant forall k :: 0 <= k < n ==>
        && cumulative[k] == Balance(trades, k + 1) && high[k] == Peak(trades, k + 1)
        && drawdown[k] == cumulative[k] - high[k] && relative[k] == RelativeAt(trades, start, k + 1)
    {
      sum := sum + trades[n].profit;
      top := Max(top, sum);
      var part := if start != 0.0 then Divide((start + top) - (start + sum), start + top)
                  else Divide(top - sum, top);
      cumulative, high := cumulative + [sum], high + [top];
      drawdown, relative := drawdown + [sum - top], relative + [part];
    }
  }

  predicate IsFirstMax(s: seq<real>, i: nat) {
    && i < |s|
    && (forall k :: 0 <= k < |s| ==> s[k] <= s[i])
    && (forall k :: 0 <= k < i ==> s[k] < s[i])
  }

  method IdxMax(s: seq<real>) returns (i: nat)
    requires s != []
    ensures IsFirstMax(s, i)
  {
    i := 0;
    for n := 1 to |s|
      invariant i < n && IsFirstMax(s[..n], i)
    {
      if s[i] < s[n] {
        i := n;
      }
    }
    assert s[..|s|] == s;
  }

  predicate IsFirstMin(s: seq<real>, i: nat) {
    && i < |s|
    && (forall k :: 0 <= k < |s| ==> s[i] <= s[k])
    && (forall k :: 0 <= k < i ==> s[i] < s[k])
  }

  method IdxMin(s: seq<real>) returns (i: nat)
    requires s != []
    ensures IsFirstMin(s, i)
  {
    i := 0;
    for n := 1 to |s|
      invariant i < n && IsFirstMin(s[..n], i)
    {
      if s[n] < s[i] {
        i := n;
      }
    }
    assert s[..|s|] == s;
  }

  /** The first largest entry that is a number. */
  predicate IsFirstRatioMax(s: seq<Ratio>, i: nat) {
    && i < |s| && !s[i].NaN?
    && (forall k :: 0 <= k < |s| ==> !Less(s[i], s[k]))
    && (forall k :: 0 <= k < i ==> s[k].NaN? || Less(s[k], s[i]))
  }

  method IdxMaxRatio(s: seq<Ratio>) returns (r: Option<nat>)
    ensures r.Some? ==> IsFirstRatioMax(s, r.value)
    ensures r.None? ==> forall k :: 0 <= k < |s| ==> s[k].NaN?
  {
    r := None;
    for n := 0 to |s|
      invariant r.Some? ==> r.value < n && IsFirstRatioMax(s[..n], r.value)
      invariant r.None? ==> forall k :: 0 <= k < n ==> s[k].NaN?
    {
      if !s[n].NaN? && (r.None? || Less(s[r.value], s[n])) {
        r := Some(n);
      }
    }
    assert s[..|s|] == s;
  }

  method LowIndex(drawdown: seq<real>, part: seq<Ratio>, relative: bool) returns (r: Option<nat>)
    requires drawdown != []
    ensures relative && r.Some? ==> IsFirstRatioMax(part, r.value)
    ensures relative && r.None? ==> forall k :: 0 <= k < |part| ==> part[k].NaN?
    ensures !relative ==> r.Some? && IsFirstMin(drawdown, r.value)
  {
    if relative {
      r := IdxMaxRatio(part);
    } else {
      var i := IdxMin(drawdown);
      r := Some(i);
    }
  }

  /** Row `row` is the first of the first `n` rows at which their highest balance is reached. */
  predicate IsFirstPeak(trades: seq<ClosedTrade>, row: nat, n: nat) {
    && row < n <= |trades|
    && Peak(trades, row + 1) == Peak(trades, n)
    && (forall k :: 0 < k <= row ==> Peak(trades, k) < Peak(trades, n))
  }

  function Fall(trades: seq<ClosedTrade>, n: nat): real
    requires n <= |trades|
  {
    Peak(trades, n) - Balance(trades, n)
  }

  /** The first of the values after one trade or more at which the fall from the peak is largest. */
  predicate IsFirstLargestFall(trades: seq<ClosedTrade>, n: nat) {
    && 0 < n <= |trades|
    && (forall k :: 0 < k <= |trades| ==> Fall(trades, k) <= Fall(trades, n))
    && (forall k :: 0 < k < n ==> Fall(trades, k) < Fall(trades, n))
  }

  /** The first of them at which the fall as a part of the peak, if that is a number, is largest. */
  predicate IsFirstLargestPart(trades: seq<ClosedTrade>, start: real, n: nat) {
    && 0 < n <= |trades| && !RelativeAt(trades, start, n).NaN?
    && (forall k :: 0 < k <= |trades| ==> !Less(RelativeAt(trades, start, n), RelativeAt(trades, start, k)))
    && (forall k :: 0 < k < n ==>
          RelativeAt(trades, start, k).NaN? || Less(RelativeAt(trades, start, k), RelativeAt(trades, start, n)))
  }

  predicate IsLow(trades: seq<ClosedTrade>, start: real, relative: bool, n: nat) {
    if relative then IsFirstLargestPart(trades, start, n) else IsFirstLargestFall(trades, n)
  }

  /** What the report says, in terms of the rows `low` and `high` it was read from. */
  ghost predicate ReadFrom(trades: seq<ClosedTrade>, start: real, r: Report, high: nat, low: nat)
  {
    && low < |trades| && IsFirstPeak(trades, high, low + 1)
    && r.highDate == trades[high].closeDate && r.lowDate == trades[low].closeDate
    && r.highValue == Balance(trades, high + 1) && r.lowValue == Balance(trades, low + 1)
    && r.drawdownAbs == Peak(trades, low + 1) - Balance(trades, low + 1)
    && r.relative == RelativeAt(trades, start, low + 1)
  }

  /**
    The report's fall is the largest of its kind; with a positive start the relative one is that exactly
    if dips fall from peaks.
   */
  ghost predicate IsLargest(trades: seq<ClosedTrade>, start: real, r: Report, relative: bool) {
    if !relative then IsLargestDrop(trades, r.drawdownAbs)
    else
      && !r.relative.NaN?
      && (forall k :: 0 < k <= |trades| ==> !Less(r.relative, RelativeAt(trades, start, k)))
      && (start > 0.0 ==>
            && r.relative.Finite?
            && (IsLargestRelativeDrop(trades, start, r.relative.value) <==> DipsFallFromPeaks(trades, start)))
  }

  /** The current values are those of the last row; their high is the first highest of the rows before it. */
  ghost predicate IsCurrent(trades: seq<ClosedTrade>, start: real, r: Report) {
    && |trades| >= 2
    && (exists row: nat :: IsFirstPeak(trades, row, |trades| - 1) && r.currentHighDate == trades[row].closeDate)
    && r.currentHighValue == Peak(trades, |trades|)
    && r.currentDrawdownAbs == Peak(trades, |trades|) - Balance(trades, |trades|)
    && r.currentRelative == RelativeAt(trades, start, |trades|)
  }

  method CalculateMaxDrawdown(trades: seq<ClosedTrade>, start: real, relative: bool)
    returns (r: Result<Report, DrawdownError>, ghost high: nat, ghost low: nat)
    ensures r.Ok? <==>
      |trades| >= 2 && (relative ==> exists k :: 0 < k <= |trades| && !RelativeAt(trades, start, k).NaN?)
    ensures |trades| == 0 ==> r == Err(EmptyFrame)
    ensures r.Ok? ==> IsLow(trades, start, relative, low + 1) && ReadFrom(trades, start, r.value, high, low)
    ensures r.Ok? ==> IsLargest(trades, start, r.value, relative)
    ensures r.Ok? ==> IsCurrent(trades, start, r.value)
  {
    high, low := 0, 0;
    if trades == [] {
      return Err(EmptyFrame), high, low;
    }
    var cumulative, highs, drawdown, part := CalcDrawdownSeries(trades, start);
    var found := LowIndex(drawdown, part, relative);
    if found.None? {
      NothingDefined(trades, start, part);
      return Err(NothingToCompare), high, low;
    }
    low := found.value;
    BestRow(trades, start, drawdown, part, relative, low);
    if |trades| == 1 {
      return Err(NoSequence), high, low;
    }
    var report: Report;
    report, high := ReadReport(trades, start, cumulative, highs, drawdown, part, found.value);
    LargestRow(trades, start, report, relative, low);
    r := Ok(report);
  }

  /** The report read from the columns at the row `low`. */
  method ReadReport(trades: seq<ClosedTrade>, start: real, cumulative: seq<real>, highs: seq<real>,
                    drawdown: seq<real>, part: seq<Ratio>, low: nat)
    returns (r: Report, high: nat)
    requires |trades| >= 2 && low < |trades| && AreColumns(trades, start, cumulative, highs, drawdown, part)
    requires Balance(trades, low + 1) <= Peak(trades, low + 1)
    ensures ReadFrom(trades, start, r, high, low) && IsCurrent(trades, start, r)
  {
    var last := |trades| - 1;
    high := IdxMax(highs[..low + 1]);
    HighRow(trades, highs, high, low + 1);
    var currentHigh := IdxMax(highs[..last]);
    HighRow(trades, highs, currentHigh, last);
    var fall := drawdown[low];
    r := Report(if fall < 0.0 then -fall else fall, trades[high].closeDate, trades[low].closeDate,
                cumulative[high], cumulative[low], part[low],
                trades[currentHigh].closeDate, highs[last], highs[last] - cumulative[last], part[last]);
  }

  lemma NothingDefined(trades: seq<ClosedTrade>, start: real, part: seq<Ratio>)
    requires |part| == |trades| && forall k :: 0 <= k < |trades| ==> part[k] == RelativeAt(trades, start, k + 1)
    requires forall k :: 0 <= k < |part| ==> part[k].NaN?
    ensures forall k :: 0 < k <= |trades| ==> RelativeAt(trades, start, k).NaN?
  {
    forall k | 0 < k <= |trades|
      ensures RelativeAt(trades, start, k).NaN?
    {
      assert part[k - 1].NaN?;
    }
  }

  lemma LargestRow(trades: seq<ClosedTrade>, start: real, r: Report, relative: bool, low: nat)
    requires low < |trades| && r.relative == RelativeAt(trades, start, low + 1)
    requires r.drawdownAbs == Peak(trades, low + 1) - Balance(trades, low + 1)
    requires IsLow(trades, start, relative, low + 1)
    ensures IsLargest(trades, start, r, relative)
  {
    if !relative {
      assert forall k :: 0 < k <= |trades| ==> Fall(trades, k) <= r.drawdownAbs;
      AbsoluteModeIsLargestDrop(trades, r.drawdownAbs, low);
    } else if start > 0.0 {
      RelativeAtIsFall(trades, start, low + 1);
      RelativeModeExactly(trades, start, r.relative.value, low);
    }
  }

  /** The row chosen is the first with the largest drawdown of its kind. */
  lemma BestRow(trades: seq<ClosedTrade>, start: real, drawdown: seq<real>, part: seq<Ratio>, relative: bool, low: nat)
    requires |drawdown| == |part| == |trades| && low < |trades|
    requires forall k :: 0 <= k < |trades| ==>
      drawdown[k] == Balance(trades, k + 1) - Peak(trades, k + 1) && part[k] == RelativeAt(trades, start, k + 1)
    requires if relative then IsFirstRatioMax(part, low) else IsFirstMin(drawdown, low)
    ensures Balance(trades, low + 1) <= Peak(trades, low + 1)
    ensures IsLow(trades, start, relative, low + 1)
  {
    PeakIsHighest(trades, low + 1);
    if relative {
      forall k | 0 < k <= |trades|
        ensures !Less(RelativeAt(trades, start, low + 1), RelativeAt(trades, start, k))
        ensures k <= low ==>
          RelativeAt(trades, start, k).NaN? || Less(RelativeAt(trades, start, k), RelativeAt(trades, start, low + 1))
      {
        assert part[k - 1] == RelativeAt(trades, start, k);
      }
    } else {
      forall k | 0 < k <= |trades|
        ensures Fall(trades, k) <= Fall(trades, low + 1)
        ensures k <= low ==> Fall(trades, k) < Fall(trades, low + 1)
      {
        assert drawdown[k - 1] == -Fall(trades, k);
      }
    }
  }

  lemma HighRow(trades: seq<ClosedTrade>, highs: seq<real>, row: nat, n: nat)
    requires |highs| == |trades| && 0 < n <= |trades| && IsFirstMax(highs[..n], row)
    requires forall k :: 0 <= k < |trades| ==> highs[k] == Peak(trades, k + 1)
    ensures IsFirstPeak(trades, row, n)
  {
    var s := highs[..n];
    assert s[row] == Peak(trades, row + 1) && s[n - 1] == Peak(trades, n);
    PeakRises(trades, row + 1, n);
    forall k | 0 < k <= row
      ensures Peak(trades, k) < Peak(trades, n)
    {
      assert s[k - 1] < s[row];
    }
  }

  // ---------- The one-pass form is the definition ----------

  /** In absolute mode the reported drawdown is the largest drop over all pairs of balances. */
  lemma AbsoluteModeIsLargestDrop(trades: seq<ClosedTrade>, d: real, low: nat)
    requires low < |trades| && d == Peak(trades, low + 1) - Balance(trades, low + 1)
    requires forall k :: 0 < k <= |trades| ==> Fall(trades, k) <= d
    ensures IsLargestDrop(trades, d)
  {
    PeakIsHighest(trades, low + 1);
    var i :| 0 <= i <= low + 1 && Balance(trades, i) == Peak(trades, low + 1);
    assert Drop(trades, i, low + 1) == d;
    forall i, j | 0 <= i <= j <= |trades|
      ensures Drop(trades, i, j) <= d
    {
      PeakIsHighest(trades, j);
      if j == 0 {
        assert d >= 0.0;
      } else {
        assert Fall(trades, j) <= d;
      }
    }
  }

  /**
    The reported high and low differ by the drawdown exactly when the first trade broke even, or the
    peak before the first largest fall is positive.
   */
  lemma HighAndLowExactness(trades: seq<ClosedTrade>, start: real, relative: bool, r: Report, high: nat, low: nat)
    requires IsLow(trades, start, relative, low + 1) && ReadFrom(trades, start, r, high, low)
    ensures r.highValue - r.lowValue == r.drawdownAbs <==>
      trades[0].profit == 0.0 || forall n :: IsLow(trades, start, relative, n) ==> Peak(trades, n) > 0.0
    ensures (forall i, j :: 0 <= i <= j < |trades| ==> trades[i].closeDate <= trades[j].closeDate) ==>
      r.highDate <= r.lowDate
  {
    LowPeak(trades, start, relative, low + 1);
    HighFromPeak(trades, high, low + 1);
  }

  /** A balance below a peak that is still zero: the relative column is infinite there. */
  predicate FallsFromZero(trades: seq<ClosedTrade>, n: nat) {
    0 < n <= |trades| && Peak(trades, n) == 0.0 && Balance(trades, n) < 0.0
  }

  /**
    In relative mode without a starting balance the first fall from a zero peak counts as the largest, if
    there is one; otherwise the largest part of a positive peak does. Rows that still are at zero never do.
   */
  lemma LowWithoutStart(trades: seq<ClosedTrade>, low: nat)
    requires IsLow(trades, 0.0, true, low)
    ensures if exists n :: FallsFromZero(trades, n) then
        FallsFromZero(trades, low) && forall k :: 0 < k < low ==> !FallsFromZero(trades, k)
      else
        && Peak(trades, low) > 0.0
        && forall k :: 0 < k <= |trades| && Peak(trades, k) > 0.0 ==>
             (Peak(trades, k) - Balance(trades, k)) / Peak(trades, k)
               <= (Peak(trades, low) - Balance(trades, low)) / Peak(trades, low)
  {
    forall k | 0 < k <= |trades|
      ensures Peak(trades, k) >= 0.0
      ensures FallsFromZero(trades, k) <==> RelativeAt(trades, 0.0, k) == Infinite(true)
      ensures Peak(trades, k) == 0.0 && !FallsFromZero(trades, k) ==> RelativeAt(trades, 0.0, k) == NaN
    {
      PeakIsHighest(trades, k);
      PeakRises(trades, 0, k);
    }
    if n :| FallsFromZero(trades, n) {
      assert !Less(RelativeAt(trades, 0.0, low), RelativeAt(trades, 0.0, n));
    }
  }

  lemma LowPeak(trades: seq<ClosedTrade>, start: real, relative: bool, low: nat)
    requires IsLow(trades, start, relative, low)
    ensures (forall n :: IsLow(trades, start, relative, n) ==> Peak(trades, n) > 0.0) <==> Peak(trades, low) > 0.0
  {
    forall n | IsLow(trades, start, relative, n)
      ensures n == low
    {
      OneLow(trades, start, relative, n, low);
    }
  }

  lemma OneLow(trades: seq<ClosedTrade>, start: real, relative: bool, m: nat, n: nat)
    requires IsLow(trades, start, relative, m) && IsLow(trades, start, relative, n)
    ensures m == n
  {
    if m < n {
      NotLater(trades, start, relative, m, n);
    } else if n < m {
      NotLater(trades, start, relative, n, m);
    }
  }

  lemma NotLater(trades: seq<ClosedTrade>, start: real, relative: bool, m: nat, n: nat)
    requires IsLow(trades, start, relative, m) && m < n <= |trades|
    ensures !IsLow(trades, start, relative, n)
  {
    if relative {
      assert !Less(RelativeAt(trades, start, m), RelativeAt(trades, start, n));
    } else {
      assert Fall(trades, n) <= Fall(trades, m);
    }
  }

  /** The first row at the peak is at the peak's height, unless no balance was ever positive. */
  lemma HighFromPeak(trades: seq<ClosedTrade>, high: nat, n: nat)
    requires IsFirstPeak(trades, high, n)
    ensures Balance(trades, high + 1) == Peak(trades, n) <==> trades[0].profit == 0.0 || Peak(trades, n) > 0.0
  {
    PeakIsHighest(trades, n);
    PeakRises(trades, 0, 1);
    assert Balance(trades, 1) == trades[0].profit;
    if Peak(trades, n) > 0.0 {
      var k :| 0 <= k <= n && Balance(trades, k) == Peak(trades, n);
      assert k > 0;
      if high > 0 {
        assert Peak(trades, high) < Peak(trades, n);
      }
    } else {
      assert Balance(trades, 0) == 0.0;
      assert Peak(trades, n) == 0.0;
    }
  }

  /** Losses of 10 and then 5 are a drawdown of 15, but the high reported is -10 and the low -15. */
  lemma HighIsNotThePeak()
    ensures var trades := [ClosedTrade(0, -10.0), ClosedTrade(1, -5.0)];
      && IsLow(trades, 0.0, false, 2) && IsFirstPeak(trades, 0, 2) && Fall(trades, 2) == 15.0
      && Balance(trades, 1) == -10.0 && Balance(trades, 2) == -15.0
  {
    var trades := [ClosedTrade(0, -10.0), ClosedTrade(1, -5.0)];
    assert Balance(trades, 0) == 0.0 && Balance(trades, 1) == -10.0 && Balance(trades, 2) == -15.0;
    assert Peak(trades, 0) == 0.0 && Peak(trades, 1) == 0.0 && Peak(trades, 2) == 0.0;
    assert Fall(trades, 1) == 10.0 && Fall(trades, 2) == 15.0;
  }

  lemma RelativeAtIsFall(trades: seq<ClosedTrade>, start: real, n: nat)
    requires n <= |trades| && start > 0.0
    ensures start + Peak(trades, n) > 0.0
    ensures RelativeAt(trades, start, n)
      == Finite((start + Peak(trades, n) - (start + Balance(trades, n))) / (start + Peak(trades, n)))
  {
    PeakRises(trades, 0, n);
  }

  /** Falling to the same non-negative value is relatively worse from higher up. */
  lemma FallFromHigher(a: real, m: real, b: real)
    requires 0.0 < a <= m && b >= 0.0
    ensures (a - b) / a <= (m - b) / m
  {
    var q, w := (m - b) / m, b / m;
    Quotient(b, m);
    QuotientAtMost(b, m, 0.0);
    MulMonotone(a, m, w);
    Distribute(1.0, -w, m);
    Quotient(m - b, m);
    Cancel(q, 1.0 - w, m);
    Distribute(1.0, -w, a);
    QuotientAtMost(a - b, a, q);
  }

  /** The least positive account value so far, the start included. */
  function LeastPositive(trades: seq<ClosedTrade>, start: real, n: nat): real
    requires n <= |trades|
  {
    if n == 0 then start
    else
      var value, least := start + Balance(trades, n), LeastPositive(trades, start, n - 1);
      if 0.0 < value < least then value else least
  }

  lemma {:induction false} LeastPositiveIsLeast(trades: seq<ClosedTrade>, start: real, n: nat) returns (at: nat)
    requires n <= |trades| && start > 0.0
    ensures at <= n && start + Balance(trades, at) == LeastPositive(trades, start, n) > 0.0
    ensures forall i :: 0 <= i <= n && start + Balance(trades, i) > 0.0 ==>
      LeastPositive(trades, start, n) <= start + Balance(trades, i)
  {
    if n == 0 {
      at := 0;
    } else {
      at := LeastPositiveIsLeast(trades, start, n - 1);
      if 0.0 < start + Balance(trades, n) < LeastPositive(trades, start, n - 1) {
        at := n;
      }
    }
  }

  predicate IsDip(trades: seq<ClosedTrade>, start: real, n: nat) {
    0 < n <= |trades| && start + Balance(trades, n) < 0.0
  }

  /**
    As a part of the peak before it, dip `k` is at least as deep as dip `j` is as a part of the least
    positive value before it.
   */
  predicate AsDeep(trades: seq<ClosedTrade>, start: real, k: nat, j: nat)
    requires k <= |trades| && j <= |trades|
  {
    Times(start + Balance(trades, j), start + Peak(trades, k))
      >= Times(start + Balance(trades, k), LeastPositive(trades, start, j))
  }

  /** Every value below zero is matched by one that is as deep even when measured from its peak. */
  ghost predicate DipsFallFromPeaks(trades: seq<ClosedTrade>, start: real) {
    forall j :: IsDip(trades, start, j) ==> exists k :: IsDip(trades, start, k) && AsDeep(trades, start, k, j)
  }

  /**
    In relative mode, for a positive start, the reported part is the largest relative fall over all
    pairs of account values exactly when every value below zero, measured from the least positive
    value before it, is matched by one measured from its peak; so always if none is below zero.
   */
  lemma RelativeModeExactly(trades: seq<ClosedTrade>, start: real, x: real, low: nat)
    requires start > 0.0 && low < |trades|
    requires RelativeAt(trades, start, low + 1) == Finite(x)
    requires forall k :: 0 < k <= |trades| ==> !Less(Finite(x), RelativeAt(trades, start, k))
    ensures IsLargestRelativeDrop(trades, start, x) <==> DipsFallFromPeaks(trades, start)
  {
    if DipsFallFromPeaks(trades, start) {
      ReportIsAFall(trades, start, x, low);
      forall i, j | 0 <= i <= j <= |trades| && start + Balance(trades, i) > 0.0
        ensures RelativeDrop(trades, start, i, j) <= x
      {
        if IsDip(trades, start, j) {
          var k :| IsDip(trades, start, k) && AsDeep(trades, start, k, j);
          DipIsBounded(trades, start, x, i, j, k);
        } else {
          EachFallIsBounded(trades, start, x, low, i, j);
        }
      }
    }
    if IsLargestRelativeDrop(trades, start, x) {
      forall j | IsDip(trades, start, j)
        ensures IsDip(trades, start, low + 1) && AsDeep(trades, start, low + 1, j)
      {
        ReportedDip(trades, start, x, low, j);
      }
    }
  }

  lemma ReportIsAFall(trades: seq<ClosedTrade>, start: real, x: real, low: nat)
    requires start > 0.0 && low < |trades| && RelativeAt(trades, start, low + 1) == Finite(x)
    ensures exists i, j :: 0 <= i <= j <= |trades| && start + Balance(trades, i) > 0.0
                           && RelativeDrop(trades, start, i, j) == x
  {
    PeakIsHighest(trades, low + 1);
    RelativeAtIsFall(trades, start, low + 1);
    var top :| 0 <= top <= low + 1 && Balance(trades, top) == Peak(trades, low + 1);
    assert RelativeDrop(trades, start, top, low + 1) == x;
  }

  /** A dip's fall from a positive value is at most the fall from its peak of a dip as deep. */
  lemma DipIsBounded(trades: seq<ClosedTrade>, start: real, x: real, i: nat, j: nat, k: nat)
    requires start > 0.0 && i <= j && IsDip(trades, start, j) && IsDip(trades, start, k) && AsDeep(trades, start, k, j)
    requires start + Balance(trades, i) > 0.0
    requires !Less(Finite(x), RelativeAt(trades, start, k))
    ensures RelativeDrop(trades, start, i, j) <= x
  {
    var at := LeastPositiveIsLeast(trades, start, j);
    PeakRises(trades, 0, k);
    FallOfAccounts(trades, start, i, j);
    DeeperFall(start + Balance(trades, i), LeastPositive(trades, start, j), start + Balance(trades, j),
               start + Peak(trades, k), start + Balance(trades, k));
    RelativeAtIsFall(trades, start, k);
  }

  lemma FallOfAccounts(trades: seq<ClosedTrade>, start: real, i: nat, j: nat)
    requires i <= |trades| && j <= |trades| && start + Balance(trades, i) != 0.0
    ensures RelativeDrop(trades, start, i, j)
      == (start + Balance(trades, i) - (start + Balance(trades, j))) / (start + Balance(trades, i))
  {
    assert Drop(trades, i, j) == start + Balance(trades, i) - (start + Balance(trades, j));
  }

  lemma DeeperFall(a: real, least: real, b: real, peak: real, d: real)
    requires 0.0 < least <= a && peak > 0.0 && b < 0.0 && d < 0.0 && Times(b, peak) >= Times(d, least)
    ensures (a - b) / a <= (peak - d) / peak
  {
    PartOfSelf(a, b);
    PartOfSelf(peak, d);
    var q := d / peak;
    Quotient(d, peak);
    assert (q * least) * peak == Times(d, least);
    CancelFactor(b, q * least, peak);
    QuotientAtMost(d, peak, 0.0);
    MulMonotone(least, a, -q);
    QuotientAtMost(b, a, q);
  }

  lemma CancelFactor(b: real, c: real, peak: real)
    requires peak > 0.0 && b * peak >= c * peak
    ensures b >= c
  {
    if b < c {
      MulStrict(b, c, peak);
    }
  }

  lemma PartOfSelf(a: real, b: real)
    requires a > 0.0
    ensures (a - b) / a == 1.0 - b / a
  {
    Quotient(b, a);
    Quotient(a - b, a);
    Distribute(1.0, -(b / a), a);
    Cancel((a - b) / a, 1.0 - b / a, a);
  }

  /** If the report is the largest fall and some value is below zero, the reported row is below zero and matches it. */
  lemma ReportedDip(trades: seq<ClosedTrade>, start: real, x: real, low: nat, j: nat)
    requires start > 0.0 && low < |trades| && RelativeAt(trades, start, low + 1) == Finite(x)
    requires IsDip(trades, start, j) && IsLargestRelativeDrop(trades, start, x)
    ensures IsDip(trades, start, low + 1) && AsDeep(trades, start, low + 1, j)
  {
    var at := LeastPositiveIsLeast(trades, start, j);
    RelativeAtIsFall(trades, start, low + 1);
    assert RelativeDrop(trades, start, at, j) <= x;
    FallOfAccounts(trades, start, at, j);
    ShallowerFall(LeastPositive(trades, start, j), start + Balance(trades, j),
                  start + Peak(trades, low + 1), start + Balance(trades, low + 1));
  }

  lemma ShallowerFall(least: real, b: real, peak: real, d: real)
    requires least > 0.0 && peak > 0.0 && b < 0.0 && (least - b) / least <= (peak - d) / peak
    ensures d < 0.0 && Times(b, peak) >= Times(d, least)
  {
    PartOfSelf(least, b);
    PartOfSelf(peak, d);
    var p, q := b / least, d / peak;
    Quotient(b, least);
    Quotient(d, peak);
    if p >= 0.0 {
      MulSign(p, least);
    }
    if d >= 0.0 {
      QuotientAtMost(d, peak, 0.0);
    }
    Rescale(p, q, least, peak);
  }

  lemma Rescale(p: real, q: real, least: real, peak: real)
    requires p >= q && least > 0.0 && peak > 0.0
    ensures (p * least) * peak >= (q * peak) * least
  {
    MulSign(least, peak);
    MulMonotone(q, p, least * peak);
    Associate(p, least, peak);
    Associate(q, peak, least);
  }

  /**
    If the account goes below zero with the last trade only, the reported part is the largest fall
    exactly when every account value before is the start or zero.
   */
  lemma FirstDipExactly(trades: seq<ClosedTrade>, start: real)
    requires start > 0.0 && IsDip(trades, start, |trades|)
    requires forall n :: 0 <= n < |trades| ==> start + Balance(trades, n) >= 0.0
    ensures DipsFallFromPeaks(trades, start) <==>
      forall n :: 0 <= n < |trades| ==> start + Balance(trades, n) == 0.0 || Balance(trades, n) == 0.0
  {
    var n := |trades|;
    assert DipsFallFromPeaks(trades, start) <==> AsDeep(trades, start, n, n) by {
      assert forall j :: IsDip(trades, start, j) ==> j == n;
    }
    LargerFactor(start + Balance(trades, n), LeastPositive(trades, start, n), start + Peak(trades, n));
    AllAlike(trades, start);
  }

  lemma AllAlike(trades: seq<ClosedTrade>, start: real)
    requires start > 0.0 && IsDip(trades, start, |trades|)
    requires forall n :: 0 <= n < |trades| ==> start + Balance(trades, n) >= 0.0
    ensures start + Peak(trades, |trades|) <= LeastPositive(trades, start, |trades|) <==>
      forall n :: 0 <= n < |trades| ==> start + Balance(trades, n) == 0.0 || Balance(trades, n) == 0.0
  {
    var at := LeastPositiveIsLeast(trades, start, |trades|);
    PeakIsHighest(trades, |trades|);
    var top :| 0 <= top <= |trades| && Balance(trades, top) == Peak(trades, |trades|);
    assert Balance(trades, 0) == 0.0;
  }

  lemma LargerFactor(value: real, least: real, peak: real)
    requires value < 0.0
    ensures Times(value, peak) >= Times(value, least) <==> peak <= least
  {
    if peak < least {
      MulStrict(peak, least, -value);
    } else if least < peak {
      MulStrict(least, peak, -value);
    }
  }

  lemma EachFallIsBounded(trades: seq<ClosedTrade>, start: real, x: real, low: nat, i: nat, j: nat)
    requires start > 0.0 && low < |trades| && i <= j <= |trades|
    requires start + Balance(trades, i) > 0.0 && start + Balance(trades, j) >= 0.0
    requires RelativeAt(trades, start, low + 1) == Finite(x)
    requires j > 0 ==> !Less(Finite(x), RelativeAt(trades, start, j))
    ensures RelativeDrop(trades, start, i, j) <= x
  {
    if j == 0 {
      ReportIsNonNegative(trades, start, low + 1);
    } else {
      PeakIsHighest(trades, j);
      RelativeAtIsFall(trades, start, j);
      FallFromPeak(trades, start, i, j);
    }
  }

  lemma ReportIsNonNegative(trades: seq<ClosedTrade>, start: real, n: nat)
    requires start > 0.0 && n <= |trades|
    ensures RelativeAt(trades, start, n).Finite? && RelativeAt(trades, start, n).value >= 0.0
  {
    PeakIsHighest(trades, n);
    RelativeAtIsFall(trades, start, n);
    QuotientAtMost(start + Peak(trades, n) - (start + Balance(trades, n)), start + Peak(trades, n), 0.0);
  }

  lemma FallFromPeak(trades: seq<ClosedTrade>, start: real, i: nat, j: nat)
    requires i <= j <= |trades| && 0.0 < start + Balance(trades, i) <= start + Peak(trades, j)
    requires start + Balance(trades, j) >= 0.0
    ensures RelativeDrop(trades, start, i, j)
      <= (start + Peak(trades, j) - (start + Balance(trades, j))) / (start + Peak(trades, j))
  {
    FallFromHigher(start + Balance(trades, i), start + Peak(trades, j), start + Balance(trades, j));
    assert Drop(trades, i, j) == start + Balance(trades, i) - (start + Balance(trades, j));
  }

  /** Below zero this fails: from 100 to 50 to -1 the reported part is 1.01, but 50 to -1 is a fall by 1.02. */
  lemma NegativeAccountsFallFurther()
    ensures var trades := [ClosedTrade(0, -50.0), ClosedTrade(1, -51.0)];
      && RelativeAt(trades, 100.0, 2) == Finite(1.01)
      && !Less(RelativeAt(trades, 100.0, 2), RelativeAt(trades, 100.0, 1))
      && RelativeDrop(trades, 100.0, 1, 2) == 1.02
      && !IsLargestRelativeDrop(trades, 100.0, 1.01)
  {
    var trades := [ClosedTrade(0, -50.0), ClosedTrade(1, -51.0)];
    assert Balance(trades, 0) == 0.0;
    assert Balance(trades, 1) == -50.0 && Balance(trades, 2) == -101.0;
    assert Peak(trades, 0) == 0.0 && Peak(trades, 1) == 0.0 && Peak(trades, 2) == 0.0;
    assert Drop(trades, 1, 2) == 51.0;
    assert 51.0 / 50.0 == 1.02 && 101.0 / 100.0 == 1.01;
    assert RelativeDrop(trades, 100.0, 1, 2) == 1.02;
  }
}
