/**
  The stop-loss order kept on the exchange while a stop is trailing: `stoploss_adjust`, the dry-run part
  of `create_stoploss`, and `handle_trailing_stoploss_on_exchange`.
 */
module TrailingStop {
  import opened Reals
  import opened Results
  import opened PriceRounding

  /** `limitRatio` is set if stops are placed as limit orders; `beat` is the least time between updates. */
  datatype Config = Config(precision: Precision, limitRatio: Option<real>, beat: int)

  datatype StopOrder = StopOrder(stopPrice: Option<real>, limitPrice: Option<real>)

  /** A trade with its active stop order, the time of the last one placed, and all stops placed so far. */
  datatype State = State(
    isShort: bool, isOpen: bool, order: Option<StopOrder>, lastUpdate: Option<int>, placed: seq<real>)

  predicate ValidConfig(c: Config) {
    ValidPrecision(c.precision)
  }

  function Towards(isShort: bool): Direction {
    if isShort then Down else Up
  }

  /** Is `a` a tighter stop than `b`? Longs are stopped from below, shorts from above. */
  predicate Tighter(isShort: bool, a: real, b: real) {
    if isShort then a < b else a > b
  }

  predicate NeedsAdjustment(isShort: bool, stop: real, order: StopOrder) {
    order.stopPrice.None? || Tighter(isShort, stop, order.stopPrice.value)
  }

  function LimitRate(isShort: bool, stop: real, ratio: real): Option<real> {
    var rate := if isShort then stop * (2.0 - ratio) else stop * ratio;
    if (if isShort then stop > rate else stop < rate) then None else Some(rate)
  }

  /** The order placed for `stop`, or nothing if its limit would be on the wrong side of it. */
  function PlaceStop(c: Config, isShort: bool, stop: real): Option<StopOrder>
    requires ValidConfig(c)
  {
    var stopNorm := Round(stop, c.precision, Towards(isShort));
    match c.limitRatio
    case None => Some(StopOrder(Some(stopNorm), None))
    case Some(ratio) =>
      match LimitRate(isShort, stop, ratio)
      case None => None
      case Some(rate) => Some(StopOrder(Some(stopNorm), Some(Round(rate, c.precision, Towards(isShort)))))
  }

  /** One call of the trailing handler; cancelling may find that the trade has been stopped out. */
  datatype Call = Call(tradeStop: real, now: int, stoppedOut: bool)

  predicate Replaces(c: Config, s: State, call: Call)
    requires ValidConfig(c) && s.order.Some?
  {
    && NeedsAdjustment(s.isShort, Round(call.tradeStop, c.precision, Towards(s.isShort)), s.order.value)
    && s.lastUpdate.Some? && call.now - c.beat >= s.lastUpdate.value
  }

  function Handle(c: Config, s: State, call: Call): State
    requires ValidConfig(c) && s.order.Some?
  {
    if !Replaces(c, s, call) then s
    else
      var cancelled := s.(order := None, isOpen := !call.stoppedOut);
      if call.stoppedOut then cancelled
      else
        match PlaceStop(c, s.isShort, Round(call.tradeStop, c.precision, Towards(s.isShort)))
        case None => cancelled
        case Some(o) =>
          cancelled.(order := Some(o), lastUpdate := Some(call.now), placed := s.placed + [o.stopPrice.GetOr(0.0)])
  }

  class StopKeeper {
    const config: Config
    const isShort: bool
    var isOpen: bool
    var order: Option<StopOrder>
    var lastUpdate: Option<int>
    var placed: seq<real>

    function View(): State
      reads this
    {
      State(isShort, isOpen, order, lastUpdate, placed)
    }

    constructor (config: Config, isShort: bool)
      ensures this.config == config && View() == State(isShort, true, None, None, [])
    {
      this.config, this.isShort := config, isShort;
      isOpen, order, lastUpdate, placed := true, None, None, [];
    }

    method CreateStoploss(stop: real, now: int) returns (ok: bool)
      requires ValidConfig(config)
      modifies this
      ensures ok <==> PlaceStop(config, isShort, stop).Some?
      ensures ok ==> View() == old(View()).(order := PlaceStop(config, isShort, stop), lastUpdate := Some(now),
        placed := old(placed) + [PlaceStop(config, isShort, stop).value.stopPrice.GetOr(0.0)])
      ensures !ok ==> View() == old(View())
    {
      var direction := if isShort then Down else Up;
      var stopNorm := Round(stop, config.precision, direction);
      var limit: Option<real> := None;
      if config.limitRatio.Some? {
        limit := LimitRate(isShort, stop, config.limitRatio.value);
        if limit.None? {
          return false;
        }
        limit := Some(Round(limit.value, config.precision, direction));
      }
      order, lastUpdate, placed := Some(StopOrder(Some(stopNorm), limit)), Some(now), placed + [stopNorm];
      ok := true;
    }

    method HandleTrailingStoploss(call: Call)
      requires ValidConfig(config) && order.Some?
      modifies this
      ensures View() == Handle(config, old(View()), call)
    {
      var norm := Round(call.tradeStop, config.precision, if isShort then Down else Up);
      if NeedsAdjustment(isShort, norm, order.value) {
        if lastUpdate.Some? && call.now - config.beat >= lastUpdate.value {
          order, isOpen := None, !call.stoppedOut;
          if !isOpen {
            return;
          }
          var ok := CreateStoploss(norm, call.now);
        }
      }
    }
  }

  // ---------- The ratchet ----------

  predicate Ratcheted(isShort: bool, stops: seq<real>) {
    forall i, j :: 0 <= i < j < |stops| ==> Tighter(isShort, stops[j], stops[i])
  }

  /** The active order is the stop placed last, on the price grid, and every stop was tighter than those before. */
  ghost predicate Kept(c: Config, s: State)
    requires ValidConfig(c)
  {
    && Ratcheted(s.isShort, s.placed)
    && (s.order.Some? ==>
          && s.placed != [] && s.order.value.stopPrice == Some(s.placed[|s.placed| - 1])
          && OnGrid(s.placed[|s.placed| - 1], c.precision))
  }

  /** Rounding again on placement changes nothing. */
  lemma PlacedStop(c: Config, isShort: bool, stop: real)
    requires ValidConfig(c)
    ensures var norm := Round(stop, c.precision, Towards(isShort));
      && OnGrid(norm, c.precision)
      && (PlaceStop(c, isShort, norm).Some? ==> PlaceStop(c, isShort, norm).value.stopPrice == Some(norm))
  {
    RoundIsNearest(stop, c.precision, Towards(isShort));
    RoundKeepsGrid(stop, c.precision, Towards(isShort));
  }

  /**
    Because the active stop is on the grid, rounding never triggers a replacement by itself: once the
    interval has passed the order is replaced exactly when the trade's own stop is tighter.
   */
  lemma ReplacesExactlyWhenTighter(c: Config, s: State, call: Call)
    requires ValidConfig(c) && Kept(c, s) && s.order.Some?
    requires s.lastUpdate.Some? && call.now - c.beat >= s.lastUpdate.value
    ensures Replaces(c, s, call) <==> Tighter(s.isShort, call.tradeStop, s.placed[|s.placed| - 1])
  {
    RoundIsNearest(call.tradeStop, c.precision, Towards(s.isShort));
  }

  /** A replacement is tighter than the stop before and at least as tight as the trade's stop. */
  lemma HandleKeepsRatchet(c: Config, s: State, call: Call)
    requires ValidConfig(c) && Kept(c, s) && s.order.Some?
    ensures var next := Handle(c, s, call);
      && Kept(c, next)
      && (next.placed != s.placed ==>
            && Replaces(c, s, call) && |next.placed| == |s.placed| + 1 && next.placed[..|s.placed|] == s.placed
            && !Tighter(s.isShort, call.tradeStop, next.placed[|s.placed|]))
  {
    PlacedStop(c, s.isShort, call.tradeStop);
    RoundIsNearest(call.tradeStop, c.precision, Towards(s.isShort));
    var last := s.placed[|s.placed| - 1];
    assert forall i :: 0 <= i < |s.placed| - 1 ==> Tighter(s.isShort, last, s.placed[i]);
  }

  /** Calling again with the same stop does nothing, however much time has passed. */
  lemma UnchangedStopIsQuiet(c: Config, s: State, call: Call, now: int)
    requires ValidConfig(c) && Kept(c, s) && s.order.Some? && Handle(c, s, call).order.Some?
    requires Replaces(c, s, call)
    ensures var next := Handle(c, s, call);
      Handle(c, next, call.(now := now)) == next
  {
    PlacedStop(c, s.isShort, call.tradeStop);
  }

  /** Until the interval has passed nothing happens, however tight the trade's stop has become. */
  lemma EarlyCallIsQuiet(c: Config, s: State, call: Call)
    requires ValidConfig(c) && s.order.Some?
    requires s.lastUpdate.None? || call.now < s.lastUpdate.value + c.beat
    ensures Handle(c, s, call) == s
  {
  }

  /** A call has its turn once the interval has passed, if the trade's stop is tighter than the active one. */
  predicate IsDue(c: Config, s: State, call: Call)
    requires s.order.Some? && s.placed != []
  {
    && s.lastUpdate.Some? && call.now >= s.lastUpdate.value + c.beat
    && Tighter(s.isShort, call.tradeStop, s.placed[|s.placed| - 1])
  }

  /**
    What a call does: nothing if it is not due; else the active order is gone, and either the trade was
    stopped out, or the rounded stop is placed and the time is noted, or its limit was on the wrong side.
   */
  lemma HandleExactly(c: Config, s: State, call: Call)
    requires ValidConfig(c) && Kept(c, s) && s.order.Some?
    ensures var next := Handle(c, s, call);
      var stop := Round(call.tradeStop, c.precision, if s.isShort then Down else Up);
      if !IsDue(c, s, call) then next == s
      else if call.stoppedOut then next == s.(order := None, isOpen := false)
      else if PlaceStop(c, s.isShort, stop).None? then next == s.(order := None, isOpen := true)
      else
        && next == State(s.isShort, true, PlaceStop(c, s.isShort, stop), Some(call.now), s.placed + [stop])
        && next.order.value.stopPrice == Some(stop)
  {
    PlacedStop(c, s.isShort, call.tradeStop);
    RoundIsNearest(call.tradeStop, c.precision, Towards(s.isShort));
  }

  /** The limit lies behind the stop by the ratio, rounded in the same direction. */
  lemma LimitFollowsRatio(c: Config, isShort: bool, stop: real)
    requires ValidConfig(c) && PlaceStop(c, isShort, stop).Some?
    ensures var o := PlaceStop(c, isShort, stop).value;
      var direction := if isShort then Down else Up;
      && o.stopPrice == Some(Round(stop, c.precision, direction))
      && match c.limitRatio
         case None => o.limitPrice.None?
         case Some(ratio) =>
           var offset := (1.0 - ratio) * stop;
           o.limitPrice == Some(Round(if isShort then stop + offset else stop - offset, c.precision, direction))
  {
    if c.limitRatio.Some? {
      LimitOffset(stop, c.limitRatio.value);
    }
  }

  lemma LimitOffset(stop: real, ratio: real)
    ensures stop + (1.0 - ratio) * stop == stop * (2.0 - ratio)
    ensures stop - (1.0 - ratio) * stop == stop * ratio
  {
  }

  /** The state after the first stop of a trade is placed, as `CreateStoploss` leaves it. */
  function FirstStop(c: Config, isShort: bool, stop: real, now: int): State
    requires ValidConfig(c)
  {
    match PlaceStop(c, isShort, stop)
    case None => State(isShort, true, None, None, [])
    case Some(o) => State(isShort, true, Some(o), Some(now), [o.stopPrice.GetOr(0.0)])
  }

  /** Every trade starts with its stop on the price grid, at least as tight as asked for. */
  lemma FirstStopIsKept(c: Config, isShort: bool, stop: real, now: int)
    requires ValidConfig(c)
    ensures var s := FirstStop(c, isShort, stop, now);
      && Kept(c, s) && s.isShort == isShort && s.isOpen
      && (s.order.Some? ==> s.lastUpdate == Some(now) && |s.placed| == 1 && !Tighter(isShort, stop, s.placed[0]))
  {
    RoundIsNearest(stop, c.precision, Towards(isShort));
  }

  function Run(c: Config, s: State, calls: seq<Call>): State
    requires ValidConfig(c)
    decreases calls
  {
    if calls == [] || s.order.None? then s else Run(c, Handle(c, s, calls[0]), calls[1..])
  }

  /** The times at which a run places stops. */
  function Placements(c: Config, s: State, calls: seq<Call>): seq<int>
    requires ValidConfig(c)
    decreases calls
  {
    if calls == [] || s.order.None? then []
    else
      var next := Handle(c, s, calls[0]);
      (if |next.placed| > |s.placed| then [calls[0].now] else []) + Placements(c, next, calls[1..])
  }

  predicate Spaced(times: seq<int>, beat: int) {
    forall i :: 0 < i < |times| ==> times[i] >= times[i - 1] + beat
  }

  /**
    Over any run, each placement comes at least one interval after the one before, the last of those
    before the run included, and there is one for every stop placed.
   */
  lemma {:induction false} PlacementsAreSpaced(c: Config, s: State, calls: seq<Call>)
    requires ValidConfig(c) && Kept(c, s)
    ensures Spaced(Placements(c, s, calls), c.beat)
    ensures Placements(c, s, calls) != [] ==>
      s.lastUpdate.Some? && Placements(c, s, calls)[0] >= s.lastUpdate.value + c.beat
    ensures |Run(c, s, calls).placed| == |s.placed| + |Placements(c, s, calls)|
    decreases calls
  {
    if calls != [] && s.order.Some? {
      var next := Handle(c, s, calls[0]);
      HandleKeepsRatchet(c, s, calls[0]);
      HandleExactly(c, s, calls[0]);
      PlacementsAreSpaced(c, next, calls[1..]);
    }
  }

  /** From the first stop of a trade on, the stops strictly rise if it is long and strictly fall if it is short. */
  lemma StopsOnlyTightenFromTheFirst(c: Config, isShort: bool, stop: real, now: int, calls: seq<Call>)
    requires ValidConfig(c)
    ensures var end := Run(c, FirstStop(c, isShort, stop, now), calls);
      end.isShort == isShort && Ratcheted(isShort, end.placed) && FirstStop(c, isShort, stop, now).placed <= end.placed
  {
    FirstStopIsKept(c, isShort, stop, now);
    StopsOnlyTighten(c, FirstStop(c, isShort, stop, now), calls);
  }

  /** Over any run the stops placed strictly rise for a long trade and strictly fall for a short one. */
  lemma {:induction false} StopsOnlyTighten(c: Config, s: State, calls: seq<Call>)
    requires ValidConfig(c) && Kept(c, s)
    ensures var end := Run(c, s, calls);
      Kept(c, end) && s.placed <= end.placed && end.isShort == s.isShort
    decreases calls
  {
    if calls != [] && s.order.Some? {
      HandleKeepsRatchet(c, s, calls[0]);
      StopsOnlyTighten(c, Handle(c, s, calls[0]), calls[1..]);
    }
  }

  /**
    A limit stop at a non-negative price with a ratio of at most one is always placed, and even after
    rounding its limit is not on the wrong side of its stop.
   */
  lemma LimitStaysBehindStop(c: Config, isShort: bool, stop: real)
    requires ValidConfig(c) && stop >= 0.0 && c.limitRatio.Some? && c.limitRatio.value <= 1.0
    ensures PlaceStop(c, isShort, stop).Some?
    ensures var o := PlaceStop(c, isShort, stop).value;
      o.limitPrice.Some? && o.stopPrice.Some? && !Tighter(isShort, o.limitPrice.value, o.stopPrice.value)
  {
    var ratio := c.limitRatio.value;
    MulMonotone(ratio, 1.0, stop);
    MulMonotone(1.0, 2.0 - ratio, stop);
    var rate := LimitRate(isShort, stop, ratio).value;
    if isShort {
      RoundIsMonotone(stop, rate, c.precision, Down);
    } else {
      RoundIsMonotone(rate, stop, c.precision, Up);
    }
  }

  /** The configuration bounds the ratio by one, and exactly these ratios place a stop at a positive price. */
  lemma RatioBoundIsExact(c: Config, isShort: bool, stop: real)
    requires ValidConfig(c) && stop > 0.0 && c.limitRatio.Some?
    ensures PlaceStop(c, isShort, stop).Some? <==> c.limitRatio.value <= 1.0
  {
    var ratio := c.limitRatio.value;
    if ratio > 1.0 {
      MulStrict(1.0, ratio, stop);
      MulStrict(2.0 - ratio, 1.0, stop);
    } else {
      LimitStaysBehindStop(c, isShort, stop);
    }
  }
}
