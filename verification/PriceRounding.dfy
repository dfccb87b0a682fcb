/**
  Directed price rounding (`price_to_precision` in `exchange_utils.py`) in the tick-size and
  decimal-places modes, over exact numbers.
 */
module PriceRounding {
  import opened Reals

  datatype Precision = NoPrecision | TickSize(tick: real) | DecimalPlaces(digits: int)
  datatype Direction = Up | Down

  function TenTo(n: int): (p: real)
    ensures p > 0.0
    decreases if n < 0 then -n else n
  {
    if n == 0 then 1.0 else if n > 0 then 10.0 * TenTo(n - 1) else TenTo(n + 1) / 10.0
  }

  /** The power of ten for any number of digits, negative ones included. */
  lemma TenToExactly(n: int)
    ensures TenTo(0) == 1.0 && TenTo(n + 1) == 10.0 * TenTo(n)
  {
    if n < 0 {
      var next := TenTo(n + 1);
      assert TenTo(n) == next / 10.0;
    }
  }

  predicate ValidPrecision(p: Precision) {
    p.TickSize? ==> p.tick > 0.0
  }

  function Ceil(x: real): int {
    -((-x).Floor)
  }

  /** The remainder of exact division, never negative. */
  function Remainder(price: real, tick: real): real
    requires tick > 0.0
  {
    price - Multiple((price / tick).Floor, tick)
  }

  function Round(price: real, p: Precision, d: Direction): real
    requires ValidPrecision(p)
  {
    match p
    case NoPrecision => price
    case TickSize(tick) =>
      var missing := Remainder(price, tick);
      if missing == 0.0 then price
      else if d == Up then price - missing + tick
      else price - missing
    case DecimalPlaces(digits) => RoundToPower(price, TenTo(digits), d)
  }

  function RoundToPower(price: real, power: real, d: Direction): real
    requires power > 0.0
  {
    PerPower(if d == Up then Ceil(Scale(price, power)) else Scale(price, power).Floor, power)
  }

  function Scale(price: real, power: real): real {
    price * power
  }

  function PerPower(k: int, power: real): real
    requires power > 0.0
  {
    k as real / power
  }

  /** The distance of two neighbouring prices. */
  function Tick(p: Precision): real
    requires ValidPrecision(p) && !p.NoPrecision?
  {
    if p.TickSize? then p.tick else 1.0 / TenTo(p.digits)
  }

  function Units(price: real, tick: real, d: Direction): int
    requires tick > 0.0
  {
    if d == Up then Ceil(price / tick) else (price / tick).Floor
  }

  function Multiple(k: int, tick: real): real {
    k as real * tick
  }

  /** Every price lies between neighbouring multiples of the tick. */
  lemma UnitsBracket(price: real, tick: real, d: Direction)
    requires tick > 0.0
    ensures var k := Units(price, tick, d);
      if d == Up then Multiple(k - 1, tick) < price <= Multiple(k, tick)
      else Multiple(k, tick) <= price < Multiple(k + 1, tick)
  {
    var k := Units(price, tick, d);
    QuotientAtMost(price, tick, k as real);
    QuotientAtMost(price, tick, (k - 1) as real);
    QuotientAtMost(price, tick, (k + 1) as real);
  }

  lemma MultiplesInOrder(i: int, j: int, tick: real)
    requires tick > 0.0
    ensures i < j <==> Multiple(i, tick) < Multiple(j, tick)
  {
    var gap := j - i;
    assert gap as real == j as real - i as real;
    assert gap as real * tick == Multiple(j, tick) - Multiple(i, tick);
    MulSign(gap as real, tick);
    MulSign((-gap) as real, tick);
  }

  lemma NextMultiple(k: int, tick: real)
    ensures Multiple(k + 1, tick) == Multiple(k, tick) + tick
  {
    assert (k + 1) as real == k as real + 1.0;
    Distribute(k as real, 1.0, tick);
  }

  /** Both modes round to a whole number of ticks in the direction asked for. */
  lemma RoundIsUnits(price: real, p: Precision, d: Direction)
    requires ValidPrecision(p) && !p.NoPrecision?
    ensures Tick(p) > 0.0
    ensures Round(price, p, d) == Multiple(Units(price, Tick(p), d), Tick(p))
  {
    if p.TickSize? {
      TickSizeIsUnits(price, p.tick, d);
    } else {
      DecimalsAreUnits(price, TenTo(p.digits), d);
    }
  }

  lemma TickSizeIsUnits(price: real, tick: real, d: Direction)
    requires tick > 0.0
    ensures Round(price, TickSize(tick), d) == Multiple(Units(price, tick, d), tick)
  {
    var k := (price / tick).Floor;
    NextMultiple(k, tick);
    UnitsOfRemainder(price, tick);
  }

  lemma UnitsOfRemainder(price: real, tick: real)
    requires tick > 0.0
    ensures Ceil(price / tick) ==
      if Remainder(price, tick) == 0.0 then (price / tick).Floor else (price / tick).Floor + 1
  {
    var q := price / tick;
    QuotientAtMost(price, tick, q.Floor as real);
    assert Remainder(price, tick) == 0.0 <==> q == q.Floor as real;
  }

  lemma DecimalsAreUnits(price: real, power: real, d: Direction)
    requires power > 0.0
    ensures 1.0 / power > 0.0
    ensures RoundToPower(price, power, d) == Multiple(Units(price, 1.0 / power, d), 1.0 / power)
  {
    Reciprocal(price, power);
    SameUnits(Scale(price, power), price / (1.0 / power));
    UnitsOverPower(Units(price, 1.0 / power, d), power);
  }

  lemma SameUnits(x: real, y: real)
    requires x == y
    ensures Ceil(x) == Ceil(y) && x.Floor == y.Floor
  {
  }

  lemma UnitsOverPower(k: int, power: real)
    requires power > 0.0
    ensures PerPower(k, power) == Multiple(k, 1.0 / power)
  {
    Reciprocal(k as real, power);
  }

  ghost predicate OnGrid(price: real, p: Precision)
    requires ValidPrecision(p)
  {
    p.NoPrecision? || exists k :: price == Multiple(k, Tick(p))
  }

  /** `r` is the nearest price of the grid in direction `d`: the least above or the greatest below. */
  ghost predicate Nearest(r: real, price: real, p: Precision, d: Direction)
    requires ValidPrecision(p)
  {
    && OnGrid(r, p)
    && (if d == Up then price <= r else r <= price)
    && (!p.NoPrecision? ==> if d == Up then r - Tick(p) < price else price < r + Tick(p))
    && (forall other :: OnGrid(other, p) ==>
          if d == Up then (price <= other ==> r <= other) else (other <= price ==> other <= r))
  }

  /** Directed rounding gives the nearest grid price, less than one tick away. */
  lemma RoundIsNearest(price: real, p: Precision, d: Direction)
    requires ValidPrecision(p)
    ensures Nearest(Round(price, p, d), price, p, d)
  {
    if !p.NoPrecision? {
      RoundIsUnits(price, p, d);
      UnitsAreNearest(Round(price, p, d), price, Tick(p), d);
      forall other | OnGrid(other, p)
        ensures if d == Up then (price <= other ==> Round(price, p, d) <= other)
                else (other <= price ==> other <= Round(price, p, d))
      {
        var j :| other == Multiple(j, Tick(p));
        UnitsAreExtreme(price, Tick(p), d, j);
      }
    }
  }

  lemma UnitsAreNearest(r: real, price: real, tick: real, d: Direction)
    requires tick > 0.0 && r == Multiple(Units(price, tick, d), tick)
    ensures if d == Up then price <= r && r - tick < price else r <= price && price < r + tick
  {
    var k := Units(price, tick, d);
    UnitsBracket(price, tick, d);
    NextMultiple(k, tick);
    NextMultiple(k - 1, tick);
  }

  lemma UnitsAreExtreme(price: real, tick: real, d: Direction, j: int)
    requires tick > 0.0
    ensures var r := Multiple(Units(price, tick, d), tick);
      if d == Up then (price <= Multiple(j, tick) ==> r <= Multiple(j, tick))
      else (Multiple(j, tick) <= price ==> Multiple(j, tick) <= r)
  {
    var k := Units(price, tick, d);
    UnitsBracket(price, tick, d);
    MultiplesInOrder(k - 1, j, tick);
    MultiplesInOrder(j, k + 1, tick);
    MultiplesInOrder(j, k, tick);
    MultiplesInOrder(k, j, tick);
  }

  lemma RoundIsMonotone(a: real, b: real, p: Precision, d: Direction)
    requires ValidPrecision(p) && a <= b
    ensures Round(a, p, d) <= Round(b, p, d)
  {
    RoundIsNearest(a, p, d);
    RoundIsNearest(b, p, d);
  }

  /** Prices on the grid stay, and so rounding twice is rounding once. */
  lemma RoundKeepsGrid(price: real, p: Precision, d: Direction)
    requires ValidPrecision(p)
    ensures Round(price, p, d) == price <==> OnGrid(price, p)
    ensures Round(Round(price, p, d), p, d) == Round(price, p, d)
  {
    RoundIsNearest(price, p, d);
    RoundIsNearest(Round(price, p, d), p, d);
  }
}
