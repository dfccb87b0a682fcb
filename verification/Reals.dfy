/** Facts about products and quotients of reals, one solver step each. */
module Reals {
  function Min(a: real, b: real): real { if a < b then a else b }
  function Max(a: real, b: real): real { if a < b then b else a }

  /** A product under a name, for proofs in which only its arguments matter. */
  function Times(x: real, y: real): real { x * y }

  lemma Distribute(x: real, y: real, z: real)
    ensures (x + y) * z == x * z + y * z
  {
  }

  lemma MulMonotone(x: real, y: real, z: real)
    requires x <= y && z >= 0.0
    ensures x * z <= y * z
    ensures z * x <= z * y
  {
  }

  lemma MulStrict(x: real, y: real, z: real)
    requires x < y && z > 0.0
    ensures x * z < y * z
  {
  }

  lemma MulSign(x: real, y: real)
    ensures x >= 0.0 && y >= 0.0 ==> x * y >= 0.0
    ensures x > 0.0 && y > 0.0 ==> x * y > 0.0
  {
  }

  lemma Quotient(x: real, d: real)
    requires d != 0.0
    ensures (x / d) * d == x
  {
  }

  lemma QuotientAtMost(x: real, d: real, bound: real)
    requires d > 0.0
    ensures x / d <= bound <==> x <= bound * d
    ensures x / d >= bound <==> x >= bound * d
  {
    var q := x / d;
    Quotient(x, d);
    if q < bound {
      MulStrict(q, bound, d);
    } else if bound < q {
      MulStrict(bound, q, d);
    }
  }

  lemma Associate(x: real, y: real, z: real)
    ensures (x * y) * z == x * (y * z)
  {
  }

  lemma Cancel(x: real, y: real, z: real)
    requires z > 0.0 && x * z == y * z
    ensures x == y
  {
    if x < y {
      MulStrict(x, y, z);
    } else if y < x {
      MulStrict(y, x, z);
    }
  }

  /** Dividing by a number and multiplying by its reciprocal are the same, and undo each other. */
  lemma Reciprocal(x: real, d: real)
    requires d > 0.0
    ensures 1.0 / d > 0.0
    ensures x / d == x * (1.0 / d)
    ensures x / (1.0 / d) == x * d
  {
    var r := 1.0 / d;
    QuotientAtMost(1.0, d, 0.0);
    Quotient(1.0, d);
    Quotient(x, d);
    Associate(x, r, d);
    Cancel(x / d, x * r, d);
    Quotient(x, r);
    Associate(x, d, r);
    Cancel(x / r, x * d, r);
  }
}
