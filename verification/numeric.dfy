/** The numbers the library works with: arguments as its isinstance checks see
    them, and the square root it borrows from the host's math library. */
module Numeric {

  /** An argument as the type checks classify it: an integer, a floating-point
      number (exact, as a real) or anything else. */
  datatype Arg = Int(i: int) | Float(x: real) | NonNumeric

  /** Accepted by the "int or float" check. */
  predicate IsNumeric(a: Arg) {
    a.Int? || a.Float?
  }

  /** The numeric value of an argument that passed the type check. */
  function Value(a: Arg): real {
    match a
    case Int(i) => i as real
    case Float(x) => x
    case NonNumeric => 0.0
  }

  function Abs(x: real): (r: real)
    ensures r >= 0.0 && (r == x || r == -x)
  {
    if x < 0.0 then -x else x
  }

  /** What the model relies on from the host square root: on non-negative
      arguments it is non-negative and squares back to its argument. */
  ghost predicate IsSqrt(sqrt: real -> real) {
    forall x: real :: 0.0 <= x ==> 0.0 <= sqrt(x) && sqrt(x) * sqrt(x) == x
  }

  lemma SquareStrictlyMonotone(a: real, b: real)
    requires 0.0 <= a < b
    ensures a * a < b * b
  {
    assert a * (b - a) >= 0.0;
    assert b * (b - a) > 0.0;
  }

  /** Non-negative numbers with equal squares are equal. */
  lemma SquareInjective(a: real, b: real)
    requires 0.0 <= a && 0.0 <= b && a * a == b * b
    ensures a == b
  {
    if a < b {
      SquareStrictlyMonotone(a, b);
    } else if b < a {
      SquareStrictlyMonotone(b, a);
    }
  }

  lemma SqrtOfSquare(sqrt: real -> real, y: real)
    requires IsSqrt(sqrt) && 0.0 <= y
    ensures sqrt(y * y) == y
  {
    assert 0.0 <= y * y;
    SquareInjective(sqrt(y * y), y);
  }

  lemma SqrtPositive(sqrt: real -> real, x: real)
    requires IsSqrt(sqrt) && 0.0 < x
    ensures 0.0 < sqrt(x)
  {
    assert sqrt(x) * sqrt(x) == x;
  }

  lemma SqrtStrictlyMonotone(sqrt: real -> real, x: real, y: real)
    requires IsSqrt(sqrt) && 0.0 <= x < y
    ensures sqrt(x) < sqrt(y)
  {
    assert sqrt(x) * sqrt(x) == x && sqrt(y) * sqrt(y) == y;
    if sqrt(y) <= sqrt(x) {
      if sqrt(y) < sqrt(x) {
        SquareStrictlyMonotone(sqrt(y), sqrt(x));
      }
    }
  }

  lemma SqrtMultiplicative(sqrt: real -> real, x: real, y: real)
    requires IsSqrt(sqrt) && 0.0 <= x && 0.0 <= y
    ensures sqrt(x * y) == sqrt(x) * sqrt(y)
  {
    var sx, sy := sqrt(x), sqrt(y);
    assert sx * sx == x && sy * sy == y;
    calc {
      (sx * sy) * (sx * sy);
      (sx * sx) * (sy * sy);
      x * y;
    }
    assert 0.0 <= x * y;
    assert 0.0 <= sx * sy;
    SquareInjective(sqrt(x * y), sx * sy);
  }
}
