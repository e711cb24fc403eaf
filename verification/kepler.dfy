/** Closed-form two-body relations: circular velocity, escape velocity,
    orbital period and specific orbital energy. Every relation validates its
    two arguments the same way before evaluating one formula. */
module Kepler {
  import opened Wrappers
  import opened Numeric

  /** Why an argument was rejected as out of its domain. */
  datatype Reason = MuNotPositive | RadiusNotPositive | SemiMajorAxisNotPositive

  datatype KeplerError = TypeError | ValueError(reason: Reason)

  /** The host's math.pi: the exact value of the IEEE double nearest to pi. */
  const PI: real := 3.141592653589793115997963468544185161590576171875

  /** The guard clauses every relation starts with: a type check on both
      arguments, then mu, then the length argument (a radius or a semi-major
      axis, reported as lengthReason). */
  function CheckInputs(mu: Arg, x: Arg, lengthReason: Reason): (e: Option<KeplerError>)
    requires lengthReason != MuNotPositive
    ensures e == Some(TypeError) <==> !IsNumeric(mu) || !IsNumeric(x)
    ensures e == Some(ValueError(MuNotPositive)) <==>
      IsNumeric(mu) && IsNumeric(x) && Value(mu) <= 0.0
    ensures e == Some(ValueError(lengthReason)) <==>
      IsNumeric(mu) && IsNumeric(x) && 0.0 < Value(mu) && Value(x) <= 0.0
    ensures e == None <==> IsNumeric(mu) && IsNumeric(x) && 0.0 < Value(mu) && 0.0 < Value(x)
    ensures e.Some? ==> e.value in {TypeError, ValueError(MuNotPositive), ValueError(lengthReason)}
  {
    if !IsNumeric(mu) || !IsNumeric(x) then Some(TypeError)
    else if Value(mu) <= 0.0 then Some(ValueError(MuNotPositive))
    else if Value(x) <= 0.0 then Some(ValueError(lengthReason))
    else None
  }

  /** Speed of a circular orbit of radius r: its square is mu / r. */
  function CircularVelocity(sqrt: real -> real, mu: Arg, r: Arg): (res: Result<real, KeplerError>)
    requires IsSqrt(sqrt)
    ensures res.Failure? <==> CheckInputs(mu, r, RadiusNotPositive).Some?
    ensures res.Failure? ==> res.error == CheckInputs(mu, r, RadiusNotPositive).value
    ensures res.Success? ==> 0.0 < res.value && res.value * res.value == Value(mu) / Value(r)
  {
    match CheckInputs(mu, r, RadiusNotPositive)
    case Some(e) => Failure(e)
    case None =>
      SqrtPositive(sqrt, Value(mu) / Value(r));
      Success(sqrt(Value(mu) / Value(r)))
  }

  /** Speed needed to escape from radius r: its square is 2 mu / r. */
  function EscapeVelocity(sqrt: real -> real, mu: Arg, r: Arg): (res: Result<real, KeplerError>)
    requires IsSqrt(sqrt)
    ensures res.Failure? <==> CheckInputs(mu, r, RadiusNotPositive).Some?
    ensures res.Failure? ==> res.error == CheckInputs(mu, r, RadiusNotPositive).value
    ensures res.Success? ==> 0.0 < res.value && res.value * res.value == 2.0 * Value(mu) / Value(r)
  {
    match CheckInputs(mu, r, RadiusNotPositive)
    case Some(e) => Failure(e)
    case None =>
      SqrtPositive(sqrt, 2.0 * Value(mu) / Value(r));
      Success(sqrt(2.0 * Value(mu) / Value(r)))
  }

  /** Period of an orbit with semi-major axis a: positive, and its square is
      4 pi^2 a^3 / mu (Kepler's third law). */
  function OrbitalPeriod(sqrt: real -> real, mu: Arg, a: Arg): (res: Result<real, KeplerError>)
    requires IsSqrt(sqrt)
    ensures res.Failure? <==> CheckInputs(mu, a, SemiMajorAxisNotPositive).Some?
    ensures res.Failure? ==> res.error == CheckInputs(mu, a, SemiMajorAxisNotPositive).value
    ensures res.Success? ==>
      0.0 < res.value && res.value * res.value == 4.0 * PI * PI * Cube(Value(a)) / Value(mu)
  {
    match CheckInputs(mu, a, SemiMajorAxisNotPositive)
    case Some(e) => Failure(e)
    case None =>
      PeriodFormula(sqrt, Value(mu), Value(a));
      Success(2.0 * PI * sqrt(Cube(Value(a)) / Value(mu)))
  }

  function Cube(x: real): real {
    x * x * x
  }

  lemma PeriodFormula(sqrt: real -> real, m: real, x: real)
    requires IsSqrt(sqrt) && 0.0 < m && 0.0 < x
    ensures var t := 2.0 * PI * sqrt(Cube(x) / m);
      0.0 < t && t * t == 4.0 * PI * PI * Cube(x) / m
  {
    var q := Cube(x) / m;
    assert 0.0 < q;
    SqrtPositive(sqrt, q);
    var s := sqrt(q);
    assert s * s == q;
    assert (2.0 * PI * s) * (2.0 * PI * s) == 4.0 * PI * PI * (s * s);
  }

  /** Energy per unit mass of an orbit with semi-major axis a: negative (a
      bound orbit), and twice a times it is -mu. */
  function SpecificOrbitalEnergy(mu: Arg, a: Arg): (res: Result<real, KeplerError>)
    ensures res.Failure? <==> CheckInputs(mu, a, SemiMajorAxisNotPositive).Some?
    ensures res.Failure? ==> res.error == CheckInputs(mu, a, SemiMajorAxisNotPositive).value
    ensures res.Success? ==> res.value < 0.0 && res.value * (2.0 * Value(a)) == -Value(mu)
  {
    match CheckInputs(mu, a, SemiMajorAxisNotPositive)
    case Some(e) => Failure(e)
    case None => Success(-Value(mu) / (2.0 * Value(a)))
  }

  /** Escape velocity is exactly sqrt(2) times circular velocity, and both
      relations reject the same inputs with the same error. */
  lemma EscapeIsSqrtTwoTimesCircular(sqrt: real -> real, mu: Arg, r: Arg)
    requires IsSqrt(sqrt)
    ensures EscapeVelocity(sqrt, mu, r).Failure? == CircularVelocity(sqrt, mu, r).Failure?
    ensures EscapeVelocity(sqrt, mu, r).Failure? ==>
      EscapeVelocity(sqrt, mu, r).error == CircularVelocity(sqrt, mu, r).error
    ensures EscapeVelocity(sqrt, mu, r).Success? ==>
      EscapeVelocity(sqrt, mu, r).value == sqrt(2.0) * CircularVelocity(sqrt, mu, r).value
  {
    match CheckInputs(mu, r, RadiusNotPositive)
    case Some(e) =>
      assert EscapeVelocity(sqrt, mu, r) == Failure(e) == CircularVelocity(sqrt, mu, r);
    case None =>
      EscapeFormula(sqrt, Value(mu), Value(r));
      assert EscapeVelocity(sqrt, mu, r) == Success(sqrt(2.0 * Value(mu) / Value(r)));
      assert CircularVelocity(sqrt, mu, r) == Success(sqrt(Value(mu) / Value(r)));
  }

  lemma EscapeFormula(sqrt: real -> real, m: real, x: real)
    requires IsSqrt(sqrt) && 0.0 < m && 0.0 < x
    ensures sqrt(2.0 * m / x) == sqrt(2.0) * sqrt(m / x)
  {
    assert 2.0 * m / x == 2.0 * (m / x);
    SqrtMultiplicative(sqrt, 2.0, m / x);
  }

  /** For valid inputs escape velocity strictly exceeds circular velocity. */
  lemma EscapeExceedsCircular(sqrt: real -> real, mu: Arg, r: Arg)
    requires IsSqrt(sqrt)
    requires CircularVelocity(sqrt, mu, r).Success?
    ensures EscapeVelocity(sqrt, mu, r).Success?
    ensures 0.0 < CircularVelocity(sqrt, mu, r).value < EscapeVelocity(sqrt, mu, r).value
  {
    EscapeIsSqrtTwoTimesCircular(sqrt, mu, r);
    SqrtOfSquare(sqrt, 1.0);
    SqrtStrictlyMonotone(sqrt, 1.0, 2.0);
    var c := CircularVelocity(sqrt, mu, r).value;
    assert sqrt(2.0) * c - c == (sqrt(2.0) - 1.0) * c;
  }

  /** One period at circular speed covers the circumference: for valid inputs
      the period at semi-major axis a times the circular velocity at radius a
      is 2 pi a. */
  lemma PeriodTimesCircularVelocity(sqrt: real -> real, mu: Arg, a: Arg)
    requires IsSqrt(sqrt)
    requires OrbitalPeriod(sqrt, mu, a).Success?
    ensures CircularVelocity(sqrt, mu, a).Success?
    ensures OrbitalPeriod(sqrt, mu, a).value * CircularVelocity(sqrt, mu, a).value
            == 2.0 * PI * Value(a)
  {
    PeriodCircumference(sqrt, Value(mu), Value(a));
  }

  lemma PeriodCircumference(sqrt: real -> real, m: real, x: real)
    requires IsSqrt(sqrt) && 0.0 < m && 0.0 < x
    ensures 2.0 * PI * sqrt(Cube(x) / m) * sqrt(m / x) == 2.0 * PI * x
  {
    var p := Cube(x) / m;
    var q := m / x;
    assert p * q == x * x by {
      ProductOfQuotients(Cube(x), m, m, x);
      assert Cube(x) * m == (x * x) * (m * x);
      CancelCommonFactor(x * x, m * x);
    }
    assert 0.0 < p && 0.0 < q;
    SqrtMultiplicative(sqrt, p, q);
    SqrtOfSquare(sqrt, x);
  }

  lemma ProductOfQuotients(a: real, b: real, c: real, d: real)
    requires b != 0.0 && d != 0.0
    ensures (a / b) * (c / d) == (a * c) / (b * d)
  {
  }

  lemma CancelCommonFactor(a: real, b: real)
    requires b != 0.0
    ensures (a * b) / b == a
  {
  }

  /** For valid inputs the specific energy of an orbit with semi-major axis a
      is minus half the square of the circular velocity at radius a. */
  lemma EnergyIsMinusHalfCircularSquared(sqrt: real -> real, mu: Arg, a: Arg)
    requires IsSqrt(sqrt)
    requires SpecificOrbitalEnergy(mu, a).Success?
    ensures CircularVelocity(sqrt, mu, a).Success?
    ensures var v := CircularVelocity(sqrt, mu, a).value;
      SpecificOrbitalEnergy(mu, a).value == -(v * v) / 2.0
  {
  }
}
