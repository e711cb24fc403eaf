/** The bisection solver for the orbital radius at which the circular velocity
    equals a target velocity: a validation cascade, a bracketing check, and a
    bounded loop that halves the bracket and records every midpoint residual. */
module RootFind {
  import opened Wrappers
  import opened Numeric

  /** The solver's arguments, in the order the type checks visit them. */
  datatype Param = Mu | VTarget | RMin | RMax | Tol | MaxIter

  /** Why a numeric argument or the search interval was rejected. */
  datatype Reason =
    | MuNotPositive
    | VTargetNotPositive
    | RadiusNotPositive
    | BoundsNotOrdered
    | TolNotPositive
    | NotBracketed

  datatype SolveError =
    | TypeError(param: Param)
    | ValueError(reason: Reason)
      /** max_iter <= 0 on a bracketed interval: the loop never binds the
          midpoint that the final return reads. */
    | UnboundLocalError

  /** The diagnostics returned beside the radius. */
  datatype Info = Info(iterations: int, residuals: seq<real>)

  /** Default tolerance and iteration limit of the solver's signature. */
  const DEFAULT_TOL: real := 0.0000000001
  const DEFAULT_MAX_ITER: int := 100

  /** The type checks in order: five numeric arguments, then an integer limit. */
  function TypeChecks(mu: Arg, vTarget: Arg, rMin: Arg, rMax: Arg, tol: Arg, maxIter: Arg)
    : seq<(bool, Param)>
  {
    [ (!IsNumeric(mu), Mu), (!IsNumeric(vTarget), VTarget), (!IsNumeric(rMin), RMin),
      (!IsNumeric(rMax), RMax), (!IsNumeric(tol), Tol), (!maxIter.Int?, MaxIter) ]
  }

  /** The domain checks in order; the tolerance comes after the ordering. */
  function DomainChecks(mu: real, vTarget: real, rMin: real, rMax: real, tol: real)
    : seq<(bool, Reason)>
  {
    [ (mu <= 0.0, MuNotPositive), (vTarget <= 0.0, VTargetNotPositive),
      (rMin <= 0.0 || rMax <= 0.0, RadiusNotPositive), (rMax <= rMin, BoundsNotOrdered),
      (tol <= 0.0, TolNotPositive) ]
  }

  /** The five numeric arguments are numbers and the limit is an integer. */
  predicate WellTyped(mu: Arg, vTarget: Arg, rMin: Arg, rMax: Arg, tol: Arg, maxIter: Arg) {
    && IsNumeric(mu) && IsNumeric(vTarget) && IsNumeric(rMin) && IsNumeric(rMax)
    && IsNumeric(tol) && maxIter.Int?
  }

  /** The values are positive and the interval is ordered. */
  predicate InDomain(mu: real, vTarget: real, rMin: real, rMax: real, tol: real) {
    0.0 < mu && 0.0 < vTarget && 0.0 < rMin < rMax && 0.0 < tol
  }

  /** Every type check and every domain check passes. */
  predicate Validated(mu: Arg, vTarget: Arg, rMin: Arg, rMax: Arg, tol: Arg, maxIter: Arg) {
    && WellTyped(mu, vTarget, rMin, rMax, tol, maxIter)
    && InDomain(Value(mu), Value(vTarget), Value(rMin), Value(rMax), Value(tol))
  }

  /** The ordered type checks report nothing exactly when the arguments are
      well typed. */
  lemma TypeChecksPassIff(mu: Arg, vTarget: Arg, rMin: Arg, rMax: Arg, tol: Arg, maxIter: Arg)
    ensures FirstFailure(TypeChecks(mu, vTarget, rMin, rMax, tol, maxIter)).None? <==>
      WellTyped(mu, vTarget, rMin, rMax, tol, maxIter)
  {
    var types := TypeChecks(mu, vTarget, rMin, rMax, tol, maxIter);
    if WellTyped(mu, vTarget, rMin, rMax, tol, maxIter) {
      forall i | 0 <= i < |types| ensures !types[i].0 {
        assert i == 0 || i == 1 || i == 2 || i == 3 || i == 4 || i == 5;
      }
    } else {
      assert types[0].0 || types[1].0 || types[2].0 || types[3].0 || types[4].0 || types[5].0;
    }
  }

  /** The ordered domain checks report nothing exactly when the values are in
      the domain. */
  lemma DomainChecksPassIff(mu: real, vTarget: real, rMin: real, rMax: real, tol: real)
    ensures FirstFailure(DomainChecks(mu, vTarget, rMin, rMax, tol)).None? <==>
      InDomain(mu, vTarget, rMin, rMax, tol)
  {
    var domain := DomainChecks(mu, vTarget, rMin, rMax, tol);
    if InDomain(mu, vTarget, rMin, rMax, tol) {
      forall i | 0 <= i < |domain| ensures !domain[i].0 {
        assert i == 0 || i == 1 || i == 2 || i == 3 || i == 4;
      }
    } else {
      assert domain[0].0 || domain[1].0 || domain[2].0 || domain[3].0 || domain[4].0;
    }
  }

  /** The solver's nested residual: circular velocity at r minus the target. */
  function Residual(sqrt: real -> real, mu: real, vTarget: real, r: real): real
    requires 0.0 < r
  {
    sqrt(mu / r) - vTarget
  }

  /** A validated problem: the residual's ingredients and the starting interval. */
  datatype Problem = Problem(sqrt: real -> real, mu: real, vTarget: real, lo: real, hi: real) {
    predicate Valid() {
      0.0 < lo < hi
    }

    function F(r: real): real
      requires 0.0 < r
    {
      Residual(sqrt, mu, vTarget, r)
    }
  }

  function ProblemOf(sqrt: real -> real, mu: Arg, vTarget: Arg, rMin: Arg, rMax: Arg): Problem {
    Problem(sqrt, Value(mu), Value(vTarget), Value(rMin), Value(rMax))
  }

  /** The bracketing check passes: the residuals at the two ends do not have
      the same strict sign (a product of exactly zero passes). */
  ghost predicate Bracketed(p: Problem)
    requires p.Valid()
  {
    p.F(p.lo) * p.F(p.hi) <= 0.0
  }

  /** The loop state: the current interval and the residuals kept for its ends. */
  datatype Bracket = Bracket(lo: real, hi: real, fLo: real, fHi: real)

  function Midpoint(b: Bracket): real {
    0.5 * (b.lo + b.hi)
  }

  /** The source's test for a sign change between the lower end and the
      midpoint: a strictly negative product. */
  predicate KeepLower(fLo: real, fMid: real) {
    fLo * fMid < 0.0
  }

  /** One narrowing step: keep the lower half when the residual changes sign
      strictly between the lower end and the midpoint, otherwise (including a
      product of exactly zero) move to the upper half. */
  function Narrow(b: Bracket, mid: real, fMid: real): Bracket {
    if KeepLower(b.fLo, fMid) then Bracket(b.lo, mid, b.fLo, fMid)
    else Bracket(mid, b.hi, fMid, b.fHi)
  }

  /** The bracket at the start of iteration k (counting from 0), provided no
      earlier iteration converged. It stays inside the starting interval. */
  ghost function BracketAt(p: Problem, k: nat): (b: Bracket)
    requires p.Valid()
    ensures p.lo <= b.lo < b.hi <= p.hi
  {
    if k == 0 then Bracket(p.lo, p.hi, p.F(p.lo), p.F(p.hi))
    else
      var b := BracketAt(p, k - 1);
      var mid := Midpoint(b);
      Narrow(b, mid, p.F(mid))
  }

  ghost function MidpointAt(p: Problem, k: nat): real
    requires p.Valid()
  {
    Midpoint(BracketAt(p, k))
  }

  ghost function ResidualAt(p: Problem, k: nat): real
    requires p.Valid()
  {
    p.F(MidpointAt(p, k))
  }

  /** The residuals of iterations 0 to k - 1, in iteration order. */
  ghost function ResidualsUpTo(p: Problem, k: nat): (r: seq<real>)
    requires p.Valid()
    ensures |r| == k
    ensures forall i :: 0 <= i < k ==> r[i] == ResidualAt(p, i)
  {
    if k == 0 then [] else ResidualsUpTo(p, k - 1) + [ResidualAt(p, k - 1)]
  }

  /** No midpoint before iteration k was within tolerance, so the loop
      narrowed the bracket k times. */
  ghost predicate RanFor(p: Problem, tol: real, k: nat)
    requires p.Valid()
  {
    forall j :: 0 <= j < k ==> tol <= Abs(ResidualAt(p, j))
  }

  /** What a successful return promises: between 1 and maxIter iterations,
      one residual per iteration in iteration order, the last midpoint as the
      radius, no earlier residual within tolerance, and a last residual within
      tolerance whenever the limit was not used up. */
  ghost predicate SolvedBy(p: Problem, tol: real, maxIter: int, sol: (real, Info))
    requires p.Valid()
  {
    var n := sol.1.iterations;
    && 1 <= n <= maxIter
    && sol.1.residuals == ResidualsUpTo(p, n)
    && sol.0 == MidpointAt(p, n - 1)
    && RanFor(p, tol, n - 1)
    && (n < maxIter ==> Abs(ResidualAt(p, n - 1)) < tol)
  }

  /** The validation cascade: the type checks come first, then the domain
      checks. The first failing check decides the error. */
  method CheckArguments(mu: Arg, vTarget: Arg, rMin: Arg, rMax: Arg, tol: Arg, maxIter: Arg)
    returns (e: Option<SolveError>)
    ensures var t := FirstFailure(TypeChecks(mu, vTarget, rMin, rMax, tol, maxIter));
      t.Some? ==> e == Some(TypeError(t.value))
    ensures var t := FirstFailure(TypeChecks(mu, vTarget, rMin, rMax, tol, maxIter));
      var d := FirstFailure(DomainChecks(Value(mu), Value(vTarget), Value(rMin), Value(rMax), Value(tol)));
      t.None? && d.Some? ==> e == Some(ValueError(d.value))
    ensures e.None? <==> Validated(mu, vTarget, rMin, rMax, tol, maxIter)
    ensures e.Some? ==> e.value.TypeError? || (e.value.ValueError? && e.value.reason != NotBracketed)
  {
    var t := CheckTypes(mu, vTarget, rMin, rMax, tol, maxIter);
    if t.Some? {
      return Some(TypeError(t.value));
    }
    var d := CheckDomain(Value(mu), Value(vTarget), Value(rMin), Value(rMax), Value(tol));
    if d.Some? {
      return Some(ValueError(d.value));
    }
    return None;
  }

  /** The type checks: mu, v_target, r_min, r_max and tol are visited in order
      and must each be an int or a float; then max_iter must be an int. */
  method CheckTypes(mu: Arg, vTarget: Arg, rMin: Arg, rMax: Arg, tol: Arg, maxIter: Arg)
    returns (e: Option<Param>)
    ensures e == FirstFailure(TypeChecks(mu, vTarget, rMin, rMax, tol, maxIter))
    ensures e.None? <==> WellTyped(mu, vTarget, rMin, rMax, tol, maxIter)
  {
    var types := TypeChecks(mu, vTarget, rMin, rMax, tol, maxIter);
    TypeChecksPassIff(mu, vTarget, rMin, rMax, tol, maxIter);
    var named := [(Mu, mu), (VTarget, vTarget), (RMin, rMin), (RMax, rMax), (Tol, tol)];
    assert forall j :: 0 <= j < |named| ==> types[j] == (!IsNumeric(named[j].1), named[j].0) by {
      forall j | 0 <= j < |named| ensures types[j] == (!IsNumeric(named[j].1), named[j].0) {
        assert j == 0 || j == 1 || j == 2 || j == 3 || j == 4;
      }
    }
    var i := 0;
    while i < |named|
      invariant 0 <= i <= |named|
      invariant forall j :: 0 <= j < i ==> !types[j].0
    {
      if !IsNumeric(named[i].1) {
        FirstFailureAt(types, i);
        return Some(named[i].0);
      }
      assert !types[i].0;
      i := i + 1;
    }
    if !maxIter.Int? {
      FirstFailureAt(types, 5);
      return Some(MaxIter);
    }
    return None;
  }

  /** The domain checks on the values, in the source's order: mu, v_target,
      both radii, their ordering, and last the tolerance. */
  method CheckDomain(mu: real, vTarget: real, rMin: real, rMax: real, tol: real)
    returns (e: Option<Reason>)
    ensures e == FirstFailure(DomainChecks(mu, vTarget, rMin, rMax, tol))
    ensures e.None? <==> InDomain(mu, vTarget, rMin, rMax, tol)
    ensures e != Some(NotBracketed)
  {
    var domain := DomainChecks(mu, vTarget, rMin, rMax, tol);
    DomainChecksPassIff(mu, vTarget, rMin, rMax, tol);
    if mu <= 0.0 {
      FirstFailureAt(domain, 0);
      return Some(MuNotPositive);
    }
    if vTarget <= 0.0 {
      FirstFailureAt(domain, 1);
      return Some(VTargetNotPositive);
    }
    if rMin <= 0.0 || rMax <= 0.0 {
      FirstFailureAt(domain, 2);
      return Some(RadiusNotPositive);
    }
    if rMax <= rMin {
      FirstFailureAt(domain, 3);
      return Some(BoundsNotOrdered);
    }
    if tol <= 0.0 {
      FirstFailureAt(domain, 4);
      return Some(TolNotPositive);
    }
    return None;
  }

  /** The solver: validate, build the residual, check that the interval
      brackets a root, then bisect. The source's defaults for tol and max_iter
      are DEFAULT_TOL and DEFAULT_MAX_ITER; here both are passed explicitly. */
  method SolveRadiusForCircularVelocity(
    sqrt: real -> real, mu: Arg, vTarget: Arg, rMin: Arg, rMax: Arg, tol: Arg, maxIter: Arg)
    returns (res: Result<(real, Info), SolveError>)
    ensures var t := FirstFailure(TypeChecks(mu, vTarget, rMin, rMax, tol, maxIter));
      t.Some? ==> res == Failure(TypeError(t.value))
    ensures var t := FirstFailure(TypeChecks(mu, vTarget, rMin, rMax, tol, maxIter));
      var d := FirstFailure(DomainChecks(Value(mu), Value(vTarget), Value(rMin), Value(rMax), Value(tol)));
      t.None? && d.Some? ==> res == Failure(ValueError(d.value))
    ensures res == Failure(ValueError(NotBracketed)) <==>
      Validated(mu, vTarget, rMin, rMax, tol, maxIter) && !Bracketed(ProblemOf(sqrt, mu, vTarget, rMin, rMax))
    ensures res == Failure(UnboundLocalError) <==>
      && Validated(mu, vTarget, rMin, rMax, tol, maxIter)
      && Bracketed(ProblemOf(sqrt, mu, vTarget, rMin, rMax))
      && maxIter.i <= 0
    ensures res.Success? <==>
      && Validated(mu, vTarget, rMin, rMax, tol, maxIter)
      && Bracketed(ProblemOf(sqrt, mu, vTarget, rMin, rMax))
      && 1 <= maxIter.i
    ensures res.Success? ==>
      && Validated(mu, vTarget, rMin, rMax, tol, maxIter)
      && SolvedBy(ProblemOf(sqrt, mu, vTarget, rMin, rMax), Value(tol), maxIter.i, res.value)
  {
    var e := CheckArguments(mu, vTarget, rMin, rMax, tol, maxIter);
    if e.Some? {
      return Failure(e.value);
    }
    var p := ProblemOf(sqrt, mu, vTarget, rMin, rMax);
    var fLo := p.F(p.lo);
    var fHi := p.F(p.hi);
    if fLo * fHi > 0.0 {
      return Failure(ValueError(NotBracketed));
    }
    res := Bisect(p, fLo, fHi, Value(tol), maxIter.i);
  }

  /** The bisection loop with its residual history, started from a validated
      and bracketed interval whose end residuals are fLo and fHi. It returns
      at the first midpoint within tolerance, or after n iterations with the
      last midpoint; with no iteration at all the midpoint is never bound. */
  method Bisect(p: Problem, fLo: real, fHi: real, tol: real, n: int)
    returns (res: Result<(real, Info), SolveError>)
    requires p.Valid() && fLo == p.F(p.lo) && fHi == p.F(p.hi)
    ensures n <= 0 ==> res == Failure(UnboundLocalError)
    ensures 1 <= n ==> res.Success? && SolvedBy(p, tol, n, res.value)
  {
    var rMin, rMax, fMin, fMax := p.lo, p.hi, fLo, fHi;
    var history: seq<real> := [];
    var lastMid: Option<real> := None;
    var k := 0;
    while k < n
      invariant 0 <= k && (k == 0 || k <= n)
      invariant Bracket(rMin, rMax, fMin, fMax) == BracketAt(p, k)
      invariant history == ResidualsUpTo(p, k)
      invariant RanFor(p, tol, k)
      invariant lastMid == if k == 0 then None else Some(MidpointAt(p, k - 1))
      decreases n - k
    {
      var rMid := 0.5 * (rMin + rMax);
      lastMid := Some(rMid);
      var fMid := p.F(rMid);
      BracketStep(p, k);
      assert rMid == MidpointAt(p, k);
      assert fMid == ResidualAt(p, k);
      history := history + [fMid];
      if Abs(fMid) < tol {
        ConvergedSolves(p, tol, n, k);
        return Success((rMid, Info(k + 1, history)));
      }
      if KeepLower(fMin, fMid) {
        rMax, fMax := rMid, fMid;
      } else {
        rMin, fMin := rMid, fMid;
      }
      k := k + 1;
    }

    match lastMid
    case None =>
      return Failure(UnboundLocalError);
    case Some(rMid) =>
      ExhaustedSolves(p, tol, n);
      return Success((rMid, Info(n, history)));
  }

  /** Returning at iteration k, the first whose residual is within tolerance,
      is a successful return. */
  lemma ConvergedSolves(p: Problem, tol: real, maxIter: int, k: nat)
    requires p.Valid() && k < maxIter && RanFor(p, tol, k) && Abs(ResidualAt(p, k)) < tol
    ensures SolvedBy(p, tol, maxIter, (MidpointAt(p, k), Info(k + 1, ResidualsUpTo(p, k + 1))))
  {
  }

  /** Returning the last midpoint after maxIter iterations without convergence
      is a successful return. */
  lemma ExhaustedSolves(p: Problem, tol: real, maxIter: nat)
    requires p.Valid() && 1 <= maxIter && RanFor(p, tol, maxIter)
    ensures SolvedBy(p, tol, maxIter, (MidpointAt(p, maxIter - 1), Info(maxIter, ResidualsUpTo(p, maxIter))))
  {
    assert RanFor(p, tol, maxIter - 1) by {
      forall j | 0 <= j < maxIter - 1 ensures tol <= Abs(ResidualAt(p, j)) {
      }
    }
  }

  /** One iteration: the next bracket narrows the current one at its midpoint. */
  lemma BracketStep(p: Problem, k: nat)
    requires p.Valid()
    ensures MidpointAt(p, k) == Midpoint(BracketAt(p, k))
    ensures ResidualAt(p, k) == p.F(MidpointAt(p, k))
    ensures BracketAt(p, k + 1) == Narrow(BracketAt(p, k), MidpointAt(p, k), ResidualAt(p, k))
  {
  }

  /** 2 to the power k, as a real. */
  function Pow2(k: nat): (r: real)
    ensures 1.0 <= r
  {
    if k == 0 then 1.0 else 2.0 * Pow2(k - 1)
  }

  /** The residuals kept for the two ends are always the residuals at those ends. */
  lemma {:induction false} BracketTracksResiduals(p: Problem, k: nat)
    requires p.Valid()
    ensures BracketAt(p, k).fLo == p.F(BracketAt(p, k).lo)
    ensures BracketAt(p, k).fHi == p.F(BracketAt(p, k).hi)
  {
    if k > 0 {
      BracketTracksResiduals(p, k - 1);
    }
  }

  /** After k narrowings the bracket is the starting width divided by 2^k. */
  lemma {:induction false} BracketWidth(p: Problem, k: nat)
    requires p.Valid()
    ensures BracketAt(p, k).hi - BracketAt(p, k).lo == (p.hi - p.lo) / Pow2(k)
  {
    if k > 0 {
      BracketWidth(p, k - 1);
      var b := BracketAt(p, k - 1);
      assert BracketAt(p, k).hi - BracketAt(p, k).lo == (b.hi - b.lo) / 2.0;
      HalfOfQuotient(p.hi - p.lo, Pow2(k - 1));
    }
  }

  lemma HalfOfQuotient(w: real, d: real)
    requires 0.0 < d
    ensures (w / d) / 2.0 == w / (2.0 * d)
  {
  }

  /** The bracket only shrinks: a later bracket lies inside an earlier one. */
  lemma {:induction false} BracketShrinks(p: Problem, j: nat, k: nat)
    requires p.Valid() && j <= k
    ensures BracketAt(p, j).lo <= BracketAt(p, k).lo
    ensures BracketAt(p, k).hi <= BracketAt(p, j).hi
  {
    if j < k {
      BracketShrinks(p, j, k - 1);
    }
  }

  /** The returned radius lies strictly inside the starting interval and inside
      the bracket of the iteration that produced it. */
  lemma SolvedRadiusInside(p: Problem, tol: real, maxIter: int, sol: (real, Info))
    requires p.Valid() && SolvedBy(p, tol, maxIter, sol)
    ensures BracketAt(p, sol.1.iterations - 1).lo < sol.0 < BracketAt(p, sol.1.iterations - 1).hi
    ensures p.lo < sol.0 < p.hi
  {
  }

  /** The promise of a successful return determines the result completely. */
  lemma SolutionIsUnique(p: Problem, tol: real, maxIter: int, s: (real, Info), t: (real, Info))
    requires p.Valid() && SolvedBy(p, tol, maxIter, s) && SolvedBy(p, tol, maxIter, t)
    ensures s == t
  {
  }

  /** The residual is strictly decreasing in r: circular velocity falls as the
      radius grows. */
  lemma ResidualDecreasing(sqrt: real -> real, mu: real, vTarget: real, r1: real, r2: real)
    requires IsSqrt(sqrt) && 0.0 < mu && 0.0 < r1 < r2
    ensures Residual(sqrt, mu, vTarget, r2) < Residual(sqrt, mu, vTarget, r1)
  {
    QuotientDecreasing(mu, r1, r2);
    SqrtStrictlyMonotone(sqrt, mu / r2, mu / r1);
  }

  lemma QuotientDecreasing(mu: real, r1: real, r2: real)
    requires 0.0 < mu && 0.0 < r1 < r2
    ensures 0.0 < mu / r2 < mu / r1
  {
    var a, b := mu / r1, mu / r2;
    assert a * r1 == mu && b * r2 == mu;
    assert 0.0 < b;
    assert b * r1 < b * r2;
  }

  /** The residual vanishes exactly at the circular-orbit radius mu / v^2. */
  lemma ResidualVanishesAtCircularRadius(sqrt: real -> real, mu: real, vTarget: real, r: real)
    requires IsSqrt(sqrt) && 0.0 < mu && 0.0 < vTarget && 0.0 < r
    ensures Residual(sqrt, mu, vTarget, r) == 0.0 <==> r == mu / (vTarget * vTarget)
  {
    var v2 := vTarget * vTarget;
    assert 0.0 < v2;
    if r == mu / v2 {
      assert mu / r == v2;
      SqrtOfSquare(sqrt, vTarget);
    }
    if Residual(sqrt, mu, vTarget, r) == 0.0 {
      assert sqrt(mu / r) == vTarget;
      assert mu / r == v2;
      assert mu == v2 * r;
    }
  }

  /** The sign-change invariant survives a narrowing step that does not
      converge, as long as the residual at the lower end is not exactly zero. */
  lemma NarrowKeepsSignChangeUnlessLowerIsRoot(b: Bracket, mid: real, fMid: real)
    requires b.fLo * b.fHi <= 0.0 && fMid != 0.0 && b.fLo != 0.0
    ensures Narrow(b, mid, fMid).fLo * Narrow(b, mid, fMid).fHi <= 0.0
  {
    if 0.0 <= b.fLo * fMid {
      SameSignFactor(b.fLo, fMid, b.fHi);
    }
  }

  /** If x and y have the same strict sign, y * z has the sign of x * z. */
  lemma SameSignFactor(x: real, y: real, z: real)
    requires 0.0 <= x * y && x != 0.0 && y != 0.0 && x * z <= 0.0
    ensures y * z <= 0.0
  {
    if 0.0 < x {
      assert 0.0 < y;
      assert z <= 0.0;
    } else {
      assert y < 0.0;
      assert 0.0 <= z;
    }
  }

  /** With the lower end exactly at the root (mu = v = 1, r_min = 1, r_max = 7)
      the bracketing check passes, but the first step moves to [4, 7] and
      never returns: for any tolerance up to 0.5 the solver exhausts its limit
      and answers a radius of at least 4, although the root is 1. */
  lemma LowerEndpointRootIsLost(sqrt: real -> real, tol: real, maxIter: int, sol: (real, Info))
    requires IsSqrt(sqrt) && 0.0 < tol <= 0.5
    requires SolvedBy(Problem(sqrt, 1.0, 1.0, 1.0, 7.0), tol, maxIter, sol)
    ensures Residual(sqrt, 1.0, 1.0, 1.0) == 0.0
    ensures Bracketed(Problem(sqrt, 1.0, 1.0, 1.0, 7.0))
    ensures sol.1.iterations == maxIter && 4.0 <= sol.0
  {
    var p := Problem(sqrt, 1.0, 1.0, 1.0, 7.0);
    SqrtOfSquare(sqrt, 1.0);
    SqrtOfSquare(sqrt, 0.5);
    assert p.F(1.0) == 0.0;
    assert p.F(4.0) == -0.5;
    assert BracketAt(p, 1).lo == 4.0;
    forall k: nat ensures 4.0 <= MidpointAt(p, k) && ResidualAt(p, k) <= -0.5 {
      if k > 0 {
        BracketShrinks(p, 1, k);
      }
      if 4.0 < MidpointAt(p, k) {
        ResidualDecreasing(sqrt, 1.0, 1.0, 4.0, MidpointAt(p, k));
      }
    }
  }

  /** The evidently intended tie-break: keep the lower half whenever the
      residual at the lower end times the midpoint residual is at most zero. */
  function NarrowCorrected(b: Bracket, mid: real, fMid: real): Bracket {
    if b.fLo * fMid <= 0.0 then Bracket(b.lo, mid, b.fLo, fMid)
    else Bracket(mid, b.hi, fMid, b.fHi)
  }

  /** With the corrected tie-break, every step that does not converge keeps a
      sign change between the two ends, a root at the lower end included. */
  lemma NarrowCorrectedKeepsSignChange(b: Bracket, mid: real, fMid: real)
    requires b.fLo * b.fHi <= 0.0 && fMid != 0.0
    ensures NarrowCorrected(b, mid, fMid).fLo * NarrowCorrected(b, mid, fMid).fHi <= 0.0
  {
    if 0.0 < b.fLo * fMid {
      SameSignFactor(b.fLo, fMid, b.fHi);
    }
  }

  /** The brackets the loop would visit with the corrected tie-break. */
  ghost function CorrectedBracketAt(p: Problem, k: nat): (b: Bracket)
    requires p.Valid()
    ensures p.lo <= b.lo < b.hi <= p.hi
  {
    if k == 0 then Bracket(p.lo, p.hi, p.F(p.lo), p.F(p.hi))
    else
      var b := CorrectedBracketAt(p, k - 1);
      var mid := Midpoint(b);
      NarrowCorrected(b, mid, p.F(mid))
  }

  /** No midpoint before iteration k was within tolerance, so the corrected
      loop narrowed k times. */
  ghost predicate CorrectedRanFor(p: Problem, tol: real, k: nat)
    requires p.Valid()
  {
    forall j :: 0 <= j < k ==> tol <= Abs(CorrectedResidualAt(p, j))
  }

  ghost function CorrectedResidualAt(p: Problem, k: nat): real
    requires p.Valid()
  {
    p.F(Midpoint(CorrectedBracketAt(p, k)))
  }

  /** The residuals kept for the two ends are the residuals there, and they
      do not have the same strict sign. */
  ghost predicate KeepsSignChange(p: Problem, b: Bracket)
    requires 0.0 < b.lo < b.hi
  {
    b.fLo == p.F(b.lo) && b.fHi == p.F(b.hi) && b.fLo * b.fHi <= 0.0
  }

  /** The corrected loop keeps the end residuals and a sign change between them. */
  lemma {:induction false} CorrectedBracketKeepsSignChange(p: Problem, tol: real, k: nat)
    requires p.Valid() && Bracketed(p) && 0.0 < tol && CorrectedRanFor(p, tol, k)
    ensures KeepsSignChange(p, CorrectedBracketAt(p, k))
  {
    if k > 0 {
      assert CorrectedRanFor(p, tol, k - 1);
      CorrectedBracketKeepsSignChange(p, tol, k - 1);
      var b := CorrectedBracketAt(p, k - 1);
      var mid := Midpoint(b);
      var fMid := p.F(mid);
      assert fMid == CorrectedResidualAt(p, k - 1);
      assert tol <= Abs(fMid);
      assert KeepsSignChange(p, b) && fMid != 0.0;
      NarrowCorrectedKeepsSignChange(b, mid, fMid);
      var next := NarrowCorrected(b, mid, fMid);
      assert CorrectedBracketAt(p, k) == next;
      assert next.fLo * next.fHi <= 0.0;
      assert next.fLo == p.F(next.lo) && next.fHi == p.F(next.hi);
    }
  }

  /** The radius of the circular orbit with speed vTarget: mu / v^2. */
  function CircularRadius(mu: real, vTarget: real): real
    requires 0.0 < vTarget
  {
    mu / (vTarget * vTarget)
  }

  /** With the corrected tie-break the circular-orbit radius mu / v^2, the
      true root, stays inside every bracket the loop visits, a root at either
      end of the starting interval included. */
  lemma CorrectedBracketKeepsRoot(p: Problem, tol: real, k: nat)
    requires IsSqrt(p.sqrt) && 0.0 < p.mu && 0.0 < p.vTarget
    requires p.Valid() && Bracketed(p) && 0.0 < tol && CorrectedRanFor(p, tol, k)
    ensures CorrectedBracketAt(p, k).lo <= CircularRadius(p.mu, p.vTarget) <= CorrectedBracketAt(p, k).hi
  {
    CorrectedBracketKeepsSignChange(p, tol, k);
    RootWithinSignChange(p, CorrectedBracketAt(p, k));
  }

  /** A sign change of the residual between the ends of a bracket encloses
      mu / v^2. */
  lemma RootWithinSignChange(p: Problem, b: Bracket)
    requires IsSqrt(p.sqrt) && 0.0 < p.mu && 0.0 < p.vTarget && 0.0 < b.lo < b.hi
    requires KeepsSignChange(p, b)
    ensures b.lo <= CircularRadius(p.mu, p.vTarget) <= b.hi
  {
    var root := CircularRadius(p.mu, p.vTarget);
    assert 0.0 < p.vTarget * p.vTarget;
    assert 0.0 < root;
    ResidualVanishesAtCircularRadius(p.sqrt, p.mu, p.vTarget, root);
    ResidualDecreasing(p.sqrt, p.mu, p.vTarget, b.lo, b.hi);
    assert 0.0 <= b.fLo && b.fHi <= 0.0;
    if root < b.lo {
      ResidualDecreasing(p.sqrt, p.mu, p.vTarget, root, b.lo);
    }
    if b.hi < root {
      ResidualDecreasing(p.sqrt, p.mu, p.vTarget, b.hi, root);
    }
  }

  /** The solver as written keeps a sign change between its ends at every
      iteration, provided the residual at the starting lower end is not
      exactly zero: no later lower-end residual can be zero, because a zero
      midpoint residual returns at once. */
  lemma {:induction false} BracketKeepsSignChange(p: Problem, tol: real, k: nat)
    requires p.Valid() && Bracketed(p) && p.F(p.lo) != 0.0 && 0.0 < tol && RanFor(p, tol, k)
    ensures KeepsSignChange(p, BracketAt(p, k)) && BracketAt(p, k).fLo != 0.0
  {
    if k > 0 {
      assert RanFor(p, tol, k - 1);
      BracketKeepsSignChange(p, tol, k - 1);
      var b := BracketAt(p, k - 1);
      var mid := Midpoint(b);
      var fMid := p.F(mid);
      assert fMid == ResidualAt(p, k - 1);
      assert tol <= Abs(fMid);
      assert KeepsSignChange(p, b) && fMid != 0.0;
      NarrowKeepsSignChangeUnlessLowerIsRoot(b, mid, fMid);
      var next := Narrow(b, mid, fMid);
      assert BracketAt(p, k) == next;
      assert next.fLo * next.fHi <= 0.0;
      assert next.fLo == p.F(next.lo) && next.fHi == p.F(next.hi);
      assert KeepsSignChange(p, next) && next.fLo != 0.0;
    }
  }

  /** Under the same proviso the circular-orbit radius mu / v^2 stays inside
      every bracket the solver visits. */
  lemma BracketKeepsRoot(p: Problem, tol: real, k: nat)
    requires IsSqrt(p.sqrt) && 0.0 < p.mu && 0.0 < p.vTarget
    requires p.Valid() && Bracketed(p) && p.F(p.lo) != 0.0 && 0.0 < tol && RanFor(p, tol, k)
    ensures BracketAt(p, k).lo <= CircularRadius(p.mu, p.vTarget) <= BracketAt(p, k).hi
  {
    BracketKeepsSignChange(p, tol, k);
    RootWithinSignChange(p, BracketAt(p, k));
  }

  /** Convergence of the solver as written: unless the residual at r_min is
      exactly zero, the returned radius is within half the last bracket's
      width, (r_max - r_min) / 2^iterations, of the true root mu / v^2. */
  lemma SolvedNearRoot(p: Problem, tol: real, maxIter: int, sol: (real, Info))
    requires IsSqrt(p.sqrt) && 0.0 < p.mu && 0.0 < p.vTarget && 0.0 < tol
    requires p.Valid() && Bracketed(p) && p.F(p.lo) != 0.0 && SolvedBy(p, tol, maxIter, sol)
    ensures Abs(sol.0 - CircularRadius(p.mu, p.vTarget)) <= (p.hi - p.lo) / Pow2(sol.1.iterations)
  {
    var n := sol.1.iterations;
    BracketKeepsRoot(p, tol, n - 1);
    BracketWidth(p, n - 1);
    MidpointNearEnclosedPoint(BracketAt(p, n - 1), CircularRadius(p.mu, p.vTarget));
    HalfOfQuotient(p.hi - p.lo, Pow2(n - 1));
  }

  /** The same bound for the corrected tie-break, with no proviso on the
      residual at r_min: after k narrowings the midpoint is within
      (r_max - r_min) / 2^(k + 1) of the true root. */
  lemma CorrectedMidpointNearRoot(p: Problem, tol: real, k: nat)
    requires IsSqrt(p.sqrt) && 0.0 < p.mu && 0.0 < p.vTarget
    requires p.Valid() && Bracketed(p) && 0.0 < tol && CorrectedRanFor(p, tol, k)
    ensures Abs(Midpoint(CorrectedBracketAt(p, k)) - CircularRadius(p.mu, p.vTarget))
            <= (p.hi - p.lo) / Pow2(k + 1)
  {
    CorrectedBracketKeepsRoot(p, tol, k);
    CorrectedBracketWidth(p, k);
    MidpointNearEnclosedPoint(CorrectedBracketAt(p, k), CircularRadius(p.mu, p.vTarget));
    HalfOfQuotient(p.hi - p.lo, Pow2(k));
  }

  /** The corrected brackets halve at every step, like the original ones. */
  lemma {:induction false} CorrectedBracketWidth(p: Problem, k: nat)
    requires p.Valid()
    ensures CorrectedBracketAt(p, k).hi - CorrectedBracketAt(p, k).lo == (p.hi - p.lo) / Pow2(k)
  {
    if k > 0 {
      CorrectedBracketWidth(p, k - 1);
      var b := CorrectedBracketAt(p, k - 1);
      assert CorrectedBracketAt(p, k).hi - CorrectedBracketAt(p, k).lo == (b.hi - b.lo) / 2.0;
      HalfOfQuotient(p.hi - p.lo, Pow2(k - 1));
    }
  }

  /** A point inside a bracket is within half its width of the midpoint. */
  lemma MidpointNearEnclosedPoint(b: Bracket, x: real)
    requires b.lo <= x <= b.hi
    ensures Abs(Midpoint(b) - x) <= (b.hi - b.lo) / 2.0
  {
  }
}
