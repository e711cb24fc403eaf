# orbital-relations in Dafny

A model of the `orbital_relations` library, a small two-body orbital mechanics package, with proofs about it. The model has two parts:

- **Kepler relations** (`kepler.dfy`): `circular_velocity`, `escape_velocity`, `orbital_period` and `specific_orbital_energy`. Each one runs the same guard clauses and then evaluates one formula. They are modelled as pure functions that return `Result<real, KeplerError>`.
- **Bisection root finder** (`rootfind.dfy`): `solve_radius_for_circular_velocity`. It finds the orbital radius whose circular velocity equals a target velocity. It is modelled as imperative code:
  - `CheckArguments` is the validation cascade. `CheckTypes` holds the type checks: a loop over the ordered (name, value) pairs, as in the source, then the `max_iter` check. `CheckDomain` holds the domain checks as straight-line guards.
  - `SolveRadiusForCircularVelocity` builds the residual and adds the bracketing check. The source's nested `residual` closure, which captures `mu` and `v_target`, is the `Problem` value and its member function `F`, which is `Residual` with `mu` and `v_target` bound.
  - `Bisect` is the bounded loop. It updates `r_min`, `r_max`, `f_min` and `f_max` in place and appends to the residual history.

Supporting modules:
- `wrappers.dfy` holds `Option`, `Result` and `FirstFailure`. `FirstFailure` captures "the first failing check in order decides the error" for the solver's type and domain checks.
- `numeric.dfy` holds the argument model and the square root.

Modelling choices:
- **Arguments.** An argument is an `Arg`: `Int(i)`, `Float(x)` or `NonNumeric`. This makes the source's `isinstance` checks exact. Five arguments accept an int or a float. `max_iter` accepts only an int.
- **Arithmetic.** Numbers are exact `real`s.
- **Square root.** The host's `math.sqrt` is a function parameter `sqrt: real -> real`. Where a property depends on it, the member requires `IsSqrt(sqrt)`: on non-negative arguments `sqrt` is non-negative and squares back to its argument. Multiplicativity, strict monotonicity, positivity and `sqrt(y*y) == y` are proved from that.
- **Pi.** `math.pi` is the constant `Kepler.PI`, the exact value of the IEEE double nearest to pi. So `PI > 0` is proved, not assumed.

The solver's result is specified declaratively:
- `BracketAt(p, k)` is the bracket at the start of iteration `k`. `MidpointAt` and `ResidualAt` are its midpoint and the residual there. `ResidualsUpTo(p, k)` lists the residuals of the first `k` iterations.
- `RanFor(p, tol, k)` says that none of the first `k` residuals was within tolerance.
- `SolvedBy` is everything a successful return promises:
  - `1 <= iterations <= max_iter`;
  - the residual history is the residuals of those iterations, in order;
  - the radius is the last midpoint;
  - no earlier residual is within tolerance;
  - the last residual is within tolerance whenever the limit was not used up.
- The lemmas prove the bracket properties about `BracketAt`: it stays nested, it halves each step, and the end residuals are tracked.
- They also prove convergence: unless the residual at `r_min` is exactly zero, the root mu / v^2 stays in every bracket. The returned radius is then within (r_max - r_min) / 2^iterations of it.

Check order, as the code has it:
- The ordering check `r_max <= r_min` (src/orbital_relations/rootfind.py:58-59) comes before the tolerance check `tol <= 0` (src/orbital_relations/rootfind.py:61-62).
- In the relations, `mu` is checked before the radius or semi-major axis (src/orbital_relations/kepler.py:27-31).
- A root exactly at `r_min` passes the bracketing check but is lost by the narrowing step at src/orbital_relations/rootfind.py:85-90 (see Findings).

## Model

| member | source | states |
|---|---|---|
| `Wrappers.FirstFailure` | src/orbital_relations/rootfind.py:35-62 | The reported error comes from a failing check with no failing check before it. Nothing is reported exactly when every check passes. |
| `Wrappers.FirstFailureAt` | src/orbital_relations/rootfind.py:35-62 | The converse: if check k fails and all earlier checks pass, check k's error is reported. |
| `Kepler.CheckInputs` | src/orbital_relations/kepler.py:24-31 | TypeError exactly when either argument is non-numeric, whatever the other values are. The mu error exactly when both are numeric and mu <= 0. The length error exactly when both are numeric, mu > 0 and the length is <= 0. No error exactly when all are valid. |
| `Kepler.CircularVelocity` | src/orbital_relations/kepler.py:24-32 | Fails exactly when the guards fail, with their error. On success the velocity is positive and its square is mu / r. |
| `Kepler.EscapeVelocity` | src/orbital_relations/kepler.py:48-56 | Same guards and errors. On success the velocity is positive and its square is 2 mu / r. |
| `Kepler.OrbitalPeriod` | src/orbital_relations/kepler.py:72-80 | Same guards, reporting the semi-major axis. On success the period is positive and its square is 4 pi^2 a^3 / mu. |
| `Kepler.SpecificOrbitalEnergy` | src/orbital_relations/kepler.py:96-104 | Same guards. On success the energy is strictly negative and energy * 2a == -mu. |
| `Kepler.EscapeIsSqrtTwoTimesCircular` | src/orbital_relations/kepler.py:32-56 | Escape and circular velocity fail on the same inputs with the same error. Otherwise escape velocity == sqrt(2) * circular velocity, exactly. |
| `Kepler.EscapeExceedsCircular` | src/orbital_relations/kepler.py:32-56 | For valid inputs, 0 < circular velocity < escape velocity. |
| `Kepler.PeriodTimesCircularVelocity` | src/orbital_relations/kepler.py:32-80 | For valid inputs, the period at a times the circular velocity at radius a is 2 pi a, the circumference. |
| `Kepler.EnergyIsMinusHalfCircularSquared` | src/orbital_relations/kepler.py:96-104 | For valid inputs, specific energy == -(v_c^2)/2, where v_c is the circular velocity at radius a. |
| `RootFind.TypeChecksPassIff` | src/orbital_relations/rootfind.py:35-46 | The ordered type checks report nothing exactly when the five numeric arguments are int or float and max_iter is an int. |
| `RootFind.DomainChecksPassIff` | src/orbital_relations/rootfind.py:49-62 | The ordered domain checks report nothing exactly when mu, v_target and tol are positive and 0 < r_min < r_max. |
| `RootFind.CheckTypes` | src/orbital_relations/rootfind.py:35-46 | The TypeError names the first non-numeric argument in the order mu, v_target, r_min, r_max, tol, and after those a non-int max_iter. No error exactly when all are well typed. |
| `RootFind.CheckDomain` | src/orbital_relations/rootfind.py:49-62 | The ValueError is the first failing check in the order mu, v_target, radii, ordering, tol. No error exactly when all values are in the domain. It never reports the bracket error. |
| `RootFind.CheckArguments` | src/orbital_relations/rootfind.py:35-62 | Type checks come first and decide the error when one fails. Only then does the first failing domain check decide the ValueError. No error exactly when every check passes. The bracket error is never raised here. |
| `RootFind.SolveRadiusForCircularVelocity` | src/orbital_relations/rootfind.py:9-93 | The validation errors come in cascade order. "Not bracketed" is raised exactly when the arguments are valid and residual(r_min) * residual(r_max) > 0 (a product of 0 passes). UnboundLocalError exactly when the interval is bracketed and max_iter <= 0. Otherwise the call succeeds with a result satisfying `SolvedBy`. |
| `RootFind.Bisect` | src/orbital_relations/rootfind.py:74-93 | max_iter <= 0 gives UnboundLocalError. Otherwise it succeeds with `SolvedBy`: 1 <= iterations <= max_iter, one residual per iteration in order, radius = last midpoint, an exit at the first residual within tolerance, or exhaustion returning the last midpoint without raising. |
| `RootFind.ResidualsUpTo` | src/orbital_relations/rootfind.py:74-80 | The history after k iterations has k entries, and entry i is the residual at iteration i's midpoint. |
| `RootFind.Bracketed` | src/orbital_relations/rootfind.py:71-72 | The bracketing check passes: residual(r_min) * residual(r_max) is not > 0. `RootFind.SolveRadiusForCircularVelocity` raises "not bracketed" exactly when it fails. |
| `RootFind.Narrow` | src/orbital_relations/rootfind.py:85-90 | One narrowing step. It keeps the lower half with the midpoint residual as f_max exactly when `KeepLower` holds (f_min * f_mid < 0, strict), and otherwise the upper half with the midpoint residual as f_min. `RootFind.BracketWidth`, `RootFind.BracketShrinks` and `RootFind.NarrowKeepsSignChangeUnlessLowerIsRoot` state its properties. |
| `RootFind.BracketAt` | src/orbital_relations/rootfind.py:77-90 | Every bracket satisfies original r_min <= r_min < r_max <= original r_max. |
| `RootFind.BracketTracksResiduals` | src/orbital_relations/rootfind.py:68-90 | f_min and f_max always equal the residuals at r_min and r_max. |
| `RootFind.BracketWidth` | src/orbital_relations/rootfind.py:77-90 | After k narrowings the width is the original width divided by 2^k. |
| `RootFind.BracketShrinks` | src/orbital_relations/rootfind.py:85-90 | r_min never decreases and r_max never increases across iterations. |
| `RootFind.SolvedRadiusInside` | src/orbital_relations/rootfind.py:78-93 | The returned radius lies strictly inside its iteration's bracket and strictly inside the original interval. |
| `RootFind.SolutionIsUnique` | src/orbital_relations/rootfind.py:77-93 | `SolvedBy` determines the radius, the iteration count and the residual history completely. |
| `RootFind.Residual` | src/orbital_relations/rootfind.py:65-66 | The nested residual sqrt(mu / r) - v_target. `Problem.F` is the same function with mu and v_target bound, as the closure binds them. Its properties are stated by `RootFind.ResidualDecreasing` and `RootFind.ResidualVanishesAtCircularRadius`. |
| `RootFind.ResidualDecreasing` | src/orbital_relations/rootfind.py:65-66 | The residual sqrt(mu/r) - v_target is strictly decreasing in r. |
| `RootFind.ResidualVanishesAtCircularRadius` | src/orbital_relations/rootfind.py:65-66 | The residual is 0 exactly at r = mu / v_target^2. |
| `RootFind.RootWithinSignChange` | src/orbital_relations/rootfind.py:65-72 | If the residuals kept for a bracket's ends are the true ones and their product is <= 0, then mu / v^2 lies in the bracket. |
| `RootFind.NarrowKeepsSignChangeUnlessLowerIsRoot` | src/orbital_relations/rootfind.py:85-90 | A non-converging step keeps f_min * f_max <= 0 whenever f_min != 0. |
| `RootFind.BracketKeepsSignChange` | src/orbital_relations/rootfind.py:68-90 | If residual(r_min) != 0 initially, every bracket reached without convergence keeps the true end residuals, a product <= 0, and a non-zero f_min. |
| `RootFind.BracketKeepsRoot` | src/orbital_relations/rootfind.py:68-90 | Under the same proviso, mu / v^2 lies in every bracket reached without convergence. |
| `RootFind.SolvedNearRoot` | src/orbital_relations/rootfind.py:68-93 | Under the same proviso, the returned radius is within (r_max - r_min) / 2^iterations of mu / v^2. |
| `RootFind.LowerEndpointRootIsLost` | src/orbital_relations/rootfind.py:68-90 | With mu = v_target = r_min = 1 and r_max = 7 the residual at r_min is 0 and the bracketing check passes. For any tol <= 0.5 the result still uses all max_iter iterations and has radius >= 4. |
| `RootFind.NarrowCorrectedKeepsSignChange` | src/orbital_relations/rootfind.py:85-90 | With the tie sent to the lower half, every non-converging step keeps f_min * f_max <= 0, a zero f_min included. |
| `RootFind.NarrowCorrected` | src/orbital_relations/rootfind.py:85-90 | The corrected step: the tie goes to the lower half (f_min * f_mid <= 0). `RootFind.NarrowCorrectedKeepsSignChange` states its property. |
| `RootFind.CorrectedBracketAt` | src/orbital_relations/rootfind.py:77-90 | With the corrected tie-break, every bracket still lies inside the original interval, with r_min < r_max. |
| `RootFind.CorrectedBracketKeepsSignChange` | src/orbital_relations/rootfind.py:68-90 | With the corrected tie-break, every bracket reached without convergence keeps the true end residuals and a product <= 0, with no proviso on residual(r_min). |
| `RootFind.CorrectedBracketKeepsRoot` | src/orbital_relations/rootfind.py:68-90 | With the corrected tie-break, mu / v^2 lies in every bracket reached without convergence, a root at r_min included. |
| `RootFind.CorrectedBracketWidth` | src/orbital_relations/rootfind.py:77-90 | With the corrected tie-break, the width after k narrowings is the original width divided by 2^k. |
| `RootFind.CorrectedMidpointNearRoot` | src/orbital_relations/rootfind.py:77-90 | With the corrected tie-break, the k-th midpoint is within (r_max - r_min) / 2^(k+1) of mu / v^2, with no proviso. |

## Left out

- Floating-point rounding. Every quantity is an exact real and the square root is exact. So concrete values such as the ~7.67 km/s circular velocity at 400 km altitude are not modelled. The same goes for the 1e-6 relative match of the solver against mu / v^2 and the claim that the interval [1, 2] m is unbracketed for Earth.
- `RootFind.SolvedNearRoot`: proves convergence to mu / v^2 only when the residual at r_min is not exactly zero. The source's tie-break loses a root at r_min (see Findings), so nothing stronger holds.
- NaN and infinity. `Float` holds only finite exact reals, so every guard and formula is total. In the source a NaN passes every `<= 0` guard (src/orbital_relations/rootfind.py:49-62, src/orbital_relations/kepler.py:27-31), and the relations return nan. In the solver, a NaN mu, v_target, r_min or r_max gives NaN residuals, which pass the bracketing check and fill all max_iter iterations. With a NaN tol the bracketing check at src/orbital_relations/rootfind.py:71 still applies. On a bracketed interval none of the residuals is within tolerance, so all max_iter iterations run. With max_iter <= 0, every NaN case that passes the bracketing check raises UnboundLocalError. An infinite argument is not modelled either: `circular_velocity(1.0, inf)` returns 0.0 (src/orbital_relations/kepler.py:32) and `specific_orbital_energy(1.0, inf)` returns -0.0 (src/orbital_relations/kepler.py:104). So the `0.0 < res.value` ensures of `Kepler.CircularVelocity` and the `res.value < 0.0` ensures of `Kepler.SpecificOrbitalEnergy` do not describe such inputs. The model has no such input, so the "no error exactly when in the domain" contracts of `RootFind.CheckDomain` and `Kepler.CheckInputs` say nothing about it.
- OverflowError. The source raises it where the model returns `Success` or a result:
  - `a**3` (src/orbital_relations/kepler.py:80) raises it for a float above about 5.6e102.
  - `/` raises it when an int too large for a float meets a float operand, or when an int/int quotient leaves the float range. The sites are src/orbital_relations/kepler.py:32, 56, 80 and 104, and src/orbital_relations/rootfind.py:66.
  - `0.5 * (r_min + r_max)` (src/orbital_relations/rootfind.py:78) raises it for int radii too large for a float.
- The `bool`-is-`int` behaviour of `isinstance`, and the variety of Python objects. Every non-number is `NonNumeric`, and booleans are not modelled.
- Error message texts. Errors are modelled by kind (TypeError, ValueError, UnboundLocalError) with the offending parameter or the failed condition.
- Default arguments. `tol=1e-10` and `max_iter=100` appear as `RootFind.DEFAULT_TOL` and `RootFind.DEFAULT_MAX_ITER`. The method takes both arguments explicitly.
- The square root's own domain error. Every call the library makes passes a positive argument, so the model's `sqrt` is total.
- The split of the solver across five methods. `CheckTypes`, `CheckDomain`, `CheckArguments`, `SolveRadiusForCircularVelocity` and `Bisect` together are the one source function, in its order.
- `src/orbital_relations/run_example.py` is not part of this model. It only calls the library and prints.
- `src/orbital_relations/__init__.py` is not part of this model. It only re-exports the relations, and it does not export the solver that the tests import from the package.
- `RootFind.SolveRadiusForCircularVelocity`: keeps the source's tie-break. The corrected narrowing and its brackets are defined and proved beside it, but the solver does not use them.

## Findings

| source | as written | input that shows it | evidently intended | confidence | as-written member | corrected member |
|---|---|---|---|---|---|---|
| src/orbital_relations/rootfind.py:85-90 | `f_min * f_mid < 0` sends the search to the upper half whenever f_min is exactly 0, even though the bracketing check lets a zero endpoint residual pass. | mu = 1, v_target = 1, r_min = 1, r_max = 7, tol = 0.1. residual(1) = 0, so the check passes. The first midpoint 4 has residual -0.5, and the bracket moves to [4, 7]. No later midpoint comes within 0.5 of zero. The call returns a radius >= 4 after max_iter iterations, although the root is 1. | A root at the lower end is kept: the tie goes to the lower half (`<= 0`), so the ends keep a sign change. | high, not executed | `RootFind.LowerEndpointRootIsLost` | `RootFind.CorrectedMidpointNearRoot` |
