/** Option and Result for the library's error paths, and the "first failing
    check decides the error" rule that the solver's type and domain checks
    follow. */
module Wrappers {

  datatype Option<+T> = None | Some(value: T)

  /** The outcome of a call that either returns a value or raises an error. */
  datatype Result<+T, +E> = Success(value: T) | Failure(error: E)

  /** Runs an ordered list of guard clauses: each pair is (check fails, error
      it raises). The result is the error of the first failing check, or None
      when every check passes. */
  function FirstFailure<E(==)>(checks: seq<(bool, E)>): (r: Option<E>)
    ensures r.None? <==> forall i :: 0 <= i < |checks| ==> !checks[i].0
    ensures r.Some? ==>
      exists i :: 0 <= i < |checks| && checks[i].0 && checks[i].1 == r.value &&
        forall j :: 0 <= j < i ==> !checks[j].0
  {
    if |checks| == 0 then None
    else if checks[0].0 then Some(checks[0].1)
    else
      var rest := FirstFailure(checks[1..]);
      assert forall i :: 1 <= i < |checks| ==> checks[i] == checks[1..][i - 1];
      rest
  }

  /** The converse direction: when check k fails and every earlier one passes,
      check k's error is the one reported. */
  lemma {:induction false} FirstFailureAt<E>(checks: seq<(bool, E)>, k: nat)
    requires k < |checks| && checks[k].0
    requires forall j :: 0 <= j < k ==> !checks[j].0
    ensures FirstFailure(checks) == Some(checks[k].1)
  {
    if k > 0 {
      assert checks[1..][k - 1] == checks[k];
      FirstFailureAt(checks[1..], k - 1);
    }
  }
}
