/** Option and Result, for the source's nullable values and thrown exceptions. */
module Wrappers {

  datatype Option<+T> = None | Some(value: T)

  datatype Result<+R, +E> = Success(value: R) | Failure(error: E)

  /** A sequence of steps that stops at the first one that throws: the values of
      all steps when none fails, otherwise the first step's error. */
  function AllOrFirstError<T, E>(rs: seq<Result<T, E>>): Result<seq<T>, E>
    decreases |rs|
  {
    if rs == [] then Success([])
    else
      match AllOrFirstError(rs[..|rs| - 1])
      case Failure(e) => Failure(e)
      case Success(vs) =>
        match rs[|rs| - 1]
        case Failure(e) => Failure(e)
        case Success(v) => Success(vs + [v])
  }

  /** It succeeds exactly when every step does, with one value per step, in order. */
  lemma {:induction false} AllOrFirstErrorSuccess<T, E>(rs: seq<Result<T, E>>)
    ensures AllOrFirstError(rs).Success? <==> forall i :: 0 <= i < |rs| ==> rs[i].Success?
    ensures AllOrFirstError(rs).Success? ==>
      |AllOrFirstError(rs).value| == |rs| &&
      forall i :: 0 <= i < |rs| ==> rs[i] == Success(AllOrFirstError(rs).value[i])
    decreases |rs|
  {
    if rs != [] {
      var init := rs[..|rs| - 1];
      AllOrFirstErrorSuccess(init);
      assert forall i :: 0 <= i < |init| ==> init[i] == rs[i];
    }
  }

  /** A failure carries the error of the first step that fails. */
  lemma {:induction false} AllOrFirstErrorFailure<T, E>(rs: seq<Result<T, E>>)
    requires AllOrFirstError(rs).Failure?
    ensures exists i :: 0 <= i < |rs| && rs[i] == Failure(AllOrFirstError(rs).error) &&
                        (forall j :: 0 <= j < i ==> rs[j].Success?)
    decreases |rs|
  {
    var init := rs[..|rs| - 1];
    assert forall i :: 0 <= i < |init| ==> init[i] == rs[i];
    if AllOrFirstError(init).Failure? {
      AllOrFirstErrorFailure(init);
      var i :| 0 <= i < |init| && init[i] == Failure(AllOrFirstError(init).error) &&
               (forall j :: 0 <= j < i ==> init[j].Success?);
      assert rs[i] == Failure(AllOrFirstError(rs).error);
    } else {
      AllOrFirstErrorSuccess(init);
      assert rs[|rs| - 1] == Failure(AllOrFirstError(rs).error);
    }
  }

  /** Steps after a failure change nothing. */
  lemma {:induction false} AllOrFirstErrorPrefix<T, E>(rs: seq<Result<T, E>>, k: nat)
    requires k <= |rs| && AllOrFirstError(rs[..k]).Failure?
    ensures AllOrFirstError(rs) == AllOrFirstError(rs[..k])
    decreases |rs| - k
  {
    if k < |rs| {
      assert rs[..k + 1][..k] == rs[..k];
      AllOrFirstErrorPrefix(rs, k + 1);
    } else {
      assert rs[..k] == rs;
    }
  }
}
