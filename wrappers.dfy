/** Failure-carrying results used where the C# code throws or returns null. */
module Wrappers {

  datatype Option<+T> = None | Some(value: T)

  /** A computation that either yields a value or raises an exception with a message. */
  datatype Result<+T> = Success(value: T) | Failure(error: string)

  /** A void computation that either completes or raises an exception with a message. */
  datatype Outcome = Pass | Fail(error: string)

  /** Running a sequence of computations in order: the first exception, or all their values. */
  function Collect<T>(rs: seq<Result<T>>): Result<seq<T>>
  {
    if rs == [] then Success([])
    else if rs[0].Failure? then Failure(rs[0].error)
    else match Collect(rs[1..])
      case Success(vs) => Success([rs[0].value] + vs)
      case Failure(e) => Failure(e)
  }

  lemma {:induction false} CollectSuccess<T>(rs: seq<Result<T>>)
    ensures Collect(rs).Success? <==> forall j :: 0 <= j < |rs| ==> rs[j].Success?
    ensures Collect(rs).Success? ==>
      |Collect(rs).value| == |rs| && forall j :: 0 <= j < |rs| ==> Collect(rs).value[j] == rs[j].value
  {
    if rs != [] {
      CollectSuccess(rs[1..]);
      if rs[0].Success? && Collect(rs[1..]).Failure? {
        var j :| 0 <= j < |rs[1..]| && rs[1..][j].Failure?;
        assert rs[j + 1].Failure?;
      }
    }
  }

  lemma {:induction false} CollectFirstFailure<T>(rs: seq<Result<T>>, i: nat)
    requires i < |rs| && rs[i].Failure?
    requires forall j :: 0 <= j < i ==> rs[j].Success?
    ensures Collect(rs) == Failure(rs[i].error)
  {
    if i > 0 {
      CollectFirstFailure(rs[1..], i - 1);
    }
  }
}
