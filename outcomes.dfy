/** Success-or-failure values standing for Python's None and raised exceptions. */
module Outcomes {

  datatype Option<+T> = None | Some(value: T) {
    function GetOr(default: T): T {
      match this
      case Some(v) => v
      case None => default
    }
  }

  datatype Result<+T, +E> = Success(value: T) | Failure(error: E)

  /** The Python exceptions the modelled code can raise. */
  datatype Error = ZeroDivisionError | ValueError(message: string)

  /** The first attempt that succeeded, in order; None when every attempt failed. */
  function FirstSome<T>(attempts: seq<Option<T>>): (r: Option<T>)
    ensures r.Some? <==> exists i :: 0 <= i < |attempts| && attempts[i].Some?
    ensures r.Some? ==> exists i :: 0 <= i < |attempts| && attempts[i] == r &&
                                    forall j :: 0 <= j < i ==> attempts[j].None?
  {
    if attempts == [] then None
    else if attempts[0].Some? then attempts[0]
    else
      var r := FirstSome(attempts[1..]);
      assert r.Some? ==> exists i :: 1 <= i < |attempts| && attempts[i] == r &&
                                     forall j :: 0 <= j < i ==> attempts[j].None? by {
        if r.Some? {
          var i :| 0 <= i < |attempts[1..]| && attempts[1..][i] == r &&
                   forall j :: 0 <= j < i ==> attempts[1..][j].None?;
          assert attempts[i + 1] == r;
          assert forall j :: 0 <= j < i + 1 ==> attempts[j].None? by {
            forall j | 0 <= j < i + 1 ensures attempts[j].None? {
              if j > 0 { assert attempts[j] == attempts[1..][j - 1]; }
            }
          }
        }
      }
      assert (exists i :: 0 <= i < |attempts| && attempts[i].Some?) ==> r.Some? by {
        if exists i :: 0 <= i < |attempts| && attempts[i].Some? {
          var i :| 0 <= i < |attempts| && attempts[i].Some?;
          assert attempts[1..][i - 1].Some?;
        }
      }
      r
  }
}
