/** Option and Result, the failure-carrying values used throughout the model.
    A Python exception raised by the modelled code becomes a `Err` value. */
module Wrappers {

  datatype Option<+T> = None | Some(value: T) {
    predicate IsFailure() {
      None?
    }

    function PropagateFailure<U>(): Option<U>
      requires None?
    {
      None
    }

    function Extract(): T
      requires Some?
    {
      value
    }

    function GetOr(default: T): T {
      match this
      case Some(v) => v
      case None => default
    }

    /** The value, or the given error where there is none. */
    function ToResultOr<E>(error: E): Result<T, E> {
      match this
      case Some(v) => Ok(v)
      case None => Err(error)
    }
  }

  datatype Result<+T, +E> = Ok(value: T) | Err(error: E) {
    predicate IsFailure() {
      Err?
    }

    function PropagateFailure<U>(): Result<U, E>
      requires Err?
    {
      Err(error)
    }

    function Extract(): T
      requires Ok?
    {
      value
    }
  }

  /** All the values of a run of results, or the error of the first that failed. */
  function Collect<T, E>(rs: seq<Result<T, E>>): (r: Result<seq<T>, E>)
    ensures r.Ok? <==> forall j :: 0 <= j < |rs| ==> rs[j].Ok?
    ensures r.Ok? ==> |r.value| == |rs| && forall j :: 0 <= j < |rs| ==> rs[j] == Ok(r.value[j])
    ensures r.Err? ==> exists j :: 0 <= j < |rs| && rs[j] == Err(r.error) && forall i :: 0 <= i < j ==> rs[i].Ok?
    decreases |rs|
  {
    if rs == [] then Ok([])
    else
      var first :- rs[0];
      var rest := Collect(rs[1..]);
      assert forall j :: 1 <= j < |rs| ==> rs[j] == rs[1..][j - 1];
      match rest
      case Err(e) =>
        assert exists j :: 1 <= j < |rs| && rs[j] == Err(e) && forall i :: 0 <= i < j ==> rs[i].Ok? by {
          var j :| 0 <= j < |rs[1..]| && rs[1..][j] == Err(e) && forall i :: 0 <= i < j ==> rs[1..][i].Ok?;
          assert rs[j + 1] == Err(e);
          assert forall i :: 1 <= i < j + 1 ==> rs[i] == rs[1..][i - 1];
        }
        Err(e)
      case Ok(vs) => Ok([first] + vs)
  }

  /** Lists whose successes agree place by place collect to the same success. */
  lemma CollectAgree<T, E>(rs: seq<Result<T, E>>, qs: seq<Result<T, E>>)
    requires |rs| == |qs|
    requires forall j :: 0 <= j < |rs| ==> (rs[j].Ok? <==> qs[j].Ok?) && (rs[j].Ok? ==> rs[j] == qs[j])
    ensures Collect(rs).Ok? <==> Collect(qs).Ok?
    ensures Collect(rs).Ok? ==> Collect(rs) == Collect(qs)
  {
    if Collect(rs).Ok? {
      var a, b := Collect(rs).value, Collect(qs).value;
      forall j | 0 <= j < |a| ensures a[j] == b[j] {
        assert rs[j] == Ok(a[j]) && qs[j] == Ok(b[j]);
      }
    }
  }
}
