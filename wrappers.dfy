/** Failure-compatible wrappers standing in for Python's `None` and for the
    exceptions the compiler raises (`ValueError`, `IndexError`). */
module Wrappers {

  datatype Option<+T> = None | Some(value: T) {
    function GetOr(default: T): T {
      match this
      case Some(v) => v
      case None => default
    }
  }

  /** The two Python exception classes the core raises, with their messages. */
  datatype Error =
    | ValueError(message: string)
    | IndexError(message: string)

  /** Python's message for indexing a list past its end. */
  const IndexOutOfRange: string := "list index out of range"

  datatype Result<+T> = Ok(value: T) | Err(error: Error) {
    predicate IsFailure() {
      Err?
    }

    function PropagateFailure<U>(): Result<U>
      requires Err?
    {
      Err(error)
    }

    function Extract(): T
      requires Ok?
    {
      value
    }
  }

  /** A list comprehension `[f(x) for x in xs]` whose element computation may
      raise: elements are computed left to right and the first exception
      aborts the whole list. */
  function MapResult<A, B>(xs: seq<A>, f: A -> Result<B>): (r: Result<seq<B>>)
    ensures r.Ok? <==> forall i :: 0 <= i < |xs| ==> f(xs[i]).Ok?
    ensures r.Ok? ==> |r.value| == |xs| && forall i :: 0 <= i < |xs| ==> f(xs[i]) == Ok(r.value[i])
    ensures r.Err? ==> exists i :: 0 <= i < |xs| && f(xs[i]) == Err(r.error)
                                   && forall j :: 0 <= j < i ==> f(xs[j]).Ok?
  {
    if xs == [] then Ok([])
    else
      var head :- f(xs[0]);
      var tail :- MapResult(xs[1..], f);
      assert forall i :: 1 <= i < |xs| ==> xs[i] == xs[1..][i - 1];
      Ok([head] + tail)
  }

  /** Mapping over one element is applying the function to it. */
  lemma MapResultSingle<A, B>(x: A, f: A -> Result<B>)
    ensures f(x).Ok? ==> MapResult([x], f) == Ok([f(x).value])
    ensures f(x).Err? ==> MapResult([x], f) == Err(f(x).error)
  {
    assert [x][1..] == [];
    assert MapResult([], f) == Ok([]);
    if f(x).Ok? {
      assert [f(x).value] + [] == [f(x).value];
    }
  }
}
