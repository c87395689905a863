/** Failure-carrying values used throughout the model.

    The Python code signals failure by raising; each exception class that the
    modelled code can raise becomes one constructor of `Error`, and every
    operation that can raise returns a `Result`.
 */
module Outcomes {

  /** The conventional present/absent value (Python's `None` or a value). */
  datatype Option<+T> = None | Some(value: T)

  /** The exception classes the modelled code can raise. */
  datatype Error =
    | AssertionError   // a failed `assert` (text mismatch in reconciliation)
    | KeyError         // a hard `dict[...]` lookup of a missing key
    | IndexError       // a list index past the end
    | ValueError       // an explicit `raise ValueError` or a failed tuple unpacking
    | AttributeError   // a method called on `None`
    | RecomException   // the repository's own exception class

  /** A value or the exception that was raised instead. */
  datatype Result<+T> = Ok(value: T) | Err(error: Error) {
    predicate IsFailure() {
      Err?
    }

    function PropagateFailure<U>(): Result<U>
      requires Err?
    {
      Err(error)
    }

    function Extract(): T
      requires Ok?
    {
      value
    }
  }

  /** A loop that applies `f` to each item in turn; the first failure ends
      it. */
  function Each<T, U>(f: T -> Result<U>, xs: seq<T>): (r: Result<seq<U>>)
    ensures r.Ok? ==> |r.value| == |xs|
  {
    if |xs| == 0 then Ok([])
    else
      var y :- f(xs[0]);
      var rest :- Each(f, xs[1..]);
      Ok([y] + rest)
  }

  /** The loop succeeds exactly when every item does, and then holds each
      item's result; when it fails, it fails as some item does. */
  lemma {:induction false} EachSpec<T, U>(f: T -> Result<U>, xs: seq<T>)
    ensures Each(f, xs).Ok? <==> forall i :: 0 <= i < |xs| ==> f(xs[i]).Ok?
    ensures Each(f, xs).Ok? ==> forall i :: 0 <= i < |xs| ==> f(xs[i]) == Ok(Each(f, xs).value[i])
    ensures Each(f, xs).Err? ==> exists i :: 0 <= i < |xs| && f(xs[i]) == Err(Each(f, xs).error)
  {
    if |xs| > 0 {
      EachSpec(f, xs[1..]);
      assert forall i :: 0 <= i < |xs| - 1 ==> xs[1..][i] == xs[i + 1];
      if f(xs[0]).Ok? && Each(f, xs[1..]).Err? {
        var i :| 0 <= i < |xs| - 1 && f(xs[1..][i]) == Err(Each(f, xs[1..]).error);
        assert f(xs[i + 1]) == Err(Each(f, xs).error);
      }
    }
  }
}
