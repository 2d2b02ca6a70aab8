/** Outcomes of the operations: a value, or the Python exception the
    original code would raise instead. */
module Results {

  datatype Option<+T> = None | Some(value: T)

  /** The exceptions the resource loaders can raise, by Python class. */
  datatype Error =
    | FileNotFoundError(path: string)
    | IsADirectoryError(path: string)
    | NotADirectoryError(path: string)
    | ValueError(message: string)
    | KeyError(key: string)
    /** `None.endswith(...)`: a tag lacks its locator attribute. Python's
        message is the same for every tag; the payload naming the missing
        attribute is this model's own label. */
    | AttributeError(attribute: string)

  datatype Result<+T> = Ok(value: T) | Err(error: Error) {

    predicate IsFailure() {
      Err?
    }

    function PropagateFailure<U>(): Result<U>
      requires Err?
    {
      Err(error)
    }

    function Extract(): T
      requires Ok?
    {
      value
    }
  }

  /** `[f(x) for x in xs]` where every `f` may raise: the results in order,
      or the error of the first `x` whose `f` fails. */
  function MapAll<A, B>(xs: seq<A>, f: A -> Result<B>): (r: Result<seq<B>>)
    ensures r.Ok? <==> forall i :: 0 <= i < |xs| ==> f(xs[i]).Ok?
    ensures r.Ok? ==> |r.value| == |xs| && forall i :: 0 <= i < |xs| ==> f(xs[i]) == Ok(r.value[i])
    ensures r.Err? ==> exists i :: (0 <= i < |xs| && f(xs[i]) == Err(r.error)
      && forall j :: 0 <= j < i ==> f(xs[j]).Ok?)
  {
    if |xs| == 0 then Ok([])
    else
      var first :- f(xs[0]);
      var rest := MapAll(xs[1..], f);
      assert forall i :: 0 < i < |xs| ==> xs[i] == xs[1..][i - 1];
      if rest.Err? then
        var k :| 0 <= k < |xs[1..]| && f(xs[1..][k]) == Err(rest.error)
          && forall j :: 0 <= j < k ==> f(xs[1..][j]).Ok?;
        assert f(xs[k + 1]) == Err(rest.error);
        Err(rest.error)
      else Ok([first] + rest.value)
  }
}
