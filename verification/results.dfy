/** Failure-compatible result types for the workbook engine.

    Python raises where this model returns `Err`: `int()` and tuple
    unpacking raise `ValueError`, `ord()` of a string that is not one
    character raises `TypeError`, and the route answers HTTP 400 when option
    3 has no reference column.
 */
module Results {

  /** Why a request is refused before any cell is written. */
  datatype Error =
    | BadInteger(text: string)   // `int(text)` rejects the text
    | BadRange(text: string)     // `start, end = part.split("-")` does not unpack into two halves
    | BadColumn(text: string)    // `ord(text.upper())` on a token that is not one letter
    | MissingRefColumn           // option 3 without a reference column

  datatype Option<+T> = None | Some(value: T)

  datatype Result<+T> = Ok(value: T) | Err(error: Error) {

    predicate IsFailure() {
      Err?
    }

    function PropagateFailure<U>(): Result<U>
      requires Err?
    {
      Err(error)
    }

    function Extract(): T
      requires Ok?
    {
      value
    }
  }

  /** Python's list comprehension `[f(x) for x in xs]` when `f` may raise:
      the results in order, or the failure of the first element that fails. */
  function MapAll<A, B>(f: A -> Result<B>, xs: seq<A>): (r: Result<seq<B>>)
    ensures r.Ok? <==> forall k :: 0 <= k < |xs| ==> f(xs[k]).Ok?
    ensures r.Ok? ==> |r.value| == |xs|
    ensures r.Ok? ==> forall k :: 0 <= k < |xs| ==> f(xs[k]) == Ok(r.value[k])
    ensures r.Err? ==> exists k :: 0 <= k < |xs| && f(xs[k]) == Err(r.error)
                                   && forall j :: 0 <= j < k ==> f(xs[j]).Ok?
    decreases |xs|
  {
    if |xs| == 0 then Ok([])
    else
      match f(xs[0])
      case Err(e) => Err(e)
      case Ok(y) =>
        match MapAll(f, xs[1..])
        case Err(e) =>
          assert exists k :: 0 <= k < |xs| && f(xs[k]) == Err(e) && forall j :: 0 <= j < k ==> f(xs[j]).Ok? by {
            var k :| 0 <= k < |xs| - 1 && f(xs[1..][k]) == Err(e) && forall j :: 0 <= j < k ==> f(xs[1..][j]).Ok?;
            assert f(xs[k + 1]) == Err(e);
            forall j | 1 <= j < k + 1
              ensures f(xs[j]).Ok?
            {
              assert xs[j] == xs[1..][j - 1];
            }
          }
          Err(e)
        case Ok(ys) =>
          Ok([y] + ys)
  }
}
