/** Failure-compatible result type shared by both cores: a Python exception
    or a C `exit(EXIT_FAILURE)` ends the computation with an error value. */
module Results {

  datatype Result<+T, +E> = Ok(value: T) | Err(error: E) {

    predicate IsFailure() {
      Err?
    }

    function PropagateFailure<U>(): Result<U, E>
      requires Err?
    {
      Err(error)
    }

    function Extract(): T
      requires Ok?
    {
      value
    }
  }

  datatype Option<+T> = None | Some(value: T)

  /** Evaluates a list of computations in order: the first error wins,
      otherwise all the values are collected. */
  function Collect<T, E>(rs: seq<Result<T, E>>): (r: Result<seq<T>, E>)
    ensures r.Ok? ==> |r.value| == |rs| && forall i :: 0 <= i < |rs| ==> rs[i] == Ok(r.value[i])
    ensures r.Err? ==> exists i :: 0 <= i < |rs| && rs[i] == Err(r.error) && forall j :: 0 <= j < i ==> rs[j].Ok?
    decreases |rs|
  {
    if |rs| == 0 then Ok([])
    else if rs[0].Err? then Err(rs[0].error)
    else
      match Collect(rs[1..])
      case Err(e) =>
        assert exists i :: 1 <= i < |rs| && rs[i] == Err(e) && forall j :: 1 <= j < i ==> rs[j].Ok?;
        Err(e)
      case Ok(rest) => Ok([rs[0].value] + rest)
  }

  /** The larger of two integers. */
  function Max(a: int, b: int): (m: int)
    ensures m >= a && m >= b
    ensures m == a || m == b
  {
    if a >= b then a else b
  }

  /** The exceptions the Python core can raise, plus the fuel bound that
      stands in for the unbounded hill climb. */
  datatype Fault =
    | IndexError          // indexing an empty or too-short list
    | KeyError            // a missing dictionary key
    | ZeroDivisionError   // a mean over an empty list
    | ValueError          // random.randint over an empty range
    | ExtremaNotFound     // "Could not find suitable extrema"
    | OutOfFuel           // the search did not settle within the fuel bound
}
