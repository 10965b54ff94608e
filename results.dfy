/** Option and Result, the two sum types every module of the model returns. */
module Results {

  datatype Option<+T> = None | Some(value: T)

  /** Rust's `Result<T, E>`: `Ok` carries the value, `Err` the error. */
  datatype Result<+T, +E> = Ok(value: T) | Err(error: E)

  /**
   * `collect::<Result<Vec<_>, _>>()`: every value in order when all are
   * `Ok`, otherwise the error of the first `Err`.
   */
  function Collect<T, E>(rs: seq<Result<T, E>>): (r: Result<seq<T>, E>)
    ensures r.Ok? <==> forall i :: 0 <= i < |rs| ==> rs[i].Ok?
    ensures r.Ok? ==> |r.value| == |rs| && forall i :: 0 <= i < |rs| ==> rs[i] == Ok(r.value[i])
    ensures r.Err? ==> exists k :: 0 <= k < |rs| && rs[k] == Err(r.error) && forall i :: 0 <= i < k ==> rs[i].Ok?
  {
    if rs == [] then Ok([])
    else
      match rs[0]
      case Err(e) => Err(e)
      case Ok(first) =>
        match Collect(rs[1..])
        case Err(e) =>
          CollectFirstError(rs, e);
          Err(e)
        case Ok(rest) => Ok([first] + rest)
  }

  /** The first failure of the tail, behind an `Ok` head, is the first failure of the whole. */
  lemma CollectFirstError<T, E>(rs: seq<Result<T, E>>, e: E)
    requires |rs| > 0 && rs[0].Ok?
    requires exists k :: 0 <= k < |rs| - 1 && rs[1..][k] == Err(e) && forall i :: 0 <= i < k ==> rs[1..][i].Ok?
    ensures exists k :: 0 <= k < |rs| && rs[k] == Err(e) && forall i :: 0 <= i < k ==> rs[i].Ok?
  {
    var k :| 0 <= k < |rs| - 1 && rs[1..][k] == Err(e) && forall i :: 0 <= i < k ==> rs[1..][i].Ok?;
    assert rs[k + 1] == Err(e);
    forall i | 0 <= i < k + 1 ensures rs[i].Ok? {
      if i > 0 {
        assert rs[i] == rs[1..][i - 1];
      }
    }
  }
}
