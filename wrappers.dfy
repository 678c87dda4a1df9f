/** Result and Option types for the error returns of the engine. Errors are
    carried as their message text, as anyhow errors are. */
module Wrappers {

  datatype Option<+T> = None | Some(value: T)

  datatype Result<+T> = Ok(value: T) | Err(error: string)

  /** An operation that either succeeds with no value or fails. */
  datatype Outcome = Pass | Fail(error: string)

  /** Collecting a stream of results into `Result<Vec<_>>`, as a `?` inside a
      loop or `collect::<anyhow::Result<_>>()` does: the first error in
      stream order wins, otherwise every value is kept in order. */
  function Collect<T>(rs: seq<Result<T>>): (r: Result<seq<T>>)
    ensures r.Ok? <==> forall i :: 0 <= i < |rs| ==> rs[i].Ok?
    ensures r.Ok? ==> |r.value| == |rs| && forall i :: 0 <= i < |rs| ==> r.value[i] == rs[i].value
    ensures r.Err? ==> exists i :: 0 <= i < |rs| && rs[i] == Err(r.error) && forall j :: 0 <= j < i ==> rs[j].Ok?
    decreases |rs|
  {
    if rs == [] then Ok([])
    else
      var init, last := rs[..|rs| - 1], rs[|rs| - 1];
      assert forall i :: 0 <= i < |init| ==> init[i] == rs[i];
      match Collect(init)
      case Err(e) => Err(e)
      case Ok(vs) => if last.Err? then Err(last.error) else Ok(vs + [last.value])
  }

  /** An error in a prefix of the stream is the error of the whole stream. */
  lemma {:induction false} CollectKeepsError<T>(rs: seq<Result<T>>, n: nat)
    requires n <= |rs| && Collect(rs[..n]).Err?
    ensures Collect(rs) == Collect(rs[..n])
    decreases |rs|
  {
    if n < |rs| {
      var init := rs[..|rs| - 1];
      assert init[..n] == rs[..n];
      CollectKeepsError(init, n);
    } else {
      assert rs[..n] == rs;
    }
  }
}
