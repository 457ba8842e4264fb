/** Failure-carrying datatypes shared by the whole model. */
module Wrappers {

  /** Python's `None`-or-value: `None` also stands for an empty dict `{}`. */
  datatype Option<+T> = None | Some(value: T)

  /** A value, or the exception the source would raise instead. */
  datatype Result<+T, +E> = Ok(value: T) | Err(error: E)

  /** Completion of a statement sequence that returns nothing: normal, or by an exception. */
  datatype Outcome<+E> = Pass | Fail(error: E)

  /**
   * A loop that collects one value per step and lets the first exception escape:
   * the values in step order, or the error of the step that raised.
   */
  function AllOk<T, E>(rs: seq<Result<T, E>>): Result<seq<T>, E> {
    if rs == [] then Ok([])
    else match AllOk(rs[..|rs| - 1])
      case Err(e) => Err(e)
      case Ok(vs) => (match rs[|rs| - 1]
        case Err(e) => Err(e)
        case Ok(v) => Ok(vs + [v]))
  }

  /** One more step: it runs only when the earlier ones succeeded. */
  lemma AllOkStep<T, E>(rs: seq<Result<T, E>>, r: Result<T, E>)
    ensures AllOk(rs).Err? ==> AllOk(rs + [r]) == AllOk(rs)
    ensures AllOk(rs).Ok? && r.Err? ==> AllOk(rs + [r]) == Err(r.error)
    ensures AllOk(rs).Ok? && r.Ok? ==> AllOk(rs + [r]) == Ok(AllOk(rs).value + [r.value])
  {
    assert (rs + [r])[..|rs|] == rs;
  }

  /** The loop completes exactly when every step does, and then it holds every step's value, in order. */
  lemma {:induction false} AllOkValues<T, E>(rs: seq<Result<T, E>>)
    ensures AllOk(rs).Ok? <==> forall i :: 0 <= i < |rs| ==> rs[i].Ok?
    ensures AllOk(rs).Ok? ==>
      |AllOk(rs).value| == |rs| && forall i :: 0 <= i < |rs| ==> AllOk(rs).value[i] == rs[i].value
  {
    if rs != [] {
      var init := rs[..|rs| - 1];
      AllOkValues(init);
      assert rs == init + [rs[|rs| - 1]];
      AllOkStep(init, rs[|rs| - 1]);
    }
  }

  /** A loop that raised reports the error of its first failing step. */
  lemma {:induction false} AllOkFirstError<T, E>(rs: seq<Result<T, E>>)
    requires AllOk(rs).Err?
    ensures exists k ::
      0 <= k < |rs| && rs[k].Err? && (forall i :: 0 <= i < k ==> rs[i].Ok?) && AllOk(rs).error == rs[k].error
  {
    var init := rs[..|rs| - 1];
    assert rs == init + [rs[|rs| - 1]];
    AllOkStep(init, rs[|rs| - 1]);
    if AllOk(init).Err? {
      AllOkFirstError(init);
      var k :| 0 <= k < |init| && init[k].Err? && (forall i :: 0 <= i < k ==> init[i].Ok?) &&
        AllOk(init).error == init[k].error;
      assert rs[k] == init[k];
    } else {
      AllOkValues(init);
    }
  }

  /** Steps after the one that raised never run. */
  lemma {:induction false} AllOkStops<T, E>(rs: seq<Result<T, E>>, more: seq<Result<T, E>>)
    requires AllOk(rs).Err?
    ensures AllOk(rs + more) == AllOk(rs)
    decreases |more|
  {
    if more == [] {
      assert rs + more == rs;
    } else {
      var init := more[..|more| - 1];
      AllOkStops(rs, init);
      assert rs + more == (rs + init) + [more[|more| - 1]];
      AllOkStep(rs + init, more[|more| - 1]);
    }
  }
}
