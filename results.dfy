/** Optional values, results that may carry an error, and mapping with early exit. */
module Results {
  datatype Option<+T> = None | Some(value: T)

  datatype Result<+T, +E> = Ok(value: T) | Err(error: E)

  /**
   * `xs.map(f)` where `f` may throw: the results in order, or the first
   * error, which ends the mapping.
   */
  function MapAll<T, U, E>(f: T -> Result<U, E>, xs: seq<T>): (r: Result<seq<U>, E>)
    ensures r.Ok? ==> |r.value| == |xs|
  {
    if xs == [] then Ok([])
    else
      match MapAll(f, xs[..|xs| - 1])
      case Err(e) => Err(e)
      case Ok(init) =>
        match f(xs[|xs| - 1])
        case Err(e) => Err(e)
        case Ok(last) => Ok(init + [last])
  }

  /**
   * The mapping succeeds exactly when `f` succeeds on every element; then
   * result `i` is `f` of element `i`.
   */
  lemma {:induction false} MapAllEach<T, U, E>(f: T -> Result<U, E>, xs: seq<T>)
    ensures MapAll(f, xs).Ok? <==> forall i | 0 <= i < |xs| :: f(xs[i]).Ok?
    ensures MapAll(f, xs).Ok? ==> forall i | 0 <= i < |xs| :: f(xs[i]) == Ok(MapAll(f, xs).value[i])
  {
    if xs != [] {
      var init := xs[..|xs| - 1];
      MapAllEach(f, init);
      assert forall i | 0 <= i < |init| :: init[i] == xs[i];
    }
  }

  /** One failing element makes the whole mapping fail. */
  lemma MapAllFails<T, U, E>(f: T -> Result<U, E>, xs: seq<T>, i: nat)
    requires i < |xs| && f(xs[i]).Err?
    ensures MapAll(f, xs).Err?
  {
    MapAllEach(f, xs);
  }

  /** Mapping one more element of a prefix appends that element's result. */
  lemma MapAllPrefix<T, U, E>(f: T -> Result<U, E>, xs: seq<T>, i: nat)
    requires i < |xs| && MapAll(f, xs[..i]).Ok? && f(xs[i]).Ok?
    ensures MapAll(f, xs[..i + 1]) == Ok(MapAll(f, xs[..i]).value + [f(xs[i]).value])
  {
    assert xs[..i + 1][..i] == xs[..i];
  }
}
