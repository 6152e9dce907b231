/** Optional values and the result of a pipeline stage that can fail.
    A fatal diagnostic followed by process termination in the compiler
    becomes an `Err` value here; the first error ends the stage. */
module Results {

  datatype Option<+T> = None | Some(value: T)

  datatype Result<+T, +E> = Ok(value: T) | Err(error: E)

  /** Puts `prefix` in front of a successful sequence result; an error passes through. */
  function PrependAll<T, E>(prefix: seq<T>, r: Result<seq<T>, E>): (r': Result<seq<T>, E>)
    ensures r'.Ok? <==> r.Ok?
    ensures r'.Ok? ==> |r'.value| == |prefix| + |r.value|
    ensures r'.Ok? ==> r'.value[..|prefix|] == prefix && r'.value[|prefix|..] == r.value
    ensures r'.Err? ==> r' == Err(r.error)
  {
    match r
    case Ok(v) => Ok(prefix + v)
    case Err(e) => Err(e)
  }

  /** Prepending in two steps is prepending the concatenation. */
  lemma PrependAllAssoc<T, E>(a: seq<T>, b: seq<T>, r: Result<seq<T>, E>)
    ensures PrependAll(a, PrependAll(b, r)) == PrependAll(a + b, r)
  {
    if r.Ok? {
      assert a + (b + r.value) == (a + b) + r.value;
    }
  }
}
