/** A failure-compatible result; the compiler's error texts are not kept. */
module Results {
  datatype Result<+T> = Ok(value: T) | Err {
    predicate IsFailure() {
      Err?
    }

    function PropagateFailure<U>(): Result<U>
      requires Err?
    {
      Err
    }

    function Extract(): T
      requires Ok?
    {
      value
    }
  }

  /** Puts `p` in front of a successful sequence result. */
  function Prepend<T>(p: seq<T>, r: Result<seq<T>>): Result<seq<T>> {
    if r.Err? then Err else Ok(p + r.value)
  }

  lemma PrependTwice<T>(p: seq<T>, q: seq<T>, r: Result<seq<T>>)
    ensures Prepend(p, Prepend(q, r)) == Prepend(p + q, r)
  {
    if r.Ok? {
      assert p + (q + r.value) == p + q + r.value;
    }
  }

  lemma PrependNothing<T>(r: Result<seq<T>>)
    ensures Prepend([], r) == r
  {
    if r.Ok? {
      assert [] + r.value == r.value;
    }
  }
}
