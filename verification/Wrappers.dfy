/** A value that may be missing, and a value or the error that prevented it. */
module Wrappers {
  datatype Option<T> = None | Some(value: T)

  datatype Result<T, E> = Ok(value: T) | Err(error: E)

  /** Adds what was parsed before to a parsed list. */
  function Prefixed<T, E>(before: seq<T>, r: Result<seq<T>, E>): Result<seq<T>, E> {
    match r
    case Err(e) => Err(e)
    case Ok(rest) => Ok(before + rest)
  }

  lemma PrefixedNone<T, E>(r: Result<seq<T>, E>)
    ensures Prefixed([], r) == r
  {
    if r.Ok? {
      assert [] + r.value == r.value;
    }
  }

  lemma PrefixedStep<T, E>(before: seq<T>, next: T, r: Result<seq<T>, E>)
    ensures Prefixed(before, Prefixed([next], r)) == Prefixed(before + [next], r)
  {
    if r.Ok? {
      assert before + ([next] + r.value) == before + [next] + r.value;
    }
  }
}
