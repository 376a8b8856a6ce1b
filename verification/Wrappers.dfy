/** Results and errors shared by the other modules. */
module Wrappers {

  datatype Option<+T> = None | Some(value: T)

  /** The errno values the modelled code tells apart; every other one is `Other`. */
  datatype Errno = EAGAIN | EINVAL | ENOENT | EEXIST | ENOTEMPTY | ERANGE | Other(code: int)

  datatype Result<+T, +E> = Ok(value: T) | Err(error: E) {
    predicate IsFailure() {
      Err?
    }

    function PropagateFailure<U>(): Result<U, E>
      requires Err?
    {
      Err(error)
    }

    function Extract(): T
      requires Ok?
    {
      value
    }
  }

  /** What is still to be parsed, put after what has been. */
  function Prepended<T, E>(done: seq<T>, rest: Result<seq<T>, E>): (r: Result<seq<T>, E>)
    ensures done == [] ==> r == rest
    ensures rest == Ok([]) ==> r == Ok(done)
  {
    match rest
    case Ok(values) =>
      assert [] + values == values && done + [] == done;
      Ok(done + values)
    case Err(e) => Err(e)
  }

  lemma PrependedTwice<T, E>(first: seq<T>, second: seq<T>, rest: Result<seq<T>, E>)
    ensures Prepended(first, Prepended(second, rest)) == Prepended(first + second, rest)
  {
    if rest.Ok? {
      assert first + (second + rest.value) == first + second + rest.value;
    }
  }

  lemma Associative<T>(a: seq<T>, b: seq<T>, c: seq<T>)
    ensures a + b + c == a + (b + c)
  {
  }
}
