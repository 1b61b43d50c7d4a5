/** Wrappers and collection helpers shared by the remote-transfer modules. */
module Wrappers {

  /** An optional value: the shared connection a factory may or may not hold. */
  datatype Option<+T> = None | Some(value: T)

  /** The outcome of an operation that can fail with an error of type E. */
  datatype Result<+R, +E> = Success(value: R) | Failure(error: E)

  /** The elements of a sequence, as a set. */
  function Elems<T(==)>(xs: seq<T>): (elems: set<T>) {
    set x | x in xs
  }
}
