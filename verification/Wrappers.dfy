/** Shared types and small functions. */
module Wrappers {

  datatype Option<+T> = None | Some(value: T)

  datatype Result<+T> = Ok(value: T) | Err

  type byte = b: int | 0 <= b < 256

  function Min(a: nat, b: nat): nat { if a <= b then a else b }

  /** A mark. A definition of the form `forall y :: Unfold(y) && y == x ==> P(y)`
      says P(x), but keeps P folded up except where `Unfold(x)` is mentioned. */
  predicate Unfold<T>(x: T) { true }
}
