/** Option and Either, the two sum types every layer of the service threads its
    outcomes through (fp-ts `Option` and `Either`, with the combinators the
    source uses: map, mapLeft, chain, bimap, fold). */
module Wrappers {

  /** `None` stands for an absent value, `Some` for a present one. */
  datatype Option<T> = None | Some(value: T)

  /** `Left` carries a failure, `Right` a success. */
  datatype Either<L, R> = Left(left: L) | Right(right: R) {

    /** Transforms the success value; a failure passes through. */
    function Map<R2>(f: R -> R2): Either<L, R2>
    {
      match this
      case Left(l) => Left(l)
      case Right(r) => Right(f(r))
    }

    /** Transforms the failure value; a success passes through. */
    function MapLeft<L2>(f: L -> L2): Either<L2, R>
    {
      match this
      case Left(l) => Left(f(l))
      case Right(r) => Right(r)
    }

    /** Transforms both sides at once. */
    function Bimap<L2, R2>(f: L -> L2, g: R -> R2): Either<L2, R2>
    {
      match this
      case Left(l) => Left(f(l))
      case Right(r) => Right(g(r))
    }

    /** Runs the next step only on success: a failure short-circuits it. */
    function Chain<R2>(f: R -> Either<L, R2>): Either<L, R2>
    {
      match this
      case Left(l) => Left(l)
      case Right(r) => f(r)
    }

    /** Collapses both sides into one value. */
    function Fold<X>(onLeft: L -> X, onRight: R -> X): X
    {
      match this
      case Left(l) => onLeft(l)
      case Right(r) => onRight(r)
    }
  }
}
