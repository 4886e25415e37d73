/** Failure-carrying result types shared by the whole model. */
module Wrappers {

  /** A value that may be absent (Python's `None`). */
  datatype Option<+T> = None | Some(value: T)

  /** The outcome of an operation that may raise. */
  datatype Result<+T, +E> = Success(value: T) | Failure(error: E)
}

/**
 * Numbers with an infinite element, as Python's `float('inf')` is used by the
 * source: distances are naturals or +infinity, scores are integers or -infinity.
 */
module Infinity {

  /** A distance: a natural number or +infinity. */
  datatype Ext = Fin(n: nat) | Inf {

    predicate Le(other: Ext) {
      match (this, other)
      case (_, Inf) => true
      case (Inf, Fin(_)) => false
      case (Fin(a), Fin(b)) => a <= b
    }

    predicate Lt(other: Ext) {
      !other.Le(this)
    }

    /** `x + 1` where `inf + 1 == inf`. */
    function Succ(): Ext {
      match this
      case Fin(a) => Fin(a + 1)
      case Inf => Inf
    }

    function Plus(other: Ext): Ext {
      match (this, other)
      case (Fin(a), Fin(b)) => Fin(a + b)
      case _ => Inf
    }
  }

  /** A score: an integer or -infinity. */
  datatype Score = NegInf | Val(v: int) {

    /** Strictly greater, with `-inf > -inf` false as for floats. */
    predicate Gt(other: Score) {
      match (this, other)
      case (NegInf, _) => false
      case (Val(_), NegInf) => true
      case (Val(a), Val(b)) => a > b
    }

    predicate Ge(other: Score) {
      !other.Gt(this)
    }
  }
}
