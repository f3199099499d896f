/**
 * The outcomes of the protocol's operations: draws from crypto/rand and the
 * errors the operations return.
 */
module Effects {

  /**
   * One call of rand.Int(rand.Reader, Order): either a value, which the
   * library promises lies in [0, Order), or a failure of the entropy source.
   */
  datatype Draw = Drawn(n: nat) | Exhausted

  predicate DrawBelow(d: Draw, bound: int)
  {
    d.Drawn? ==> d.n < bound
  }

  /**
   * The errors of the core: the random source failed ("failed to generate
   * random value"), an inverse did not exist ("failed to compute inverse"),
   * or the non-membership self-check failed ("invalid witness generated").
   */
  datatype Error = RandomFailure | NoInverse | InvalidWitness

  /** A Go `(*T, error)` return: a value or an error, never both. */
  datatype Result<T> = Success(value: T) | Failure(error: Error)
}
