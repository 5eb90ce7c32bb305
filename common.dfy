/** Small value types shared by the whole model. */
module Common {

  /** Kotlin's nullable values (`T?`). */
  datatype Option<+T> = None | Some(value: T)

  /** The outcome of a repository call that the database may abort: either the call's
      value, or the `SQLException` the database raises when a write would break a
      declared constraint (in which case the enclosing transaction is rolled back). */
  datatype Attempt<+T> = Ok(value: T) | ConstraintViolation

  /** The largest and smallest values of Kotlin's 32-bit `Int`. */
  const IntMax: int := 0x7fff_ffff
  const IntMin: int := -0x8000_0000

  predicate InIntRange(n: int) {
    IntMin <= n <= IntMax
  }
}
