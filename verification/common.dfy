/** Small shared vocabulary: an optional value (Swift's `T?`), non-negative
    reals and the two-argument maximum. */
module Common {

  /** Swift's `Optional<T>`: `None` is `nil`. */
  datatype Option<+T> = None | Some(value: T)

  /** Reals that cannot be negative; used for geodesic distances. */
  type NonNegReal = r: real | r >= 0.0

  /** Swift's `max(a, b)` on doubles, without IEEE rounding. */
  function Max(a: real, b: real): (m: real)
    ensures m >= a && m >= b
    ensures m == a || m == b
  {
    if a >= b then a else b
  }
}
