/** Products and quotients of reals, one step at a time. */
module Reals {
  lemma Distribute(k: real, s: real, t: real)
    ensures k * (s + t) == k * s + k * t
  {}

  lemma ZeroProduct(s: real, t: real)
    requires s == 0.0
    ensures s * t == 0.0
  {}

  lemma PositiveProduct(s: real, t: real)
    requires s > 0.0 && t > 0.0
    ensures s * t > 0.0
  {}

  lemma NegatedProduct(s: real, t: real)
    ensures -s * t == -(s * t)
  {}

  lemma Quotient(s: real, t: real)
    requires t != 0.0
    ensures s / t * t == s
  {}
}
