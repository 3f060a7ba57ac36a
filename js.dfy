/** Small pieces of JavaScript semantics that the page scripts rely on. */
module Js {

  /** A DOM handle or attribute that may be missing (`null` / `undefined`). */
  datatype Option<T> = None | Some(value: T)

  /** JavaScript's `a % b` on integral numbers with a positive divisor: the
      remainder of division truncated toward zero, so it takes the sign of
      the dividend (Dafny's own `%` is Euclidean and never negative). */
  function JsRem(a: int, b: int): (r: int)
    requires 0 < b
    ensures 0 <= a ==> 0 <= r < b
    ensures a < 0 ==> -b < r <= 0
    ensures (a - r) % b == 0
  {
    if 0 <= a then
      ModOfMultiple(a - a % b, b, a / b);
      a % b
    else
      ModOfMultiple(a + (-a) % b, b, -((-a) / b));
      -((-a) % b)
  }

  lemma ProductBounds(b: int, q: int)
    requires 0 < b
    ensures q >= 1 ==> b * q >= b
    ensures q <= -1 ==> b * q <= -b
  {
  }

  /** Division by a positive divisor has exactly one quotient and remainder. */
  lemma DivModUnique(a: int, b: int, q: int, r: int)
    requires 0 < b && 0 <= r < b && a == b * q + r
    ensures a % b == r && a / b == q
  {
    assert b * (q - a / b) == a % b - r;
    ProductBounds(b, q - a / b);
  }

  lemma ModOfMultiple(a: int, b: int, q: int)
    requires 0 < b && a == b * q
    ensures a % b == 0
  {
    DivModUnique(a, b, q, 0);
  }

  /** On a dividend in `[0, 2b)` the remainder is a single conditional
      subtraction. */
  lemma JsRemBelowTwice(a: int, b: int)
    requires 0 < b && 0 <= a < 2 * b
    ensures JsRem(a, b) == if a < b then a else a - b
  {
    if a < b {
      DivModUnique(a, b, 0, a);
    } else {
      DivModUnique(a, b, 1, a - b);
    }
  }
}
