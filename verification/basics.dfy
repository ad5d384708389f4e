/** Small shared vocabulary: an optional value, standing for a null pointer,
    an invalid model index or a node that has no layout position yet; the
    larger of two naturals; and the conversion of a real to an integer. */
module Basics {

  datatype Option<+T> = None | Some(value: T)

  function MaxNat(a: nat, b: nat): (m: nat)
    ensures m >= a && m >= b
    ensures m == a || m == b
  {
    if a >= b then a else b
  }

  /** A real converted to an integer the way C++ and Qt's integer setters
      do it: the fraction is dropped, so the result moves toward zero. */
  function Trunc(r: real): (n: int)
    ensures 0.0 <= r ==> n as real <= r < n as real + 1.0
    ensures r < 0.0 ==> n as real - 1.0 < r <= n as real
  {
    if 0.0 <= r then r.Floor else -((-r).Floor)
  }

  /** Truncation keeps the order of its arguments. */
  lemma TruncMonotone(a: real, b: real)
    requires a <= b
    ensures Trunc(a) <= Trunc(b)
  {
  }

  /** Truncation leaves whole numbers alone. */
  lemma TruncWhole(n: int)
    ensures Trunc(n as real) == n
  {
  }
}
