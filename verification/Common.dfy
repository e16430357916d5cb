/** Definitions shared by several models. */
module Common {

  datatype Option<T> = None | Some(value: T)

  /** A position or a velocity. */
  datatype Vec = Vec(x: real, y: real)

  function Min(x: int, y: int): int {
    if x < y then x else y
  }

  function Pow2(n: nat): (r: nat)
    ensures r > 0
  {
    if n == 0 then 1 else 2 * Pow2(n - 1)
  }

  /** Conversion of a real number to an integer rounds towards zero. */
  function Truncate(r: real): int {
    if r >= 0.0 then r.Floor else -((-r).Floor)
  }
}
