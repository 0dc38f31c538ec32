/** Option and Result, shared by every component. */
module Common {
  datatype Option<+T> = None | Some(value: T)

  datatype Result<+T, +E> = Ok(value: T) | Err(error: E)

  /** Two to the power `n`. */
  function Pow2(n: nat): (r: nat)
    ensures r > 0
  {
    if n == 0 then 1 else 2 * Pow2(n - 1)
  }

  function Max(x: nat, y: nat): nat {
    if x < y then y else x
  }

  /** One past the largest value of a 64-bit `usize`. */
  const WORD: nat := 0x1_0000_0000_0000_0000
}
