/** Types every other module uses. */
module Common {
  datatype Option<+T> = None | Some(value: T)

  type byte = x: int | 0 <= x < 0x100

  /** A Go string: bytes, with a length that is an int. */
  type gostring = s: seq<byte> | |s| < 0x8000_0000_0000_0000

  function Pow2(n: nat): (r: int)
    ensures r >= 1
  {
    if n == 0 then 1 else 2 * Pow2(n - 1)
  }
}
