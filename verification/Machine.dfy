/** Types shared by the modules: machine integers and the usual optional value. */
module Machine {
  datatype Option<+T> = None | Some(value: T)

  type i32 = x: int | -0x8000_0000 <= x < 0x8000_0000

  const TWO_TO_THE_64: int := 0x1_0000_0000_0000_0000

  type byte = x: int | 0 <= x < 256

  type u64 = x: int | 0 <= x < 0x1_0000_0000_0000_0000

  /** The cast `limit as usize`: a negative number becomes huge. */
  function AsUsize(x: i32): (n: nat)
    ensures 0 <= x ==> n == x
    ensures x < 0 ==> n - x == 0x1_0000_0000_0000_0000
  {
    if x < 0 then x + TWO_TO_THE_64 else x
  }
}
