/** Signs and magnitudes of coefficients, and the 16 bits they are stored in. */
module Coefficients {
  const DCTSIZE2: nat := 64

  function Abs(x: int): nat {
    if x < 0 then -x else x
  }

  function Signed(v: int, negative: bool): int {
    if negative then -v else v
  }

  /** The cast to a 16-bit coefficient. */
  function ToCoef(x: int): (r: int)
    ensures -0x8000 <= r < 0x8000
    ensures -0x8000 <= x < 0x8000 ==> r == x
  {
    (x + 0x8000) % 0x10000 - 0x8000
  }
}
