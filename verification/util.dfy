/** Small shared vocabulary: an optional value and the C++ fixed-width
    integer types the loader stores its results in. */
module Util {

  datatype Option<+T> = None | Some(value: T)

  type byte = x: int | 0 <= x < 0x100
  type uint32 = x: int | 0 <= x < 0x1_0000_0000
  type int32 = x: int | -0x8000_0000 <= x < 0x8000_0000

  /** Conversion of any integer to `uint32` (C++ modular conversion). */
  function ToUint32(x: int): (r: uint32)
    ensures (r - x) % 0x1_0000_0000 == 0
    ensures 0 <= x < 0x1_0000_0000 ==> r == x
  {
    x % 0x1_0000_0000
  }

  /** Conversion of any integer to `int32` (two's-complement wrap, as C++20
      defines it and every supported compiler does). */
  function ToInt32(x: int): (r: int32)
    ensures (r - x) % 0x1_0000_0000 == 0
    ensures -0x8000_0000 <= x < 0x8000_0000 ==> r == x
  {
    (x + 0x8000_0000) % 0x1_0000_0000 - 0x8000_0000
  }

  /** Incrementing a wrapped value wraps the incremented value. */
  lemma ToInt32Succ(x: int)
    ensures ToInt32(ToInt32(x) + 1) == ToInt32(x + 1)
  {
    var m := 0x1_0000_0000;
    var a := x + 0x8000_0000;
    var q := a / m;
    assert a == q * m + a % m;
    assert a + 1 == q * m + (a % m + 1);
    if a % m + 1 < m {
      assert (a + 1) % m == a % m + 1;
    } else {
      assert (a + 1) % m == 0;
    }
  }
}
