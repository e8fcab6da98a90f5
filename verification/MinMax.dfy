/** The smaller and the larger of two numbers. */
module MinMax {
  function Min(x: int, y: int): (m: int)
    ensures m <= x && m <= y && (m == x || m == y)
  {
    if x < y then x else y
  }

  function Max(x: int, y: int): (m: int)
    ensures m >= x && m >= y && (m == x || m == y)
  {
    if x < y then y else x
  }

  function MinReal(x: real, y: real): (m: real)
    ensures m <= x && m <= y && (m == x || m == y)
  {
    if x < y then x else y
  }

  function MaxReal(x: real, y: real): (m: real)
    ensures m >= x && m >= y && (m == x || m == y)
  {
    if x < y then y else x
  }
}
