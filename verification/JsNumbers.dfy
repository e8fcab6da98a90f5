/** The JavaScript operators the hasher uses, on numbers that hold exact
    integers: `|`, `&`, `^`, `~`, `<<` and `| 0` give signed 32-bit results,
    `>>> n` and a Uint32Array element are unsigned. */
module JsNumbers {
  import opened Words

  function ToUint32(x: int): word {
    x % TWO32
  }

  function ToInt32(x: int): (r: int)
    ensures -0x8000_0000 <= r < 0x8000_0000
  {
    var m := x % TWO32;
    if m < 0x8000_0000 then m else m - TWO32
  }

  function JsOr(x: int, y: int): int {
    ToInt32(BitOr(ToUint32(x), ToUint32(y)))
  }

  function JsAnd(x: int, y: int): int {
    ToInt32(BitAnd(ToUint32(x), ToUint32(y)))
  }

  function JsXor(x: int, y: int): int {
    ToInt32(BitXor(ToUint32(x), ToUint32(y)))
  }

  function JsNot(x: int): int {
    ToInt32(BitNot(ToUint32(x)))
  }

  function JsShl(x: int, n: nat): int
    requires n < 32
  {
    ToInt32(ShiftLeft(ToUint32(x), n))
  }

  function JsShr(x: int, n: nat): int
    requires n < 32
  {
    ShiftRight(ToUint32(x), n)
  }

  lemma {:induction false} SameBits(x: int)
    ensures ToUint32(ToInt32(x)) == ToUint32(x)
  {
  }

  /** A word keeps its bits, whichever way it was stored. */
  lemma AddBits(x: int, y: int)
    ensures ToUint32(x + y) == Add(ToUint32(x), ToUint32(y))
  {
  }
}
