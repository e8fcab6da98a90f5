/** Bytes, 32-bit words and the bit operations on them.

    Everything is integer arithmetic: a bitwise operation works bit by bit,
    a shift multiplies or divides by a power of two. */
module Words {
  const TWO32 := 0x1_0000_0000

  type byte = x: int | 0 <= x < 256
  type word = x: int | 0 <= x < TWO32

  function Pow2(n: nat): (p: nat)
    ensures p > 0
  {
    if n == 0 then 1 else 2 * Pow2(n - 1)
  }

  lemma Pow2Add(m: nat, n: nat)
    ensures Pow2(m + n) == Pow2(m) * Pow2(n)
  {
    if n > 0 {
      Pow2Add(m, n - 1);
      assert Pow2(m + n) == 2 * Pow2(m + (n - 1));
    }
  }

  lemma Pow2Values()
    ensures Pow2(8) == 256 && Pow2(16) == 0x1_0000 && Pow2(24) == 0x100_0000 && Pow2(32) == TWO32
  {
    assert Pow2(4) == 16;
    Pow2Add(4, 4);
    Pow2Add(8, 8);
    Pow2Add(16, 8);
    Pow2Add(16, 16);
  }

  datatype BitOp = And | Or | Xor

  function OneBit(op: BitOp, a: nat, b: nat): (r: nat)
    requires a < 2 && b < 2
    ensures r < 2
  {
    match op
    case And => a * b
    case Or => if a + b == 0 then 0 else 1
    case Xor => (a + b) % 2
  }

  /** Applies `op` bit by bit. Every operation here takes two zeros to zero,
      so the recursion ends where both numbers do. */
  function Bits(op: BitOp, x: nat, y: nat): nat
    decreases x + y
  {
    if x == 0 && y == 0 then 0
    else OneBit(op, x % 2, y % 2) + 2 * Bits(op, x / 2, y / 2)
  }

  lemma {:induction false} BitsBelow(op: BitOp, x: nat, y: nat, n: nat)
    requires x < Pow2(n) && y < Pow2(n)
    ensures Bits(op, x, y) < Pow2(n)
  {
    if n > 0 {
      BitsBelow(op, x / 2, y / 2, n - 1);
    }
  }

  function BitOpWords(op: BitOp, x: word, y: word): word {
    Pow2Values();
    BitsBelow(op, x, y, 32);
    Bits(op, x, y)
  }

  function BitAnd(x: word, y: word): word {
    BitOpWords(And, x, y)
  }

  function BitOr(x: word, y: word): word {
    BitOpWords(Or, x, y)
  }

  function BitXor(x: word, y: word): word {
    BitOpWords(Xor, x, y)
  }

  /** The complement: every bit flipped. */
  function BitNot(x: word): word {
    TWO32 - 1 - x
  }

  /** SHR: the lowest `n` bits drop out. */
  function ShiftRight(x: word, n: nat): word {
    QuotientBelow(x, Pow2(n));
    x / Pow2(n)
  }

  /** The highest `n` bits drop out, zeros come in. */
  function ShiftLeft(x: word, n: nat): word {
    (x * Pow2(n)) % TWO32
  }

  /** Addition modulo 2^32. */
  function Add(x: word, y: word): word {
    (x + y) % TWO32
  }

  lemma QuotientBelow(x: nat, d: nat)
    requires d > 0
    ensures 0 <= x / d <= x
  {
    var q := x / d;
    assert x == q * d + x % d;
    assert q * d == q + q * (d - 1);
    ProductNonNegative(q, d - 1);
  }

  lemma ProductNonNegative(x: nat, y: nat)
    ensures x * y >= 0
  {
  }

  /** Complementing is flipping each bit: xor with all ones. */
  lemma {:induction false} NotIsXorOnes(x: nat, n: nat)
    requires x < Pow2(n)
    ensures Bits(Xor, x, Pow2(n) - 1) == Pow2(n) - 1 - x
  {
    if n > 0 {
      assert (Pow2(n) - 1) / 2 == Pow2(n - 1) - 1;
      NotIsXorOnes(x / 2, n - 1);
    }
  }

  /** Or-ing numbers with no bit in common adds them: `x` lies below the 2^k that divides the other. */
  lemma {:induction false} OrOfDisjoint(x: nat, y: nat, k: nat)
    requires x < Pow2(k)
    ensures Bits(Or, y * Pow2(k), x) == y * Pow2(k) + x
  {
    if k == 0 {
      OrWithZero(y);
    } else {
      var z := y * Pow2(k - 1);
      DoubledPower(y, k);
      OrOfDisjoint(x / 2, y, k - 1);
      OrStep(z, x);
    }
  }

  lemma DoubledPower(y: nat, k: nat)
    requires k > 0
    ensures y * Pow2(k) == 2 * (y * Pow2(k - 1))
  {
  }

  /** Or-ing into an even number: the last bit is the other number's. */
  lemma OrStep(z: nat, x: nat)
    ensures Bits(Or, 2 * z, x) == 2 * Bits(Or, z, x / 2) + x % 2
  {
  }

  lemma {:induction false} OrWithZero(y: nat)
    ensures Bits(Or, y, 0) == y
  {
    if y > 0 {
      OrWithZero(y / 2);
    }
  }

  /** A word from its four bytes, most significant first. */
  function BigEndian(b0: byte, b1: byte, b2: byte, b3: byte): word {
    b0 * 0x100_0000 + b1 * 0x1_0000 + b2 * 0x100 + b3
  }

  lemma {:induction false} OrOfShiftedBytes(b0: byte, b1: byte, b2: byte, b3: byte)
    ensures BitOr(BitOr(BitOr(ShiftLeft(b0, 24), ShiftLeft(b1, 16)), ShiftLeft(b2, 8)), b3)
         == BigEndian(b0, b1, b2, b3)
  {
    hide BitOr, ShiftLeft;
    var high, middle := b0 * 0x100 + b1, b0 * 0x1_0000 + b1 * 0x100 + b2;
    ShiftedByte(b0, 24);
    ShiftedByte(b1, 16);
    ShiftedByte(b2, 8);
    Pow2Values();
    OrOfWords(b1 * 0x1_0000, b0, 24);
    OrOfWords(b2 * 0x100, high, 16);
    OrOfWords(b3, middle, 8);
  }

  lemma ShiftedByte(b: byte, n: nat)
    requires n <= 24
    ensures 0 <= b * Pow2(n) < TWO32 && ShiftLeft(b, n) == b * Pow2(n)
  {
    Pow2Monotone(n, 24);
    Pow2Values();
    MulBound(b, 255, Pow2(n), Pow2(24));
  }

  lemma MulBound(x: nat, x': nat, y: nat, y': nat)
    requires x <= x' && y <= y'
    ensures 0 <= x * y <= x' * y'
  {
    assert x' * y' == x * y + x * (y' - y) + (x' - x) * y';
  }

  lemma {:induction false} Pow2Monotone(m: nat, n: nat)
    requires m <= n
    ensures Pow2(m) <= Pow2(n)
  {
    if m < n {
      Pow2Monotone(m, n - 1);
    }
  }

  lemma OrOfWords(x: nat, y: nat, k: nat)
    requires x < Pow2(k) && 0 <= y * Pow2(k) && y * Pow2(k) + x < TWO32
    ensures BitOr(y * Pow2(k), x) == y * Pow2(k) + x
  {
    OrOfDisjoint(x, y, k);
  }
}
