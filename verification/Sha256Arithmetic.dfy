/** The arithmetic of the hasher in frontend/src/lib/sha256.ts, expression by
    expression, and what it has to do with FIPS 180-4. */
module Sha256Arithmetic {
  import opened Words
  import opened JsNumbers
  import Fips180

  // The JavaScript expressions of `compress`, on numbers.

  function JsSmallSigma0(a: int): int {
    JsXor(JsXor(JsOr(JsShr(a, 7), JsShl(a, 25)), JsOr(JsShr(a, 18), JsShl(a, 14))), JsShr(a, 3))
  }

  function JsSmallSigma1(b: int): int {
    JsXor(JsXor(JsOr(JsShr(b, 17), JsShl(b, 15)), JsOr(JsShr(b, 19), JsShl(b, 13))), JsShr(b, 10))
  }

  function JsBigSigma0(a: int): int {
    JsXor(JsXor(JsOr(JsShr(a, 2), JsShl(a, 30)), JsOr(JsShr(a, 13), JsShl(a, 19))),
          JsOr(JsShr(a, 22), JsShl(a, 10)))
  }

  function JsBigSigma1(e: int): int {
    JsXor(JsXor(JsOr(JsShr(e, 6), JsShl(e, 26)), JsOr(JsShr(e, 11), JsShl(e, 21))),
          JsOr(JsShr(e, 25), JsShl(e, 7)))
  }

  function JsCh(e: int, f: int, g: int): int {
    JsXor(JsAnd(e, f), JsAnd(JsNot(e), g))
  }

  function JsMaj(a: int, b: int, c: int): int {
    JsXor(JsXor(JsAnd(a, b), JsAnd(a, c)), JsAnd(b, c))
  }

  function JsWord(b0: byte, b1: byte, b2: byte, b3: byte): int {
    JsOr(JsOr(JsOr(JsShl(b0, 24), JsShl(b1, 16)), JsShl(b2, 8)), b3)
  }

  /** Each operator gives the bits of the operation on its operands' bits. */
  lemma OperatorBits(x: int, y: int)
    ensures ToUint32(JsOr(x, y)) == BitOr(ToUint32(x), ToUint32(y))
    ensures ToUint32(JsAnd(x, y)) == BitAnd(ToUint32(x), ToUint32(y))
    ensures ToUint32(JsXor(x, y)) == BitXor(ToUint32(x), ToUint32(y))
    ensures ToUint32(JsNot(x)) == BitNot(ToUint32(x))
  {
    hide BitOr, BitAnd, BitXor, BitNot;
  }

  lemma RotrBits(x: int, n: nat)
    requires 0 < n < 32
    ensures ToUint32(JsOr(JsShr(x, n), JsShl(x, 32 - n))) == Fips180.Rotr(n, ToUint32(x))
  {
    hide BitOr, ShiftRight, ShiftLeft;
  }

  lemma ChoicesMatch(x: int, y: int, z: int)
    ensures ToUint32(JsCh(x, y, z)) == Fips180.Ch(ToUint32(x), ToUint32(y), ToUint32(z))
    ensures ToUint32(JsMaj(x, y, z)) == Fips180.Maj(ToUint32(x), ToUint32(y), ToUint32(z))
  {
    hide ToUint32, JsAnd, JsXor, JsNot, BitAnd, BitXor, BitNot;
    OperatorBits(x, y);
    OperatorBits(x, z);
    OperatorBits(y, z);
    OperatorBits(JsNot(x), z);
    OperatorBits(JsAnd(x, y), JsAnd(JsNot(x), z));
    XorBits3(JsAnd(x, y), JsAnd(x, z), JsAnd(y, z));
  }

  lemma SmallSigmasMatch(x: int)
    ensures ToUint32(JsSmallSigma0(x)) == Fips180.SmallSigma0(ToUint32(x))
    ensures ToUint32(JsSmallSigma1(x)) == Fips180.SmallSigma1(ToUint32(x))
  {
    RotrBits(x, 7);
    RotrBits(x, 18);
    RotrBits(x, 17);
    RotrBits(x, 19);
    ShiftBits(x, 3);
    ShiftBits(x, 10);
    hide ToUint32, JsOr, JsXor, JsShl, JsShr, BitOr, BitXor, ShiftRight, ShiftLeft, Fips180.Rotr;
    XorBits3(JsOr(JsShr(x, 7), JsShl(x, 25)), JsOr(JsShr(x, 18), JsShl(x, 14)), JsShr(x, 3));
    XorBits3(JsOr(JsShr(x, 17), JsShl(x, 15)), JsOr(JsShr(x, 19), JsShl(x, 13)), JsShr(x, 10));
  }

  lemma ShiftBits(x: int, n: nat)
    requires n < 32
    ensures ToUint32(JsShr(x, n)) == ShiftRight(ToUint32(x), n)
  {
    hide ShiftRight;
  }

  lemma XorBits3(x: int, y: int, z: int)
    ensures ToUint32(JsXor(JsXor(x, y), z)) == BitXor(BitXor(ToUint32(x), ToUint32(y)), ToUint32(z))
  {
    OperatorBits(x, y);
    OperatorBits(JsXor(x, y), z);
  }

  lemma BigSigmasMatch(x: int)
    ensures ToUint32(JsBigSigma0(x)) == Fips180.BigSigma0(ToUint32(x))
    ensures ToUint32(JsBigSigma1(x)) == Fips180.BigSigma1(ToUint32(x))
  {
    RotrBits(x, 2);
    RotrBits(x, 13);
    RotrBits(x, 22);
    RotrBits(x, 6);
    RotrBits(x, 11);
    RotrBits(x, 25);
    hide ToUint32, JsOr, JsXor, JsShl, JsShr, BitOr, BitXor, ShiftRight, ShiftLeft, Fips180.Rotr;
    XorBits3(JsOr(JsShr(x, 2), JsShl(x, 30)), JsOr(JsShr(x, 13), JsShl(x, 19)), JsOr(JsShr(x, 22), JsShl(x, 10)));
    XorBits3(JsOr(JsShr(x, 6), JsShl(x, 26)), JsOr(JsShr(x, 11), JsShl(x, 21)), JsOr(JsShr(x, 25), JsShl(x, 7)));
  }

  lemma ShiftLeftBits(b: byte, n: nat)
    requires n < 32
    ensures ToUint32(JsShl(b, n)) == ShiftLeft(b, n)
  {
    hide ShiftLeft;
  }

  lemma WordBits(x: word)
    ensures ToUint32(x) == x
  {
  }

  lemma {:induction false} WordsMatch(b0: byte, b1: byte, b2: byte, b3: byte)
    ensures ToUint32(JsWord(b0, b1, b2, b3)) == BigEndian(b0, b1, b2, b3)
  {
    hide ToUint32, JsOr, JsShl, BitOr, ShiftLeft, BigEndian;
    OrOfShiftedBytes(b0, b1, b2, b3);
    ShiftLeftBits(b0, 24);
    ShiftLeftBits(b1, 16);
    ShiftLeftBits(b2, 8);
    WordBits(b3);
    OperatorBits(JsShl(b0, 24), JsShl(b1, 16));
    OperatorBits(JsOr(JsShl(b0, 24), JsShl(b1, 16)), JsShl(b2, 8));
    OperatorBits(JsOr(JsOr(JsShl(b0, 24), JsShl(b1, 16)), JsShl(b2, 8)), b3);
  }

  /** `x | 0` of a sum of numbers is the sum of their words modulo 2^32. */
  lemma {:induction false} SumBits(p: int, q: int)
    ensures ToUint32(ToInt32(p + q)) == Add(ToUint32(p), ToUint32(q))
  {
  }

  lemma SumBits4(p: int, q: int, r: int, s: int)
    ensures ToUint32(ToInt32(p + q + r + s))
         == Add(Add(Add(ToUint32(s), ToUint32(r)), ToUint32(q)), ToUint32(p))
  {
    SameBits(p + q + r + s);
    AddBits(s, r);
    AddBits(s + r, q);
    AddBits(s + r + q, p);
    hide ToUint32, ToInt32, Add;
    assert s + r + q + p == p + q + r + s;
  }

  lemma SumBits5(p: int, q: int, r: int, s: int, t: int)
    ensures ToUint32(ToInt32(p + q + r + s + t))
         == Add(Add(Add(Add(ToUint32(p), ToUint32(q)), ToUint32(r)), ToUint32(s)), ToUint32(t))
  {
    SameBits(p + q + r + s + t);
    AddBits(p, q);
    AddBits(p + q, r);
    AddBits(p + q + r, s);
    AddBits(p + q + r + s, t);
    hide ToUint32, ToInt32, Add;
  }

  /** The bits of the eight working variables. */
  function WorkingBits(a: int, b: int, c: int, d: int, e: int, f: int, g: int, h: int): Fips180.Working {
    Fips180.Working(ToUint32(a), ToUint32(b), ToUint32(c), ToUint32(d),
                    ToUint32(e), ToUint32(f), ToUint32(g), ToUint32(h))
  }

  /** One turn of the compression loop is one FIPS 180-4 round. */
  lemma {:induction false} RoundMatches(a: int, b: int, c: int, d: int, e: int, f: int, g: int, h: int,
                                       k: word, w: word)
    ensures var t1 := ToInt32(h + JsBigSigma1(e) + JsCh(e, f, g) + k + w);
            var t2 := ToInt32(JsBigSigma0(a) + JsMaj(a, b, c));
            WorkingBits(ToInt32(t1 + t2), a, b, c, ToInt32(d + t1), e, f, g)
            == Fips180.Round(WorkingBits(a, b, c, d, e, f, g, h), k, w)
  {
    hide ToUint32, ToInt32, Add, JsBigSigma0, JsBigSigma1, JsCh, JsMaj,
         Fips180.BigSigma0, Fips180.BigSigma1, Fips180.Ch, Fips180.Maj;
    var t1 := ToInt32(h + JsBigSigma1(e) + JsCh(e, f, g) + k + w);
    var t2 := ToInt32(JsBigSigma0(a) + JsMaj(a, b, c));
    BigSigmasMatch(e);
    BigSigmasMatch(a);
    ChoicesMatch(e, f, g);
    ChoicesMatch(a, b, c);
    WordBits(k);
    WordBits(w);
    SumBits5(h, JsBigSigma1(e), JsCh(e, f, g), k, w);
    SumBits(JsBigSigma0(a), JsMaj(a, b, c));
    SumBits(t1, t2);
    SumBits(d, t1);
  }

  /** One later entry of the schedule. */
  lemma {:induction false} ScheduleMatches(m: Fips180.Block, t: nat)
    requires 16 <= t < 64
    ensures ToUint32(ToInt32(Fips180.Schedule(m, t - 16) + JsSmallSigma0(Fips180.Schedule(m, t - 15))
                             + Fips180.Schedule(m, t - 7) + JsSmallSigma1(Fips180.Schedule(m, t - 2))))
         == Fips180.Schedule(m, t)
  {
    hide ToUint32, ToInt32, Add, JsSmallSigma0, JsSmallSigma1, Fips180.SmallSigma0, Fips180.SmallSigma1,
         Fips180.MessageWord;
    var w16, w15, w7, w2 := Fips180.Schedule(m, t - 16), Fips180.Schedule(m, t - 15),
                            Fips180.Schedule(m, t - 7), Fips180.Schedule(m, t - 2);
    SmallSigmasMatch(w15);
    SmallSigmasMatch(w2);
    WordBits(w16);
    WordBits(w15);
    WordBits(w7);
    WordBits(w2);
    SumBits4(w16, JsSmallSigma0(w15), w7, JsSmallSigma1(w2));
  }
}
