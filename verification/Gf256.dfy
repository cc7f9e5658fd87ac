/** The field GF(256) of section 4.2 of FIPS 197, as the recovery code computes in it:
    bytes under exclusive or and shift-and-reduce multiplication. */
module Gf256 {

  /** A byte by its bits, `b0` the lowest. */
  datatype Byte = Byte(b0: bool, b1: bool, b2: bool, b3: bool, b4: bool, b5: bool, b6: bool, b7: bool)

  const ZERO := Byte(false, false, false, false, false, false, false, false)
  const ONE := Byte(true, false, false, false, false, false, false, false)

  /** The low byte 0x1B of the reduction polynomial x^8 + x^4 + x^3 + x + 1. */
  const REDUCTION := Byte(true, true, false, true, true, false, false, false)

  function Bit(b: bool): nat { if b then 1 else 0 }

  function NibbleValue(c0: bool, c1: bool, c2: bool, c3: bool): (n: nat)
    ensures n < 16
  {
    Bit(c0) + 2 * Bit(c1) + 4 * Bit(c2) + 8 * Bit(c3)
  }

  function Value(a: Byte): (n: nat)
    ensures n < 256
    ensures a != ZERO ==> n != 0
  {
    NibbleValue(a.b0, a.b1, a.b2, a.b3) + 16 * NibbleValue(a.b4, a.b5, a.b6, a.b7)
  }

  /** One more, wrapping round at 255. */
  function Increment(a: Byte): Byte {
    var c1 := a.b0;
    var c2 := c1 && a.b1;
    var c3 := c2 && a.b2;
    var c4 := c3 && a.b3;
    var c5 := c4 && a.b4;
    var c6 := c5 && a.b5;
    var c7 := c6 && a.b6;
    Byte(!a.b0, a.b1 != c1, a.b2 != c2, a.b3 != c3, a.b4 != c4, a.b5 != c5, a.b6 != c6, a.b7 != c7)
  }

  function OfNat(n: nat): Byte {
    if n == 0 then ZERO else Increment(OfNat(n - 1))
  }

  lemma IncrementValue(a: Byte)
    requires Value(a) < 255
    ensures Value(Increment(a)) == Value(a) + 1
  {
    hide NibbleValue;
    var carry := a.b0 && a.b1 && a.b2 && a.b3;
    NibbleIncrement(a.b0, a.b1, a.b2, a.b3, true);
    NibbleIncrement(a.b4, a.b5, a.b6, a.b7, carry);
  }

  lemma NibbleIncrement(c0: bool, c1: bool, c2: bool, c3: bool, carry: bool)
    ensures NibbleValue(c0 != carry, c1 != (carry && c0), c2 != (carry && c0 && c1), c3 != (carry && c0 && c1 && c2))
         == NibbleValue(c0, c1, c2, c3) + Bit(carry) - 16 * Bit(carry && c0 && c1 && c2 && c3)
  {
  }

  lemma {:induction false} ValueOfNat(n: nat)
    requires n < 256
    ensures Value(OfNat(n)) == n
  {
    if n > 0 {
      ValueOfNat(n - 1);
      IncrementValue(OfNat(n - 1));
    }
  }

  lemma ValueInjective(a: Byte, b: Byte)
    requires Value(a) == Value(b)
    ensures a == b
  {
    hide NibbleValue;
    assert NibbleValue(a.b0, a.b1, a.b2, a.b3) == NibbleValue(b.b0, b.b1, b.b2, b.b3);
    NibbleInjective(a.b0, a.b1, a.b2, a.b3, b.b0, b.b1, b.b2, b.b3);
    NibbleInjective(a.b4, a.b5, a.b6, a.b7, b.b4, b.b5, b.b6, b.b7);
  }

  lemma NibbleInjective(c0: bool, c1: bool, c2: bool, c3: bool, d0: bool, d1: bool, d2: bool, d3: bool)
    requires NibbleValue(c0, c1, c2, c3) == NibbleValue(d0, d1, d2, d3)
    ensures c0 == d0 && c1 == d1 && c2 == d2 && c3 == d3
  {
    assert c0 == d0;
  }

  /** Exclusive or, which is both addition and subtraction. */
  function Add(a: Byte, b: Byte): Byte {
    Byte(a.b0 != b.b0, a.b1 != b.b1, a.b2 != b.b2, a.b3 != b.b3,
         a.b4 != b.b4, a.b5 != b.b5, a.b6 != b.b6, a.b7 != b.b7)
  }

  function ShiftLeft(a: Byte): Byte {
    Byte(false, a.b0, a.b1, a.b2, a.b3, a.b4, a.b5, a.b6)
  }

  function ShiftRight(a: Byte): (r: Byte)
    ensures a != ZERO ==> Value(r) < Value(a)
  {
    Byte(a.b1, a.b2, a.b3, a.b4, a.b5, a.b6, a.b7, false)
  }

  /** Multiplication by x: the top bit shifted out comes back as the reduction. */
  function Xtime(a: Byte): Byte {
    Byte(a.b7, a.b0 != a.b7, a.b1, a.b2 != a.b7, a.b3 != a.b7, a.b4, a.b5, a.b6)
  }

  /** The product, read off the bits of `b` from the lowest. */
  function Mul(a: Byte, b: Byte): Byte
    decreases Value(b)
  {
    if b == ZERO then ZERO else Add(if b.b0 then a else ZERO, Mul(Xtime(a), ShiftRight(b)))
  }

  function Square(a: Byte): Byte { Mul(a, a) }

  /** `a` squared `k` times over. */
  function Squares(a: Byte, k: nat): Byte {
    if k == 0 then a else Square(Squares(a, k - 1))
  }

  /** The power with exponent 2^(k+1) - 1, by square-and-multiply. */
  function Ladder(a: Byte, k: nat): Byte {
    if k == 0 then a else Mul(Square(Ladder(a, k - 1)), a)
  }

  /** The power 254; it sends zero to zero. */
  function Inv(a: Byte): Byte { Square(Ladder(a, 6)) }

  // ----- the ring laws

  lemma AddAssociate(a: Byte, b: Byte, c: Byte)
    ensures Add(Add(a, b), c) == Add(a, Add(b, c))
  {
  }

  lemma AddLaws(a: Byte, b: Byte, c: Byte)
    ensures Add(a, b) == Add(b, a)
    ensures Add(Add(a, b), c) == Add(a, Add(b, c))
    ensures Add(a, a) == ZERO
    ensures Add(a, ZERO) == a
  {
    AddAssociate(a, b, c);
  }

  /** Sums of sums may be regrouped. */
  lemma AddSwap(a: Byte, b: Byte, c: Byte, d: Byte)
    ensures Add(Add(a, b), Add(c, d)) == Add(Add(a, c), Add(b, d))
  {
  }

  lemma XtimeLinear(a: Byte, b: Byte)
    ensures Xtime(Add(a, b)) == Add(Xtime(a), Xtime(b))
  {
  }

  lemma SplitLow(b: Byte)
    ensures b == Add(if b.b0 then ONE else ZERO, Xtime(ShiftRight(b)))
  {
  }

  lemma {:induction false} MulZeroLeft(b: Byte)
    ensures Mul(ZERO, b) == ZERO
    decreases Value(b)
  {
    if b != ZERO { MulZeroLeft(ShiftRight(b)); }
  }

  lemma {:induction false} DistributeLeft(a: Byte, b: Byte, c: Byte)
    ensures Mul(Add(a, b), c) == Add(Mul(a, c), Mul(b, c))
    decreases Value(c)
  {
    if c == ZERO {
      AddLaws(ZERO, ZERO, ZERO);
    } else {
      AddLaws(ZERO, ZERO, ZERO);
      hide Add, Xtime;
      XtimeLinear(a, b);
      AddSwap(if c.b0 then a else ZERO, Mul(Xtime(a), ShiftRight(c)),
              if c.b0 then b else ZERO, Mul(Xtime(b), ShiftRight(c)));
      DistributeLeft(Xtime(a), Xtime(b), ShiftRight(c));
    }
  }

  lemma {:induction false} MulXtime(a: Byte, b: Byte)
    ensures Mul(Xtime(a), b) == Xtime(Mul(a, b))
    decreases Value(b)
  {
    if b != ZERO {
      MulXtime(Xtime(a), ShiftRight(b));
      XtimeLinear(if b.b0 then a else ZERO, Mul(Xtime(a), ShiftRight(b)));
    }
  }

  /** One step of the product with the doubling moved outside. */
  lemma MulStep(a: Byte, b: Byte)
    ensures Mul(a, b) == Add(if b.b0 then a else ZERO, Xtime(Mul(a, ShiftRight(b))))
  {
    if b != ZERO { MulXtime(a, ShiftRight(b)); }
  }

  lemma {:induction false} MulOneLeft(a: Byte)
    ensures Mul(ONE, a) == a
    decreases Value(a)
  {
    if a != ZERO {
      MulStep(ONE, a);
      SplitLow(a);
      hide Add, Xtime, Mul;
      MulOneLeft(ShiftRight(a));
    }
  }

  lemma {:induction false} Commute(a: Byte, b: Byte)
    ensures Mul(a, b) == Mul(b, a)
    decreases Value(b)
  {
    if b == ZERO {
      MulZeroLeft(a);
    } else {
      var low := if b.b0 then ONE else ZERO;
      var high := ShiftRight(b);
      SplitLow(b);
      hide Add, Xtime, Mul;
      MulStep(a, b);
      Commute(a, high);
      DistributeLeft(low, Xtime(high), a);
      MulXtime(high, a);
      MulOneLeft(a);
      MulZeroLeft(a);
    }
  }

  lemma {:induction false} Associate(a: Byte, b: Byte, c: Byte)
    ensures Mul(Mul(a, b), c) == Mul(a, Mul(b, c))
    decreases Value(c)
  {
    if c == ZERO {
      MulZeroLeft(a);
    } else {
      var rest := Mul(b, ShiftRight(c));
      var kept := if c.b0 then b else ZERO;
      MulStep(Mul(a, b), c);
      MulStep(b, c);
      Associate(a, b, ShiftRight(c));
      Commute(a, Add(kept, Xtime(rest)));
      DistributeLeft(kept, Xtime(rest), a);
      MulXtime(rest, a);
      Commute(rest, a);
      Commute(kept, a);
    }
  }

  lemma DistributeRight(a: Byte, b: Byte, c: Byte)
    ensures Mul(a, Add(b, c)) == Add(Mul(a, b), Mul(a, c))
  {
    Commute(a, Add(b, c));
    DistributeLeft(b, c, a);
    Commute(a, b);
    Commute(a, c);
  }

  lemma MulOne(a: Byte)
    ensures Mul(a, ONE) == a && Mul(ONE, a) == a
  {
    MulOneLeft(a);
    Commute(a, ONE);
  }

  const X := Byte(false, true, false, false, false, false, false, false)

  /** Times x is a shift, and where that leaves the byte x^8 comes back as x^4 + x^3 + x + 1. With the
      ring laws this fixes every product. */
  lemma TimesX(a: Byte)
    ensures Mul(a, X) == if a.b7 then Add(ShiftLeft(a), REDUCTION) else ShiftLeft(a)
    ensures Value(REDUCTION) == 0x1B
  {
    assert ShiftRight(X) == ONE && X != ZERO && !X.b0;
    MulOne(Xtime(a));
    AddLaws(ZERO, Xtime(a), ZERO);
  }

  lemma MulZero(a: Byte)
    ensures Mul(a, ZERO) == ZERO && Mul(ZERO, a) == ZERO
  {
    MulZeroLeft(a);
  }

  // ----- squaring is linear, so its eighth iterate can be computed bit by bit

  function SquareBits(a: Byte): Byte {
    Byte(a.b0 != (a.b4 != a.b6), a.b4 != (a.b6 != a.b7), a.b1 != a.b5, a.b4 != (a.b5 != (a.b6 != a.b7)),
         a.b2 != (a.b4 != a.b7), a.b5 != a.b6, a.b3 != a.b5, a.b6 != a.b7)
  }

  lemma SquareAdd(a: Byte, b: Byte)
    ensures Square(Add(a, b)) == Add(Square(a), Square(b))
  {
    var ab := Mul(a, b);
    assert Mul(Add(a, b), Add(a, b)) == Add(Add(Square(a), ab), Add(ab, Square(b))) by {
      DistributeLeft(a, b, Add(a, b));
      DistributeRight(a, a, b);
      DistributeRight(b, a, b);
      Commute(a, b);
    }
    AddMiddle(Square(a), ab, Square(b));
  }

  lemma AddMiddle(a: Byte, m: Byte, b: Byte)
    ensures Add(Add(a, m), Add(m, b)) == Add(a, b)
  {
  }

  lemma SquareXtime(a: Byte)
    ensures Square(Xtime(a)) == Xtime(Xtime(Square(a)))
  {
    hide Mul, Xtime;
    MulXtime(a, Xtime(a));
    Commute(a, Xtime(a));
    MulXtime(a, a);
  }

  lemma SquareBitsStep(a: Byte)
    ensures SquareBits(a) == Add(if a.b0 then ONE else ZERO, Xtime(Xtime(SquareBits(ShiftRight(a)))))
  {
  }

  lemma {:induction false} SquareIsBits(a: Byte)
    ensures Square(a) == SquareBits(a)
    decreases Value(a)
  {
    if a != ZERO {
      var low := if a.b0 then ONE else ZERO;
      var high := ShiftRight(a);
      assert Square(low) == low by { MulOne(low); }
      SplitLow(a);
      SquareAdd(low, Xtime(high));
      SquareXtime(high);
      SquareIsBits(high);
      SquareBitsStep(a);
    }
  }

  lemma IdempotentBits(e: Byte)
    requires SquareBits(e) == e
    ensures e == ZERO || e == ONE
  {
  }

  function FourSquares(a: Byte): Byte { SquareBits(SquareBits(SquareBits(SquareBits(a)))) }

  lemma FourSquaresTwice(a: Byte)
    ensures FourSquares(FourSquares(a)) == a
  {
  }

  lemma SquaresFour(a: Byte, k: nat)
    ensures Squares(a, k + 4) == FourSquares(Squares(a, k))
  {
    hide SquareBits, Square;
    assert Squares(a, k + 2) == Square(Squares(a, k + 1));
    SquareIsBits(Squares(a, k));
    SquareIsBits(Squares(a, k + 1));
    SquareIsBits(Squares(a, k + 2));
    SquareIsBits(Squares(a, k + 3));
  }

  lemma SquaresEight(a: Byte, k: nat)
    ensures Squares(a, k + 8) == Squares(a, k)
  {
    hide FourSquares;
    SquaresFour(a, k);
    SquaresFour(a, k + 4);
    FourSquaresTwice(Squares(a, k));
  }

  // ----- inverses

  lemma SquareMul(a: Byte, b: Byte)
    ensures Square(Mul(a, b)) == Mul(Square(a), Square(b))
  {
    hide Mul;
    MulSwap(a, b, a, b);
  }

  /** Products of products may be regrouped. */
  lemma MulSwap(a: Byte, b: Byte, c: Byte, d: Byte)
    ensures Mul(Mul(a, b), Mul(c, d)) == Mul(Mul(a, c), Mul(b, d))
  {
    hide Mul;
    Associate(a, b, Mul(c, d));
    Associate(b, c, d);
    Commute(b, c);
    Associate(c, b, d);
    Associate(a, c, Mul(b, d));
  }

  lemma {:induction false} LadderTop(a: Byte, k: nat)
    ensures Ladder(a, k + 1) == Mul(Squares(a, k + 1), Ladder(a, k))
  {
    hide Mul;
    if k == 0 {
      assert Squares(a, 1) == Square(Squares(a, 0));
    } else {
      LadderTop(a, k - 1);
      SquareMul(Squares(a, k), Ladder(a, k - 1));
      Associate(Squares(a, k + 1), Square(Ladder(a, k - 1)), a);
    }
  }

  lemma LadderSquare(a: Byte, k: nat)
    requires Squares(a, k + 2) == a
    ensures Square(Ladder(a, k + 1)) == Ladder(a, k + 1)
  {
    hide Mul;
    LadderTop(a, k);
    SquareMul(Squares(a, k + 1), Ladder(a, k));
    Commute(a, Square(Ladder(a, k)));
  }

  lemma {:induction false} LadderTimes(a: Byte, k: nat)
    ensures Mul(a, Ladder(a, k)) == Squares(a, k + 1)
  {
    hide Mul;
    if k == 0 {
      assert Squares(a, 1) == Square(Squares(a, 0));
    } else {
      var below := Ladder(a, k - 1);
      LadderTimes(a, k - 1);
      SquareMul(a, below);
      Commute(Square(below), a);
      Associate(a, a, Square(below));
    }
  }

  lemma InverseStep(a: Byte, k: nat)
    requires Squares(a, k + 2) == Squares(a, 0) && a != ZERO
    ensures Mul(a, Square(Ladder(a, k))) == ONE
  {
    hide Mul, SquareBits;
    var e := Ladder(a, k + 1);
    Commute(a, Square(Ladder(a, k)));
    LadderSquare(a, k);
    SquareIsBits(e);
    IdempotentBits(e);
    LadderTimes(a, k + 1);
    MulZero(a);
  }

  /** Every byte but zero has `Inv` as its inverse. */
  lemma Inverse(a: Byte)
    requires a != ZERO
    ensures Mul(a, Inv(a)) == ONE
  {
    hide Mul, Square, Squares, Ladder;
    SquaresEight(a, 0);
    InverseStep(a, 6);
  }

  lemma InvZero()
    ensures Inv(ZERO) == ZERO
  {
    var k: nat := 6;
    assert Ladder(ZERO, k) == ZERO;
  }

  lemma Cancel(a: Byte, b: Byte)
    requires b != ZERO
    ensures Mul(Mul(a, b), Inv(b)) == a
  {
    hide Mul, Inv;
    Associate(a, b, Inv(b));
    Inverse(b);
    MulOne(a);
  }

  lemma NoZeroDivisors(a: Byte, b: Byte)
    requires a != ZERO && b != ZERO
    ensures Mul(a, b) != ZERO
  {
    Cancel(a, b);
    MulZero(Inv(b));
  }

  lemma InvMul(a: Byte, b: Byte)
    requires a != ZERO && b != ZERO
    ensures Inv(Mul(a, b)) == Mul(Inv(a), Inv(b))
  {
    hide Mul, Inv;
    var both := Mul(Inv(a), Inv(b));
    MulSwap(a, b, Inv(a), Inv(b));
    Inverse(a);
    Inverse(b);
    MulOne(ONE);
    NoZeroDivisors(a, b);
    Cancel(both, Mul(a, b));
    Commute(both, Mul(a, b));
    MulOne(Inv(Mul(a, b)));
  }

  // ----- the loops of the recovery code

  /** The top `k` bits are clear. */
  predicate TopClear(b: Byte, k: nat) {
    && (k >= 1 ==> !b.b7) && (k >= 2 ==> !b.b6) && (k >= 3 ==> !b.b5) && (k >= 4 ==> !b.b4)
    && (k >= 5 ==> !b.b3) && (k >= 6 ==> !b.b2) && (k >= 7 ==> !b.b1) && (k >= 8 ==> !b.b0)
  }

  lemma XtimeIsShiftAndReduce(a: Byte)
    ensures Xtime(a) == if a.b7 then Add(ShiftLeft(a), REDUCTION) else ShiftLeft(a)
  {
  }

  /** Eight rounds of conditional add, double and halve. */
  method Multiply(x: Byte, y: Byte) returns (result: Byte)
    ensures result == Mul(x, y)
  {
    var a, b := x, y;
    result := ZERO;
    AddLaws(ZERO, Mul(x, y), ZERO);
    AddLaws(Mul(x, y), ZERO, ZERO);
    hide Add, Mul, Xtime;
    for i := 0 to 8
      invariant TopClear(b, i)
      invariant Add(result, Mul(a, b)) == Mul(x, y)
    {
      MultiplyStep(result, a, b);
      if b.b0 {
        result := Add(result, a);
      }
      var carry := a.b7;
      XtimeIsShiftAndReduce(a);
      a := ShiftLeft(a);
      if carry {
        a := Add(a, REDUCTION);
      }
      b := ShiftRight(b);
    }
    assert b == ZERO;
    MulZero(a);
    AddLaws(result, ZERO, ZERO);
  }

  lemma MultiplyStep(result: Byte, a: Byte, b: Byte)
    ensures Add(result, Mul(a, b))
            == Add(if b.b0 then Add(result, a) else result, Mul(Xtime(a), ShiftRight(b)))
  {
    if b != ZERO {
      hide Add;
      AddLaws(result, if b.b0 then a else ZERO, Mul(Xtime(a), ShiftRight(b)));
      AddLaws(result, ZERO, ZERO);
    }
  }

  /** Square-and-multiply six times, then one more squaring. */
  method Invert(a: Byte) returns (result: Byte)
    ensures result == Inv(a)
  {
    if a == ZERO {
      InvZero();
      return ZERO;
    }
    result := a;
    for i := 0 to 6
      invariant result == Ladder(a, i)
    {
      result := Multiply(result, result);
      result := Multiply(result, a);
    }
    result := Multiply(result, result);
  }
}
