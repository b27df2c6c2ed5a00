/**
 * The field the codec asks its library for: bytes as polynomials over two elements, modulo x^8 + x^4 + x^3 + x^2 + 1,
 * the library's polynomial for words of 8 bits. It obeys every law that `Lawful` asks for.
 */
module Gf256 {
  import opened GaloisField

  // ------------------------------------------------------------ multiplication bit by bit

  /** Multiplication by x. */
  function Double(a: bv8): bv8 {
    if a & 0x80 == 0 then a << 1 else (a << 1) ^ 0x1D
  }

  /** The lowest bit of b times a. */
  function Low(a: bv8, b: bv8): bv8 {
    if b & 1 == 0 then 0 else a
  }

  function Half(b: bv8): bv8 {
    b >> 1
  }

  function Plus(a: bv8, b: bv8): bv8 {
    a ^ b
  }

  lemma HalfIsLess(b: bv8)
    requires b != 0
    ensures Half(b) < b
  {
  }

  function Times(a: bv8, b: bv8): bv8
    decreases b, a
  {
    if b == 0 then 0 else
      HalfIsLess(b);
      Plus(Double(Times(a, Half(b))), Low(a, b))
  }

  lemma PlusAssociates(a: bv8, b: bv8, c: bv8)
    ensures Plus(Plus(a, b), c) == Plus(a, Plus(b, c))
  {
  }

  lemma PlusCommutes(a: bv8, b: bv8)
    ensures Plus(a, b) == Plus(b, a)
  {
  }

  lemma Swap(p: bv8, q: bv8, r: bv8, s: bv8)
    ensures Plus(Plus(p, q), Plus(r, s)) == Plus(Plus(p, r), Plus(q, s))
  {
    hide Plus;
    PlusAssociates(p, q, Plus(r, s));
    PlusAssociates(q, r, s);
    PlusCommutes(q, r);
    PlusAssociates(r, q, s);
    PlusAssociates(p, r, Plus(q, s));
  }

  function Shift(a: bv8): bv8 {
    a << 1
  }

  function Carry(a: bv8): bv8 {
    if a & 0x80 == 0 then 0 else 0x1D
  }

  lemma DoubleIs(a: bv8)
    ensures Double(a) == Plus(Shift(a), Carry(a))
  {
  }

  lemma ShiftAdds(a: bv8, b: bv8)
    ensures Shift(Plus(a, b)) == Plus(Shift(a), Shift(b))
  {
  }

  lemma CarryAdds(a: bv8, b: bv8)
    ensures Carry(Plus(a, b)) == Plus(Carry(a), Carry(b))
  {
  }

  lemma DoubleAdds(a: bv8, b: bv8)
    ensures Double(Plus(a, b)) == Plus(Double(a), Double(b))
  {
    hide *;
    DoubleIs(a);
    DoubleIs(b);
    DoubleIs(Plus(a, b));
    ShiftAdds(a, b);
    CarryAdds(a, b);
    Swap(Shift(a), Carry(a), Shift(b), Carry(b));
  }

  lemma LowAdds(a: bv8, c: bv8, b: bv8)
    ensures Low(Plus(a, c), b) == Plus(Low(a, b), Low(c, b))
  {
  }

  lemma LowDoubles(a: bv8, b: bv8)
    ensures Low(Double(a), b) == Double(Low(a, b))
  {
  }

  lemma Halves(b: bv8)
    ensures b == Plus(Double(Half(b)), Low(1, b))
  {
  }

  lemma {:induction false} AddsLeft(a: bv8, c: bv8, b: bv8)
    ensures Times(Plus(a, c), b) == Plus(Times(a, b), Times(c, b))
    decreases b
  {
    hide Plus, Double, Low, Half;
    if b == 0 {
      assert Plus(0, 0) == 0 by { PlusZero(0); }
    } else {
      HalfIsLess(b);
      var x, y := Times(a, Half(b)), Times(c, Half(b));
      AddsLeft(a, c, Half(b));
      DoubleAdds(x, y);
      LowAdds(a, c, b);
      Swap(Double(x), Double(y), Low(a, b), Low(c, b));
    }
  }

  lemma PlusZero(a: bv8)
    ensures Plus(a, 0) == a && Plus(0, a) == a && Plus(a, a) == 0 && Double(0) == 0
  {
  }

  lemma {:induction false} DoublesLeft(a: bv8, b: bv8)
    ensures Times(Double(a), b) == Double(Times(a, b))
    decreases b
  {
    hide Plus, Double, Low, Half;
    if b == 0 {
      PlusZero(0);
    } else {
      HalfIsLess(b);
      var x := Times(a, Half(b));
      DoublesLeft(a, Half(b));
      LowDoubles(a, b);
      DoubleAdds(Double(x), Low(a, b));
    }
  }

  lemma {:induction false} OneTimes(b: bv8)
    ensures Times(1, b) == b
    decreases b
  {
    hide Plus, Double, Low, Half;
    if b != 0 {
      HalfIsLess(b);
      OneTimes(Half(b));
      Halves(b);
    }
  }

  lemma {:induction false} ZeroTimes(b: bv8)
    ensures Times(0, b) == 0
    decreases b
  {
    if b != 0 {
      HalfIsLess(b);
      ZeroTimes(Half(b));
    }
  }

  lemma LowTimes(a: bv8, b: bv8, c: bv8)
    ensures Times(Low(a, b), c) == Low(Times(a, c), b)
  {
    ZeroTimes(c);
  }

  /** Multiplication commutes: b is the double of its half, plus its lowest bit. */
  lemma {:induction false} TimesCommutes(a: bv8, b: bv8)
    ensures Times(a, b) == Times(b, a)
    decreases b
  {
    hide Plus, Double, Low, Half;
    if b == 0 {
      ZeroTimes(a);
    } else {
      HalfIsLess(b);
      TimesCommutes(a, Half(b));
      Halves(b);
      AddsLeft(Double(Half(b)), Low(1, b), a);
      DoublesLeft(Half(b), a);
      LowTimes(1, b, a);
      OneTimes(a);
    }
  }

  lemma AddsRight(a: bv8, b: bv8, c: bv8)
    ensures Times(a, Plus(b, c)) == Plus(Times(a, b), Times(a, c))
  {
    hide Plus, Times;
    TimesCommutes(a, Plus(b, c));
    TimesCommutes(a, b);
    TimesCommutes(a, c);
    AddsLeft(b, c, a);
  }

  lemma {:induction false} TimesAssociates(a: bv8, b: bv8, c: bv8)
    ensures Times(Times(a, b), c) == Times(a, Times(b, c))
    decreases c
  {
    hide Plus, Double, Low, Half;
    if c == 0 {
    } else {
      HalfIsLess(c);
      var x := Times(b, Half(c));
      TimesAssociates(a, b, Half(c));
      AddsRight(a, Double(x), Low(b, c));
      DoublesLeft(x, a);
      TimesCommutes(a, Double(x));
      TimesCommutes(a, x);
      TimesCommutes(a, Low(b, c));
      LowTimes(b, c, a);
      TimesCommutes(a, b);
    }
  }

  // ------------------------------------------------------------ inverses

  function Square(a: bv8): bv8 {
    Times(a, a)
  }

  /** Squared n times. */
  function Frobenius(a: bv8, n: nat): bv8 {
    if n == 0 then a else Square(Frobenius(a, n - 1))
  }

  lemma SquareAdds(a: bv8, b: bv8)
    ensures Square(Plus(a, b)) == Plus(Square(a), Square(b))
  {
    hide Plus, Times;
    AddsLeft(a, b, Plus(a, b));
    AddsRight(a, a, b);
    AddsRight(b, a, b);
    TimesCommutes(a, b);
    var x := Times(a, b);
    PlusCommutes(x, Times(b, b));
    Swap(Times(a, a), x, Times(b, b), x);
    PlusZero(x);
    PlusZero(Plus(Times(a, a), Times(b, b)));
  }

  lemma SquareMultiplies(a: bv8, b: bv8)
    ensures Square(Times(a, b)) == Times(Square(a), Square(b))
  {
    hide Times;
    TimesAssociates(a, b, Times(a, b));
    TimesAssociates(b, a, b);
    TimesCommutes(a, b);
    TimesAssociates(a, b, b);
    TimesAssociates(a, a, Times(b, b));
  }

  lemma {:induction false} FrobeniusIsRingMap(a: bv8, b: bv8, n: nat)
    ensures Frobenius(Plus(a, b), n) == Plus(Frobenius(a, n), Frobenius(b, n))
    ensures Frobenius(Times(a, b), n) == Times(Frobenius(a, n), Frobenius(b, n))
    decreases n
  {
    hide Plus, Times, Square;
    if n > 0 {
      FrobeniusIsRingMap(a, b, n - 1);
      SquareAdds(Frobenius(a, n - 1), Frobenius(b, n - 1));
      SquareMultiplies(Frobenius(a, n - 1), Frobenius(b, n - 1));
    }
  }

  lemma TimesX(a: bv8)
    ensures Times(a, 2) == Double(a)
  {
    hide Double;
    TimesCommutes(a, 1);
    OneTimes(a);
    assert Half(2) == 1 && Low(a, 2) == 0;
    PlusZero(Double(a));
  }

  function Step(acc: bv8, a: bv8, b: bv8): bv8 {
    Plus(Double(acc), Low(a, b))
  }

  /** Squaring as eight steps, from the highest bit down. */
  function EightSteps(a: bv8): bv8 {
    Step(Step(Step(Step(Step(Step(Step(Step(0, a, a >> 7), a, a >> 6), a, a >> 5), a, a >> 4), a, a >> 3), a, a >> 2),
              a, a >> 1), a, a)
  }

  lemma StepsIdempotent(e: bv8)
    requires EightSteps(e) == e
    ensures e == 0 || e == 1
  {
  }

  lemma Unfold(a: bv8, b: bv8)
    ensures Times(a, b) == Step(Times(a, Half(b)), a, b)
  {
    if b == 0 {
      PlusZero(0);
    }
  }

  lemma HalfOfShifted(a: bv8)
    ensures Half(a) == a >> 1 && Half(a >> 1) == a >> 2 && Half(a >> 2) == a >> 3 && Half(a >> 3) == a >> 4
    ensures Half(a >> 4) == a >> 5 && Half(a >> 5) == a >> 6 && Half(a >> 6) == a >> 7 && Half(a >> 7) == 0
  {
  }

  lemma SquareIsEightSteps(a: bv8)
    ensures Square(a) == EightSteps(a)
  {
    hide Half, Step, Times;
    HalfOfShifted(a);
    Unfold(a, a >> 7);
    Unfold(a, a >> 6);
    Unfold(a, a >> 5);
    Unfold(a, a >> 4);
    Unfold(a, a >> 3);
    Unfold(a, a >> 2);
    Unfold(a, a >> 1);
    Unfold(a, a);
    assert Times(a, 0) == 0 by { TimesZero(a); }
  }

  lemma TimesZero(a: bv8)
    ensures Times(a, 0) == 0
  {
  }

  lemma SquaresOfX()
    ensures Square(2) == 4 && Square(4) == 0x10 && Square(0x10) == 0x1D && Square(0x1D) == 0x4C
    ensures Square(0x4C) == 0x9D && Square(0x9D) == 0x5F && Square(0x5F) == 0x85 && Square(0x85) == 2
  {
    hide Square;
    SquareIsEightSteps(2);
    SquareIsEightSteps(4);
    SquareIsEightSteps(0x10);
    SquareIsEightSteps(0x1D);
    SquareIsEightSteps(0x4C);
    SquareIsEightSteps(0x9D);
    SquareIsEightSteps(0x5F);
    SquareIsEightSteps(0x85);
  }

  lemma EightSquaringsFixX()
    ensures Frobenius(2, 8) == 2
  {
    hide Square;
    SquaresOfX();
    assert Frobenius(2, 4) == 0x4C;
  }

  lemma {:induction false} SquaringsFixUnits(n: nat)
    ensures Frobenius(0, n) == 0 && Frobenius(1, n) == 1
    decreases n
  {
    hide Times;
    OneTimes(1);
    ZeroTimes(0);
    if n > 0 {
      SquaringsFixUnits(n - 1);
    }
  }

  /** Squaring eight times leaves x alone, so it leaves every polynomial in x alone. */
  lemma {:induction false} EightSquaringsFix(b: bv8)
    ensures Frobenius(b, 8) == b
    decreases b
  {
    hide Plus, Times, Square, Double, Half, Frobenius;
    SquaringsFixUnits(8);
    if b != 0 {
      HalfIsLess(b);
      EightSquaringsFix(Half(b));
      EightSquaringsFixX();
      Halves(b);
      TimesX(Half(b));
      FrobeniusIsRingMap(Double(Half(b)), Low(1, b), 8);
      FrobeniusIsRingMap(Half(b), 2, 8);
    }
  }

  /** The product of the squares up to the n-th: a to the power 2 + 4 + ... + 2^n. */
  function Squares(a: bv8, n: nat): bv8 {
    if n == 0 then 1 else Times(Squares(a, n - 1), Frobenius(a, n))
  }

  lemma {:induction false} SquaresTelescope(a: bv8, n: nat)
    ensures Times(Squares(a, n), Square(a)) == Frobenius(a, n + 1)
    decreases n
  {
    hide Times;
    if n == 0 {
      OneTimes(Square(a));
      assert Frobenius(a, 1) == Square(Frobenius(a, 0));
    } else {
      var p, f := Squares(a, n - 1), Frobenius(a, n);
      SquaresTelescope(a, n - 1);
      TimesCommutes(p, f);
      TimesAssociates(f, p, Square(a));
    }
  }

  function Inverse(a: bv8): bv8 {
    Squares(a, 7)
  }

  lemma OnlyUnitsAreIdempotent(e: bv8)
    requires Times(e, e) == e
    ensures e == 0 || e == 1
  {
    hide Times, EightSteps;
    SquareIsEightSteps(e);
    StepsIdempotent(e);
  }

  /**
   * The inverse times a is idempotent, because it leaves a alone; an idempotent other than zero is one, since the
   * polynomial has no proper factor.
   */
  lemma InverseWorks(a: bv8)
    requires a != 0
    ensures Times(Inverse(a), a) == 1
  {
    hide Times, Squares;
    var v := Inverse(a);
    var e := Times(v, a);
    SquaresTelescope(a, 7);
    EightSquaringsFix(a);
    TimesAssociates(v, a, a);
    assert Times(e, a) == a;
    TimesAssociates(v, a, e);
    TimesCommutes(a, e);
    assert Times(e, e) == e;
    OnlyUnitsAreIdempotent(e);
    ZeroTimes(a);
  }

  // ------------------------------------------------------------ on bytes

  function Bits(a: byte): bv8 {
    a as bv8
  }

  function Byte(v: bv8): byte {
    v as byte
  }

  lemma SameBits(v: bv8)
    ensures Bits(Byte(v)) == v
  {
  }

  lemma NextByte(v: bv8)
    requires v as int < 255
    ensures (v + 1) as int == v as int + 1
  {
  }

  lemma {:induction false} EveryByte(a: byte) returns (v: bv8)
    ensures Byte(v) == a
    decreases a
  {
    if a == 0 {
      v := 0;
    } else {
      v := EveryByte(a - 1);
      NextByte(v);
      v := v + 1;
    }
  }

  lemma SameByte(a: byte)
    ensures Byte(Bits(a)) == a
  {
    hide Byte, Bits;
    var v := EveryByte(a);
    SameBits(v);
  }

  /** What the library's object offers for words of 8 bits. */
  function Library(): Field {
    Field((a, b) => Byte(Plus(Bits(a), Bits(b))),
          (a, b) => Byte(Times(Bits(a), Bits(b))),
          (a, b) => Byte(Times(Bits(a), Inverse(Bits(b)))))
  }

  lemma Constants()
    ensures Bits(0) == 0 && Bits(1) == 1 && Byte(0) == 0 && Byte(1) == 1
  {
  }

  lemma LawsOfOne(F: Field, a: byte)
    requires F == Library()
    ensures F.add(a, 0) == a && F.add(a, a) == 0 && F.multiply(a, 1) == a && F.multiply(a, 0) == 0
  {
    hide Bits, Byte, Plus, Times;
    var v := Bits(a);
    Constants();
    SameByte(a);
    PlusZero(v);
    TimesCommutes(v, 1);
    OneTimes(v);
    TimesZero(v);
  }

  lemma LawsOfTwo(F: Field, a: byte, b: byte)
    requires F == Library()
    ensures F.add(a, b) == F.add(b, a) && F.multiply(a, b) == F.multiply(b, a)
    ensures b != 0 ==> F.multiply(F.divide(a, b), b) == a
  {
    hide Bits, Byte, Plus, Times, Inverse;
    var v, w := Bits(a), Bits(b);
    PlusCommutes(v, w);
    TimesCommutes(v, w);
    if b != 0 {
      Constants();
      SameByte(a);
      SameByte(b);
      SameBits(Times(v, Inverse(w)));
      TimesAssociates(v, Inverse(w), w);
      InverseWorks(w);
      TimesCommutes(v, 1);
      OneTimes(v);
    }
  }

  lemma LawsOfThree(F: Field, a: byte, b: byte, c: byte)
    requires F == Library()
    ensures F.add(F.add(a, b), c) == F.add(a, F.add(b, c))
    ensures F.multiply(F.multiply(a, b), c) == F.multiply(a, F.multiply(b, c))
    ensures F.multiply(a, F.add(b, c)) == F.add(F.multiply(a, b), F.multiply(a, c))
  {
    hide Bits, Byte, Plus, Times;
    var u, v, w := Bits(a), Bits(b), Bits(c);
    SameBits(Plus(u, v));
    SameBits(Plus(v, w));
    SameBits(Times(u, v));
    SameBits(Times(v, w));
    SameBits(Times(u, w));
    PlusAssociates(u, v, w);
    TimesAssociates(u, v, w);
    AddsRight(u, v, w);
  }

  /** The field exists: everything proved of a lawful field holds of this one. */
  lemma LibraryIsLawful()
    ensures Library().Lawful()
  {
    hide Library;
    var F := Library();
    forall a: byte {:trigger Law1(a)} | Law1(a)
      ensures F.add(a, 0) == a && F.add(a, a) == 0 && F.multiply(a, 1) == a && F.multiply(a, 0) == 0
    {
      LawsOfOne(F, a);
    }
    forall a: byte, b: byte {:trigger Law2(a, b)} | Law2(a, b)
      ensures F.add(a, b) == F.add(b, a) && F.multiply(a, b) == F.multiply(b, a)
      ensures b != 0 ==> F.multiply(F.divide(a, b), b) == a
    {
      LawsOfTwo(F, a, b);
    }
    forall a: byte, b: byte, c: byte {:trigger Law3(a, b, c)} | Law3(a, b, c)
      ensures F.add(F.add(a, b), c) == F.add(a, F.add(b, c))
      ensures F.multiply(F.multiply(a, b), c) == F.multiply(a, F.multiply(b, c))
      ensures F.multiply(a, F.add(b, c)) == F.add(F.multiply(a, b), F.multiply(a, c))
    {
      LawsOfThree(F, a, b, c);
    }
  }
}
