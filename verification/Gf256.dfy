/** The field GF(2^8) of the erasure code: bytes, with XOR as addition and
    multiplication modulo x^8 + x^4 + x^3 + x^2 + 1 (0x11D).

    `Mul` is the reference multiplication, carry-less and reduced. The program
    multiplies through logarithm tables instead; `GfMul` is that form, and it
    is proved equal to `Mul`. A byte is its eight bits, and `ToInt` and `OfInt`
    are the integers the program uses as table indices and matrix points. */
module Gf256 {
  import opened Wrappers

  datatype Bit = O | I

  datatype Byte = Byte(b7: Bit, b6: Bit, b5: Bit, b4: Bit, b3: Bit, b2: Bit, b1: Bit, b0: Bit)

  const ZERO := Byte(O, O, O, O, O, O, O, O)
  const ONE := Byte(O, O, O, O, O, O, O, I)
  const POLYNOMIAL := 0x11D
  /** The polynomial without its leading bit. */
  const REDUCTION := Byte(O, O, O, I, I, I, O, I)

  /** Addition of bits. */
  function Plus(x: Bit, y: Bit): Bit {
    if x == y then O else I
  }

  lemma PlusLaws(x: Bit, y: Bit, z: Bit, w: Bit)
    ensures Plus(Plus(x, y), Plus(z, w)) == Plus(Plus(x, z), Plus(y, w))
    ensures Plus(Plus(x, y), z) == Plus(x, Plus(y, z))
    ensures Plus(x, y) == Plus(y, x) && Plus(x, O) == x && Plus(O, x) == x
    ensures Plus(x, x) == O && (Plus(x, y) == O <==> x == y)
  {
  }

  function Xor(a: Byte, b: Byte): Byte {
    Byte(Plus(a.b7, b.b7), Plus(a.b6, b.b6), Plus(a.b5, b.b5), Plus(a.b4, b.b4),
         Plus(a.b3, b.b3), Plus(a.b2, b.b2), Plus(a.b1, b.b1), Plus(a.b0, b.b0))
  }

  function Shift(v: Byte): Byte {
    Byte(v.b6, v.b5, v.b4, v.b3, v.b2, v.b1, v.b0, O)
  }

  /** One doubling of `build_tables`: shift left, and reduce by 0x11D on overflow. */
  function Double(v: Byte): Byte {
    if v.b7 == I then Xor(Shift(v), REDUCTION) else Shift(v)
  }

  /** The powers of the generator 2. */
  function Exp(n: nat): Byte {
    if n == 0 then ONE else Double(Exp(n - 1))
  }

  function When(c: Bit, b: Byte): Byte {
    if c == I then b else ZERO
  }

  /** One step of Horner's rule: double what is there, and add b for a set bit. */
  function HornerStep(r: Byte, x: Bit, b: Byte): Byte {
    Xor(Double(r), When(x, b))
  }

  /** Reference multiplication: polynomial product, reduced at every doubling. */
  function Mul(a: Byte, b: Byte): Byte {
    HornerStep(HornerStep(HornerStep(HornerStep(HornerStep(HornerStep(HornerStep(HornerStep(
      ZERO, a.b7, b), a.b6, b), a.b5, b), a.b4, b), a.b3, b), a.b2, b), a.b1, b), a.b0, b)
  }

  // ----- addition

  lemma XorSwap(a: Byte, b: Byte, c: Byte, d: Byte)
    ensures Xor(Xor(a, b), Xor(c, d)) == Xor(Xor(a, c), Xor(b, d))
  {
    hide Plus;
    PlusLaws(a.b7, b.b7, c.b7, d.b7);
    PlusLaws(a.b6, b.b6, c.b6, d.b6);
    PlusLaws(a.b5, b.b5, c.b5, d.b5);
    PlusLaws(a.b4, b.b4, c.b4, d.b4);
    PlusLaws(a.b3, b.b3, c.b3, d.b3);
    PlusLaws(a.b2, b.b2, c.b2, d.b2);
    PlusLaws(a.b1, b.b1, c.b1, d.b1);
    PlusLaws(a.b0, b.b0, c.b0, d.b0);
  }

  lemma XorAssociates(a: Byte, b: Byte, c: Byte)
    ensures Xor(Xor(a, b), c) == Xor(a, Xor(b, c))
  {
    hide Plus;
    PlusLaws(a.b7, b.b7, c.b7, O);
    PlusLaws(a.b6, b.b6, c.b6, O);
    PlusLaws(a.b5, b.b5, c.b5, O);
    PlusLaws(a.b4, b.b4, c.b4, O);
    PlusLaws(a.b3, b.b3, c.b3, O);
    PlusLaws(a.b2, b.b2, c.b2, O);
    PlusLaws(a.b1, b.b1, c.b1, O);
    PlusLaws(a.b0, b.b0, c.b0, O);
  }

  lemma XorCommutes(a: Byte, b: Byte)
    ensures Xor(a, b) == Xor(b, a)
  {
    hide Plus;
    PlusLaws(a.b7, b.b7, O, O);
    PlusLaws(a.b6, b.b6, O, O);
    PlusLaws(a.b5, b.b5, O, O);
    PlusLaws(a.b4, b.b4, O, O);
    PlusLaws(a.b3, b.b3, O, O);
    PlusLaws(a.b2, b.b2, O, O);
    PlusLaws(a.b1, b.b1, O, O);
    PlusLaws(a.b0, b.b0, O, O);
  }

  lemma XorZero(a: Byte)
    ensures Xor(a, ZERO) == a && Xor(ZERO, a) == a && Xor(a, a) == ZERO
  {
    hide Plus;
    PlusLaws(a.b7, a.b7, O, O);
    PlusLaws(a.b6, a.b6, O, O);
    PlusLaws(a.b5, a.b5, O, O);
    PlusLaws(a.b4, a.b4, O, O);
    PlusLaws(a.b3, a.b3, O, O);
    PlusLaws(a.b2, a.b2, O, O);
    PlusLaws(a.b1, a.b1, O, O);
    PlusLaws(a.b0, a.b0, O, O);
  }

  lemma XorCancels(a: Byte, b: Byte)
    ensures Xor(a, b) == ZERO <==> a == b
  {
    hide Plus;
    PlusLaws(a.b7, b.b7, O, O);
    PlusLaws(a.b6, b.b6, O, O);
    PlusLaws(a.b5, b.b5, O, O);
    PlusLaws(a.b4, b.b4, O, O);
    PlusLaws(a.b3, b.b3, O, O);
    PlusLaws(a.b2, b.b2, O, O);
    PlusLaws(a.b1, b.b1, O, O);
    PlusLaws(a.b0, b.b0, O, O);
  }

  // ----- laws that follow the bits of the factors

  lemma DoubleForm(v: Byte)
    ensures Double(v) == Byte(v.b6, v.b5, v.b4, Plus(v.b3, v.b7), Plus(v.b2, v.b7), Plus(v.b1, v.b7), v.b0, v.b7)
  {
  }

  lemma DoubleSum(a: Byte, b: Byte)
    ensures Double(Xor(a, b)) == Xor(Double(a), Double(b))
  {
    hide Double;
    DoubleForm(a); DoubleForm(b); DoubleForm(Xor(a, b));
  }

  /** x^8 = x^4 + x^3 + x^2 + 1, applied to any byte. */
  lemma Reduction(b: Byte, b1: Byte, b2: Byte, b3: Byte, b4: Byte, b5: Byte, b6: Byte, b7: Byte)
    requires b1 == Double(b) && b2 == Double(b1) && b3 == Double(b2) && b4 == Double(b3)
    requires b5 == Double(b4) && b6 == Double(b5) && b7 == Double(b6)
    ensures Double(b7) == Xor(Xor(b4, b3), Xor(b2, b))
  {
    hide Double;
    DoubleForm(b); DoubleForm(b1); DoubleForm(b2); DoubleForm(b3);
    DoubleForm(b4); DoubleForm(b5); DoubleForm(b6); DoubleForm(b7);
    if b.b7 == I {
      if b.b6 == I {
      } else {
      }
    } else {
      if b.b6 == I {
      } else {
      }
    }
  }

  lemma StepSum(r: Byte, s: Byte, x: Bit, b: Byte, c: Byte)
    ensures HornerStep(Xor(r, s), x, Xor(b, c)) == Xor(HornerStep(r, x, b), HornerStep(s, x, c))
  {
    hide Xor, Double;
    DoubleSum(r, s);
    XorZero(ZERO);
    XorSwap(Double(r), Double(s), When(x, b), When(x, c));
  }

  lemma StepSumLeft(r: Byte, s: Byte, x: Bit, y: Bit, b: Byte)
    ensures HornerStep(Xor(r, s), Plus(x, y), b) == Xor(HornerStep(r, x, b), HornerStep(s, y, b))
  {
    hide Xor, Double;
    DoubleSum(r, s);
    XorZero(ZERO);
    XorZero(b);
    XorSwap(Double(r), Double(s), When(x, b), When(y, b));
  }

  lemma StepClear(r: Byte, b: Byte)
    ensures HornerStep(r, O, b) == Double(r) && HornerStep(ZERO, I, b) == b && Double(ZERO) == ZERO
  {
    assert Double(ZERO) == ZERO;
    hide Xor, Double;
    XorZero(Double(r));
    XorZero(b);
  }

  /** Multiplication distributes over addition. */
  lemma MulSum(a: Byte, b: Byte, c: Byte)
    ensures Mul(a, Xor(b, c)) == Xor(Mul(a, b), Mul(a, c))
  {
    hide Xor, HornerStep;
    XorZero(ZERO);
    var r, s := ZERO, ZERO;
    StepSum(r, s, a.b7, b, c);
    r, s := HornerStep(r, a.b7, b), HornerStep(s, a.b7, c);
    StepSum(r, s, a.b6, b, c);
    r, s := HornerStep(r, a.b6, b), HornerStep(s, a.b6, c);
    StepSum(r, s, a.b5, b, c);
    r, s := HornerStep(r, a.b5, b), HornerStep(s, a.b5, c);
    StepSum(r, s, a.b4, b, c);
    r, s := HornerStep(r, a.b4, b), HornerStep(s, a.b4, c);
    StepSum(r, s, a.b3, b, c);
    r, s := HornerStep(r, a.b3, b), HornerStep(s, a.b3, c);
    StepSum(r, s, a.b2, b, c);
    r, s := HornerStep(r, a.b2, b), HornerStep(s, a.b2, c);
    StepSum(r, s, a.b1, b, c);
    r, s := HornerStep(r, a.b1, b), HornerStep(s, a.b1, c);
    StepSum(r, s, a.b0, b, c);
  }

  lemma MulSumLeft(a: Byte, c: Byte, b: Byte)
    ensures Mul(Xor(a, c), b) == Xor(Mul(a, b), Mul(c, b))
  {
    var x := Xor(a, c);
    hide Plus;
    assert && x.b7 == Plus(a.b7, c.b7) && x.b6 == Plus(a.b6, c.b6) && x.b5 == Plus(a.b5, c.b5)
           && x.b4 == Plus(a.b4, c.b4) && x.b3 == Plus(a.b3, c.b3) && x.b2 == Plus(a.b2, c.b2)
           && x.b1 == Plus(a.b1, c.b1) && x.b0 == Plus(a.b0, c.b0);
    hide Xor, HornerStep;
    XorZero(ZERO);
    var r, s := ZERO, ZERO;
    StepSumLeft(r, s, a.b7, c.b7, b);
    r, s := HornerStep(r, a.b7, b), HornerStep(s, c.b7, b);
    StepSumLeft(r, s, a.b6, c.b6, b);
    r, s := HornerStep(r, a.b6, b), HornerStep(s, c.b6, b);
    StepSumLeft(r, s, a.b5, c.b5, b);
    r, s := HornerStep(r, a.b5, b), HornerStep(s, c.b5, b);
    StepSumLeft(r, s, a.b4, c.b4, b);
    r, s := HornerStep(r, a.b4, b), HornerStep(s, c.b4, b);
    StepSumLeft(r, s, a.b3, c.b3, b);
    r, s := HornerStep(r, a.b3, b), HornerStep(s, c.b3, b);
    StepSumLeft(r, s, a.b2, c.b2, b);
    r, s := HornerStep(r, a.b2, b), HornerStep(s, c.b2, b);
    StepSumLeft(r, s, a.b1, c.b1, b);
    r, s := HornerStep(r, a.b1, b), HornerStep(s, c.b1, b);
    StepSumLeft(r, s, a.b0, c.b0, b);
  }

  lemma MulZero(a: Byte)
    ensures Mul(a, ZERO) == ZERO && Mul(ZERO, a) == ZERO
  {
    assert forall x :: HornerStep(ZERO, x, ZERO) == ZERO;
    hide HornerStep, Double;
    StepClear(ZERO, a);
  }

  lemma MulOne(a: Byte)
    ensures Mul(ONE, a) == a
  {
    hide HornerStep, Double;
    StepClear(ZERO, a);
  }

  lemma MulShift(a: Byte, b: Byte)
    requires a.b7 == O
    ensures Mul(Shift(a), b) == Double(Mul(a, b))
  {
    hide HornerStep, Double;
    StepClear(ZERO, b);
    StepClear(Mul(a, b), b);
  }

  lemma MulOverflow(b: Byte)
    ensures Mul(REDUCTION, b) == Double(Mul(Byte(I, O, O, O, O, O, O, O), b))
  {
    var high := Byte(I, O, O, O, O, O, O, O);
    var two, four, eight := Shift(ONE), Shift(Shift(ONE)), Shift(Shift(Shift(ONE)));
    var b1 := Double(b);
    var b2 := Double(b1);
    var b3 := Double(b2);
    var b4 := Double(b3);
    var b5 := Double(b4);
    var b6 := Double(b5);
    var b7 := Double(b6);
    Reduction(b, b1, b2, b3, b4, b5, b6, b7);
    var x4 := Shift(eight);
    var x5 := Shift(x4);
    var x6 := Shift(x5);
    assert Shift(x6) == high;
    assert REDUCTION == Xor(Xor(x4, eight), Xor(four, ONE));
    assert O == ONE.b7 == two.b7 == four.b7 == eight.b7 == x4.b7 == x5.b7 == x6.b7;
    hide *;
    MulOne(b); MulShift(ONE, b); MulShift(two, b); MulShift(four, b); MulShift(eight, b);
    MulShift(x4, b); MulShift(x5, b); MulShift(x6, b);
    MulSumLeft(x4, eight, b); MulSumLeft(four, ONE, b);
    MulSumLeft(Xor(x4, eight), Xor(four, ONE), b);
  }

  lemma MulDouble(a: Byte, b: Byte)
    ensures Mul(Double(a), b) == Double(Mul(a, b))
  {
    var high := Byte(I, O, O, O, O, O, O, O);
    var low := a.(b7 := O);
    assert if a.b7 == I then a == Xor(low, high) && Double(a) == Xor(Shift(low), REDUCTION)
           else a == low && Double(a) == Shift(low);
    assert low.b7 == O;
    hide *;
    MulShift(low, b);
    if a.b7 == I {
      MulSumLeft(Shift(low), REDUCTION, b);
      MulSumLeft(low, high, b);
      MulOverflow(b);
      DoubleSum(Mul(low, b), Mul(high, b));
    }
  }

  // ----- the powers of 2 run through every nonzero byte exactly once

  lemma {:induction false} ExpSum(m: nat, n: nat)
    ensures Mul(Exp(m), Exp(n)) == Exp(m + n)
  {
    hide Mul, Double;
    if m == 0 {
      MulOne(Exp(n));
    } else {
      ExpSum(m - 1, n);
      MulDouble(Exp(m - 1), Exp(n));
    }
  }

  lemma Product(m: nat, n: nat, x: Byte, y: Byte, xy: Byte)
    requires Exp(m) == x && Exp(n) == y && Mul(x, y) == xy
    ensures Exp(m + n) == xy
  {
    ExpSum(m, n);
  }

  lemma Powers4()
    ensures Exp(1) == Byte(O, O, O, O, O, O, I, O)
    ensures Exp(4) == Byte(O, O, O, I, O, O, O, O)
  {
    assert Exp(0) == ONE;
  }

  lemma Powers16()
    ensures Exp(8) == Byte(O, O, O, I, I, I, O, I) && Exp(16) == Byte(O, I, O, O, I, I, O, O)
  {
    hide Exp;
    Powers4();
    Product(4, 4, Byte(O, O, O, I, O, O, O, O), Byte(O, O, O, I, O, O, O, O),
            Byte(O, O, O, I, I, I, O, I));
    Product(8, 8, Byte(O, O, O, I, I, I, O, I), Byte(O, O, O, I, I, I, O, I),
            Byte(O, I, O, O, I, I, O, O));
  }

  lemma Powers64()
    ensures Exp(32) == Byte(I, O, O, I, I, I, O, I) && Exp(64) == Byte(O, I, O, I, I, I, I, I)
  {
    hide Exp;
    Powers16();
    Product(16, 16, Byte(O, I, O, O, I, I, O, O), Byte(O, I, O, O, I, I, O, O),
            Byte(I, O, O, I, I, I, O, I));
    Product(32, 32, Byte(I, O, O, I, I, I, O, I), Byte(I, O, O, I, I, I, O, I),
            Byte(O, I, O, I, I, I, I, I));
  }

  lemma Powers12()
    ensures Exp(3) == Byte(O, O, O, O, I, O, O, O) && Exp(12) == Byte(I, I, O, O, I, I, O, I)
  {
    hide Exp;
    Powers4();
    Powers16();
    Product(4, 8, Byte(O, O, O, I, O, O, O, O), Byte(O, O, O, I, I, I, O, I),
            Byte(I, I, O, O, I, I, O, I));
    Product(1, 1, Byte(O, O, O, O, O, O, I, O), Byte(O, O, O, O, O, O, I, O),
            Byte(O, O, O, O, O, I, O, O));
    Product(1, 2, Byte(O, O, O, O, O, O, I, O), Byte(O, O, O, O, O, I, O, O),
            Byte(O, O, O, O, I, O, O, O));
  }

  lemma Power15()
    ensures Exp(15) == Byte(O, O, I, O, O, I, I, O)
  {
    hide Exp;
    Powers12();
    Product(3, 12, Byte(O, O, O, O, I, O, O, O), Byte(I, I, O, O, I, I, O, I),
            Byte(O, O, I, O, O, I, I, O));
  }

  lemma Power51()
    ensures Exp(51) == Byte(O, O, O, O, I, O, I, O)
  {
    hide Exp;
    Powers16();
    Powers12();
    Powers64();
    Product(16, 32, Byte(O, I, O, O, I, I, O, O), Byte(I, O, O, I, I, I, O, I),
            Byte(O, I, O, O, O, I, I, O));
    Product(3, 48, Byte(O, O, O, O, I, O, O, O), Byte(O, I, O, O, O, I, I, O),
            Byte(O, O, O, O, I, O, I, O));
  }

  lemma Power85()
    ensures Exp(85) == Byte(I, I, O, I, O, I, I, O)
  {
    hide Exp;
    Powers16();
    Powers4();
    Powers64();
    Product(1, 4, Byte(O, O, O, O, O, O, I, O), Byte(O, O, O, I, O, O, O, O),
            Byte(O, O, I, O, O, O, O, O));
    Product(16, 64, Byte(O, I, O, O, I, I, O, O), Byte(O, I, O, I, I, I, I, I),
            Byte(I, I, I, I, I, I, O, I));
    Product(5, 80, Byte(O, O, I, O, O, O, O, O), Byte(I, I, I, I, I, I, O, I),
            Byte(I, I, O, I, O, I, I, O));
  }

  lemma Power255()
    ensures Exp(255) == Byte(O, O, O, O, O, O, O, I)
  {
    hide Exp;
    Power85();
    Product(85, 85, Byte(I, I, O, I, O, I, I, O), Byte(I, I, O, I, O, I, I, O),
            Byte(I, I, O, I, O, I, I, I));
    Product(170, 85, Byte(I, I, O, I, O, I, I, I), Byte(I, I, O, I, O, I, I, O),
            Byte(O, O, O, O, O, O, O, I));
  }

  /** The assertion in `build_tables` holds, and the power at each maximal
      proper divisor of 255 is not 1. */
  lemma ExpOrder()
    ensures Exp(255) == ONE && Exp(85) != ONE && Exp(51) != ONE && Exp(15) != ONE
  {
    hide Exp;
    Power15(); Power51(); Power85(); Power255();
  }

  lemma {:induction false} ExpCycles(d: nat, q: nat, r: nat)
    requires Exp(d) == ONE
    ensures Exp(d * q + r) == Exp(r)
  {
    if q > 0 {
      hide Exp, Mul;
      ExpCycles(d, q - 1, r);
      assert d * q + r == d + (d * (q - 1) + r);
      ExpSum(d, d * (q - 1) + r);
      MulOne(Exp(r));
    }
  }

  lemma DivisorsOf255(d: nat)
    requires 0 < d < 255 && 255 % d == 0
    ensures 85 % d == 0 || 51 % d == 0 || 15 % d == 0
  {
    var q := 255 / d;
    assert d * q == 255;
    assert d <= 15 || q <= 15;
    if d <= 15 {
      assert d in {1, 2, 3, 4, 5, 6, 7, 8, 9, 10, 11, 12, 13, 14, 15};
    } else {
      assert q in {2, 3, 4, 5, 6, 7, 8, 9, 10, 11, 12, 13, 14, 15};
    }
  }

  /** The generator has order exactly 255. */
  lemma {:induction false} ExpNotOne(d: nat)
    requires 0 < d < 255
    ensures Exp(d) != ONE
  {
    hide Exp;
    if Exp(d) == ONE {
      ExpOrder();
      var r := 255 % d;
      if r > 0 {
        ExpCycles(d, 255 / d, r);
        ExpNotOne(r);
      } else {
        DivisorsOf255(d);
        var m := if 85 % d == 0 then 85 else if 51 % d == 0 then 51 else 15;
        assert m == d * (m / d) + 0;
        ExpCycles(d, m / d, 0);
        ExpZero();
      }
    }
  }

  lemma ExpZero()
    ensures Exp(0) == ONE
  {
  }

  lemma ExpInjective(i: nat, j: nat)
    requires i < j < 255
    ensures Exp(i) != Exp(j)
  {
    hide Exp, Mul;
    if Exp(i) == Exp(j) {
      ExpOrder();
      ExpSum(255 - i, i);
      ExpSum(255 - i, j);
      ExpCycles(255, 1, j - i);
      assert 255 - i + j == 255 * 1 + (j - i);
      ExpNotOne(j - i);
    }
  }

  lemma {:induction false} ExpNonzero(n: nat)
    ensures Exp(n) != ZERO
  {
    if n > 0 {
      ExpNonzero(n - 1);
    }
  }

  // ----- bytes as integers

  function Unit(b: Bit): (r: nat) {
    if b == I then 1 else 0
  }

  function Join(low: Bit, high: nat): (r: nat) {
    Unit(low) + 2 * high
  }

  lemma JoinInjective(x: Bit, m: nat, y: Bit, n: nat)
    requires Join(x, m) == Join(y, n)
    ensures x == y && m == n
  {
  }

  function ToInt(b: Byte): (i: nat)
    ensures i < 256
  {
    Join(b.b0, Join(b.b1, Join(b.b2, Join(b.b3, Join(b.b4, Join(b.b5, Join(b.b6, Unit(b.b7))))))))
  }

  function Low(i: nat): Bit {
    if i % 2 == 1 then I else O
  }

  function Half(i: nat): nat {
    i / 2
  }

  lemma JoinHalves(i: nat)
    ensures Join(Low(i), Half(i)) == i
    ensures 2 * Half(i) <= i
  {
  }

  /** An integer below 256 as a byte. */
  function OfInt(i: nat): (b: Byte)
    requires i < 256
    ensures ToInt(b) == i
  {
    var i1 := Half(i);
    var i2 := Half(i1);
    var i3 := Half(i2);
    var i4 := Half(i3);
    var i5 := Half(i4);
    var i6 := Half(i5);
    var i7 := Half(i6);
    hide Join, Low, Half;
    JoinHalves(i); JoinHalves(i1); JoinHalves(i2); JoinHalves(i3); JoinHalves(i4); JoinHalves(i5); JoinHalves(i6);
    Byte(if i7 == 1 then I else O, Low(i6), Low(i5), Low(i4), Low(i3), Low(i2), Low(i1), Low(i))
  }

  lemma ToIntInjective(a: Byte, b: Byte)
    requires ToInt(a) == ToInt(b)
    ensures a == b
  {
    var a7, b7 := Unit(a.b7), Unit(b.b7);
    var a6, b6 := Join(a.b6, a7), Join(b.b6, b7);
    var a5, b5 := Join(a.b5, a6), Join(b.b5, b6);
    var a4, b4 := Join(a.b4, a5), Join(b.b4, b5);
    var a3, b3 := Join(a.b3, a4), Join(b.b3, b4);
    var a2, b2 := Join(a.b2, a3), Join(b.b2, b3);
    var a1, b1 := Join(a.b1, a2), Join(b.b1, b2);
    hide Join;
    JoinInjective(a.b0, a1, b.b0, b1);
    JoinInjective(a.b1, a2, b.b1, b2);
    JoinInjective(a.b2, a3, b.b2, b3);
    JoinInjective(a.b3, a4, b.b3, b4);
    JoinInjective(a.b4, a5, b.b4, b5);
    JoinInjective(a.b5, a6, b.b5, b6);
    JoinInjective(a.b6, a7, b.b6, b7);
  }

  // ----- what the bits mean: the program's operations on integers

  /** Exclusive or, bit by bit. */
  function IntXor(m: nat, n: nat): nat {
    if m == 0 && n == 0 then 0 else (m + n) % 2 + 2 * IntXor(m / 2, n / 2)
  }

  /** Shift left, and on reaching 0x100 reduce by the polynomial. */
  function IntDouble(value: nat): nat {
    var shifted := 2 * value;
    if shifted >= 0x100 then IntXor(shifted, POLYNOMIAL) else shifted
  }

  lemma IntXorStep(m: nat, n: nat)
    ensures IntXor(m, n) == (m + n) % 2 + 2 * IntXor(m / 2, n / 2)
  {
    assert IntXor(0, 0) == 0;
  }

  lemma JoinParts(x: Bit, m: nat, y: Bit, n: nat)
    ensures Join(x, m) / 2 == m && Join(y, n) / 2 == n && (Join(x, m) + Join(y, n)) % 2 == Unit(Plus(x, y))
  {
  }

  lemma JoinXor(x: Bit, m: nat, y: Bit, n: nat)
    ensures IntXor(Join(x, m), Join(y, n)) == Join(Plus(x, y), IntXor(m, n))
  {
    hide IntXor;
    IntXorStep(Join(x, m), Join(y, n));
    JoinParts(x, m, y, n);
  }

  /** The bits of a byte below the bits of `high`. */
  ghost function Bits(b: Byte, high: nat): nat {
    Join(b.b0, Join(b.b1, Join(b.b2, Join(b.b3, Join(b.b4, Join(b.b5, Join(b.b6, Join(b.b7, high))))))))
  }

  lemma BitsValue(b: Byte, high: nat)
    ensures Bits(b, high) == ToInt(b) + 0x100 * high
  {
    hide Unit;
  }

  lemma BitsXor(a: Byte, m: nat, b: Byte, n: nat)
    ensures IntXor(Bits(a, m), Bits(b, n)) == Bits(Xor(a, b), IntXor(m, n))
  {
    var a7, b7 := Join(a.b7, m), Join(b.b7, n);
    var a6, b6 := Join(a.b6, a7), Join(b.b6, b7);
    var a5, b5 := Join(a.b5, a6), Join(b.b5, b6);
    var a4, b4 := Join(a.b4, a5), Join(b.b4, b5);
    var a3, b3 := Join(a.b3, a4), Join(b.b3, b4);
    var a2, b2 := Join(a.b2, a3), Join(b.b2, b3);
    var a1, b1 := Join(a.b1, a2), Join(b.b1, b2);
    hide Join, Plus, IntXor;
    JoinXor(a.b7, m, b.b7, n);
    JoinXor(a.b6, a7, b.b6, b7);
    JoinXor(a.b5, a6, b.b5, b6);
    JoinXor(a.b4, a5, b.b4, b5);
    JoinXor(a.b3, a4, b.b3, b4);
    JoinXor(a.b2, a3, b.b2, b3);
    JoinXor(a.b1, a2, b.b1, b2);
    JoinXor(a.b0, a1, b.b0, b1);
  }

  /** Addition in the field is exclusive or of the integers. */
  lemma XorInt(a: Byte, b: Byte)
    ensures ToInt(Xor(a, b)) == IntXor(ToInt(a), ToInt(b))
  {
    hide Bits, ToInt, Xor;
    BitsXor(a, 0, b, 0);
    BitsValue(a, 0);
    BitsValue(b, 0);
    BitsValue(Xor(a, b), 0);
  }

  lemma SmallInts()
    ensures ToInt(ZERO) == 0 && ToInt(ONE) == 1 && ToInt(REDUCTION) + 0x100 == POLYNOMIAL && IntXor(1, 1) == 0
  {
    assert IntXor(0, 0) == 0;
  }

  lemma ShiftInt(v: Byte)
    ensures 2 * ToInt(v) == ToInt(Shift(v)) + 0x100 * Unit(v.b7)
  {
    assert Unit(O) == 0;
    hide Unit;
  }

  /** Doubling in the field is the program's shift and reduction. */
  lemma DoubleInt(v: Byte)
    ensures ToInt(Double(v)) == IntDouble(ToInt(v))
  {
    hide ToInt, Xor, Shift, IntXor, Bits;
    ShiftInt(v);
    if v.b7 == I {
      SmallInts();
      BitsXor(Shift(v), 1, REDUCTION, 1);
      BitsValue(Shift(v), 1);
      BitsValue(REDUCTION, 1);
      BitsValue(Xor(Shift(v), REDUCTION), 0);
    }
  }

  /** The points x and y of the program meet as x ^ y. */
  lemma PointSum(x: nat, y: nat)
    requires x < 256 && y < 256
    ensures IntXor(x, y) < 256 && Xor(OfInt(x), OfInt(y)) == OfInt(IntXor(x, y))
  {
    hide ToInt, Xor, OfInt, IntXor;
    XorInt(OfInt(x), OfInt(y));
    ToIntInjective(Xor(OfInt(x), OfInt(y)), OfInt(IntXor(x, y)));
  }

  /** The first n powers of the generator. */
  ghost function Powers(n: nat): set<Byte> {
    if n == 0 then {} else Powers(n - 1) + {Exp(n - 1)}
  }

  lemma {:induction false} InPowers(a: Byte, n: nat) returns (i: nat)
    requires a in Powers(n)
    ensures i < n && Exp(i) == a
  {
    hide Exp;
    if a == Exp(n - 1) { i := n - 1; } else { i := InPowers(a, n - 1); }
  }

  lemma {:induction false} PowersCount(n: nat)
    requires n <= 255
    ensures |Powers(n)| == n
  {
    hide Exp;
    if n > 0 {
      PowersCount(n - 1);
      if Exp(n - 1) in Powers(n - 1) {
        var i := InPowers(Exp(n - 1), n - 1);
        ExpInjective(i, n - 1);
      }
    }
  }

  ghost function NonzeroBelow(n: nat): (r: set<Byte>)
    requires 0 < n <= 256
    ensures |r| <= n - 1
  {
    if n == 1 then {} else NonzeroBelow(n - 1) + {OfInt(n - 1)}
  }

  lemma {:induction false} HasBelow(i: nat, n: nat)
    requires 0 < i < n <= 256
    ensures OfInt(i) in NonzeroBelow(n)
  {
    hide OfInt;
    if i < n - 1 { HasBelow(i, n - 1); }
  }

  lemma InNonzeroBelow(a: Byte)
    requires a != ZERO
    ensures a in NonzeroBelow(256)
  {
    hide OfInt, NonzeroBelow;
    ToIntInjective(a, OfInt(ToInt(a)));
    assert ToInt(a) != 0 by { hide *; if ToInt(a) == 0 { ZeroInt(); ToIntInjective(a, ZERO); } }
    HasBelow(ToInt(a), 256);
  }

  lemma ZeroInt()
    ensures ToInt(ZERO) == 0
  {
  }

  lemma {:induction false} SubsetCount<T>(a: set<T>, b: set<T>)
    requires a <= b
    ensures |a| <= |b| && (|a| == |b| ==> a == b)
  {
    if a != {} {
      var x :| x in a;
      SubsetCount(a - {x}, b - {x});
      assert a == (a - {x}) + {x} && b == (b - {x}) + {x};
    } else {
      assert |b| == 0 ==> b == {};
    }
  }

  /** Every nonzero byte is a power of the generator below 255. */
  lemma LogExists(a: Byte)
    requires a != ZERO
    ensures exists n: nat :: n < 255 && Exp(n) == a
  {
    hide Exp, OfInt, Powers, NonzeroBelow;
    PowersCount(255);
    forall b | b in Powers(255) ensures b in NonzeroBelow(256) {
      var i := InPowers(b, 255);
      ExpNonzero(i);
      InNonzeroBelow(b);
    }
    SubsetCount(Powers(255), NonzeroBelow(256));
    InNonzeroBelow(a);
    var n := InPowers(a, 255);
  }

  ghost function Log(a: Byte): (n: nat)
    requires a != ZERO
    ensures n < 255 && Exp(n) == a
  {
    LogExists(a);
    var n: nat :| n < 255 && Exp(n) == a;
    n
  }

  // ----- the field laws

  lemma MulCommutes(a: Byte, b: Byte)
    ensures Mul(a, b) == Mul(b, a)
  {
    hide *;
    if a == ZERO || b == ZERO {
      MulZero(a); MulZero(b);
    } else {
      ExpSum(Log(a), Log(b));
      ExpSum(Log(b), Log(a));
    }
  }

  lemma MulAssociates(a: Byte, b: Byte, c: Byte)
    ensures Mul(Mul(a, b), c) == Mul(a, Mul(b, c))
  {
    hide *;
    if a == ZERO || b == ZERO || c == ZERO {
      MulZero(a); MulZero(b); MulZero(c); MulZero(Mul(a, b)); MulZero(Mul(b, c));
    } else {
      ExpSum(Log(a), Log(b));
      ExpSum(Log(b), Log(c));
      ExpSum(Log(a) + Log(b), Log(c));
      ExpSum(Log(a), Log(b) + Log(c));
    }
  }

  lemma MulNonzero(a: Byte, b: Byte)
    ensures Mul(a, b) == ZERO <==> a == ZERO || b == ZERO
  {
    hide *;
    MulZero(a); MulZero(b);
    if a != ZERO && b != ZERO {
      ExpSum(Log(a), Log(b));
      ExpNonzero(Log(a) + Log(b));
    }
  }

  /** The multiplicative inverse; 0 stands for the absent inverse of 0. */
  ghost function Inv(a: Byte): (r: Byte) {
    if a == ZERO then ZERO else Exp(255 - Log(a))
  }

  lemma MulInv(a: Byte)
    requires a != ZERO
    ensures Mul(a, Inv(a)) == ONE && Mul(Inv(a), a) == ONE
  {
    hide Exp, Mul;
    ExpOrder();
    ExpSum(Log(a), 255 - Log(a));
    MulCommutes(a, Inv(a));
  }

  // ----- the tables

  datatype Tables = Tables(exp: seq<Byte>, log: seq<nat>)

  /** What `build_tables` leaves behind. */
  ghost predicate Built(t: Tables) {
    && |t.exp| == 512 && |t.log| == 256
    && (forall i :: 0 <= i < 512 ==> t.exp[i] == Exp(i))
    && (forall i :: 0 <= i < 255 ==> t.log[ToInt(Exp(i))] == i)
  }

  lemma ExpStep(n: nat)
    ensures Exp(0) == ONE && Exp(n + 1) == Double(Exp(n))
  {
  }

  lemma ToIntExpInjective(i: nat, j: nat)
    requires i < j < 255
    ensures ToInt(Exp(i)) != ToInt(Exp(j))
  {
    hide *;
    ExpInjective(i, j);
    if ToInt(Exp(i)) == ToInt(Exp(j)) { ToIntInjective(Exp(i), Exp(j)); }
  }

  method BuildTables() returns (t: Tables)
    ensures Built(t)
    ensures ToInt(t.exp[0]) == 1 && t.log[1] == 0
    ensures forall i :: 0 <= i < 511 ==> ToInt(t.exp[i + 1]) == IntDouble(ToInt(t.exp[i]))
  {
    hide Exp, Double, ToInt, IntDouble;
    var exp := new Byte[512](_ => ZERO);
    var log := new nat[256](_ => 0);
    FillPowers(exp, log);
    ExpOrder();
    for power := 255 to 512
      invariant forall i :: 0 <= i < power ==> exp[i] == Exp(i)
      invariant forall i :: 0 <= i < 255 ==> log[ToInt(Exp(i))] == i
    {
      ExpCycles(255, 1, power - 255);
      assert 255 * 1 + (power - 255) == power;
      exp[power] := exp[power - 255];
    }
    t := Tables(exp[..], log[..]);
    SmallInts();
    ExpStep(0);
    assert t.log[ToInt(Exp(0))] == 0;
    forall i | 0 <= i < 511 ensures ToInt(t.exp[i + 1]) == IntDouble(ToInt(t.exp[i])) {
      ExpStep(i);
      DoubleInt(t.exp[i]);
    }
  }

  /** The first 255 powers and their logarithms; the 256th is one again. */
  method FillPowers(exp: array<Byte>, log: array<nat>)
    requires exp.Length == 512 && log.Length == 256
    modifies exp, log
    ensures forall i :: 0 <= i < 255 ==> exp[i] == Exp(i)
    ensures forall i :: 0 <= i < 255 ==> log[ToInt(Exp(i))] == i
  {
    hide Exp, Double, ToInt;
    var value := ONE;
    ExpStep(0);
    for power := 0 to 255
      invariant value == Exp(power)
      invariant forall i :: 0 <= i < power ==> exp[i] == Exp(i)
      invariant forall i :: 0 <= i < power ==> log[ToInt(Exp(i))] == i
    {
      forall i: nat | i < power ensures ToInt(Exp(i)) != ToInt(value) {
        ToIntExpInjective(i, power);
      }
      exp[power] := value;
      log[ToInt(value)] := power;
      value := Double(value);
      ExpStep(power);
    }
    ExpOrder();
    assert value == ONE;
  }

  lemma LogEntry(t: Tables, a: Byte)
    requires Built(t) && a != ZERO
    ensures t.log[ToInt(a)] == Log(a)
  {
    hide Exp, ToInt;
    assert t.log[ToInt(Exp(Log(a)))] == Log(a);
  }

  /** The program's multiplication. */
  function GfMul(t: Tables, a: Byte, b: Byte): (r: Byte)
    requires Built(t)
    ensures r == Mul(a, b)
  {
    hide Mul, Exp, ToInt;
    MulZero(a); MulZero(b);
    if a == ZERO || b == ZERO then ZERO else
      LogEntry(t, a); LogEntry(t, b);
      ExpSum(Log(a), Log(b));
      t.exp[t.log[ToInt(a)] + t.log[ToInt(b)]]
  }

  /** The program's inverse; it refuses zero. */
  function GfInv(t: Tables, a: Byte): (r: Option<Byte>)
    requires Built(t)
    ensures r.None? <==> a == ZERO
    ensures r.Some? ==> r.value == Inv(a) && Mul(a, r.value) == ONE
  {
    hide Mul, Exp, ToInt;
    if a == ZERO then None else
      LogEntry(t, a);
      MulInv(a);
      Some(t.exp[255 - t.log[ToInt(a)]])
  }
}
