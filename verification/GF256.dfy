/** Arithmetic in GF(2^8) modulo the polynomial x^8 + x^4 + x^3 + x^2 + 1 (0x11d). */
module GF256 {
  import opened Bytes
  import opened LinearAlgebra
  import opened Logarithms
  import opened Sets

  /** Multiplication by x: shift left, and subtract the polynomial when a bit falls out. */
  function Double(a: Byte): Byte {
    Byte(a.b7, a.b0, a.b1 != a.b7, a.b2 != a.b7, a.b3 != a.b7, a.b4, a.b5, a.b6)
  }

  const SHIFTS := Doubling(ZERO, ONE, Xor, Double)

  function Pow2(k: nat): Byte { SHIFTS.Pow2(k) }

  lemma DoubleXor(a: Byte, b: Byte)
    ensures Double(Xor(a, b)) == Xor(Double(a), Double(b))
  {}

  lemma DoubleInjective(a: Byte, b: Byte)
    requires Double(a) == Double(b)
    ensures a == b
  {}

  lemma PowStep(k: nat)
    ensures Pow2(k + 1) == Double(Pow2(k))
  {
    hide Double;
  }

  // The order of 2.

  function Double5(a: Byte): Byte { Double(Double(Double(Double(Double(a))))) }

  function Double17(a: Byte): Byte { Double(Double(Double5(Double5(Double5(a))))) }

  lemma Pow5(k: nat)
    ensures Pow2(k + 5) == Double5(Pow2(k))
  {
    hide Double; hide Pow2;
    PowStep(k); PowStep(k + 1); PowStep(k + 2); PowStep(k + 3); PowStep(k + 4);
  }

  lemma Pow17(k: nat, v: Byte)
    requires Pow2(k) == v
    ensures Pow2(k + 17) == Double17(v)
  {
    hide Double; hide Pow2;
    Pow5(k); Pow5(k + 5); Pow5(k + 10);
    PowStep(k + 15); PowStep(k + 16);
  }

  const P17 := Byte(false, false, false, true, true, false, false, true)
  const P34 := Byte(false, true, true, true, false, false, true, false)
  const P51 := Byte(false, true, false, true, false, false, false, false)
  const P68 := Byte(true, false, false, true, true, false, false, true)
  const P85 := Byte(false, true, true, false, true, false, true, true)
  const P102 := Byte(false, false, true, false, false, false, true, false)
  const P119 := Byte(true, true, false, false, true, false, false, true)
  const P136 := Byte(true, true, true, true, false, false, true, false)
  const P153 := Byte(false, true, false, false, true, false, false, true)
  const P170 := Byte(true, true, true, false, true, false, true, true)
  const P187 := Byte(false, false, true, true, true, false, true, true)
  const P204 := Byte(true, false, true, true, true, false, true, true)
  const P221 := Byte(true, false, true, false, false, false, true, false)
  const P238 := Byte(true, true, false, true, false, false, false, false)

  lemma Step0()
    ensures Double17(ONE) == P17
  {}

  lemma Step17()
    ensures Double17(P17) == P34
  {}

  lemma Step34()
    ensures Double17(P34) == P51
  {}

  lemma Step51()
    ensures Double17(P51) == P68
  {}

  lemma Step68()
    ensures Double17(P68) == P85
  {}

  lemma Step85()
    ensures Double17(P85) == P102
  {}

  lemma Step102()
    ensures Double17(P102) == P119
  {}

  lemma Step119()
    ensures Double17(P119) == P136
  {}

  lemma Step136()
    ensures Double17(P136) == P153
  {}

  lemma Step153()
    ensures Double17(P153) == P170
  {}

  lemma Step170()
    ensures Double17(P170) == P187
  {}

  lemma Step187()
    ensures Double17(P187) == P204
  {}

  lemma Step204()
    ensures Double17(P204) == P221
  {}

  lemma Step221()
    ensures Double17(P221) == P238
  {}

  lemma Step238()
    ensures Double17(P238) == ONE
  {}

  lemma PowZero()
    ensures Pow2(0) == ONE
  {}

  lemma Powers0To85()
    ensures Pow2(51) == P51 && Pow2(85) == P85
  {
    hide Pow2; hide Double17;
    PowZero();
    Pow17(0, ONE); Step0();
    Pow17(17, P17); Step17();
    Pow17(34, P34); Step34();
    Pow17(51, P51); Step51();
    Pow17(68, P68); Step68();
  }

  lemma Powers85To170()
    ensures Pow2(170) == P170
  {
    hide Pow2; hide Double17;
    Powers0To85();
    Pow17(85, P85); Step85();
    Pow17(102, P102); Step102();
    Pow17(119, P119); Step119();
    Pow17(136, P136); Step136();
    Pow17(153, P153); Step153();
  }

  lemma Powers170To255()
    ensures Pow2(255) == ONE
  {
    hide Pow2; hide Double17;
    Powers85To170();
    Pow17(170, P170); Step170();
    Pow17(187, P187); Step187();
    Pow17(204, P204); Step204();
    Pow17(221, P221); Step221();
    Pow17(238, P238); Step238();
  }

  lemma Power15()
    ensures Pow2(15) != ONE
  {
    hide Double5; hide Pow2;
    PowZero();
    Pow5(0); Pow5(5); Pow5(10);
    Step15();
  }

  lemma Step15()
    ensures Double5(Double5(Double5(ONE))) != ONE
  {}

  /** The 255th power is one; the powers at the maximal proper divisors of 255 are not. */
  lemma PowersOfTwo()
    ensures Pow2(255) == ONE && Pow2(15) != ONE && Pow2(51) != ONE && Pow2(85) != ONE
  {
    hide Pow2;
    Power15();
    Powers0To85();
    Powers170To255();
  }

  lemma PowSum(i: nat, j: nat)
    ensures Pow2(i + j) == SHIFTS.DoubleN(Pow2(i), j)
  {
    hide Doubling.DoubleN;
    SHIFTS.DoubleNSum(ONE, i, j);
  }

  lemma {:induction false} DoubleNInjective(a: Byte, b: Byte, k: nat)
    requires SHIFTS.DoubleN(a, k) == SHIFTS.DoubleN(b, k)
    ensures a == b
  {
    hide Double;
    if k > 0 {
      DoubleInjective(SHIFTS.DoubleN(a, k - 1), SHIFTS.DoubleN(b, k - 1));
      DoubleNInjective(a, b, k - 1);
    }
  }

  lemma {:induction false} PowCycle(d: nat, q: nat, r: nat)
    requires Pow2(d) == ONE
    ensures Pow2(d * q + r) == Pow2(r)
    decreases q
  {
    hide Doubling.DoubleN;
    if q > 0 {
      assert d * q + r == d + (d * (q - 1) + r);
      PowSum(d, d * (q - 1) + r);
      PowCycle(d, q - 1, r);
    }
  }

  /** A divisor of 255 below 255 divides 15, 51 or 85. */
  lemma ProperDivisors(d: nat, q: nat) returns (m: nat)
    requires 0 < d < 255 && d * q == 255
    ensures d * m == 15 || d * m == 51 || d * m == 85
  {
    if q <= 15 {
      assert q == 3 || q == 5 || q == 15;
      assert d == 85 || d == 51 || d == 17;
      m := if d == 17 then 3 else 1;
    } else {
      SmallFactor(d, q);
      assert d == 1 || d == 3 || d == 5 || d == 15;
      m := if d == 1 then 15 else if d == 3 then 5 else if d == 5 then 3 else 1;
    }
  }

  lemma SmallFactor(d: nat, q: nat)
    requires q >= 16 && d * q == 255
    ensures d < 16
  {
    assert d * 16 <= d * q;
  }

  /** The order of 2 is exactly 255. */
  lemma {:induction false} OrderOfTwo(d: nat)
    requires 0 < d < 255
    ensures Pow2(d) != ONE
  {
    hide Pow2;
    if Pow2(d) == ONE {
      PowersOfTwo();
      var q, r := 255 / d, 255 % d;
      PowCycle(d, q, r);
      if r > 0 {
        OrderOfTwo(r);
      } else {
        var m := ProperDivisors(d, q);
        PowCycle(d, m, 0);
      }
    }
  }

  lemma PowersDistinct(i: nat, j: nat)
    requires i < j < 255
    ensures Pow2(i) != Pow2(j)
  {
    hide Doubling.DoubleN;
    if Pow2(i) == Pow2(j) {
      PowSum(j - i, i);
      PowSum(0, i);
      PowZero();
      DoubleNInjective(Pow2(j - i), ONE, i);
      OrderOfTwo(j - i);
    }
  }

  lemma PowNonZero(k: nat)
    ensures Pow2(k) != ZERO
  {
    hide Double;
    DoubleZero();
    if k > 0 {
      PowNonZero(k - 1);
      PowStep(k - 1);
      if Double(Pow2(k - 1)) == ZERO { DoubleInjective(Pow2(k - 1), ZERO); }
    }
  }

  lemma DoubleZero()
    ensures Double(ZERO) == ZERO
  {}

  // Every nonzero byte is a power of two.

  ghost function PowersBelow(n: nat): set<Byte> { set k: nat | k < n :: Pow2(k) }

  ghost function BytesBelow(n: nat): set<Byte> { set k: nat | k < n :: FromNat(k) }

  lemma {:induction false} CountPowers(n: nat)
    requires n <= 255
    ensures |PowersBelow(n)| == n
  {
    if n > 0 {
      CountPowers(n - 1);
      forall k: nat | k < n - 1 ensures Pow2(k) != Pow2(n - 1) { PowersDistinct(k, n - 1); }
      assert PowersBelow(n) == PowersBelow(n - 1) + {Pow2(n - 1)};
    }
  }

  lemma {:induction false} CountBytes(n: nat)
    ensures |BytesBelow(n)| <= n
  {
    hide FromNat;
    if n > 0 {
      CountBytes(n - 1);
      assert BytesBelow(n) == BytesBelow(n - 1) + {FromNat(n - 1)};
    }
  }

  lemma EveryByteIsAPower(a: Byte)
    requires a != ZERO
    ensures exists k: nat :: k < 255 && Pow2(k) == a
  {
    hide FromNat; hide ToNat; hide Pow2;
    var powers, bytes := PowersBelow(255), BytesBelow(256);
    CountPowers(255);
    CountBytes(256);
    if a !in powers {
      assert ZERO !in powers by { forall k: nat | k < 255 { PowNonZero(k); } }
      forall b: Byte ensures b in bytes { FromTo(b); }
      assert |powers + {a, ZERO}| == 257;
      LargerSet(powers + {a, ZERO}, bytes);
    }
  }

  // The field.

  lemma XorLaws(a: Byte, b: Byte, c: Byte)
    ensures SHIFTS.Product().AddLaws(a, b, c)
  {
    hide Xor;
    XorZero(a);
    XorSelf(a);
    XorCommutes(a, b);
    XorAssociates(a, b, c);
  }

  /** Shifting bytes modulo the polynomial has all that multiplication by logarithms needs. */
  lemma ShiftsMakeLogarithms()
    ensures SHIFTS.Laws()
  {
    hide Double; hide Xor; hide Pow2; hide Field.AddLaws;
    forall a: Byte, b: Byte, c: Byte { XorLaws(a, b, c); }
    forall a: Byte, b: Byte ensures SHIFTS.Additive(a, b) { DoubleXor(a, b); }
    forall a: Byte, b: Byte ensures SHIFTS.Injective(a, b) { if Double(a) == Double(b) { DoubleInjective(a, b); } }
    forall i: nat, j: nat ensures SHIFTS.Distinct(i, j) { PowersAreDistinct(i, j); }
    forall a: Byte ensures SHIFTS.Reached(a) { ByteIsReached(a); }
    DoubleZero();
    PowersEnd();
  }

  lemma PowersAreDistinct(i: nat, j: nat)
    ensures SHIFTS.Distinct(i, j)
  {
    hide Doubling.Pow2;
    if i < j < 255 { PowersDistinct(i, j); }
  }

  lemma ByteIsReached(a: Byte)
    ensures SHIFTS.Reached(a)
  {
    hide Doubling.Pow2;
    if a != ZERO {
      EveryByteIsAPower(a);
      var k: nat :| k < 255 && Pow2(k) == a;
      assert SHIFTS.Pow2(k) == a;
    }
  }

  lemma PowersEnd()
    ensures SHIFTS.Pow2(PERIOD) == ONE
  {
    hide Doubling.Pow2;
    PowersOfTwo();
  }

  /** Bytes with exclusive-or and the product by logarithms. */
  ghost const GF := SHIFTS.Product()

  ghost function Log(a: Byte): nat { SHIFTS.Log(a) }

  ghost function Mul(a: Byte, b: Byte): Byte { SHIFTS.Mul(a, b) }

  /** The product of two powers of two is the power of the sum. */
  lemma PowersMultiply(i: nat, j: nat)
    ensures Mul(Pow2(i), Pow2(j)) == Pow2(i + j)
  {
    hide Doubling.Mul; hide Doubling.Pow2; hide Doubling.Laws;
    ShiftsMakeLogarithms();
    SHIFTS.MulPow2(i, j);
  }

  lemma PowPeriod(k: nat)
    ensures Pow2(k + 255) == Pow2(k)
  {
    hide Doubling.Pow2; hide Doubling.Laws;
    ShiftsMakeLogarithms();
    SHIFTS.PowPeriod(k);
  }

  lemma LogIs(a: Byte)
    requires a != ZERO
    ensures Log(a) < 255 && Pow2(Log(a)) == a
  {
    hide Doubling.Log; hide Doubling.Pow2; hide Doubling.Laws;
    ShiftsMakeLogarithms();
    SHIFTS.LogIs(a);
  }

  lemma MulZero(a: Byte)
    ensures Mul(a, ZERO) == ZERO == Mul(ZERO, a)
  {
    hide Doubling.Log; hide Doubling.Pow2;
  }

  lemma BytesAreAField()
    ensures GF.Laws()
  {
    hide Doubling.Laws; hide Field.Laws;
    ShiftsMakeLogarithms();
    SHIFTS.ProductIsAField();
  }

  // The same product computed bit by bit, without tables.

  function Halve(b: Byte): Byte {
    Byte(b.b1, b.b2, b.b3, b.b4, b.b5, b.b6, b.b7, false)
  }

  function ShiftAndAdd(a: Byte, b: Byte, bits: nat): Byte
    decreases bits
  {
    if bits == 0 then ZERO
    else
      var rest := ShiftAndAdd(Double(a), Halve(b), bits - 1);
      if b.b0 then Xor(a, rest) else rest
  }

  function HalveN(b: Byte, n: nat): Byte
    decreases n
  {
    if n == 0 then b else HalveN(Halve(b), n - 1)
  }

  lemma HalveParts(b: Byte)
    ensures b == if b.b0 then Xor(ONE, Double(Halve(b))) else Double(Halve(b))
  {}

  lemma {:induction false} MulIsShiftAndAdd(a: Byte, b: Byte, bits: nat)
    requires HalveN(b, bits) == ZERO
    ensures Mul(a, b) == ShiftAndAdd(a, b, bits)
    decreases bits
  {
    hide Double; hide Halve; hide Xor; hide Doubling.Mul; hide Doubling.Laws;
    if bits == 0 {
      SHIFTS.MulZero(a);
    } else {
      ShiftsMakeLogarithms();
      var h := Halve(b);
      MulIsShiftAndAdd(Double(a), h, bits - 1);
      SHIFTS.DoubleMoves(a, h);
      HalveParts(b);
      SHIFTS.MulCommutes(a, Xor(ONE, Double(h)));
      SHIFTS.MulDistributes(ONE, Double(h), a);
      SHIFTS.MulCommutes(a, Double(h));
      SHIFTS.MulOne(a);
    }
  }

  /** The field product is the carry-less product of the two bytes reduced by the polynomial. */
  lemma MulIsPolynomialProduct(a: Byte, b: Byte)
    ensures Mul(a, b) == ShiftAndAdd(a, b, 8)
  {
    var b4 := Halve(Halve(Halve(Halve(b))));
    assert HalveN(b, 8) == HalveN(b4, 4);
    MulIsShiftAndAdd(a, b, 8);
  }
}
