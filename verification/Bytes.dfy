/** A byte as its eight bits, least significant first, with exclusive-or and the unsigned value. */
module Bytes {

  datatype Byte = Byte(b0: bool, b1: bool, b2: bool, b3: bool, b4: bool, b5: bool, b6: bool, b7: bool)

  const ZERO := Byte(false, false, false, false, false, false, false, false)
  const ONE := Byte(true, false, false, false, false, false, false, false)

  function Xor(a: Byte, b: Byte): Byte {
    Byte(a.b0 != b.b0, a.b1 != b.b1, a.b2 != b.b2, a.b3 != b.b3,
         a.b4 != b.b4, a.b5 != b.b5, a.b6 != b.b6, a.b7 != b.b7)
  }

  lemma XorZero(a: Byte)
    ensures Xor(a, ZERO) == a == Xor(ZERO, a)
  {}

  lemma XorSelf(a: Byte)
    ensures Xor(a, a) == ZERO
  {}

  lemma XorCommutes(a: Byte, b: Byte)
    ensures Xor(a, b) == Xor(b, a)
  {}

  lemma XorAssociates(a: Byte, b: Byte, c: Byte)
    ensures Xor(Xor(a, b), c) == Xor(a, Xor(b, c))
  {}

  function Value(bit: bool): (v: nat)
    ensures v <= 1
  {
    if bit then 1 else 0
  }

  /** The number whose binary digits are bit and then those of high. */
  function Digit(bit: bool, high: nat): nat { Value(bit) + 2 * high }

  lemma DigitParts(bit: bool, high: nat)
    ensures Digit(bit, high) / 2 == high
    ensures (Digit(bit, high) % 2 == 1) == bit
  {}

  function ToNat(a: Byte): (n: nat)
    ensures n < 256
  {
    Digit(a.b0, Digit(a.b1, Digit(a.b2, Digit(a.b3, Digit(a.b4, Digit(a.b5, Digit(a.b6, Digit(a.b7, 0))))))))
  }

  function FromNat(n: nat): Byte {
    var n1 := n / 2; var n2 := n1 / 2; var n3 := n2 / 2; var n4 := n3 / 2;
    var n5 := n4 / 2; var n6 := n5 / 2; var n7 := n6 / 2;
    Byte(n % 2 == 1, n1 % 2 == 1, n2 % 2 == 1, n3 % 2 == 1, n4 % 2 == 1, n5 % 2 == 1, n6 % 2 == 1, n7 % 2 == 1)
  }

  lemma FromTo(a: Byte)
    ensures FromNat(ToNat(a)) == a
  {
    hide Digit;
    var h7 := Digit(a.b7, 0); var h6 := Digit(a.b6, h7); var h5 := Digit(a.b5, h6); var h4 := Digit(a.b4, h5);
    var h3 := Digit(a.b3, h4); var h2 := Digit(a.b2, h3); var h1 := Digit(a.b1, h2);
    DigitParts(a.b0, h1); DigitParts(a.b1, h2); DigitParts(a.b2, h3); DigitParts(a.b3, h4);
    DigitParts(a.b4, h5); DigitParts(a.b5, h6); DigitParts(a.b6, h7); DigitParts(a.b7, 0);
  }

  lemma ToNatInjective(a: Byte, b: Byte)
    requires ToNat(a) == ToNat(b)
    ensures a == b
  {
    FromTo(a);
    FromTo(b);
  }

  lemma DigitOf(n: nat)
    ensures Digit(n % 2 == 1, n / 2) == n
  {}

  lemma ToFrom(n: nat)
    requires n < 256
    ensures ToNat(FromNat(n)) == n
  {
    hide Digit;
    var n1 := n / 2; var n2 := n1 / 2; var n3 := n2 / 2; var n4 := n3 / 2;
    var n5 := n4 / 2; var n6 := n5 / 2; var n7 := n6 / 2;
    DigitOf(n); DigitOf(n1); DigitOf(n2); DigitOf(n3); DigitOf(n4); DigitOf(n5); DigitOf(n6); DigitOf(n7);
  }
}
