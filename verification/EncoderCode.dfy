/** The code of the encoder, over the field of bytes. */
module EncoderCode {
  import opened Bytes
  import opened GF256
  import opened LinearAlgebra
  import opened Logarithms
  import opened Recoverability

  /** The point of parity shard p is the byte cast of p + 1, whose powers are the factors of the data shards. */
  ghost const CODE := Code(GF, (p: nat) => FromNat((p + 1) % 256))

  /** One more entry of a dot product, in terms of the operations on bytes. */
  lemma DotStep(a: Vector<Byte>, v: Vector<Byte>, k: nat)
    requires k < |a| && k < |v|
    ensures GF.Dot(a, v, k + 1) == Xor(GF.Dot(a, v, k), Mul(v[k], a[k]))
  {
    hide Xor; hide Doubling.Mul;
    SHIFTS.MulCommutes(a[k], v[k]);
  }

  lemma EmptyDot(a: Vector<Byte>, v: Vector<Byte>)
    ensures GF.Dot(a, v, 0) == ZERO
  {}

  lemma FirstNumbers()
    ensures FromNat(0) == ZERO && FromNat(1) == ONE && FromNat(2) == Pow2(1) && FromNat(3) == Xor(ONE, Pow2(1))
  {
    hide FromNat; hide Pow2; hide Double; hide Xor;
    PowStep(0);
    PowZero();
    SmallBytes();
  }

  lemma SmallBytes()
    ensures FromNat(0) == ZERO && FromNat(1) == ONE
    ensures FromNat(2) == Double(ONE) && FromNat(3) == Xor(ONE, Double(ONE))
  {}

  lemma {:induction false} PowerOfTwo(n: nat)
    ensures GF.Power(Pow2(1), n) == Pow2(n)
  {
    hide Doubling.Mul; hide Doubling.Pow2; hide Doubling.Laws;
    if n > 0 {
      ShiftsMakeLogarithms();
      PowerOfTwo(n - 1);
      SHIFTS.MulPow2(n - 1, 1);
    } else {
      PowZero();
    }
  }

  lemma FromNatDistinct(m: nat, n: nat)
    requires m < 256 && n < 256 && m != n
    ensures FromNat(m) != FromNat(n)
  {
    ToFrom(m);
    ToFrom(n);
  }

  lemma PointsAreValid()
    ensures CODE.Points()
  {
    hide FromNat; hide Xor; hide Pow2;
    FirstNumbers();
    forall i: nat, j: nat ensures CODE.PointsDiffer(i, j) {
      if i < 255 { FromNatDistinct(i + 1, 0); }
      if i < 255 && j < 255 && i != j { FromNatDistinct(i + 1, j + 1); }
    }
  }

  lemma TwoGenerates()
    ensures CODE.Generator()
  {
    hide FromNat; hide Pow2; hide Field.Power;
    FirstNumbers();
    assert CODE.point(1) == Pow2(1);
    forall i: nat { PowerOfTwo(i); }
    forall i: nat, j: nat ensures CODE.PowersDiffer(i, j) {
      if i < j < 255 { PowersDistinct(i, j); }
    }
    PowersOfTwo();
  }

  /** The encoder's rows form a code for which the recoverable parameters are decided. */
  lemma EncoderCodeIsValid()
    ensures CODE.Valid()
  {
    hide Code.Points; hide Code.Generator; hide Field.Laws;
    BytesAreAField();
    PointsAreValid();
    TwoGenerates();
  }

  /** Any K of the encoder's K + M shards determine the data exactly for these parameters. */
  lemma EncoderAnyKSufficeIff(K: nat, M: nat)
    requires K > 0 && M > 0
    ensures CODE.AnyKSuffice(K, M) <==> Recoverable(K, M)
  {
    hide Code.Valid; hide Code.AnyKSuffice;
    EncoderCodeIsValid();
    CODE.AnyKSufficeIff(K, M);
  }
}
