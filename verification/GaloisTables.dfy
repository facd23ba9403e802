/** The log and exponent tables and the arithmetic that looks products up in them. */
module GaloisTables {
  import opened Bytes
  import opened GF256
  import opened Logarithms
  import opened LinearAlgebra

  lemma LogsDistinct(i: nat)
    requires i < 255
    ensures forall k: nat | k < i :: ToNat(Pow2(k)) != ToNat(Pow2(i))
  {
    hide Pow2; hide ToNat;
    forall k: nat | k < i ensures ToNat(Pow2(k)) != ToNat(Pow2(i)) {
      PowersDistinct(k, i);
      if ToNat(Pow2(k)) == ToNat(Pow2(i)) { ToNatInjective(Pow2(k), Pow2(i)); }
    }
  }

  class Tables {
    const gfExp: array<Byte>
    const gfLog: array<int>

    ghost predicate Valid()
      reads gfExp, gfLog
    {
      && gfExp.Length == 512 && gfLog.Length == 256
      && (forall i: nat | i < 510 :: gfExp[i] == Pow2(i))
      && (forall k: nat | k < 255 :: gfLog[ToNat(Pow2(k))] == k)
    }

    /** Fills both tables by doubling; the entries of gfLog are the exponents below 255. */
    constructor ()
      ensures Valid() && fresh(gfExp) && fresh(gfLog)
    {
      hide Pow2; hide ToNat; hide Double; hide Xor;
      var e := new Byte[512](_ => ZERO);
      var l := new int[256](_ => 0);
      var x := ONE;
      PowZero();
      for i := 0 to 255
        invariant x == Pow2(i)
        invariant forall k: nat | k < i :: e[k] == Pow2(k)
        invariant forall k: nat | 255 <= k < i + 255 :: e[k] == Pow2(k)
        invariant forall k: nat | k < i :: l[ToNat(Pow2(k))] == k
      {
        PowPeriod(i);
        PowStep(i);
        LogsDistinct(i);
        e[i] := x;
        e[i + 255] := x;
        l[ToNat(x)] := i;
        x := Double(x);
      }
      gfExp := e;
      gfLog := l;
    }

    /** The table lookup is the field product. */
    function GfMul(a: Byte, b: Byte): (r: Byte)
      requires Valid()
      reads gfExp, gfLog
      ensures r == Mul(a, b)
    {
      MulZero(a);
      MulZero(b);
      LookupLog(a);
      LookupLog(b);
      PowersMultiply(Log(a), Log(b));
      if a == ZERO || b == ZERO then ZERO else gfExp[gfLog[ToNat(a)] + gfLog[ToNat(b)]]
    }

    lemma LookupLog(a: Byte)
      requires Valid()
      ensures a != ZERO ==> gfLog[ToNat(a)] == Log(a) < 255 && Pow2(Log(a)) == a
    {
      hide Log; hide Pow2; hide ToNat;
      if a != ZERO { LogIs(a); }
    }

    /** Division undoes multiplication; only a nonzero number cannot be divided by zero. */
    function GfDiv(a: Byte, b: Byte): (r: Byte)
      requires Valid()
      requires a != ZERO ==> b != ZERO
      reads gfExp, gfLog
      ensures Mul(r, b) == a
      ensures a != ZERO ==> r != ZERO
    {
      MulZero(b);
      if a == ZERO then ZERO
      else
        LookupQuotient(a, b);
        gfExp[gfLog[ToNat(a)] - gfLog[ToNat(b)] + 255]
    }

    lemma LookupQuotient(a: Byte, b: Byte)
      requires Valid() && a != ZERO && b != ZERO
      ensures var i := gfLog[ToNat(a)] - gfLog[ToNat(b)] + 255;
              0 <= i < 510 && gfExp[i] != ZERO && Mul(gfExp[i], b) == a
    {
      hide Log; hide Pow2; hide ToNat; hide Doubling.Mul;
      LookupLog(a);
      LookupLog(b);
      PowersMultiply(Log(a) - Log(b) + 255, Log(b));
      PowPeriod(Log(a));
      PowNonZero(Log(a) - Log(b) + 255);
    }

    /** Exponentiation by repeated multiplication. */
    method GfPow(a: Byte, b: nat) returns (res: Byte)
      requires Valid()
      ensures res == GF.Power(a, b)
    {
      hide Doubling.Mul;
      if b == 0 { return ONE; }
      if a == ZERO {
        MulZero(GF.Power(a, b - 1));
        return ZERO;
      }
      res := ONE;
      for i := 0 to b
        invariant res == GF.Power(a, i)
      {
        res := GfMul(res, a);
      }
    }
  }
}
