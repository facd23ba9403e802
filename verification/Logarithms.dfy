/** Multiplication by logarithms, over any doubling whose powers of two run through everything but zero. */
module Logarithms {
  import opened LinearAlgebra

  const PERIOD := 255

  datatype Doubling<!T(!new)> = Doubling(zero: T, one: T, add: (T, T) -> T, double: T -> T) {

    function DoubleN(a: T, k: nat): T {
      if k == 0 then a else double(DoubleN(a, k - 1))
    }

    function Pow2(k: nat): T { DoubleN(one, k) }

    /** The exponent of a power of two, below the period. */
    ghost function Log(a: T): nat {
      if k: nat :| k < PERIOD && Pow2(k) == a then k else 0
    }

    ghost function Mul(a: T, b: T): T {
      if a == zero || b == zero then zero else Pow2(Log(a) + Log(b))
    }

    ghost function Product(): Field<T> { Field(zero, one, add, (a: T, b: T) => Mul(a, b)) }

    /** Doubling is additive and injective; the first 255 powers of two are all there is but zero, each once. */
    ghost predicate Laws() {
      && (forall a, b, c :: Product().AddLaws(a, b, c))
      && (forall a, b :: Additive(a, b))
      && (forall a, b :: Injective(a, b))
      && (forall i, j :: Distinct(i, j))
      && (forall a :: Reached(a))
      && double(zero) == zero && zero != one && Pow2(PERIOD) == one
    }

    ghost predicate Additive(a: T, b: T) { double(add(a, b)) == add(double(a), double(b)) }

    ghost predicate Injective(a: T, b: T) { double(a) == double(b) ==> a == b }

    ghost predicate Distinct(i: nat, j: nat) { i < j < PERIOD ==> Pow2(i) != Pow2(j) }

    ghost predicate Reached(a: T) { a != zero ==> exists k: nat :: k < PERIOD && Pow2(k) == a }

    lemma AdditiveAt(a: T, b: T)
      requires Laws()
      ensures Additive(a, b)
    {}

    lemma InjectiveAt(a: T, b: T)
      requires Laws()
      ensures Injective(a, b)
    {}

    lemma Ends()
      requires Laws()
      ensures double(zero) == zero && zero != one && Pow2(PERIOD) == one
    {}

    lemma {:induction false} DoubleNAdds(a: T, b: T, k: nat)
      requires Laws()
      ensures DoubleN(add(a, b), k) == add(DoubleN(a, k), DoubleN(b, k))
    {
      hide Laws;
      if k > 0 {
        DoubleNAdds(a, b, k - 1);
        AdditiveAt(DoubleN(a, k - 1), DoubleN(b, k - 1));
      }
    }

    lemma {:induction false} DoubleNZero(k: nat)
      requires Laws()
      ensures DoubleN(zero, k) == zero
    {
      hide Laws;
      Ends();
      if k > 0 { DoubleNZero(k - 1); }
    }

    lemma {:induction false} DoubleNSum(a: T, i: nat, j: nat)
      ensures DoubleN(a, i + j) == DoubleN(DoubleN(a, i), j)
    {
      if j > 0 { DoubleNSum(a, i, j - 1); }
    }

    lemma {:induction false} DoubleNInjective(a: T, b: T, k: nat)
      requires Laws() && DoubleN(a, k) == DoubleN(b, k)
      ensures a == b
    {
      hide Laws;
      if k > 0 {
        InjectiveAt(DoubleN(a, k - 1), DoubleN(b, k - 1));
        DoubleNInjective(a, b, k - 1);
      }
    }

    lemma PowPeriod(k: nat)
      requires Laws()
      ensures Pow2(k + PERIOD) == Pow2(k)
    {
      hide Laws;
      Ends();
      DoubleNSum(one, PERIOD, k);
    }

    lemma PowZero()
      ensures Pow2(0) == one
    {}

    lemma PowNonZero(k: nat)
      requires Laws()
      ensures Pow2(k) != zero
    {
      hide Laws;
      Ends();
      if Pow2(k) == zero {
        DoubleNZero(k);
        DoubleNInjective(one, zero, k);
      }
    }

    lemma LogIs(a: T)
      requires Laws() && a != zero
      ensures Log(a) < PERIOD && Pow2(Log(a)) == a
    {
      hide DoubleN;
      assert Reached(a);
    }

    lemma LogUnique(a: T, k: nat)
      requires Laws() && a != zero && k < PERIOD && Pow2(k) == a
      ensures Log(a) == k
    {
      hide Laws; hide Pow2;
      LogIs(a);
      if Log(a) < k { DistinctAt(Log(a), k); }
      if k < Log(a) { DistinctAt(k, Log(a)); }
    }

    lemma DistinctAt(i: nat, j: nat)
      requires Laws() && i < j < PERIOD
      ensures Pow2(i) != Pow2(j)
    {
      hide Pow2;
      assert Distinct(i, j);
    }

    lemma {:induction false} PowMod(k: nat)
      requires Laws()
      ensures Pow2(k) == Pow2(k % PERIOD)
    {
      hide Laws; hide Pow2;
      if k >= PERIOD {
        PowMod(k - PERIOD);
        PowPeriod(k - PERIOD);
      }
    }

    lemma LogPow2(k: nat)
      requires Laws()
      ensures Pow2(k) != zero && Log(Pow2(k)) == k % PERIOD
    {
      hide Laws; hide Pow2; hide Log;
      PowNonZero(k);
      PowMod(k);
      LogUnique(Pow2(k), k % PERIOD);
    }

    lemma MulPow2(i: nat, j: nat)
      requires Laws()
      ensures Mul(Pow2(i), Pow2(j)) == Pow2(i + j)
    {
      hide Laws; hide Pow2; hide Log;
      LogPow2(i);
      LogPow2(j);
      PowMod(i + j);
      PowMod(i % PERIOD + j % PERIOD);
      assert (i % PERIOD + j % PERIOD) % PERIOD == (i + j) % PERIOD;
    }

    lemma MulCommutes(a: T, b: T)
      ensures Mul(a, b) == Mul(b, a)
    {
      hide Pow2; hide Log;
    }

    lemma MulZero(a: T)
      ensures Mul(a, zero) == zero == Mul(zero, a)
    {}

    lemma MulAssociates(a: T, b: T, c: T)
      requires Laws()
      ensures Mul(Mul(a, b), c) == Mul(a, Mul(b, c))
    {
      hide Laws; hide Pow2; hide Log;
      if a != zero && b != zero && c != zero {
        LogIs(a);
        LogIs(b);
        LogIs(c);
        var i, j, k := Log(a), Log(b), Log(c);
        MulPow2(i + j, k);
        MulPow2(i, j + k);
        PowNonZero(i + j);
        PowNonZero(j + k);
        assert i + j + k == i + (j + k);
      }
    }

    lemma MulOne(a: T)
      requires Laws()
      ensures Mul(a, one) == a == Mul(one, a)
    {
      hide Laws; hide Pow2; hide Log;
      if a != zero {
        LogIs(a);
        PowZero();
        MulPow2(Log(a), 0);
        MulPow2(0, Log(a));
      } else {
        MulZero(one);
      }
    }

    lemma MulInverse(a: T)
      requires Laws() && a != zero
      ensures Mul(a, Pow2(PERIOD - Log(a))) == one
    {
      hide Laws; hide Pow2; hide Log;
      LogIs(a);
      MulPow2(Log(a), PERIOD - Log(a));
      Ends();
    }

    /** Multiplication by a power of two is repeated doubling. */
    lemma MulShifts(a: T, k: nat)
      requires Laws()
      ensures Mul(a, Pow2(k)) == DoubleN(a, k)
    {
      hide Laws; hide Log; hide Mul;
      if a == zero {
        MulZero(Pow2(k));
        DoubleNZero(k);
      } else {
        LogIs(a);
        MulPow2(Log(a), k);
        DoubleNSum(one, Log(a), k);
      }
    }

    lemma MulDistributes(a: T, b: T, c: T)
      requires Laws()
      ensures Mul(add(a, b), c) == add(Mul(a, c), Mul(b, c))
    {
      hide Laws; hide Log; hide Mul; hide Pow2; hide DoubleN;
      if c == zero {
        MulZero(a);
        MulZero(b);
        MulZero(add(a, b));
        ZeroSum();
      } else {
        LogIs(c);
        var k := Log(c);
        MulShifts(a, k);
        MulShifts(b, k);
        MulShifts(add(a, b), k);
        DoubleNAdds(a, b, k);
      }
    }

    lemma ZeroSum()
      requires Laws()
      ensures add(zero, zero) == zero
    {
      assert Product().AddLaws(zero, zero, zero);
    }

    /** A factor two can be moved from one side to the other. */
    lemma DoubleMoves(a: T, h: T)
      requires Laws()
      ensures Mul(a, double(h)) == Mul(double(a), h)
    {
      hide Laws; hide Mul; hide Pow2;
      MulShifts(a, 1);
      MulShifts(h, 1);
      MulCommutes(h, Pow2(1));
      MulAssociates(a, Pow2(1), h);
      assert DoubleN(a, 0) == a && DoubleN(h, 0) == h;
    }

    lemma ProductLaws(a: T, b: T, c: T)
      requires Laws()
      ensures Product().MulLaws(a, b, c)
    {
      hide Laws; hide Mul;
      MulZero(a);
      MulOne(a);
      MulCommutes(a, b);
      MulAssociates(a, b, c);
      MulDistributes(a, b, c);
    }

    lemma ProductInvertible(a: T)
      requires Laws() && a != zero
      ensures Product().Invertible(a)
    {
      hide Laws; hide Mul; hide Log;
      LogIs(a);
      MulInverse(a);
      assert Product().mul(a, Pow2(PERIOD - Log(a))) == one;
    }

    lemma ProductAddLaws(a: T, b: T, c: T)
      requires Laws()
      ensures Product().AddLaws(a, b, c)
    {}

    /** The product by logarithms makes a field. */
    lemma ProductIsAField()
      requires Laws()
      ensures Product().Laws()
    {
      hide Laws; hide Field.AddLaws; hide Field.MulLaws; hide Field.Invertible;
      forall a: T, b: T, c: T { ProductAddLaws(a, b, c); }
      forall a: T, b: T, c: T { ProductLaws(a, b, c); }
      forall a: T | a != zero { ProductInvertible(a); }
      Ends();
    }
  }
}
