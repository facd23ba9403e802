/** Powers of two, masks and bitwise conjunction on natural numbers. */
module Words {

  const WORD32 := 0x1_0000_0000

  function Pow2(k: nat): (p: nat)
    ensures p > 0
  {
    if k == 0 then 1 else 2 * Pow2(k - 1)
  }

  lemma Pow2Step(k: nat)
    ensures Pow2(k) == if k == 0 then 1 else 2 * Pow2(k - 1)
  {}

  lemma Pow2At32()
    ensures Pow2(32) == WORD32 && Pow2(16) == 0x1_0000
  {
    assert Pow2(8) == 0x100;
    assert Pow2(12) == 0x1000;
    assert Pow2(16) == 0x1_0000;
    assert Pow2(20) == 0x10_0000;
    assert Pow2(24) == 0x100_0000;
    assert Pow2(28) == 0x1000_0000;
  }

  lemma {:induction false} Pow2Grows(j: nat, k: nat)
    requires j < k
    ensures Pow2(j) < Pow2(k)
  {
    if j + 1 < k { Pow2Grows(j, k - 1); }
  }

  lemma {:induction false} Pow2Adds(j: nat, k: nat)
    ensures Pow2(j + k) == Pow2(j) * Pow2(k)
  {
    if k > 0 { Pow2Adds(j, k - 1); }
  }

  function And(a: nat, b: nat): nat
    decreases b
  {
    if b == 0 then 0 else 2 * And(a / 2, b / 2) + (if a % 2 == 1 && b % 2 == 1 then 1 else 0)
  }

  lemma AndOdd(a: nat, p: nat)
    requires p > 0
    ensures And(a, 2 * p - 1) == 2 * And(a / 2, p - 1) + a % 2
  {
    assert (2 * p - 1) / 2 == p - 1 && (2 * p - 1) % 2 == 1;
  }

  /** Masking with w ones is the remainder modulo 2^w. */
  lemma {:induction false} AndOnes(a: nat, w: nat)
    ensures And(a, Pow2(w) - 1) == a % Pow2(w)
  {
    hide And; hide Pow2;
    Pow2Step(w);
    if w > 0 {
      AndOnes(a / 2, w - 1);
      AndOdd(a, Pow2(w - 1));
      HalfRemainder(a, Pow2(w - 1));
    } else {
      AndZero(a);
    }
  }

  lemma AndZero(a: nat)
    ensures And(a, 0) == 0
  {}

  lemma HalfRemainder(a: nat, p: nat)
    requires p > 0
    ensures a % (2 * p) == 2 * (a / 2 % p) + a % 2
  {
    var q, r := a / 2 / p, a / 2 % p;
    assert a == 2 * (q * p + r) + a % 2;
    assert a == q * (2 * p) + (2 * r + a % 2);
    Remainder(a, q, 2 * p, 2 * r + a % 2);
  }

  lemma Scaled(a: nat, b: nat, d: nat)
    ensures a <= b ==> a * d <= b * d
  {}

  lemma Remainder(a: nat, q: nat, d: nat, r: nat)
    requires a == q * d + r && r < d
    ensures a % d == r && a / d == q
  {
    Scaled(a / d + 1, q, d);
    Scaled(q + 1, a / d, d);
  }

  /** A multiple of the modulus does not matter. */
  lemma AddMultiple(a: nat, q: nat, d: nat)
    requires d > 0
    ensures (a + q * d) % d == a % d
  {
    var r := a % d;
    assert a + q * d == (a / d + q) * d + r;
    Remainder(a + q * d, a / d + q, d, r);
  }

  /** Reducing first modulo a multiple of the modulus changes nothing. */
  lemma ReduceTwice(a: nat, d: nat, k: nat)
    requires d > 0 && k > 0
    ensures d * k > 0 && a % (d * k) % d == a % d
  {
    var m := d * k;
    var q, r := a / m, a % m;
    assert a == r + (q * k) * d;
    AddMultiple(r, q * k, d);
  }

  /** Neither what stands n >= w places up nor wrapping at 32 bits reaches the low w bits. */
  lemma LowBits(high: nat, low: nat, n: nat, w: nat)
    requires w <= 31 && w <= n
    ensures (high * Pow2(n) + low) % WORD32 % Pow2(w) == low % Pow2(w)
  {
    hide Pow2;
    var d, above, q := Pow2(w), Pow2(n - w), high * Pow2(n - w);
    Pow2Adds(w, n - w);
    Rearranged(high, d, above);
    var total := high * Pow2(n) + low;
    assert total == low + q * d;
    AddMultiple(low, q, d);
    Wrapped(total, w);
  }

  lemma Wrapped(a: nat, w: nat)
    requires w <= 31
    ensures a % WORD32 % Pow2(w) == a % Pow2(w)
  {
    hide Pow2;
    Pow2Adds(w, 32 - w);
    Pow2At32();
    ReduceTwice(a, Pow2(w), Pow2(32 - w));
  }

  lemma Rearranged(a: nat, b: nat, c: nat)
    ensures a * (b * c) == a * c * b
  {}
}
