/** Numbers printed in decimal, as the formatted names of shards and virtual nodes contain them. */
module Decimal {

  function Digit(d: nat): char
    requires d < 10
  {
    ['0', '1', '2', '3', '4', '5', '6', '7', '8', '9'][d]
  }

  function Itoa(n: nat): (s: string)
    ensures s != []
    ensures forall i | 0 <= i < |s| :: exists d: nat :: d < 10 && s[i] == Digit(d)
  {
    if n < 10 then [Digit(n)] else Itoa(n / 10) + [Digit(n % 10)]
  }

  /** The number that a decimal numeral stands for. */
  function Atoi(s: string): nat {
    if s == "" then 0
    else 10 * Atoi(s[..|s| - 1]) + if '0' <= s[|s| - 1] <= '9' then s[|s| - 1] as int - '0' as int else 0
  }

  /** It is the decimal numeral without leading zeros. */
  lemma {:induction false} ItoaRoundTrip(n: nat)
    ensures Atoi(Itoa(n)) == n && (n > 0 ==> Itoa(n)[0] != '0')
    ensures forall c | c in Itoa(n) :: '0' <= c <= '9'
  {
    ItoaParts(n);
    DigitIs(n % 10);
    var s := Itoa(n);
    assert s == s[..|s| - 1] + [s[|s| - 1]];
    if n >= 10 { ItoaRoundTrip(n / 10); }
  }

  lemma DigitIs(d: nat)
    requires d < 10
    ensures '0' <= Digit(d) <= '9' && Digit(d) as int - '0' as int == d
  {}

  lemma DigitInjective(d: nat, e: nat)
    requires d < 10 && e < 10 && Digit(d) == Digit(e)
    ensures d == e
  {}

  lemma ItoaParts(n: nat)
    ensures Itoa(n)[|Itoa(n)| - 1] == Digit(n % 10)
    ensures Itoa(n)[..|Itoa(n)| - 1] == if n < 10 then [] else Itoa(n / 10)
  {}

  lemma {:induction false} ItoaInjective(m: nat, n: nat)
    requires Itoa(m) == Itoa(n)
    ensures m == n
  {
    ItoaParts(m);
    ItoaParts(n);
    DigitInjective(m % 10, n % 10);
    if m >= 10 && n >= 10 { ItoaInjective(m / 10, n / 10); }
  }

  lemma ItoaHasNo(n: nat, c: char)
    requires forall d: nat | d < 10 :: Digit(d) != c
    ensures c !in Itoa(n)
  {}

  /** A separator that is no digit makes name and number recoverable from their concatenation. */
  lemma SeparatedInjective(a: string, m: nat, b: string, n: nat, c: char)
    requires forall d: nat | d < 10 :: Digit(d) != c
    requires a + [c] + Itoa(m) == b + [c] + Itoa(n)
    ensures a == b && m == n
  {
    SeparatorFirst(a, m, b, n, c);
    SeparatorFirst(b, n, a, m, c);
    var s := a + [c] + Itoa(m);
    assert a == s[..|a|] && b == s[..|b|];
    assert Itoa(m) == s[|a| + 1..] && Itoa(n) == s[|b| + 1..];
    ItoaInjective(m, n);
  }

  lemma SeparatorFirst(a: string, m: nat, b: string, n: nat, c: char)
    requires forall d: nat | d < 10 :: Digit(d) != c
    requires a + [c] + Itoa(m) == b + [c] + Itoa(n)
    ensures |b| <= |a|
  {
    SeparatorInRest(a, Itoa(m), b, Itoa(n), c);
    ItoaHasNo(m, c);
  }

  lemma SeparatorInRest(a: string, x: string, b: string, y: string, c: char)
    requires a + [c] + x == b + [c] + y
    ensures |a| < |b| ==> c in x
  {
    if |a| < |b| {
      assert (b + [c] + y)[|b|] == c;
      assert x[|b| - |a| - 1] == (a + [c] + x)[|b|];
    }
  }
}
