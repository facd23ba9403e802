/** The order of strings by their first differing character, shorter first. */
module Lexicographic {

  predicate Less(a: string, b: string) {
    if b == [] then false
    else if a == [] then true
    else if a[0] != b[0] then a[0] < b[0]
    else Less(a[1..], b[1..])
  }

  /** The strings agree up to k, where a ends or has the smaller character. */
  ghost predicate DifferAt(a: string, b: string, k: nat) {
    && k <= |a| && k < |b| && (forall i | 0 <= i < k :: a[i] == b[i])
    && (k < |a| ==> a[k] < b[k])
  }

  lemma {:induction false} LessIff(a: string, b: string)
    ensures Less(a, b) <==> exists k: nat :: DifferAt(a, b, k)
  {
    if a != [] && b != [] && a[0] == b[0] {
      LessIff(a[1..], b[1..]);
      forall k: nat ensures DifferAt(a[1..], b[1..], k) <==> DifferAt(a, b, k + 1) { DifferTail(a, b, k); }
      if k: nat :| DifferAt(a, b, k) { assert DifferAt(a[1..], b[1..], k - 1); }
    } else if b != [] {
      if Less(a, b) { assert DifferAt(a, b, 0); }
    }
  }

  lemma DifferTail(a: string, b: string, k: nat)
    requires a != [] && b != [] && a[0] == b[0]
    ensures DifferAt(a[1..], b[1..], k) <==> DifferAt(a, b, k + 1)
  {
    if DifferAt(a, b, k + 1) {
      forall i | 0 <= i < k ensures a[1..][i] == b[1..][i] { assert a[i + 1] == b[i + 1]; }
    }
  }

  lemma {:induction false} Trichotomy(a: string, b: string)
    ensures a == b || Less(a, b) || Less(b, a)
    ensures !(Less(a, b) && Less(b, a)) && !Less(a, a)
  {
    if a != [] && b != [] && a[0] == b[0] {
      Trichotomy(a[1..], b[1..]);
      assert a == [a[0]] + a[1..] && b == [b[0]] + b[1..];
    }
    if a != [] { Irreflexive(a); }
  }

  lemma {:induction false} Irreflexive(a: string)
    ensures !Less(a, a)
  {
    if a != [] { Irreflexive(a[1..]); }
  }

  lemma {:induction false} Transitive(a: string, b: string, c: string)
    requires Less(a, b) && Less(b, c)
    ensures Less(a, c)
  {
    if a != [] && a[0] == b[0] && b[0] == c[0] { Transitive(a[1..], b[1..], c[1..]); }
  }
}
