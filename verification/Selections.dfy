/** What is picked out of a sequence, in order. */
module Selections {

  /** The positions below n that are picked. */
  ghost function Picked(pick: int -> bool, n: int): (s: set<int>)
    ensures forall i :: i in s <==> 0 <= i < n && pick(i)
  {
    set i | 0 <= i < n && pick(i)
  }

  ghost function Count(pick: int -> bool, n: int): nat { |Picked(pick, n)| }

  lemma CountStep(pick: int -> bool, n: nat)
    ensures Count(pick, 0) == 0 && Count(pick, n + 1) == Count(pick, n) + if pick(n) then 1 else 0
  {
    assert Picked(pick, 0) == {};
    assert Picked(pick, n + 1) == if pick(n) then Picked(pick, n) + {n} else Picked(pick, n);
  }

  /** Whoever is picked earlier has fewer before it. */
  lemma {:induction false} CountLess(pick: int -> bool, i: nat, n: nat)
    requires i < n && pick(i)
    ensures Count(pick, i) < Count(pick, n)
  {
    CountStep(pick, n - 1);
    if i < n - 1 { CountLess(pick, i, n - 1); }
  }

  /** Exactly the picked entries of s, each at the number of those picked before it. */
  ghost predicate Selects<T>(r: seq<T>, s: seq<T>, pick: int -> bool) {
    && |r| == Count(pick, |s|)
    && forall i | 0 <= i < |s| && pick(i) :: Count(pick, i) < |r| && r[Count(pick, i)] == s[i]
  }

  lemma SelectsCount<T>(r: seq<T>, s: seq<T>, pick: int -> bool)
    requires Selects(r, s, pick)
    ensures |r| == Count(pick, |s|)
  {}

  lemma SelectsNothing<T>(pick: int -> bool)
    ensures Selects<T>([], [], pick)
  {
    CountStep(pick, 0);
  }

  lemma SelectsOneMore<T>(r: seq<T>, s: seq<T>, x: T, pick: int -> bool)
    requires Selects(r, s, pick)
    ensures Selects(r + (if pick(|s|) then [x] else []), s + [x], pick)
  {
    hide Count;
    var more := r + if pick(|s|) then [x] else [];
    CountStep(pick, |s|);
    forall i | 0 <= i < |s| + 1 && pick(i)
      ensures Count(pick, i) < |more| && more[Count(pick, i)] == (s + [x])[i]
    {
      CountLess(pick, i, |s| + 1);
    }
  }

  /** There is one selection only. */
  lemma {:induction false} SelectsOnce<T>(r: seq<T>, q: seq<T>, s: seq<T>, pick: int -> bool)
    requires Selects(r, s, pick) && Selects(q, s, pick)
    ensures r == q
  {
    forall k | 0 <= k < |r| ensures r[k] == q[k] {
      var i := PlaceOf(pick, |s|, k);
    }
  }

  lemma {:induction false} PlaceOf(pick: int -> bool, n: nat, k: nat) returns (i: nat)
    requires k < Count(pick, n)
    ensures i < n && pick(i) && Count(pick, i) == k
  {
    CountStep(pick, n - 1);
    if k < Count(pick, n - 1) { i := PlaceOf(pick, n - 1, k); } else { i := n - 1; }
  }
}
