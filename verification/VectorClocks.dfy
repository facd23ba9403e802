/** Vector clocks: increment, comparison and merge, and the order they live in. */
module VectorClocks {

  const COUNTERS := 0x1_0000_0000_0000_0000

  /** A node without an entry counts zero. */
  type Clock = map<string, nat>

  datatype ClockRelation = Equal | Before | After | Concurrent

  function Get(c: Clock, node: string): nat {
    if node in c then c[node] else 0
  }

  ghost predicate Leq(a: Clock, b: Clock) {
    forall node :: Get(a, node) <= Get(b, node)
  }

  /** The place of a relative to b in the pointwise order. */
  ghost function Relation(a: Clock, b: Clock): ClockRelation {
    if Leq(a, b) then (if Leq(b, a) then Equal else Before)
    else if Leq(b, a) then After else Concurrent
  }

  /** One more event on a node; the counter is 64 bits wide. */
  function Incremented(c: Clock, node: string): Clock {
    if node == "" then c else c[node := (Get(c, node) + 1) % COUNTERS]
  }

  function Merged(a: Clock, b: Clock): Clock {
    map node | node in a.Keys + b.Keys && (node in a || Get(b, node) > 0) ::
      if Get(a, node) < Get(b, node) then Get(b, node) else Get(a, node)
  }

  /** Merge is the least upper bound. */
  lemma MergedIsLeastUpperBound(a: Clock, b: Clock, c: Clock)
    ensures Leq(a, Merged(a, b)) && Leq(b, Merged(a, b))
    ensures Leq(a, c) && Leq(b, c) <==> Leq(Merged(a, b), c)
  {
    forall node ensures Get(Merged(a, b), node) == if Get(a, node) < Get(b, node) then Get(b, node) else Get(a, node) {}
  }

  lemma LeqTransitive(a: Clock, b: Clock, c: Clock)
    requires Leq(a, b) && Leq(b, c)
    ensures Leq(a, c)
  {}

  /** Below the largest counter an increment is strictly after; at it, the counter falls back to zero. */
  lemma IncrementAdvances(c: Clock, node: string)
    requires node != "" && Get(c, node) < COUNTERS
    ensures Relation(Incremented(c, node), c) == if Get(c, node) == COUNTERS - 1 then Before else After
    ensures Get(Incremented(c, node), node) == if Get(c, node) == COUNTERS - 1 then 0 else Get(c, node) + 1
    ensures forall k | k != node :: Get(Incremented(c, node), k) == Get(c, k)
  {
    var i := Incremented(c, node);
    assert Get(i, node) != Get(c, node);
    if Get(c, node) == COUNTERS - 1 { assert Get(i, node) == 0; }
  }

  /** The clock object of a manifest. */
  class VectorClock {
    var values: Clock

    constructor ()
      ensures values == map[]
    {
      values := map[];
    }

    method Increment(nodeID: string)
      modifies this
      ensures values == Incremented(old(values), nodeID)
    {
      if nodeID == "" { return; }
      values := values[nodeID := (Get(values, nodeID) + 1) % COUNTERS];
    }

    /** Visits every node either clock knows, in any order. */
    method Compare(other: VectorClock?) returns (rel: ClockRelation)
      ensures rel == if other == null then After else Relation(values, other.values)
    {
      if other == null { return After; }
      var allKeys := values.Keys + other.values.Keys;
      var keys := allKeys;
      var hasGreater, hasLesser := false, false;
      while keys != {}
        invariant keys <= allKeys
        invariant hasGreater <==> exists k :: k in allKeys - keys && Get(values, k) > Get(other.values, k)
        invariant hasLesser <==> exists k :: k in allKeys - keys && Get(values, k) < Get(other.values, k)
        decreases keys
      {
        var k :| k in keys;
        if Get(values, k) > Get(other.values, k) { hasGreater := true; }
        if Get(values, k) < Get(other.values, k) { hasLesser := true; }
        assert allKeys - (keys - {k}) == (allKeys - keys) + {k};
        keys := keys - {k};
      }
      assert hasGreater <==> !Leq(values, other.values);
      assert hasLesser <==> !Leq(other.values, values);
      rel := if !hasGreater && !hasLesser then Equal
             else if hasGreater && !hasLesser then After
             else if !hasGreater && hasLesser then Before
             else Concurrent;
    }

    method Merge(other: VectorClock?)
      requires other != this
      modifies this
      ensures values == if other == null then old(values) else Merged(old(values), other.values)
    {
      if other == null { return; }
      hide Merged;
      var keys := other.values.Keys;
      ghost var done: Clock := map[];
      MergedWithNothing(values);
      while keys != {}
        invariant keys <= other.values.Keys && done.Keys == other.values.Keys - keys
        invariant forall k | k in done :: done[k] == other.values[k]
        invariant values == Merged(old(values), done)
        decreases keys
      {
        var k :| k in keys;
        var v2 := other.values[k];
        MergedWithOneMore(old(values), done, k, v2);
        if v2 > Get(values, k) { values := values[k := v2]; }
        done := done[k := v2];
        keys := keys - {k};
      }
      assert done == other.values;
    }
  }

  lemma MergedWithNothing(a: Clock)
    ensures Merged(a, map[]) == a
  {}

  lemma MergedWithOneMore(a: Clock, b: Clock, k: string, v: nat)
    requires k !in b
    ensures var m := Merged(a, b); Merged(a, b[k := v]) == if v > Get(m, k) then m[k := v] else m
  {}
}
