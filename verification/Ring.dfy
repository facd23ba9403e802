/** The consistent-hash ring: an index of virtual-node positions and the clockwise walk over it. */
module Ring {
  import opened Decimal

  const CIRCLE := 0x1_0000_0000

  type Position = p: nat | p < CIRCLE

  /** The hash of names to positions and the number of virtual nodes of a node. */
  datatype Layout = Layout(hash: string -> Position, virtualNodes: nat) {

    function VirtualName(node: string, i: nat): string { node + "#" + Itoa(i) }

    function VirtualPosition(node: string, i: nat): Position { hash(VirtualName(node, i)) }

    ghost predicate Owns(node: string, p: Position) {
      exists i: nat :: i < virtualNodes && VirtualPosition(node, i) == p
    }

    ghost predicate NoCollisions(nodes: set<string>) {
      forall x, y, p: Position | x in nodes && y in nodes && Owns(x, p) && Owns(y, p) :: x == y
    }
  }

  /** Virtual nodes of different nodes, and different virtual nodes of one node, have different names. */
  lemma VirtualNamesDistinct(l: Layout, a: string, i: nat, b: string, j: nat)
    requires l.VirtualName(a, i) == l.VirtualName(b, j)
    ensures a == b && i == j
  {
    assert a + "#" == a + ['#'] && b + "#" == b + ['#'];
    SeparatedInjective(a, i, b, j, '#');
  }

  // The index, as it should be for a set of nodes.

  ghost predicate Canonical(l: Layout, nodes: set<string>, index: map<Position, string>) {
    && (forall p | p in index :: index[p] in nodes && l.Owns(index[p], p))
    && (forall x, p: Position | x in nodes && l.Owns(x, p) :: p in index)
  }

  ghost function Added(l: Layout, index: map<Position, string>, node: string): (r: map<Position, string>)
    ensures forall p: Position :: p in r <==> p in index || l.Owns(node, p)
    ensures forall p | p in r :: r[p] == if l.Owns(node, p) then node else index[p]
  {
    var own := set i: nat | i < l.virtualNodes :: l.VirtualPosition(node, i);
    map p | p in index.Keys + own :: if l.Owns(node, p) then node else index[p]
  }

  ghost function Removed(l: Layout, index: map<Position, string>, node: string): map<Position, string> {
    map p | p in index && !l.Owns(node, p) :: index[p]
  }

  ghost function AddedUpTo(l: Layout, index: map<Position, string>, node: string, n: nat): map<Position, string> {
    if n == 0 then index else AddedUpTo(l, index, node, n - 1)[l.VirtualPosition(node, n - 1) := node]
  }

  lemma {:induction false} AddedUpToContents(l: Layout, index: map<Position, string>, node: string, n: nat)
    ensures var m := AddedUpTo(l, index, node, n); var part := Layout(l.hash, n);
            && (forall p: Position :: p in m <==> p in index || part.Owns(node, p))
            && (forall p | p in m :: m[p] == if part.Owns(node, p) then node else index[p])
  {
    if n > 0 {
      AddedUpToContents(l, index, node, n - 1);
      OwnsOneMore(l, node, n);
    }
  }

  lemma OwnsOneMore(l: Layout, node: string, n: nat)
    requires n > 0
    ensures forall p: Position ::
      Layout(l.hash, n).Owns(node, p) <==> Layout(l.hash, n - 1).Owns(node, p) || p == l.VirtualPosition(node, n - 1)
  {
    hide Layout.VirtualPosition;
    forall p: Position
      ensures Layout(l.hash, n).Owns(node, p) <==>
              Layout(l.hash, n - 1).Owns(node, p) || p == l.VirtualPosition(node, n - 1)
    {
      PositionOfHash(l, n, node);
      PositionOfHash(l, n - 1, node);
    }
  }

  lemma PositionOfHash(l: Layout, n: nat, node: string)
    ensures forall i: nat :: Layout(l.hash, n).VirtualPosition(node, i) == l.VirtualPosition(node, i)
  {}

  lemma AddedUpToAll(l: Layout, index: map<Position, string>, node: string)
    ensures AddedUpTo(l, index, node, l.virtualNodes) == Added(l, index, node)
  {
    hide Layout.Owns;
    AddedUpToContents(l, index, node, l.virtualNodes);
    assert Layout(l.hash, l.virtualNodes) == l;
    assert AddedUpTo(l, index, node, l.virtualNodes).Keys == Added(l, index, node).Keys;
  }

  ghost function RemovedUpTo(l: Layout, index: map<Position, string>, node: string, n: nat): map<Position, string> {
    if n == 0 then index else RemovedUpTo(l, index, node, n - 1) - {l.VirtualPosition(node, n - 1)}
  }

  lemma {:induction false} RemovedUpToContents(l: Layout, index: map<Position, string>, node: string, n: nat)
    ensures RemovedUpTo(l, index, node, n) == Removed(Layout(l.hash, n), index, node)
  {
    if n > 0 {
      RemovedUpToContents(l, index, node, n - 1);
      OwnsOneMore(l, node, n);
    }
  }

  lemma AddingKeepsCanonical(l: Layout, nodes: set<string>, index: map<Position, string>, node: string)
    requires Canonical(l, nodes, index) && l.NoCollisions(nodes + {node})
    ensures Canonical(l, nodes + {node}, Added(l, index, node))
  {
    hide Layout.Owns;
  }

  lemma RemovingKeepsCanonical(l: Layout, nodes: set<string>, index: map<Position, string>, node: string)
    requires Canonical(l, nodes, index) && l.NoCollisions(nodes + {node})
    ensures Canonical(l, nodes - {node}, Removed(l, index, node))
  {
    hide Layout.Owns;
    forall p | p in Removed(l, index, node) ensures index[p] in nodes - {node} {
      assert index[p] in nodes && l.Owns(index[p], p);
    }
  }

  /** Without collisions the index is a function of the node set. */
  lemma IndexDependsOnNodes(l: Layout, nodes: set<string>, a: map<Position, string>, b: map<Position, string>)
    requires Canonical(l, nodes, a) && Canonical(l, nodes, b) && l.NoCollisions(nodes)
    ensures a == b
  {
    hide Layout.Owns;
    assert a.Keys == b.Keys by {
      forall p: Position ensures p in a <==> p in b {
        if p in a { assert a[p] in nodes && l.Owns(a[p], p); }
        if p in b { assert b[p] in nodes && l.Owns(b[p], p); }
      }
    }
    forall p | p in a ensures a[p] == b[p] { assert l.Owns(a[p], p) && l.Owns(b[p], p); }
  }

  /** Adding and then removing a node restores the index exactly when none of its positions was taken. */
  lemma AddRemoveRestores(l: Layout, index: map<Position, string>, node: string)
    ensures Removed(l, Added(l, index, node), node) == index <==> forall p | p in index :: !l.Owns(node, p)
  {
    hide Layout.Owns;
    var r := Removed(l, Added(l, index, node), node);
    if r == index {
      forall p | p in index ensures !l.Owns(node, p) { assert p in r; }
    }
    if forall p | p in index :: !l.Owns(node, p) {
      assert r.Keys == index.Keys;
    }
  }

  // Sorted sequences of positions.

  ghost predicate Sorted(s: seq<Position>) {
    forall i, j | 0 <= i < j < |s| :: s[i] < s[j]
  }

  lemma {:induction false} SortedUnique(a: seq<Position>, b: seq<Position>)
    requires Sorted(a) && Sorted(b) && forall p: Position :: p in a <==> p in b
    ensures a == b
  {
    HeadIn(a);
    HeadIn(b);
    if a != [] && b != [] {
      assert a[0] in b && b[0] in a;
      assert a[0] == b[0];
      forall p: Position ensures p in a[1..] <==> p in b[1..] {
        assert p in a <==> p == a[0] || p in a[1..];
        assert p in b <==> p == b[0] || p in b[1..];
        assert a[0] !in a[1..] && b[0] !in b[1..];
      }
      SortedUnique(a[1..], b[1..]);
    }
  }

  lemma HeadIn(s: seq<Position>)
    ensures s != [] ==> s[0] in s
  {}

  method Insert(s: seq<Position>, p: Position) returns (r: seq<Position>)
    requires Sorted(s) && p !in s
    ensures Sorted(r) && forall q: Position :: q in r <==> q in s || q == p
  {
    var i := 0;
    while i < |s| && s[i] < p
      invariant 0 <= i <= |s| && forall j | 0 <= j < i :: s[j] < p
    {
      i := i + 1;
    }
    assert s == s[..i] + s[i..];
    r := s[..i] + [p] + s[i..];
  }

  /** The first index from which on every position is at least key. */
  method Search(s: seq<Position>, key: Position) returns (start: nat)
    requires Sorted(s)
    ensures start <= |s|
    ensures forall i | 0 <= i < start :: s[i] < key
    ensures forall i | start <= i < |s| :: s[i] >= key
  {
    var lo, hi := 0, |s|;
    while lo < hi
      invariant 0 <= lo <= hi <= |s|
      invariant forall i | 0 <= i < lo :: s[i] < key
      invariant forall i | hi <= i < |s| :: s[i] >= key
    {
      var mid := (lo + hi) / 2;
      if s[mid] >= key { hi := mid; } else { lo := mid + 1; }
    }
    start := lo;
  }

  // Clockwise distance and the preference list of a key.

  function Distance(key: Position, p: Position): nat {
    if p >= key then p - key else p + CIRCLE - key
  }

  ghost function NearestOf(l: Layout, key: Position, node: string, n: nat): (d: nat)
    requires n > 0
    ensures forall i: nat | i < n :: d <= Distance(key, l.VirtualPosition(node, i))
    ensures exists i: nat :: i < n && d == Distance(key, l.VirtualPosition(node, i))
  {
    var last := Distance(key, l.VirtualPosition(node, n - 1));
    if n == 1 then last
    else
      var rest := NearestOf(l, key, node, n - 1);
      if last < rest then last else rest
  }

  /** How far clockwise from the key the first virtual node of a node is. */
  ghost function Nearest(l: Layout, key: Position, node: string): (d: nat)
    requires l.virtualNodes > 0
    ensures forall p: Position | l.Owns(node, p) :: d <= Distance(key, p)
    ensures exists p: Position :: l.Owns(node, p) && d == Distance(key, p)
  {
    var d := NearestOf(l, key, node, l.virtualNodes);
    assert exists p: Position :: l.Owns(node, p) && d == Distance(key, p) by {
      var i: nat :| i < l.virtualNodes && d == Distance(key, l.VirtualPosition(node, i));
      assert l.Owns(node, l.VirtualPosition(node, i));
    }
    d
  }

  lemma NearestDistinct(l: Layout, key: Position, nodes: set<string>, x: string, y: string)
    requires l.virtualNodes > 0 && l.NoCollisions(nodes) && x in nodes && y in nodes
    requires Nearest(l, key, x) == Nearest(l, key, y)
    ensures x == y
  {
    hide Layout.Owns;
    var p: Position :| l.Owns(x, p) && Nearest(l, key, x) == Distance(key, p);
    var q: Position :| l.Owns(y, q) && Nearest(l, key, y) == Distance(key, q);
    assert p == q;
  }

  lemma {:induction false} ClosestExists(l: Layout, key: Position, nodes: set<string>)
    requires l.virtualNodes > 0 && nodes != {}
    ensures exists x :: IsClosest(l, key, nodes, x)
  {
    hide Nearest;
    var y :| y in nodes;
    if nodes == {y} {
      assert IsClosest(l, key, nodes, y);
    } else {
      assert nodes == {y} + (nodes - {y});
      ClosestExists(l, key, nodes - {y});
      var x :| IsClosest(l, key, nodes - {y}, x);
      assert IsClosest(l, key, nodes, if Nearest(l, key, x) <= Nearest(l, key, y) then x else y);
    }
  }

  ghost predicate IsClosest(l: Layout, key: Position, nodes: set<string>, x: string)
    requires l.virtualNodes > 0
  {
    x in nodes && forall y | y in nodes :: Nearest(l, key, x) <= Nearest(l, key, y)
  }

  ghost function Closest(l: Layout, key: Position, nodes: set<string>): (x: string)
    requires l.virtualNodes > 0 && nodes != {}
    ensures IsClosest(l, key, nodes, x)
  {
    ClosestExists(l, key, nodes);
    var x :| IsClosest(l, key, nodes, x);
    x
  }

  /** All nodes in clockwise order of their first virtual node after the key. */
  ghost function Preference(l: Layout, key: Position, nodes: set<string>): (list: seq<string>)
    requires l.virtualNodes > 0
    ensures |list| == |nodes|
    decreases |nodes|
  {
    if nodes == {} then []
    else
      var x := Closest(l, key, nodes);
      [x] + Preference(l, key, nodes - {x})
  }

  lemma {:induction false} PreferenceMembers(l: Layout, key: Position, nodes: set<string>)
    requires l.virtualNodes > 0
    ensures forall x :: x in Preference(l, key, nodes) <==> x in nodes
    decreases |nodes|
  {
    hide IsClosest;
    if nodes != {} {
      var c := Closest(l, key, nodes);
      assert c in nodes by { ClosestIn(l, key, nodes); }
      PreferenceMembers(l, key, nodes - {c});
    }
  }

  lemma ClosestIn(l: Layout, key: Position, nodes: set<string>)
    requires l.virtualNodes > 0 && nodes != {}
    ensures Closest(l, key, nodes) in nodes
  {}

  lemma PreferenceSplit(l: Layout, key: Position, nodes: set<string>)
    requires l.virtualNodes > 0 && nodes != {}
    ensures var c := Closest(l, key, nodes);
            c in nodes && Preference(l, key, nodes) == [c] + Preference(l, key, nodes - {c})
  {
    hide Nearest;
  }

  lemma SubsetHasNoCollisions(l: Layout, nodes: set<string>, fewer: set<string>)
    requires l.NoCollisions(nodes) && fewer <= nodes
    ensures l.NoCollisions(fewer)
  {
    hide Layout.Owns;
  }

  lemma ClosestIsStrictlyClosest(l: Layout, key: Position, nodes: set<string>, y: string)
    requires l.virtualNodes > 0 && l.NoCollisions(nodes) && y in nodes && y != Closest(l, key, nodes)
    ensures Nearest(l, key, Closest(l, key, nodes)) < Nearest(l, key, y)
  {
    hide Nearest; hide Layout.NoCollisions;
    var c := Closest(l, key, nodes);
    if Nearest(l, key, c) == Nearest(l, key, y) { NearestDistinct(l, key, nodes, c, y); }
  }

  /** The list holds every node once, by increasing distance. */
  lemma {:induction false} PreferenceSorted(l: Layout, key: Position, nodes: set<string>, i: nat, j: nat)
    requires l.virtualNodes > 0 && l.NoCollisions(nodes) && i < j < |nodes|
    ensures var list := Preference(l, key, nodes);
            list[i] != list[j] && Nearest(l, key, list[i]) < Nearest(l, key, list[j])
    decreases |nodes|
  {
    hide Nearest; hide Layout.NoCollisions; hide Preference; hide IsClosest;
    var list := Preference(l, key, nodes);
    var c := Closest(l, key, nodes);
    PreferenceSplit(l, key, nodes);
    SubsetHasNoCollisions(l, nodes, nodes - {c});
    if i == 0 {
      PreferenceMembers(l, key, nodes - {c});
      assert list[j] == Preference(l, key, nodes - {c})[j - 1];
      ClosestIsStrictlyClosest(l, key, nodes, list[j]);
    } else {
      PreferenceSorted(l, key, nodes - {c}, i - 1, j - 1);
    }
  }

  function Without(list: seq<string>, x: string): seq<string> {
    if list == [] then [] else if list[0] == x then Without(list[1..], x) else [list[0]] + Without(list[1..], x)
  }

  lemma {:induction false} WithoutAbsent(list: seq<string>, x: string)
    requires x !in list
    ensures Without(list, x) == list
  {
    if list != [] { WithoutAbsent(list[1..], x); }
  }

  lemma ClosestUnique(l: Layout, key: Position, nodes: set<string>, x: string)
    requires l.virtualNodes > 0 && l.NoCollisions(nodes) && IsClosest(l, key, nodes, x)
    ensures nodes != {} && Closest(l, key, nodes) == x
  {
    hide Nearest; hide Layout.Owns;
    var y := Closest(l, key, nodes);
    NearestDistinct(l, key, nodes, x, y);
  }

  lemma WithoutHead(x: string, c: string, tail: seq<string>)
    ensures Without([c] + tail, x) == if c == x then Without(tail, x) else [c] + Without(tail, x)
  {
    assert ([c] + tail)[1..] == tail;
  }

  lemma StaysClosest(l: Layout, key: Position, nodes: set<string>, x: string)
    requires l.virtualNodes > 0 && l.NoCollisions(nodes) && nodes != {} && Closest(l, key, nodes) != x
    ensures nodes - {x} != {} && Closest(l, key, nodes - {x}) == Closest(l, key, nodes)
  {
    hide Nearest; hide Layout.NoCollisions;
    SubsetHasNoCollisions(l, nodes, nodes - {x});
    ClosestUnique(l, key, nodes - {x}, Closest(l, key, nodes));
  }

  /** Removing a node deletes it from every key's preference list and moves nothing else. */
  lemma {:induction false} RemovalDeletes(l: Layout, key: Position, nodes: set<string>, x: string)
    requires l.virtualNodes > 0 && l.NoCollisions(nodes)
    ensures Preference(l, key, nodes - {x}) == Without(Preference(l, key, nodes), x)
    decreases |nodes|
  {
    hide Layout.NoCollisions; hide Preference; hide Nearest; hide IsClosest; hide Without;
    if nodes == {} {
      assert nodes - {x} == nodes;
      EmptyPreference(l, key, x);
    } else {
      var c := Closest(l, key, nodes);
      PreferenceSplit(l, key, nodes);
      WithoutHead(x, c, Preference(l, key, nodes - {c}));
      if c == x {
        PreferenceMembers(l, key, nodes - {x});
        WithoutAbsent(Preference(l, key, nodes - {x}), x);
      } else {
        SubsetHasNoCollisions(l, nodes, nodes - {c});
        RemovalDeletes(l, key, nodes - {c}, x);
        StaysClosest(l, key, nodes, x);
        PreferenceSplit(l, key, nodes - {x});
        assert nodes - {x} - {c} == nodes - {c} - {x};
      }
    }
  }

  lemma EmptyPreference(l: Layout, key: Position, x: string)
    requires l.virtualNodes > 0
    ensures Without(Preference(l, key, {}), x) == Preference(l, key, {})
  {}

  lemma {:induction false} WithoutPrefix(list: seq<string>, x: string, n: nat)
    requires n <= |list| && x !in list[..n]
    ensures |Without(list, x)| >= n && Without(list, x)[..n] == list[..n]
  {
    if n > 0 {
      assert list[0] in list[..n];
      assert list[1..][..n - 1] == list[..n][1..];
      WithoutPrefix(list[1..], x, n - 1);
    }
  }

  function Take(list: seq<string>, n: int): seq<string> {
    if n <= 0 then [] else if n <= |list| then list[..n] else list
  }

  /** A key whose first n nodes did not include the removed (or the added) node keeps exactly the same n nodes. */
  lemma UnaffectedKeys(l: Layout, key: Position, nodes: set<string>, x: string, n: nat)
    requires l.virtualNodes > 0 && l.NoCollisions(nodes)
    requires x !in Take(Preference(l, key, nodes), n)
    ensures Take(Preference(l, key, nodes - {x}), n) == Take(Preference(l, key, nodes), n)
  {
    hide Layout.Owns;
    var list := Preference(l, key, nodes);
    RemovalDeletes(l, key, nodes, x);
    if n <= |list| { WithoutPrefix(list, x, n); } else { WithoutAbsent(list, x); }
  }

  // The walk.

  /** The positions in clockwise order from the key. */
  ghost function Rotated(s: seq<Position>, start: nat): seq<Position>
    requires start <= |s|
  {
    s[start..] + s[..start]
  }

  ghost predicate Clockwise(key: Position, ps: seq<Position>) {
    forall i, j | 0 <= i < j < |ps| :: Distance(key, ps[i]) < Distance(key, ps[j])
  }

  lemma RotatedOrder(key: Position, s: seq<Position>, a: nat, i: nat, j: nat)
    requires a <= |s| && Clockwise(key, Rotated(s, a)) && i < |s| && j < |s|
    requires if i >= a then j > i || j < a else i < j < a
    ensures Distance(key, s[i]) < Distance(key, s[j])
  {
    hide Distance;
    var r := Rotated(s, a);
    var i', j' := if i >= a then i - a else i + |s| - a, if j >= a then j - a else j + |s| - a;
    assert r[i'] == s[i] && r[j'] == s[j] && i' < j';
  }

  lemma RotationUnique(key: Position, s: seq<Position>, a: nat, b: nat)
    requires a <= |s| && b <= |s|
    requires Clockwise(key, Rotated(s, a)) && Clockwise(key, Rotated(s, b))
    ensures Rotated(s, a) == Rotated(s, b)
  {
    hide Clockwise; hide Distance;
    if a > b {
      RotationUnique(key, s, b, a);
    } else if 0 < a < b || (a < b < |s|) {
      var j := if b < |s| then b else 0;
      RotatedOrder(key, s, a, a, j);
      RotatedOrder(key, s, b, j, a);
    }
  }

  lemma RotatedIsClockwise(s: seq<Position>, key: Position, start: nat)
    requires Sorted(s) && start <= |s|
    requires (forall i | 0 <= i < start :: s[i] < key) && forall i | start <= i < |s| :: s[i] >= key
    ensures Clockwise(key, Rotated(s, start))
    ensures forall p: Position :: p in Rotated(s, start) <==> p in s
  {
    assert s == s[..start] + s[start..];
  }

  /** The owners of the positions, each at its first position only, leaving out those seen. */
  ghost function Owners(index: map<Position, string>, ps: seq<Position>, seen: set<string>): seq<string>
    requires forall p | p in ps :: p in index
  {
    if ps == [] then []
    else
      var x := index[ps[0]];
      if x in seen then Owners(index, ps[1..], seen) else [x] + Owners(index, ps[1..], seen + {x})
  }

  lemma OwnersStep(index: map<Position, string>, ps: seq<Position>, i: nat, seen: set<string>)
    requires i < |ps| && forall p | p in ps :: p in index
    ensures var x := index[ps[i]];
            Owners(index, ps[i..], seen) ==
              if x in seen then Owners(index, ps[i + 1..], seen) else [x] + Owners(index, ps[i + 1..], seen + {x})
  {
    assert ps[i..][0] == ps[i] && ps[i..][1..] == ps[i + 1..];
  }

  lemma OwnersOfNone(index: map<Position, string>, ps: seq<Position>, seen: set<string>)
    requires forall p | p in ps :: p in index
    ensures Owners(index, ps[|ps|..], seen) == []
  {}

  lemma RotatedMembers(s: seq<Position>, start: nat)
    requires start <= |s|
    ensures |Rotated(s, start)| == |s| && forall p: Position :: p in Rotated(s, start) <==> p in s
  {
    assert s == s[..start] + s[start..];
  }

  lemma RotatedAt(s: seq<Position>, start: nat, i: nat)
    requires start <= |s| && i < |s|
    ensures i < |Rotated(s, start)| && Rotated(s, start)[i] == s[(start + i) % |s|]
  {
    var n := |s|;
    assert (start + i) % n == if start + i < n then start + i else start + i - n by { WrapAround(start, i, n); }
  }

  lemma WrapAround(start: nat, i: nat, n: nat)
    requires start <= n && i < n
    ensures (start + i) % n == if start + i < n then start + i else start + i - n
  {}

  lemma TakeIsPrefix(all: seq<string>, result: seq<string>, n: int)
    requires result <= all && (|result| <= n || |result| == 0)
    ensures |result| >= n || result == all ==> result == Take(all, n)
  {}

  ghost predicate Ahead(l: Layout, index: map<Position, string>, ps: seq<Position>, rest: set<string>) {
    forall x, p: Position | x in rest && l.Owns(x, p) :: p in ps
  }

  lemma NearestOwned(l: Layout, key: Position, node: string) returns (p: Position)
    requires l.virtualNodes > 0
    ensures l.Owns(node, p) && Nearest(l, key, node) == Distance(key, p)
  {
    var d := Nearest(l, key, node);
    p :| l.Owns(node, p) && d == Distance(key, p);
  }

  lemma FirstIsClosest(l: Layout, key: Position, index: map<Position, string>, ps: seq<Position>, rest: set<string>)
    requires l.virtualNodes > 0 && Clockwise(key, ps) && ps != [] && ps[0] in index
    requires Ahead(l, index, ps, rest) && index[ps[0]] in rest && l.Owns(index[ps[0]], ps[0])
    ensures IsClosest(l, key, rest, index[ps[0]])
  {
    hide Layout.Owns; hide Distance;
    var d := Distance(key, ps[0]);
    forall y | y in rest ensures d <= Nearest(l, key, y) {
      var q := NearestOwned(l, key, y);
      var i :| 0 <= i < |ps| && ps[i] == q;
    }
  }

  /** On a consistent ring the owners met on the walk are the preference list. */
  lemma {:induction false} OwnersArePreference(l: Layout, key: Position, nodes: set<string>,
                                               index: map<Position, string>, ps: seq<Position>, seen: set<string>)
    requires l.virtualNodes > 0 && Canonical(l, nodes, index) && l.NoCollisions(nodes)
    requires Clockwise(key, ps) && forall p | p in ps :: p in index
    requires Ahead(l, index, ps, nodes - seen)
    ensures Owners(index, ps, seen) == Preference(l, key, nodes - seen)
    decreases |ps|
  {
    hide Layout.Owns; hide IsClosest; hide Distance;
    var rest := nodes - seen;
    if ps == [] {
      if rest != {} {
        var x :| x in rest;
        var p := NearestOwned(l, key, x);
      }
    } else {
      var x := index[ps[0]];
      assert ps[0] in ps && ps[0] in index && x in nodes && l.Owns(x, ps[0]);
      forall y, p: Position | y in rest - {x} && l.Owns(y, p) ensures p in ps[1..] {
        assert p in ps && p != ps[0];
      }
      if x in seen {
        assert rest - {x} == rest;
        OwnersArePreference(l, key, nodes, index, ps[1..], seen);
      } else {
        FirstIsClosest(l, key, index, ps, rest);
        ClosestUnique(l, key, rest, x);
        assert nodes - (seen + {x}) == rest - {x};
        OwnersArePreference(l, key, nodes, index, ps[1..], seen + {x});
      }
    }
  }

  /** The nodes for a key: what the walk from the key's place in an index meets. */
  ghost function NodesOn(l: Layout, s: seq<Position>, index: map<Position, string>, key: string, n: int): seq<string> {
    if start: nat :| start <= |s| && Clockwise(l.hash(key), Rotated(s, start)) && (forall p | p in s :: p in index)
    then Take(Owners(index, Rotated(s, start), {}), n)
    else []
  }

  class HashRing {
    const l: Layout
    var sortedHashes: seq<Position>
    var hashToNode: map<Position, string>
    var nodes: set<string>

    ghost predicate Valid()
      reads this
    {
      && l.virtualNodes > 0 && Sorted(sortedHashes)
      && forall p: Position :: p in sortedHashes <==> p in hashToNode
    }

    /** The index is that of the node set. */
    ghost predicate Consistent()
      reads this
    {
      Valid() && Canonical(l, nodes, hashToNode) && l.NoCollisions(nodes)
    }

    constructor (hash: string -> Position)
      ensures Consistent() && nodes == {} && l == Layout(hash, 150)
    {
      l := Layout(hash, 150);
      sortedHashes, hashToNode, nodes := [], map[], {};
    }

    method RebuildSortedHashes()
      modifies this`sortedHashes
      ensures Sorted(sortedHashes) && forall p: Position :: p in sortedHashes <==> p in hashToNode
    {
      var hashes: seq<Position> := [];
      var keys := hashToNode.Keys;
      while keys != {}
        invariant Sorted(hashes) && keys <= hashToNode.Keys
        invariant forall p: Position :: p in hashes <==> p in hashToNode && p !in keys
        decreases keys
      {
        var p :| p in keys;
        hashes := Insert(hashes, p);
        keys := keys - {p};
      }
      sortedHashes := hashes;
    }

    method AddNode(nodeID: string)
      requires Valid()
      modifies this
      ensures Valid() && nodes == old(nodes) + {nodeID}
      ensures hashToNode == if nodeID in old(nodes) then old(hashToNode) else Added(l, old(hashToNode), nodeID)
      ensures old(Consistent()) && l.NoCollisions(nodes) ==> Consistent()
    {
      hide Layout.Owns; hide Added; hide Canonical; hide Layout.NoCollisions;
      if nodeID in nodes {
        assert nodes == nodes + {nodeID};
        return;
      }
      nodes := nodes + {nodeID};
      for i := 0 to l.virtualNodes
        invariant nodes == old(nodes) + {nodeID}
        invariant hashToNode == AddedUpTo(l, old(hashToNode), nodeID, i)
      {
        hashToNode := hashToNode[l.VirtualPosition(nodeID, i) := nodeID];
      }
      AddedUpToAll(l, old(hashToNode), nodeID);
      RebuildSortedHashes();
      if old(Consistent()) && l.NoCollisions(nodes) { AddingKeepsCanonical(l, old(nodes), old(hashToNode), nodeID); }
    }

    method RemoveNode(nodeID: string)
      requires Valid()
      modifies this
      ensures Valid() && nodes == old(nodes) - {nodeID}
      ensures hashToNode == if nodeID in old(nodes) then Removed(l, old(hashToNode), nodeID) else old(hashToNode)
      ensures old(Consistent()) ==> Consistent()
    {
      hide Layout.Owns; hide Removed; hide Canonical;
      if nodeID !in nodes {
        assert nodes == nodes - {nodeID};
        return;
      }
      nodes := nodes - {nodeID};
      for i := 0 to l.virtualNodes
        invariant nodes == old(nodes) - {nodeID}
        invariant hashToNode == RemovedUpTo(l, old(hashToNode), nodeID, i)
      {
        hashToNode := hashToNode - {l.VirtualPosition(nodeID, i)};
      }
      RemovedUpToContents(l, old(hashToNode), nodeID, l.virtualNodes);
      assert Layout(l.hash, l.virtualNodes) == l;
      RebuildSortedHashes();
      if old(Consistent()) {
        assert old(nodes) + {nodeID} == old(nodes);
        RemovingKeepsCanonical(l, old(nodes), old(hashToNode), nodeID);
      }
    }

    /** The result of a walk from startIdx. */
    ghost function WalkFrom(startIdx: nat, n: int): seq<string>
      requires Valid() && startIdx <= |sortedHashes|
      reads this
    {
      Take(Owners(hashToNode, Rotated(sortedHashes, startIdx), {}), n)
    }

    /** Collects the first n distinct nodes from startIdx on, wrapping around. */
    method Walk(startIdx: nat, n: int) returns (result: seq<string>)
      requires Valid() && startIdx <= |sortedHashes|
      ensures result == WalkFrom(startIdx, n)
    {
      hide Owners; hide Rotated; hide Take;
      ghost var ps := Rotated(sortedHashes, startIdx);
      RotatedMembers(sortedHashes, startIdx);
      ghost var all := Owners(hashToNode, ps, {});
      result := [];
      var seen: set<string> := {};
      var i := 0;
      assert ps[0..] == ps;
      while i < |sortedHashes| && |result| < n
        invariant 0 <= i <= |ps| && (|result| <= n || |result| == 0)
        invariant all == result + Owners(hashToNode, ps[i..], seen)
      {
        var idx := (startIdx + i) % |sortedHashes|;
        RotatedAt(sortedHashes, startIdx, i);
        OwnersStep(hashToNode, ps, i, seen);
        var nodeID := hashToNode[sortedHashes[idx]];
        if nodeID !in seen {
          seen := seen + {nodeID};
          result := result + [nodeID];
        }
        i := i + 1;
      }
      TakeIsPrefix(all, result, n);
      if i == |ps| { OwnersOfNone(hashToNode, ps, seen); }
    }

    /** The position in the sorted ring from which the walk for the key starts. */
    ghost predicate StartsAt(key: Position, startIdx: nat)
      requires Valid()
      reads this
    {
      startIdx <= |sortedHashes| && Clockwise(key, Rotated(sortedHashes, startIdx))
    }

    ghost function NodesFor(key: string, n: int): seq<string>
      reads this
    {
      NodesOn(l, sortedHashes, hashToNode, key, n)
    }

    /** The clockwise order starts at one place only, up to the wrap-around. */
    lemma WalkUnique(key: string, start: nat, n: int)
      requires Valid() && StartsAt(l.hash(key), start)
      ensures NodesFor(key, n) == WalkFrom(start, n)
    {
      hide Owners; hide Take; hide Distance; hide Rotated; hide Clockwise;
      assert start <= |sortedHashes| && Clockwise(l.hash(key), Rotated(sortedHashes, start));
      forall a: nat | a <= |sortedHashes| && Clockwise(l.hash(key), Rotated(sortedHashes, a))
        ensures Rotated(sortedHashes, a) == Rotated(sortedHashes, start)
      {
        RotationUnique(l.hash(key), sortedHashes, a, start);
      }
    }

    /** On a consistent ring the nodes for a key are its preference list, cut to n nodes. */
    lemma NodesForIsPreference(key: string, n: int)
      requires Consistent()
      ensures NodesFor(key, n) == Take(Preference(l, l.hash(key), nodes), n)
    {
      hide Owners; hide Take; hide Rotated; hide Clockwise; hide Layout.Owns; hide Canonical; hide Layout.NoCollisions;
      var h := l.hash(key);
      var start := 0;
      while start < |sortedHashes| && sortedHashes[start] < h
        invariant start <= |sortedHashes| && forall i | 0 <= i < start :: sortedHashes[i] < h
      {
        start := start + 1;
      }
      RotatedIsClockwise(sortedHashes, h, start);
      WalkUnique(key, start, n);
      OwnersFromStart(h, Rotated(sortedHashes, start));
    }

    /** Walks clockwise from the key; on a consistent ring this is the key's preference list, cut to n nodes. */
    method GetNodesForKey(key: string, n: int) returns (result: seq<string>)
      requires Valid()
      ensures result == NodesFor(key, n)
      ensures exists start: nat :: StartsAt(l.hash(key), start) && result == WalkFrom(start, n)
      ensures Consistent() ==> result == Take(Preference(l, l.hash(key), nodes), n)
    {
      hide Clockwise; hide Layout.Owns; hide Canonical; hide Layout.NoCollisions;
      hide Owners; hide Rotated; hide Take; hide Preference;
      var startIdx := Search(sortedHashes, l.hash(key));
      RotatedIsClockwise(sortedHashes, l.hash(key), startIdx);
      if Consistent() { OwnersFromStart(l.hash(key), Rotated(sortedHashes, startIdx)); }
      assert StartsAt(l.hash(key), startIdx);
      WalkUnique(key, startIdx, n);
      if |sortedHashes| == 0 {
        EmptyWalk(n);
        return [];
      }
      result := Walk(startIdx, n);
    }

    lemma EmptyWalk(n: int)
      requires Valid() && sortedHashes == []
      ensures WalkFrom(0, n) == []
    {}

    lemma OwnersFromStart(key: Position, ps: seq<Position>)
      requires Consistent() && Clockwise(key, ps) && forall p: Position :: p in ps <==> p in sortedHashes
      ensures Owners(hashToNode, ps, {}) == Preference(l, key, nodes)
    {
      hide Layout.Owns;
      assert nodes - {} == nodes;
      OwnersArePreference(l, key, nodes, hashToNode, ps, {});
    }
  }
}
