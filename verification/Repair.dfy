/** Re-replication after a node died: survivors, targets, coordinator election, copies, and location updates. */
module Repair {
  import opened Lexicographic
  import opened Manifests
  import opened Selections
  import opened Sets

  // Address lists.

  function Alive(locs: seq<string>, dead: string): seq<string> {
    if locs == [] then []
    else
      var n := |locs| - 1;
      Alive(locs[..n], dead) + if locs[n] == dead then [] else [locs[n]]
  }

  /** Targets that the survivors do not include, in ring order. */
  function Missing(targets: seq<string>, alive: seq<string>): seq<string> {
    if targets == [] then []
    else
      var n := |targets| - 1;
      Missing(targets[..n], alive) + if targets[n] in alive then [] else [targets[n]]
  }

  function Copied(targets: seq<string>, ok: string -> bool): seq<string> {
    if targets == [] then []
    else
      var n := |targets| - 1;
      Copied(targets[..n], ok) + if ok(targets[n]) then [targets[n]] else []
  }

  function Inserted(s: seq<string>, x: string): seq<string> {
    if s == [] then [x] else if Less(x, s[0]) then [x] + s else [s[0]] + Inserted(s[1..], x)
  }

  function SortedStrings(s: seq<string>): seq<string> {
    if s == [] then [] else Inserted(SortedStrings(s[..|s| - 1]), s[|s| - 1])
  }

  lemma {:induction false} AliveMembers(locs: seq<string>, dead: string)
    ensures forall x :: x in Alive(locs, dead) <==> x in locs && x != dead
    ensures |Alive(locs, dead)| <= |locs|
    ensures dead !in locs ==> Alive(locs, dead) == locs
  {
    if locs != [] {
      var n := |locs| - 1;
      AliveMembers(locs[..n], dead);
      assert locs == locs[..n] + [locs[n]];
    }
  }

  lemma {:induction false} MissingMembers(targets: seq<string>, alive: seq<string>)
    ensures forall x :: x in Missing(targets, alive) <==> x in targets && x !in alive
  {
    if targets != [] {
      var n := |targets| - 1;
      MissingMembers(targets[..n], alive);
      assert targets == targets[..n] + [targets[n]];
    }
  }

  lemma {:induction false} CopiedMembers(targets: seq<string>, ok: string -> bool)
    ensures forall x :: x in Copied(targets, ok) <==> x in targets && ok(x)
  {
    if targets != [] {
      var n := |targets| - 1;
      CopiedMembers(targets[..n], ok);
      assert targets == targets[..n] + [targets[n]];
    }
  }

  /** No later address is less than an earlier one. */
  ghost predicate Ascending(s: seq<string>) {
    forall i, j | 0 <= i < j < |s| :: !Less(s[j], s[i])
  }

  lemma {:induction false} InsertedMembers(s: seq<string>, x: string)
    ensures forall y :: y in Inserted(s, x) <==> y in s || y == x
    ensures |Inserted(s, x)| == |s| + 1
    ensures Ascending(s) ==> Ascending(Inserted(s, x))
  {
    hide Less;
    if s != [] && !Less(x, s[0]) {
      InsertedMembers(s[1..], x);
      var r := Inserted(s[1..], x);
      if Ascending(s) {
        forall j | 0 < j < |r| + 1 ensures !Less(([s[0]] + r)[j], s[0]) {
          assert r[j - 1] in r;
          if r[j - 1] in s[1..] { var k :| 0 <= k < |s[1..]| && s[1..][k] == r[j - 1]; assert s[k + 1] == r[j - 1]; }
        }
      }
    } else if s != [] && Ascending(s) {
      forall j | 0 <= j < |s| ensures !Less(s[j], x) {
        if Less(s[j], x) {
          Transitive(s[j], x, s[0]);
          Trichotomy(s[j], s[0]);
        }
      }
    }
  }

  lemma {:induction false} SortedMembers(s: seq<string>)
    ensures (forall y :: y in SortedStrings(s) <==> y in s) && |SortedStrings(s)| == |s|
    ensures Ascending(SortedStrings(s))
  {
    hide Less; hide Ascending;
    if s == [] {
      NothingAscends();
    } else {
      var n := |s| - 1;
      SortedMembers(s[..n]);
      InsertedMembers(SortedStrings(s[..n]), s[n]);
      assert s == s[..n] + [s[n]];
    }
  }

  lemma NothingAscends()
    ensures Ascending([])
  {}

  // The decision for one chunk.

  /** Whether this node copies: it has no address of its own, or the least address among the survivors. */
  function Elected(local: string, alive: seq<string>): bool
    requires alive != []
  {
    SortedMembers(alive);
    local == "" || SortedStrings(alive)[0] == local
  }

  /** Among nodes that see the same survivors exactly one, the least, copies. */
  lemma OneCoordinator(local: string, alive: seq<string>)
    requires alive != [] && local != ""
    ensures Elected(local, alive) <==> local in alive && forall x | x in alive && x != local :: Less(local, x)
  {
    hide Less;
    SortedMembers(alive);
    var s := SortedStrings(alive);
    forall x | x in s ensures x == s[0] || Less(s[0], x) {
      var i :| 0 <= i < |s| && s[i] == x;
      Trichotomy(s[0], x);
    }
    assert s[0] in s;
    if local in alive && (forall x | x in alive && x != local :: Less(local, x)) && s[0] != local {
      Trichotomy(local, s[0]);
    }
  }

  function Needs(locs: seq<string>, dead: string, targets: seq<string>, N: nat, local: string): bool {
    var alive := Alive(locs, dead);
    && (dead in locs || |alive| < N)
    && alive != [] && Missing(targets, alive) != [] && Elected(local, alive)
  }

  /** The least survivor: the locations besides the dead node have it, and no other one is less. */
  ghost predicate Least(local: string, locs: seq<string>, dead: string) {
    local in locs && local != dead && forall x | x in locs && x != dead && x != local :: Less(local, x)
  }

  /**
    * Nothing is done for a list that does not have the dead node and has N locations, that has nobody but the dead
    * node, or that has every target; nor by a node with an address that is not the least survivor.
    */
  ghost predicate Skips(locs: seq<string>, dead: string, targets: seq<string>, N: nat, local: string) {
    || (dead !in locs && |locs| >= N)
    || (forall x | x in locs :: x == dead)
    || (forall t | t in targets :: t in locs && t != dead)
    || (local != "" && !Least(local, locs, dead))
  }

  lemma NeedsIff(locs: seq<string>, dead: string, targets: seq<string>, N: nat, local: string)
    ensures Needs(locs, dead, targets, N, local) <==> !Skips(locs, dead, targets, N, local)
  {
    hide Less; hide Elected;
    var alive := Alive(locs, dead);
    AliveMembers(locs, dead);
    MissingMembers(targets, alive);
    if alive != [] {
      assert alive[0] in alive;
      if local == "" { NoAddress(alive); } else { OneCoordinator(local, alive); }
      if Missing(targets, alive) != [] { assert Missing(targets, alive)[0] in Missing(targets, alive); }
    } else {
      assert forall x | x in locs :: x !in alive;
    }
  }

  lemma NoAddress(alive: seq<string>)
    requires alive != []
    ensures Elected("", alive)
  {}

  // What is listed.

  ghost function Survivor(locs: seq<string>, dead: string): int -> bool {
    i => 0 <= i < |locs| && locs[i] != dead
  }

  /** The targets that are no survivors and acknowledge their copies. */
  ghost function NewCopy(locs: seq<string>, dead: string, targets: seq<string>, ok: string -> bool): int -> bool {
    i => 0 <= i < |targets| && (targets[i] !in locs || targets[i] == dead) && ok(targets[i])
  }

  lemma {:induction false} AliveSelects(locs: seq<string>, dead: string, pick: int -> bool)
    requires forall i | 0 <= i < |locs| :: pick(i) <==> locs[i] != dead
    ensures Selects(Alive(locs, dead), locs, pick)
  {
    hide Selects;
    if locs == [] {
      SelectsNothing<string>(pick);
    } else {
      var n := |locs| - 1;
      AliveSelects(locs[..n], dead, pick);
      SelectsOneMore(Alive(locs[..n], dead), locs[..n], locs[n], pick);
      assert locs == locs[..n] + [locs[n]];
    }
  }

  lemma {:induction false} CopiesSelect(targets: seq<string>, alive: seq<string>, ok: string -> bool,
                                        pick: int -> bool)
    requires forall i | 0 <= i < |targets| :: pick(i) <==> targets[i] !in alive && ok(targets[i])
    ensures Selects(Copied(Missing(targets, alive), ok), targets, pick)
  {
    hide Selects;
    if targets == [] {
      SelectsNothing<string>(pick);
    } else {
      var n := |targets| - 1;
      var missing := Missing(targets[..n], alive);
      CopiesSelect(targets[..n], alive, ok, pick);
      SelectsOneMore(Copied(missing, ok), targets[..n], targets[n], pick);
      assert targets == targets[..n] + [targets[n]];
      if targets[n] in alive {
        assert Missing(targets, alive) == missing && Copied(missing, ok) + [] == Copied(missing, ok);
      } else {
        assert Missing(targets, alive)[..|missing|] == missing;
      }
    }
  }

  lemma {:induction false} SortedSame(s: seq<string>)
    ensures multiset(SortedStrings(s)) == multiset(s)
  {
    if s != [] {
      var n := |s| - 1;
      SortedSame(s[..n]);
      InsertedSame(SortedStrings(s[..n]), s[n]);
      assert s == s[..n] + [s[n]];
    }
  }

  lemma {:induction false} InsertedSame(s: seq<string>, x: string)
    ensures multiset(Inserted(s, x)) == multiset(s) + multiset{x}
  {
    hide Less;
    if s != [] {
      InsertedSame(s[1..], x);
      assert s == [s[0]] + s[1..];
    }
  }

  /**
    * The new list is the survivors in ascending order, each as often as it was listed, and then the missing targets
    * that acknowledged, in the order of the ring.
    */
  ghost predicate IsNewList(list: seq<string>, locs: seq<string>, dead: string, targets: seq<string>,
                            ok: string -> bool)
  {
    exists alive, sorted, copies ::
      && list == sorted + copies && Ascending(sorted) && multiset(sorted) == multiset(alive)
      && Selects(alive, locs, Survivor(locs, dead)) && Selects(copies, targets, NewCopy(locs, dead, targets, ok))
  }

  lemma NewLocationsAre(locs: seq<string>, dead: string, targets: seq<string>, ok: string -> bool)
    ensures IsNewList(NewLocations(locs, dead, targets, ok), locs, dead, targets, ok)
    ensures |Copied(Missing(targets, Alive(locs, dead)), ok)| == Count(NewCopy(locs, dead, targets, ok), |targets|)
  {
    hide Selects; hide Ascending; hide Count;
    var alive := Alive(locs, dead);
    var copies := Copied(Missing(targets, alive), ok);
    AliveSelects(locs, dead, Survivor(locs, dead));
    AliveMembers(locs, dead);
    CopiesSelect(targets, alive, ok, NewCopy(locs, dead, targets, ok));
    SelectsCount(copies, targets, NewCopy(locs, dead, targets, ok));
    SortedMembers(alive);
    SortedSame(alive);
    assert NewLocations(locs, dead, targets, ok) == SortedStrings(alive) + copies;
  }

  function NewLocations(locs: seq<string>, dead: string, targets: seq<string>, ok: string -> bool): seq<string> {
    var alive := Alive(locs, dead);
    SortedStrings(alive) + Copied(Missing(targets, alive), ok)
  }

  ghost function AsSet(s: seq<string>): set<string> { set x | x in s }

  ghost predicate Distinct(s: seq<string>) {
    forall i, j | 0 <= i < j < |s| :: s[i] != s[j]
  }

  lemma {:induction false} DistinctSize(s: seq<string>)
    requires Distinct(s)
    ensures |AsSet(s)| == |s|
  {
    if s != [] {
      var n := |s| - 1;
      DistinctSize(s[..n]);
      assert AsSet(s) == AsSet(s[..n]) + {s[n]};
    }
  }

  /** The locations of a chunk after the pass. */
  function FinalLocations(locs: seq<string>, dead: string, targets: seq<string>, N: nat, local: string,
                          ok: string -> bool): seq<string> {
    if Needs(locs, dead, targets, N, local) then NewLocations(locs, dead, targets, ok) else locs
  }

  /**
    * For a chunk with a survivor for which this node is elected, when the copies succeed: every survivor stays, and
    * there are as many locations besides the dead node as the ring has targets, or N.
    */
  lemma RepairRestores(locs: seq<string>, dead: string, targets: seq<string>, N: nat, local: string, ok: string -> bool)
    requires Distinct(locs) && Distinct(targets) && |targets| <= N && dead !in targets
    requires var alive := Alive(locs, dead); alive != [] && Elected(local, alive)
    requires forall t | t in targets :: ok(t)
    ensures var after := AsSet(FinalLocations(locs, dead, targets, N, local, ok)) - {dead};
            AsSet(Alive(locs, dead)) <= after && |after| >= |targets|
    ensures forall x | x in FinalLocations(locs, dead, targets, N, local, ok) :: x in locs || x in targets
  {
    hide Elected; hide SortedStrings; hide Less; hide Alive; hide Missing; hide Copied;
    var alive := Alive(locs, dead);
    var missing := Missing(targets, alive);
    AliveMembers(locs, dead);
    MissingMembers(targets, alive);
    SortedMembers(alive);
    CopiedMembers(missing, ok);
    var final := FinalLocations(locs, dead, targets, N, local, ok);
    var after := AsSet(final) - {dead};
    DistinctSize(targets);
    if Needs(locs, dead, targets, N, local) || missing == [] {
      forall t | t in targets ensures t in after { if missing == [] { assert t !in missing; } }
      LargerSet(AsSet(targets), after);
    } else {
      assert dead !in locs && |alive| >= N;
      DistinctSize(locs);
      assert after == AsSet(locs);
    }
  }

  // Applying a plan to the manifests.

  function MovedHere(m: Manifest, plan: map<string, seq<string>>): Manifest {
    m.(chunkLocations := map c | c in m.chunkLocations :: if c in plan then plan[c] else m.chunkLocations[c])
  }

  function Moved(m: Manifest, plan: map<string, seq<string>>): Manifest {
    MovedHere(m, plan).(versions :=
      seq(|m.versions|, i requires 0 <= i < |m.versions| => MovedHere(m.versions[i], plan)))
  }

  function MovedState(st: State, plan: map<string, seq<string>>): State {
    st.(manifests := map key | key in st.manifests :: Moved(st.manifests[key], plan))
  }

  lemma MovedNowhere(m: Manifest)
    ensures Moved(m, map[]) == m
  {
    assert forall x: Manifest :: MovedHere(x, map[]).chunkLocations == x.chunkLocations;
    assert Moved(m, map[]).versions == m.versions;
  }

  lemma MovedOneMore(m: Manifest, plan: map<string, seq<string>>, c: string, locs: seq<string>)
    ensures Relocated(Moved(m, plan), c, locs) == Moved(m, plan[c := locs])
  {
    MovedHereOneMore(m, plan, c, locs);
    forall i | 0 <= i < |m.versions| { MovedHereOneMore(m.versions[i], plan, c, locs); }
    assert Relocated(Moved(m, plan), c, locs).versions == Moved(m, plan[c := locs]).versions;
  }

  lemma MovedHereOneMore(m: Manifest, plan: map<string, seq<string>>, c: string, locs: seq<string>)
    ensures RelocatedHere(MovedHere(m, plan), c, locs) == MovedHere(m, plan[c := locs])
  {
    assert RelocatedHere(MovedHere(m, plan), c, locs).chunkLocations == MovedHere(m, plan[c := locs]).chunkLocations;
  }

  lemma MovedStateOneMore(st: State, plan: map<string, seq<string>>, c: string, locs: seq<string>)
    ensures UpdateLocations(MovedState(st, plan), c, locs) == MovedState(st, plan[c := locs])
  {
    hide Moved; hide Relocated;
    forall key | key in st.manifests { MovedOneMore(st.manifests[key], plan, c, locs); }
    assert UpdateLocations(MovedState(st, plan), c, locs).manifests == MovedState(st, plan[c := locs]).manifests;
  }

  lemma MovedStateNowhere(st: State)
    ensures MovedState(st, map[]) == st
  {
    hide Moved;
    forall key | key in st.manifests { MovedNowhere(st.manifests[key]); }
    assert MovedState(st, map[]).manifests == st.manifests;
  }
}
