/** Manifests travelling between nodes: puts, deliveries and anti-entropy adoption, step by step. */
module AntiEntropy {
  import opened VectorClocks
  import opened Manifests
  import opened WalRecords
  import opened Compaction
  import opened MetadataStore
  import opened Lexicographic
  import opened Wrappers

  // The adoption decision.

  /** Whether a peer's manifest replaces the local one. */
  ghost predicate ShouldAdopt(local: Manifest, remote: Manifest) {
    if remote.version.Some? && local.version.Some? then
      match Relation(remote.version.value, local.version.value)
      case After => true
      case Concurrent => |remote.versions| > |local.versions| || Less(local.versionID, remote.versionID)
      case _ => false
    else
      |remote.versions| > |local.versions| || (remote.versionID != "" && remote.versionID != local.versionID)
  }

  ghost function Adopted(st: State, remote: Manifest, node: string, newVersion: string): State {
    var key := ScopedKey(remote.namespace, remote.fileID);
    if key !in st.manifests || ShouldAdopt(st.manifests[key], remote) then Record(st, remote, node, newVersion) else st
  }

  // Clocks of one node.

  ghost predicate Bounded(c: Clock, b: nat) {
    forall node :: Get(c, node) <= b
  }

  ghost predicate VersionBounded(v: Option<Clock>, b: nat) {
    v.Some? ==> Bounded(v.value, b)
  }

  ghost predicate ClocksBounded(st: State, b: nat) {
    forall key | key in st.manifests :: st.manifests[key].version.Some? && Bounded(st.manifests[key].version.value, b)
  }

  /** For every key, the clock is there still and not behind what it was. */
  ghost predicate ClocksAdvance(a: State, b: State) {
    forall key | key in a.manifests ::
      && key in b.manifests && a.manifests[key].version.Some? && b.manifests[key].version.Some?
      && Leq(a.manifests[key].version.value, b.manifests[key].version.value)
  }

  function NodeName(node: string): string { if node == "" then "local" else node }

  lemma AdvancedClock(v: Option<Clock>, node: string, b: nat)
    requires VersionBounded(v, b) && b + 1 < COUNTERS
    ensures var c := Advanced(v, node);
            && Bounded(c, b + 1)
            && (v.Some? ==> Leq(v.value, c) && Get(c, NodeName(node)) == Get(v.value, NodeName(node)) + 1)
  {}

  lemma MergedBounded(a: Clock, b: Clock, n: nat)
    requires Bounded(a, n) && Bounded(b, n)
    ensures Bounded(Merged(a, b), n)
  {
    forall node ensures Get(Merged(a, b), node) <= n { MergedGet(a, b, node); }
  }

  lemma MergedGet(a: Clock, b: Clock, node: string)
    ensures Get(Merged(a, b), node) == if Get(a, node) < Get(b, node) then Get(b, node) else Get(a, node)
  {}

  /** The clock a recorded manifest gets: at least both the one it came with and the one it replaces. */
  lemma RecordedClock(st: State, m: Manifest, node: string, v: string, b: nat)
    requires ClocksBounded(st, b) && VersionBounded(m.version, b) && b + 1 < COUNTERS
    ensures var r := Recorded(st, m, node, v); var key := ScopedKey(r.namespace, r.fileID);
            && r.fileID == m.fileID && r.version.Some? && Bounded(r.version.value, b + 1)
            && (key in st.manifests ==> Leq(st.manifests[key].version.value, r.version.value))
            && (m.version.Some? ==>
                  Leq(m.version.value, r.version.value) && Relation(r.version.value, m.version.value) == After)
  {
    hide MergedHistory; hide Bounded; hide Merged; hide Leq;
    AdvancedClock(m.version, node, b);
    var c := Advanced(m.version, node);
    var key := ScopedKey(OrDefault(m.namespace, "default"), m.fileID);
    LeqReflexive(c);
    if key in st.manifests {
      var e := st.manifests[key].version.value;
      MergedIsLeastUpperBound(c, e, c);
      BoundedMore(e, b);
      MergedBounded(c, e, b + 1);
      if m.version.Some? {
        LeqTransitive(m.version.value, c, Merged(c, e));
        StrictlyAfter(m.version.value, c, Merged(c, e), NodeName(node));
      }
    } else if m.version.Some? {
      StrictlyAfter(m.version.value, c, c, NodeName(node));
    }
  }

  lemma LeqReflexive(c: Clock)
    ensures Leq(c, c)
  {}

  lemma BoundedMore(c: Clock, b: nat)
    requires Bounded(c, b)
    ensures Bounded(c, b + 1)
  {}

  lemma StrictlyAfter(a: Clock, b: Clock, c: Clock, node: string)
    requires Leq(a, b) && Leq(b, c) && Get(a, node) < Get(b, node)
    ensures Relation(c, a) == After
  {
    assert Get(b, node) <= Get(c, node);
  }

  lemma Unchanged(st: State, b: nat)
    requires ClocksBounded(st, b)
    ensures ClocksAdvance(st, st) && ClocksBounded(st, b + 1)
  {}

  /** Recording moves the clock of its key forward or leaves it, and touches no other key. */
  lemma RecordAdvances(st: State, m: Manifest, node: string, v: string, b: nat)
    requires ClocksBounded(st, b) && VersionBounded(m.version, b) && b + 1 < COUNTERS
    ensures ClocksAdvance(st, Record(st, m, node, v)) && ClocksBounded(Record(st, m, node, v), b + 1)
  {
    hide Bounded; hide Recorded; hide Leq; hide ScopedKey;
    RecordedClock(st, m, node, v, b);
    Unchanged(st, b);
  }

  /**
    * Overwriting with a manifest that carries no clock leaves the clock where it was once this node has counted,
    * and is strictly after it only the first time.
    */
  lemma OverwriteClock(st: State, m: Manifest, node: string, v: string, key: string, b: nat)
    requires m.fileID != "" && m.version == None && ClocksBounded(st, b)
    requires key == ScopedKey(OrDefault(m.namespace, "default"), m.fileID) && key in st.manifests
    ensures var old_ := st.manifests[key].version.value; var new_ := Recorded(st, m, node, v).version.value;
            Relation(new_, old_) == if Get(old_, NodeName(node)) >= 1 then Equal else After
  {
    hide MergedHistory; hide Bounded;
    var e := st.manifests[key].version.value;
    var c := Advanced(None, node);
    var n := NodeName(node);
    assert Get(c, n) == 1 && forall k | k != n :: Get(c, k) == 0;
    var r := Recorded(st, m, node, v).version.value;
    assert r == Merged(c, e);
    forall k ensures Get(r, k) == if k == n && Get(e, n) == 0 then 1 else Get(e, k) { MergedGet(c, e, k); }
    if Get(e, n) == 0 { assert Get(r, n) > Get(e, n); }
  }

  /** So a peer that holds the overwritten manifest does not adopt the overwriting one. */
  lemma OverwriteNotAdopted(st: State, m: Manifest, node: string, v: string, key: string, b: nat)
    requires m.fileID != "" && m.version == None && ClocksBounded(st, b)
    requires key == ScopedKey(OrDefault(m.namespace, "default"), m.fileID) && key in st.manifests
    ensures ShouldAdopt(st.manifests[key], Recorded(st, m, node, v)) <==>
            Get(st.manifests[key].version.value, NodeName(node)) == 0
  {
    hide Relation; hide Bounded; hide MergedHistory;
    OverwriteClock(st, m, node, v, key, b);
  }

  // Synchronisation with fetched manifests.

  ghost function SyncAll(st: State, fetched: seq<Manifest>, node: string, newVersion: string): State {
    if fetched == [] then st
    else Adopted(SyncAll(st, fetched[..|fetched| - 1], node, newVersion), fetched[|fetched| - 1], node, newVersion)
  }

  /** The key of m is there, and its clock is not before the clock of m. */
  ghost predicate NotBehind(st: State, m: Manifest) {
    var key := ScopedKey(m.namespace, m.fileID);
    && key in st.manifests
    && (m.version.Some? && st.manifests[key].version.Some? ==>
          Relation(st.manifests[key].version.value, m.version.value) != Before)
  }

  lemma NotBehindKept(a: State, b: State, m: Manifest)
    requires NotBehind(a, m) && ClocksAdvance(a, b)
    ensures NotBehind(b, m)
  {
    hide Leq; hide ScopedKey;
    var key := ScopedKey(m.namespace, m.fileID);
    if m.version.Some? {
      var x, y, z := m.version.value, a.manifests[key].version.value, b.manifests[key].version.value;
      if Leq(z, x) { LeqTransitive(y, z, x); }
      if Leq(x, y) { LeqTransitive(x, y, z); }
    }
  }

  lemma AdoptedAdvances(st: State, m: Manifest, node: string, v: string, b: nat)
    requires ClocksBounded(st, b) && VersionBounded(m.version, b) && b + 1 < COUNTERS && m.fileID != ""
    ensures var after := Adopted(st, m, node, v);
            ClocksAdvance(st, after) && ClocksBounded(after, b + 1) && NotBehind(after, m)
  {
    hide Bounded; hide Recorded; hide Leq; hide ShouldAdopt; hide ScopedKey;
    RecordAdvances(st, m, node, v, b);
    RecordedClock(st, m, node, v, b);
    Unchanged(st, b);
    KeyOfRecorded(st, m, node, v);
    var key := ScopedKey(m.namespace, m.fileID);
    if key in st.manifests && !ShouldAdopt(st.manifests[key], m) && m.version.Some? {
      NotAfterNotBefore(st.manifests[key], m);
    }
  }

  lemma KeyOfRecorded(st: State, m: Manifest, node: string, v: string)
    ensures var r := Recorded(st, m, node, v); ScopedKey(r.namespace, r.fileID) == ScopedKey(m.namespace, m.fileID)
  {}

  lemma NotAfterNotBefore(local: Manifest, remote: Manifest)
    requires local.version.Some? && remote.version.Some? && !ShouldAdopt(local, remote)
    ensures Relation(local.version.value, remote.version.value) != Before
  {}

  /**
    * After synchronising with any manifests, no local clock went back, and none is before that of any manifest
    * fetched, as long as the counters are far enough from wrapping.
    */
  lemma {:induction false} SyncConverges(st: State, fetched: seq<Manifest>, node: string, v: string, b: nat)
    requires ClocksBounded(st, b) && b + |fetched| < COUNTERS
    requires forall m | m in fetched :: VersionBounded(m.version, b) && m.fileID != ""
    ensures var after := SyncAll(st, fetched, node, v);
            && ClocksAdvance(st, after) && ClocksBounded(after, b + |fetched|)
            && forall m | m in fetched :: NotBehind(after, m)
  {
    hide Bounded; hide Leq; hide Adopted; hide NotBehind;
    if fetched == [] {
      forall key | key in st.manifests { LeqReflexive(st.manifests[key].version.value); }
    } else {
      var n := |fetched| - 1;
      var before := SyncAll(st, fetched[..n], node, v);
      SyncConverges(st, fetched[..n], node, v, b);
      WeakerBound(fetched[n].version, b, b + n);
      AdoptedAdvances(before, fetched[n], node, v, b + n);
      var after := Adopted(before, fetched[n], node, v);
      AdvanceTransitive(st, before, after);
      forall m | m in fetched ensures NotBehind(after, m) {
        if m in fetched[..n] { NotBehindKept(before, after, m); }
      }
    }
  }

  lemma WeakerBound(v: Option<Clock>, b: nat, c: nat)
    requires VersionBounded(v, b) && b <= c
    ensures VersionBounded(v, c)
  {}

  lemma AdvanceTransitive(a: State, b: State, c: State)
    requires ClocksAdvance(a, b) && ClocksAdvance(b, c)
    ensures ClocksAdvance(a, c)
  {
    hide Leq;
    forall key | key in a.manifests {
      LeqTransitive(a.manifests[key].version.value, b.manifests[key].version.value, c.manifests[key].version.value);
    }
  }

  // What becomes of one manifest fetched.

  /** None of these manifests belongs to the key. */
  ghost predicate NoneOf(ms: seq<Manifest>, key: string) {
    forall m | m in ms :: ScopedKey(m.namespace, m.fileID) != key
  }

  /** Under the key lies m, but for clock and history; a missing namespace or version name is filled in. */
  ghost predicate HasTaken(st: State, key: string, m: Manifest, v: string) {
    && key in st.manifests
    && var r := st.manifests[key];
       r == m.(namespace := if m.namespace == "" then "default" else m.namespace,
               versionID := if m.versionID == "" then v else m.versionID, version := r.version, versions := r.versions)
  }

  lemma {:induction false} SyncElsewhere(st: State, fetched: seq<Manifest>, node: string, v: string, key: string)
    requires NoneOf(fetched, key)
    ensures SameAt(st, SyncAll(st, fetched, node, v), key)
  {
    hide Adopted; hide ScopedKey;
    if fetched != [] {
      var n := |fetched| - 1;
      SyncElsewhere(st, fetched[..n], node, v, key);
      AdoptedElsewhere(SyncAll(st, fetched[..n], node, v), fetched[n], node, v, key);
    }
  }

  lemma {:induction false} SyncInTwo(st: State, a: seq<Manifest>, b: seq<Manifest>, node: string, v: string)
    ensures SyncAll(st, a + b, node, v) == SyncAll(SyncAll(st, a, node, v), b, node, v)
  {
    hide Adopted;
    if b == [] {
      assert a + b == a;
    } else {
      var n := |b| - 1;
      assert (a + b)[..|a + b| - 1] == a + b[..n];
      SyncInTwo(st, a, b[..n], node, v);
    }
  }

  lemma RecordedAlike(a: State, b: State, m: Manifest, node: string, v: string)
    requires SameAt(a, b, ScopedKey(m.namespace, m.fileID))
    ensures Recorded(a, m, node, v) == Recorded(b, m, node, v)
    ensures var r := Recorded(a, m, node, v);
            r == m.(namespace := if m.namespace == "" then "default" else m.namespace,
                    versionID := if m.versionID == "" then v else m.versionID, version := r.version,
                    versions := r.versions)
  {
    hide MergedHistory; hide Merged;
    assert ScopedKey(OrDefault(m.namespace, "default"), m.fileID) == ScopedKey(m.namespace, m.fileID);
  }

  /** Of the manifests fetched only m is of its key: the key is left, or has what recording m there gives. */
  lemma SyncOfOne(st: State, before: seq<Manifest>, m: Manifest, later: seq<Manifest>, node: string, v: string)
    requires m.fileID != ""
    requires var key := ScopedKey(m.namespace, m.fileID); NoneOf(before, key) && NoneOf(later, key)
    ensures var key := ScopedKey(m.namespace, m.fileID); var after := SyncAll(st, before + [m] + later, node, v);
            if key !in st.manifests || ShouldAdopt(st.manifests[key], m) then
              HasTaken(after, key, m, v) && after.manifests[key] == Recorded(st, m, node, v)
            else SameAt(st, after, key)
  {
    hide ScopedKey; hide ShouldAdopt; hide Recorded;
    var key := ScopedKey(m.namespace, m.fileID);
    var first := SyncAll(st, before, node, v);
    SyncElsewhere(st, before, node, v, key);
    SyncInTwo(st, before, [m], node, v);
    SyncInTwo(st, before + [m], later, node, v);
    assert [m][..0] == [];
    var second := Adopted(first, m, node, v);
    assert SyncAll(first, [m], node, v) == second;
    SyncElsewhere(second, later, node, v, key);
    RecordedAlike(st, first, m, node, v);
    KeyOfRecorded(first, m, node, v);
  }

  /** The first clock has counted all that the second has, and more. */
  ghost predicate Later(a: Clock, b: Clock) { Leq(b, a) && !Leq(a, b) }

  /**
    * A pass that fetches m, and nothing else of its key.  A missing key is taken over.  With both clocks: one that
    * has nothing new is left alone, a later one is taken over, and a concurrent one exactly when it brings the longer
    * history or the greater version name.  Else what has the longer history or another version name is taken over.
    */
  lemma SyncDecides(st: State, before: seq<Manifest>, m: Manifest, later: seq<Manifest>, node: string, v: string)
    requires m.fileID != ""
    requires var key := ScopedKey(m.namespace, m.fileID); NoneOf(before, key) && NoneOf(later, key)
    ensures var key := ScopedKey(m.namespace, m.fileID); var after := SyncAll(st, before + [m] + later, node, v);
            if key !in st.manifests then HasTaken(after, key, m, v)
            else
              var local := st.manifests[key];
              if m.version.Some? && local.version.Some? then
                if Leq(m.version.value, local.version.value) then SameAt(st, after, key)
                else if Leq(local.version.value, m.version.value) || |m.versions| > |local.versions|
                        || Less(local.versionID, m.versionID)
                then HasTaken(after, key, m, v) else SameAt(st, after, key)
              else if |m.versions| > |local.versions| || (m.versionID != "" && m.versionID != local.versionID)
              then HasTaken(after, key, m, v) else SameAt(st, after, key)
  {
    hide ScopedKey; hide HasTaken; hide Recorded; hide Leq; hide Less; hide SameAt; hide SyncAll; hide NoneOf;
    SyncOfOne(st, before, m, later, node, v);
  }

  /** What is taken over gets a clock that is later than the one received and than the one it replaces. */
  lemma TakenIsLater(st: State, before: seq<Manifest>, m: Manifest, later: seq<Manifest>, node: string, v: string,
                     b: nat)
    requires m.fileID != "" && ClocksBounded(st, b) && VersionBounded(m.version, b) && b + 1 < COUNTERS
    requires var key := ScopedKey(m.namespace, m.fileID);
             && NoneOf(before, key) && NoneOf(later, key) && key in st.manifests && m.version.Some?
             && var local := st.manifests[key];
                && !Leq(m.version.value, local.version.value)
                && (Leq(local.version.value, m.version.value) || |m.versions| > |local.versions|
                    || Less(local.versionID, m.versionID))
    ensures var key := ScopedKey(m.namespace, m.fileID); var after := SyncAll(st, before + [m] + later, node, v);
            && HasTaken(after, key, m, v) && after.manifests[key].version.Some?
            && Later(after.manifests[key].version.value, m.version.value)
            && Later(after.manifests[key].version.value, st.manifests[key].version.value)
  {
    hide ScopedKey; hide HasTaken; hide Recorded; hide Leq; hide Less; hide SyncAll; hide NoneOf; hide Bounded;
    SyncOfOne(st, before, m, later, node, v);
    RecordedClock(st, m, node, v, b);
    KeyOfRecorded(st, m, node, v);
    var c := Recorded(st, m, node, v).version.value;
    var local := st.manifests[ScopedKey(m.namespace, m.fileID)].version.value;
    if Leq(c, local) { LeqTransitive(m.version.value, c, local); }
  }

  /**
    * Two nodes with concurrent manifests of a key, equally long histories and different version names: when each
    * fetches what the other has, exactly one of them takes over the other's.
    */
  lemma OneTakesOver(a: State, b: State, na: string, nb: string, v: string, key: string,
                     p: seq<Manifest>, q: seq<Manifest>, r: seq<Manifest>, s: seq<Manifest>)
    requires Invariant(a) && Invariant(b) && key in a.manifests && key in b.manifests
    requires NoneOf(p, key) && NoneOf(q, key) && NoneOf(r, key) && NoneOf(s, key)
    requires var x, y := a.manifests[key], b.manifests[key];
             && x.version.Some? && y.version.Some? && Relation(x.version.value, y.version.value) == Concurrent
             && |x.versions| == |y.versions| && x.versionID != y.versionID
    ensures var x, y := a.manifests[key], b.manifests[key];
            var a' := SyncAll(a, p + [y] + q, na, v); var b' := SyncAll(b, r + [x] + s, nb, v);
            if Less(x.versionID, y.versionID) then HasTaken(a', key, y, v) && SameAt(b, b', key)
            else HasTaken(b', key, x, v) && SameAt(a, a', key)
  {
    hide ScopedKey; hide HasTaken; hide Leq; hide Less; hide SyncAll; hide NoneOf; hide SameAt;
    var x, y := a.manifests[key], b.manifests[key];
    assert WellKeyed(key, x, a.buckets) && WellKeyed(key, y, b.buckets);
    SyncDecides(a, p, y, q, na, v);
    SyncDecides(b, r, x, s, nb, v);
    Trichotomy(x.versionID, y.versionID);
  }

  // Two nodes that synchronise with each other.

  /** Synchronising with a has b's node take over a's manifest of this key. */
  ghost predicate Adopts(b: State, a: State, key: string) {
    key in a.manifests && (key !in b.manifests || ShouldAdopt(b.manifests[key], a.manifests[key]))
  }

  /** An adopted manifest with a clock is adopted back. */
  lemma AdoptedBack(st: State, m: Manifest, node: string, v: string, b: nat)
    requires ClocksBounded(st, b) && m.version.Some? && VersionBounded(m.version, b) && b + 1 < COUNTERS
    ensures ShouldAdopt(m, Recorded(st, m, node, v))
  {
    hide Recorded; hide Relation; hide Bounded; hide ScopedKey; hide Leq;
    RecordedClock(st, m, node, v, b);
  }

  /** The clock at a key is strictly after the clock of m. */
  ghost predicate Passed(st: State, key: string, m: Manifest) {
    && key in st.manifests && st.manifests[key].version.Some? && m.version.Some?
    && Relation(st.manifests[key].version.value, m.version.value) == After
  }

  ghost predicate SameAt(a: State, b: State, key: string) {
    && (key in a.manifests <==> key in b.manifests)
    && (key in a.manifests ==> a.manifests[key] == b.manifests[key])
  }

  lemma AdoptedPasses(st: State, m: Manifest, node: string, v: string, b: nat)
    requires ClocksBounded(st, b) && m.version.Some? && VersionBounded(m.version, b) && b + 1 < COUNTERS
    requires m.fileID != "" && var key := ScopedKey(m.namespace, m.fileID);
             key !in st.manifests || ShouldAdopt(st.manifests[key], m) || Passed(st, key, m)
    ensures Passed(Adopted(st, m, node, v), ScopedKey(m.namespace, m.fileID), m)
  {
    hide Recorded; hide Relation; hide Bounded; hide ScopedKey; hide Leq; hide ShouldAdopt;
    RecordedClock(st, m, node, v, b);
    KeyOfRecorded(st, m, node, v);
  }

  lemma AdoptedElsewhere(st: State, m: Manifest, node: string, v: string, key: string)
    requires ScopedKey(m.namespace, m.fileID) != key
    ensures SameAt(st, Adopted(st, m, node, v), key)
  {
    hide Recorded; hide ScopedKey; hide ShouldAdopt;
    KeyOfRecorded(st, m, node, v);
  }

  /** Of the manifests fetched, only m belongs to the key. */
  ghost predicate OnlyOne(fetched: seq<Manifest>, key: string, m: Manifest) {
    forall x | x in fetched :: ScopedKey(x.namespace, x.fileID) == key ==> x == m
  }

  lemma {:induction false} SyncPasses(st: State, fetched: seq<Manifest>, node: string, v: string, b: nat, key: string,
                                      m: Manifest)
    requires ClocksBounded(st, b) && b + |fetched| < COUNTERS && m.version.Some?
    requires forall x | x in fetched :: VersionBounded(x.version, b) && x.fileID != ""
    requires OnlyOne(fetched, key, m) && ScopedKey(m.namespace, m.fileID) == key
    requires key !in st.manifests || ShouldAdopt(st.manifests[key], m)
    ensures var after := SyncAll(st, fetched, node, v);
            if m in fetched then Passed(after, key, m) else SameAt(st, after, key)
  {
    hide Bounded; hide Adopted; hide ShouldAdopt; hide ScopedKey; hide ClocksAdvance; hide NotBehind; hide Relation;
    if fetched != [] {
      var n := |fetched| - 1;
      var x := fetched[n];
      assert fetched == fetched[..n] + [x];
      var before := SyncAll(st, fetched[..n], node, v);
      SyncPasses(st, fetched[..n], node, v, b, key, m);
      SyncConverges(st, fetched[..n], node, v, b);
      WeakerBound(x.version, b, b + n);
      if ScopedKey(x.namespace, x.fileID) == key {
        AdoptedPasses(before, x, node, v, b + n);
      } else {
        AdoptedElsewhere(before, x, node, v, key);
      }
    }
  }

  /** All that a node holds, in some order. */
  ghost predicate Lists(fetched: seq<Manifest>, st: State) {
    forall m :: m in fetched <==> m in st.manifests.Values
  }

  lemma {:induction false} SyncKeepsInvariant(st: State, fetched: seq<Manifest>, node: string, v: string)
    requires Invariant(st) && v != ""
    ensures Invariant(SyncAll(st, fetched, node, v))
  {
    hide Invariant; hide ShouldAdopt; hide Record; hide ScopedKey;
    if fetched != [] {
      var n := |fetched| - 1;
      SyncKeepsInvariant(st, fetched[..n], node, v);
      StepKeepsInvariant(SyncAll(st, fetched[..n], node, v), PutManifest(fetched[n], v), node);
    }
  }

  lemma ListedManifests(fetched: seq<Manifest>, st: State, b: nat, key: string)
    requires Lists(fetched, st) && Invariant(st) && ClocksBounded(st, b) && key in st.manifests
    ensures forall x | x in fetched :: VersionBounded(x.version, b) && x.fileID != ""
    ensures var m := st.manifests[key];
            && m in fetched && m.version.Some? && ScopedKey(m.namespace, m.fileID) == key && OnlyOne(fetched, key, m)
  {
    hide Bounded; hide ScopedKey;
    forall x | x in fetched
      ensures VersionBounded(x.version, b) && x.fileID != ""
      ensures ScopedKey(x.namespace, x.fileID) == key ==> x == st.manifests[key]
    {
      var k :| k in st.manifests && st.manifests[k] == x;
      assert WellKeyed(k, x, st.buckets);
    }
    assert WellKeyed(key, st.manifests[key], st.buckets);
    assert st.manifests[key] in st.manifests.Values;
  }

  /** When a node takes over the other's manifest of a key, the other then takes over the result. */
  lemma SyncIsReturned(a: State, b: State, fetched: seq<Manifest>, node: string, v: string, key: string, k: nat)
    requires Adopts(a, b, key) && Lists(fetched, b) && Invariant(a) && Invariant(b) && v != ""
    requires ClocksBounded(a, k) && ClocksBounded(b, k) && k + |fetched| < COUNTERS
    ensures var after := SyncAll(a, fetched, node, v);
            Adopts(b, after, key) && Invariant(after) && ClocksBounded(after, k + |fetched|)
  {
    hide Bounded; hide SyncAll; hide ScopedKey; hide Relation; hide Invariant; hide Lists; hide ClocksAdvance;
    hide NotBehind; hide Leq; hide OnlyOne;
    ListedManifests(fetched, b, k, key);
    SyncPasses(a, fetched, node, v, k, key, b.manifests[key]);
    SyncConverges(a, fetched, node, v, k);
    SyncKeepsInvariant(a, fetched, node, v);
  }

  /** The nodes synchronise with each other in turn, each fetching what the other holds then, in any order. */
  ghost predicate InTurn(a: State, b: State, na: string, nb: string, v: string, turns: seq<seq<Manifest>>)
    decreases |turns|
  {
    turns == [] || (Lists(turns[0], b) && InTurn(b, SyncAll(a, turns[0], na, v), nb, na, v, turns[1..]))
  }

  /** The states after these turns; first comes that of the node whose turn it is next. */
  ghost function AfterTurns(a: State, b: State, na: string, nb: string, v: string, turns: seq<seq<Manifest>>)
    : (State, State)
    decreases |turns|
  {
    if turns == [] then (a, b) else AfterTurns(b, SyncAll(a, turns[0], na, v), nb, na, v, turns[1..])
  }

  function Total(turns: seq<seq<Manifest>>): nat { if turns == [] then 0 else |turns[0]| + Total(turns[1..]) }

  /**
    * Two nodes never come to rest: once one has something to adopt from the other, at every later turn the node whose
    * turn it is has again, until the counters wrap.
    */
  lemma {:induction false} NeverAtRest(a: State, b: State, na: string, nb: string, v: string,
                                       turns: seq<seq<Manifest>>, key: string, k: nat)
    requires Adopts(a, b, key) && InTurn(a, b, na, nb, v, turns) && Invariant(a) && Invariant(b) && v != ""
    requires ClocksBounded(a, k) && ClocksBounded(b, k) && k + Total(turns) < COUNTERS
    ensures var (x, y) := AfterTurns(a, b, na, nb, v, turns); Adopts(x, y, key)
    decreases |turns|
  {
    hide Adopts; hide Invariant; hide Bounded; hide SyncAll; hide Lists;
    if turns != [] {
      SyncIsReturned(a, b, turns[0], na, v, key, k);
      MoreBounded(b, k, k + |turns[0]|);
      NeverAtRest(b, SyncAll(a, turns[0], na, v), nb, na, v, turns[1..], key, k + |turns[0]|);
    }
  }

  lemma MoreBounded(st: State, b: nat, c: nat)
    requires ClocksBounded(st, b) && b <= c
    ensures ClocksBounded(st, c)
  {}

  /**
    * Synchronising brings in exactly the keys of the manifests fetched; so a deleted key is back exactly when some
    * peer still has it.
    */
  lemma {:induction false} SyncedKeys(st: State, fetched: seq<Manifest>, node: string, v: string, key: string)
    ensures key in SyncAll(st, fetched, node, v).manifests <==>
            key in st.manifests || exists m | m in fetched :: m.fileID != "" && ScopedKey(m.namespace, m.fileID) == key
  {
    hide ShouldAdopt; hide Recorded; hide ScopedKey;
    if fetched != [] {
      var n := |fetched| - 1;
      var m := fetched[n];
      assert fetched == fetched[..n] + [m];
      SyncedKeys(st, fetched[..n], node, v, key);
      KeyOfRecorded(SyncAll(st, fetched[..n], node, v), m, node, v);
    }
  }

  lemma {:induction false} DeletedComesBackIff(st: State, fetched: seq<Manifest>, node: string, v: string, key: string)
    ensures key in SyncAll(Remove(st, key), fetched, node, v).manifests <==>
            exists m | m in fetched :: m.fileID != "" && ScopedKey(m.namespace, m.fileID) == key
  {
    hide SyncAll; hide ScopedKey;
    SyncedKeys(Remove(st, key), fetched, node, v, key);
  }

  // The reconciler.

  class Reconciler {
    const store: Store
    const localAddr: string

    constructor (s: Store, addr: string)
      ensures store == s && localAddr == addr
    {
      store, localAddr := s, addr;
    }

    method CompareVersions(a: Clock, b: Clock) returns (rel: ClockRelation)
      ensures rel == Relation(a, b)
    {
      var x := new VectorClock();
      var y := new VectorClock();
      x.values, y.values := a, b;
      rel := x.Compare(y);
    }

    method Decide(localM: Manifest, remoteM: Manifest) returns (shouldUpdate: bool)
      ensures shouldUpdate == ShouldAdopt(localM, remoteM)
      ensures remoteM.version.Some? && localM.version.Some? ==>
        (shouldUpdate <==>
           && !Leq(remoteM.version.value, localM.version.value)
           && (Leq(localM.version.value, remoteM.version.value) || |remoteM.versions| > |localM.versions|
               || Less(localM.versionID, remoteM.versionID)))
      ensures remoteM.version.None? || localM.version.None? ==>
        (shouldUpdate <==> |remoteM.versions| > |localM.versions|
                           || remoteM.versionID !in {"", localM.versionID})
    {
      hide Leq;
      if remoteM.version.Some? && localM.version.Some? {
        var rel := CompareVersions(remoteM.version.value, localM.version.value);
        shouldUpdate := false;
        if rel == After {
          shouldUpdate := true;
        } else if rel == Concurrent {
          shouldUpdate := |remoteM.versions| > |localM.versions| || Less(localM.versionID, remoteM.versionID);
        }
      } else {
        shouldUpdate := |remoteM.versions| > |localM.versions|
          || (remoteM.versionID != "" && remoteM.versionID != localM.versionID);
      }
    }

    /** The manifests fetched, in order, from the peers that answered and are not this node. */
    static ghost function Fetched(localAddr: string, peers: seq<(string, Option<seq<Manifest>>)>): seq<Manifest> {
      if peers == [] then []
      else
        var (peer, answer) := peers[|peers| - 1];
        Fetched(localAddr, peers[..|peers| - 1])
          + (if peer == localAddr || peer == "" || answer.None? then [] else answer.value)
    }

    /** A manifest is fetched exactly when a peer answers with it that is not this node. */
    static lemma {:induction false} FetchedIff(localAddr: string, peers: seq<(string, Option<seq<Manifest>>)>,
                                               m: Manifest)
      ensures m in Fetched(localAddr, peers) <==>
              exists i | 0 <= i < |peers| ::
                peers[i].0 != localAddr && peers[i].0 != "" && peers[i].1.Some? && m in peers[i].1.value
    {
      if peers != [] { FetchedIff(localAddr, peers[..|peers| - 1], m); }
    }

    /** What one peer answers stays together, in its order, behind what the peers before it answered. */
    static lemma {:induction false} FetchedInOrder(localAddr: string, peers: seq<(string, Option<seq<Manifest>>)>,
                                                   i: nat)
      requires i < |peers| && peers[i].0 != localAddr && peers[i].0 != "" && peers[i].1.Some?
      ensures Fetched(localAddr, peers[..i]) + peers[i].1.value <= Fetched(localAddr, peers)
    {
      if i < |peers| - 1 {
        assert peers[..|peers| - 1][..i] == peers[..i];
        FetchedInOrder(localAddr, peers[..|peers| - 1], i);
      }
    }

    /** One pass over the peers: adopts what is missing, what is after, and some of what is concurrent. */
    method SyncOnce(peers: seq<(string, Option<seq<Manifest>>)>, newVersion: string)
      modifies store
      ensures store.Contents() == SyncAll(old(store.Contents()), Fetched(localAddr, peers), store.nodeID, newVersion)
      ensures store.nodeID == old(store.nodeID)
    {
      hide Adopted; hide Store.Contents;
      ghost var st := store.Contents();
      ghost var done: seq<Manifest> := [];
      for i := 0 to |peers|
        invariant done == Fetched(localAddr, peers[..i]) && store.nodeID == old(store.nodeID)
        invariant store.Contents() == SyncAll(st, done, store.nodeID, newVersion)
      {
        var (peer, answer) := peers[i];
        assert peers[..i + 1][..i] == peers[..i];
        if peer == localAddr || peer == "" || answer.None? { assert done + [] == done; continue; }
        var manifests := answer.value;
        ghost var before := done;
        for j := 0 to |manifests|
          invariant done == before + manifests[..j] && store.nodeID == old(store.nodeID)
          invariant store.Contents() == SyncAll(st, done, store.nodeID, newVersion)
        {
          AdoptOne(manifests[j], newVersion);
          assert (done + [manifests[j]])[..|done|] == done;
          done := done + [manifests[j]];
        }
        assert manifests[..|manifests|] == manifests;
      }
      assert peers[..|peers|] == peers;
    }

    method AdoptOne(remoteM: Manifest, newVersion: string)
      modifies store
      ensures store.Contents() == Adopted(old(store.Contents()), remoteM, store.nodeID, newVersion)
      ensures store.nodeID == old(store.nodeID)
    {
      hide Record; hide ShouldAdopt; hide Recorded;
      var localM := store.LookupScoped(remoteM.namespace, remoteM.fileID);
      if localM.None? {
        var _ := store.RecordPlacement(remoteM, newVersion);
      } else {
        var shouldUpdate := Decide(localM.value, remoteM);
        if shouldUpdate { var _ := store.RecordPlacement(remoteM, newVersion); }
      }
    }
  }
}
