/** Runs of a cluster: any interleaving of puts, deliveries, adoptions and location updates on any nodes. */
module Cluster {
  import opened VectorClocks
  import opened Manifests
  import opened WalRecords
  import opened AntiEntropy
  import opened Wrappers

  /** What a put recorded under a version name. */
  datatype Put = Put(key: string, chunkIDs: seq<string>)

  /** The stores by node, every manifest ever sent, and the puts so far. */
  datatype Cluster = Cluster(stores: map<string, State>, sent: set<Manifest>, puts: map<string, Put>)

  datatype Event =
    | PutFile(node: string, m: Manifest, newVersion: string)
    | Publish(node: string)
    | Deliver(node: string, m: Manifest, newVersion: string)
    | Adopt(node: string, m: Manifest, newVersion: string)
    | Relocate(node: string, chunkID: string, locations: seq<string>)

  /**
    * A put brings a manifest without clock, version name or history and gets a fresh version name; anything
    * ever published can arrive anywhere, any number of times and in any order.
    */
  ghost predicate Enabled(c: Cluster, e: Event) {
    && e.node in c.stores
    && match e
       case PutFile(_, m, v) =>
         m.fileID != "" && m.version == None && m.versionID == "" && m.versions == [] && v != "" && v !in c.puts
       case Deliver(_, m, _) => m in c.sent
       case Adopt(_, m, _) => m in c.sent
       case _ => true
  }

  ghost function Next(c: Cluster, e: Event): Cluster
    requires e.node in c.stores
  {
    var st := c.stores[e.node];
    match e
    case PutFile(node, m, v) =>
      c.(stores := c.stores[node := Record(st, m, node, v)],
         puts := c.puts[v := Put(ScopedKey(m.namespace, m.fileID), m.chunkIDs)])
    case Publish(node) => c.(sent := c.sent + st.manifests.Values)
    case Deliver(node, m, v) => c.(stores := c.stores[node := Record(st, m, node, v)])
    case Adopt(node, m, v) => c.(stores := c.stores[node := Adopted(st, m, node, v)])
    case Relocate(node, chunkID, locations) => c.(stores := c.stores[node := UpdateLocations(st, chunkID, locations)])
  }

  ghost predicate Init(c: Cluster) {
    && (forall node | node in c.stores :: c.stores[node].manifests == map[])
    && c.sent == {} && c.puts == map[]
  }

  // The invariant: every version anywhere is the version some put recorded under that key.

  ghost predicate IsPut(puts: map<string, Put>, key: string, m: Manifest) {
    m.versionID in puts && puts[m.versionID] == Put(key, m.chunkIDs)
  }

  ghost predicate Known(puts: map<string, Put>, key: string, m: Manifest) {
    && m.fileID != "" && m.namespace != "" && m.versionID != "" && key == ScopedKey(m.namespace, m.fileID)
    && IsPut(puts, key, m) && forall v | v in m.versions :: IsPut(puts, key, v)
  }

  ghost predicate KnownSent(puts: map<string, Put>, m: Manifest) {
    Known(puts, ScopedKey(m.namespace, m.fileID), m)
  }

  ghost predicate KnownStore(puts: map<string, Put>, st: State) {
    forall key | key in st.manifests :: Known(puts, key, st.manifests[key])
  }

  ghost predicate Consistent(c: Cluster) {
    && "" !in c.puts
    && (forall node | node in c.stores :: KnownStore(c.puts, c.stores[node]))
    && forall m | m in c.sent :: KnownSent(c.puts, m)
  }

  ghost function IDs(m: Manifest): set<string> {
    VersionIDs(AllVersions(m))
  }

  /** Every key keeps all the versions it had. */
  ghost predicate KeepsVersions(a: State, b: State) {
    forall key | key in a.manifests :: key in b.manifests && IDs(a.manifests[key]) <= IDs(b.manifests[key])
  }

  lemma IDsAre(m: Manifest)
    ensures IDs(m) == VersionIDs(m.versions) + {m.versionID}
  {
    IDsOfConcat(m.versions, [m]);
  }

  lemma HistoryKeeps(existing: Manifest, m: Manifest)
    ensures VersionIDs(MergedHistory(existing, m)) + {m.versionID} ==
              IDs(existing) + VersionIDs(m.versions) + {m.versionID}
    ensures forall v | v in MergedHistory(existing, m) ::
      v in existing.versions || v == existing.(versions := []) || v in m.versions
  {
    hide VersionIDs;
    var bare := existing.(versions := []);
    AppendUnseenIDs(existing.versions, [bare], m.versionID);
    AppendUnseenExtends(existing.versions, [bare], m.versionID);
    IDsOfConcat([], [bare]);
    var base := AppendUnseen(existing.versions, [bare], m.versionID);
    AppendUnseenIDs(base, m.versions, m.versionID);
    AppendUnseenExtends(base, m.versions, m.versionID);
    IDsAre(existing);
    assert [] + [bare] == [bare];
  }

  /** Recording a manifest of a known version keeps the store known and loses no version. */
  lemma RecordKeeps(puts: map<string, Put>, st: State, m: Manifest, node: string, v: string)
    requires KnownStore(puts, st) && v != "" && m.fileID != ""
    requires var named := m.(namespace := OrDefault(m.namespace, "default"), versionID := OrDefault(m.versionID, v));
             KnownSent(puts, named)
    ensures KnownStore(puts, Record(st, m, node, v)) && KeepsVersions(st, Record(st, m, node, v))
  {
    hide Recorded; hide IDs; hide MergedHistory; hide ScopedKey;
    var r := Recorded(st, m, node, v);
    RecordedFields(st, m, node, v);
    var key := ScopedKey(r.namespace, r.fileID);
    IDsAre(r);
    if key in st.manifests {
      var e := st.manifests[key];
      HistoryKeeps(e, m.(versionID := r.versionID));
      assert Known(puts, key, e);
      assert Known(puts, key, r);
      assert IDs(e) <= IDs(r);
    }
  }

  lemma RelocateKeeps(puts: map<string, Put>, st: State, chunkID: string, locations: seq<string>)
    requires KnownStore(puts, st)
    ensures KnownStore(puts, UpdateLocations(st, chunkID, locations))
    ensures KeepsVersions(st, UpdateLocations(st, chunkID, locations))
  {
    hide IDs; hide ScopedKey; hide Known; hide Relocated;
    forall key | key in st.manifests
      ensures Known(puts, key, Relocated(st.manifests[key], chunkID, locations))
      ensures IDs(st.manifests[key]) <= IDs(Relocated(st.manifests[key], chunkID, locations))
    {
      RelocatedVersions(puts, key, st.manifests[key], chunkID, locations);
    }
  }

  lemma RelocatedVersions(puts: map<string, Put>, key: string, m: Manifest, chunkID: string, locations: seq<string>)
    requires Known(puts, key, m)
    ensures Known(puts, key, Relocated(m, chunkID, locations)) && IDs(Relocated(m, chunkID, locations)) == IDs(m)
  {
    hide IDs; hide ScopedKey;
    var r := Relocated(m, chunkID, locations);
    assert |r.versions| == |m.versions|;
    forall i | 0 <= i < |m.versions|
      ensures r.versions[i].versionID == m.versions[i].versionID && r.versions[i].chunkIDs == m.versions[i].chunkIDs {}
    IDsAre(m);
    IDsAre(r);
    SameIDs(m.versions, r.versions);
    forall v | v in r.versions ensures IsPut(puts, key, v) {
      var i :| 0 <= i < |r.versions| && r.versions[i] == v;
      assert m.versions[i] in m.versions;
    }
  }

  lemma SameIDs(a: seq<Manifest>, b: seq<Manifest>)
    requires |a| == |b| && forall i | 0 <= i < |a| :: a[i].versionID == b[i].versionID
    ensures VersionIDs(a) == VersionIDs(b)
  {
    forall id ensures id in VersionIDs(a) <==> id in VersionIDs(b) {
      if id in VersionIDs(a) { var i :| 0 <= i < |a| && a[i].versionID == id; assert b[i] in b; }
      if id in VersionIDs(b) { var i :| 0 <= i < |b| && b[i].versionID == id; assert a[i] in a; }
    }
  }

  lemma KnownStoreGrows(puts: map<string, Put>, v: string, p: Put, st: State)
    requires KnownStore(puts, st) && v !in puts
    ensures KnownStore(puts[v := p], st)
  {
    hide ScopedKey;
  }

  lemma VersionsKept(st: State)
    ensures KeepsVersions(st, st)
  {}

  ghost predicate NothingLost(a: Cluster, b: Cluster) {
    && a.stores.Keys <= b.stores.Keys
    && (forall node | node in a.stores :: KeepsVersions(a.stores[node], b.stores[node]))
    && (forall v | v in a.puts :: v in b.puts && b.puts[v] == a.puts[v])
  }

  lemma StepKeepsConsistent(c: Cluster, e: Event)
    requires Consistent(c) && Enabled(c, e)
    requires (e.Deliver? || e.Adopt?) ==> e.newVersion != ""
    ensures Consistent(Next(c, e)) && NothingLost(c, Next(c, e))
  {
    hide KnownStore; hide KnownSent; hide KeepsVersions; hide Record; hide UpdateLocations; hide ShouldAdopt;
    var st := c.stores[e.node];
    forall node | node in c.stores { VersionsKept(c.stores[node]); }
    match e
    case PutFile(node, m, v) =>
      var p := Put(ScopedKey(m.namespace, m.fileID), m.chunkIDs);
      forall n | n in c.stores { KnownStoreGrows(c.puts, v, p, c.stores[n]); }
      forall s | s in c.sent ensures KnownSent(c.puts[v := p], s) { KnownSentGrows(c.puts, v, p, s); }
      NewPutKnown(c.puts, v, m);
      RecordKeeps(c.puts[v := p], st, m, node, v);
    case Publish(node) =>
      forall m | m in st.manifests.Values ensures KnownSent(c.puts, m) { StoredIsSendable(c.puts, st, m); }
    case Deliver(node, m, v) => DeliverKeeps(c.puts, st, m, node, v);
    case Adopt(node, m, v) => DeliverKeeps(c.puts, st, m, node, v);
    case Relocate(node, chunkID, locations) => RelocateKeeps(c.puts, st, chunkID, locations);
  }

  lemma KnownSentGrows(puts: map<string, Put>, v: string, p: Put, m: Manifest)
    requires KnownSent(puts, m) && v !in puts
    ensures KnownSent(puts[v := p], m)
  {}

  lemma NewPutKnown(puts: map<string, Put>, v: string, m: Manifest)
    requires m.fileID != "" && m.versions == [] && m.versionID == "" && v != ""
    ensures var named := m.(namespace := OrDefault(m.namespace, "default"), versionID := OrDefault(m.versionID, v));
            KnownSent(puts[v := Put(ScopedKey(m.namespace, m.fileID), m.chunkIDs)], named)
  {}

  lemma StoredIsSendable(puts: map<string, Put>, st: State, m: Manifest)
    requires KnownStore(puts, st) && m in st.manifests.Values
    ensures KnownSent(puts, m)
  {
    hide ScopedKey;
    var key :| key in st.manifests && st.manifests[key] == m;
    assert Known(puts, key, m);
  }

  lemma DeliverKeeps(puts: map<string, Put>, st: State, m: Manifest, node: string, v: string)
    requires KnownStore(puts, st) && KnownSent(puts, m) && v != ""
    ensures KnownStore(puts, Record(st, m, node, v)) && KeepsVersions(st, Record(st, m, node, v))
  {
    hide ScopedKey; hide Record; hide KnownStore; hide KeepsVersions;
    assert m.(namespace := OrDefault(m.namespace, "default"), versionID := OrDefault(m.versionID, v)) == m;
    RecordKeeps(puts, st, m, node, v);
  }

  // Runs.

  ghost predicate IsRun(start: Cluster, events: seq<Event>) {
    if events == [] then true
    else
      var before := events[..|events| - 1]; var e := events[|events| - 1];
      IsRun(start, before) && Enabled(After(start, before), e) && ((e.Deliver? || e.Adopt?) ==> e.newVersion != "")
  }

  ghost function After(start: Cluster, events: seq<Event>): Cluster {
    if events == [] then start
    else
      var c := After(start, events[..|events| - 1]); var e := events[|events| - 1];
      if e.node in c.stores then Next(c, e) else c
  }

  lemma NothingLostTransitive(a: Cluster, b: Cluster, c: Cluster)
    requires NothingLost(a, b) && NothingLost(b, c)
    ensures NothingLost(a, c)
  {
    hide IDs;
    forall node, key | node in a.stores && key in a.stores[node].manifests
      ensures key in c.stores[node].manifests
      ensures IDs(a.stores[node].manifests[key]) <= IDs(c.stores[node].manifests[key])
    {
      assert KeepsVersions(a.stores[node], b.stores[node]) && KeepsVersions(b.stores[node], c.stores[node]);
    }
  }

  /** Along every run, from every point on, no node loses a version of any key. */
  lemma {:induction false} RunsLoseNothing(start: Cluster, events: seq<Event>, i: nat)
    requires Init(start) && IsRun(start, events) && i <= |events|
    ensures Consistent(After(start, events)) && NothingLost(After(start, events[..i]), After(start, events))
  {
    hide Enabled; hide Next; hide Consistent; hide NothingLost;
    if events == [] {
      InitConsistent(start);
      NothingLostAtAll(start);
      assert events[..i] == [];
    } else {
      var n := |events| - 1;
      RunsLoseNothing(start, events[..n], if i <= n then i else n);
      var c := After(start, events[..n]);
      EnabledNode(c, events[n]);
      StepKeepsConsistent(c, events[n]);
      if i <= n {
        assert events[..n][..i] == events[..i];
        NothingLostTransitive(After(start, events[..i]), c, After(start, events));
      } else {
        assert events[..i] == events;
        NothingLostAtAll(After(start, events));
      }
    }
  }

  lemma EnabledNode(c: Cluster, e: Event)
    requires Enabled(c, e)
    ensures e.node in c.stores
  {}

  lemma InitConsistent(c: Cluster)
    requires Init(c)
    ensures Consistent(c)
  {}

  lemma NothingLostAtAll(c: Cluster)
    ensures NothingLost(c, c)
  {}

  /**
    * In every reachable state, on every node: the versions of a key are versions that puts of that key created, and
    * looking one up finds it, with the chunk list its put recorded.
    */
  lemma LookupFindsPut(start: Cluster, events: seq<Event>, node: string, key: string, id: string)
    requires Init(start) && IsRun(start, events)
    requires node in After(start, events).stores && key in After(start, events).stores[node].manifests
    ensures var c := After(start, events);
            var m := c.stores[node].manifests[key];
            var found := FindVersion(AllVersions(m), id);
            && (found.Some? <==> id in IDs(m))
            && (found.Some? ==> id in c.puts && c.puts[id] == Put(key, found.value.chunkIDs))
  {
    hide ScopedKey; hide VersionIDs;
    RunsLoseNothing(start, events, 0);
    var c := After(start, events);
    var m := c.stores[node].manifests[key];
    assert KnownStore(c.puts, c.stores[node]) && Known(c.puts, key, m);
    FindVersionIn(AllVersions(m), id);
  }

  /**
    * What a store answers for a file and a version ID, in every reachable state: a version of that ID which a put
    * created, with the chunk list of that put.  It answers exactly when the ID is one under the file's scoped key; but
    * when nothing lies there and the plain file name happens to be a key, exactly when the ID is one under that key.
    */
  lemma AnswersWithPut(start: Cluster, events: seq<Event>, node: string, ns: string, fileID: string, id: string)
    requires Init(start) && IsRun(start, events) && node in After(start, events).stores
    ensures var c := After(start, events); var st := c.stores[node];
            var found := VersionAt(st, ns, fileID, id);
            var key := if ScopedKey(ns, fileID) in st.manifests then ScopedKey(ns, fileID) else fileID;
            && (found.Some? <==> key in st.manifests && id in IDs(st.manifests[key]))
            && (found.Some? ==>
                  found.value.versionID == id && id in c.puts && c.puts[id] == Put(key, found.value.chunkIDs))
  {
    hide ScopedKey; hide VersionIDs; hide IsRun; hide FindVersion;
    var st := After(start, events).stores[node];
    var key := if ScopedKey(ns, fileID) in st.manifests then ScopedKey(ns, fileID) else fileID;
    if key in st.manifests {
      LookupFindsPut(start, events, node, key, id);
      FindVersionIn(AllVersions(st.manifests[key]), id);
    }
  }

  // Clocks along runs.

  /** After n events no counter exceeds n. */
  ghost predicate ClocksWithin(c: Cluster, n: nat) {
    && (forall node | node in c.stores :: ClocksBounded(c.stores[node], n))
    && forall m | m in c.sent :: VersionBounded(m.version, n)
  }

  ghost predicate AllAdvance(a: Cluster, b: Cluster) {
    a.stores.Keys <= b.stores.Keys && forall node | node in a.stores :: ClocksAdvance(a.stores[node], b.stores[node])
  }

  lemma WithinMore(c: Cluster, n: nat)
    requires ClocksWithin(c, n)
    ensures ClocksWithin(c, n + 1)
    ensures forall node | node in c.stores :: ClocksAdvance(c.stores[node], c.stores[node])
  {}

  lemma RelocateClocks(st: State, chunkID: string, locations: seq<string>, n: nat)
    requires ClocksBounded(st, n)
    ensures ClocksAdvance(st, UpdateLocations(st, chunkID, locations))
            && ClocksBounded(UpdateLocations(st, chunkID, locations), n + 1)
  {}

  lemma StepAdvances(c: Cluster, e: Event, n: nat)
    requires Enabled(c, e) && ClocksWithin(c, n) && n + 1 < COUNTERS
    ensures AllAdvance(c, Next(c, e)) && ClocksWithin(Next(c, e), n + 1)
  {
    hide ClocksBounded; hide ClocksAdvance; hide Record; hide UpdateLocations; hide ShouldAdopt; hide ScopedKey;
    hide Bounded;
    var st := c.stores[e.node];
    WithinMore(c, n);
    match e
    case PutFile(node, m, v) => RecordAdvances(st, m, node, v, n);
    case Publish(node) =>
      forall m | m in st.manifests.Values ensures VersionBounded(m.version, n + 1) { StoredVersionBounded(st, m, n); }
    case Deliver(node, m, v) => RecordAdvances(st, m, node, v, n);
    case Adopt(node, m, v) => RecordAdvances(st, m, node, v, n);
    case Relocate(node, chunkID, locations) => RelocateClocks(st, chunkID, locations, n);
  }

  lemma StoredVersionBounded(st: State, m: Manifest, n: nat)
    requires ClocksBounded(st, n) && m in st.manifests.Values
    ensures VersionBounded(m.version, n + 1)
  {}

  lemma InitClocks(c: Cluster)
    requires Init(c)
    ensures ClocksWithin(c, 0)
  {}

  lemma AllAdvanceReflexive(c: Cluster, n: nat)
    requires ClocksWithin(c, n)
    ensures AllAdvance(c, c)
  {}

  lemma AllAdvanceTransitive(a: Cluster, b: Cluster, c: Cluster)
    requires AllAdvance(a, b) && AllAdvance(b, c)
    ensures AllAdvance(a, c)
  {
    hide ClocksAdvance;
    forall node | node in a.stores { AdvanceTransitive(a.stores[node], b.stores[node], c.stores[node]); }
  }

  /** Along every run shorter than the range of a counter, no key's clock ever goes back or becomes concurrent. */
  lemma {:induction false} ClocksNeverGoBack(start: Cluster, events: seq<Event>, i: nat)
    requires Init(start) && IsRun(start, events) && i <= |events| && |events| < COUNTERS
    ensures ClocksWithin(After(start, events), |events|)
    ensures AllAdvance(After(start, events[..i]), After(start, events))
  {
    hide Enabled; hide Next; hide ClocksWithin; hide AllAdvance;
    if events == [] {
      InitClocks(start);
      AllAdvanceReflexive(start, 0);
      assert events[..i] == [];
    } else {
      var n := |events| - 1;
      ClocksNeverGoBack(start, events[..n], if i <= n then i else n);
      var c := After(start, events[..n]);
      EnabledNode(c, events[n]);
      StepAdvances(c, events[n], n);
      if i <= n {
        assert events[..n][..i] == events[..i];
        AllAdvanceTransitive(After(start, events[..i]), c, After(start, events));
      } else {
        assert events[..i] == events;
        AllAdvanceReflexive(After(start, events), |events|);
      }
    }
  }
}
