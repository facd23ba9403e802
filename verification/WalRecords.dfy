/** Log records, the operations that write them, and the state that replaying a log rebuilds. */
module WalRecords {
  import opened Manifests
  import opened Wrappers

  datatype WALRecord =
    | RecordManifest(manifest: Manifest)
    | UpdateLocationsRecord(chunkID: string, locations: seq<string>)
    | DeleteManifest(fileID: string)
    | CreateBucketRecord(bucketName: string)
    | DeleteBucketRecord(bucketName: string)
    | CredentialRecord(keyHash: string)
    | UnknownRecord(op: string)

  /** What replaying one record does to the store; credentials are kept elsewhere. */
  function Apply(st: State, rec: WALRecord, node: string, newVersion: string): State {
    match rec
    case RecordManifest(m) => Record(st, m, node, newVersion)
    case UpdateLocationsRecord(chunkID, locations) => UpdateLocations(st, chunkID, locations)
    case DeleteManifest(fileID) => DeleteFile(st, fileID).0
    case CreateBucketRecord(name) => if name == "" then st else st.(buckets := st.buckets + {name})
    case DeleteBucketRecord(name) => DropBucket(st, name)
    case CredentialRecord(_) => st
    case UnknownRecord(_) => st
  }

  /** Replaying a log; names(i) is the version name made up for record i if it has none. */
  function Replay(st: State, log: seq<WALRecord>, node: string, names: nat -> string): State {
    if log == [] then st
    else
      var n := |log| - 1;
      Apply(Replay(st, log[..n], node, names), log[n], node, names(n))
  }

  // The store's operations with what they log.

  function DeleteFile(st: State, fileID: string): (State, seq<WALRecord>) {
    match DeleteKey(st, fileID)
    case Some(key) => (Remove(st, key), [DeleteManifest(key)])
    case None => (st, [])
  }

  function DeleteScopedFile(st: State, ns: string, fileID: string): (State, seq<WALRecord>) {
    var key := ScopedKey(ns, fileID);
    if key in st.manifests then (Remove(st, key), [DeleteManifest(key)]) else (st, [])
  }

  datatype Op =
    | PutManifest(m: Manifest, newVersion: string)
    | MoveChunk(chunkID: string, locations: seq<string>)
    | DropFile(fileID: string)
    | DropScopedFile(ns: string, fileID: string)
    | MakeBucket(name: string)
    | DropEmptyBucket(name: string)

  function Step(st: State, op: Op, node: string): (State, seq<WALRecord>) {
    match op
    case PutManifest(m, v) =>
      (Record(st, m, node, v), if m.fileID == "" then [] else [RecordManifest(Recorded(st, m, node, v))])
    case MoveChunk(chunkID, locations) =>
      (UpdateLocations(st, chunkID, locations), [UpdateLocationsRecord(chunkID, locations)])
    case DropFile(fileID) => DeleteFile(st, fileID)
    case DropScopedFile(ns, fileID) => DeleteScopedFile(st, ns, fileID)
    case MakeBucket(name) =>
      if name == "" || name in st.buckets then (st, [])
      else (st.(buckets := st.buckets + {name}), [CreateBucketRecord(name)])
    case DropEmptyBucket(name) =>
      if name in st.buckets && !InUse(st, name) then (DropBucket(st, name), [DeleteBucketRecord(name)]) else (st, [])
  }

  function Run(st: State, ops: seq<Op>, node: string): (State, seq<WALRecord>) {
    if ops == [] then (st, [])
    else
      var (before, log) := Run(st, ops[..|ops| - 1], node);
      var (after, more) := Step(before, ops[|ops| - 1], node);
      (after, log + more)
  }

  // Equality with clocks erased.

  function Erase(m: Manifest): Manifest {
    m.(version := None, versions := seq(|m.versions|, i requires 0 <= i < |m.versions| => Erase(m.versions[i])))
  }

  function EraseAll(h: seq<Manifest>): seq<Manifest> {
    seq(|h|, i requires 0 <= i < |h| => Erase(h[i]))
  }

  function EraseState(st: State): State {
    st.(manifests := map key | key in st.manifests :: Erase(st.manifests[key]))
  }

  ghost predicate SameErased(a: State, b: State) {
    EraseState(a) == EraseState(b)
  }

  lemma SameErasedAt(a: State, b: State, key: string)
    requires SameErased(a, b)
    ensures key in a.manifests <==> key in b.manifests
    ensures key in a.manifests ==> Erase(a.manifests[key]) == Erase(b.manifests[key])
    ensures a.buckets == b.buckets
  {
    hide Erase;
    assert key in EraseState(a).manifests <==> key in EraseState(b).manifests;
    if key in a.manifests { assert EraseState(a).manifests[key] == EraseState(b).manifests[key]; }
  }

  lemma SameErasedFrom(a: State, b: State)
    requires a.buckets == b.buckets && a.manifests.Keys == b.manifests.Keys
    requires forall key | key in a.manifests :: Erase(a.manifests[key]) == Erase(b.manifests[key])
    ensures SameErased(a, b)
  {
    hide Erase;
    assert EraseState(a).manifests == EraseState(b).manifests;
  }

  lemma EraseAllParts(a: seq<Manifest>, b: seq<Manifest>)
    ensures EraseAll(a + b) == EraseAll(a) + EraseAll(b)
    ensures |b| == 1 ==> EraseAll(b) == [Erase(b[0])]
  {
    hide Erase;
  }

  lemma ErasedIDs(h: seq<Manifest>)
    ensures VersionIDs(EraseAll(h)) == VersionIDs(h)
  {
    forall m | m in h ensures m.versionID in VersionIDs(EraseAll(h)) {
      var i :| 0 <= i < |h| && h[i] == m;
      assert EraseAll(h)[i] in EraseAll(h);
    }
    forall m | m in EraseAll(h) ensures m.versionID in VersionIDs(h) {
      var i :| 0 <= i < |h| && EraseAll(h)[i] == m;
      assert h[i] in h;
    }
  }

  lemma {:induction false} EraseAppend(history: seq<Manifest>, more: seq<Manifest>, current: string)
    ensures EraseAll(AppendUnseen(history, more, current)) == AppendUnseen(EraseAll(history), EraseAll(more), current)
    decreases |more|
  {
    if more == [] {
      assert EraseAll(more) == [];
    } else {
      hide VersionIDs; hide Erase;
      EraseAllParts([more[0]], more[1..]);
      assert [more[0]] + more[1..] == more;
      assert EraseAll(more)[0] == Erase(more[0]) && EraseAll(more)[1..] == EraseAll(more[1..]);
      ErasedFields(more[0]);
      ErasedIDs(history);
      if more[0].versionID !in VersionIDs(history) && more[0].versionID != current {
        EraseAllParts(history, [more[0]]);
        EraseAppend(history + [more[0]], more[1..], current);
      } else {
        EraseAppend(history, more[1..], current);
      }
    }
  }

  lemma ErasedFields(m: Manifest)
    ensures Erase(m).versionID == m.versionID && Erase(m).versions == EraseAll(m.versions)
    ensures Erase(m).namespace == m.namespace && Erase(m).fileID == m.fileID
    ensures Erase(m.(versions := [])) == Erase(m).(versions := [])
  {}

  lemma EraseMergedHistory(existing: Manifest, m: Manifest)
    ensures EraseAll(MergedHistory(existing, m)) == MergedHistory(Erase(existing), Erase(m))
  {
    hide Erase; hide AppendUnseen;
    var bare := existing.(versions := []);
    ErasedFields(existing);
    ErasedFields(m);
    EraseAppend(existing.versions, [bare], m.versionID);
    EraseAllParts([], [bare]);
    assert [] + [bare] == [bare];
    EraseAppend(AppendUnseen(existing.versions, [bare], m.versionID), m.versions, m.versionID);
  }

  // Replaying one step.

  lemma RecordedFields(st: State, m: Manifest, node: string, v: string)
    requires v != ""
    ensures var r := Recorded(st, m, node, v); var key := ScopedKey(r.namespace, m.fileID);
            && r.namespace == OrDefault(m.namespace, "default") != "" && r.versionID == OrDefault(m.versionID, v) != ""
            && r == m.(namespace := r.namespace, versionID := r.versionID, version := r.version, versions := r.versions)
            && r.versions ==
                 if key in st.manifests then MergedHistory(st.manifests[key], m.(versionID := r.versionID))
                 else m.versions
  {
    hide AppendUnseen;
  }

  // Finding what was recorded.

  /** What is archived under the ID before m is recorded stays in front of m. */
  ghost predicate ArchivedBefore(st: State, m: Manifest, id: string) {
    var key := ScopedKey(m.namespace, m.fileID);
    id in VersionIDs(if key in st.manifests then st.manifests[key].versions else m.versions)
  }

  /** Right after m was recorded, its version ID finds it, exactly when that ID was not archived already. */
  lemma RecordedIsFound(st: State, m: Manifest, node: string, v: string)
    requires m.fileID != "" && v != ""
    ensures var after := Record(st, m, node, v); var id := if m.versionID == "" then v else m.versionID;
            var found := VersionAt(after, m.namespace, m.fileID, id);
            && found.Some? && found.value.versionID == id
            && (!ArchivedBefore(st, m, id) <==>
                  found.value == m.(namespace := if m.namespace == "" then "default" else m.namespace, versionID := id,
                                    version := found.value.version, versions := found.value.versions)
                  && found == Some(after.manifests[ScopedKey(m.namespace, m.fileID)]))
  {
    hide Recorded; hide MergedHistory; hide ScopedKey; hide VersionIDs;
    RecordedFields(st, m, node, v);
    SameScope(m.namespace, m.fileID);
    var r := Recorded(st, m, node, v);
    var key := ScopedKey(m.namespace, m.fileID);
    var id := r.versionID;
    if key in st.manifests { ArchivedIDs(st.manifests[key], m.(versionID := id)); }
    assert id in VersionIDs(r.versions) <==> ArchivedBefore(st, m, id);
    FindsLast(r, id);
  }

  lemma RecordedUnderKey(st: State, m: Manifest, node: string, v: string)
    requires m.fileID != "" && v != ""
    ensures ScopedKey(m.namespace, m.fileID) in Record(st, m, node, v).manifests
  {
    hide ScopedKey; hide MergedHistory;
    RecordedFields(st, m, node, v);
    SameScope(m.namespace, m.fileID);
  }

  lemma SameScope(ns: string, fileID: string)
    ensures ScopedKey(OrDefault(ns, "default"), fileID) == ScopedKey(ns, fileID)
  {}

  lemma ArchivedIDs(existing: Manifest, m: Manifest)
    ensures m.versionID in VersionIDs(MergedHistory(existing, m)) <==> m.versionID in VersionIDs(existing.versions)
  {
    hide VersionIDs;
    var bare := existing.(versions := []);
    AppendUnseenIDs(existing.versions, [bare], m.versionID);
    AppendUnseenIDs(AppendUnseen(existing.versions, [bare], m.versionID), m.versions, m.versionID);
  }

  /** The current version is found by its own ID, unless an archived one has it too and comes first. */
  lemma FindsLast(r: Manifest, id: string)
    requires r.versionID == id
    ensures var found := FindVersion(AllVersions(r), id);
            && found.Some? && found.value.versionID == id && (found.value == r <==> id !in VersionIDs(r.versions))
  {
    FindVersionIn(r.versions, id);
    FindInTwo(r.versions, [r], id);
    if id in VersionIDs(r.versions) {
      var x := FindVersion(r.versions, id).value;
      assert x in r.versions;
      NotItsOwnVersion(r, x);
    }
  }

  lemma NotItsOwnVersion(r: Manifest, x: Manifest)
    requires x in r.versions
    ensures x != r
  {
    var i :| 0 <= i < |r.versions| && r.versions[i] == x;
  }

  lemma {:induction false} FindInTwo(a: seq<Manifest>, b: seq<Manifest>, id: string)
    ensures FindVersion(a + b, id) == if FindVersion(a, id).Some? then FindVersion(a, id) else FindVersion(b, id)
  {
    if a == [] {
      assert a + b == b;
    } else {
      assert (a + b)[1..] == a[1..] + b;
      FindInTwo(a[1..], b, id);
    }
  }

  lemma EraseEqual(r: Manifest, r2: Manifest)
    requires r2 == r.(version := r2.version, versions := r2.versions) && EraseAll(r2.versions) == EraseAll(r.versions)
    ensures Erase(r2) == Erase(r)
  {
    assert Erase(r).versions == EraseAll(r.versions) && Erase(r2).versions == EraseAll(r2.versions);
  }

  /** Recording what was recorded, on a state that differs in clocks only, gives the same up to clocks. */
  lemma RecordAgain(a: State, b: State, m: Manifest, node: string, v: string, node2: string, v2: string)
    requires SameErased(a, b) && m.fileID != "" && v != "" && v2 != ""
    ensures var r := Recorded(a, m, node, v);
            Erase(Recorded(b, r, node2, v2)) == Erase(r)
            && r.fileID == m.fileID && r.namespace != "" && r.versionID != ""
  {
    hide Recorded; hide MergedHistory; hide Erase; hide SameErased;
    var r := Recorded(a, m, node, v);
    var key := ScopedKey(r.namespace, r.fileID);
    RecordedFields(a, m, node, v);
    RecordedFields(b, r, node2, v2);
    SameErasedAt(a, b, key);
    if key in a.manifests { MergeAgain(a.manifests[key], b.manifests[key], m.(versionID := r.versionID), r); }
    EraseEqual(r, Recorded(b, r, node2, v2));
  }

  lemma MergeAgain(e: Manifest, e2: Manifest, m: Manifest, r: Manifest)
    requires Erase(e) == Erase(e2) && r.versionID == m.versionID && r.versions == MergedHistory(e, m)
    ensures EraseAll(MergedHistory(e2, r)) == EraseAll(r.versions)
  {
    hide Erase; hide EraseAll;
    EraseMergedHistory(e2, r);
    EraseMergedHistory(e, m);
    ErasedFields(r);
    ErasedFields(m);
    MergeIdempotent(Erase(e), Erase(m));
    hide AppendUnseen;
  }

  lemma EraseRelocated(m: Manifest, chunkID: string, locations: seq<string>)
    ensures Erase(Relocated(m, chunkID, locations)) == Relocated(Erase(m), chunkID, locations)
  {
    var r := Relocated(m, chunkID, locations);
    forall i | 0 <= i < |m.versions|
      ensures Erase(r.versions[i]) == RelocatedHere(Erase(m.versions[i]), chunkID, locations) {}
    assert EraseAll(r.versions) == Relocated(Erase(m), chunkID, locations).versions;
  }

  lemma InUseErased(a: State, b: State, bucket: string)
    requires SameErased(a, b)
    ensures InUse(a, bucket) ==> InUse(b, bucket)
  {
    hide Erase;
    if InUse(a, bucket) {
      var key :| key in a.manifests && a.manifests[key].namespace == bucket;
      SameErasedAt(a, b, key);
      ErasedFields(a.manifests[key]);
      ErasedFields(b.manifests[key]);
    }
  }

  lemma ApplyRecorded(a: State, b: State, m: Manifest, node: string, v: string, node2: string, v2: string)
    requires SameErased(a, b) && m.fileID != "" && v != "" && v2 != ""
    ensures SameErased(Record(a, m, node, v), Record(b, Recorded(a, m, node, v), node2, v2))
  {
    hide Recorded; hide Erase;
    var r := Recorded(a, m, node, v);
    var r2 := Recorded(b, r, node2, v2);
    RecordAgain(a, b, m, node, v, node2, v2);
    ErasedFields(r);
    ErasedFields(r2);
    var key := ScopedKey(r.namespace, r.fileID);
    var a', b' := Record(a, m, node, v), Record(b, r, node2, v2);
    forall k ensures k in a.manifests <==> k in b.manifests { SameErasedAt(a, b, k); }
    SameErasedAt(a, b, key);
    forall k | k in a'.manifests ensures Erase(a'.manifests[k]) == Erase(b'.manifests[k]) {
      if k != key { SameErasedAt(a, b, k); }
    }
    SameErasedFrom(a', b');
  }

  lemma RelocatedSame(a: State, b: State, chunkID: string, locations: seq<string>)
    requires SameErased(a, b)
    ensures SameErased(UpdateLocations(a, chunkID, locations), UpdateLocations(b, chunkID, locations))
  {
    hide Erase; hide Relocated;
    forall k ensures k in a.manifests <==> k in b.manifests { SameErasedAt(a, b, k); }
    SameErasedAt(a, b, "");
    var a', b' := UpdateLocations(a, chunkID, locations), UpdateLocations(b, chunkID, locations);
    forall k | k in a'.manifests ensures Erase(a'.manifests[k]) == Erase(b'.manifests[k]) {
      SameErasedAt(a, b, k);
      EraseRelocated(a.manifests[k], chunkID, locations);
      EraseRelocated(b.manifests[k], chunkID, locations);
    }
    SameErasedFrom(a', b');
  }

  lemma RemovedSame(a: State, b: State, key: string)
    requires SameErased(a, b)
    ensures SameErased(Remove(a, key), Remove(b, key))
  {
    hide Erase;
    forall k ensures k in a.manifests <==> k in b.manifests { SameErasedAt(a, b, k); }
    SameErasedAt(a, b, key);
    forall k | k in Remove(a, key).manifests ensures Erase(a.manifests[k]) == Erase(b.manifests[k]) {
      SameErasedAt(a, b, k);
    }
    SameErasedFrom(Remove(a, key), Remove(b, key));
  }

  lemma BucketsSame(a: State, b: State, buckets: set<string>)
    requires SameErased(a, b)
    ensures SameErased(a.(buckets := buckets), b.(buckets := buckets))
  {
    hide Erase;
    forall k ensures k in a.manifests <==> k in b.manifests { SameErasedAt(a, b, k); }
    forall k | k in a.manifests ensures Erase(a.manifests[k]) == Erase(b.manifests[k]) { SameErasedAt(a, b, k); }
    SameErasedFrom(a.(buckets := buckets), b.(buckets := buckets));
  }

  ghost predicate Named(op: Op) { op.PutManifest? ==> op.newVersion != "" }

  /** Replaying what one operation logged does to a copy what the operation did to the store. */
  lemma StepReplays(a: State, b: State, op: Op, node: string, node2: string, v2: string)
    requires SameErased(a, b) && Named(op) && v2 != ""
    ensures var (a', more) := Step(a, op, node);
            |more| <= 1 && SameErased(a', if more == [] then b else Apply(b, more[0], node2, v2))
  {
    hide Recorded; hide Erase; hide SameErased; hide UpdateLocations;
    SameErasedAt(a, b, "");
    match op
    case PutManifest(m, v) => if m.fileID != "" { ApplyRecorded(a, b, m, node, v, node2, v2); }
    case MoveChunk(chunkID, locations) => RelocatedSame(a, b, chunkID, locations);
    case DropFile(fileID) =>
      var key := DeleteKey(a, fileID);
      if key.Some? {
        SameErasedAt(a, b, key.value);
        RemovedSame(a, b, key.value);
      }
    case DropScopedFile(ns, fileID) =>
      SameErasedAt(a, b, ScopedKey(ns, fileID));
      RemovedSame(a, b, ScopedKey(ns, fileID));
    case MakeBucket(name) => BucketsSame(a, b, a.buckets + {name});
    case DropEmptyBucket(name) =>
      if InUse(b, name) { SameErasedSymmetric(a, b); InUseErased(b, a, name); }
      BucketsSame(a, b, a.buckets - {name});
  }

  lemma SameErasedSymmetric(a: State, b: State)
    requires SameErased(a, b)
    ensures SameErased(b, a)
  {}

  /**
    * Replaying the log of any run into a copy of the initial state, on any node and with any version names, rebuilds
    * the final manifests, histories, locations and buckets up to clocks.
    */
  lemma {:induction false} ReplayRebuilds(st: State, copy: State, ops: seq<Op>, node: string, node2: string,
                                          names: nat -> string)
    requires SameErased(st, copy) && (forall op | op in ops :: Named(op)) && forall i :: names(i) != ""
    ensures SameErased(Run(st, ops, node).0, Replay(copy, Run(st, ops, node).1, node2, names))
  {
    hide Step; hide Apply; hide SameErased;
    if ops != [] {
      var n := |ops| - 1;
      assert ops[n] in ops;
      ReplayRebuilds(st, copy, ops[..n], node, node2, names);
      var (before, log) := Run(st, ops[..n], node);
      var (after, more) := Step(before, ops[n], node);
      var copied := Replay(copy, log, node2, names);
      StepReplays(before, copied, ops[n], node, node2, names(|log|));
      if more == [] {
        assert log + more == log;
      } else {
        assert (log + more)[..|log|] == log && |log + more| - 1 == |log|;
      }
    }
  }
}
