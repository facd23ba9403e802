/** The mutable metadata store: each operation makes one step of its state and logs it. */
module MetadataStore {
  import opened VectorClocks
  import opened Manifests
  import opened WalRecords
  import opened Wrappers

  class Store {
    var manifests: map<string, Manifest>
    var buckets: set<string>
    var nodeID: string
    var attached: bool
    var wal: seq<WALRecord>

    constructor ()
      ensures Contents() == FRESH && nodeID == "" && !attached && wal == []
    {
      manifests, buckets, nodeID, attached, wal := map[], {"default"}, "", false, [];
    }

    ghost function Contents(): State
      reads this
    {
      State(manifests, buckets)
    }

    /** The store made this step, and logged it when a log is attached. */
    twostate predicate Stepped(op: Op)
      reads this
    {
      var (after, log) := Step(old(Contents()), op, old(nodeID));
      && Contents() == after
      && wal == old(wal) + (if old(attached) then log else [])
      && nodeID == old(nodeID) && attached == old(attached)
    }

    method WriteRecord(rec: WALRecord)
      modifies this`wal
      ensures wal == old(wal) + if attached then [rec] else []
    {
      if attached { wal := wal + [rec]; }
    }

    /** The seen-set loop over a list of candidate versions. */
    method AppendHistory(history: seq<Manifest>, more: seq<Manifest>, current: string) returns (r: seq<Manifest>)
      ensures r == AppendUnseen(history, more, current)
    {
      r := history;
      var seen := VersionIDs(history);
      for i := 0 to |more|
        invariant seen == VersionIDs(r)
        invariant AppendUnseen(history, more, current) == AppendUnseen(r, more[i..], current)
      {
        assert more[i..][0] == more[i] && more[i..][1..] == more[i + 1..];
        if more[i].versionID !in seen && more[i].versionID != current {
          IDsOfConcat(r, [more[i]]);
          r := r + [more[i]];
          seen := seen + {more[i].versionID};
        }
      }
    }

    /** Fills in namespace and version name, advances and merges the clock, archives the previous version. */
    method Prepare(manifest: Manifest, newVersion: string) returns (m: Manifest)
      ensures m == Recorded(Contents(), manifest, nodeID, newVersion)
    {
      hide AppendUnseen;
      m := manifest;
      if m.namespace == "" { m := m.(namespace := "default"); }
      var key := ScopedKey(m.namespace, m.fileID);
      if m.versionID == "" { m := m.(versionID := newVersion); }
      var clock := if m.version.Some? then m.version.value else map[];
      var node := if nodeID == "" then "local" else nodeID;
      clock := Incremented(clock, node);
      if key in manifests {
        var existing := manifests[key];
        if existing.version.Some? { clock := Merged(clock, existing.version.value); }
        var history := AppendHistory(existing.versions, [existing.(versions := [])], m.versionID);
        history := AppendHistory(history, m.versions, m.versionID);
        m := m.(versions := history);
      }
      m := m.(version := Some(clock));
    }

    /** Saves a manifest under its scoped key and registers its bucket. */
    method RecordPlacement(manifest: Manifest, newVersion: string) returns (failed: bool)
      modifies this
      ensures failed <==> manifest.fileID == ""
      ensures Stepped(PutManifest(manifest, newVersion))
    {
      if manifest.fileID == "" { return true; }
      var m := Prepare(manifest, newVersion);
      RecordedFile(Contents(), manifest, nodeID, newVersion);
      hide Recorded;
      manifests := manifests[ScopedKey(m.namespace, m.fileID) := m];
      buckets := buckets + {m.namespace};
      WriteRecord(RecordManifest(m));
      return false;
    }

    static lemma RecordedFile(st: State, m: Manifest, node: string, newVersion: string)
      ensures Recorded(st, m, node, newVersion).fileID == m.fileID
    {}

    method Lookup(fileID: string) returns (r: Option<Manifest>)
      ensures r == match DeleteKey(Contents(), fileID) case Some(key) => Some(manifests[key]) case None => None
      ensures var key := if fileID in manifests then fileID else "default/" + fileID;
              r == if key in manifests then Some(manifests[key]) else None
    {
      if fileID in manifests { return Some(manifests[fileID]); }
      if "default/" + fileID in manifests { return Some(manifests["default/" + fileID]); }
      return None;
    }

    method LookupScoped(ns: string, fileID: string) returns (r: Option<Manifest>)
      ensures r == var key := ScopedKey(ns, fileID); if key in manifests then Some(manifests[key]) else None
    {
      var key := ScopedKey(ns, fileID);
      return if key in manifests then Some(manifests[key]) else None;
    }

    method ListVersions(ns: string, fileID: string) returns (r: Option<seq<Manifest>>)
      ensures r == VersionsAt(Contents(), ns, fileID)
      ensures var key := if ScopedKey(ns, fileID) in manifests then ScopedKey(ns, fileID) else fileID;
              r == if key in manifests then Some(manifests[key].versions + [manifests[key]]) else None
    {
      var key := ScopedKey(ns, fileID);
      if key !in manifests { key := fileID; }
      if key !in manifests { return None; }
      return Some(manifests[key].versions + [manifests[key]]);
    }

    method LookupVersion(ns: string, fileID: string, versionID: string) returns (r: Option<Manifest>)
      ensures r == VersionAt(Contents(), ns, fileID, versionID)
    {
      var versions := ListVersions(ns, fileID);
      if versions.None? { return None; }
      var h := versions.value;
      for i := 0 to |h|
        invariant FindVersion(h, versionID) == FindVersion(h[i..], versionID)
      {
        if h[i].versionID == versionID { return Some(h[i]); }
      }
      return None;
    }

    /** The key is gone, and nothing else changed. */
    twostate predicate OneRemoved(key: string)
      reads this
    {
      && key !in manifests && manifests.Keys == old(manifests).Keys - {key} && buckets == old(buckets)
      && forall k | k in manifests :: manifests[k] == old(manifests)[k]
    }

    method Delete(fileID: string) returns (found: bool)
      modifies this
      ensures Stepped(DropFile(fileID))
      ensures var key := if fileID in old(manifests) then fileID else "default/" + fileID;
              && (found <==> key in old(manifests)) && OneRemoved(key)
              && wal == old(wal) + if found && attached then [DeleteManifest(key)] else []
    {
      var key := fileID;
      if key !in manifests {
        if "default/" + fileID in manifests { key := "default/" + fileID; } else { return false; }
      }
      manifests := manifests - {key};
      WriteRecord(DeleteManifest(key));
      return true;
    }

    method DeleteScoped(ns: string, fileID: string) returns (found: bool)
      modifies this
      ensures found <==> ScopedKey(ns, fileID) in old(manifests)
      ensures Stepped(DropScopedFile(ns, fileID)) && OneRemoved(ScopedKey(ns, fileID))
      ensures wal == old(wal) + if found && attached then [DeleteManifest(ScopedKey(ns, fileID))] else []
    {
      var key := ScopedKey(ns, fileID);
      if key !in manifests { return false; }
      manifests := manifests - {key};
      WriteRecord(DeleteManifest(key));
      return true;
    }

    /** Visits every manifest, in any order. */
    method UpdateChunkLocations(chunkID: string, newLocations: seq<string>)
      modifies this
      ensures Stepped(MoveChunk(chunkID, newLocations))
      ensures manifests.Keys == old(manifests).Keys && buckets == old(buckets)
      ensures forall key | key in manifests :: OnlyMoved(old(manifests)[key], manifests[key], chunkID, newLocations)
    {
      hide Relocated;
      var keys := manifests.Keys;
      ghost var before := manifests;
      while keys != {}
        invariant keys <= manifests.Keys == before.Keys
        invariant forall k | k in manifests ::
          manifests[k] == if k in keys then before[k] else Relocated(before[k], chunkID, newLocations)
        invariant buckets == old(buckets) && wal == old(wal) && nodeID == old(nodeID) && attached == old(attached)
        decreases keys
      {
        var key :| key in keys;
        manifests := manifests[key := Relocated(manifests[key], chunkID, newLocations)];
        keys := keys - {key};
      }
      assert manifests == UpdateLocations(old(Contents()), chunkID, newLocations).manifests;
      forall key | key in manifests { RelocatedIs(before[key], chunkID, newLocations); }
      WriteRecord(UpdateLocationsRecord(chunkID, newLocations));
    }

    method CreateBucket(name: string) returns (failed: bool)
      modifies this
      ensures failed <==> name == ""
      ensures Stepped(MakeBucket(name))
      ensures manifests == old(manifests) && buckets == old(buckets) + if name == "" then {} else {name}
      ensures wal == old(wal)
                       + if name != "" && name !in old(buckets) && attached then [CreateBucketRecord(name)] else []
    {
      if name == "" { return true; }
      if name in buckets { return false; }
      buckets := buckets + {name};
      WriteRecord(CreateBucketRecord(name));
      return false;
    }

    /** Deletes a bucket that exists and holds no manifest. */
    method DeleteBucket(name: string) returns (failed: bool)
      modifies this
      ensures failed <==>
              name !in old(buckets) || exists key | key in old(manifests) :: old(manifests)[key].namespace == name
      ensures Stepped(DropEmptyBucket(name))
      ensures manifests == old(manifests) && buckets == old(buckets) - if failed then {} else {name}
      ensures wal == old(wal) + if !failed && attached then [DeleteBucketRecord(name)] else []
    {
      if name !in buckets { return true; }
      var keys := manifests.Keys;
      while keys != {}
        invariant keys <= manifests.Keys
        invariant forall k | k in manifests && k !in keys :: manifests[k].namespace != name
        decreases keys
      {
        var key :| key in keys;
        if manifests[key].namespace == name { return true; }
        keys := keys - {key};
      }
      buckets := buckets - {name};
      WriteRecord(DeleteBucketRecord(name));
      return false;
    }

    /** Carries out one replayed record, without logging it again when no log is attached. */
    method ApplyRecord(rec: WALRecord, newVersion: string)
      requires !attached
      modifies this
      ensures Contents() == Apply(old(Contents()), rec, nodeID, newVersion)
      ensures nodeID == old(nodeID) && !attached && wal == old(wal)
    {
      hide Recorded; hide UpdateLocations;
      match rec
      case RecordManifest(m) => var _ := RecordPlacement(m, newVersion);
      case UpdateLocationsRecord(chunkID, locations) => UpdateChunkLocations(chunkID, locations);
      case DeleteManifest(fileID) => var _ := Delete(fileID);
      case CreateBucketRecord(name) => var _ := CreateBucket(name);
      case DeleteBucketRecord(name) => var _ := DeleteBucket(name);
      case CredentialRecord(_) =>
      case UnknownRecord(_) =>
    }
  }

  /** A manifest just recorded is found by its namespace, name and version ID, unless that ID was archived before. */
  method RecordThenLookup(store: Store, m: Manifest, newVersion: string) returns (r: Option<Manifest>)
    requires m.fileID != "" && newVersion != ""
    requires !ArchivedBefore(store.Contents(), m, OrDefault(m.versionID, newVersion))
    modifies store
    ensures r.Some? && ScopedKey(m.namespace, m.fileID) in store.manifests
    ensures r.value == store.manifests[ScopedKey(m.namespace, m.fileID)]
    ensures r.value == m.(namespace := if m.namespace == "" then "default" else m.namespace,
                          versionID := if m.versionID == "" then newVersion else m.versionID,
                          version := r.value.version, versions := r.value.versions)
  {
    hide ScopedKey; hide Recorded; hide VersionAt; hide VersionsAt; hide ArchivedBefore;
    RecordedIsFound(store.Contents(), m, store.nodeID, newVersion);
    RecordedUnderKey(store.Contents(), m, store.nodeID, newVersion);
    var _ := store.RecordPlacement(m, newVersion);
    r := store.LookupVersion(m.namespace, m.fileID, OrDefault(m.versionID, newVersion));
  }
}
