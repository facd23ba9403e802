/** The invariant of a store's keys and buckets, and what replaying a compacted log rebuilds. */
module Compaction {
  import opened Manifests
  import opened WalRecords

  ghost predicate WellKeyed(key: string, m: Manifest, buckets: set<string>) {
    && m.fileID != "" && m.namespace != "" && m.versionID != ""
    && key == ScopedKey(m.namespace, m.fileID) && m.namespace in buckets
  }

  /** Every manifest lies under its scoped key and its namespace is a bucket. */
  ghost predicate Invariant(st: State) {
    forall key | key in st.manifests :: WellKeyed(key, st.manifests[key], st.buckets)
  }

  lemma RelocatedFields(m: Manifest, chunkID: string, locations: seq<string>)
    ensures var r := Relocated(m, chunkID, locations);
            r.fileID == m.fileID && r.namespace == m.namespace && r.versionID == m.versionID
  {}

  lemma StepKeepsInvariant(st: State, op: Op, node: string)
    requires Invariant(st) && Named(op)
    ensures Invariant(Step(st, op, node).0)
  {
    hide Recorded; hide Relocated; hide ScopedKey;
    match op
    case PutManifest(m, v) => RecordedFields(st, m, node, v);
    case MoveChunk(chunkID, locations) =>
      forall key | key in st.manifests { RelocatedFields(st.manifests[key], chunkID, locations); }
    case DropFile(fileID) =>
    case DropScopedFile(ns, fileID) =>
    case MakeBucket(name) =>
    case DropEmptyBucket(name) =>
  }

  /** The invariant holds in every state a store reaches. */
  lemma {:induction false} RunKeepsInvariant(ops: seq<Op>, node: string)
    requires forall op | op in ops :: Named(op)
    ensures Invariant(Run(FRESH, ops, node).0)
  {
    hide Invariant; hide Step;
    if ops == [] {
      FreshInvariant();
    } else {
      RunKeepsInvariant(ops[..|ops| - 1], node);
      StepKeepsInvariant(Run(FRESH, ops[..|ops| - 1], node).0, ops[|ops| - 1], node);
    }
  }

  lemma FreshInvariant()
    ensures Invariant(FRESH)
  {}

  /** One record per manifest, in the given order of keys. */
  function CompactedLog(st: State, order: seq<string>): seq<WALRecord>
    requires forall key | key in order :: key in st.manifests
  {
    seq(|order|, i requires 0 <= i < |order| => RecordManifest(st.manifests[order[i]]))
  }

  ghost predicate IsOrder(st: State, order: seq<string>) {
    && (forall key :: key in order <==> key in st.manifests)
    && forall i, j | 0 <= i < j < |order| :: order[i] != order[j]
  }

  ghost function Namespaces(st: State, keys: seq<string>): set<string>
    requires forall key | key in keys :: key in st.manifests
  {
    set key | key in keys :: st.manifests[key].namespace
  }

  /** These keys, and the buckets they need, have been rebuilt. */
  ghost predicate Rebuilt(st: State, keys: seq<string>, r: State)
    requires forall key | key in keys :: key in st.manifests
  {
    && (forall key :: key in r.manifests <==> key in keys)
    && (forall key | key in r.manifests :: Erase(r.manifests[key]) == Erase(st.manifests[key]))
    && r.buckets == {"default"} + Namespaces(st, keys)
  }

  lemma RebuiltOneMore(st: State, keys: seq<string>, key: string, r: State, node: string, v: string)
    requires Invariant(st) && v != "" && (forall k | k in keys :: k in st.manifests) && key in st.manifests
             && key !in keys
    requires Rebuilt(st, keys, r)
    ensures Rebuilt(st, keys + [key], Record(r, st.manifests[key], node, v))
  {
    hide Erase; hide Record; hide ScopedKey;
    var m := st.manifests[key];
    assert WellKeyed(key, m, st.buckets);
    RecordNew(r, m, node, v);
    assert Namespaces(st, keys + [key]) == Namespaces(st, keys) + {m.namespace};
  }

  /** After i records the first i keys are rebuilt. */
  lemma {:induction false} CompactedPrefix(st: State, order: seq<string>, i: nat, node: string, names: nat -> string)
    requires Invariant(st) && IsOrder(st, order) && i <= |order| && forall k :: names(k) != ""
    ensures Rebuilt(st, order[..i], Replay(FRESH, CompactedLog(st, order)[..i], node, names))
  {
    hide Rebuilt; hide Record; hide Invariant;
    var log := CompactedLog(st, order);
    if i > 0 {
      CompactedPrefix(st, order, i - 1, node, names);
      assert log[..i][..i - 1] == log[..i - 1];
      var key := order[i - 1];
      assert key in order;
      RebuiltOneMore(st, order[..i - 1], key, Replay(FRESH, log[..i - 1], node, names), node, names(i - 1));
      assert order[..i] == order[..i - 1] + [key];
    } else {
      NothingRebuilt(st);
      assert log[..0] == [] && order[..0] == [];
    }
  }

  lemma NothingRebuilt(st: State)
    ensures Rebuilt(st, [], FRESH)
  {}

  lemma RecordNew(st: State, m: Manifest, node: string, v: string)
    requires m.fileID != "" && m.namespace != "" && m.versionID != "" && v != ""
    requires ScopedKey(m.namespace, m.fileID) !in st.manifests
    ensures var key := ScopedKey(m.namespace, m.fileID); var after := Record(st, m, node, v);
            after.manifests.Keys == st.manifests.Keys + {key} && Erase(after.manifests[key]) == Erase(m)
            && (forall k | k in st.manifests :: after.manifests[k] == st.manifests[k])
            && after.buckets == st.buckets + {m.namespace}
  {
    hide Recorded; hide Erase; hide ScopedKey;
    var r := Recorded(st, m, node, v);
    RecordedFields(st, m, node, v);
    EraseEqual(m, r);
  }

  /** Replaying a compacted log, written in any order, rebuilds every manifest with its history up to clocks. */
  lemma CompactionRebuilds(st: State, order: seq<string>, node: string, names: nat -> string)
    requires Invariant(st) && IsOrder(st, order) && forall k :: names(k) != ""
    ensures var r := Replay(FRESH, CompactedLog(st, order), node, names);
            && EraseState(r).manifests == EraseState(st).manifests
            && r.buckets == {"default"} + Namespaces(st, order)
  {
    hide Erase; hide Invariant; hide Replay;
    CompactedPrefix(st, order, |order|, node, names);
    assert order[..|order|] == order && CompactedLog(st, order)[..|order|] == CompactedLog(st, order);
    var r := Replay(FRESH, CompactedLog(st, order), node, names);
    assert EraseState(r).manifests.Keys == EraseState(st).manifests.Keys;
  }

  /** The bucket names survive compaction exactly when only the default bucket may be empty, and it exists. */
  lemma BucketsSurviveIff(st: State, order: seq<string>, node: string, names: nat -> string)
    requires Invariant(st) && IsOrder(st, order) && forall k :: names(k) != ""
    ensures Replay(FRESH, CompactedLog(st, order), node, names).buckets == st.buckets <==>
            "default" in st.buckets && forall b | b in st.buckets :: b == "default" || InUse(st, b)
  {
    hide Erase; hide Replay;
    CompactionRebuilds(st, order, node, names);
    var kept := {"default"} + Namespaces(st, order);
    forall key | key in st.manifests ensures st.manifests[key].namespace in st.buckets {
      assert WellKeyed(key, st.manifests[key], st.buckets);
    }
    forall b ensures b in Namespaces(st, order) <==> InUse(st, b) {}
    if "default" in st.buckets && forall b | b in st.buckets :: b == "default" || InUse(st, b) {
      assert kept == st.buckets;
    }
  }
}
