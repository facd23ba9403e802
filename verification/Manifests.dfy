/** File manifests, their version histories, and the state of a metadata store. */
module Manifests {
  import opened VectorClocks
  import opened Selections
  import opened Wrappers

  datatype Manifest = Manifest(
    namespace: string,
    fileID: string,
    size: int,
    chunkIDs: seq<string>,
    chunkLocations: map<string, seq<string>>,
    version: Option<Clock>,
    versionID: string,
    versions: seq<Manifest>,
    contentType: string,
    metadata: map<string, string>)

  datatype State = State(manifests: map<string, Manifest>, buckets: set<string>)

  const FRESH := State(map[], {"default"})

  function ScopedKey(ns: string, fileID: string): string {
    var scope := if ns == "" then "default" else ns;
    if scope + "/" <= fileID then fileID else scope + "/" + fileID
  }

  function VersionIDs(h: seq<Manifest>): set<string> {
    set m | m in h :: m.versionID
  }

  /** Appends the manifests whose version is neither the current one nor already in the history. */
  function AppendUnseen(history: seq<Manifest>, more: seq<Manifest>, current: string): seq<Manifest>
    decreases |more|
  {
    if more == [] then history
    else if more[0].versionID !in VersionIDs(history) && more[0].versionID != current then
      AppendUnseen(history + [more[0]], more[1..], current)
    else
      AppendUnseen(history, more[1..], current)
  }

  /** The archive of the existing manifest, then the existing manifest itself, then what the new one brings. */
  function MergedHistory(existing: Manifest, m: Manifest): seq<Manifest> {
    AppendUnseen(AppendUnseen(existing.versions, [existing.(versions := [])], m.versionID), m.versions, m.versionID)
  }

  function Advanced(version: Option<Clock>, node: string): Clock {
    Incremented(if version.Some? then version.value else map[], if node == "" then "local" else node)
  }

  function OrDefault(s: string, default: string): string { if s == "" then default else s }

  /** The manifest that recording m leaves under its key. */
  function Recorded(st: State, m: Manifest, node: string, newVersion: string): Manifest {
    var ns := OrDefault(m.namespace, "default");
    var named := m.(namespace := ns, versionID := OrDefault(m.versionID, newVersion));
    var key := ScopedKey(ns, m.fileID);
    var clock := Advanced(m.version, node);
    if key !in st.manifests then named.(version := Some(clock))
    else
      var existing := st.manifests[key];
      named.(version := Some(if existing.version.Some? then Merged(clock, existing.version.value) else clock),
             versions := MergedHistory(existing, named))
  }

  function Record(st: State, m: Manifest, node: string, newVersion: string): State {
    if m.fileID == "" then st
    else
      var r := Recorded(st, m, node, newVersion);
      State(st.manifests[ScopedKey(r.namespace, r.fileID) := r], st.buckets + {r.namespace})
  }

  /** New locations for a chunk in a manifest and in its archived versions. */
  function Relocated(m: Manifest, chunkID: string, locations: seq<string>): Manifest {
    RelocatedHere(m, chunkID, locations).(versions :=
      seq(|m.versions|, i requires 0 <= i < |m.versions| => RelocatedHere(m.versions[i], chunkID, locations)))
  }

  function RelocatedHere(m: Manifest, chunkID: string, locations: seq<string>): Manifest {
    if chunkID in m.chunkLocations then m.(chunkLocations := m.chunkLocations[chunkID := locations]) else m
  }

  function UpdateLocations(st: State, chunkID: string, locations: seq<string>): State {
    st.(manifests := map key | key in st.manifests :: Relocated(st.manifests[key], chunkID, locations))
  }

  /** The chunk has these locations wherever it was listed, in archived versions too; all else is kept. */
  ghost predicate OnlyMoved(a: Manifest, b: Manifest, chunkID: string, locations: seq<string>) {
    && MovedChunk(a, b.(versions := a.versions), chunkID, locations) && |b.versions| == |a.versions|
    && forall i | 0 <= i < |a.versions| :: MovedChunk(a.versions[i], b.versions[i], chunkID, locations)
  }

  ghost predicate MovedChunk(a: Manifest, b: Manifest, chunkID: string, locations: seq<string>) {
    && b == a.(chunkLocations := b.chunkLocations) && b.chunkLocations.Keys == a.chunkLocations.Keys
    && forall c | c in b.chunkLocations ::
         b.chunkLocations[c] == if c == chunkID then locations else a.chunkLocations[c]
  }

  lemma RelocatedIs(m: Manifest, chunkID: string, locations: seq<string>)
    ensures OnlyMoved(m, Relocated(m, chunkID, locations), chunkID, locations)
  {
    var here := RelocatedHere(m, chunkID, locations);
    assert Relocated(m, chunkID, locations).(versions := m.versions) == here;
  }

  /** The key that Delete removes, if there is one. */
  function DeleteKey(st: State, fileID: string): Option<string> {
    if fileID in st.manifests then Some(fileID)
    else if "default/" + fileID in st.manifests then Some("default/" + fileID)
    else None
  }

  function Remove(st: State, key: string): State { st.(manifests := st.manifests - {key}) }

  predicate InUse(st: State, bucket: string) {
    exists key | key in st.manifests :: st.manifests[key].namespace == bucket
  }

  function DropBucket(st: State, name: string): State {
    if name in st.buckets && !InUse(st, name) then st.(buckets := st.buckets - {name}) else st
  }

  /** All versions of a key, oldest first and the current one last. */
  function AllVersions(m: Manifest): seq<Manifest> { m.versions + [m] }

  function FindVersion(h: seq<Manifest>, versionID: string): Option<Manifest> {
    if h == [] then None else if h[0].versionID == versionID then Some(h[0]) else FindVersion(h[1..], versionID)
  }

  /** The versions of a file: those under its scoped key, or else under its plain name. */
  function VersionsAt(st: State, ns: string, fileID: string): Option<seq<Manifest>> {
    if ScopedKey(ns, fileID) in st.manifests then Some(AllVersions(st.manifests[ScopedKey(ns, fileID)]))
    else if fileID in st.manifests then Some(AllVersions(st.manifests[fileID]))
    else None
  }

  /** The first of these versions with this ID. */
  function VersionAt(st: State, ns: string, fileID: string, versionID: string): Option<Manifest> {
    match VersionsAt(st, ns, fileID)
    case Some(h) => FindVersion(h, versionID)
    case None => None
  }

  // Keys.

  function Scope(ns: string): string { if ns == "" then "default" else ns }

  /** The name of a file without its namespace in front. */
  function BareName(ns: string, fileID: string): string {
    if Scope(ns) + "/" <= fileID then fileID[|Scope(ns)| + 1..] else fileID
  }

  /** The second namespace is a path below the first, and the first name continues with the rest of that path. */
  ghost predicate Nested(outer: string, name: string, inner: string, innerName: string) {
    exists path :: inner == outer + "/" + path && name == path + "/" + innerName
  }

  /**
    * Two files share a key exactly when they have the same namespace and bare name, or one namespace is a path below
    * the other; so never across namespaces without slashes.
    */
  lemma SameKeyIff(a: string, f: string, b: string, g: string)
    ensures ScopedKey(a, f) == ScopedKey(b, g) <==>
            || (Scope(a) == Scope(b) && BareName(a, f) == BareName(b, g))
            || Nested(Scope(a), BareName(a, f), Scope(b), BareName(b, g))
            || Nested(Scope(b), BareName(b, g), Scope(a), BareName(a, f))
    ensures '/' !in Scope(a) && '/' !in Scope(b) ==>
      (ScopedKey(a, f) == ScopedKey(b, g) <==> Scope(a) == Scope(b) && BareName(a, f) == BareName(b, g))
  {
    KeyIsPath(a, f);
    KeyIsPath(b, g);
    hide ScopedKey; hide BareName; hide Scope;
    PathsAgree(Scope(a), BareName(a, f), Scope(b), BareName(b, g));
    PathsAgree(Scope(b), BareName(b, g), Scope(a), BareName(a, f));
  }

  lemma KeyIsPath(ns: string, fileID: string)
    ensures ScopedKey(ns, fileID) == Scope(ns) + "/" + BareName(ns, fileID)
  {}

  lemma PathsAgree(s: string, m: string, t: string, n: string)
    ensures |s| == |t| ==> (s + "/" + m == t + "/" + n <==> s == t && m == n)
    ensures |s| < |t| ==> (s + "/" + m == t + "/" + n <==> Nested(s, m, t, n))
    ensures Nested(s, m, t, n) ==> |s| < |t| && '/' in t
  {
    var x, y := s + "/" + m, t + "/" + n;
    if x == y {
      assert x[..|s|] == s && y[..|t|] == t && x[|s| + 1..] == m && y[|t| + 1..] == n;
      if |s| < |t| {
        var path := t[|s| + 1..];
        assert x[|s|] == '/' && t[..|s|] == y[..|s|];
        assert t == s + "/" + path;
        assert m == path + "/" + n;
      }
    }
    forall path | t == s + "/" + path ensures '/' in t && s + "/" + (path + "/" + n) == y { assert t[|s|] == '/'; }
  }

  lemma {:induction false} FindVersionIn(h: seq<Manifest>, id: string)
    ensures FindVersion(h, id).Some? <==> id in VersionIDs(h)
    ensures FindVersion(h, id).Some? ==> FindVersion(h, id).value in h && FindVersion(h, id).value.versionID == id
  {
    if h != [] { FindVersionIn(h[1..], id); }
  }

  /**
    * For all IDs, what is found is what lies under the scoped key, exactly when something lies there or the plain name
    * is no key of another file.
    */
  lemma FoundUnderKeyIff(st: State, ns: string, fileID: string)
    ensures (forall id :: VersionAt(st, ns, fileID, id).Some? <==> HasVersion(st, ScopedKey(ns, fileID), id)) <==>
            ScopedKey(ns, fileID) in st.manifests || fileID !in st.manifests
  {
    hide ScopedKey;
    forall id, key | key in st.manifests
      ensures FindVersion(AllVersions(st.manifests[key]), id).Some? <==> HasVersion(st, key, id)
    {
      FindVersionIn(AllVersions(st.manifests[key]), id);
    }
    if ScopedKey(ns, fileID) !in st.manifests && fileID in st.manifests {
      var m := st.manifests[fileID];
      assert m in AllVersions(m);
      assert HasVersion(st, fileID, m.versionID) && VersionAt(st, ns, fileID, m.versionID).Some?;
    }
  }

  ghost predicate HasVersion(st: State, key: string, id: string) {
    key in st.manifests && id in VersionIDs(AllVersions(st.manifests[key]))
  }

  /** Asking a namespace for a file name that is a key of another one gives the other one's versions. */
  lemma OtherNamespaceAnswers(st: State, id: string)
    requires "logs/default/a" !in st.manifests && "default/a" in st.manifests
    ensures VersionAt(st, "logs", "default/a", id) == VersionAt(st, "default", "a", id)
  {
    OtherKeys();
    hide ScopedKey;
  }

  lemma OtherKeys()
    ensures ScopedKey("logs", "default/a") == "logs/default/a" && ScopedKey("default", "a") == "default/a"
  {
    var f, p := "default/a", "logs/";
    assert f[0] == 'd' && p[0] == 'l';
    assert "logs" + "/" == p && "default" + "/" == "default/";
    assert |"default/"| > |"a"|;
  }

  // Laws of the history.

  /** Its ID is neither the current one, nor in the history, nor that of a candidate before it. */
  ghost function Unseen(history: seq<Manifest>, more: seq<Manifest>, current: string): int -> bool {
    i => 0 <= i < |more| && more[i].versionID != current && more[i].versionID !in VersionIDs(history)
         && more[i].versionID !in VersionIDs(more[..i])
  }

  /** The history stays, and the unseen candidates follow in their order. */
  lemma {:induction false} AppendUnseenSelects(history: seq<Manifest>, more: seq<Manifest>, current: string,
                                               pick: int -> bool)
    requires forall i | 0 <= i < |more| :: pick(i) <==> Unseen(history, more, current)(i)
    ensures var r := AppendUnseen(history, more, current);
            history <= r && Selects(r[|history|..], more, pick)
  {
    hide Selects; hide VersionIDs;
    AppendUnseenExtends(history, more, current);
    if more == [] {
      SelectsNothing<Manifest>(pick);
      assert AppendUnseen(history, more, current)[|history|..] == [];
    } else {
      var n := |more| - 1;
      forall i | 0 <= i < n ensures pick(i) <==> Unseen(history, more[..n], current)(i) {
        assert more[..n][..i] == more[..i];
      }
      AppendUnseenSelects(history, more[..n], current, pick);
      var r := AppendUnseen(history, more[..n], current);
      AppendUnseenIDs(history, more[..n], current);
      AppendInTwo(history, more[..n], [more[n]], current);
      assert more == more[..n] + [more[n]];
      AppendOne(r, more[n], current);
      SelectsOneMore(r[|history|..], more[..n], more[n], pick);
      assert AppendUnseen(history, more, current)[|history|..]
          == r[|history|..] + if pick(n) then [more[n]] else [];
    }
  }

  lemma AppendOne(history: seq<Manifest>, m: Manifest, current: string)
    ensures AppendUnseen(history, [m], current) ==
            history + if m.versionID !in VersionIDs(history) && m.versionID != current then [m] else []
  {
    hide VersionIDs;
    assert [m][1..] == [];
    assert AppendUnseen(history + [m], [], current) == history + [m] && AppendUnseen(history, [], current) == history;
    assert history + [] == history;
  }

  /**
    * Recording over a manifest archives: first what was archived, then, each ID once and never that of the current
    * version, the manifest replaced and the versions that came with the new one.
    */
  lemma ArchiveIs(existing: Manifest, m: Manifest)
    ensures var bare := existing.(versions := []); var candidates := [bare] + m.versions;
            var r := MergedHistory(existing, m);
            && existing.versions <= r
            && Selects(r[|existing.versions|..], candidates, Unseen(existing.versions, candidates, m.versionID))
  {
    hide Selects; hide VersionIDs;
    var bare := existing.(versions := []);
    AppendInTwo(existing.versions, [bare], m.versions, m.versionID);
    AppendUnseenSelects(existing.versions, [bare] + m.versions, m.versionID,
                        Unseen(existing.versions, [bare] + m.versions, m.versionID));
  }

  lemma {:induction false} AppendUnseenExtends(history: seq<Manifest>, more: seq<Manifest>, current: string)
    ensures history <= AppendUnseen(history, more, current)
    ensures forall m | m in AppendUnseen(history, more, current) :: m in history || m in more
    decreases |more|
  {
    hide VersionIDs;
    if more != [] {
      AppendUnseenExtends(history + [more[0]], more[1..], current);
      AppendUnseenExtends(history, more[1..], current);
    }
  }

  lemma {:induction false} AppendUnseenIDs(history: seq<Manifest>, more: seq<Manifest>, current: string)
    ensures VersionIDs(AppendUnseen(history, more, current)) == VersionIDs(history) + (VersionIDs(more) - {current})
    decreases |more|
  {
    hide VersionIDs;
    if more == [] {
      NoIDs();
    } else {
      IDsOfConcat(history, [more[0]]);
      IDsOfConcat([more[0]], more[1..]);
      assert [more[0]] + more[1..] == more;
      AppendUnseenIDs(history + [more[0]], more[1..], current);
      AppendUnseenIDs(history, more[1..], current);
    }
  }

  lemma NoIDs()
    ensures VersionIDs([]) == {}
  {}

  lemma IDsOfConcat(a: seq<Manifest>, b: seq<Manifest>)
    ensures VersionIDs(a + b) == VersionIDs(a) + VersionIDs(b)
    ensures |b| == 1 ==> VersionIDs(b) == {b[0].versionID}
  {
    assert |b| == 1 ==> b == [b[0]];
  }

  lemma {:induction false} AppendSeen(history: seq<Manifest>, more: seq<Manifest>, current: string)
    requires VersionIDs(more) <= VersionIDs(history) + {current}
    ensures AppendUnseen(history, more, current) == history
    decreases |more|
  {
    if more != [] {
      assert more[0].versionID in VersionIDs(more);
      assert VersionIDs(more[1..]) <= VersionIDs(more);
      AppendSeen(history, more[1..], current);
    }
  }

  lemma {:induction false} AppendInTwo(history: seq<Manifest>, a: seq<Manifest>, b: seq<Manifest>, current: string)
    ensures AppendUnseen(history, a + b, current) == AppendUnseen(AppendUnseen(history, a, current), b, current)
    decreases |a|
  {
    if a == [] {
      assert a + b == b;
    } else {
      var unseen := a[0].versionID !in VersionIDs(history) && a[0].versionID != current;
      var next := if unseen then history + [a[0]] else history;
      assert (a + b)[1..] == a[1..] + b;
      AppendInTwo(next, a[1..], b, current);
    }
  }

  /** Appending what was appended, to the same history, gives the same. */
  lemma {:induction false} AppendAgain(history: seq<Manifest>, more: seq<Manifest>, current: string)
    ensures var r := AppendUnseen(history, more, current);
            |r| >= |history| && AppendUnseen(history, r[|history|..], current) == r
    decreases |more|
  {
    AppendUnseenExtends(history, more, current);
    var r := AppendUnseen(history, more, current);
    if more == [] {
      assert r[|history|..] == [];
    } else if more[0].versionID !in VersionIDs(history) && more[0].versionID != current {
      var next := history + [more[0]];
      AppendAgain(next, more[1..], current);
      AppendUnseenExtends(next, more[1..], current);
      assert r[|history|..] == [more[0]] + r[|next|..];
    } else {
      AppendAgain(history, more[1..], current);
    }
  }

  /** Merging the merged history again changes nothing: recording a recorded manifest is idempotent. */
  lemma MergeIdempotent(existing: Manifest, m: Manifest)
    ensures MergedHistory(existing, m.(versions := MergedHistory(existing, m))) == MergedHistory(existing, m)
  {
    hide VersionIDs;
    var base := AppendUnseen(existing.versions, [existing.(versions := [])], m.versionID);
    var h := AppendUnseen(base, m.versions, m.versionID);
    AppendUnseenExtends(base, m.versions, m.versionID);
    AppendAgain(base, m.versions, m.versionID);
    assert h == base + h[|base|..];
    AppendInTwo(base, base, h[|base|..], m.versionID);
    AppendSeenSelf(base, m.versionID);
  }

  lemma AppendSeenSelf(history: seq<Manifest>, current: string)
    ensures AppendUnseen(history, history, current) == history
  {
    AppendSeen(history, history, current);
  }
}
