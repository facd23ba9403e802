/** A repair pass over all manifests: fetching from survivors, copying, and updating the store. */
module RepairPass {
  import opened Bytes
  import opened Disks
  import opened Lexicographic
  import opened Manifests
  import opened WalRecords
  import opened MetadataStore
  import opened Ring
  import opened Repair
  import opened Selections
  import opened Wrappers

  /** Which nodes answer a read of a chunk, which acknowledge a write of it, and which store it unacknowledged. */
  datatype Network = Network(
    up: (string, string) -> bool,
    acks: (string, string) -> bool,
    stores: (string, string) -> bool)

  datatype Setting = Setting(dead: string, N: nat, local: string, targets: string -> seq<string>, net: Network) {

    function Acking(c: string): string -> bool { t => net.acks(t, c) }

    function NeedsCopy(c: string, locs: seq<string>): bool { Needs(locs, dead, targets(c), N, local) }

    function CopyTargets(c: string, locs: seq<string>): seq<string> { Missing(targets(c), Alive(locs, dead)) }

    function After(c: string, locs: seq<string>): seq<string> { NewLocations(locs, dead, targets(c), Acking(c)) }
  }

  datatype Pass = Pass(st: State, log: seq<WALRecord>, disks: Disks, repaired: nat)

  /** The bytes that the first answering survivor returns. */
  function Fetched(disks: Disks, net: Network, c: string, survivors: seq<string>): Option<seq<Byte>> {
    if survivors == [] then None
    else if net.up(survivors[0], c) && (survivors[0], c) in disks then Some(disks[(survivors[0], c)])
    else Fetched(disks, net, c, survivors[1..])
  }

  function Written(disks: Disks, net: Network, c: string, data: seq<Byte>, targets: seq<string>): Disks {
    if targets == [] then disks
    else
      var n := |targets| - 1;
      var rest := Written(disks, net, c, data, targets[..n]);
      if net.acks(targets[n], c) || net.stores(targets[n], c) then StoreOnce(rest, targets[n], c, data) else rest
  }

  /** One chunk of one manifest. */
  function Visit(e: Setting, p: Pass, c: string, locs: seq<string>): Pass {
    if !e.NeedsCopy(c, locs) then p
    else
      match Fetched(p.disks, e.net, c, SortedStrings(Alive(locs, e.dead)))
      case None => p
      case Some(data) =>
        Pass(UpdateLocations(p.st, c, e.After(c, locs)), p.log + [UpdateLocationsRecord(c, e.After(c, locs))],
             Written(p.disks, e.net, c, data, e.CopyTargets(c, locs)),
             p.repaired + |Copied(e.CopyTargets(c, locs), e.Acking(c))|)
  }

  /** These are chunks of these manifests. */
  predicate Listed(ms: map<string, Manifest>, visits: seq<(string, string)>) {
    forall v | v in visits :: v.0 in ms && v.1 in ms[v.0].chunkLocations
  }

  /** Visits chunks of a snapshot one after the other: each pair names a manifest and a chunk of it. */
  function VisitAll(e: Setting, ms: map<string, Manifest>, p: Pass, visits: seq<(string, string)>): Pass
    requires Listed(ms, visits)
  {
    if visits == [] then p
    else
      var n := |visits| - 1;
      var (key, c) := visits[n];
      Visit(e, VisitAll(e, ms, p, visits[..n]), c, ms[key].chunkLocations[c])
  }

  // Disks.

  lemma {:induction false} WrittenContents(disks: Disks, net: Network, c: string, data: seq<Byte>, targets: seq<string>)
    ensures var r := Written(disks, net, c, data, targets);
            forall k: (string, string) ::
              var wrote := k.1 == c && k.0 in targets && (net.acks(k.0, c) || net.stores(k.0, c));
              && (k in r <==> k in disks || wrote)
              && (k in r ==> r[k] == if k in disks then disks[k] else data)
  {
    if targets != [] {
      var n := |targets| - 1;
      WrittenContents(disks, net, c, data, targets[..n]);
      assert targets == targets[..n] + [targets[n]];
    }
  }

  ghost predicate Answers(disks: Disks, net: Network, c: string, node: string) {
    net.up(node, c) && (node, c) in disks
  }

  lemma {:induction false} FetchedIsHeld(disks: Disks, net: Network, c: string, survivors: seq<string>)
    ensures Fetched(disks, net, c, survivors).Some? <==> exists s | s in survivors :: Answers(disks, net, c, s)
    ensures Fetched(disks, net, c, survivors).Some? ==>
              exists s | s in survivors ::
                Answers(disks, net, c, s) && Fetched(disks, net, c, survivors).value == disks[(s, c)]
  {
    if survivors != [] {
      assert survivors == [survivors[0]] + survivors[1..];
      if Answers(disks, net, c, survivors[0]) {
      } else {
        FetchedIsHeld(disks, net, c, survivors[1..]);
      }
    }
  }

  /** Every stored copy of a chunk is that chunk's content. */
  ghost predicate Sound(disks: Disks, content: string -> seq<Byte>) {
    forall k | k in disks :: disks[k] == content(k.1)
  }

  lemma VisitKeepsSound(e: Setting, p: Pass, c: string, locs: seq<string>, content: string -> seq<Byte>)
    requires Sound(p.disks, content)
    ensures Sound(Visit(e, p, c, locs).disks, content)
  {
    hide Needs; hide NewLocations; hide UpdateLocations; hide Missing; hide Copied; hide SortedStrings;
    var survivors := SortedStrings(Alive(locs, e.dead));
    FetchedIsHeld(p.disks, e.net, c, survivors);
    if e.NeedsCopy(c, locs) && Fetched(p.disks, e.net, c, survivors).Some? {
      WrittenContents(p.disks, e.net, c, Fetched(p.disks, e.net, c, survivors).value, e.CopyTargets(c, locs));
    }
  }

  /** A pass stores nothing but the content of the chunk. */
  lemma {:induction false} PassKeepsSound(e: Setting, ms: map<string, Manifest>, p: Pass, visits: seq<(string, string)>,
                                          content: string -> seq<Byte>)
    requires Listed(ms, visits) && Sound(p.disks, content)
    ensures Sound(VisitAll(e, ms, p, visits).disks, content)
  {
    hide Visit; hide Sound;
    if visits != [] {
      var n := |visits| - 1;
      PassKeepsSound(e, ms, p, visits[..n], content);
      VisitKeepsSound(e, VisitAll(e, ms, p, visits[..n]), visits[n].1, ms[visits[n].0].chunkLocations[visits[n].1],
                      content);
    }
  }

  // Recorded locations hold their chunks.

  ghost predicate Held(disks: Disks, dead: string, c: string, locs: seq<string>) {
    forall x | x in locs && x != dead :: (x, c) in disks
  }

  ghost predicate HostedHere(m: Manifest, disks: Disks, dead: string) {
    forall c | c in m.chunkLocations :: Held(disks, dead, c, m.chunkLocations[c])
  }

  ghost predicate Hosted(m: Manifest, disks: Disks, dead: string) {
    HostedHere(m, disks, dead) && forall v | v in m.versions :: HostedHere(v, disks, dead)
  }

  /** Every location but the dead node, of every chunk of every current and archived version, holds the chunk. */
  ghost predicate AllHosted(ms: map<string, Manifest>, disks: Disks, dead: string) {
    forall key | key in ms :: Hosted(ms[key], disks, dead)
  }

  lemma MoreDisksHost(ms: map<string, Manifest>, disks: Disks, more: Disks, dead: string)
    requires AllHosted(ms, disks, dead) && disks.Keys <= more.Keys
    ensures AllHosted(ms, more, dead)
  {
    forall key | key in ms ensures Hosted(ms[key], more, dead) { MoreDisksHostOne(ms[key], disks, more, dead); }
  }

  lemma MoreDisksHostOne(m: Manifest, disks: Disks, more: Disks, dead: string)
    requires Hosted(m, disks, dead) && disks.Keys <= more.Keys
    ensures Hosted(m, more, dead)
  {}

  lemma RelocatedIsHosted(m: Manifest, disks: Disks, dead: string, c: string, locs: seq<string>)
    requires Hosted(m, disks, dead) && Held(disks, dead, c, locs)
    ensures Hosted(Relocated(m, c, locs), disks, dead)
  {
    hide Held;
    var r := Relocated(m, c, locs);
    assert |r.versions| == |m.versions|;
    forall v | v in r.versions ensures HostedHere(v, disks, dead) {
      var i :| 0 <= i < |r.versions| && r.versions[i] == v;
      assert m.versions[i] in m.versions && v == RelocatedHere(m.versions[i], c, locs);
    }
  }

  lemma AfterIsHeld(e: Setting, disks: Disks, c: string, locs: seq<string>, data: seq<Byte>)
    requires Held(disks, e.dead, c, locs)
    ensures Held(Written(disks, e.net, c, data, e.CopyTargets(c, locs)), e.dead, c, e.After(c, locs))
  {
    hide Missing; hide Copied; hide SortedStrings; hide Alive; hide Written;
    WrittenContents(disks, e.net, c, data, e.CopyTargets(c, locs));
    AliveMembers(locs, e.dead);
    SortedMembers(Alive(locs, e.dead));
    CopiedMembers(e.CopyTargets(c, locs), e.Acking(c));
  }

  lemma VisitKeepsHosted(e: Setting, p: Pass, c: string, locs: seq<string>)
    requires AllHosted(p.st.manifests, p.disks, e.dead) && Held(p.disks, e.dead, c, locs)
    ensures var q := Visit(e, p, c, locs); AllHosted(q.st.manifests, q.disks, e.dead) && p.disks.Keys <= q.disks.Keys
  {
    hide Needs; hide NewLocations; hide Relocated; hide Fetched; hide Written; hide Hosted; hide Held;
    hide SortedStrings;
    var q := Visit(e, p, c, locs);
    if q != p {
      var survivors := SortedStrings(Alive(locs, e.dead));
      var data := Fetched(p.disks, e.net, c, survivors).value;
      WrittenContents(p.disks, e.net, c, data, e.CopyTargets(c, locs));
      MoreDisksHost(p.st.manifests, p.disks, q.disks, e.dead);
      AfterIsHeld(e, p.disks, c, locs, data);
      forall key | key in q.st.manifests ensures Hosted(q.st.manifests[key], q.disks, e.dead) {
        RelocatedIsHosted(p.st.manifests[key], q.disks, e.dead, c, e.After(c, locs));
      }
    }
  }

  /** A pass lists only nodes that hold the chunk: in the current manifests and in their archived versions. */
  lemma {:induction false} PassKeepsHosted(e: Setting, ms: map<string, Manifest>, p: Pass,
                                           visits: seq<(string, string)>)
    requires Listed(ms, visits) && AllHosted(ms, p.disks, e.dead) && AllHosted(p.st.manifests, p.disks, e.dead)
    ensures var q := VisitAll(e, ms, p, visits);
            AllHosted(q.st.manifests, q.disks, e.dead) && p.disks.Keys <= q.disks.Keys
  {
    hide Visit; hide Held;
    if visits != [] {
      var n := |visits| - 1;
      var (key, c) := visits[n];
      PassKeepsHosted(e, ms, p, visits[..n]);
      var q := VisitAll(e, ms, p, visits[..n]);
      MoreDisksHost(ms, p.disks, q.disks, e.dead);
      VisitKeepsHosted(e, q, c, ms[key].chunkLocations[c]);
    }
  }

  // The locations after a pass.

  function VisitPlan(e: Setting, p: Pass, plan: map<string, seq<string>>, c: string,
                     locs: seq<string>): map<string, seq<string>> {
    if e.NeedsCopy(c, locs) && Fetched(p.disks, e.net, c, SortedStrings(Alive(locs, e.dead))).Some?
    then plan[c := e.After(c, locs)] else plan
  }

  function Plan(e: Setting, ms: map<string, Manifest>, p: Pass, visits: seq<(string, string)>): map<string, seq<string>>
    requires Listed(ms, visits)
  {
    if visits == [] then map[]
    else
      var n := |visits| - 1;
      var (key, c) := visits[n];
      VisitPlan(e, VisitAll(e, ms, p, visits[..n]), Plan(e, ms, p, visits[..n]), c, ms[key].chunkLocations[c])
  }

  lemma VisitFollowsPlan(e: Setting, st: State, p: Pass, plan: map<string, seq<string>>, c: string, locs: seq<string>)
    requires p.st == MovedState(st, plan)
    ensures Visit(e, p, c, locs).st == MovedState(st, VisitPlan(e, p, plan, c, locs))
  {
    hide Needs; hide NewLocations; hide UpdateLocations; hide Fetched; hide Written; hide SortedStrings;
    MovedStateOneMore(st, plan, c, e.After(c, locs));
  }

  /** A pass does nothing to the metadata but move chunks, each to one list of locations everywhere. */
  lemma {:induction false} PassFollowsPlan(e: Setting, ms: map<string, Manifest>, p: Pass,
                                           visits: seq<(string, string)>)
    requires Listed(ms, visits)
    ensures VisitAll(e, ms, p, visits).st == MovedState(p.st, Plan(e, ms, p, visits))
  {
    hide Visit; hide MovedState; hide VisitPlan;
    if visits == [] {
      MovedStateNowhere(p.st);
    } else {
      var n := |visits| - 1;
      var (key, c) := visits[n];
      PassFollowsPlan(e, ms, p, visits[..n]);
      VisitFollowsPlan(e, p.st, VisitAll(e, ms, p, visits[..n]), Plan(e, ms, p, visits[..n]), c,
                       ms[key].chunkLocations[c]);
    }
  }

  /** Every manifest of the snapshot that has the chunk records these locations. */
  ghost predicate Agreed(ms: map<string, Manifest>, c: string, locs: seq<string>) {
    forall key | key in ms && c in ms[key].chunkLocations :: ms[key].chunkLocations[c] == locs
  }

  /** A survivor answers with the chunk. */
  ghost predicate Survives(e: Setting, disks: Disks, c: string, locs: seq<string>) {
    exists s | s in Alive(locs, e.dead) :: Answers(disks, e.net, c, s)
  }

  lemma SurvivorIsFetched(e: Setting, disks: Disks, more: Disks, c: string, locs: seq<string>)
    requires Survives(e, disks, c, locs) && disks.Keys <= more.Keys
    ensures Fetched(more, e.net, c, SortedStrings(Alive(locs, e.dead))).Some?
  {
    hide Alive; hide SortedStrings; hide Fetched;
    var survivors := SortedStrings(Alive(locs, e.dead));
    SortedMembers(Alive(locs, e.dead));
    FetchedIsHeld(more, e.net, c, survivors);
    var s :| s in Alive(locs, e.dead) && Answers(disks, e.net, c, s);
    assert s in survivors && Answers(more, e.net, c, s);
  }

  /** A visited chunk is in the plan exactly when it needs a copy, and then with the locations of the decision. */
  lemma {:induction false} PlanOfChunk(e: Setting, ms: map<string, Manifest>, p: Pass, visits: seq<(string, string)>,
                                       c: string, locs: seq<string>)
    requires Listed(ms, visits) && Agreed(ms, c, locs) && Survives(e, p.disks, c, locs)
    ensures var plan := Plan(e, ms, p, visits);
            && (c in plan <==> e.NeedsCopy(c, locs) && exists v | v in visits :: v.1 == c)
            && (c in plan ==> plan[c] == e.After(c, locs))
  {
    hide Visit; hide Needs; hide NewLocations; hide Fetched; hide SortedStrings; hide Survives; hide Alive;
    if visits != [] {
      var n := |visits| - 1;
      PlanOfChunk(e, ms, p, visits[..n], c, locs);
      assert visits == visits[..n] + [visits[n]];
      if visits[n].1 == c {
        PassKeepsDisks(e, ms, p, visits[..n]);
        SurvivorIsFetched(e, p.disks, VisitAll(e, ms, p, visits[..n]).disks, c, locs);
      }
    }
  }

  lemma PassKeepsDisks(e: Setting, ms: map<string, Manifest>, p: Pass, visits: seq<(string, string)>)
    requires Listed(ms, visits)
    ensures p.disks.Keys <= VisitAll(e, ms, p, visits).disks.Keys
  {
    hide Visit;
    if visits != [] {
      var n := |visits| - 1;
      var (key, c) := visits[n];
      PassKeepsDisks(e, ms, p, visits[..n]);
      VisitKeepsDisks(e, VisitAll(e, ms, p, visits[..n]), c, ms[key].chunkLocations[c]);
    }
  }

  lemma VisitKeepsDisks(e: Setting, p: Pass, c: string, locs: seq<string>)
    ensures p.disks.Keys <= Visit(e, p, c, locs).disks.Keys
  {
    hide Needs; hide NewLocations; hide UpdateLocations; hide Fetched; hide Written; hide SortedStrings; hide Missing;
    hide Copied;
    var survivors := SortedStrings(Alive(locs, e.dead));
    if e.NeedsCopy(c, locs) && Fetched(p.disks, e.net, c, survivors).Some? {
      WrittenContents(p.disks, e.net, c, Fetched(p.disks, e.net, c, survivors).value, e.CopyTargets(c, locs));
    }
  }

  /** Every chunk of every manifest is visited. */
  ghost predicate Covers(ms: map<string, Manifest>, visits: seq<(string, string)>) {
    forall key, c | key in ms && c in ms[key].chunkLocations :: (key, c) in visits
  }

  /**
    * A pass over the manifests as they are finds this chunk with distinct locations on which all manifests agree;
    * the recorded holders hold their chunks, a survivor of this one answers, and this node is elected for it.
    */
  ghost predicate Repairable(e: Setting, p: Pass, visits: seq<(string, string)>, key: string, c: string) {
    var ms := p.st.manifests;
    && Listed(ms, visits) && Covers(ms, visits) && AllHosted(ms, p.disks, e.dead)
    && key in ms && c in ms[key].chunkLocations
    && var locs := ms[key].chunkLocations[c];
    && Agreed(ms, c, locs) && Distinct(locs)
    && Survives(e, p.disks, c, locs) && Elected(e.local, Alive(locs, e.dead))
  }

  /**
    * After a pass in which the ring's targets acknowledge their copies, the chunk has, besides the dead node, as many
    * locations as the ring has targets for it; every survivor is among them, and every one of them holds the chunk.
    */
  lemma PassRestores(e: Setting, p: Pass, visits: seq<(string, string)>, key: string, c: string)
    requires Repairable(e, p, visits, key, c)
    requires Distinct(e.targets(c)) && |e.targets(c)| <= e.N && e.dead !in e.targets(c)
    requires forall t | t in e.targets(c) :: e.net.acks(t, c)
    ensures var q := VisitAll(e, p.st.manifests, p, visits);
            && key in q.st.manifests && c in q.st.manifests[key].chunkLocations
            && var final := AsSet(q.st.manifests[key].chunkLocations[c]) - {e.dead};
            && AsSet(Alive(p.st.manifests[key].chunkLocations[c], e.dead)) <= final
            && |final| >= |e.targets(c)|
            && forall x | x in final :: (x, c) in q.disks
  {
    hide Elected; hide Alive; hide NewLocations; hide Survives; hide VisitAll; hide Needs; hide AsSet; hide AllHosted;
    hide Agreed; hide Covers; hide Distinct;
    var ms := p.st.manifests;
    var locs := ms[key].chunkLocations[c];
    SurvivorsExist(e, p.disks, c, locs);
    LocationsAfterPass(e, p, visits, key, c);
    RepairRestores(locs, e.dead, e.targets(c), e.N, e.local, e.Acking(c));
    PassKeepsHosted(e, ms, p, visits);
    HostedLocations(VisitAll(e, ms, p, visits).st.manifests, VisitAll(e, ms, p, visits).disks, e.dead, key, c);
  }

  lemma SurvivorsExist(e: Setting, disks: Disks, c: string, locs: seq<string>)
    requires Survives(e, disks, c, locs)
    ensures Alive(locs, e.dead) != []
  {}

  lemma LocationsAfterPass(e: Setting, p: Pass, visits: seq<(string, string)>, key: string, c: string)
    requires var ms := p.st.manifests;
             && Listed(ms, visits) && Covers(ms, visits)
             && key in ms && c in ms[key].chunkLocations
             && Agreed(ms, c, ms[key].chunkLocations[c]) && Survives(e, p.disks, c, ms[key].chunkLocations[c])
    ensures var q := VisitAll(e, p.st.manifests, p, visits);
            && key in q.st.manifests && c in q.st.manifests[key].chunkLocations
            && q.st.manifests[key].chunkLocations[c]
                 == FinalLocations(p.st.manifests[key].chunkLocations[c], e.dead, e.targets(c), e.N, e.local,
                                   e.Acking(c))
  {
    hide Elected; hide Alive; hide NewLocations; hide Survives; hide VisitAll; hide Needs; hide Plan; hide Agreed;
    var ms := p.st.manifests;
    PassFollowsPlan(e, ms, p, visits);
    PlanOfChunk(e, ms, p, visits, c, ms[key].chunkLocations[c]);
    assert (key, c) in visits && (key, c).1 == c;
  }

  lemma HostedLocations(ms: map<string, Manifest>, disks: Disks, dead: string, key: string, c: string)
    requires AllHosted(ms, disks, dead) && key in ms && c in ms[key].chunkLocations
    ensures forall x | x in AsSet(ms[key].chunkLocations[c]) - {dead} :: (x, c) in disks
  {}

  // What a pass does for one chunk.

  ghost predicate SkipsChunk(e: Setting, c: string, locs: seq<string>) {
    Skips(locs, e.dead, e.targets(c), e.N, e.local)
  }

  /** The least survivor that answers with the chunk. */
  ghost predicate LeastAnswering(e: Setting, disks: Disks, c: string, locs: seq<string>, s: string) {
    && s in locs && s != e.dead && Answers(disks, e.net, c, s)
    && forall x | x in locs && x != e.dead && x != s && Answers(disks, e.net, c, x) :: Less(s, x)
  }

  /** The targets that are no survivors and acknowledge or store their copy have the chunk now; nothing else changed. */
  ghost predicate Copies(e: Setting, c: string, locs: seq<string>, before: Disks, after: Disks, data: seq<Byte>) {
    forall k: (string, string) ::
      var wrote := k.1 == c && k.0 in e.targets(c) && (k.0 !in locs || k.0 == e.dead)
                   && (e.net.acks(k.0, c) || e.net.stores(k.0, c));
      && (k in after <==> k in before || wrote)
      && (k in after ==> after[k] == if k in before then before[k] else data)
  }

  /** The chunk was copied from this survivor, its locations were replaced everywhere, and that was logged once. */
  ghost predicate Repaired(e: Setting, p: Pass, q: Pass, c: string, locs: seq<string>, source: string,
                           list: seq<string>)
  {
    && LeastAnswering(e, p.disks, c, locs, source) && Copies(e, c, locs, p.disks, q.disks, p.disks[(source, c)])
    && IsNewList(list, locs, e.dead, e.targets(c), e.Acking(c))
    && q.st == UpdateLocations(p.st, c, list) && q.log == p.log + [UpdateLocationsRecord(c, list)]
    && q.repaired == p.repaired + Count(NewCopy(locs, e.dead, e.targets(c), e.Acking(c)), |e.targets(c)|)
  }

  /** A visit does nothing when the list is skipped or no survivor answers, and else repairs the chunk. */
  lemma VisitIff(e: Setting, p: Pass, c: string, locs: seq<string>)
    ensures var q := Visit(e, p, c, locs);
            if SkipsChunk(e, c, locs) || (forall s | s in locs && s != e.dead :: !Answers(p.disks, e.net, c, s))
            then q == p
            else exists source, list :: Repaired(e, p, q, c, locs, source, list)
  {
    hide Needs; hide Skips; hide UpdateLocations; hide SortedStrings; hide NewLocations; hide Written; hide Missing;
    hide Alive; hide Copied; hide IsNewList; hide Count; hide Fetched; hide Answers; hide Ascending; hide Less;
    hide NewCopy;
    NeedsIff(locs, e.dead, e.targets(c), e.N, e.local);
    var alive := Alive(locs, e.dead);
    var survivors := SortedStrings(alive);
    AliveMembers(locs, e.dead);
    SortedMembers(alive);
    FetchedIsHeld(p.disks, e.net, c, survivors);
    if e.NeedsCopy(c, locs) && Fetched(p.disks, e.net, c, survivors).Some? {
      var source := FetchedFirst(e, p.disks, c, locs);
      CopiesWritten(e, p.disks, c, locs, p.disks[(source, c)]);
      NewLocationsAre(locs, e.dead, e.targets(c), e.Acking(c));
      assert Repaired(e, p, Visit(e, p, c, locs), c, locs, source, e.After(c, locs));
    }
  }

  lemma CopiesWritten(e: Setting, disks: Disks, c: string, locs: seq<string>, data: seq<Byte>)
    ensures Copies(e, c, locs, disks, Written(disks, e.net, c, data, e.CopyTargets(c, locs)), data)
  {
    hide Missing; hide Alive; hide Written;
    WrittenContents(disks, e.net, c, data, e.CopyTargets(c, locs));
    AliveMembers(locs, e.dead);
    MissingMembers(e.targets(c), Alive(locs, e.dead));
  }

  lemma {:induction false} FetchedAt(disks: Disks, net: Network, c: string, survivors: seq<string>) returns (k: nat)
    requires Fetched(disks, net, c, survivors).Some?
    ensures k < |survivors| && Answers(disks, net, c, survivors[k])
    ensures Fetched(disks, net, c, survivors).value == disks[(survivors[k], c)]
    ensures forall j | 0 <= j < k :: !Answers(disks, net, c, survivors[j])
  {
    k := 0;
    if !Answers(disks, net, c, survivors[0]) {
      k := FetchedAt(disks, net, c, survivors[1..]);
      forall j | 0 <= j < k + 1 ensures !Answers(disks, net, c, survivors[j]) {
        if j > 0 { assert survivors[1..][j - 1] == survivors[j]; }
      }
      k := k + 1;
    }
  }

  lemma FetchedFirst(e: Setting, disks: Disks, c: string, locs: seq<string>) returns (source: string)
    requires Fetched(disks, e.net, c, SortedStrings(Alive(locs, e.dead))).Some?
    ensures LeastAnswering(e, disks, c, locs, source) && (source, c) in disks
    ensures Fetched(disks, e.net, c, SortedStrings(Alive(locs, e.dead))).value == disks[(source, c)]
  {
    hide Alive; hide SortedStrings; hide Fetched; hide Less;
    var survivors := SortedStrings(Alive(locs, e.dead));
    AliveMembers(locs, e.dead);
    SortedMembers(Alive(locs, e.dead));
    var k := FetchedAt(disks, e.net, c, survivors);
    source := survivors[k];
    assert source in survivors;
    forall x | x in locs && x != e.dead && x != source && Answers(disks, e.net, c, x) ensures Less(source, x) {
      assert x in survivors;
      var i :| 0 <= i < |survivors| && survivors[i] == x;
      assert i > k;
      Trichotomy(source, x);
    }
  }

  /** Nothing about this chunk changed: neither its locations nor its files, and no record of it was logged. */
  ghost predicate Untouched(p: Pass, q: Pass, c: string) {
    && p.st.manifests.Keys == q.st.manifests.Keys
    && (forall key | key in p.st.manifests :: SameChunk(p.st.manifests[key], q.st.manifests[key], c))
    && (forall node :: (node, c) in p.disks <==> (node, c) in q.disks)
    && (forall node | (node, c) in p.disks :: p.disks[(node, c)] == q.disks[(node, c)])
    && p.log <= q.log
    && forall i | |p.log| <= i < |q.log| :: q.log[i].UpdateLocationsRecord? && q.log[i].chunkID != c
  }

  ghost predicate SameChunk(a: Manifest, b: Manifest, c: string) {
    && SameChunkHere(a, b, c) && |a.versions| == |b.versions|
    && forall i | 0 <= i < |a.versions| :: SameChunkHere(a.versions[i], b.versions[i], c)
  }

  ghost predicate SameChunkHere(a: Manifest, b: Manifest, c: string) {
    && (c in a.chunkLocations <==> c in b.chunkLocations)
    && (c in a.chunkLocations ==> a.chunkLocations[c] == b.chunkLocations[c])
  }

  lemma UntouchedAtAll(p: Pass, c: string)
    ensures Untouched(p, p, c)
  {}

  lemma UntouchedTransitive(p: Pass, q: Pass, r: Pass, c: string)
    requires Untouched(p, q, c) && Untouched(q, r, c)
    ensures Untouched(p, r, c)
  {
    hide SameChunkHere;
    forall key | key in p.st.manifests ensures SameChunk(p.st.manifests[key], r.st.manifests[key], c) {
      SameChunkTransitive(p.st.manifests[key], q.st.manifests[key], r.st.manifests[key], c);
    }
    forall i | |p.log| <= i < |r.log| ensures r.log[i].UpdateLocationsRecord? && r.log[i].chunkID != c {
      if i < |q.log| { assert r.log[i] == q.log[i]; }
    }
  }

  lemma SameChunkTransitive(a: Manifest, b: Manifest, d: Manifest, c: string)
    requires SameChunk(a, b, c) && SameChunk(b, d, c)
    ensures SameChunk(a, d, c)
  {}

  /** Repairing one chunk touches no other. */
  lemma VisitTouchesOne(e: Setting, p: Pass, x: string, locs: seq<string>, c: string)
    requires x != c || SkipsChunk(e, c, locs)
    ensures Untouched(p, Visit(e, p, x, locs), c)
  {
    hide Skips; hide IsNewList; hide Count; hide Answers; hide LeastAnswering; hide Relocated; hide Visit;
    VisitIff(e, p, x, locs);
    var q := Visit(e, p, x, locs);
    if q == p {
      UntouchedAtAll(p, c);
    } else {
      var source, list :| Repaired(e, p, q, x, locs, source, list);
      forall key | key in p.st.manifests ensures SameChunk(p.st.manifests[key], q.st.manifests[key], c) {
        RelocatedOther(p.st.manifests[key], x, list, c);
      }
    }
  }

  lemma RelocatedOther(m: Manifest, x: string, list: seq<string>, c: string)
    requires x != c
    ensures SameChunk(m, Relocated(m, x, list), c)
  {}

  /** A pass leaves a chunk alone when every list of it in the manifests is skipped. */
  lemma {:induction false} PassSkips(e: Setting, ms: map<string, Manifest>, p: Pass, visits: seq<(string, string)>,
                                     c: string)
    requires Listed(ms, visits)
    requires forall key | key in ms && c in ms[key].chunkLocations :: SkipsChunk(e, c, ms[key].chunkLocations[c])
    ensures Untouched(p, VisitAll(e, ms, p, visits), c)
  {
    hide Visit; hide Untouched; hide SkipsChunk;
    if visits == [] {
      UntouchedAtAll(p, c);
    } else {
      var n := |visits| - 1;
      var (key, x) := visits[n];
      var q := VisitAll(e, ms, p, visits[..n]);
      PassSkips(e, ms, p, visits[..n], c);
      VisitTouchesOne(e, q, x, ms[key].chunkLocations[x], c);
      UntouchedTransitive(p, q, Visit(e, q, x, ms[key].chunkLocations[x]), c);
    }
  }

  /**
    * A node with an address that is not the least survivor leaves an agreed chunk alone; so of two nodes with the same
    * view at least one does.
    */
  lemma OneNodeRepairs(e: Setting, other: string, ms: map<string, Manifest>, p: Pass, visits: seq<(string, string)>,
                       c: string, locs: seq<string>)
    requires Listed(ms, visits) && Agreed(ms, c, locs) && e.local != "" && other != "" && other != e.local
    ensures !Least(e.local, locs, e.dead) ==> Untouched(p, VisitAll(e, ms, p, visits), c)
    ensures || Untouched(p, VisitAll(e, ms, p, visits), c)
            || Untouched(p, VisitAll(e.(local := other), ms, p, visits), c)
  {
    hide VisitAll; hide Untouched; hide Less;
    var e2 := e.(local := other);
    if Least(e.local, locs, e.dead) && Least(other, locs, e.dead) { Trichotomy(e.local, other); }
    if !Least(e.local, locs, e.dead) { PassSkips(e, ms, p, visits, c); }
    if !Least(other, locs, e.dead) { PassSkips(e2, ms, p, visits, c); }
  }

  /** The copies made for one list: the missing targets that acknowledge, unless the list is skipped. */
  ghost function CopiesOf(e: Setting, c: string, locs: seq<string>): nat {
    if SkipsChunk(e, c, locs) then 0 else Count(NewCopy(locs, e.dead, e.targets(c), e.Acking(c)), |e.targets(c)|)
  }

  ghost function CopiesOfAll(e: Setting, ms: map<string, Manifest>, visits: seq<(string, string)>): nat
    requires Listed(ms, visits)
  {
    if visits == [] then 0
    else
      var n := |visits| - 1;
      CopiesOfAll(e, ms, visits[..n]) + CopiesOf(e, visits[n].1, ms[visits[n].0].chunkLocations[visits[n].1])
  }

  /** Survivors of every list that is not skipped answer: then the pass counts the acknowledged copies of all lists. */
  lemma {:induction false} RepairedCounts(e: Setting, ms: map<string, Manifest>, p: Pass,
                                          visits: seq<(string, string)>)
    requires Listed(ms, visits) && forall c :: NeedySurvive(e, p.disks, ms, c)
    ensures VisitAll(e, ms, p, visits).repaired == p.repaired + CopiesOfAll(e, ms, visits)
  {
    hide Visit; hide Skips; hide Count; hide Repaired; hide Answers; hide Alive; hide NeedySurvive;
    if visits != [] {
      var n := |visits| - 1;
      var (key, c) := visits[n];
      var locs := ms[key].chunkLocations[c];
      var q := VisitAll(e, ms, p, visits[..n]);
      RepairedCounts(e, ms, p, visits[..n]);
      VisitIff(e, q, c, locs);
      PassKeepsDisks(e, ms, p, visits[..n]);
      if !SkipsChunk(e, c, locs) {
        NeedyAnswers(e, p.disks, q.disks, ms, key, c);
        RepairedAdds(e, q, c, locs);
      }
    }
  }

  lemma NeedyAnswers(e: Setting, disks: Disks, more: Disks, ms: map<string, Manifest>, key: string, c: string)
    requires NeedySurvive(e, disks, ms, c) && disks.Keys <= more.Keys && key in ms && c in ms[key].chunkLocations
    requires !SkipsChunk(e, c, ms[key].chunkLocations[c])
    ensures exists s | s in ms[key].chunkLocations[c] && s != e.dead :: Answers(more, e.net, c, s)
  {
    hide Skips; hide Alive; hide Needs;
    var locs := ms[key].chunkLocations[c];
    NeedsIff(locs, e.dead, e.targets(c), e.N, e.local);
    AliveMembers(locs, e.dead);
    var s :| s in Alive(locs, e.dead) && Answers(disks, e.net, c, s);
    assert Answers(more, e.net, c, s);
  }

  lemma RepairedAdds(e: Setting, q: Pass, c: string, locs: seq<string>)
    requires exists source, list :: Repaired(e, q, Visit(e, q, c, locs), c, locs, source, list)
    ensures Visit(e, q, c, locs).repaired
            == q.repaired + Count(NewCopy(locs, e.dead, e.targets(c), e.Acking(c)), |e.targets(c)|)
  {
    hide Visit; hide Count;
  }

  // Manifests that list different locations for one chunk.

  /** Every list for the chunk that needs a copy has a survivor that answers with it. */
  ghost predicate NeedySurvive(e: Setting, disks: Disks, ms: map<string, Manifest>, c: string) {
    forall key | key in ms && c in ms[key].chunkLocations && e.NeedsCopy(c, ms[key].chunkLocations[c]) ::
      Survives(e, disks, c, ms[key].chunkLocations[c])
  }

  /** The last list visited for the chunk that needs a copy. */
  function LastNeedy(e: Setting, ms: map<string, Manifest>, visits: seq<(string, string)>, c: string)
    : Option<seq<string>>
    requires Listed(ms, visits)
  {
    if visits == [] then None
    else
      var n := |visits| - 1;
      var (key, x) := visits[n];
      if x == c && e.NeedsCopy(c, ms[key].chunkLocations[c]) then Some(ms[key].chunkLocations[c])
      else LastNeedy(e, ms, visits[..n], c)
  }

  lemma {:induction false} PlanIsLastNeedy(e: Setting, ms: map<string, Manifest>, p: Pass,
                                           visits: seq<(string, string)>, c: string)
    requires Listed(ms, visits) && NeedySurvive(e, p.disks, ms, c)
    ensures var plan := Plan(e, ms, p, visits); var last := LastNeedy(e, ms, visits, c);
            if last.Some? then c in plan && plan[c] == e.After(c, last.value) else c !in plan
  {
    hide Visit; hide Needs; hide NewLocations; hide Fetched; hide SortedStrings; hide Survives; hide Alive;
    if visits != [] {
      var n := |visits| - 1;
      var (key, x) := visits[n];
      PlanIsLastNeedy(e, ms, p, visits[..n], c);
      if x == c && e.NeedsCopy(c, ms[key].chunkLocations[c]) {
        PassKeepsDisks(e, ms, p, visits[..n]);
        SurvivorIsFetched(e, p.disks, VisitAll(e, ms, p, visits[..n]).disks, c, ms[key].chunkLocations[c]);
      }
    }
  }

  /** Every survivor of the first list is one of the second, or a target that acknowledges its copy. */
  ghost predicate KeptBy(e: Setting, c: string, locs: seq<string>, needy: seq<string>) {
    forall s | s in Alive(locs, e.dead) :: s in Alive(needy, e.dead) || (s in e.targets(c) && e.net.acks(s, c))
  }

  lemma KeptByIff(e: Setting, c: string, locs: seq<string>, needy: seq<string>)
    ensures KeptBy(e, c, locs, needy) <==> forall s | s in Alive(locs, e.dead) :: s in e.After(c, needy)
  {
    hide Alive; hide Missing; hide Copied; hide SortedStrings;
    var alive := Alive(needy, e.dead);
    SortedMembers(alive);
    MissingMembers(e.targets(c), alive);
    CopiedMembers(Missing(e.targets(c), alive), e.Acking(c));
  }

  /** The pass leaves every survivor of this list in the locations of its manifest. */
  ghost predicate Keeps(e: Setting, p: Pass, visits: seq<(string, string)>, key: string, c: string)
    requires Listed(p.st.manifests, visits) && key in p.st.manifests && c in p.st.manifests[key].chunkLocations
  {
    var ms := VisitAll(e, p.st.manifests, p, visits).st.manifests;
    && key in ms && c in ms[key].chunkLocations
    && forall s | s in Alive(p.st.manifests[key].chunkLocations[c], e.dead) :: s in ms[key].chunkLocations[c]
  }

  /** What a pass drops is decided by the last list visited that needs a copy. */
  lemma KeepsIff(e: Setting, p: Pass, visits: seq<(string, string)>, key: string, c: string)
    requires Listed(p.st.manifests, visits) && NeedySurvive(e, p.disks, p.st.manifests, c)
    requires key in p.st.manifests && c in p.st.manifests[key].chunkLocations
    ensures Keeps(e, p, visits, key, c) <==>
            match LastNeedy(e, p.st.manifests, visits, c)
            case None => true
            case Some(needy) => KeptBy(e, c, p.st.manifests[key].chunkLocations[c], needy)
  {
    hide NewLocations; hide VisitAll; hide Plan; hide LastNeedy; hide KeptBy; hide NeedySurvive; hide Alive;
    var ms := p.st.manifests;
    var locs := ms[key].chunkLocations[c];
    PassFollowsPlan(e, ms, p, visits);
    PlanIsLastNeedy(e, ms, p, visits, c);
    AliveMembers(locs, e.dead);
    var last := LastNeedy(e, ms, visits, c);
    if last.Some? { KeptByIff(e, c, locs, last.value); }
  }

  /** Every chunk of every manifest is visited once. */
  ghost predicate Complete(ms: map<string, Manifest>, visits: seq<(string, string)>) {
    Listed(ms, visits) && Covers(ms, visits) && RepairManager.Unrepeated(visits)
  }

  lemma {:induction false} NeedyIsListed(e: Setting, ms: map<string, Manifest>, visits: seq<(string, string)>,
                                         c: string)
    requires Listed(ms, visits) && LastNeedy(e, ms, visits, c).Some?
    ensures var needy := LastNeedy(e, ms, visits, c).value;
            exists k | k in ms && c in ms[k].chunkLocations :: ms[k].chunkLocations[c] == needy && e.NeedsCopy(c, needy)
  {
    hide Needs;
    var n := |visits| - 1;
    var (key, x) := visits[n];
    if !(x == c && e.NeedsCopy(c, ms[key].chunkLocations[c])) { NeedyIsListed(e, ms, visits[..n], c); }
  }

  lemma {:induction false} SomeOrder(s: set<(string, string)>) returns (order: seq<(string, string)>)
    ensures (forall v :: v in order <==> v in s) && RepairManager.Unrepeated(order)
  {
    order := [];
    if s != {} {
      var v :| v in s;
      order := SomeOrder(s - {v});
      order := order + [v];
    }
  }

  /** A pass may visit this chunk of this manifest last. */
  lemma VisitedLast(ms: map<string, Manifest>, key: string, c: string) returns (visits: seq<(string, string)>)
    requires key in ms && c in ms[key].chunkLocations
    ensures Complete(ms, visits) && visits != [] && visits[|visits| - 1] == (key, c)
  {
    var all := set k, x | k in ms && x in ms[k].chunkLocations :: (k, x);
    var order := SomeOrder(all - {(key, c)});
    visits := order + [(key, c)];
    forall k, x | k in ms && x in ms[k].chunkLocations ensures (k, x) in visits { assert (k, x) in all; }
  }

  /**
    * A chunk's locations in all manifests are overwritten with what was made of one list.  A survivor listed by a
    * manifest is kept, whatever order the maps are visited in, exactly when every list of the chunk that needs a copy
    * has it too, or the ring has it and it acknowledges.
    */
  lemma SurvivorsKeptIff(e: Setting, p: Pass, key: string, c: string)
    requires key in p.st.manifests && c in p.st.manifests[key].chunkLocations
    requires NeedySurvive(e, p.disks, p.st.manifests, c)
    ensures var ms := p.st.manifests;
            (forall visits | Complete(ms, visits) :: Keeps(e, p, visits, key, c)) <==>
            forall k | k in ms && c in ms[k].chunkLocations && e.NeedsCopy(c, ms[k].chunkLocations[c]) ::
              KeptBy(e, c, ms[key].chunkLocations[c], ms[k].chunkLocations[c])
  {
    hide Keeps; hide KeptBy; hide NeedySurvive; hide Needs; hide Covers; hide RepairManager.Unrepeated;
    var ms := p.st.manifests;
    var locs := ms[key].chunkLocations[c];
    forall visits | Complete(ms, visits)
      ensures Keeps(e, p, visits, key, c) <==>
              match LastNeedy(e, ms, visits, c) case None => true case Some(needy) => KeptBy(e, c, locs, needy)
      ensures var last := LastNeedy(e, ms, visits, c);
              last.Some? ==> exists k | k in ms && c in ms[k].chunkLocations ::
                ms[k].chunkLocations[c] == last.value && e.NeedsCopy(c, last.value)
    {
      KeepsIff(e, p, visits, key, c);
      if LastNeedy(e, ms, visits, c).Some? { NeedyIsListed(e, ms, visits, c); }
    }
    forall k | k in ms && c in ms[k].chunkLocations && e.NeedsCopy(c, ms[k].chunkLocations[c])
      ensures exists visits :: Complete(ms, visits) && LastNeedy(e, ms, visits, c) == Some(ms[k].chunkLocations[c])
    {
      var visits := VisitedLast(ms, k, c);
      assert Complete(ms, visits) && LastNeedy(e, ms, visits, c) == Some(ms[k].chunkLocations[c]);
    }
  }

  class RepairManager {
    const store: Store
    const ring: HashRing
    const N: nat
    const localAddr: string
    var disks: Disks

    constructor (meta: Store, r: HashRing, n: int, local: string, stored: Disks)
      ensures store == meta && ring == r && localAddr == local && disks == stored
      ensures N == if n <= 0 then 3 else n
    {
      store, ring, localAddr, disks := meta, r, local, stored;
      N := if n <= 0 then 3 else n;
    }

    /** The setting of a pass: targets come from the ring as it is. */
    ghost function SettingOf(dead: string, net: Network): Setting
      reads ring
    {
      var (l, hashes, index) := (ring.l, ring.sortedHashes, ring.hashToNode);
      Setting(dead, N, localAddr, (c: string) => NodesOn(l, hashes, index, c, N), net)
    }

    method SplitLocations(locs: seq<string>, dead: string) returns (hasDead: bool, alive: seq<string>)
      ensures hasDead <==> dead in locs
      ensures alive == Alive(locs, dead)
    {
      hasDead, alive := false, [];
      for i := 0 to |locs|
        invariant hasDead <==> dead in locs[..i]
        invariant alive == Alive(locs[..i], dead)
      {
        assert locs[..i + 1] == locs[..i] + [locs[i]];
        if locs[i] == dead { hasDead := true; } else { alive := alive + [locs[i]]; }
      }
      assert locs[..|locs|] == locs;
    }

    method NeededTargets(targets: seq<string>, alive: seq<string>) returns (needed: seq<string>)
      ensures needed == Missing(targets, alive)
    {
      needed := [];
      for i := 0 to |targets|
        invariant needed == Missing(targets[..i], alive)
      {
        assert targets[..i + 1] == targets[..i] + [targets[i]];
        if targets[i] !in alive { needed := needed + [targets[i]]; }
      }
      assert targets[..|targets|] == targets;
    }

    method FetchChunkFromSurvivors(c: string, survivors: seq<string>, net: Network) returns (data: Option<seq<Byte>>)
      ensures data == Fetched(disks, net, c, survivors)
    {
      for i := 0 to |survivors|
        invariant Fetched(disks, net, c, survivors) == Fetched(disks, net, c, survivors[i..])
      {
        if net.up(survivors[i], c) && (survivors[i], c) in disks { return Some(disks[(survivors[i], c)]); }
      }
      return None;
    }

    /** Copies to the targets one after the other, and lists those that acknowledged. */
    method Copy(c: string, data: seq<Byte>, targets: seq<string>, net: Network) returns (copied: seq<string>)
      modifies this`disks
      ensures disks == Written(old(disks), net, c, data, targets)
      ensures copied == Copied(targets, t => net.acks(t, c))
    {
      copied := [];
      for i := 0 to |targets|
        invariant disks == Written(old(disks), net, c, data, targets[..i])
        invariant copied == Copied(targets[..i], t => net.acks(t, c))
      {
        assert targets[..i + 1] == targets[..i] + [targets[i]];
        if net.acks(targets[i], c) || net.stores(targets[i], c) { disks := StoreOnce(disks, targets[i], c, data); }
        if net.acks(targets[i], c) { copied := copied + [targets[i]]; }
      }
      assert targets[..|targets|] == targets;
    }

    /** The store, the disks, and the log have reached this point of the pass. */
    twostate predicate Reached(before: Pass, after: Pass)
      reads this, store
    {
      && store.Contents() == after.st && disks == after.disks
      && before.log <= after.log
      && store.wal == old(store.wal) + (if old(store.attached) then after.log[|before.log|..] else [])
      && store.nodeID == old(store.nodeID) && store.attached == old(store.attached)
    }

    /** Decides for one chunk of one manifest, and repairs it. */
    method RepairChunk(dead: string, c: string, locs: seq<string>, net: Network, ghost p: Pass) returns (copied: nat)
      requires ring.Valid() && p.st == store.Contents() && p.disks == disks
      modifies this`disks, store
      ensures var q := Visit(SettingOf(dead, net), p, c, locs); Reached(p, q) && copied == q.repaired - p.repaired
    {
      hide Alive; hide Missing; hide SortedStrings; hide Fetched; hide Written; hide Copied; hide UpdateLocations;
      hide NodesOn; hide HashRing.Valid;
      ghost var e := SettingOf(dead, net);
      copied := 0;
      var hasDead, alive := SplitLocations(locs, dead);
      if !hasDead && |alive| >= N { return; }
      var targets := ring.GetNodesForKey(c, N);
      assert targets == e.targets(c);
      if |targets| == 0 { NothingMissing(alive); return; }
      var needed := NeededTargets(targets, alive);
      if |alive| == 0 || |needed| == 0 { return; }
      SortedLength(alive);
      var survivors := SortedStrings(alive);
      if localAddr != "" && survivors[0] != localAddr { return; }
      copied := CopyFromSurvivors(c, survivors, needed, net);
      CopiedAlike(needed, t => net.acks(t, c), e.Acking(c));
    }

    /** Copies a chunk from its survivors to the targets it needs, and records its new locations. */
    method CopyFromSurvivors(c: string, survivors: seq<string>, needed: seq<string>, net: Network)
      returns (copied: nat)
      modifies this`disks, store
      ensures store.nodeID == old(store.nodeID) && store.attached == old(store.attached)
      ensures match Fetched(old(disks), net, c, survivors)
              case None =>
                disks == old(disks) && store.Contents() == old(store.Contents()) && store.wal == old(store.wal)
                && copied == 0
              case Some(data) =>
                var done := Copied(needed, t => net.acks(t, c));
                && disks == Written(old(disks), net, c, data, needed) && copied == |done|
                && store.Contents() == UpdateLocations(old(store.Contents()), c, survivors + done)
                && store.wal == old(store.wal)
                     + if old(store.attached) then [UpdateLocationsRecord(c, survivors + done)] else []
    {
      hide Fetched; hide Written; hide Copied; hide UpdateLocations;
      var data := FetchChunkFromSurvivors(c, survivors, net);
      if data.None? { return 0; }
      var done := Copy(c, data.value, needed, net);
      store.UpdateChunkLocations(c, survivors + done);
      return |done|;
    }

    static lemma SortedLength(s: seq<string>)
      ensures |SortedStrings(s)| == |s|
    {
      SortedMembers(s);
    }

    static lemma NothingMissing(alive: seq<string>)
      ensures Missing([], alive) == []
    {}

    static lemma CopiedAlike(targets: seq<string>, f: string -> bool, g: string -> bool)
      requires forall t :: f(t) == g(t)
      ensures Copied(targets, f) == Copied(targets, g)
    {
      if targets != [] { CopiedAlike(targets[..|targets| - 1], f, g); }
    }

    /** Visits every chunk of every manifest of a snapshot once, in any order. */
    method RepairDeadNode(dead: string, net: Network) returns (repaired: nat, ghost visits: seq<(string, string)>)
      requires ring.Valid()
      modifies this`disks, store
      ensures Listed(old(store.manifests), visits) && Covers(old(store.manifests), visits)
      ensures Unrepeated(visits)
      ensures var start := Pass(old(store.Contents()), [], old(disks), 0);
              var q := VisitAll(SettingOf(dead, net), old(store.manifests), start, visits);
              Reached(start, q) && repaired == q.repaired
    {
      hide Visit; hide NodesOn; hide Covers; hide Pending; hide VisitAll; hide Unrepeated;
      var manifests := store.manifests;
      ghost var e := SettingOf(dead, net);
      ghost var start := Pass(store.Contents(), [], disks, 0);
      repaired, visits := 0, [];
      ghost var p := start;
      var keys := manifests.Keys;
      NothingVisited(e, manifests, start);
      while keys != {}
        invariant keys <= manifests.Keys && Pending(manifests, visits, keys, "", {}) && Listed(manifests, visits)
        invariant p == VisitAll(e, manifests, start, visits) && Reached(start, p) && repaired == p.repaired
        invariant e == SettingOf(dead, net)
        decreases keys
      {
        var key :| key in keys;
        OpenManifest(manifests, visits, keys, key);
        keys := keys - {key};
        var chunks := manifests[key].chunkLocations.Keys;
        while chunks != {}
          invariant chunks <= manifests[key].chunkLocations.Keys && Pending(manifests, visits, keys, key, chunks)
          invariant Listed(manifests, visits)
          invariant p == VisitAll(e, manifests, start, visits) && Reached(start, p) && repaired == p.repaired
          decreases chunks
        {
          var c :| c in chunks;
          var copied := RepairChunk(dead, c, manifests[key].chunkLocations[c], net, p);
          p := Visit(e, p, c, manifests[key].chunkLocations[c]);
          OneMoreVisit(e, manifests, start, visits, keys, key, chunks, c);
          visits := visits + [(key, c)];
          repaired := repaired + copied;
          chunks := chunks - {c};
        }
        CloseManifest(manifests, visits, keys, key);
      }
      AllVisited(manifests, visits);
    }

    static ghost predicate Unrepeated(visits: seq<(string, string)>) {
      forall i, j | 0 <= i < j < |visits| :: visits[i] != visits[j]
    }

    /** All is visited once, but the manifests of these keys and these chunks of the open manifest. */
    static ghost predicate Pending(ms: map<string, Manifest>, visits: seq<(string, string)>, keys: set<string>,
                                   open: string, chunks: set<string>) {
      && Listed(ms, visits) && Unrepeated(visits)
      && forall k, c | k in ms && c in ms[k].chunkLocations ::
           (k, c) in visits <==> (k !in keys && (k == open ==> c !in chunks))
    }

    static lemma NothingVisited(e: Setting, ms: map<string, Manifest>, p: Pass)
      ensures Pending(ms, [], ms.Keys, "", {}) && VisitAll(e, ms, p, []) == p
    {}

    static lemma OpenManifest(ms: map<string, Manifest>, visits: seq<(string, string)>, keys: set<string>, key: string)
      requires Pending(ms, visits, keys, "", {}) && key in keys && key in ms
      ensures Pending(ms, visits, keys - {key}, key, ms[key].chunkLocations.Keys)
    {
      hide Unrepeated; hide Listed;
    }

    static lemma CloseManifest(ms: map<string, Manifest>, visits: seq<(string, string)>, keys: set<string>, key: string)
      requires Pending(ms, visits, keys, key, {})
      ensures Pending(ms, visits, keys, "", {})
    {
      hide Unrepeated; hide Listed;
    }

    static lemma OneMoreVisit(e: Setting, ms: map<string, Manifest>, p: Pass, visits: seq<(string, string)>,
                              keys: set<string>, key: string, chunks: set<string>, c: string)
      requires Pending(ms, visits, keys, key, chunks) && key in ms && c in ms[key].chunkLocations && c in chunks
               && key !in keys
      ensures var more := visits + [(key, c)];
              && Pending(ms, more, keys, key, chunks - {c})
              && Listed(ms, visits) && Listed(ms, more)
              && VisitAll(e, ms, p, more) == Visit(e, VisitAll(e, ms, p, visits), c, ms[key].chunkLocations[c])
    {
      hide Visit;
      var more := visits + [(key, c)];
      assert more[..|visits|] == visits;
      assert (key, c) !in visits;
      forall v ensures v in more <==> v in visits || v == (key, c) {}
    }

    static lemma AllVisited(ms: map<string, Manifest>, visits: seq<(string, string)>)
      requires Pending(ms, visits, {}, "", {})
      ensures Listed(ms, visits) && Covers(ms, visits) && Unrepeated(visits)
    {
      hide Unrepeated; hide Listed;
    }

    /** Once the dead node is off the ring, the targets are distinct live nodes, as many as asked for and present. */
    lemma TargetsOfRing(dead: string, net: Network, c: string)
      requires ring.Consistent() && dead !in ring.nodes
      ensures var targets := SettingOf(dead, net).targets(c);
              && Distinct(targets) && dead !in targets && (forall t | t in targets :: t in ring.nodes)
              && |targets| == if |ring.nodes| < N then |ring.nodes| else N
    {
      hide Nearest; hide Preference; hide NodesOn; hide Layout.NoCollisions; hide Canonical;
      var h := ring.l.hash(c);
      var list := Preference(ring.l, h, ring.nodes);
      ring.NodesForIsPreference(c, N);
      PreferenceMembers(ring.l, h, ring.nodes);
      forall i, j | 0 <= i < j < |list| ensures list[i] != list[j] { PreferenceSorted(ring.l, h, ring.nodes, i, j); }
    }

    /** With the dead node off a collision-free ring, a repaired chunk has N live replicas, or one on every node. */
    lemma ReplicasRestored(dead: string, net: Network, p: Pass, visits: seq<(string, string)>, key: string, c: string)
      requires ring.Consistent() && dead !in ring.nodes
      requires Repairable(SettingOf(dead, net), p, visits, key, c)
      requires forall t | t in ring.nodes :: net.acks(t, c)
      ensures var q := VisitAll(SettingOf(dead, net), p.st.manifests, p, visits);
              && key in q.st.manifests && c in q.st.manifests[key].chunkLocations
              && var final := AsSet(q.st.manifests[key].chunkLocations[c]) - {dead};
              && AsSet(Alive(p.st.manifests[key].chunkLocations[c], dead)) <= final
              && |final| >= (if |ring.nodes| < N then |ring.nodes| else N)
              && forall x | x in final :: (x, c) in q.disks
    {
      hide Repairable; hide VisitAll; hide Alive; hide NodesOn; hide AsSet; hide Distinct;
      TargetsOfRing(dead, net, c);
      PassRestores(SettingOf(dead, net), p, visits, key, c);
    }
  }
}
