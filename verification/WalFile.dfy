/** The log as a file of lines: replay, truncation of a torn tail, appending, compaction. */
module WalFile {
  import opened Manifests
  import opened WalRecords
  import opened MetadataStore
  import opened Compaction
  import opened Text

  // Records as text.

  datatype Parsed = NoJson | BadChecksum | Good(rec: WALRecord)

  /** JSON with its checksum, abstractly: a text for every record, and what a text is read as. */
  datatype Codec = Codec(encode: WALRecord -> string, parse: string -> Parsed) {

    /** One line of braces per record; it is read back; no nonempty proper prefix and no two texts in a row are JSON. */
    ghost predicate Valid() {
      && (forall r :: ShapeOfText(encode(r)))
      && (forall r :: parse(encode(r)) == Good(r))
      && (forall r, k: nat | 0 < k < |encode(r)| :: parse(encode(r)[..k]) == NoJson)
      && (forall r, s :: parse(encode(r) + encode(s)) == NoJson)
    }
  }

  predicate ShapeOfText(t: string) {
    |t| >= 2 && t[0] == '{' && t[|t| - 1] == '}' && '\n' !in t
  }

  function Line(c: Codec, r: WALRecord): string { c.encode(r) + ['\n'] }

  function Lines(c: Codec, rs: seq<WALRecord>): string {
    if rs == [] then [] else Line(c, rs[0]) + Lines(c, rs[1..])
  }

  // Reading the log.

  /** The records applied in order, the length the file is left with, and whether replay succeeds. */
  datatype Outcome = Outcome(applied: seq<WALRecord>, kept: nat, ok: bool)

  /** What reading content does; a line that is no JSON ends the log there. */
  function Scan(c: Codec, content: string): (o: Outcome)
    ensures o.kept <= |content|
    decreases |content|
  {
    if content == [] then Outcome([], 0, true)
    else
      var line := FirstLine(content);
      var text := Trim(line);
      var p := c.parse(text);
      if text != [] && p == NoJson then Outcome([], 0, true)
      else if text != [] && p == BadChecksum then
        Outcome([], if Terminated(line) then |content| else 0, !Terminated(line))
      else
        var rest := Scan(c, content[|line|..]);
        Outcome((if text == [] then [] else [p.rec]) + rest.applied, |line| + rest.kept, rest.ok)
  }

  class LogFile {
    var content: string

    constructor ()
      ensures content == []
    {
      content := [];
    }

    method WriteRecord(c: Codec, rec: WALRecord)
      modifies this
      ensures content == old(content) + Line(c, rec)
    {
      content := content + c.encode(rec) + ['\n'];
    }
  }

  lemma ScanUnfolds(c: Codec, s: string)
    requires s != []
    ensures var line := FirstLine(s); var text := Trim(line); var p := c.parse(text);
            |line| > 0 && Scan(c, s) ==
              if text != [] && p == NoJson then Outcome([], 0, true)
              else if text != [] && p == BadChecksum then
                Outcome([], if Terminated(line) then |s| else 0, !Terminated(line))
              else
                var rest := Scan(c, s[|line|..]);
                Outcome((if text == [] then [] else [p.rec]) + rest.applied, |line| + rest.kept, rest.ok)
  {
    hide Trim;
  }

  lemma NothingToScan(c: Codec, s: string)
    requires s == []
    ensures Scan(c, s) == Outcome([], 0, true)
  {}

  lemma ReplayNothing(st: State, node: string, names: nat -> string)
    ensures Replay(st, [], node, names) == st
  {}

  lemma ReplayOneMore(st: State, log: seq<WALRecord>, rec: WALRecord, node: string, names: nat -> string)
    ensures Replay(st, log + [rec], node, names) == Apply(Replay(st, log, node, names), rec, node, names(|log|))
  {
    assert (log + [rec])[..|log|] == log;
  }

  /**
    * Reads lines and applies their records; stops and truncates at a line that is no JSON, or at an unterminated
    * line whose checksum fails; fails at a terminated line whose checksum fails.
    */
  method ReplayWAL(c: Codec, file: LogFile, store: Store, names: nat -> string) returns (ok: bool)
    requires !store.attached
    modifies file, store
    ensures var o := Scan(c, old(file.content));
            && ok == o.ok && file.content == old(file.content)[..o.kept]
            && store.Contents() == Replay(old(store.Contents()), o.applied, store.nodeID, names)
    ensures store.nodeID == old(store.nodeID) && !store.attached
  {
    hide Trim; hide FirstLine; hide Apply; hide Store.Contents; hide Scan; hide Replay; hide Terminated;
    var offset := 0;
    var replayedCount := 0;
    ghost var applied: seq<WALRecord> := [];
    ghost var whole := Scan(c, file.content);
    var reading := file.content;
    ReplayNothing(store.Contents(), store.nodeID, names);
    assert reading[0..] == reading;
    while offset < |reading|
      invariant replayedCount == |applied|
      invariant offset <= |reading| && file.content == reading == old(file.content)
      invariant !store.attached && store.nodeID == old(store.nodeID)
      invariant store.Contents() == Replay(old(store.Contents()), applied, store.nodeID, names)
      invariant var rest := Scan(c, reading[offset..]);
                whole == Outcome(applied + rest.applied, offset + rest.kept, rest.ok)
      decreases |reading| - offset
    {
      ScanUnfolds(c, reading[offset..]);
      assert applied + [] == applied;
      var line := FirstLine(reading[offset..]);
      var trimmed := Trim(line);
      assert reading[offset..][|line|..] == reading[offset + |line|..];
      if |trimmed| > 0 {
        var p := c.parse(trimmed);
        if p == NoJson {
          file.content := reading[..offset];
          return true;
        }
        if p == BadChecksum {
          if !Terminated(line) {
            file.content := reading[..offset];
            return true;
          }
          assert whole == Outcome(applied, |reading|, false);
          assert reading[..|reading|] == reading;
          return false;
        }
        store.ApplyRecord(p.rec, names(replayedCount));
        ReplayOneMore(old(store.Contents()), applied, p.rec, store.nodeID, names);
        applied := applied + [p.rec];
        replayedCount := replayedCount + 1;
      }
      offset := offset + |line|;
    }
    assert Scan(c, reading[offset..]) == Outcome([], 0, true) by { NothingToScan(c, reading[offset..]); }
    return true;
  }

  // What survives.

  lemma TrimLine(c: Codec, r: WALRecord)
    requires c.Valid()
    ensures Trim(Line(c, r)) == c.encode(r)
  {
    var t := c.encode(r);
    assert ShapeOfText(t);
    assert Line(c, r)[0] == '{' && TrimLeft(Line(c, r)) == Line(c, r);
    assert Line(c, r)[..|t|] == t;
    assert TrimRight(t) == t;
  }

  /** A nonempty beginning of a text trims to a nonempty beginning of the same text. */
  lemma {:induction false} TrimRightPrefix(t: string, k: nat)
    requires 0 < k <= |t| && t[0] == '{'
    ensures exists j: nat :: 0 < j <= k && TrimRight(t[..k]) == t[..j]
  {
    if k > 1 && IsSpace(t[k - 1]) {
      assert t[..k][..k - 1] == t[..k - 1];
      TrimRightPrefix(t, k - 1);
    } else {
      assert t[..k][0] == t[0];
      assert TrimRight(t[..k]) == t[..k];
    }
  }

  lemma TornTextIsNoJson(c: Codec, r: WALRecord, k: nat)
    requires c.Valid() && 0 < k < |c.encode(r)|
    ensures var p := c.encode(r)[..k]; FirstLine(p) == p && Trim(p) != [] && c.parse(Trim(p)) == NoJson
  {
    var t := c.encode(r);
    assert ShapeOfText(t);
    FirstLineOfLine(t[..k], []);
    TrimRightPrefix(t, k);
    assert TrimLeft(t[..k]) == t[..k];
    var j: nat :| 0 < j <= k && TrimRight(t[..k]) == t[..j];
    assert c.parse(t[..j]) == NoJson;
  }

  /** Reading a whole line applies its record and goes on behind it. */
  lemma ScanLine(c: Codec, r: WALRecord, rest: string)
    requires c.Valid()
    ensures var o := Scan(c, rest);
            Scan(c, Line(c, r) + rest) == Outcome([r] + o.applied, |Line(c, r)| + o.kept, o.ok)
  {
    hide Trim; hide FirstLine; hide Scan;
    var t := c.encode(r);
    assert ShapeOfText(t) && c.parse(t) == Good(r);
    FirstLineOfLine(t, rest);
    assert Line(c, r) + rest == t + ['\n'] + rest;
    TrimLine(c, r);
    ScanUnfolds(c, Line(c, r) + rest);
    assert (Line(c, r) + rest)[|Line(c, r)|..] == rest;
  }

  lemma {:induction false} ScanLines(c: Codec, rs: seq<WALRecord>, rest: string)
    requires c.Valid()
    ensures var o := Scan(c, rest);
            Scan(c, Lines(c, rs) + rest) == Outcome(rs + o.applied, |Lines(c, rs)| + o.kept, o.ok)
  {
    hide Scan; hide Line;
    if rs == [] {
      assert Lines(c, rs) + rest == rest;
    } else {
      ScanLines(c, rs[1..], rest);
      ScanLine(c, rs[0], Lines(c, rs[1..]) + rest);
      assert Lines(c, rs) + rest == Line(c, rs[0]) + (Lines(c, rs[1..]) + rest);
      assert rs == [rs[0]] + rs[1..];
    }
  }

  /** A log of whole records is applied in order and kept whole. */
  lemma WholeLog(c: Codec, rs: seq<WALRecord>)
    requires c.Valid()
    ensures Scan(c, Lines(c, rs)) == Outcome(rs, |Lines(c, rs)|, true)
  {
    ScanLines(c, rs, []);
    assert Lines(c, rs) + [] == Lines(c, rs);
  }

  /**
    * Whole records and then a torn one: exactly the whole records are applied, and the file ends after the last of
    * them, so that reading it again applies the same records.
    */
  lemma TornTail(c: Codec, rs: seq<WALRecord>, r: WALRecord, k: nat)
    requires c.Valid() && 0 < k < |c.encode(r)|
    ensures var content := Lines(c, rs) + c.encode(r)[..k]; var o := Scan(c, content);
            o == Outcome(rs, |Lines(c, rs)|, true) && Scan(c, content[..o.kept]) == o
  {
    hide Scan; hide Trim; hide FirstLine;
    var p := c.encode(r)[..k];
    TornTextIsNoJson(c, r, k);
    ScanUnfolds(c, p);
    ScanLines(c, rs, p);
    assert (Lines(c, rs) + p)[..|Lines(c, rs)|] == Lines(c, rs);
    WholeLog(c, rs);
  }

  /** Truncation is stable for every content: what a successful replay leaves replays to the same records. */
  lemma {:induction false} TruncationStable(c: Codec, content: string)
    requires Scan(c, content).ok
    ensures var o := Scan(c, content); Scan(c, content[..o.kept]) == o
    decreases |content|
  {
    hide Trim; hide FirstLine; hide Terminated;
    var o := Scan(c, content);
    if o.kept == 0 {
      assert content[..0] == [];
    } else {
      var line := FirstLine(content);
      var rest := content[|line|..];
      var kept := content[..o.kept];
      TruncationStable(c, rest);
      assert kept == line + rest[..o.kept - |line|];
      FirstLineKept(content, o.kept);
      assert kept[|line|..] == rest[..o.kept - |line|];
    }
  }

  lemma {:induction false} FirstLineKept(s: string, k: nat)
    requires |FirstLine(s)| <= k <= |s|
    ensures FirstLine(s[..k]) == FirstLine(s)
  {
    if s != [] && s[0] != '\n' {
      assert s[..k][1..] == s[1..][..k - 1];
      FirstLineKept(s[1..], k - 1);
    }
  }

  /**
    * When a crash loses only the line feed of the last record, replay applies that record and keeps its text, but the
    * next record is then appended to the same line and the replay after that loses both.
    */
  lemma LostLineFeed(c: Codec, rs: seq<WALRecord>, r: WALRecord, next: WALRecord)
    requires c.Valid()
    ensures var content := Lines(c, rs) + c.encode(r);
            && Scan(c, content) == Outcome(rs + [r], |content|, true)
            && Scan(c, content + Line(c, next)) == Outcome(rs, |Lines(c, rs)|, true)
  {
    hide Scan; hide Trim; hide FirstLine;
    var t, u := c.encode(r), c.encode(next);
    assert ShapeOfText(t) && ShapeOfText(u);
    UnterminatedRecord(c, r);
    ScanLines(c, rs, t);
    JoinedRecords(c, r, next);
    ScanLines(c, rs, t + Line(c, next));
    assert Lines(c, rs) + t + Line(c, next) == Lines(c, rs) + (t + Line(c, next));
  }

  /**
    * A crash leaves the first k characters of a record's line, the next start replays and truncates the log, and
    * another record is appended: that record survives the following replay exactly when k is not the whole text
    * without its line feed.
    */
  lemma AppendAfterCrash(c: Codec, rs: seq<WALRecord>, r: WALRecord, k: nat, next: WALRecord)
    requires c.Valid() && k <= |Line(c, r)|
    ensures var content := Lines(c, rs) + Line(c, r)[..k];
            var o := Scan(c, content);
            var o' := Scan(c, content[..o.kept] + Line(c, next));
            && o.ok && o'.ok && (o'.applied == rs <==> k == |c.encode(r)|)
            && o'.applied ==
                 (if k < |c.encode(r)| then rs + [next] else if k == |c.encode(r)| then rs else rs + [r, next])
  {
    hide Scan;
    var e := |c.encode(r)|;
    assert |rs + [next]| > |rs| && |rs + [r, next]| > |rs|;
    if k == e {
      assert Line(c, r)[..k] == c.encode(r);
      LostLineFeed(c, rs, r, next);
      assert (Lines(c, rs) + c.encode(r))[..|Lines(c, rs) + c.encode(r)|] == Lines(c, rs) + c.encode(r);
    } else if k > e {
      LinesOneMore(c, rs, r);
      assert Line(c, r)[..k] == Line(c, r);
      AppendToWhole(c, rs + [r], next);
      assert rs + [r] + [next] == rs + [r, next];
    } else if k > 0 {
      assert Line(c, r)[..k] == c.encode(r)[..k];
      TornTail(c, rs, r, k);
      assert (Lines(c, rs) + c.encode(r)[..k])[..|Lines(c, rs)|] == Lines(c, rs);
      AppendToWhole(c, rs, next);
    } else {
      assert Lines(c, rs) + Line(c, r)[..0] == Lines(c, rs);
      AppendToWhole(c, rs, next);
    }
  }

  lemma AppendToWhole(c: Codec, rs: seq<WALRecord>, next: WALRecord)
    requires c.Valid()
    ensures var o := Scan(c, Lines(c, rs));
            && o == Outcome(rs, |Lines(c, rs)|, true) && Lines(c, rs)[..o.kept] == Lines(c, rs)
            && Scan(c, Lines(c, rs) + Line(c, next)) == Outcome(rs + [next], |Lines(c, rs) + Line(c, next)|, true)
  {
    hide Scan;
    WholeLog(c, rs);
    WholeLog(c, rs + [next]);
    LinesOneMore(c, rs, next);
  }

  /**
    * Any line between whole records: the records behind it are applied exactly when it is blank or a record itself.
    * A line that is no JSON makes replay truncate them away; a wrong checksum makes it fail and truncate nothing.
    */
  lemma LineInTheMiddle(c: Codec, rs: seq<WALRecord>, line: string, later: seq<WALRecord>)
    requires c.Valid() && '\n' !in line
    ensures var content := Lines(c, rs) + (line + ['\n'] + Lines(c, later));
            var text := Trim(line + ['\n']); var p := c.parse(text);
            var o := Scan(c, content);
            && (o.ok && o.kept == |content| <==> text == "" || p.Good?)
            && (later != [] ==> (|o.applied| >= |rs| + |later| <==> text == "" || p.Good?))
            && o == if text == "" then Outcome(rs + later, |content|, true)
                    else match p
                      case Good(r) => Outcome(rs + [r] + later, |content|, true)
                      case NoJson => Outcome(rs, |Lines(c, rs)|, true)
                      case BadChecksum => Outcome(rs, |content|, false)
  {
    hide Scan; hide Trim; hide FirstLine; hide Lines; hide Codec.Valid;
    var rest := line + ['\n'] + Lines(c, later);
    FirstLineOfLine(line, Lines(c, later));
    assert rest[|line + ['\n']|..] == Lines(c, later);
    ScanUnfolds(c, rest);
    ScanLines(c, rs, rest);
    WholeLog(c, later);
  }

  /** Any unterminated line behind whole records: a wrong checksum is torn off there like a line that is no JSON. */
  lemma LineAtTheEnd(c: Codec, rs: seq<WALRecord>, line: string)
    requires c.Valid() && '\n' !in line
    ensures var content := Lines(c, rs) + line;
            var text := Trim(line); var p := c.parse(text);
            Scan(c, content) == if text == "" then Outcome(rs, |content|, true)
                                else match p
                                  case Good(r) => Outcome(rs + [r], |content|, true)
                                  case NoJson => Outcome(rs, |Lines(c, rs)|, true)
                                  case BadChecksum => Outcome(rs, |Lines(c, rs)|, true)
  {
    hide Scan; hide Trim; hide FirstLine; hide Lines; hide Codec.Valid;
    FirstLineOfLine(line, "");
    ScanLines(c, rs, line);
    if line == "" {
      TrimNothing();
      NothingToScan(c, line);
    } else {
      ScanUnfolds(c, line);
      NothingToScan(c, line[|line|..]);
      assert !Terminated(line);
    }
  }

  lemma TrimNothing()
    ensures Trim("") == ""
  {}

  lemma UnterminatedRecord(c: Codec, r: WALRecord)
    requires c.Valid()
    ensures Scan(c, c.encode(r)) == Outcome([r], |c.encode(r)|, true)
  {
    hide Scan; hide FirstLine;
    var t := c.encode(r);
    assert ShapeOfText(t) && c.parse(t) == Good(r);
    FirstLineOfLine(t, []);
    assert Trim(t) == t;
    ScanUnfolds(c, t);
    NothingToScan(c, t[|t|..]);
  }

  lemma JoinedRecords(c: Codec, r: WALRecord, next: WALRecord)
    requires c.Valid()
    ensures Scan(c, c.encode(r) + Line(c, next)) == Outcome([], 0, true)
  {
    hide Scan; hide FirstLine;
    var t, u := c.encode(r), c.encode(next);
    assert ShapeOfText(t) && ShapeOfText(u);
    var s := t + u;
    assert t + Line(c, next) == s + ['\n'] + [];
    FirstLineOfLine(s, []);
    assert s[|s| - 1] == u[|u| - 1];
    assert TrimRight(s) == s && (s + ['\n'])[..|s|] == s;
    assert Trim(s + ['\n']) == s;
    ScanUnfolds(c, t + Line(c, next));
  }

  /** A crash while the record of one more operation is written loses that operation and nothing before it. */
  lemma CrashRecovery(c: Codec, ops: seq<Op>, op: Op, k: nat, node: string, node2: string, names: nat -> string)
    requires c.Valid() && Named(op) && (forall o | o in ops :: Named(o)) && forall i :: names(i) != ""
    requires var (st, log) := Run(FRESH, ops, node); var more := Step(st, op, node).1;
             more != [] && 0 < k < |c.encode(more[0])|
    ensures var (st, log) := Run(FRESH, ops, node); var torn := c.encode(Step(st, op, node).1[0])[..k];
            var o := Scan(c, Lines(c, log) + torn);
            o.ok && o.kept == |Lines(c, log)| && SameErased(st, Replay(FRESH, o.applied, node2, names))
  {
    hide Scan; hide Step; hide Apply; hide EraseState;
    var (st, log) := Run(FRESH, ops, node);
    TornTail(c, log, Step(st, op, node).1[0], k);
    ReplayRebuilds(FRESH, FRESH, ops, node, node2, names);
  }

  lemma {:induction false} LinesOneMore(c: Codec, rs: seq<WALRecord>, r: WALRecord)
    ensures Lines(c, rs + [r]) == Lines(c, rs) + Line(c, r)
  {
    hide Line;
    if rs != [] {
      assert (rs + [r])[1..] == rs[1..] + [r];
      LinesOneMore(c, rs[1..], r);
    } else {
      assert rs + [r] == [r] && [r][1..] == [] && Lines(c, []) == [];
    }
  }

  function CredentialLog(credentials: seq<string>): (log: seq<WALRecord>)
    ensures |log| == |credentials|
  {
    seq(|credentials|, i requires 0 <= i < |credentials| => CredentialRecord(credentials[i]))
  }

  /** Writes one record per manifest, in whatever order the map yields them, and one per credential to a new file. */
  method CompactWAL(c: Codec, store: Store, credentials: seq<string>) returns (file: LogFile, ghost order: seq<string>)
    ensures fresh(file) && IsOrder(store.Contents(), order)
    ensures file.content == Lines(c, CompactedLog(store.Contents(), order) + CredentialLog(credentials))
  {
    file := new LogFile();
    order := [];
    var keys := store.manifests.Keys;
    while keys != {}
      invariant fresh(file) && keys <= store.manifests.Keys
      invariant forall key :: key in order <==> key in store.manifests && key !in keys
      invariant forall i, j | 0 <= i < j < |order| :: order[i] != order[j]
      invariant file.content == Lines(c, CompactedLog(store.Contents(), order))
      decreases keys
    {
      var key :| key in keys;
      file.WriteRecord(c, RecordManifest(store.manifests[key]));
      LinesOneMore(c, CompactedLog(store.Contents(), order), RecordManifest(store.manifests[key]));
      assert CompactedLog(store.Contents(), order + [key]) ==
             CompactedLog(store.Contents(), order) + [RecordManifest(store.manifests[key])];
      order := order + [key];
      keys := keys - {key};
    }
    WriteCredentials(c, file, credentials, CompactedLog(store.Contents(), order));
  }

  method WriteCredentials(c: Codec, file: LogFile, credentials: seq<string>, ghost log: seq<WALRecord>)
    requires file.content == Lines(c, log)
    modifies file
    ensures file.content == Lines(c, log + CredentialLog(credentials))
  {
    assert log + CredentialLog(credentials[..0]) == log;
    for i := 0 to |credentials|
      invariant file.content == Lines(c, log + CredentialLog(credentials[..i]))
    {
      file.WriteRecord(c, CredentialRecord(credentials[i]));
      LinesOneMore(c, log + CredentialLog(credentials[..i]), CredentialRecord(credentials[i]));
      assert log + CredentialLog(credentials[..i + 1]) ==
             log + CredentialLog(credentials[..i]) + [CredentialRecord(credentials[i])];
    }
    assert credentials[..|credentials|] == credentials;
  }

  lemma {:induction false} CredentialsLeaveStore(st: State, log: seq<WALRecord>, credentials: seq<string>, node: string,
                                                 names: nat -> string)
    ensures Replay(st, log + CredentialLog(credentials), node, names) == Replay(st, log, node, names)
  {
    if credentials == [] {
      assert log + CredentialLog(credentials) == log;
    } else {
      var n := |credentials| - 1;
      CredentialsLeaveStore(st, log, credentials[..n], node, names);
      assert log + CredentialLog(credentials) ==
             log + CredentialLog(credentials[..n]) + [CredentialRecord(credentials[n])];
      ReplayOneMore(st, log + CredentialLog(credentials[..n]), CredentialRecord(credentials[n]), node, names);
    }
  }

  lemma CompactedLengths(st: State, order: seq<string>, credentials: seq<string>)
    requires IsOrder(st, order)
    ensures var log := CompactedLog(st, order) + CredentialLog(credentials);
            && |log| == |order| + |credentials|
            && forall i | 0 <= i < |credentials| :: log[|order| + i] == CredentialRecord(credentials[i])
  {}

  /** Reading the compacted file into a new store rebuilds every manifest with its history, up to clocks. */
  lemma CompactedFileReplays(c: Codec, st: State, order: seq<string>, credentials: seq<string>, node: string,
                             names: nat -> string)
    requires c.Valid() && Invariant(st) && IsOrder(st, order) && forall k :: names(k) != ""
    ensures var o := Scan(c, Lines(c, CompactedLog(st, order) + CredentialLog(credentials)));
            && o.ok && EraseState(Replay(FRESH, o.applied, node, names)).manifests == EraseState(st).manifests
            && |o.applied| == |order| + |credentials|
            && forall i | 0 <= i < |credentials| :: o.applied[|order| + i] == CredentialRecord(credentials[i])
  {
    hide Scan; hide Replay; hide EraseState; hide CompactedLog; hide CredentialLog;
    CompactedLengths(st, order, credentials);
    WholeLog(c, CompactedLog(st, order) + CredentialLog(credentials));
    CredentialsLeaveStore(FRESH, CompactedLog(st, order), credentials, node, names);
    CompactionRebuilds(st, order, node, names);
  }
}
