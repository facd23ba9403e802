/** Quorum writes and reads of content-addressed chunks, for any failures and any order of answers. */
module Quorum {
  import opened Bytes
  import opened Disks
  import opened Selections
  import opened Wrappers

  datatype QuorumError = NoTargets | NotReached

  /** What one node answered to a read: bytes, or an error. */
  datatype Answer = Answer(node: string, data: Option<seq<Byte>>)

  /** The nodes in the order in which their answers to a write arrived. */
  function Names(results: seq<(string, bool)>): seq<string> {
    seq(|results|, i requires 0 <= i < |results| => results[i].0)
  }

  ghost function Acknowledges(results: seq<(string, bool)>): int -> bool {
    i => 0 <= i < |results| && results[i].1
  }

  ghost function Acked(results: seq<(string, bool)>): seq<string> {
    if results == [] then []
    else
      var n := |results| - 1;
      Acked(results[..n]) + (if results[n].1 then [results[n].0] else [])
  }

  /** Exactly the acknowledgements are listed, in order. */
  lemma {:induction false} AckedSelects(results: seq<(string, bool)>, pick: int -> bool)
    requires forall i | 0 <= i < |results| :: pick(i) <==> results[i].1
    ensures Selects(Acked(results), Names(results), pick)
  {
    hide Selects;
    if results == [] {
      SelectsNothing<string>(pick);
      assert Names(results) == [];
    } else {
      var n := |results| - 1;
      AckedSelects(results[..n], pick);
      SelectsOneMore(Acked(results[..n]), Names(results[..n]), results[n].0, pick);
      assert Names(results) == Names(results[..n]) + [results[n].0];
    }
  }

  // Reading.

  /** An answer counts when it has bytes and, for 64-character chunk names, they hash to the name. */
  predicate Counts(sha: seq<Byte> -> string, chunkID: string, a: Answer) {
    a.data.Some? && |a.data.value| > 0 && (|chunkID| == 64 ==> sha(a.data.value) == chunkID)
  }

  ghost function Successes(sha: seq<Byte> -> string, chunkID: string, answers: seq<Answer>): nat {
    if answers == [] then 0
    else
      var n := |answers| - 1;
      Successes(sha, chunkID, answers[..n]) + if Counts(sha, chunkID, answers[n]) then 1 else 0
  }

  /** The bytes of the first answer that counts. */
  ghost function FirstGood(sha: seq<Byte> -> string, chunkID: string, answers: seq<Answer>): seq<Byte> {
    if answers == [] then []
    else
      var n := |answers| - 1;
      var before := FirstGood(sha, chunkID, answers[..n]);
      if before != [] then before
      else if Counts(sha, chunkID, answers[n]) then answers[n].data.value
      else []
  }

  ghost function ReadOutcome(sha: seq<Byte> -> string, R: int, chunkID: string,
                             answers: seq<Answer>): Result<seq<Byte>, QuorumError> {
    if Successes(sha, chunkID, answers) < R || FirstGood(sha, chunkID, answers) == [] then Err(NotReached)
    else Ok(FirstGood(sha, chunkID, answers))
  }

  /** How many answers are exactly these bytes. */
  ghost function IntactCount(data: seq<Byte>, answers: seq<Answer>): nat {
    if answers == [] then 0
    else
      var n := |answers| - 1;
      IntactCount(data, answers[..n]) + if answers[n].data == Some(data) then 1 else 0
  }

  ghost predicate NamesOnly(sha: seq<Byte> -> string, chunkID: string, data: seq<Byte>) {
    |chunkID| == 64 && sha(data) == chunkID && data != [] && forall d :: sha(d) == chunkID ==> d == data
  }

  lemma {:induction false} OnlyIntactCount(sha: seq<Byte> -> string, chunkID: string, data: seq<Byte>,
                                           answers: seq<Answer>)
    requires NamesOnly(sha, chunkID, data)
    ensures Successes(sha, chunkID, answers) == IntactCount(data, answers)
    ensures FirstGood(sha, chunkID, answers) == if IntactCount(data, answers) > 0 then data else []
  {
    if answers != [] {
      var n := |answers| - 1;
      OnlyIntactCount(sha, chunkID, data, answers[..n]);
      assert Counts(sha, chunkID, answers[n]) <==> answers[n].data == Some(data);
    }
  }

  /**
    * A read of a chunk named by its hash returns the chunk exactly when at least R, and at least one, of the answers
    * are intact, and fails otherwise; which they are, and in what order they and any corrupted answers come, is
    * immaterial.
    */
  lemma ReadReturnsChunk(sha: seq<Byte> -> string, R: int, chunkID: string, data: seq<Byte>, answers: seq<Answer>)
    requires NamesOnly(sha, chunkID, data)
    ensures ReadOutcome(sha, R, chunkID, answers) ==
            if IntactCount(data, answers) >= (if R < 1 then 1 else R) then Ok(data) else Err(NotReached)
  {
    OnlyIntactCount(sha, chunkID, data, answers);
  }

  lemma {:induction false} IntactCountConcat(data: seq<Byte>, a: seq<Answer>, b: seq<Answer>)
    ensures IntactCount(data, a + b) == IntactCount(data, a) + IntactCount(data, b)
  {
    if b == [] {
      assert a + b == a;
    } else {
      var n := |b| - 1;
      assert (a + b)[..|a + b| - 1] == a + b[..n];
      IntactCountConcat(data, a, b[..n]);
    }
  }

  lemma WithoutOne(data: seq<Byte>, b: seq<Answer>, i: nat)
    requires i < |b|
    ensures var rest := b[..i] + b[i + 1..];
            && multiset(rest) == multiset(b) - multiset{b[i]}
            && IntactCount(data, b) == IntactCount(data, rest) + if b[i].data == Some(data) then 1 else 0
  {
    assert b == b[..i] + [b[i]] + b[i + 1..];
    IntactCountConcat(data, b[..i] + [b[i]], b[i + 1..]);
    IntactCountConcat(data, b[..i], [b[i]]);
    IntactCountConcat(data, b[..i], b[i + 1..]);
    assert [b[i]][..0] == [];
  }

  /** The outcome is the same for every order in which the answers arrive. */
  lemma {:induction false} CountIgnoresOrder(data: seq<Byte>, a: seq<Answer>, b: seq<Answer>)
    requires multiset(a) == multiset(b)
    ensures IntactCount(data, a) == IntactCount(data, b)
    decreases |a|
  {
    hide IntactCount;
    assert |multiset(a)| == |a| && |multiset(b)| == |b|;
    if a == [] {
      assert a == b;
    } else {
      var n := |a| - 1;
      assert a[n] in multiset(a);
      var i :| 0 <= i < |b| && b[i] == a[n];
      WithoutOne(data, a, n);
      WithoutOne(data, b, i);
      CountIgnoresOrder(data, a[..n] + a[n + 1..], b[..i] + b[i + 1..]);
    }
  }

  function NonemptyCount(answers: seq<Answer>): nat {
    if answers == [] then 0
    else
      var n := |answers| - 1;
      NonemptyCount(answers[..n]) + if answers[n].data.Some? && answers[n].data.value != [] then 1 else 0
  }

  function FirstNonempty(answers: seq<Answer>): seq<Byte> {
    if answers == [] then []
    else if answers[0].data.Some? && answers[0].data.value != [] then answers[0].data.value
    else FirstNonempty(answers[1..])
  }

  /**
    * Names of another length are not checked: a read succeeds exactly when R answers, and at least one, have any
    * bytes, and gives the bytes that came first.
    */
  lemma UncheckedNames(sha: seq<Byte> -> string, R: int, chunkID: string, answers: seq<Answer>)
    requires |chunkID| != 64
    ensures ReadOutcome(sha, R, chunkID, answers) ==
            if NonemptyCount(answers) >= (if R < 1 then 1 else R) then Ok(FirstNonempty(answers)) else Err(NotReached)
  {
    NonemptyCounts(sha, chunkID, answers);
  }

  lemma {:induction false} NonemptyCounts(sha: seq<Byte> -> string, chunkID: string, answers: seq<Answer>)
    requires |chunkID| != 64
    ensures Successes(sha, chunkID, answers) == NonemptyCount(answers)
    ensures FirstGood(sha, chunkID, answers) == FirstNonempty(answers)
    ensures NonemptyCount(answers) > 0 <==> FirstNonempty(answers) != []
  {
    if answers != [] {
      var n := |answers| - 1;
      NonemptyCounts(sha, chunkID, answers[..n]);
      FirstNonemptyLast(answers);
    }
  }

  lemma {:induction false} FirstNonemptyLast(answers: seq<Answer>)
    requires answers != []
    ensures var n := |answers| - 1; var before := FirstNonempty(answers[..n]);
            FirstNonempty(answers) ==
              if before != [] then before else if answers[n].data.Some? then answers[n].data.value else []
  {
    var n := |answers| - 1;
    if n > 0 {
      FirstNonemptyLast(answers[1..]);
      assert answers[1..][..n - 1] == answers[..n][1..];
    }
  }

  class Replicas {
    const W: int
    const R: int
    const sha: seq<Byte> -> string
    var disks: Disks

    constructor (w: int, r: int, hash: seq<Byte> -> string)
      ensures W == w && R == r && sha == hash && disks == map[]
    {
      W, R, sha, disks := w, r, hash, map[];
    }

    /** These nodes hold the chunk. */
    ghost predicate Hold(nodes: seq<string>, chunkID: string, data: seq<Byte>)
      reads this
    {
      forall n | n in nodes :: (n, chunkID) in disks && disks[(n, chunkID)] == data
    }

    /** Nothing was overwritten, and new is only this chunk, with these bytes, on these nodes. */
    twostate predicate Added(chunkID: string, data: seq<Byte>, nodes: seq<string>)
      reads this
    {
      && (forall key | key in old(disks) :: key in disks && disks[key] == old(disks)[key])
      && (forall key | key in disks && key !in old(disks) :: key.1 == chunkID && key.0 in nodes && disks[key] == data)
    }

    /**
      * Writes to every target and collects the acknowledgements as they arrive; a node that does not acknowledge
      * may or may not have stored the bytes.  A node that has a file of that name acknowledges and keeps it, so the
      * returned locations hold the chunk exactly when none of them had other bytes there before.
      */
    method WriteChunk(chunkID: string, data: seq<Byte>, targetNodes: seq<string>, arrived: seq<(string, bool)>,
                      stored: string -> bool)
      returns (locations: seq<string>, err: Option<QuorumError>)
      requires multiset(Names(arrived)) == multiset(targetNodes)
      modifies this
      ensures targetNodes == [] ==> err == Some(NoTargets) && locations == [] && disks == old(disks)
      ensures targetNodes != [] ==> locations == Acked(arrived)
      ensures targetNodes != [] ==> Selects(locations, Names(arrived), Acknowledges(arrived))
      ensures targetNodes != [] ==>
        err == if Count(Acknowledges(arrived), |arrived|) >= W then None else Some(NotReached)
      ensures Hold(locations, chunkID, data) <==>
              forall n | n in locations && (n, chunkID) in old(disks) :: old(disks)[(n, chunkID)] == data
      ensures forall n | n in locations :: n in targetNodes && (n, chunkID) in disks
      ensures Added(chunkID, data, targetNodes)
    {
      hide Selects;
      if |targetNodes| == 0 { return [], Some(NoTargets); }
      locations := [];
      for i := 0 to |arrived|
        invariant locations == Acked(arrived[..i])
        invariant forall n | n in locations :: n in targetNodes && (n, chunkID) in disks
        invariant Added(chunkID, data, targetNodes)
      {
        assert arrived[..i + 1][..i] == arrived[..i];
        var (node, ok) := arrived[i];
        ArrivedIsTarget(arrived, targetNodes, i);
        if ok || stored(node) { disks := StoreOnce(disks, node, chunkID, data); }
        if ok { locations := locations + [node]; }
      }
      assert arrived[..|arrived|] == arrived;
      err := if |locations| < W then Some(NotReached) else None;
      AckedSelects(arrived, Acknowledges(arrived));
      SelectsCount(locations, Names(arrived), Acknowledges(arrived));
    }

    static lemma ArrivedIsTarget(arrived: seq<(string, bool)>, targetNodes: seq<string>, i: nat)
      requires multiset(Names(arrived)) == multiset(targetNodes) && i < |arrived|
      ensures arrived[i].0 in targetNodes
    {
      var nodes := Names(arrived);
      assert nodes[i] == arrived[i].0 && nodes[i] in multiset(nodes);
    }

    /** Counts the answers in the order they arrive and keeps the first one that counts. */
    method ReadChunk(chunkID: string, answers: seq<Answer>) returns (res: Result<seq<Byte>, QuorumError>)
      ensures res == if answers == [] then Err(NoTargets) else ReadOutcome(sha, R, chunkID, answers)
    {
      if |answers| == 0 { return Err(NoTargets); }
      var successfulData: seq<Byte> := [];
      var successfulReads := 0;
      for i := 0 to |answers|
        invariant successfulReads == Successes(sha, chunkID, answers[..i])
        invariant successfulData == FirstGood(sha, chunkID, answers[..i])
      {
        assert answers[..i + 1][..i] == answers[..i];
        var a := answers[i];
        if a.data.Some? && |a.data.value| > 0 {
          if |chunkID| == 64 && sha(a.data.value) != chunkID { continue; }
          successfulReads := successfulReads + 1;
          if |successfulData| == 0 { successfulData := a.data.value; }
        }
      }
      assert answers[..|answers|] == answers;
      if successfulReads < R || |successfulData| == 0 { return Err(NotReached); }
      return Ok(successfulData);
    }

    /**
      * After a write, a read from the returned locations, or without any from the nodes of the ring, gives the bytes
      * written exactly when R of the nodes asked still return them, whatever the others answer and in whatever order
      * the answers arrive.
      */
    method WriteThenRead(chunkID: string, data: seq<Byte>, targetNodes: seq<string>, arrived: seq<(string, bool)>,
                         stored: string -> bool, ringNodes: seq<string>, respond: string -> Option<seq<Byte>>,
                         reorder: seq<Answer> -> seq<Answer>)
      returns (locations: seq<string>, err: Option<QuorumError>, res: Result<seq<Byte>, QuorumError>)
      requires multiset(Names(arrived)) == multiset(targetNodes)
      requires NamesOnly(sha, chunkID, data)
      requires forall answers :: multiset(reorder(answers)) == multiset(answers)
      modifies this
      ensures locations == Acked(arrived) && Added(chunkID, data, targetNodes)
      ensures var nodes := if locations == [] then ringNodes else locations;
              res == if nodes == [] then Err(NoTargets)
                     else if IntactCount(data, Responses(nodes, respond)) >= (if R < 1 then 1 else R) then Ok(data)
                     else Err(NotReached)
    {
      locations, err := WriteChunk(chunkID, data, targetNodes, arrived, stored);
      if |targetNodes| == 0 { assert |multiset(targetNodes)| == |arrived|; }
      var nodes := if |locations| == 0 then ringNodes else locations;
      var answers := Responses(nodes, respond);
      var inOrder := reorder(answers);
      assert |multiset(inOrder)| == |inOrder| && |multiset(answers)| == |answers|;
      res := ReadChunk(chunkID, inOrder);
      ReadReturnsChunk(sha, R, chunkID, data, inOrder);
      CountIgnoresOrder(data, inOrder, answers);
    }

    static function Responses(nodes: seq<string>, respond: string -> Option<seq<Byte>>): (answers: seq<Answer>)
      ensures |answers| == |nodes|
    {
      seq(|nodes|, i requires 0 <= i < |nodes| => Answer(nodes[i], respond(nodes[i])))
    }
  }
}
