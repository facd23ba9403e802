/** Reconstruction that first discards the shards whose checksum is not the expected one. */
module VerifiedReconstruction {
  import opened Bytes
  import opened Recoverability
  import opened EncoderCode
  import opened ReedSolomon
  import opened Wrappers

  /** No expectation, or an empty one, accepts any bytes. */
  predicate Accepted(sum: seq<Byte> -> string, expected: map<nat, string>, index: nat, data: seq<Byte>) {
    index !in expected || expected[index] == "" || sum(data) == expected[index]
  }

  function ValidShards(sum: seq<Byte> -> string, available: map<nat, seq<Byte>>,
                       expected: map<nat, string>): map<nat, seq<Byte>> {
    map i | i in available && Accepted(sum, expected, i, available[i]) :: available[i]
  }

  /** All shards are used exactly when each has its checksum, wherever one other than the empty one is expected. */
  lemma AllAcceptedIff(sum: seq<Byte> -> string, available: map<nat, seq<Byte>>, expected: map<nat, string>)
    ensures forall i :: i in ValidShards(sum, available, expected) ==>
                          i in available && ValidShards(sum, available, expected)[i] == available[i]
    ensures forall i :: i in available && i !in ValidShards(sum, available, expected) <==>
                          i in available && i in expected && expected[i] != "" && sum(available[i]) != expected[i]
    ensures ValidShards(sum, available, expected) == available <==>
            forall i | i in available && i in expected && expected[i] != "" :: sum(available[i]) == expected[i]
  {
    var valid := ValidShards(sum, available, expected);
    if valid != available { assert valid.Keys != available.Keys; }
  }

  /** Reconstructs from the accepted shards; their lengths may differ. */
  method ReconstructVerified(e: Encoder, available: map<nat, seq<Byte>>, expected: map<nat, string>,
                             originalLength: int)
    returns (res: Result<seq<Byte>, CodingError>)
    requires e.Valid()
    ensures e.Reconstructs(ValidShards(e.computeChecksum, available, expected), originalLength, res)
  {
    hide Encoder.DecodesTo; hide Flatten;
    var validShards: map<nat, seq<Byte>> := map[];
    var keys := available.Keys;
    while keys != {}
      invariant keys <= available.Keys
      invariant validShards == map i | i in available && i !in keys
                && Accepted(e.computeChecksum, expected, i, available[i]) :: available[i]
      decreases keys
    {
      var idx :| idx in keys;
      keys := keys - {idx};
      if idx in expected && expected[idx] != "" && e.computeChecksum(available[idx]) != expected[idx] { continue; }
      validShards := validShards[idx := available[idx]];
    }
    assert validShards == ValidShards(e.computeChecksum, available, expected);
    if |validShards| < e.K { return Err(Insufficient); }
    res := e.Reconstruct(validShards, originalLength);
  }

  /** The received shards that are what was encoded. */
  ghost function Intact(shards: seq<Shard>, received: map<nat, seq<Byte>>): set<nat> {
    set i | i in received && i < |shards| && received[i] == shards[i].data
  }

  /**
    * With every checksum expected, and no other bytes of the same checksum received, what is accepted is what is
    * intact.
    */
  lemma AcceptedIsIntact(sum: seq<Byte> -> string, shards: seq<Shard>, received: map<nat, seq<Byte>>,
                         expected: map<nat, string>)
    requires forall i | i in received :: i < |shards| && i in expected && expected[i] == sum(shards[i].data) != ""
    requires forall i | i in received :: sum(received[i]) == sum(shards[i].data) ==> received[i] == shards[i].data
    ensures ValidShards(sum, received, expected) == Survivors(shards, Intact(shards, received))
  {
    var valid, alive := ValidShards(sum, received, expected), Survivors(shards, Intact(shards, received));
    assert valid.Keys == alive.Keys;
  }

  /**
    * Encoding, an arbitrary corruption and loss of shards, and verified reconstruction with the checksums that the
    * encoder computed: the outcome is decided by the intact shards alone.
    */
  method EncodeCorruptReconstruct(e: Encoder, data: seq<Byte>, corrupt: seq<Shard> -> map<nat, seq<Byte>>)
    returns (res: Result<seq<Byte>, CodingError>, shards: seq<Shard>)
    requires e.Valid() && data != []
    requires forall x, y :: e.computeChecksum(x) == e.computeChecksum(y) ==> x == y
    requires forall x :: e.computeChecksum(x) != ""
    requires forall s, i | i in corrupt(s) :: i < e.K + e.M
    ensures |shards| == e.K + e.M
    ensures var alive := Intact(shards, corrupt(shards));
            && (|alive| < e.K ==> res == Err(Insufficient))
            && (|alive| >= e.K && Recoverable(e.K, e.M) ==> res == Ok(data))
            && (|alive| == e.K ==> res == if CODE.Nonsingular(e.K, alive) then Ok(data) else Err(SingularRows))
            && (res.Ok? ==> res.value == data)
  {
    hide Codes; hide Code.Nonsingular; hide Flatten; hide Blocks; hide Padded; hide Truncated; hide ShardData;
    hide Encoder.Reconstructs; hide Recoverable;
    var encoded := e.Encode(data);
    shards := encoded.value;
    var received := corrupt(shards);
    var expected := map i: nat | i < |shards| :: shards[i].checksum;
    ghost var alive := Intact(shards, received);
    AcceptedIsIntact(e.computeChecksum, shards, received, expected);
    SurvivorsCode(e, data, shards, alive);
    res := ReconstructVerified(e, received, expected, |data|);
    assert |Survivors(shards, alive)| == |Survivors(shards, alive).Keys| == |alive|;
    RoundTripOutcome(e, data, Survivors(shards, alive), res);
  }
}
