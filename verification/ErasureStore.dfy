/** Erasure-coded chunks placed on and read back from the nodes of the cluster. */
module ErasureStore {
  import opened Bytes
  import opened Disks
  import opened Decimal
  import opened GaloisTables
  import opened Recoverability
  import opened EncoderCode
  import opened ReedSolomon
  import opened Wrappers

  datatype StoreError =
    | NoNodes | WriteFailed | TooFewShards | NotReconstructed | TooShort | BadHeader
    | DivideByZero | IndexOutOfRange

  // The four-byte big-endian length header.

  const WORD := 0x1_0000_0000

  function BigEndian(n: nat): (h: seq<Byte>)
    ensures |h| == 4
  {
    [FromNat(n / 0x100_0000 % 0x100), FromNat(n / 0x1_0000 % 0x100), FromNat(n / 0x100 % 0x100), FromNat(n % 0x100)]
  }

  function FromBigEndian(h: seq<Byte>): nat
    requires |h| == 4
  {
    ToNat(h[0]) * 0x100_0000 + ToNat(h[1]) * 0x1_0000 + ToNat(h[2]) * 0x100 + ToNat(h[3])
  }

  lemma LowDigit(n: nat)
    ensures n % 0x1_0000 == n / 0x100 % 0x100 * 0x100 + n % 0x100
  {
    var q, r := n / 0x100, n % 0x100;
    var h, d := q / 0x100, q % 0x100;
    assert n == 0x1_0000 * h + (0x100 * d + r) && 0 <= 0x100 * d + r < 0x1_0000;
  }

  lemma MiddleDigit(n: nat)
    ensures n % 0x100_0000 == n / 0x1_0000 % 0x100 * 0x1_0000 + n % 0x1_0000
  {
    var q, r := n / 0x1_0000, n % 0x1_0000;
    var h, d := q / 0x100, q % 0x100;
    assert n == 0x100_0000 * h + (0x1_0000 * d + r) && 0 <= 0x1_0000 * d + r < 0x100_0000;
  }

  lemma HighDigit(n: nat)
    ensures n % WORD == n / 0x100_0000 % 0x100 * 0x100_0000 + n % 0x100_0000
  {
    var q, r := n / 0x100_0000, n % 0x100_0000;
    var h, d := q / 0x100, q % 0x100;
    assert n == WORD * h + (0x100_0000 * d + r) && 0 <= 0x100_0000 * d + r < WORD;
  }

  /** The header holds the length modulo 2^32. */
  lemma HeaderRoundTrip(n: nat)
    ensures FromBigEndian(BigEndian(n)) == n % WORD
  {
    hide ToNat; hide FromNat;
    LowDigit(n);
    MiddleDigit(n);
    HighDigit(n);
    var a, b, c, d := n / 0x100_0000 % 0x100, n / 0x1_0000 % 0x100, n / 0x100 % 0x100, n % 0x100;
    ToFrom(a); ToFrom(b); ToFrom(c); ToFrom(d);
  }

  /** The most significant byte comes first: longer data have the greater header. */
  lemma HeaderOrder(m: nat, n: nat)
    requires m < n < WORD
    ensures exists k | 0 <= k < 4 ::
      BigEndian(m)[..k] == BigEndian(n)[..k] && ToNat(BigEndian(m)[k]) < ToNat(BigEndian(n)[k])
  {
    hide ToNat; hide BigEndian;
    HeaderRoundTrip(m);
    HeaderRoundTrip(n);
    SmallMod(m, WORD);
    SmallMod(n, WORD);
    var g, h := BigEndian(m), BigEndian(n);
    forall i | 0 <= i < 4 && ToNat(g[i]) == ToNat(h[i]) ensures g[i] == h[i] { ToNatInjective(g[i], h[i]); }
    var k := if g[0] != h[0] then 0 else if g[1] != h[1] then 1 else if g[2] != h[2] then 2 else 3;
    assert g[..k] == h[..k];
  }

  function Payload(data: seq<Byte>): seq<Byte> { BigEndian(|data|) + data }

  /** The bytes after the header, as many as the header says. */
  function Unwrap(buf: seq<Byte>): Result<seq<Byte>, StoreError> {
    if |buf| < 4 then Err(TooShort)
    else
      var n := FromBigEndian(buf[..4]);
      if 4 + n > |buf| then Err(BadHeader) else Ok(buf[4..4 + n])
  }

  function Kept(data: seq<Byte>): seq<Byte> { data[..|data| % WORD] }

  function ShardId(chunkID: string, i: nat): string { chunkID + ".s" + Itoa(i) }

  lemma ShardIdInjective(chunkID: string, i: nat, j: nat)
    requires ShardId(chunkID, i) == ShardId(chunkID, j)
    ensures i == j
  {
    assert ShardId(chunkID, i)[|chunkID| + 2..] == Itoa(i);
    assert ShardId(chunkID, j)[|chunkID| + 2..] == Itoa(j);
    ItoaInjective(i, j);
  }

  /** Where shard i is looked for. */
  function Place(chunkID: string, nodes: seq<string>, i: nat): (string, string)
    requires nodes != []
  {
    (nodes[i % |nodes|], ShardId(chunkID, i))
  }

  lemma PlacesDiffer(chunkID: string, nodes: seq<string>, i: nat, j: nat)
    requires nodes != [] && i != j
    ensures Place(chunkID, nodes, i) != Place(chunkID, nodes, j)
  {
    if ShardId(chunkID, i) == ShardId(chunkID, j) { ShardIdInjective(chunkID, i, j); }
  }

  lemma SameSet(s: set<nat>, t: set<nat>)
    requires s <= t && |s| == |t|
    ensures s == t
  {
    assert |t - s| == 0;
  }

  lemma SmallMod(i: nat, n: nat)
    requires i < n
    ensures i % n == i
  {}

  /** How many of the first n shards can be read. */
  ghost function CountReadable(ok: nat -> bool, n: nat): (c: nat)
    ensures c <= n
  {
    if n == 0 then 0 else CountReadable(ok, n - 1) + if ok(n - 1) then 1 else 0
  }

  /** The targets of the writes that succeed, in order. */
  function Acknowledged(targetNodes: seq<string>, writes: nat -> bool, n: nat): seq<string>
    requires targetNodes != []
  {
    if n == 0 then []
    else Acknowledged(targetNodes, writes, n - 1) + if writes(n - 1) then [targetNodes[(n - 1) % |targetNodes|]] else []
  }

  lemma {:induction false} AllAcknowledged(targetNodes: seq<string>, writes: nat -> bool, n: nat)
    requires targetNodes != [] && forall i: nat | i < n :: writes(i)
    ensures |Acknowledged(targetNodes, writes, n)| == n
    ensures forall i: nat | i < n :: Acknowledged(targetNodes, writes, n)[i] == targetNodes[i % |targetNodes|]
  {
    if n > 0 { AllAcknowledged(targetNodes, writes, n - 1); }
  }

  lemma SamePlace(chunkID: string, targetNodes: seq<string>, locations: seq<string>, i: nat)
    requires targetNodes != [] && i < |locations| && locations[i] == targetNodes[i % |targetNodes|]
    ensures Place(chunkID, locations, i) == Place(chunkID, targetNodes, i)
  {
    SmallMod(i, |locations|);
  }

  /** The disks after the first n writes. */
  function PutAll(disks: Disks, chunkID: string, targetNodes: seq<string>, writes: nat -> bool, shards: seq<Shard>,
                  n: nat): Disks
    requires targetNodes != [] && n <= |shards|
  {
    if n == 0 then disks
    else
      var before := PutAll(disks, chunkID, targetNodes, writes, shards, n - 1);
      if writes(n - 1)
      then StoreOnce(before, targetNodes[(n - 1) % |targetNodes|], ShardId(chunkID, n - 1), shards[n - 1].data)
      else before
  }

  /** Nothing was overwritten, the shards written are there, and what is new is one of them at its place. */
  ghost predicate Added(before: Disks, after: Disks, chunkID: string, targetNodes: seq<string>, writes: nat -> bool,
                        shards: seq<Shard>)
    requires targetNodes != []
  {
    && (forall key | key in before :: key in after && after[key] == before[key])
    && (forall i: nat | i < |shards| && writes(i) :: Place(chunkID, targetNodes, i) in after)
    && (forall key | key in after && key !in before ::
          exists i: nat ::
            i < |shards| && writes(i) && key == Place(chunkID, targetNodes, i) && after[key] == shards[i].data)
  }

  lemma {:induction false} PutAllAdds(disks: Disks, chunkID: string, targetNodes: seq<string>, writes: nat -> bool,
                                      shards: seq<Shard>, n: nat)
    requires targetNodes != [] && n <= |shards|
    ensures Added(disks, PutAll(disks, chunkID, targetNodes, writes, shards, n), chunkID, targetNodes, writes,
                  shards[..n])
    ensures n == |shards| ==> shards[..n] == shards
  {
    hide ShardId;
    if n > 0 { PutAllAdds(disks, chunkID, targetNodes, writes, shards, n - 1); }
  }

  lemma AddedAt(before: Disks, after: Disks, chunkID: string, targetNodes: seq<string>, writes: nat -> bool,
                shards: seq<Shard>, i: nat)
    requires targetNodes != [] && Added(before, after, chunkID, targetNodes, writes, shards) && i < |shards|
             && writes(i)
    ensures var key := Place(chunkID, targetNodes, i);
            key in after && after[key] == if key in before then before[key] else shards[i].data
  {
    hide Place;
    var key := Place(chunkID, targetNodes, i);
    if key !in before {
      var j: nat :| j < |shards| && writes(j) && key == Place(chunkID, targetNodes, j) && after[key] == shards[j].data;
      if j != i { PlacesDiffer(chunkID, targetNodes, i, j); }
    }
  }

  class ErasureCoordinator {
    const e: Encoder
    var disks: Disks

    constructor (encoder: Encoder)
      ensures e == encoder && disks == map[]
    {
      e, disks := encoder, map[];
    }

    ghost predicate ShardIs(data: seq<Byte>, i: nat, bytes: seq<Byte>)
      requires e.K > 0
    {
      var payload := Payload(data);
      var size := ShardSize(|payload|, e.K);
      bytes == ShardData(Blocks(Padded(payload, e.K), e.K, size), e.K, size, i)
    }

    /** Every shard of the chunk lies at its recorded location. */
    ghost predicate Stored(chunkID: string, data: seq<Byte>, locations: seq<string>)
      reads this
      requires e.K > 0
    {
      && |locations| == e.K + e.M
      && forall i: nat | i < e.K + e.M ::
           Place(chunkID, locations, i) in disks && ShardIs(data, i, disks[Place(chunkID, locations, i)])
    }

    /** No other bytes lie where the shards go. */
    ghost predicate Clean(before: Disks, chunkID: string, data: seq<Byte>, targetNodes: seq<string>)
      requires e.K > 0 && targetNodes != []
    {
      forall i: nat | i < e.K + e.M && Place(chunkID, targetNodes, i) in before ::
        ShardIs(data, i, before[Place(chunkID, targetNodes, i)])
    }

    /**
      * Encodes the length-prefixed data and writes shard i to target i modulo the number of targets.  When all
      * writes succeed the chunk is stored exactly when no other bytes lay where its shards go.
      */
    method PutErasureChunk(chunkID: string, data: seq<Byte>, targetNodes: seq<string>, writes: nat -> bool)
      returns (locations: seq<string>, err: Option<StoreError>, ghost shards: seq<Shard>)
      requires e.Valid()
      modifies this
      ensures |shards| == e.K + e.M && forall i: nat | i < e.K + e.M :: ShardIs(data, i, shards[i].data)
      ensures targetNodes == [] ==> locations == [] && err == Some(NoNodes) && disks == old(disks)
      ensures targetNodes != [] ==> Added(old(disks), disks, chunkID, targetNodes, writes, shards)
      ensures targetNodes != [] ==> locations == Acknowledged(targetNodes, writes, e.K + e.M)
      ensures targetNodes != [] ==> err == if |locations| >= e.K then None else Some(WriteFailed)
      ensures targetNodes != [] && (forall i: nat | i < e.K + e.M :: writes(i)) ==>
        (Stored(chunkID, data, locations) <==> Clean(old(disks), chunkID, data, targetNodes))
    {
      hide Blocks; hide Padded; hide ShardData; hide BigEndian; hide ShardIs; hide Stored; hide ShardSize; hide Clean;
      hide Added;
      var encoded := e.Encode(Payload(data));
      shards := encoded.value;
      ShardsAre(data, shards);
      if |targetNodes| == 0 { return [], Some(NoNodes), shards; }
      locations := WriteShards(chunkID, encoded.value, targetNodes, writes);
      err := if |locations| < e.K then Some(WriteFailed) else None;
      StoredWhenClean(old(disks), chunkID, data, targetNodes, writes, locations, shards);
    }

    /** Writes every shard to its target, and lists the targets of the writes that succeeded. */
    method WriteShards(chunkID: string, shards: seq<Shard>, targetNodes: seq<string>, writes: nat -> bool)
      returns (locations: seq<string>)
      requires targetNodes != []
      modifies this
      ensures Added(old(disks), disks, chunkID, targetNodes, writes, shards)
      ensures locations == Acknowledged(targetNodes, writes, |shards|)
    {
      hide Added; hide ShardId;
      locations := [];
      for i := 0 to |shards|
        invariant locations == Acknowledged(targetNodes, writes, i)
        invariant disks == PutAll(old(disks), chunkID, targetNodes, writes, shards, i)
      {
        var target := targetNodes[i % |targetNodes|];
        if writes(i) {
          disks := StoreOnce(disks, target, ShardId(chunkID, i), shards[i].data);
          locations := locations + [target];
        }
      }
      PutAllAdds(old(disks), chunkID, targetNodes, writes, shards, |shards|);
    }

    lemma StoredWhenClean(before: Disks, chunkID: string, data: seq<Byte>, targetNodes: seq<string>,
                          writes: nat -> bool, locations: seq<string>, shards: seq<Shard>)
      requires e.K > 0 && targetNodes != [] && |shards| == e.K + e.M
      requires locations == Acknowledged(targetNodes, writes, e.K + e.M)
      requires Added(before, disks, chunkID, targetNodes, writes, shards)
      requires forall i: nat | i < e.K + e.M :: ShardIs(data, i, shards[i].data)
      ensures (forall i: nat | i < e.K + e.M :: writes(i)) ==>
        (Stored(chunkID, data, locations) <==> Clean(before, chunkID, data, targetNodes))
    {
      hide ShardIs; hide Place; hide Added; hide Acknowledged;
      if exists i: nat :: i < e.K + e.M && !writes(i) { return; }
      AllAcknowledged(targetNodes, writes, e.K + e.M);
      forall i: nat | i < e.K + e.M
        ensures Place(chunkID, locations, i) == Place(chunkID, targetNodes, i)
                && Place(chunkID, targetNodes, i) in disks
        ensures var key := Place(chunkID, targetNodes, i);
                disks[key] == if key in before then before[key] else shards[i].data
      {
        SamePlace(chunkID, targetNodes, locations, i);
        AddedAt(before, disks, chunkID, targetNodes, writes, shards, i);
      }
    }

    lemma ShardsAre(data: seq<Byte>, shards: seq<Shard>)
      requires e.K > 0 && |shards| == e.K + e.M
      requires var p := Payload(data); forall i | 0 <= i < e.K + e.M ::
        e.IsShard(shards[i], Blocks(Padded(p, e.K), e.K, ShardSize(|p|, e.K)), ShardSize(|p|, e.K), i)
      ensures forall i: nat | i < e.K + e.M :: ShardIs(data, i, shards[i].data)
    {
      hide Blocks; hide Padded; hide ShardData;
    }

    /** Shard i is on its node, is not empty and its node answers. */
    predicate Readable(chunkID: string, nodes: seq<string>, answers: nat -> bool, i: nat)
      requires nodes != []
      reads this
    {
      var key := Place(chunkID, nodes, i);
      answers(i) && key in disks && |disks[key]| > 0
    }

    ghost function ShardAt(chunkID: string, nodes: seq<string>, i: nat): seq<Byte>
      requires nodes != []
      reads this
    {
      var key := Place(chunkID, nodes, i);
      if key in disks then disks[key] else []
    }

    ghost function ReadableCount(chunkID: string, nodes: seq<string>, answers: nat -> bool, n: nat): (c: nat)
      requires nodes != []
      reads this
      ensures c <= n
    {
      if n == 0 then 0
      else ReadableCount(chunkID, nodes, answers, n - 1) + if Readable(chunkID, nodes, answers, n - 1) then 1 else 0
    }

    /** The first K of the first n shards that can be read. */
    ghost function Gathered(chunkID: string, nodes: seq<string>, answers: nat -> bool, n: nat): map<nat, seq<Byte>>
      requires nodes != []
      reads this
    {
      if n == 0 then map[]
      else
        var before := Gathered(chunkID, nodes, answers, n - 1);
        if |before| < e.K && Readable(chunkID, nodes, answers, n - 1)
        then before[n - 1 := ShardAt(chunkID, nodes, n - 1)] else before
    }

    lemma {:induction false} GatheredShards(chunkID: string, nodes: seq<string>, answers: nat -> bool, n: nat)
      requires nodes != []
      ensures var g := Gathered(chunkID, nodes, answers, n);
              && (forall j | j in g ::
                    j < n && Readable(chunkID, nodes, answers, j) && g[j] == ShardAt(chunkID, nodes, j))
              && var count := ReadableCount(chunkID, nodes, answers, n);
                 |g| == if count < e.K then count else e.K
    {
      hide Readable; hide ShardAt;
      if n > 0 { GatheredShards(chunkID, nodes, answers, n - 1); }
    }

    /** They are the first that can be read. */
    lemma {:induction false} GatheredFirst(chunkID: string, nodes: seq<string>, answers: nat -> bool, j: nat, n: nat)
      requires nodes != [] && j < n && Readable(chunkID, nodes, answers, j)
      ensures j in Gathered(chunkID, nodes, answers, n) <==> ReadableCount(chunkID, nodes, answers, j) < e.K
    {
      hide Readable; hide ShardAt; hide ReadableCount; hide Gathered;
      GatheredStep(chunkID, nodes, answers, n - 1);
      GatheredShards(chunkID, nodes, answers, n - 1);
      if j < n - 1 { GatheredFirst(chunkID, nodes, answers, j, n - 1); }
    }

    lemma GatheredStep(chunkID: string, nodes: seq<string>, answers: nat -> bool, n: nat)
      requires nodes != []
      ensures Gathered(chunkID, nodes, answers, 0) == map[]
      ensures var before := Gathered(chunkID, nodes, answers, n);
              Gathered(chunkID, nodes, answers, n + 1) ==
                if |before| < e.K && Readable(chunkID, nodes, answers, n)
                then before[n := ShardAt(chunkID, nodes, n)] else before
    {
      hide Readable; hide ShardAt;
    }

    lemma {:induction false} GatheredStops(chunkID: string, nodes: seq<string>, answers: nat -> bool, i: nat, n: nat)
      requires nodes != [] && i <= n && |Gathered(chunkID, nodes, answers, i)| >= e.K
      ensures Gathered(chunkID, nodes, answers, n) == Gathered(chunkID, nodes, answers, i)
    {
      hide Readable; hide ShardAt;
      if i < n { GatheredStops(chunkID, nodes, answers, i, n - 1); }
    }

    /** One read: fails when the node does not answer, the shard is absent, or it is empty. */
    method ReadShard(chunkID: string, nodes: seq<string>, answers: nat -> bool, i: nat) returns (r: Option<seq<Byte>>)
      requires nodes != []
      ensures r == if Readable(chunkID, nodes, answers, i) then Some(ShardAt(chunkID, nodes, i)) else None
    {
      hide Place;
      var key := Place(chunkID, nodes, i);
      if answers(i) && key in disks && |disks[key]| > 0 { return Some(disks[key]); }
      return None;
    }

    /** Reads the shards in order and stops as soon as K were read. */
    method GatherShards(chunkID: string, nodes: seq<string>, answers: nat -> bool)
      returns (available: map<nat, seq<Byte>>)
      requires nodes != [] && e.K > 0
      ensures available == Gathered(chunkID, nodes, answers, e.K + e.M)
    {
      hide Readable; hide ShardAt; hide Gathered;
      available := map[];
      GatheredStep(chunkID, nodes, answers, 0);
      var i := 0;
      while i < e.K + e.M && |available| < e.K
        invariant i <= e.K + e.M && available == Gathered(chunkID, nodes, answers, i)
      {
        GatheredStep(chunkID, nodes, answers, i);
        var r := ReadShard(chunkID, nodes, answers, i);
        if r.Some? { available := available[i := r.value]; }
        i := i + 1;
      }
      if i < e.K + e.M { GatheredStops(chunkID, nodes, answers, i, e.K + e.M); }
    }

    lemma StoredShard(chunkID: string, data: seq<Byte>, locations: seq<string>, i: nat)
      requires e.K > 0 && Stored(chunkID, data, locations) && i < e.K + e.M
      ensures var p := Payload(data); var size := ShardSize(|p|, e.K);
              && Place(chunkID, locations, i) in disks && size > 0
              && disks[Place(chunkID, locations, i)] == ShardData(Blocks(Padded(p, e.K), e.K, size), e.K, size, i)
    {
      hide Blocks; hide Padded; hide ShardData; hide Place;
      ShardSizeCovers(|Payload(data)|, e.K);
    }

    lemma {:induction false} StoredIsReadable(chunkID: string, data: seq<Byte>, locations: seq<string>,
                                              answers: nat -> bool, n: nat)
      requires e.K > 0 && Stored(chunkID, data, locations) && n <= e.K + e.M
      ensures ReadableCount(chunkID, locations, answers, n) == CountReadable(answers, n)
    {
      hide Stored; hide Blocks; hide Padded; hide Place;
      if n > 0 {
        StoredIsReadable(chunkID, data, locations, answers, n - 1);
        StoredShard(chunkID, data, locations, n - 1);
      }
    }

    lemma StoredCodes(chunkID: string, data: seq<Byte>, locations: seq<string>, available: map<nat, seq<Byte>>)
      requires e.K > 0 && Stored(chunkID, data, locations) && locations != []
      requires forall j | j in available :: j < e.K + e.M && available[j] == ShardAt(chunkID, locations, j)
      ensures var p := Payload(data); var size := ShardSize(|p|, e.K);
              Codes(available, Blocks(Padded(p, e.K), e.K, size), e.K, size)
    {
      hide Blocks; hide Padded; hide ShardData; hide Place; hide Stored;
      forall j | j in available { StoredShard(chunkID, data, locations, j); }
    }

    /** What reading makes of a reconstruction. */
    static function Stripped(r: Result<seq<Byte>, CodingError>): Result<seq<Byte>, StoreError> {
      match r
      case Ok(buf) => Unwrap(buf)
      case Err(IndexOutOfRange) => Err(StoreError.IndexOutOfRange)
      case Err(_) => Err(NotReconstructed)
    }

    /** The outcomes of reading with these shards at hand. */
    ghost predicate ReadsTo(available: map<nat, seq<Byte>>, res: Result<seq<Byte>, StoreError>) {
      if |available| < e.K then res == Err(TooFewShards)
      else exists r | e.Reconstructs(available, 0, r) :: res == Stripped(r)
    }

    /**
      * Reads K shards, reconstructs, and strips header and padding; without any node the index is a division by zero.
      */
    method ReadErasureChunk(chunkID: string, locations: seq<string>, ringNodes: seq<string>, answers: nat -> bool)
      returns (res: Result<seq<Byte>, StoreError>)
      requires e.Valid()
      ensures var nodes := if locations == [] then ringNodes else locations;
              if nodes == [] then res == Err(DivideByZero)
              else ReadsTo(Gathered(chunkID, nodes, answers, e.K + e.M), res)
    {
      hide Encoder.Reconstructs; hide Unwrap; hide Gathered;
      var nodes := if |locations| == 0 then ringNodes else locations;
      if |nodes| == 0 { return Err(DivideByZero); }
      var available := GatherShards(chunkID, nodes, answers);
      if |available| < e.K { return Err(TooFewShards); }
      var r := e.Reconstruct(available, 0);
      res := Stripped(r);
    }

    /**
      * Of a stored chunk the bytes come back, cut to its length modulo 2^32, when K of its shards can be read and the
      * rows of those read are regular, so always with recoverable parameters; else an error.
      */
    lemma StoredIsRead(chunkID: string, data: seq<Byte>, locations: seq<string>, answers: nat -> bool,
                       res: Result<seq<Byte>, StoreError>)
      requires e.K > 0 && e.M > 0 && locations != [] && Stored(chunkID, data, locations)
      requires ReadsTo(Gathered(chunkID, locations, answers, e.K + e.M), res)
      ensures CountReadable(answers, e.K + e.M) < e.K ==> res == Err(TooFewShards)
      ensures CountReadable(answers, e.K + e.M) >= e.K ==>
        var read := Gathered(chunkID, locations, answers, e.K + e.M).Keys;
        && |read| == e.K
        && (forall i: nat :: i in read <==> i < e.K + e.M && answers(i) && CountReadable(answers, i) < e.K)
        && (res == if CODE.Nonsingular(e.K, read) then Ok(Kept(data)) else Err(NotReconstructed))
        && (Recoverable(e.K, e.M) ==> res == Ok(Kept(data)))
    {
      hide Gathered; hide Code.Nonsingular; hide Recoverable; hide Stored; hide ReadableCount; hide ReadsTo;
      hide CountReadable; hide Kept; hide Readable; hide ShardAt;
      GatheredShards(chunkID, locations, answers, e.K + e.M);
      StoredIsReadable(chunkID, data, locations, answers, e.K + e.M);
      var available := Gathered(chunkID, locations, answers, e.K + e.M);
      if CountReadable(answers, e.K + e.M) >= e.K {
        assert |available| == |available.Keys| == e.K;
        forall i: nat ensures i in available <==> i < e.K + e.M && answers(i) && CountReadable(answers, i) < e.K {
          GatheredIff(chunkID, data, locations, answers, i);
        }
      }
      ReadsToStored(chunkID, data, locations, available, res);
    }

    lemma GatheredIff(chunkID: string, data: seq<Byte>, locations: seq<string>, answers: nat -> bool, i: nat)
      requires e.K > 0 && locations != [] && Stored(chunkID, data, locations)
      ensures i in Gathered(chunkID, locations, answers, e.K + e.M) <==>
              i < e.K + e.M && answers(i) && CountReadable(answers, i) < e.K
    {
      hide Gathered; hide Stored; hide ReadableCount; hide CountReadable; hide Readable; hide ShardAt;
      GatheredShards(chunkID, locations, answers, e.K + e.M);
      if i < e.K + e.M {
        ReadableIff(chunkID, data, locations, answers, i);
        if answers(i) {
          GatheredFirst(chunkID, locations, answers, i, e.K + e.M);
          StoredIsReadable(chunkID, data, locations, answers, i);
        }
      }
    }

    lemma ReadableIff(chunkID: string, data: seq<Byte>, locations: seq<string>, answers: nat -> bool, i: nat)
      requires e.K > 0 && Stored(chunkID, data, locations) && i < e.K + e.M
      ensures Readable(chunkID, locations, answers, i) <==> answers(i)
    {
      hide Stored; hide Blocks; hide Padded; hide Place;
      StoredShard(chunkID, data, locations, i);
    }

    lemma ReadsToStored(chunkID: string, data: seq<Byte>, locations: seq<string>, available: map<nat, seq<Byte>>,
                        res: Result<seq<Byte>, StoreError>)
      requires e.K > 0 && e.M > 0 && locations != [] && Stored(chunkID, data, locations) && |available| <= e.K
      requires forall j | j in available :: j < e.K + e.M && available[j] == ShardAt(chunkID, locations, j)
      requires ReadsTo(available, res)
      ensures |available| < e.K ==> res == Err(TooFewShards)
      ensures |available| == e.K ==>
        && (res == if CODE.Nonsingular(e.K, available.Keys) then Ok(Kept(data)) else Err(NotReconstructed))
        && (Recoverable(e.K, e.M) ==> res == Ok(Kept(data)))
    {
      hide Blocks; hide Padded; hide Codes; hide Code.Nonsingular; hide Recoverable; hide ShardSize; hide Stored;
      hide Encoder.Reconstructs; hide Kept; hide ShardAt; hide Unwrap;
      if |available| == e.K {
        StoredCodes(chunkID, data, locations, available);
        assert |available| == |available.Keys|;
        var r :| e.Reconstructs(available, 0, r) && res == Stripped(r);
        StoredOutcome(data, available, r);
        if r == Err(SingularRows) { SomeSelectionSingular(e.K, e.M, available.Keys); }
      }
    }

    lemma StoredOutcome(data: seq<Byte>, available: map<nat, seq<Byte>>, r: Result<seq<Byte>, CodingError>)
      requires e.K > 0 && |available| == e.K && e.Reconstructs(available, 0, r)
      requires var p := Payload(data); var size := ShardSize(|p|, e.K);
               Codes(available, Blocks(Padded(p, e.K), e.K, size), e.K, size)
      ensures if CODE.Nonsingular(e.K, available.Keys) then Stripped(r) == Ok(Kept(data)) else r == Err(SingularRows)
    {
      hide Blocks; hide Padded; hide Codes; hide Code.Nonsingular; hide ShardSize; hide Truncated; hide Flatten;
      hide Unwrap; hide Encoder.Reconstructs; hide BigEndian;
      var p := Payload(data);
      var size := ShardSize(|p|, e.K);
      SameSize(available, Blocks(Padded(p, e.K), e.K, size), e.K, size);
      e.CodedIsRecovered(available, 0, r);
      if r == Err(SingularRows) {
        var s: set<nat> :| s <= available.Keys && |s| == e.K && !CODE.Nonsingular(e.K, s);
        SameSet(s, available.Keys);
      }
      PaddingIsTruncated(p, e.K, 0);
      WholeBuffer(p, e.K);
      UnwrapPayload(data, Padded(p, e.K));
    }

    // Shards that are not as they were stored.

    /** K shards of one length with regular rows are the code of some blocks, and what is read is these blocks. */
    lemma ReadIsCoded(available: map<nat, seq<Byte>>, size: nat, res: Result<seq<Byte>, StoreError>)
      returns (blocks: seq<seq<Byte>>)
      requires e.K > 0 && |available| == e.K && forall i | i in available :: |available[i]| == size
      requires CODE.Nonsingular(e.K, available.Keys) && ReadsTo(available, res)
      ensures Codes(available, blocks, e.K, size) && res == Unwrap(Flatten(blocks))
    {
      hide Code.Nonsingular; hide Encoder.Reconstructs; hide Codes; hide Flatten; hide Unwrap;
      assert |available| == |available.Keys|;
      var r :| e.Reconstructs(available, 0, r) && res == Stripped(r);
      e.CodedIsRecovered(available, 0, r);
      if r == Err(SingularRows) {
        var s: set<nat> :| s <= available.Keys && |s| == e.K && !CODE.Nonsingular(e.K, s);
        SameSet(s, available.Keys);
        assert false;
      }
      blocks := e.ResultIsCoded(available, size, r.value);
    }

    /**
      * Nothing that is read is checked, neither data nor parity shards.  Any K shards of the stored size with regular
      * rows give some buffer: the stored one exactly when every shard read is as it was stored; and the chunk comes
      * back exactly when its header and data are in the buffer, whatever became of the padding.
      */
    lemma ShardsAreUnchecked(data: seq<Byte>, available: map<nat, seq<Byte>>, res: Result<seq<Byte>, StoreError>)
      returns (buf: seq<Byte>)
      requires e.K > 0 && |available| == e.K && ReadsTo(available, res)
      requires forall i | i in available :: |available[i]| == ShardSize(|Payload(data)|, e.K)
      ensures if CODE.Nonsingular(e.K, available.Keys) then res == Unwrap(buf) else res == Err(NotReconstructed)
      ensures CODE.Nonsingular(e.K, available.Keys) ==>
        && |buf| == |Padded(Payload(data), e.K)|
        && (buf == Padded(Payload(data), e.K) <==> forall i | i in available :: ShardIs(data, i, available[i]))
        && (res == Ok(data) <==> |data| < WORD && Payload(data) <= buf)
    {
      hide Code.Nonsingular; hide Flatten; hide Unwrap; hide Blocks; hide Padded; hide ShardData; hide ReadsTo;
      hide ShardSize; hide Payload;
      if CODE.Nonsingular(e.K, available.Keys) {
        var p := Payload(data);
        var size := ShardSize(|p|, e.K);
        var original := Blocks(Padded(p, e.K), e.K, size);
        var blocks := ReadIsCoded(available, size, res);
        buf := Flatten(blocks);
        BlocksOfFlatten(blocks, e.K, size);
        FlattenBlocks(Padded(p, e.K), e.K, size);
        UnwrapIff(buf, data);
        if forall i | i in available :: ShardIs(data, i, available[i]) {
          assert Codes(available, original, e.K, size);
          CodedOnce(available, blocks, original, size);
        }
      } else {
        buf := [];
        SingularFails(available, res);
      }
    }

    lemma SingularFails(available: map<nat, seq<Byte>>, res: Result<seq<Byte>, StoreError>)
      requires e.K > 0 && |available| == e.K && !CODE.Nonsingular(e.K, available.Keys) && ReadsTo(available, res)
      ensures res == Err(NotReconstructed)
    {
      hide Code.Nonsingular; hide Encoder.Reconstructs; hide Unwrap;
      var r :| e.Reconstructs(available, 0, r) && res == Stripped(r);
      e.CodedIsRecovered(available, 0, r);
    }

    lemma CodedOnce(available: map<nat, seq<Byte>>, a: seq<seq<Byte>>, b: seq<seq<Byte>>, size: nat)
      requires CODE.Nonsingular(e.K, available.Keys)
      requires Codes(available, a, e.K, size) && Codes(available, b, e.K, size)
      ensures a == b
    {
      hide Code.Nonsingular; hide ShardData;
      forall c | 0 <= c < e.K ensures a[c] == b[c] {
        forall k | 0 <= k < size ensures a[c][k] == b[c][k] {
          ByteIsRightIff(available, a, available, b, e.K, size, k);
          assert Column(a, k)[c] == Column(b, k)[c];
        }
      }
    }

    /**
      * One byte of one shard changed: of data shard c, or of a parity shard read instead of it, all other data shards
      * being read as stored.  Without any error, the byte of shard c comes back wrong, unless it is in the padding.
      */
    lemma OneByteChanged(data: seq<Byte>, stored: map<nat, seq<Byte>>, c: nat, j: nat, b: nat, x: Byte,
                         res: Result<seq<Byte>, StoreError>) returns (y: Byte)
      requires e.K > 0 && |stored| == e.K && CODE.Nonsingular(e.K, stored.Keys)
      requires forall i | i in stored :: ShardIs(data, i, stored[i])
      requires c < e.K && (forall i: nat | i < e.K && i != c :: i in stored) && j in stored && (j == c || j >= e.K)
      requires b < ShardSize(|Payload(data)|, e.K) == |stored[j]| && x != stored[j][b]
      requires ReadsTo(stored[j := stored[j][b := x]], res)
      ensures var at := c * ShardSize(|Payload(data)|, e.K) + b;
              && (res == Ok(data) <==> |data| < WORD && at >= 4 + |data|)
              && (|data| < WORD && 4 <= at < 4 + |data| ==> y != data[at - 4] && res == Ok(data[at - 4 := y]))
    {
      hide Code.Nonsingular; hide Flatten; hide Unwrap; hide Blocks; hide Padded; hide ShardData; hide ReadsTo;
      hide ShardSize; hide Payload;
      var p := Payload(data);
      var size := ShardSize(|p|, e.K);
      var original := Blocks(Padded(p, e.K), e.K, size);
      var available := stored[j := stored[j][b := x]];
      assert available.Keys == stored.Keys;
      assert |available| == |available.Keys|;
      var blocks := ReadIsCoded(available, size, res);
      OneBlockDiffers(stored, original, available, blocks, size, c, j, b, x);
      y := blocks[c][b];
      FlattenByte(original, e.K, size, c, b, y);
      FlattenBlocks(Padded(p, e.K), e.K, size);
      WholeBuffer(p, e.K);
      UnwrapChanged(data, Padded(p, e.K), c * size + b, y);
    }

    lemma SameColumn(a: seq<seq<Byte>>, o: seq<seq<Byte>>, size: nat, c: nat, b: nat)
      requires IsBlocks(a, e.K, size) && IsBlocks(o, e.K, size) && c < e.K && b < size
      requires forall i | 0 <= i < e.K && i != c :: a[i] == o[i]
      ensures Column(a, b) == Column(o, b) <==> a[c][b] == o[c][b]
    {
      assert Column(a, b)[c] == a[c][b] && Column(o, b)[c] == o[c][b];
    }

    lemma OneBlockDiffers(stored: map<nat, seq<Byte>>, original: seq<seq<Byte>>, available: map<nat, seq<Byte>>,
                          blocks: seq<seq<Byte>>, size: nat, c: nat, j: nat, b: nat, x: Byte)
      requires Codes(stored, original, e.K, size) && Codes(available, blocks, e.K, size)
      requires CODE.Nonsingular(e.K, stored.Keys)
      requires c < e.K && (forall i: nat | i < e.K && i != c :: i in stored) && j in stored && (j == c || j >= e.K)
      requires b < size && x != stored[j][b] && available == stored[j := stored[j][b := x]]
      ensures blocks[c][b] != original[c][b] && blocks == original[c := original[c][b := blocks[c][b]]]
    {
      hide Code.Nonsingular; hide ShardData;
      assert available.Keys == stored.Keys;
      forall i | 0 <= i < e.K && i != c ensures blocks[i] == original[i] {
        DataShardIsBlock(blocks, e.K, size, i);
        DataShardIsBlock(original, e.K, size, i);
      }
      forall k | 0 <= k < size && k != b ensures blocks[c][k] == original[c][k] {
        ByteIsRightIff(available, blocks, stored, original, e.K, size, k);
        assert Column(blocks, k)[c] == Column(original, k)[c];
      }
      ByteIsRightIff(available, blocks, stored, original, e.K, size, b);
      assert available[j][b] != stored[j][b];
      SameColumn(blocks, original, size, c, b);
      assert blocks[c] == original[c][b := blocks[c][b]];
      assert blocks == original[c := blocks[c]];
    }
  }

  /**
    * With recoverable parameters and all writes successful, whichever shards are then lost: the chunk comes back,
    * cut to its length modulo 2^32, exactly when at least K shards still answer.
    */
  method PutThenRead(c: ErasureCoordinator, chunkID: string, data: seq<Byte>, targetNodes: seq<string>,
                     ringNodes: seq<string>, answers: nat -> bool)
    returns (res: Result<seq<Byte>, StoreError>)
    requires c.e.Valid() && targetNodes != [] && Recoverable(c.e.K, c.e.M)
    requires c.Clean(c.disks, chunkID, data, targetNodes)
    modifies c
    ensures res == if CountReadable(answers, c.e.K + c.e.M) >= c.e.K then Ok(Kept(data)) else Err(TooFewShards)
    ensures res == Ok(data) <==> CountReadable(answers, c.e.K + c.e.M) >= c.e.K && |data| < WORD
  {
    hide ErasureCoordinator.Stored; hide ErasureCoordinator.Clean; hide ErasureCoordinator.ReadsTo; hide Recoverable;
    hide Added; hide ErasureCoordinator.Gathered; hide Kept; hide ErasureCoordinator.ShardIs; hide Tables.Valid;
    hide Acknowledged; hide CountReadable;
    var all := (i: nat) => true;
    KeptWhole(data);
    AllAcknowledged(targetNodes, all, c.e.K + c.e.M);
    var locations, err, _ := c.PutErasureChunk(chunkID, data, targetNodes, all);
    assert c.Stored(chunkID, data, locations);
    res := c.ReadErasureChunk(chunkID, locations, ringNodes, answers);
    c.StoredIsRead(chunkID, data, locations, answers, res);
  }

  // Reading after some writes failed.

  lemma {:induction false} AcknowledgedAt(targetNodes: seq<string>, writes: nat -> bool, i: nat, n: nat)
    requires targetNodes != [] && i < n
    ensures |Acknowledged(targetNodes, writes, n)| == CountReadable(writes, n)
    ensures writes(i) ==>
      && CountReadable(writes, i) < CountReadable(writes, n)
      && Acknowledged(targetNodes, writes, n)[CountReadable(writes, i)] == targetNodes[i % |targetNodes|]
  {
    AcknowledgedLength(targetNodes, writes, n);
    AcknowledgedLength(targetNodes, writes, n - 1);
    if i < n - 1 { AcknowledgedAt(targetNodes, writes, i, n - 1); }
  }

  lemma {:induction false} AcknowledgedLength(targetNodes: seq<string>, writes: nat -> bool, n: nat)
    requires targetNodes != []
    ensures |Acknowledged(targetNodes, writes, n)| == CountReadable(writes, n)
  {
    if n > 0 { AcknowledgedLength(targetNodes, writes, n - 1); }
  }

  /** Every entry of the list of locations is the target of a shard that was written, in order. */
  lemma {:induction false} AcknowledgedFrom(targetNodes: seq<string>, writes: nat -> bool, c: nat, n: nat)
    returns (i: nat)
    requires targetNodes != [] && c < CountReadable(writes, n)
    ensures i < n && writes(i) && CountReadable(writes, i) == c
    ensures |Acknowledged(targetNodes, writes, n)| == CountReadable(writes, n)
    ensures Acknowledged(targetNodes, writes, n)[c] == targetNodes[i % |targetNodes|]
  {
    if c < CountReadable(writes, n - 1) {
      i := AcknowledgedFrom(targetNodes, writes, c, n - 1);
    } else {
      i := n - 1;
    }
    AcknowledgedAt(targetNodes, writes, i, n);
  }

  /** The location that the reader asks for shard i is the target of a shard that was written to the same node. */
  ghost predicate SameNode(targetNodes: seq<string>, writes: nat -> bool, n: nat, c: nat, i: nat)
    requires targetNodes != []
  {
    exists t: nat :: t < n && writes(t) && CountReadable(writes, t) == c && t % |targetNodes| == i % |targetNodes|
  }

  ghost predicate Different(targetNodes: seq<string>) {
    forall p, q | 0 <= p < q < |targetNodes| :: targetNodes[p] != targetNodes[q]
  }

  /**
    * With different targets, fewer than shards or not, and no earlier files of these names: a shard is found where the
    * reader looks for it exactly when it was written, and the write that became the location asked for went to the
    * same node.
    */
  lemma FoundIff(before: Disks, after: Disks, chunkID: string, targetNodes: seq<string>, writes: nat -> bool,
                 shards: seq<Shard>, i: nat)
    requires targetNodes != [] && Added(before, after, chunkID, targetNodes, writes, shards)
    requires i < |shards| && Different(targetNodes)
    requires forall key | key in before :: key.1 != ShardId(chunkID, i)
    requires CountReadable(writes, |shards|) > 0
    ensures var locations := Acknowledged(targetNodes, writes, |shards|);
            && locations != []
            && (Place(chunkID, locations, i) in after <==>
                  writes(i) && SameNode(targetNodes, writes, |shards|, i % |locations|, i))
  {
    hide ShardId; hide Acknowledged; hide CountReadable; hide Added; hide Place; hide SameNode;
    var n := |shards|;
    var locations := Acknowledged(targetNodes, writes, n);
    AcknowledgedLength(targetNodes, writes, n);
    NodeIff(targetNodes, writes, n, i % |locations|, i);
    PlaceIs(chunkID, locations, i);
    PlaceIs(chunkID, targetNodes, i);
    if Place(chunkID, locations, i) in after {
      var j := AddedFrom(before, after, chunkID, targetNodes, writes, shards, Place(chunkID, locations, i));
      PlaceIs(chunkID, targetNodes, j);
      ShardIdInjective(chunkID, i, j);
    } else if writes(i) {
      AddedAt(before, after, chunkID, targetNodes, writes, shards, i);
    }
  }

  lemma PlaceIs(chunkID: string, nodes: seq<string>, i: nat)
    requires nodes != []
    ensures Place(chunkID, nodes, i) == (nodes[i % |nodes|], ShardId(chunkID, i))
  {}

  lemma AddedFrom(before: Disks, after: Disks, chunkID: string, targetNodes: seq<string>, writes: nat -> bool,
                  shards: seq<Shard>, key: (string, string)) returns (i: nat)
    requires targetNodes != [] && Added(before, after, chunkID, targetNodes, writes, shards)
    requires key in after && key !in before
    ensures i < |shards| && writes(i) && key == Place(chunkID, targetNodes, i)
  {
    hide Place;
    i :| i < |shards| && writes(i) && key == Place(chunkID, targetNodes, i) && after[key] == shards[i].data;
  }

  /** Location c is the node of shard i exactly when the shard that became location c went to that node. */
  lemma NodeIff(targetNodes: seq<string>, writes: nat -> bool, n: nat, c: nat, i: nat)
    requires targetNodes != [] && Different(targetNodes) && c < CountReadable(writes, n)
    ensures |Acknowledged(targetNodes, writes, n)| == CountReadable(writes, n)
    ensures Acknowledged(targetNodes, writes, n)[c] == targetNodes[i % |targetNodes|] <==>
            SameNode(targetNodes, writes, n, c, i)
  {
    hide Acknowledged; hide CountReadable;
    var t := AcknowledgedFrom(targetNodes, writes, c, n);
    if SameNode(targetNodes, writes, n, c, i) {
      var u: nat :| u < n && writes(u) && CountReadable(writes, u) == c && u % |targetNodes| == i % |targetNodes|;
      AcknowledgedAt(targetNodes, writes, u, n);
    }
  }

  /**
    * When only the first of n >= 2 writes fails, no shard at all is found, exactly when the number of targets does not
    * divide n - 2; the write itself reports no error as long as K shards were acknowledged.
    */
  lemma FirstWriteFailsIff(before: Disks, after: Disks, chunkID: string, targetNodes: seq<string>,
                           writes: nat -> bool, shards: seq<Shard>)
    requires targetNodes != [] && Added(before, after, chunkID, targetNodes, writes, shards) && Different(targetNodes)
    requires forall key, i: nat | key in before && i < |shards| :: key.1 != ShardId(chunkID, i)
    requires |shards| >= 2 && forall j: nat :: writes(j) <==> j > 0
    ensures var locations := Acknowledged(targetNodes, writes, |shards|);
            && |locations| == |shards| - 1
            && ((forall i: nat | i < |shards| :: Place(chunkID, locations, i) !in after) <==>
                  (|shards| - 2) % |targetNodes| != 0)
  {
    hide ShardId; hide Added; hide Place; hide Acknowledged; hide CountReadable; hide SameNode; hide Different;
    var n, T := |shards|, |targetNodes|;
    var locations := Acknowledged(targetNodes, writes, n);
    AcknowledgedLength(targetNodes, writes, n);
    AllButFirst(writes, n);
    forall i: nat | i < n
      ensures Place(chunkID, locations, i) in after <==> i > 0 && (if i < n - 1 then T == 1 else (n - 2) % T == 0)
    {
      FoundIff(before, after, chunkID, targetNodes, writes, shards, i);
      if i > 0 { ShiftedNode(targetNodes, writes, n, i); }
    }
    assert Place(chunkID, locations, n - 1) in after <==> (n - 2) % T == 0;
  }

  /** All but the first written: location c is the target of shard c + 1. */
  lemma ShiftedNode(targetNodes: seq<string>, writes: nat -> bool, n: nat, i: nat)
    requires targetNodes != [] && 0 < i < n && forall j: nat :: writes(j) <==> j > 0
    ensures SameNode(targetNodes, writes, n, i % (n - 1), i) <==>
            if i < n - 1 then |targetNodes| == 1 else (n - 2) % |targetNodes| == 0
  {
    hide SameNode;
    if i < n - 1 {
      SmallMod(i, n - 1);
      NextTarget(targetNodes, writes, n, i, i);
      NextRemainder(i, |targetNodes|);
    } else {
      assert i % (n - 1) == 0;
      NextTarget(targetNodes, writes, n, 0, i);
      EqualRemainders(n - 2, |targetNodes|);
    }
  }

  lemma NextTarget(targetNodes: seq<string>, writes: nat -> bool, n: nat, c: nat, i: nat)
    requires targetNodes != [] && c + 1 < n && forall j: nat :: writes(j) <==> j > 0
    ensures SameNode(targetNodes, writes, n, c, i) <==> (c + 1) % |targetNodes| == i % |targetNodes|
  {
    hide CountReadable;
    forall t: nat | t < n && writes(t) && CountReadable(writes, t) == c ensures t == c + 1 { AllButFirst(writes, t); }
    AllButFirst(writes, c + 1);
  }

  lemma NextRemainder(i: nat, T: nat)
    requires T > 0
    ensures (i + 1) % T == i % T <==> T == 1
  {
    var q, r := i / T, i % T;
    assert i + 1 == q * T + (r + 1);
    if r + 1 < T { RemainderIs(q, T, r + 1); } else { RemainderIs(q + 1, T, 0); }
  }

  lemma EqualRemainders(d: nat, T: nat)
    requires T > 0
    ensures (d + 1) % T == 1 % T <==> d % T == 0
  {
    var q, r := d / T, d % T;
    assert d + 1 == q * T + (r + 1);
    if r + 1 < T { RemainderIs(q, T, r + 1); } else { RemainderIs(q + 1, T, 0); }
    if T > 1 { SmallMod(1, T); }
  }

  lemma RemainderIs(q: nat, T: nat, r: nat)
    requires r < T
    ensures (q * T + r) % T == r
  {
    var x := q * T + r;
    var p, d := x / T, q - x / T;
    assert x == p * T + x % T;
    assert q * T == p * T + d * T;
    if d > 0 { AtLeastOnce(d, T); } else if d < 0 { AtLeastOnce(-d, T); }
  }

  lemma AtLeastOnce(d: nat, T: nat)
    requires d > 0
    ensures d * T >= T
  {
    assert d * T == T + (d - 1) * T;
  }

  lemma {:induction false} AllButFirst(writes: nat -> bool, n: nat)
    requires forall j: nat :: writes(j) <==> j > 0
    ensures CountReadable(writes, n) == if n == 0 then 0 else n - 1
  {
    if n > 0 { AllButFirst(writes, n - 1); }
  }

  lemma KeptWhole(data: seq<Byte>)
    ensures Kept(data) == data <==> |data| < WORD
  {}

  lemma WholeBuffer(payload: seq<Byte>, K: nat)
    requires K > 0
    ensures Truncated(Padded(payload, K), 0) == Padded(payload, K) && payload <= Padded(payload, K)
  {
    hide ShardSize;
  }

  lemma FourBytes(a: nat, b: nat, c: nat, d: nat)
    requires a < 256 && b < 256 && c < 256 && d < 256
    ensures var n := a * 0x100_0000 + b * 0x1_0000 + c * 0x100 + d;
            && n < WORD && n / 0x100_0000 % 0x100 == a && n / 0x1_0000 % 0x100 == b && n / 0x100 % 0x100 == c
            && n % 0x100 == d
  {
    TopByte(a, b * 0x1_0000 + c * 0x100 + d);
    SecondByte(a, b, c * 0x100 + d);
    ThirdByte(a * 0x100 + b, c, d);
    assert a * 0x100_0000 + b * 0x1_0000 + c * 0x100 + d == 0x1_0000 * (a * 0x100 + b) + (0x100 * c + d);
  }

  lemma TopByte(a: nat, low: nat)
    requires a < 0x100 && low < 0x100_0000
    ensures (a * 0x100_0000 + low) / 0x100_0000 % 0x100 == a
  {}

  lemma SecondByte(a: nat, b: nat, low: nat)
    requires b < 0x100 && low < 0x1_0000
    ensures (a * 0x100_0000 + b * 0x1_0000 + low) / 0x1_0000 % 0x100 == b
  {
    assert (a * 0x100_0000 + b * 0x1_0000 + low) / 0x1_0000 == a * 0x100 + b;
  }

  lemma ThirdByte(high: nat, c: nat, d: nat)
    requires c < 0x100 && d < 0x100
    ensures var n := 0x1_0000 * high + (0x100 * c + d); n / 0x100 % 0x100 == c && n % 0x100 == d
  {
    assert (0x1_0000 * high + (0x100 * c + d)) / 0x100 == high * 0x100 + c;
  }

  lemma HeaderIsItsLength(h: seq<Byte>)
    requires |h| == 4
    ensures BigEndian(FromBigEndian(h)) == h && FromBigEndian(h) < WORD
  {
    hide ToNat; hide FromNat;
    FourBytes(ToNat(h[0]), ToNat(h[1]), ToNat(h[2]), ToNat(h[3]));
    FromTo(h[0]); FromTo(h[1]); FromTo(h[2]); FromTo(h[3]);
  }

  /** Exactly the buffers that start with header and data give the data back. */
  lemma UnwrapIff(buf: seq<Byte>, data: seq<Byte>)
    ensures Unwrap(buf) == Ok(data) <==> |data| < WORD && Payload(data) <= buf
  {
    hide BigEndian; hide FromBigEndian; hide Kept;
    if Unwrap(buf) == Ok(data) {
      HeaderIsItsLength(buf[..4]);
      assert buf[..4 + |data|] == buf[..4] + buf[4..4 + |data|];
    }
    if |data| < WORD && Payload(data) <= buf {
      UnwrapPayload(data, buf);
      KeptWhole(data);
    }
  }

  /** One byte of the buffer changed. */
  lemma UnwrapChanged(data: seq<Byte>, buf: seq<Byte>, at: nat, y: Byte)
    requires Payload(data) <= buf && at < |buf| && y != buf[at]
    ensures Unwrap(buf[at := y]) == Ok(data) <==> |data| < WORD && at >= 4 + |data|
    ensures |data| < WORD && 4 <= at < 4 + |data| ==>
      y != data[at - 4] && Unwrap(buf[at := y]) == Ok(data[at - 4 := y])
  {
    hide BigEndian; hide Unwrap;
    var changed := buf[at := y];
    UnwrapIff(changed, data);
    assert buf[..4 + |data|] == Payload(data);
    if at >= 4 + |data| {
      assert changed[..4 + |data|] == Payload(data);
    } else {
      assert changed[..4 + |data|][at] != Payload(data)[at];
      if at >= 4 {
        assert Payload(data)[at] == data[at - 4];
        assert changed[..4 + |data|] == Payload(data[at - 4 := y]);
        UnwrapIff(changed, data[at - 4 := y]);
      }
    }
  }

  lemma UnwrapPayload(data: seq<Byte>, buf: seq<Byte>)
    requires Payload(data) <= buf
    ensures Unwrap(buf) == Ok(Kept(data))
  {
    hide BigEndian; hide FromBigEndian;
    HeaderRoundTrip(|data|);
    assert buf[..4] == BigEndian(|data|);
    assert buf[4..4 + |data|] == data;
    var n := |data| % WORD;
    assert buf[4..4 + n] == buf[4..4 + |data|][..n];
  }
}
