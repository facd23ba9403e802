/** The erasure encoder: data blocks, parity shards and reconstruction from any K surviving shards. */
module ReedSolomon {
  import opened Bytes
  import opened GF256
  import opened GaloisTables
  import opened LinearAlgebra
  import opened GaussJordan
  import opened Recoverability
  import opened EncoderCode
  import opened Wrappers

  datatype Shard = Shard(index: nat, data: seq<Byte>, checksum: string, isParity: bool)

  datatype CodingError = BadCounts | EmptyData | Insufficient | SingularRows | IndexOutOfRange

  // The code, on blocks: K data shards of equal size.

  ghost predicate IsBlocks(blocks: seq<seq<Byte>>, K: nat, size: nat) {
    |blocks| == K && forall i | 0 <= i < K :: |blocks[i]| == size
  }

  ghost function Column(blocks: seq<seq<Byte>>, b: nat): (v: Vector<Byte>)
    requires forall i | 0 <= i < |blocks| :: b < |blocks[i]|
    ensures |v| == |blocks|
  {
    seq(|blocks|, i requires 0 <= i < |blocks| => blocks[i][b])
  }

  /** Byte b of a shard is its encoding row times byte b of the data shards. */
  ghost function ShardData(blocks: seq<seq<Byte>>, K: nat, size: nat, index: nat): (data: seq<Byte>)
    requires IsBlocks(blocks, K, size)
    ensures |data| == size
  {
    seq(size, b requires 0 <= b < size => GF.Dot(CODE.EncodingRow(K, index), Column(blocks, b), K))
  }

  lemma ShardByte(blocks: seq<seq<Byte>>, K: nat, size: nat, index: nat, b: nat)
    requires IsBlocks(blocks, K, size) && b < size
    ensures ShardData(blocks, K, size, index)[b] == GF.Dot(CODE.EncodingRow(K, index), Column(blocks, b), K)
  {
    hide Field.Dot; hide Code.EncodingRow;
  }

  lemma DataShardIsBlock(blocks: seq<seq<Byte>>, K: nat, size: nat, index: nat)
    requires IsBlocks(blocks, K, size) && index < K
    ensures ShardData(blocks, K, size, index) == blocks[index]
  {
    hide Code.Valid; hide Code.EncodingRow; hide Field.Dot;
    EncoderCodeIsValid();
    forall b | 0 <= b < size ensures ShardData(blocks, K, size, index)[b] == blocks[index][b] {
      CODE.DataRow(K, index, Column(blocks, b));
    }
  }

  ghost function Flatten(blocks: seq<seq<Byte>>): seq<Byte> {
    if blocks == [] then [] else Flatten(blocks[..|blocks| - 1]) + blocks[|blocks| - 1]
  }

  function ShardSize(length: nat, K: nat): nat
    requires K > 0
  {
    (length + K - 1) / K
  }

  lemma ShardSizeCovers(length: nat, K: nat)
    requires K > 0
    ensures length <= K * ShardSize(length, K) < length + K
    ensures length > 0 ==> ShardSize(length, K) > 0
  {}

  ghost function Padded(data: seq<Byte>, K: nat): (p: seq<Byte>)
    requires K > 0
    ensures |p| == K * ShardSize(|data|, K) >= |data| && p[..|data|] == data
    ensures forall i | |data| <= i < |p| :: p[i] == ZERO
  {
    ShardSizeCovers(|data|, K);
    data + GF.Zeros(K * ShardSize(|data|, K) - |data|)
  }

  lemma BlockBounds(i: nat, K: nat, size: nat)
    requires i < K
    ensures i * size + size == (i + 1) * size <= K * size
  {
    assert (i + 1) * size <= K * size;
  }

  /** The K consecutive pieces of p. */
  ghost function Blocks(p: seq<Byte>, K: nat, size: nat): (blocks: seq<seq<Byte>>)
    requires |p| == K * size
    ensures IsBlocks(blocks, K, size)
  {
    if K == 0 then []
    else
      BlockBounds(K - 1, K, size);
      Blocks(p[..(K - 1) * size], K - 1, size) + [p[(K - 1) * size..]]
  }

  lemma {:induction false} BlockAt(p: seq<Byte>, K: nat, size: nat, i: nat)
    requires |p| == K * size && i < K
    ensures i * size + size <= |p| && Blocks(p, K, size)[i] == p[i * size..i * size + size]
  {
    BlockBounds(i, K, size);
    BlockBounds(K - 1, K, size);
    if i < K - 1 {
      BlockBounds(i, K - 1, size);
      BlockAt(p[..(K - 1) * size], K - 1, size, i);
    }
  }

  lemma FlattenUnfolds(blocks: seq<seq<Byte>>)
    ensures Flatten(blocks) == if blocks == [] then [] else Flatten(blocks[..|blocks| - 1]) + blocks[|blocks| - 1]
  {}

  lemma {:induction false} FlattenBlocks(p: seq<Byte>, K: nat, size: nat)
    requires |p| == K * size
    ensures Flatten(Blocks(p, K, size)) == p
  {
    hide Flatten;
    FlattenUnfolds(Blocks(p, K, size));
    if K > 0 {
      BlockBounds(K - 1, K, size);
      var m := (K - 1) * size;
      FlattenBlocks(p[..m], K - 1, size);
      var blocks := Blocks(p, K, size);
      assert blocks == Blocks(p[..m], K - 1, size) + [p[m..]];
      assert blocks[..K - 1] == Blocks(p[..m], K - 1, size) && blocks[K - 1] == p[m..];
      assert p[..m] + p[m..] == p;
    }
  }

  lemma {:induction false} BlocksOfFlatten(blocks: seq<seq<Byte>>, K: nat, size: nat)
    requires IsBlocks(blocks, K, size)
    ensures |Flatten(blocks)| == K * size && Blocks(Flatten(blocks), K, size) == blocks
  {
    hide Flatten; hide Blocks;
    FlattenUnfolds(blocks);
    BlocksUnfold(Flatten(blocks), K, size);
    if K > 0 {
      BlockBounds(K - 1, K, size);
      BlocksOfFlatten(blocks[..K - 1], K - 1, size);
      assert Flatten(blocks)[..(K - 1) * size] == Flatten(blocks[..K - 1]);
    }
  }

  lemma BlocksUnfold(p: seq<Byte>, K: nat, size: nat)
    ensures K > 0 && |p| == K * size ==>
      && 0 <= (K - 1) * size <= |p|
      && Blocks(p, K, size) == Blocks(p[..(K - 1) * size], K - 1, size) + [p[(K - 1) * size..]]
    ensures K == 0 && |p| == 0 ==> Blocks(p, K, size) == []
  {
    if K > 0 { BlockBounds(K - 1, K, size); }
  }

  /** Changing byte b of block i changes byte i * size + b of the whole. */
  lemma FlattenByte(blocks: seq<seq<Byte>>, K: nat, size: nat, i: nat, b: nat, x: Byte)
    requires IsBlocks(blocks, K, size) && i < K && b < size
    ensures i * size + b < |Flatten(blocks)|
    ensures Flatten(blocks[i := blocks[i][b := x]]) == Flatten(blocks)[i * size + b := x]
    ensures blocks[i][b] == Flatten(blocks)[i * size + b]
  {
    hide Flatten; hide Blocks;
    BlocksOfFlatten(blocks, K, size);
    BlockBounds(i, K, size);
    var p := Flatten(blocks);
    var q := p[i * size + b := x];
    BlockAt(p, K, size, i);
    forall j | 0 <= j < K ensures Blocks(q, K, size)[j] == if j == i then blocks[i][b := x] else blocks[j] {
      BlockBounds(j, K, size);
      BlockAt(p, K, size, j);
      BlockAt(q, K, size, j);
      if j < i { BlockBounds(j, i, size); } else if i < j { BlockBounds(i, j, size); }
    }
    assert Blocks(q, K, size) == blocks[i := blocks[i][b := x]];
    FlattenBlocks(q, K, size);
  }

  ghost function Truncated(buf: seq<Byte>, originalLength: int): seq<Byte> {
    if 0 < originalLength < |buf| then buf[..originalLength] else buf
  }

  /** Every available shard is the shard with its index of the same blocks. */
  ghost predicate Codes(available: map<nat, seq<Byte>>, blocks: seq<seq<Byte>>, K: nat, size: nat) {
    IsBlocks(blocks, K, size) && forall i | i in available :: available[i] == ShardData(blocks, K, size, i)
  }

  // Decoding with an inverse of the selected rows.

  ghost function Received(available: map<nat, seq<Byte>>, selected: seq<nat>, b: nat): (v: Vector<Byte>)
    requires forall i | 0 <= i < |selected| :: selected[i] in available && b < |available[selected[i]]|
    ensures |v| == |selected|
  {
    seq(|selected|, i requires 0 <= i < |selected| => available[selected[i]][b])
  }

  lemma ReceivedIsProduct(available: map<nat, seq<Byte>>, blocks: seq<seq<Byte>>, K: nat, size: nat,
                          selected: seq<nat>, b: nat)
    requires Codes(available, blocks, K, size) && |selected| == K && b < size
    requires forall i | 0 <= i < K :: selected[i] in available
    ensures Received(available, selected, b) == GF.Apply(CODE.SelectedRows(K, selected), Column(blocks, b))
  {
    hide Field.Dot; hide Code.EncodingRow;
  }

  /** K selected shards, none shorter than this size. */
  predicate Fits(available: map<nat, seq<Byte>>, selected: seq<nat>, K: nat, size: nat) {
    |selected| == K && forall j | 0 <= j < K :: selected[j] in available && |available[selected[j]]| >= size
  }

  /** A missing data shard, recovered byte by byte. */
  ghost function RecoveredBlock(available: map<nat, seq<Byte>>, selected: seq<nat>, inv: Matrix<Byte>, K: nat,
                                size: nat, i: nat): (r: seq<Byte>)
    requires Fits(available, selected, K, size) && GF.Shape(inv, K, K) && i < K
    ensures |r| == size
  {
    seq(size, b requires 0 <= b < size => GF.Dot(inv[i], Received(available, selected, b), K))
  }

  ghost function Decoded(available: map<nat, seq<Byte>>, selected: seq<nat>, inv: Matrix<Byte>, K: nat, size: nat,
                         i: nat): seq<Byte>
    requires Fits(available, selected, K, size) && GF.Shape(inv, K, K) && i < K
  {
    if i in available then available[i] else RecoveredBlock(available, selected, inv, K, size, i)
  }

  lemma RecoveredByte(available: map<nat, seq<Byte>>, blocks: seq<seq<Byte>>, selected: seq<nat>, inv: Matrix<Byte>,
                      K: nat, size: nat, i: nat, b: nat)
    requires Codes(available, blocks, K, size) && Fits(available, selected, K, size) && i < K && b < size
    requires GF.Inverses(CODE.SelectedRows(K, selected), inv, K)
    ensures GF.Dot(inv[i], Received(available, selected, b), K) == blocks[i][b]
  {
    hide Field.Dot; hide Code.SelectedRows; hide ShardData;
    ReceivedIsProduct(available, blocks, K, size, selected, b);
    var x := Column(blocks, b);
    assert GF.Apply(inv, GF.Apply(CODE.SelectedRows(K, selected), x)) == x;
    assert GF.Apply(inv, Received(available, selected, b))[i] == x[i];
  }

  lemma RecoveredIsBlock(available: map<nat, seq<Byte>>, blocks: seq<seq<Byte>>, selected: seq<nat>, inv: Matrix<Byte>,
                         K: nat, size: nat, i: nat)
    requires Codes(available, blocks, K, size) && Fits(available, selected, K, size) && i < K
    requires GF.Inverses(CODE.SelectedRows(K, selected), inv, K)
    ensures RecoveredBlock(available, selected, inv, K, size, i) == blocks[i]
  {
    hide Field.Dot; hide Codes; hide Received; hide Field.Apply;
    assert IsBlocks(blocks, K, size) by { CodesAreBlocks(available, blocks, K, size); }
    var r := RecoveredBlock(available, selected, inv, K, size, i);
    forall b | 0 <= b < size ensures r[b] == blocks[i][b] {
      RecoveredByte(available, blocks, selected, inv, K, size, i, b);
    }
  }

  lemma CodesAreBlocks(available: map<nat, seq<Byte>>, blocks: seq<seq<Byte>>, K: nat, size: nat)
    requires Codes(available, blocks, K, size)
    ensures IsBlocks(blocks, K, size)
  {}

  /**
    * Shards decode byte by byte: byte b of all the data is right exactly when byte b of every shard used is right.
    */
  lemma ByteIsRightIff(available: map<nat, seq<Byte>>, blocks: seq<seq<Byte>>, stored: map<nat, seq<Byte>>,
                       original: seq<seq<Byte>>, K: nat, size: nat, b: nat)
    requires Codes(available, blocks, K, size) && Codes(stored, original, K, size) && b < size
    requires available.Keys == stored.Keys && CODE.Nonsingular(K, available.Keys)
    ensures Column(blocks, b) == Column(original, b) <==>
            forall i | i in available :: b < |available[i]| && b < |stored[i]| && available[i][b] == stored[i][b]
  {
    hide Field.Dot; hide Code.EncodingRow; hide Code.Valid; hide Code.Nonsingular; hide Column; hide ShardData;
    EncoderCodeIsValid();
    forall i | i in available
      ensures available[i][b] == GF.Dot(CODE.EncodingRow(K, i), Column(blocks, b), K)
      ensures stored[i][b] == GF.Dot(CODE.EncodingRow(K, i), Column(original, b), K)
    {
      ShardByte(blocks, K, size, i, b);
      ShardByte(original, K, size, i, b);
    }
    if forall i | i in available :: available[i][b] == stored[i][b] {
      CODE.Determined(K, available.Keys, Column(blocks, b), Column(original, b));
    }
  }

  class Encoder {
    const K: nat
    const M: nat
    const t: Tables
    const computeChecksum: seq<Byte> -> string

    ghost predicate Valid()
      reads t.gfExp, t.gfLog
    {
      K > 0 && M > 0 && t.Valid()
    }

    constructor (k: nat, m: nat, tables: Tables, checksum: seq<Byte> -> string)
      requires k > 0 && m > 0 && tables.Valid()
      ensures Valid() && K == k && M == m && t == tables && computeChecksum == checksum
    {
      K, M, t, computeChecksum := k, m, tables, checksum;
    }

    /** What a shard of the encoding of blocks is. */
    ghost predicate IsShard(s: Shard, blocks: seq<seq<Byte>>, size: nat, index: nat)
      requires IsBlocks(blocks, K, size)
    {
      && s.index == index
      && s.data == ShardData(blocks, K, size, index)
      && s.checksum == computeChecksum(s.data)
      && s.isParity == (index >= K)
    }

    /** The coefficients of one shard, as the source computes them. */
    method EncodingCoefficients(index: nat) returns (row: seq<Byte>)
      requires Valid()
      ensures row == CODE.EncodingRow(K, index)
    {
      hide Mul; hide FromNat; hide Field.Power;
      var r := new Byte[K](_ => ZERO);
      if index < K {
        r[index] := ONE;
        assert r[..] == GF.Unit(K, index);
      } else {
        for col := 0 to K
          invariant Valid()
          invariant forall c: nat | c < col :: r[c] == CODE.Coefficient(index - K, c)
        {
          r[col] := t.GfPow(FromNat((index - K + 1) % 256), col % 256);
        }
      }
      row := r[..];
    }

    /** Adds a multiple of the first bytes of src. */
    method AddProduct(target: array<Byte>, src: seq<Byte>, coeff: Byte)
      requires Valid() && target.Length <= |src| && target != t.gfExp
      modifies target
      ensures Valid()
      ensures forall b | 0 <= b < target.Length :: target[b] == Xor(old(target[b]), Mul(src[b], coeff))
    {
      hide Mul; hide Xor;
      for b := 0 to target.Length
        invariant Valid()
        invariant forall d | b <= d < target.Length :: target[d] == old(target[d])
        invariant forall d | 0 <= d < b :: target[d] == Xor(old(target[d]), Mul(src[d], coeff))
      {
        target[b] := Xor(target[b], t.GfMul(src[b], coeff));
      }
    }

    /** One parity shard: the sum of the data shards times their coefficients. */
    method EncodeParity(blocks: seq<seq<Byte>>, size: nat, p: nat) returns (parity: seq<Byte>)
      requires Valid() && IsBlocks(blocks, K, size)
      ensures parity == ShardData(blocks, K, size, K + p)
    {
      hide Mul; hide Xor; hide FromNat; hide Field.Power; hide Field.Dot;
      ghost var row := CODE.EncodingRow(K, K + p);
      var data := new Byte[size](_ => ZERO);
      forall b | 0 <= b < size ensures GF.Dot(row, Column(blocks, b), 0) == ZERO { EmptyDot(row, Column(blocks, b)); }
      for i := 0 to K
        invariant Valid()
        invariant forall b | 0 <= b < size :: data[b] == GF.Dot(row, Column(blocks, b), i)
      {
        var coeff := t.GfPow(FromNat((p + 1) % 256), i % 256);
        assert coeff == row[i];
        forall b | 0 <= b < size
          ensures GF.Dot(row, Column(blocks, b), i + 1)
               == Xor(GF.Dot(row, Column(blocks, b), i), Mul(blocks[i][b], coeff))
        {
          DotStep(row, Column(blocks, b), i);
        }
        AddProduct(data, blocks[i], coeff);
      }
      parity := data[..];
    }

    /** Copies the K pieces out of the padded data. */
    method SplitData(padded: seq<Byte>, size: nat) returns (pieces: seq<seq<Byte>>, shards: seq<Shard>)
      requires |padded| == K * size
      ensures pieces == Blocks(padded, K, size) && |shards| == K
      ensures forall j | 0 <= j < K :: IsShard(shards[j], pieces, size, j)
    {
      hide ShardData; hide Blocks;
      ghost var blocks := Blocks(padded, K, size);
      pieces, shards := [], [];
      for i := 0 to K
        invariant |pieces| == |shards| == i
        invariant forall j | 0 <= j < i :: pieces[j] == blocks[j] && IsShard(shards[j], blocks, size, j)
      {
        BlockAt(padded, K, size, i);
        var piece := padded[i * size..i * size + size];
        DataShardIsBlock(blocks, K, size, i);
        pieces := pieces + [piece];
        shards := shards + [Shard(i, piece, computeChecksum(piece), false)];
      }
      assert pieces == blocks;
    }

    /** Splits into K zero-padded data shards and adds M parity shards. */
    method Encode(data: seq<Byte>) returns (res: Result<seq<Shard>, CodingError>)
      requires Valid()
      ensures res.Err? <==> data == []
      ensures res.Err? ==> res.error == EmptyData
      ensures res.Ok? ==> |res.value| == K + M && forall i | 0 <= i < K + M ::
        IsShard(res.value[i], Blocks(Padded(data, K), K, ShardSize(|data|, K)), ShardSize(|data|, K), i)
    {
      hide ShardData; hide Blocks;
      if |data| == 0 { return Err(EmptyData); }
      var size := ShardSize(|data|, K);
      ShardSizeCovers(|data|, K);
      var padded := data + seq(K * size - |data|, _ => ZERO);
      assert padded == Padded(data, K);
      hide Padded; hide ShardSize;
      var pieces, shards := SplitData(padded, size);
      for p := 0 to M
        invariant Valid() && |shards| == K + p
        invariant forall j | 0 <= j < K + p :: IsShard(shards[j], pieces, size, j)
      {
        var parity := EncodeParity(pieces, size, p);
        shards := shards + [Shard(K + p, parity, computeChecksum(parity), true)];
      }
      return Ok(shards);
    }

    /** Picks K of the available shards, in whatever order the map yields them. */
    method SelectShards(available: map<nat, seq<Byte>>) returns (selected: seq<nat>)
      requires |available| >= K
      ensures |selected| == K && |Selection(selected)| == K && Selection(selected) <= available.Keys
    {
      selected := [];
      var keys := available.Keys;
      while |selected| < K
        invariant |selected| <= K && keys <= available.Keys && |keys| == |available| - |selected|
        invariant Selection(selected) == available.Keys - keys
        decreases K - |selected|
      {
        assert keys != {};
        var index :| index in keys;
        assert Selection(selected + [index]) == Selection(selected) + {index};
        selected := selected + [index];
        keys := keys - {index};
      }
      assert |available.Keys - keys| == |available.Keys| - |keys|;
    }

    /** Multiplies a row of the inverse with the selected shards. */
    method RecoverBlock(available: map<nat, seq<Byte>>, selected: seq<nat>, inv: Matrix<Byte>, size: nat, i: nat)
      returns (r: seq<Byte>)
      requires Valid() && Fits(available, selected, K, size) && GF.Shape(inv, K, K) && i < K
      ensures r == RecoveredBlock(available, selected, inv, K, size, i)
    {
      hide Mul; hide Xor; hide Field.Dot;
      var recovered := new Byte[size](_ => ZERO);
      forall b | 0 <= b < size ensures GF.Dot(inv[i], Received(available, selected, b), 0) == ZERO {
        EmptyDot(inv[i], Received(available, selected, b));
      }
      for j := 0 to K
        invariant Valid()
        invariant forall b | 0 <= b < size :: recovered[b] == GF.Dot(inv[i], Received(available, selected, b), j)
      {
        var src := available[selected[j]];
        forall b | 0 <= b < size
          ensures GF.Dot(inv[i], Received(available, selected, b), j + 1)
               == Xor(GF.Dot(inv[i], Received(available, selected, b), j), Mul(src[b], inv[i][j]))
        {
          DotStep(inv[i], Received(available, selected, b), j);
        }
        AddProduct(recovered, src, inv[i][j]);
      }
      r := recovered[..];
    }

    method Rejoin(blocks: seq<seq<Byte>>, originalLength: int) returns (buf: seq<Byte>)
      ensures buf == Truncated(Flatten(blocks), originalLength)
    {
      buf := [];
      for i := 0 to |blocks|
        invariant buf == Flatten(blocks[..i])
      {
        assert blocks[..i + 1][..i] == blocks[..i];
        buf := buf + blocks[i];
      }
      assert blocks[..|blocks|] == blocks;
      if 0 < originalLength < |buf| { buf := buf[..originalLength]; }
    }

    /** All data shards are available. */
    predicate AllData(available: map<nat, seq<Byte>>) {
      forall i: nat | i < K :: i in available
    }

    ghost function DataShards(available: map<nat, seq<Byte>>): seq<seq<Byte>>
      requires AllData(available)
    {
      seq(K, i requires 0 <= i < K => available[i])
    }

    /** What a run picks: the shard that gives the size, and K shards to decode from. */
    ghost predicate Choice(available: map<nat, seq<Byte>>, first: nat, selected: seq<nat>) {
      first in available && |selected| == K && |Selection(selected)| == K && Selection(selected) <= available.Keys
    }

    /** What decoding gives for a choice: singular rows fail, then a shorter shard is out of range. */
    ghost predicate DecodesTo(available: map<nat, seq<Byte>>, first: nat, selected: seq<nat>, originalLength: int,
                              res: Result<seq<Byte>, CodingError>)
      requires Choice(available, first, selected)
    {
      var size := |available[first]|;
      if !CODE.Nonsingular(K, Selection(selected)) then res == Err(SingularRows)
      else if exists j | j in selected :: |available[j]| < size then res == Err(IndexOutOfRange)
      else res.Ok? && ByInverse(available, selected, size, originalLength, res.value)
    }

    /** The bytes are the available data shards as they are, and the products with an inverse for the missing ones. */
    ghost predicate ByInverse(available: map<nat, seq<Byte>>, selected: seq<nat>, size: nat, originalLength: int,
                              bytes: seq<Byte>) {
      exists blocks, inv | DecodedBlocks(available, selected, size, inv, blocks) ::
        bytes == Truncated(Flatten(blocks), originalLength)
    }

    ghost predicate DecodedBlocks(available: map<nat, seq<Byte>>, selected: seq<nat>, size: nat, inv: Matrix<Byte>,
                                  blocks: seq<seq<Byte>>)
    {
      && Fits(available, selected, K, size) && GF.Inverses(CODE.SelectedRows(K, selected), inv, K) && |blocks| == K
      && forall i | 0 <= i < K :: blocks[i] == Decoded(available, selected, inv, K, size, i)
    }

    /**
      * The outcomes of reconstruction, for shards of any lengths: too few fail; data shards that are all there are
      * joined as they are; else it is the outcome of decoding from some choice of shards.
      */
    ghost predicate Reconstructs(available: map<nat, seq<Byte>>, originalLength: int,
                                 res: Result<seq<Byte>, CodingError>) {
      if |available| < K then res == Err(Insufficient)
      else if AllData(available) then res == Ok(Truncated(Flatten(DataShards(available)), originalLength))
      else
        exists first, selected | Choice(available, first, selected) ::
          DecodesTo(available, first, selected, originalLength, res)
    }

    method Reconstruct(available: map<nat, seq<Byte>>, originalLength: int)
      returns (res: Result<seq<Byte>, CodingError>)
      requires Valid()
      ensures Reconstructs(available, originalLength, res)
    {
      hide Code.Nonsingular; hide Field.Inverses; hide Field.InKernel; hide Mul; hide Code.EncodingRow; hide Flatten;
      hide Decoded;
      if |available| < K { return Err(Insufficient); }
      var selected := SelectShards(available);
      assert available.Keys != {};
      var first :| first in available.Keys;
      var size := |available[first]|;
      if AllData(available) {
        var present := seq(K, i requires 0 <= i < K => available[i]);
        var direct := Rejoin(present, originalLength);
        return Ok(direct);
      }
      assert Choice(available, first, selected);

      var rows := BuildRows(selected);
      var inverse := InvertMatrix(t, rows, K);
      EncoderCodeIsValid();
      if inverse.None? {
        CODE.KernelExcludesData(K, selected);
        assert DecodesTo(available, first, selected, originalLength, Err(SingularRows));
        return Err(SingularRows);
      }
      CODE.InverseExcludesKernel(K, selected, inverse.value);
      SelectedAreAvailable(available, selected);
      if exists j | j in selected :: |available[j]| < size {
        assert DecodesTo(available, first, selected, originalLength, Err(IndexOutOfRange));
        return Err(IndexOutOfRange);
      }
      assert forall j | 0 <= j < K :: selected[j] in selected;
      var blocks := DecodeBlocks(available, selected, inverse.value, size);
      var joined := Rejoin(blocks, originalLength);
      assert DecodedBlocks(available, selected, size, inverse.value, blocks);
      assert DecodesTo(available, first, selected, originalLength, Ok(joined));
      return Ok(joined);
    }

    lemma SelectedAreAvailable(available: map<nat, seq<Byte>>, selected: seq<nat>)
      requires Selection(selected) <= available.Keys
      ensures forall j | j in selected :: j in available
    {
      forall j | j in selected ensures j in available { assert j in Selection(selected); }
    }

    method BuildRows(selected: seq<nat>) returns (rows: Matrix<Byte>)
      requires Valid()
      ensures |selected| == K ==> rows == CODE.SelectedRows(K, selected)
    {
      hide Code.EncodingRow;
      rows := [];
      for r := 0 to |selected|
        invariant |rows| == r && forall q | 0 <= q < r :: rows[q] == CODE.EncodingRow(K, selected[q])
      {
        var row := EncodingCoefficients(selected[r]);
        rows := rows + [row];
      }
    }

    method DecodeBlocks(available: map<nat, seq<Byte>>, selected: seq<nat>, inv: Matrix<Byte>, size: nat)
      returns (blocks: seq<seq<Byte>>)
      requires Valid() && Fits(available, selected, K, size) && GF.Shape(inv, K, K)
      ensures |blocks| == K
      ensures forall i | 0 <= i < K :: blocks[i] == Decoded(available, selected, inv, K, size, i)
    {
      blocks := [];
      for i := 0 to K
        invariant Valid() && |blocks| == i
        invariant forall j | 0 <= j < i :: blocks[j] == Decoded(available, selected, inv, K, size, j)
      {
        if i in available {
          blocks := blocks + [available[i]];
        } else {
          var r := RecoverBlock(available, selected, inv, size, i);
          blocks := blocks + [r];
        }
      }
    }

    /**
      * Whichever K shards are picked, a result is the data every time the shards were coded, and only a singular
      * selection fails; for shards of one length nothing is ever out of range.
      */
    lemma CodedIsRecovered(available: map<nat, seq<Byte>>, originalLength: int, res: Result<seq<Byte>, CodingError>)
      requires K > 0 && |available| >= K && Reconstructs(available, originalLength, res)
      ensures res == Err(SingularRows) ==>
        exists s: set<nat> :: s <= available.Keys && |s| == K && !CODE.Nonsingular(K, s)
      ensures |available| == K && !CODE.Nonsingular(K, available.Keys) ==> res == Err(SingularRows)
      ensures (forall i, j | i in available && j in available :: |available[i]| == |available[j]|) ==>
        res != Err(IndexOutOfRange)
      ensures forall blocks, size: nat | Codes(available, blocks, K, size) ::
        res.Ok? ==> res.value == Truncated(Flatten(blocks), originalLength)
      ensures res.Err? ==> res.error == SingularRows || res.error == IndexOutOfRange
    {
      hide Codes; hide Code.Nonsingular; hide Flatten; hide DecodesTo; hide ShardData; hide Code.Valid;
      EncoderCodeIsValid();
      if AllData(available) {
        assert Below(K) <= available.Keys;
        CODE.AllDataSuffices(K, available.Keys);
        forall blocks, size: nat | Codes(available, blocks, K, size) ensures DataShards(available) == blocks {
          PresentAreBlocks(available, blocks, size, DataShards(available));
        }
      } else {
        var first, selected :| Choice(available, first, selected)
          && DecodesTo(available, first, selected, originalLength, res);
        SelectedAreAvailable(available, selected);
        if |available| == K {
          assert |available.Keys - Selection(selected)| == 0;
          assert available.Keys == Selection(selected);
        }
        assert Selection(selected) <= available.Keys && |Selection(selected)| == K;
        DecodingOutcome(available, first, selected, originalLength, res);
      }
    }

    lemma DecodingOutcome(available: map<nat, seq<Byte>>, first: nat, selected: seq<nat>, originalLength: int,
                          res: Result<seq<Byte>, CodingError>)
      requires K > 0 && Choice(available, first, selected) && DecodesTo(available, first, selected, originalLength, res)
      ensures res == Err(SingularRows) <==> !CODE.Nonsingular(K, Selection(selected))
      ensures res.Err? ==> res.error == SingularRows || res.error == IndexOutOfRange
      ensures res == Err(IndexOutOfRange) ==> exists j | j in available :: |available[j]| < |available[first]|
      ensures forall blocks, size: nat | Codes(available, blocks, K, size) ::
        res.Ok? ==> res.value == Truncated(Flatten(blocks), originalLength)
    {
      hide Codes; hide Code.Nonsingular; hide Flatten; hide ShardData; hide Field.Inverses; hide Decoded;
      SelectedAreAvailable(available, selected);
      if res.Ok? {
        var decoded, inv :| DecodedBlocks(available, selected, |available[first]|, inv, decoded)
          && res.value == Truncated(Flatten(decoded), originalLength);
        forall blocks, size: nat | Codes(available, blocks, K, size) ensures decoded == blocks {
          CodesHaveSize(available, blocks, size, first);
          DecodedAreBlocks(available, blocks, selected, inv, size, decoded);
        }
      }
    }

    lemma CodesHaveSize(available: map<nat, seq<Byte>>, blocks: seq<seq<Byte>>, size: nat, i: nat)
      requires Codes(available, blocks, K, size) && i in available
      ensures |available[i]| == size
    {}

    /** Shards of one length from which reconstruction gives a result are the code of what it gives. */
    lemma ResultIsCoded(available: map<nat, seq<Byte>>, size: nat, bytes: seq<Byte>) returns (blocks: seq<seq<Byte>>)
      requires K > 0 && |available| == K && forall i | i in available :: |available[i]| == size
      requires Reconstructs(available, 0, Ok(bytes))
      ensures Codes(available, blocks, K, size) && bytes == Flatten(blocks)
    {
      hide Codes; hide Flatten; hide Field.Inverses; hide Decoded; hide Code.Nonsingular;
      if AllData(available) {
        blocks := DataShards(available);
        JoinedAreCoded(available, size, blocks);
      } else {
        var first, selected :| Choice(available, first, selected)
          && DecodesTo(available, first, selected, 0, Ok(bytes));
        var decoded, inv :| DecodedBlocks(available, selected, size, inv, decoded)
          && bytes == Truncated(Flatten(decoded), 0);
        blocks := decoded;
        assert |available.Keys - Selection(selected)| == 0;
        assert available.Keys == Selection(selected);
        DecodedAreCoded(available, selected, inv, size, blocks);
      }
    }

    lemma JoinedAreCoded(available: map<nat, seq<Byte>>, size: nat, blocks: seq<seq<Byte>>)
      requires |available| == K && forall i | i in available :: |available[i]| == size
      requires AllData(available) && blocks == DataShards(available)
      ensures Codes(available, blocks, K, size)
    {
      hide ShardData;
      assert Below(K) <= available.Keys;
      assert |available.Keys - Below(K)| == 0;
      assert available.Keys == Below(K) + (available.Keys - Below(K));
      forall i | i in available ensures available[i] == ShardData(blocks, K, size, i) {
        assert i in Below(K);
        DataShardIsBlock(blocks, K, size, i);
      }
    }

    lemma DecodedAreCoded(available: map<nat, seq<Byte>>, selected: seq<nat>, inv: Matrix<Byte>, size: nat,
                          blocks: seq<seq<Byte>>)
      requires K > 0 && available.Keys == Selection(selected) && forall i | i in available :: |available[i]| == size
      requires DecodedBlocks(available, selected, size, inv, blocks)
      ensures Codes(available, blocks, K, size)
    {
      hide ShardData; hide Field.Inverses; hide RecoveredBlock; hide Code.SelectedRows; hide Received; hide Field.Dot;
      assert IsBlocks(blocks, K, size);
      forall i | i in available ensures available[i] == ShardData(blocks, K, size, i) {
        assert i in Selection(selected);
        var r: nat :| r < K && selected[r] == i;
        forall b | 0 <= b < size ensures available[i][b] == ShardData(blocks, K, size, i)[b] {
          DecodedColumn(available, selected, inv, size, blocks, b);
          SelectedProduct(available, selected, inv, b, r);
          ShardByte(blocks, K, size, i, b);
        }
      }
    }

    /** The decoded bytes, of shards that were read as well as of missing ones, are the inverse times those received. */
    lemma DecodedColumn(available: map<nat, seq<Byte>>, selected: seq<nat>, inv: Matrix<Byte>, size: nat,
                        blocks: seq<seq<Byte>>, b: nat)
      requires K > 0 && available.Keys == Selection(selected) && DecodedBlocks(available, selected, size, inv, blocks)
      requires b < size && IsBlocks(blocks, K, size)
      ensures Column(blocks, b) == GF.Apply(inv, Received(available, selected, b))
    {
      hide Field.Dot; hide Code.SelectedRows; hide Received; hide Field.Apply;
      var x := GF.Apply(inv, Received(available, selected, b));
      forall c: nat | c < K ensures Column(blocks, b)[c] == x[c] {
        DecodedByte(available, selected, inv, size, blocks, b, c);
      }
    }

    lemma DecodedByte(available: map<nat, seq<Byte>>, selected: seq<nat>, inv: Matrix<Byte>, size: nat,
                      blocks: seq<seq<Byte>>, b: nat, c: nat)
      requires K > 0 && available.Keys == Selection(selected) && DecodedBlocks(available, selected, size, inv, blocks)
      requires b < size && IsBlocks(blocks, K, size) && c < K
      ensures blocks[c][b] == GF.Apply(inv, Received(available, selected, b))[c]
    {
      hide Field.Dot; hide Code.SelectedRows; hide Code.Valid; hide Code.EncodingRow; hide Received;
      EncoderCodeIsValid();
      if c in available {
        assert c in Selection(selected);
        var r: nat :| r < K && selected[r] == c;
        SelectedProduct(available, selected, inv, b, r);
        CODE.DataRow(K, c, GF.Apply(inv, Received(available, selected, b)));
      }
    }

    lemma SelectedProduct(available: map<nat, seq<Byte>>, selected: seq<nat>, inv: Matrix<Byte>, b: nat, r: nat)
      requires |selected| == K && GF.Inverses(CODE.SelectedRows(K, selected), inv, K) && r < K
      requires forall i | 0 <= i < K :: selected[i] in available && b < |available[selected[i]]|
      ensures GF.Dot(CODE.EncodingRow(K, selected[r]), GF.Apply(inv, Received(available, selected, b)), K)
           == available[selected[r]][b]
    {
      hide Field.Dot; hide Code.EncodingRow;
      var y := Received(available, selected, b);
      assert GF.Apply(CODE.SelectedRows(K, selected), GF.Apply(inv, y))[r] == y[r];
    }

    /**
      * What reconstruction gives is not checked against anything: from any K shards of one length it gives the data
      * exactly when every one of them is a shard of that data.
      */
    lemma ResultIsDataIff(available: map<nat, seq<Byte>>, size: nat, bytes: seq<Byte>, blocks: seq<seq<Byte>>)
      requires K > 0 && |available| == K && forall i | i in available :: |available[i]| == size
      requires Reconstructs(available, 0, Ok(bytes)) && IsBlocks(blocks, K, size)
      ensures bytes == Flatten(blocks) <==> Codes(available, blocks, K, size)
    {
      hide Codes; hide Flatten; hide Blocks; hide Encoder.Reconstructs;
      var coded := ResultIsCoded(available, size, bytes);
      CodesAreBlocks(available, coded, K, size);
      BlocksOfFlatten(coded, K, size);
      BlocksOfFlatten(blocks, K, size);
      CodedIsRecovered(available, 0, Ok(bytes));
    }

    lemma PresentAreBlocks(available: map<nat, seq<Byte>>, blocks: seq<seq<Byte>>, size: nat, present: seq<seq<Byte>>)
      requires Codes(available, blocks, K, size)
      requires |present| == K && forall i: nat | i < K :: i in available && present[i] == available[i]
      ensures present == blocks
    {
      hide ShardData;
      forall i | 0 <= i < K ensures present[i] == blocks[i] { DataShardIsBlock(blocks, K, size, i); }
    }

    lemma DecodedAreBlocks(available: map<nat, seq<Byte>>, original: seq<seq<Byte>>, selected: seq<nat>,
                           inv: Matrix<Byte>, size: nat, blocks: seq<seq<Byte>>)
      requires Codes(available, original, K, size) && Fits(available, selected, K, size) && K > 0
      requires GF.Inverses(CODE.SelectedRows(K, selected), inv, K)
      requires |blocks| == K
      requires forall j | 0 <= j < K :: blocks[j] == Decoded(available, selected, inv, K, size, j)
      ensures blocks == original
    {
      hide ShardData; hide RecoveredBlock; hide Field.Inverses;
      forall i | 0 <= i < K ensures blocks[i] == original[i] {
        if i in available {
          DataShardIsBlock(original, K, size, i);
        } else {
          RecoveredIsBlock(available, original, selected, inv, K, size, i);
        }
      }
    }
  }

  method NewEncoder(k: int, m: int, tables: Tables, checksum: seq<Byte> -> string)
    returns (res: Result<Encoder, CodingError>)
    requires tables.Valid()
    ensures res == Err(BadCounts) <==> k <= 0 || m <= 0
    ensures res.Ok? <==> k > 0 && m > 0
    ensures res.Ok? ==> res.value.Valid() && res.value.K == k && res.value.M == m
    ensures res.Ok? ==> res.value.t == tables && res.value.computeChecksum == checksum
  {
    if k <= 0 || m <= 0 { return Err(BadCounts); }
    var e := new Encoder(k, m, tables, checksum);
    return Ok(e);
  }

  // Round trip.

  /** The shards of an encoding with the given indices. */
  function Survivors(shards: seq<Shard>, alive: set<nat>): (available: map<nat, seq<Byte>>)
    requires forall i | i in alive :: i < |shards|
    ensures available.Keys == alive
  {
    map i | i in alive :: shards[i].data
  }

  lemma SurvivorsCode(e: Encoder, data: seq<Byte>, shards: seq<Shard>, alive: set<nat>)
    requires e.K > 0 && |shards| == e.K + e.M && forall i | i in alive :: i < e.K + e.M
    requires forall i | 0 <= i < e.K + e.M ::
      e.IsShard(shards[i], Blocks(Padded(data, e.K), e.K, ShardSize(|data|, e.K)), ShardSize(|data|, e.K), i)
    ensures Codes(Survivors(shards, alive), Blocks(Padded(data, e.K), e.K, ShardSize(|data|, e.K)), e.K,
                  ShardSize(|data|, e.K))
  {}

  lemma PaddingIsTruncated(data: seq<Byte>, K: nat, originalLength: int)
    requires K > 0 && data != []
    ensures var size := ShardSize(|data|, K);
            Truncated(Flatten(Blocks(Padded(data, K), K, size)), originalLength)
              == Truncated(Padded(data, K), originalLength)
    ensures originalLength == |data| ==> Truncated(Padded(data, K), originalLength) == data
  {
    ShardSizeCovers(|data|, K);
    FlattenBlocks(Padded(data, K), K, ShardSize(|data|, K));
  }

  lemma SomeSelectionSingular(K: nat, M: nat, alive: set<nat>)
    requires K > 0 && M > 0 && forall i | i in alive :: i < K + M
    requires exists s: set<nat> :: s <= alive && |s| == K && !CODE.Nonsingular(K, s)
    ensures !Recoverable(K, M)
    ensures |alive| == K ==> !CODE.Nonsingular(K, alive)
  {
    hide Code.Nonsingular; hide Code.Valid;
    EncoderCodeIsValid();
    CODE.AnyKSufficeIff(K, M);
    var s: set<nat> :| s <= alive && |s| == K && !CODE.Nonsingular(K, s);
    if |alive| == K { assert |alive - s| == 0; assert alive == s + (alive - s); }
  }

  lemma RoundTripOutcome(e: Encoder, data: seq<Byte>, available: map<nat, seq<Byte>>,
                         res: Result<seq<Byte>, CodingError>)
    requires e.K > 0 && e.M > 0 && data != [] && (forall i | i in available :: i < e.K + e.M)
    requires var size := ShardSize(|data|, e.K); Codes(available, Blocks(Padded(data, e.K), e.K, size), e.K, size)
    requires e.Reconstructs(available, |data|, res)
    ensures |available| < e.K ==> res == Err(Insufficient)
    ensures |available| >= e.K && Recoverable(e.K, e.M) ==> res == Ok(data)
    ensures |available| == e.K ==>
      res == if CODE.Nonsingular(e.K, available.Keys) then Ok(data) else Err(SingularRows)
    ensures res.Ok? ==> res.value == data
  {
    hide Code.Nonsingular; hide Flatten; hide Blocks; hide Padded; hide Truncated; hide ShardData; hide ShardSize;
    hide Recoverable; hide Encoder.DecodesTo;
    if |available| >= e.K {
      var size := ShardSize(|data|, e.K);
      SameSize(available, Blocks(Padded(data, e.K), e.K, size), e.K, size);
      e.CodedIsRecovered(available, |data|, res);
      PaddingIsTruncated(data, e.K, |data|);
      if res == Err(SingularRows) { SomeSelectionSingular(e.K, e.M, available.Keys); }
    }
  }

  lemma SameSize(available: map<nat, seq<Byte>>, blocks: seq<seq<Byte>>, K: nat, size: nat)
    requires Codes(available, blocks, K, size)
    ensures forall i, j | i in available && j in available :: |available[i]| == |available[j]|
  {}

  /**
    * Encoding, losing all but the shards in alive, and reconstructing with the original length: with K or more
    * survivors the data comes back whenever no K of them are singular, so always for recoverable parameters.
    */
  method EncodeLoseReconstruct(e: Encoder, data: seq<Byte>, alive: set<nat>)
    returns (res: Result<seq<Byte>, CodingError>)
    requires e.Valid() && data != []
    requires forall i | i in alive :: i < e.K + e.M
    ensures |alive| < e.K ==> res == Err(Insufficient)
    ensures |alive| >= e.K && Recoverable(e.K, e.M) ==> res == Ok(data)
    ensures |alive| == e.K ==> res == if CODE.Nonsingular(e.K, alive) then Ok(data) else Err(SingularRows)
    ensures res.Ok? ==> res.value == data
  {
    hide Codes; hide Code.Nonsingular; hide Flatten; hide Blocks; hide Padded; hide Truncated; hide ShardData;
    hide Encoder.Reconstructs; hide Recoverable;
    var encoded := e.Encode(data);
    var shards := encoded.value;
    var available := Survivors(shards, alive);
    assert |available| == |available.Keys| == |alive|;
    SurvivorsCode(e, data, shards, alive);
    res := e.Reconstruct(available, |data|);
    RoundTripOutcome(e, data, available, res);
  }
}
