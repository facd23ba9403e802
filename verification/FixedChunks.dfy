/** Splitting into chunks of one size, from a buffer or from a stream. */
module FixedChunks {
  import opened Bytes
  import opened Chunking
  import opened Wrappers

  function Pieces(data: seq<Byte>, size: nat): seq<seq<Byte>>
    requires size > 0
    decreases |data|
  {
    if data == [] then []
    else if |data| <= size then [data]
    else [data[..size]] + Pieces(data[size..], size)
  }

  /** The pieces are the input in order; all but the last have the size, and the last is not empty. */
  lemma {:induction false} PiecesPartition(data: seq<Byte>, size: nat)
    requires size > 0
    ensures var ps := Pieces(data, size);
            && Concat(ps) == data
            && (forall i | 0 <= i < |ps| :: 0 < |ps[i]| <= size && (i < |ps| - 1 ==> |ps[i]| == size))
    decreases |data|
  {
    if |data| > size {
      PiecesPartition(data[size..], size);
      var ps := Pieces(data, size);
      assert ps[1..] == Pieces(data[size..], size);
      assert data == data[..size] + data[size..];
      forall i | 0 < i < |ps| ensures 0 < |ps[i]| <= size && (i < |ps| - 1 ==> |ps[i]| == size) {
        assert ps[i] == ps[1..][i - 1];
      }
    } else if data != [] {
      assert Concat([data]) == data + Concat([]) == data;
    }
  }

  /** The chunks of pieces, numbered from zero. */
  function Chunks(sha: seq<Byte> -> string, pieces: seq<seq<Byte>>): (chunks: seq<Chunk>)
    ensures |chunks| == |pieces|
  {
    seq(|pieces|, i requires 0 <= i < |pieces| => Chunk(sha(pieces[i]), pieces[i], i))
  }

  datatype SplitError = BadSize | NoData | Rejected(index: nat) | ReadFailed(index: nat)

  lemma PieceAt(data: seq<Byte>, size: nat, i: nat, start: nat)
    requires size > 0 && start < |data|
    requires i <= |Pieces(data, size)| && Pieces(data, size)[i..] == Pieces(data[start..], size)
    ensures var end := if start + size > |data| then |data| else start + size;
            && i < |Pieces(data, size)| && Pieces(data, size)[i] == data[start..end]
            && Pieces(data, size)[i + 1..] == Pieces(data[end..], size)
  {
    hide Pieces;
    var end := if start + size > |data| then |data| else start + size;
    var rest := data[start..];
    var ps := Pieces(data, size);
    FirstPiece(rest, size);
    assert rest[..end - start] == data[start..end] && rest[end - start..] == data[end..];
    assert ps[i..][0] == ps[i] && ps[i..][1..] == ps[i + 1..];
  }

  lemma FirstPiece(data: seq<Byte>, size: nat)
    requires size > 0 && data != []
    ensures var n := if size > |data| then |data| else size;
            Pieces(data, size) == [data[..n]] + Pieces(data[n..], size)
  {
    if |data| <= size { assert data[..|data|] == data && data[|data|..] == []; }
  }

  /** The chunks made of the bytes before start. */
  ghost predicate SoFar(sha: seq<Byte> -> string, data: seq<Byte>, size: nat, chunks: seq<Chunk>, start: nat) {
    && size > 0 && start <= |data| && |chunks| <= |Pieces(data, size)|
    && Pieces(data, size)[|chunks|..] == Pieces(data[start..], size)
    && chunks == Chunks(sha, Pieces(data, size))[..|chunks|]
  }

  lemma NoneSoFar(sha: seq<Byte> -> string, data: seq<Byte>, size: nat)
    requires size > 0
    ensures SoFar(sha, data, size, [], 0)
  {
    assert data[0..] == data;
  }

  lemma OneMoreChunk(sha: seq<Byte> -> string, data: seq<Byte>, size: nat, chunks: seq<Chunk>, start: nat,
                     piece: seq<Byte>)
    requires SoFar(sha, data, size, chunks, start) && start < |data|
    requires piece == data[start..if start + size > |data| then |data| else start + size]
    ensures var c := Chunk(sha(piece), piece, |chunks|);
            && SoFar(sha, data, size, chunks + [c], start + |piece|)
            && |chunks| < |Pieces(data, size)| && Chunks(sha, Pieces(data, size))[|chunks|] == c
  {
    hide Pieces;
    PieceAt(data, size, |chunks|, start);
  }

  lemma AllSoFar(sha: seq<Byte> -> string, data: seq<Byte>, size: nat, chunks: seq<Chunk>)
    requires SoFar(sha, data, size, chunks, |data|)
    ensures chunks == Chunks(sha, Pieces(data, size)) && (data == [] <==> chunks == [])
  {
    assert data[|data|..] == [];
    assert |chunks| == |Pieces(data, size)|;
  }

  method Split(sha: seq<Byte> -> string, data: seq<Byte>, chunkSize: int) returns (res: Result<seq<Chunk>, SplitError>)
    ensures res == if chunkSize <= 0 then Err(BadSize) else if data == [] then Err(NoData)
                   else Ok(Chunks(sha, Pieces(data, chunkSize)))
  {
    hide SoFar;
    if chunkSize <= 0 { return Err(BadSize); }
    if |data| == 0 { return Err(NoData); }
    var chunks: seq<Chunk> := [];
    var start := 0;
    NoneSoFar(sha, data, chunkSize);
    while start < |data|
      invariant 0 <= start <= |data| && SoFar(sha, data, chunkSize, chunks, start)
      decreases |data| - start
    {
      var end := if start + chunkSize > |data| then |data| else start + chunkSize;
      OneMoreChunk(sha, data, chunkSize, chunks, start, data[start..end]);
      chunks := chunks + [Chunk(sha(data[start..end]), data[start..end], |chunks|)];
      start := end;
    }
    AllSoFar(sha, data, chunkSize, chunks);
    return Ok(chunks);
  }

  // Streams.

  /** The rest of a stream: its bytes, how many more than one a read finds at hand, and whether it ends by failing. */
  datatype Source = Source(bytes: seq<Byte>, atHand: nat -> nat, fails: bool)

  function Min(a: nat, b: nat): nat { if a < b then a else b }

  /** Reads until the buffer is full or the stream ends, however the stream is fragmented. */
  method ReadFull(r: Source, size: nat) returns (piece: seq<Byte>, after: Source)
    ensures piece == r.bytes[..Min(size, |r.bytes|)] && after == r.(bytes := r.bytes[|piece|..])
  {
    var n := 0;
    while n < size && n < |r.bytes|
      invariant n <= Min(size, |r.bytes|)
    {
      n := n + Min(1 + r.atHand(|r.bytes| - n), Min(size, |r.bytes|) - n);
    }
    piece := r.bytes[..n];
    after := r.(bytes := r.bytes[n..]);
  }

  /** The first chunk that the callback rejects, or the number of chunks. */
  function FirstRejected(accept: Chunk -> bool, chunks: seq<Chunk>): (n: nat)
    ensures n <= |chunks| && (n < |chunks| ==> !accept(chunks[n]))
    ensures forall i | 0 <= i < n :: accept(chunks[i])
  {
    if chunks == [] || !accept(chunks[0]) then 0 else 1 + FirstRejected(accept, chunks[1..])
  }

  lemma FirstRejectedIs(accept: Chunk -> bool, chunks: seq<Chunk>, n: nat)
    requires n <= |chunks| && (forall i | 0 <= i < n :: accept(chunks[i])) && (n < |chunks| ==> !accept(chunks[n]))
    ensures FirstRejected(accept, chunks) == n
  {
    var m := FirstRejected(accept, chunks);
    assert !(m < n) && !(n < m);
  }

  ghost function IDs(chunks: seq<Chunk>): (ids: seq<string>)
    ensures |ids| == |chunks|
  {
    seq(|chunks|, i requires 0 <= i < |chunks| => chunks[i].id)
  }

  lemma NothingYet()
    ensures IDs([]) == [] && Data([]) == []
  {}

  lemma OneMore(chunks: seq<Chunk>, c: Chunk)
    ensures IDs(chunks + [c]) == IDs(chunks) + [c.id] && Data(chunks + [c]) == Data(chunks) + c.data
  {
    assert (chunks + [c])[..|chunks|] == chunks;
  }

  /**
    * Hands the chunks of a stream to the callback as they are read: the same chunks that splitting all the bytes at
    * once gives, up to and including the first one rejected.
    */
  method SplitStream(sha: seq<Byte> -> string, r: Source, chunkSize: int, accept: Chunk -> bool)
    returns (totalBytes: nat, chunkIDs: seq<string>, processed: seq<Chunk>, err: Option<SplitError>)
    ensures chunkSize <= 0 ==> err == Some(BadSize) && processed == []
    ensures chunkSize > 0 ==>
      var chunks := Chunks(sha, Pieces(r.bytes, chunkSize));
      var n := FirstRejected(accept, chunks);
      && processed == chunks[..Min(n + 1, |chunks|)]
      && err == if n < |chunks| then Some(Rejected(n))
                else if r.fails then Some(ReadFailed(n))
                else if r.bytes == [] then Some(NoData)
                else None
    ensures chunkIDs == IDs(processed) && totalBytes == |Data(processed)|
  {
    hide SoFar; hide Pieces; hide FirstRejected; hide Chunks; hide Data; hide IDs;
    totalBytes, chunkIDs, processed := 0, [], [];
    NothingYet();
    if chunkSize <= 0 { return 0, [], [], Some(BadSize); }
    ghost var chunks := Chunks(sha, Pieces(r.bytes, chunkSize));
    ghost var start: nat := 0;
    var s := r;
    var ended := false;
    NoneSoFar(sha, r.bytes, chunkSize);
    assert r.bytes[0..] == r.bytes;
    while !ended
      invariant start <= |r.bytes| && s == r.(bytes := r.bytes[start..])
      invariant SoFar(sha, r.bytes, chunkSize, processed, start)
      invariant |processed| <= |chunks| && processed == chunks[..|processed|]
      invariant forall i | 0 <= i < |processed| :: accept(chunks[i])
      invariant chunkIDs == IDs(processed) && totalBytes == |Data(processed)|
      invariant totalBytes == 0 <==> processed == []
      invariant ended ==> start == |r.bytes|
      decreases !ended, |s.bytes|
    {
      var piece, after := ReadFull(s, chunkSize);
      if |piece| > 0 {
        assert piece == r.bytes[start..start + |piece|] && after.bytes == r.bytes[start + |piece|..];
        OneMoreChunk(sha, r.bytes, chunkSize, processed, start, piece);
        var c := Chunk(sha(piece), piece, |processed|);
        OneMore(processed, c);
        totalBytes := totalBytes + |piece|;
        chunkIDs := chunkIDs + [c.id];
        processed := processed + [c];
        start := start + |piece|;
        if !accept(c) {
          FirstRejectedIs(accept, chunks, c.index);
          return totalBytes, chunkIDs, processed, Some(Rejected(c.index));
        }
      }
      s := after;
      ended := |piece| < chunkSize;
    }
    AllSoFar(sha, r.bytes, chunkSize, processed);
    FirstRejectedIs(accept, chunks, |chunks|);
    if r.fails { return totalBytes, chunkIDs, processed, Some(ReadFailed(|processed|)); }
    if totalBytes == 0 { return 0, [], [], Some(NoData); }
    return totalBytes, chunkIDs, processed, None;
  }
}
