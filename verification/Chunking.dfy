/** Content-defined chunking and reassembly. */
module Chunking {
  import opened Bytes
  import opened Words
  import opened Wrappers

  const DEFAULT_MIN := 16 * 1024
  const DEFAULT_MAX := 256 * 1024
  const SHORT_MASK := 0x1FFF

  datatype Chunk = Chunk(id: string, data: seq<Byte>, index: nat)

  datatype ChunkError = Empty | Corrupted(index: nat)

  // The mask.

  /** The loop's m: all ones, one bit longer each time, in 32 bits. */
  function Longer(m: nat): nat { if 2 * m + 1 < WORD32 then 2 * m + 1 else 2 * m + 1 - WORD32 }

  /** The mask is one bit shorter than the shortest run of ones that reaches the average; 13 bits for average zero. */
  ghost predicate IsWidth(average: nat, w: nat) {
    if average == 0 then w == 13 else Pow2(w + 1) - 1 >= average && (w == 0 || Pow2(w) - 1 < average)
  }

  method FindMask(average: nat) returns (mask: nat)
    requires average <= WORD32 - 1
    ensures exists w :: w <= 31 && mask == Pow2(w) - 1 && IsWidth(average, w)
  {
    hide Pow2;
    Pow2At32();
    if average == 0 {
      SmallPowers();
      assert IsWidth(average, 13);
      return SHORT_MASK;
    }
    var m := 1;
    ghost var bits := 1;
    SmallPowers();
    while m < average
      invariant 1 <= bits <= 32 && m == Pow2(bits) - 1
      invariant bits > 1 ==> Pow2(bits - 1) - 1 < average
      decreases 32 - bits
    {
      Pow2Step(bits + 1);
      if bits + 1 < 32 { Pow2Grows(bits + 1, 32); }
      m := Longer(m);
      bits := bits + 1;
    }
    Pow2Step(bits);
    mask := m / 2;
    assert IsWidth(average, bits - 1);
  }

  lemma SmallPowers()
    ensures Pow2(0) == 1 && Pow2(1) == 2 && Pow2(13) == 0x2000
  {}

  /** The loop variable after n steps. */
  function Iterate(n: nat): nat { if n == 0 then 1 else Longer(Iterate(n - 1)) }

  lemma {:induction false} IterateIs(n: nat)
    ensures Iterate(n) == if n < 32 then Pow2(n + 1) - 1 else WORD32 - 1
  {
    hide Pow2;
    Pow2At32();
    SmallPowers();
    if n > 0 {
      IterateIs(n - 1);
      if n < 32 {
        Pow2Step(n + 1);
        if n < 31 { Pow2Grows(n + 1, 32); }
      }
    }
  }

  /** The mask loop ends exactly when the average fits 32 bits. */
  lemma MaskLoopEndsIff(average: nat)
    ensures (exists n: nat :: Iterate(n) >= average) <==> average <= WORD32 - 1
  {
    hide Pow2;
    Pow2At32();
    IterateIs(31);
    forall n: nat ensures Iterate(n) <= WORD32 - 1 {
      IterateIs(n);
      if n < 31 { Pow2Grows(n + 1, 32); }
    }
  }

  lemma WidthUnique(average: nat, v: nat, w: nat)
    requires IsWidth(average, v) && IsWidth(average, w)
    ensures v == w
  {
    hide Pow2;
    if average > 0 && v < w {
      if v + 1 < w { Pow2Grows(v + 1, w); }
    } else if average > 0 && w < v {
      if w + 1 < v { Pow2Grows(w + 1, v); }
    }
  }

  lemma WidthExists(average: nat) returns (w: nat)
    requires average <= WORD32 - 1
    ensures w <= 31 && IsWidth(average, w)
  {
    hide Pow2;
    Pow2At32();
    w := 0;
    if average == 0 {
      w := 13;
    } else {
      while Pow2(w + 1) - 1 < average
        invariant w <= 31 && (w == 0 || Pow2(w) - 1 < average)
        decreases 31 - w
      {
        w := w + 1;
      }
    }
  }

  // The rolling hash.

  datatype Chunker = Chunker(gear: Byte -> nat, sha: seq<Byte> -> string, min: nat, max: nat, width: nat) {

    /** Sizes are positive, table entries have 32 bits, and so has the mask. */
    ghost predicate Valid() {
      0 < min && 0 < max && width <= 31 && forall b :: gear(b) < WORD32
    }

    function Mask(): nat { Pow2(width) - 1 }

    function Roll(fp: nat, b: Byte): nat { (2 * fp + gear(b)) % WORD32 }

    /** The hash after scanning these bytes from zero. */
    ghost function Fingerprint(scanned: seq<Byte>): nat {
      if scanned == [] then 0 else Roll(Fingerprint(scanned[..|scanned| - 1]), scanned[|scanned| - 1])
    }

    /** The same sum without wrap-around: the last byte counts once, the one before it twice, and so on. */
    ghost function Weighted(bytes: seq<Byte>): nat {
      if bytes == [] then 0 else 2 * Weighted(bytes[..|bytes| - 1]) + gear(bytes[|bytes| - 1])
    }

    lemma {:induction false} FingerprintIsSum(bytes: seq<Byte>)
      ensures Fingerprint(bytes) == Weighted(bytes) % WORD32
    {
      if bytes != [] {
        var front := bytes[..|bytes| - 1];
        FingerprintIsSum(front);
        var s := Weighted(front);
        assert 2 * s + gear(bytes[|bytes| - 1])
            == 2 * (s % WORD32) + gear(bytes[|bytes| - 1]) + 2 * (s / WORD32) * WORD32;
        AddMultiple(2 * (s % WORD32) + gear(bytes[|bytes| - 1]), 2 * (s / WORD32), WORD32);
      }
    }

    lemma {:induction false} WeightedConcat(a: seq<Byte>, b: seq<Byte>)
      ensures Weighted(a + b) == Weighted(a) * Pow2(|b|) + Weighted(b)
    {
      if b == [] {
        assert a + b == a;
      } else {
        var front, last := b[..|b| - 1], b[|b| - 1];
        assert (a + b)[..|a + b| - 1] == a + front && (a + b)[|a + b| - 1] == last;
        WeightedConcat(a, front);
        assert 2 * (Weighted(a) * Pow2(|front|)) == Weighted(a) * Pow2(|b|);
      }
    }

    /** The cut test sees only the last width bytes scanned: their weighted sum modulo 2^width. */
    lemma CutTestIsLocal(before: seq<Byte>, last: seq<Byte>)
      requires width <= 31 && |last| >= width
      ensures And(Fingerprint(before + last), Mask()) == Weighted(last) % Pow2(width)
    {
      FingerprintIsSum(before + last);
      WeightedConcat(before, last);
      AndOnes(Fingerprint(before + last), width);
      LowBits(Weighted(before), Weighted(last), |last|, width);
    }

    // The cut rule, on what remains of the input.

    /** The end of the first chunk found by the scan from i on, when the hash before i is fp. */
    ghost function Scan(s: seq<Byte>, i: nat, limit: nat, fp: nat): Option<nat>
      requires limit <= |s|
      decreases limit - i
    {
      if i >= limit then None
      else
        var next := Roll(fp, s[i]);
        if And(next, Mask()) == 0 then Some(i + 1) else Scan(s, i + 1, limit, next)
    }

    ghost function FirstCut(s: seq<Byte>): nat {
      if min >= |s| then |s|
      else
        match Scan(s, min, if max < |s| then max else |s|, 0)
        case Some(end) => end
        case None => if max < |s| then max else min
    }

    lemma {:induction false} ScanRange(s: seq<Byte>, i: nat, limit: nat, fp: nat)
      requires limit <= |s|
      ensures Scan(s, i, limit, fp).Some? ==> i < Scan(s, i, limit, fp).value <= limit
      decreases limit - i
    {
      hide And;
      if i < limit { ScanRange(s, i + 1, limit, Roll(fp, s[i])); }
    }

    /** A scanned position is a cut exactly when the bytes scanned up to it pass the test and none before did. */
    lemma {:induction false} ScanFindsFirst(s: seq<Byte>, from: nat, i: nat, limit: nat)
      requires from <= i && limit <= |s|
      requires i <= limit
      ensures var r := Scan(s, i, limit, Fingerprint(s[from..i]));
              && (r.Some? ==> i < r.value <= limit && And(Fingerprint(s[from..r.value]), Mask()) == 0)
              && forall k | i < k <= (if r.Some? then r.value - 1 else limit) ::
                   And(Fingerprint(s[from..k]), Mask()) != 0
      decreases limit - i
    {
      hide And;
      if i < limit {
        assert s[from..i + 1][..i - from] == s[from..i] && s[from..i + 1][i - from] == s[i];
        ScanFindsFirst(s, from, i + 1, limit);
      }
    }

    lemma CutRange(s: seq<Byte>)
      requires Valid() && s != []
      ensures 0 < FirstCut(s) <= |s|
      ensures min <= max ==> FirstCut(s) <= max && (FirstCut(s) < |s| ==> min <= FirstCut(s))
    {
      hide Scan;
      if min < |s| { ScanRange(s, min, if max < |s| then max else |s|, 0); }
    }

    ghost function Pieces(s: seq<Byte>): (pieces: seq<seq<Byte>>)
      requires Valid()
      decreases |s|
    {
      if s == [] then []
      else
        CutRange(s);
        [s[..FirstCut(s)]] + Pieces(s[FirstCut(s)..])
    }
  }

  function Concat(pieces: seq<seq<Byte>>): seq<Byte> {
    if pieces == [] then [] else pieces[0] + Concat(pieces[1..])
  }

  /** The chunks are the input, cut up. */
  lemma {:induction false} PiecesConcat(c: Chunker, s: seq<Byte>)
    requires c.Valid()
    ensures Concat(c.Pieces(s)) == s
    decreases |s|
  {
    hide Chunker.FirstCut; hide Chunker.Valid;
    if s != [] {
      c.CutRange(s);
      PiecesConcat(c, s[c.FirstCut(s)..]);
    }
  }

  /** The bytes scanned behind the minimum, up to position k, pass the cut test. */
  ghost predicate Passes(c: Chunker, s: seq<Byte>, k: nat) {
    c.min < k <= |s| && And(c.Fingerprint(s[c.min..k]), c.Mask()) == 0
  }

  /**
    * The bytes decide where the first piece of s ends: at the end of data no longer than the minimum; else at the first
    * position up to the maximum that passes; else at the maximum, or at the minimum when the data end before it.
    */
  ghost predicate EndsAt(c: Chunker, s: seq<Byte>, end: nat) {
    var limit := if c.max < |s| then c.max else |s|;
    if |s| <= c.min then end == |s|
    else if exists k: nat | k <= limit :: Passes(c, s, k) then
      end <= limit && Passes(c, s, end) && forall k: nat | k < end :: !Passes(c, s, k)
    else end == if c.max < |s| then c.max else c.min
  }

  lemma FirstCutIff(c: Chunker, s: seq<Byte>, end: nat)
    requires c.Valid()
    ensures EndsAt(c, s, end) <==> end == c.FirstCut(s)
  {
    hide And; hide Chunker.Fingerprint; hide Chunker.Scan; hide Chunker.Valid;
    if c.min < |s| {
      var limit := if c.max < |s| then c.max else |s|;
      assert s[c.min..c.min] == [];
      NothingHashed(c);
      if c.min <= limit {
        c.ScanFindsFirst(s, c.min, c.min, limit);
        var r := c.Scan(s, c.min, limit, 0);
        forall k: nat | k < (if r.Some? then r.value else limit + 1) ensures !Passes(c, s, k) {}
        assert r.Some? ==> Passes(c, s, r.value);
      } else {
        NothingScanned(c, s, limit);
      }
    }
  }

  lemma NothingHashed(c: Chunker)
    ensures c.Fingerprint([]) == 0
  {}

  lemma NothingScanned(c: Chunker, s: seq<Byte>, limit: nat)
    requires limit <= |s| && limit <= c.min
    ensures c.Scan(s, c.min, limit, 0) == None
  {}

  /** Where piece i starts. */
  function StartOf(pieces: seq<seq<Byte>>, i: nat): nat
    requires i <= |pieces|
  {
    |Concat(pieces[..i])|
  }

  /** The pieces are the input, none is empty, and the bytes decide where each of them ends. */
  ghost predicate CutByContent(c: Chunker, s: seq<Byte>, pieces: seq<seq<Byte>>) {
    && Concat(pieces) == s
    && forall i | 0 <= i < |pieces| ::
         pieces[i] != [] && StartOf(pieces, i) <= |s| && EndsAt(c, s[StartOf(pieces, i)..], |pieces[i]|)
  }

  ghost predicate WithinBounds(c: Chunker, pieces: seq<seq<Byte>>) {
    && (forall i | 0 <= i < |pieces| :: |pieces[i]| <= c.max)
    && forall i | 0 <= i < |pieces| - 1 :: c.min <= |pieces[i]|
  }

  lemma {:induction false} PiecesWithinBounds(c: Chunker, s: seq<Byte>)
    requires c.Valid() && c.min <= c.max
    ensures WithinBounds(c, c.Pieces(s))
    decreases |s|
  {
    hide Chunker.FirstCut; hide Chunker.Valid;
    if s != [] {
      c.CutRange(s);
      var cut := c.FirstCut(s);
      PiecesWithinBounds(c, s[cut..]);
      if cut == |s| { assert c.Pieces(s[cut..]) == []; }
    }
  }

  /** Every input is cut within the bounds exactly when the minimum in effect is at most the maximum in effect. */
  lemma BoundsHoldIff(c: Chunker)
    requires c.Valid()
    ensures (forall s :: WithinBounds(c, c.Pieces(s))) <==> c.min <= c.max
  {
    if c.min <= c.max {
      forall s { PiecesWithinBounds(c, s); }
    } else {
      var s := seq(c.min, _ => ZERO);
      assert c.FirstCut(s) == |s| && s[..|s|] == s;
      assert c.Pieces(s)[0] == s;
      assert !WithinBounds(c, c.Pieces(s));
    }
  }

  /** From any cut on, the chunks are those of the rest of the input on its own. */
  lemma {:induction false} PiecesFromCut(c: Chunker, s: seq<Byte>, k: nat)
    requires c.Valid() && k <= |c.Pieces(s)|
    ensures Concat(c.Pieces(s)[..k]) <= s
    ensures c.Pieces(s)[k..] == c.Pieces(s[|Concat(c.Pieces(s)[..k])|..])
    decreases |s|
  {
    hide Chunker.FirstCut; hide Chunker.Valid;
    var pieces := c.Pieces(s);
    if k > 0 {
      c.CutRange(s);
      var cut := c.FirstCut(s);
      PiecesFromCut(c, s[cut..], k - 1);
      assert pieces[..k][1..] == pieces[1..][..k - 1] && pieces[..k][0] == s[..cut];
      var rest := Concat(pieces[1..][..k - 1]);
      assert s[cut..][|rest|..] == s[cut + |rest|..];
      assert pieces[k..] == pieces[1..][k - 1..];
    }
  }

  /** Exactly the pieces cut by content are those of the cut rule. */
  lemma PiecesIff(c: Chunker, s: seq<Byte>, pieces: seq<seq<Byte>>)
    requires c.Valid()
    ensures pieces == c.Pieces(s) <==> CutByContent(c, s, pieces)
  {
    hide Chunker.Pieces; hide CutByContent; hide Chunker.Valid;
    PiecesAreCut(c, s);
    if CutByContent(c, s, pieces) { CutIsPieces(c, s, pieces); }
  }

  lemma PiecesAreCut(c: Chunker, s: seq<Byte>)
    requires c.Valid()
    ensures CutByContent(c, s, c.Pieces(s))
  {
    hide Chunker.FirstCut; hide Chunker.Valid; hide EndsAt; hide Concat;
    var pieces := c.Pieces(s);
    PiecesConcat(c, s);
    forall i | 0 <= i < |pieces|
      ensures pieces[i] != [] && StartOf(pieces, i) <= |s| && EndsAt(c, s[StartOf(pieces, i)..], |pieces[i]|)
    {
      PiecesFromCut(c, s, i);
      var rest := s[StartOf(pieces, i)..];
      assert pieces[i] == pieces[i..][0] == c.Pieces(rest)[0];
      c.CutRange(rest);
      FirstCutIff(c, rest, c.FirstCut(rest));
    }
  }

  lemma {:induction false} CutIsPieces(c: Chunker, s: seq<Byte>, pieces: seq<seq<Byte>>)
    requires c.Valid() && CutByContent(c, s, pieces)
    ensures pieces == c.Pieces(s)
    decreases |pieces|
  {
    hide Chunker.FirstCut; hide Chunker.Valid; hide EndsAt;
    if pieces != [] {
      var first, tail := pieces[0], pieces[1..];
      assert s[StartOf(pieces, 0)..] == s;
      FirstCutIff(c, s, |first|);
      assert s == first + Concat(tail) && s[|first|..] == Concat(tail);
      forall i | 0 <= i < |tail|
        ensures tail[i] != [] && StartOf(tail, i) <= |Concat(tail)|
        ensures EndsAt(c, Concat(tail)[StartOf(tail, i)..], |tail[i]|)
      {
        assert pieces[..i + 1][1..] == tail[..i];
        assert StartOf(pieces, i + 1) == |first| + StartOf(tail, i) && pieces[i + 1] == tail[i];
        assert s[StartOf(pieces, i + 1)..] == Concat(tail)[StartOf(tail, i)..];
      }
      CutIsPieces(c, Concat(tail), tail);
    }
  }

  /** If cutting p + s makes a cut at the end of p, the chunks from there on are those of s alone. */
  lemma Resynchronises(c: Chunker, p: seq<Byte>, s: seq<Byte>, k: nat)
    requires c.Valid() && k <= |c.Pieces(p + s)| && Concat(c.Pieces(p + s)[..k]) == p
    ensures c.Pieces(p + s)[k..] == c.Pieces(s)
  {
    PiecesFromCut(c, p + s, k);
    assert (p + s)[|p|..] == s;
  }

  /** So two inputs that both cut at the start of a common suffix share every later chunk. */
  lemma SharedSuffix(c: Chunker, p: seq<Byte>, q: seq<Byte>, s: seq<Byte>, j: nat, k: nat)
    requires c.Valid() && j <= |c.Pieces(p + s)| && Concat(c.Pieces(p + s)[..j]) == p
    requires k <= |c.Pieces(q + s)| && Concat(c.Pieces(q + s)[..k]) == q
    ensures c.Pieces(p + s)[j..] == c.Pieces(q + s)[k..]
  {
    Resynchronises(c, p, s, j);
    Resynchronises(c, q, s, k);
  }

  // The splitter.

  /** The sizes in effect for the sizes asked for. */
  function EffectiveSizes(minSize: int, maxSize: int): (int, int) {
    var lo := if minSize <= 0 then DEFAULT_MIN else minSize;
    (lo, if maxSize <= lo then DEFAULT_MAX else maxSize)
  }

  /**
    * For the sizes asked for, every input is cut within the bounds unless a minimum above the default maximum comes
    * with no larger maximum.
    */
  lemma BoundsHoldForSizes(c: Chunker, minSize: int, maxSize: int)
    requires c.Valid() && (c.min, c.max) == EffectiveSizes(minSize, maxSize)
    ensures (forall s :: WithinBounds(c, c.Pieces(s))) <==> !(minSize > DEFAULT_MAX && maxSize <= minSize)
  {
    BoundsHoldIff(c);
  }

  ghost predicate AreChunks(c: Chunker, chunks: seq<Chunk>, pieces: seq<seq<Byte>>) {
    |chunks| == |pieces| && forall i | 0 <= i < |chunks| :: chunks[i] == Chunk(c.sha(pieces[i]), pieces[i], i)
  }

  function Datas(chunks: seq<Chunk>): seq<seq<Byte>> {
    seq(|chunks|, i requires 0 <= i < |chunks| => chunks[i].data)
  }

  /** Whether splitting comes to compute the mask, and whether it can: the loop ends. */
  predicate Splittable(data: seq<Byte>, minSize: int, maxSize: int) {
    var (lo, hi) := EffectiveSizes(minSize, maxSize);
    |data| <= lo || (lo + hi) / 4 <= WORD32 - 1
  }

  method SplitCDC(gear: Byte -> nat, sha: seq<Byte> -> string, data: seq<Byte>, minSize: int, maxSize: int)
    returns (res: Result<seq<Chunk>, ChunkError>, ghost c: Chunker)
    requires forall b :: gear(b) < WORD32
    requires Splittable(data, minSize, maxSize)
    ensures c.Valid() && c.gear == gear && c.sha == sha && (c.min, c.max) == EffectiveSizes(minSize, maxSize)
    ensures c.min == if minSize > 0 then minSize else 0x4000
    ensures c.max == if maxSize > c.min then maxSize else 0x4_0000
    ensures |data| > c.min ==> IsWidth((c.min + c.max) / 4, c.width)
    ensures res.Err? <==> data == []
    ensures res.Ok? ==> AreChunks(c, res.value, c.Pieces(data))
    ensures res.Ok? ==> CutByContent(c, data, Datas(res.value)) && AreChunks(c, res.value, Datas(res.value))
  {
    hide Chunker.FirstCut; hide Chunker.Scan; hide And; hide IsWidth; hide CutByContent;
    var (lo, hi) := EffectiveSizes(minSize, maxSize);
    ghost var w := 0;
    if (lo + hi) / 4 <= WORD32 - 1 { w := WidthExists((lo + hi) / 4); }
    c := Chunker(gear, sha, lo, hi, w);
    if |data| == 0 { return Err(Empty), c; }
    var chunks: seq<Chunk> := [];
    var offset := 0;
    assert data[0..] == data;
    while offset < |data|
      invariant offset <= |data|
      invariant |chunks| <= |c.Pieces(data)| && c.Pieces(data)[|chunks|..] == c.Pieces(data[offset..])
      invariant forall i | 0 <= i < |chunks| :: chunks[i] == Chunk(sha(c.Pieces(data)[i]), c.Pieces(data)[i], i)
      decreases |data| - offset
    {
      var end := FindEnd(c, gear, lo, hi, data, offset);
      ghost var pieces := c.Pieces(data);
      c.CutRange(data[offset..]);
      assert data[offset..][..end - offset] == data[offset..end] && data[offset..][end - offset..] == data[end..];
      assert pieces[|chunks|..][0] == data[offset..end];
      assert pieces[|chunks|..][1..] == pieces[|chunks| + 1..];
      var piece := data[offset..end];
      chunks := chunks + [Chunk(sha(piece), piece, |chunks|)];
      offset := end;
    }
    assert c.Pieces(data[offset..]) == [];
    assert Datas(chunks) == c.Pieces(data);
    PiecesAreCut(c, data);
    return Ok(chunks), c;
  }

  /** With the default sizes the mask has 16 ones. */
  lemma DefaultWidth(w: nat)
    requires IsWidth((DEFAULT_MIN + DEFAULT_MAX) / 4, w)
    ensures w == 16
  {
    hide Pow2;
    Pow2At32();
    Pow2Step(17);
    if w > 17 { Pow2Grows(17, w); }
    if w < 15 { Pow2Grows(w + 1, 16); }
  }

  /** The end of the chunk that starts at offset; the mask is computed only when the rest exceeds the minimum. */
  method FindEnd(ghost c: Chunker, gear: Byte -> nat, lo: nat, hi: nat, data: seq<Byte>, offset: nat) returns (end: nat)
    requires c.Valid() && c.gear == gear && c.min == lo && c.max == hi && offset < |data|
    requires |data| > lo ==> (lo + hi) / 4 <= WORD32 - 1 && IsWidth((lo + hi) / 4, c.width)
    ensures end == offset + c.FirstCut(data[offset..])
  {
    hide And; hide IsWidth; hide Pow2;
    end := offset + lo;
    if end >= |data| { return |data|; }
    var fp: nat := 0;
    var maxLimit := offset + hi;
    if maxLimit > |data| { maxLimit := |data|; }
    var mask := FindMask((lo + hi) / 4);
    ghost var w :| w <= 31 && mask == Pow2(w) - 1 && IsWidth((lo + hi) / 4, w);
    WidthUnique((lo + hi) / 4, w, c.width);
    ghost var s := data[offset..];
    ghost var limit := maxLimit - offset;
    var i := end;
    while i < maxLimit
      invariant offset + lo <= i && end == offset + lo
      invariant c.Scan(s, lo, limit, 0) == c.Scan(s, i - offset, limit, fp)
      decreases maxLimit - i
    {
      fp := (2 * fp + gear(data[i])) % WORD32;
      assert s[i - offset] == data[i];
      if And(fp, mask) == 0 {
        end := i + 1;
        break;
      }
      i := i + 1;
    }
    if end == offset + lo && maxLimit < |data| { end := maxLimit; }
  }

  // Reassembly.

  ghost predicate ByIndex(chunks: seq<Chunk>) {
    forall i, j | 0 <= i < j < |chunks| :: chunks[i].index <= chunks[j].index
  }

  method InsertByIndex(ordered: seq<Chunk>, x: Chunk) returns (r: seq<Chunk>)
    requires ByIndex(ordered)
    ensures ByIndex(r) && multiset(r) == multiset(ordered) + multiset{x}
  {
    var j := 0;
    while j < |ordered| && ordered[j].index <= x.index
      invariant 0 <= j <= |ordered| && forall k | 0 <= k < j :: ordered[k].index <= x.index
    {
      j := j + 1;
    }
    assert ordered == ordered[..j] + ordered[j..];
    r := ordered[..j] + [x] + ordered[j..];
  }

  /** Sorting, with equal indices in any order. */
  method SortByIndex(chunks: seq<Chunk>) returns (ordered: seq<Chunk>)
    ensures ByIndex(ordered) && multiset(ordered) == multiset(chunks)
  {
    hide ByIndex;
    ordered := [];
    assert ByIndex(ordered) by { NothingSorted(); }
    for i := 0 to |chunks|
      invariant ByIndex(ordered) && multiset(ordered) == multiset(chunks[..i])
    {
      assert chunks[..i + 1] == chunks[..i] + [chunks[i]];
      ordered := InsertByIndex(ordered, chunks[i]);
    }
    assert chunks[..|chunks|] == chunks;
  }

  lemma NothingSorted()
    ensures ByIndex([])
  {}

  ghost function Data(chunks: seq<Chunk>): seq<Byte> {
    if chunks == [] then [] else Data(chunks[..|chunks| - 1]) + chunks[|chunks| - 1].data
  }

  ghost predicate Intact(sha: seq<Byte> -> string, chunks: seq<Chunk>) {
    forall i | 0 <= i < |chunks| :: sha(chunks[i].data) == chunks[i].id
  }

  /** A chunk with this number has another hash, and none with a lower number has. */
  ghost predicate FirstCorrupted(sha: seq<Byte> -> string, chunks: seq<Chunk>, i: nat) {
    && (exists x | x in chunks :: x.index == i && sha(x.data) != x.id)
    && forall x | x in chunks && x.index < i :: sha(x.data) == x.id
  }

  ghost predicate DistinctIndices(chunks: seq<Chunk>) {
    forall i, j | 0 <= i < j < |chunks| :: chunks[i].index != chunks[j].index
  }

  /** Sorts by index, checks every hash, and concatenates. */
  method Reassemble(sha: seq<Byte> -> string, chunks: seq<Chunk>) returns (res: Result<seq<Byte>, ChunkError>)
    ensures res == Err(Empty) <==> chunks == []
    ensures res.Ok? <==> chunks != [] && Intact(sha, chunks)
    ensures forall i | res == Err(Corrupted(i)) :: FirstCorrupted(sha, chunks, i)
    ensures forall ordered |
              res.Ok? && DistinctIndices(ordered) && ByIndex(ordered) && multiset(ordered) == multiset(chunks) ::
              res.value == Data(ordered)
  {
    if |chunks| == 0 { return Err(Empty); }
    var sorted := SortByIndex(chunks);
    SameMembers(sorted, chunks);
    var buf: seq<Byte> := [];
    for i := 0 to |sorted|
      invariant buf == Data(sorted[..i])
      invariant forall j | 0 <= j < i :: sha(sorted[j].data) == sorted[j].id
    {
      if sha(sorted[i].data) != sorted[i].id {
        assert sorted[i] in chunks;
        forall x | x in chunks && x.index < sorted[i].index ensures sha(x.data) == x.id {
          assert x in sorted;
          var j :| 0 <= j < |sorted| && sorted[j] == x;
          assert j < i;
        }
        return Err(Corrupted(sorted[i].index));
      }
      assert sorted[..i + 1][..i] == sorted[..i];
      buf := buf + sorted[i].data;
    }
    assert sorted[..|sorted|] == sorted;
    forall i | 0 <= i < |chunks| ensures sha(chunks[i].data) == chunks[i].id { assert chunks[i] in sorted; }
    forall ordered | DistinctIndices(ordered) && ByIndex(ordered) && multiset(ordered) == multiset(chunks)
      ensures ordered == sorted
    {
      SortedUnique(ordered, sorted);
    }
    return Ok(buf);
  }

  lemma SameMembers(a: seq<Chunk>, b: seq<Chunk>)
    requires multiset(a) == multiset(b)
    ensures |a| == |b| && forall x :: x in a <==> x in b
  {
    assert |multiset(a)| == |a| && |multiset(b)| == |b|;
    forall x ensures x in a <==> x in b { assert x in multiset(a) <==> x in multiset(b); }
  }

  /** Distinct indices have one sorted order. */
  lemma {:induction false} SortedUnique(a: seq<Chunk>, b: seq<Chunk>)
    requires DistinctIndices(a) && ByIndex(a) && ByIndex(b) && multiset(a) == multiset(b)
    ensures a == b
  {
    hide ByIndex; hide DistinctIndices;
    SameMembers(a, b);
    if a != [] {
      SameFirst(a, b);
      TailOrdered(a);
      TailOrdered(b);
      Tails(a);
      Tails(b);
      SortedUnique(a[1..], b[1..]);
      SameHeadAndTail(a, b);
    }
  }

  lemma SameHeadAndTail(a: seq<Chunk>, b: seq<Chunk>)
    requires a != [] && b != [] && a[0] == b[0] && a[1..] == b[1..]
    ensures a == b
  {
    assert a == [a[0]] + a[1..] && b == [b[0]] + b[1..];
  }

  lemma SameFirst(a: seq<Chunk>, b: seq<Chunk>)
    requires DistinctIndices(a) && ByIndex(a) && ByIndex(b) && |a| == |b| > 0 && forall x :: x in a <==> x in b
    ensures a[0] == b[0]
  {
    assert a[0] in b && b[0] in a;
    var i :| 0 <= i < |a| && a[i] == b[0];
    var j :| 0 <= j < |b| && b[j] == a[0];
  }

  lemma TailOrdered(s: seq<Chunk>)
    requires s != [] && ByIndex(s)
    ensures ByIndex(s[1..]) && (DistinctIndices(s) ==> DistinctIndices(s[1..]))
  {}

  lemma Tails(s: seq<Chunk>)
    requires s != []
    ensures multiset(s[1..]) == multiset(s) - multiset{s[0]}
  {
    assert s == [s[0]] + s[1..];
  }

  lemma {:induction false} DataIsConcat(c: Chunker, chunks: seq<Chunk>, pieces: seq<seq<Byte>>)
    requires AreChunks(c, chunks, pieces)
    ensures Data(chunks) == Concat(pieces)
  {
    if chunks != [] {
      var n := |chunks| - 1;
      DataIsConcat(c, chunks[..n], pieces[..n]);
      ConcatLast(pieces);
    } else {
      assert pieces == [];
    }
  }

  lemma {:induction false} ConcatLast(pieces: seq<seq<Byte>>)
    requires pieces != []
    ensures Concat(pieces) == Concat(pieces[..|pieces| - 1]) + pieces[|pieces| - 1]
  {
    if |pieces| > 1 {
      ConcatLast(pieces[1..]);
      assert pieces[1..][..|pieces| - 2] == pieces[..|pieces| - 1][1..];
    }
  }

  /** Reassembling any permutation of the chunks of an input gives the input. */
  method SplitShuffleReassemble(gear: Byte -> nat, sha: seq<Byte> -> string, data: seq<Byte>, minSize: int,
                                maxSize: int, shuffle: seq<Chunk> -> seq<Chunk>)
    returns (res: Result<seq<Byte>, ChunkError>)
    requires forall b :: gear(b) < WORD32
    requires Splittable(data, minSize, maxSize)
    requires forall chunks :: multiset(shuffle(chunks)) == multiset(chunks)
    ensures res == if data == [] then Err(Empty) else Ok(data)
  {
    var split, c := SplitCDC(gear, sha, data, minSize, maxSize);
    if split.Err? { return Err(Empty); }
    var chunks := split.value;
    var arrived := shuffle(chunks);
    res := Reassemble(sha, arrived);
    SameMembers(arrived, chunks);
    PiecesConcat(c, data);
    DataIsConcat(c, chunks, c.Pieces(data));
    assert chunks != [];
    forall i | 0 <= i < |arrived| ensures sha(arrived[i].data) == arrived[i].id {
      assert arrived[i] in arrived && arrived[i] in chunks;
    }
    assert DistinctIndices(chunks) && ByIndex(chunks);
  }
}
