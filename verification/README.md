# CloudWeave: verified model of the data and metadata paths

CloudWeave is an object store written in Go.  This project models what lies below its HTTP layer and proves what that
layer relies on:

* **Erasure coding.**  The log and exponent tables of GF(2^8) against an independent shift-and-add product, in-place
  Gauss-Jordan inversion, the encoder, reconstruction with and without checksums, and the coordinator that adds a
  length header, places shards and reads until it has K of them.
* **Chunking.**  The rolling 32-bit gear hash and the cut rules, splitting at one size from a buffer or a stream, and
  reassembly of chunks that arrive in any order.
* **Placement.**  The consistent-hash ring: a mutable index with binary search and wrap-around, against the clockwise
  preference list of a node set.
* **Metadata.**  The store of manifests, version histories, locations and buckets; its write-ahead log as a text file
  with torn tails; replay and compaction.
* **Replication.**  Vector clocks, anti-entropy, runs of a whole cluster, quorum reads and writes, and repair after a
  node died.
* **Serving.**  The byte-bounded LRU cache with the write-once disk store behind it, and the aws-chunked body decoder.

Objects that the program updates in place are classes whose methods are proved against functions on values; the
lemmas about those functions are the results.  The program's answers to the outside world (which node answers, what a
crash leaves, in which order a map is visited or results arrive, how a stream is fragmented) are parameters or
nondeterministic choices, so that each result holds for all of them.

## Modules

| files | content |
|---|---|
| Bytes, LinearAlgebra, Logarithms, GF256, GaloisTables, GaussJordan | bytes, linear algebra over a field of characteristic two, products by logarithms, the field of bytes, its tables, in-place inversion |
| Recoverability, EncoderCode, ReedSolomon, VerifiedReconstruction, ErasureStore | which shards determine the data, the encoder, the coordinator |
| Words, Chunking, FixedChunks | 32-bit words and masks, content-defined and fixed-size chunks |
| Sets, Selections, Decimal, Ring | sizes of sets, what is picked out of a sequence in order, decimal numerals in names, the hash ring |
| VectorClocks, Manifests, MetadataStore, WalRecords, Compaction, Text, WalFile | the metadata store and its log |
| Lexicographic, AntiEntropy, Cluster | string order, reconciliation, runs of the cluster |
| Disks, Quorum, Repair, RepairPass | replicas |
| Lru, DiskStore, AwsChunked, Wrappers | cache, disk store, body decoder, Option and Result |

## What the proofs found

Each of these is a lemma or a clause in the table below.

* `Reconstruct` is documented to work from any K surviving shards (`internal/erasure/erasure.go:85`).  That holds
  exactly when K = 1, or M = 1, or M = 2 and K <= 255, or K <= 3 and M <= 255 (`EncoderCode.EncoderAnyKSufficeIff`);
  the coordinator's defaults, K = 4 and M = 2, are among these.  The smallest failure is K = 4, M = 3: with data shards
  0, 1 and 3 lost and the first three parity shards in their place the rows are singular.  Failing selections report an
  error; no selection of intact shards ever returns wrong bytes.
* The length header of an erasure-coded chunk holds the length modulo 2^32, so a chunk comes back whole exactly when
  it is shorter than that (`ErasureStore.PutThenRead`).
* An erasure write that reports no error although some shard was not written shifts its location list: the reader then
  finds a shard exactly when it was written and the write that became the location it asks for went to the same node
  (`ErasureStore.FoundIff`).  When just the first of n writes failed it finds none at all, unless the number of
  different target nodes divides n - 2 (`ErasureStore.FirstWriteFailsIff`).
* What an erasure read reconstructs is not checked, neither data nor parity shards: from K shards of the stored size the
  stored buffer comes back exactly when every one of them is as it was stored
  (`ReedSolomon.Encoder.ResultIsDataIff`, `ErasureStore.ErasureCoordinator.ShardsAreUnchecked`), and one changed byte
  of a data shard, or of the parity shard read instead of it, gives a chunk with one wrong byte and no error, unless it
  falls in the padding or the header (`ErasureStore.ErasureCoordinator.OneByteChanged`).
* A node acknowledges a write of a name it already has and keeps its bytes.  So the returned locations hold a chunk
  exactly when none of them had other bytes under that name (`Quorum.Replicas.WriteChunk`,
  `ErasureStore.ErasureCoordinator.PutErasureChunk`), while the cache in front of the file takes the new bytes
  (`DiskStore.DiskStore.Put`).
* A read with a chunk name that does not have 64 characters checks nothing: R answers with any bytes make it succeed,
  and it returns those that came first (`Quorum.UncheckedNames`).
* `SplitCDC` keeps its size bounds exactly when the minimum in effect is at most the maximum in effect; it exceeds it
  when a minimum above 256 KiB comes with a maximum that is not larger (`Chunking.BoundsHoldForSizes`).  Its mask loop
  ends exactly for average sizes up to 2^32 - 1 (`Chunking.MaskLoopEndsIff`); data no longer than the minimum do not
  reach the loop.
* Overwriting a key with a manifest that carries no clock leaves the stored clock equal once the node has counted for
  that key, and peers that hold the old version then do not adopt the new one (`AntiEntropy.OverwriteClock`,
  `AntiEntropy.OverwriteNotAdopted`).
* Adopting a manifest advances its clock, so the node it came from adopts it back (`AntiEntropy.AdoptedBack`): two nodes
  that synchronise in turn never come to rest, although nothing is written any more (`AntiEntropy.NeverAtRest`).
* A deleted key is back after a synchronisation exactly when some peer still has it
  (`AntiEntropy.DeletedComesBackIff`).
* Looking up a version of a file that its namespace does not have, under a name that is the key of a file of another
  namespace, gives that other file's version (`Manifests.OtherNamespaceAnswers`); answers are those under the scoped key
  exactly when something lies there or the plain name is no key (`Manifests.FoundUnderKeyIff`).
* When manifests list different locations for one chunk, a repair pass overwrites all of them with what it made of one
  list; a survivor listed elsewhere is kept in every order of the maps only under the condition of
  `RepairPass.SurvivorsKeptIff`.
* Compacting the log loses buckets that were created explicitly and hold nothing, and brings a deleted default bucket
  back (`Compaction.BucketsSurviveIff`).
* A crash that loses only the line feed of the last record, and no other torn end, costs that record and the next one
  at the second replay (`WalFile.AppendAfterCrash`).  The records behind a line in the middle of the log are applied
  exactly when that line is blank or a record itself: a line that is no JSON truncates them away without an error, and
  a wrong checksum makes replay fail and keeps the file as it is (`WalFile.LineInTheMiddle`).
* An aws-chunked body that is cut off before a chunk, or after the last byte of a chunk's data, reads as if it were
  complete; strictly inside a chunk the cut is noticed (`AwsChunked.CutIsNoticedIff`).  With header lines of other forms
  than plain hexadecimal, also a cut that leaves a blank or zero beginning of the line reads as complete
  (`AwsChunked.CutWithinIff`).

## Model

| member | source | states |
|---|---|---|
| `GF256.OrderOfTwo` | internal/erasure/erasure.go:195-206 | the powers of two repeat with period 255 and no shorter one, so the 255 steps of the table loop give 255 different values |
| `GF256.EveryByteIsAPower` | internal/erasure/erasure.go:195-206 | every nonzero byte is a power of two below 255, so every log entry but that of zero is filled |
| `GF256.ShiftsMakeLogarithms` | internal/erasure/erasure.go:189-206 | shifting bytes modulo 0x11d is additive and injective and its powers of two run through all bytes but zero: what multiplication by logarithms needs |
| `Logarithms.Doubling.MulAssociates` | internal/erasure/erasure.go:208-213 | over every doubling with these laws, the product by logarithms is associative |
| `Logarithms.Doubling.MulDistributes` | internal/erasure/erasure.go:208-213 | the product by logarithms distributes over addition, which is XOR on bytes |
| `Logarithms.Doubling.MulInverse` | internal/erasure/erasure.go:215-223 | everything but zero has a multiplicative inverse |
| `GF256.MulIsPolynomialProduct` | internal/erasure/erasure.go:189-213 | the product by logarithms is the shift-and-add product of polynomials modulo 0x11d |
| `GaloisTables.Tables.constructor` | internal/erasure/erasure.go:195-206 | both tables hold the powers of two and their exponents |
| `GaloisTables.Tables.GfMul` | internal/erasure/erasure.go:208-213 | the table lookup is the field product |
| `GaloisTables.Tables.GfDiv` | internal/erasure/erasure.go:215-223 | the quotient times the divisor is the dividend, for every divisor but zero |
| `GaloisTables.Tables.GfPow` | internal/erasure/erasure.go:225-237 | the loop computes the power, with the zeroth power of anything one |
| `GF256.BytesAreAField` | internal/erasure/erasure.go:189-237 | bytes with exclusive-or and the product by logarithms satisfy the laws of a field of characteristic two, for which the linear algebra is proved |
| `GaussJordan.SwapRows` | internal/erasure/erasure.go:250-261 | exchanges two rows and touches no other |
| `GaussJordan.ScaleRow` | internal/erasure/erasure.go:263-267 | multiplies one row by a factor |
| `GaussJordan.Eliminate` | internal/erasure/erasure.go:271-275 | adds a multiple of one row to another |
| `GaussJordan.EliminateColumn` | internal/erasure/erasure.go:269-277 | keeps the solutions of the augmented matrix and the unit columns done so far, and makes one more column a unit column |
| `LinearAlgebra.Field.CombineKeepsSolutions` | internal/erasure/erasure.go:271-275 | in any field of characteristic two, adding a multiple of another row changes no solution |
| `LinearAlgebra.Field.NoPivotGivesKernel` | internal/erasure/erasure.go:250-260 | a column without pivot yields a nonzero kernel vector of the input matrix |
| `GaussJordan.InvertMatrix` | internal/erasure/erasure.go:239-287 | for every matrix: the result is a two-sided inverse, or the input has a nonzero kernel vector |
| `LinearAlgebra.Field.InverseProducts` | internal/erasure/erasure.go:239-287 | the products of matrix and inverse in both orders are the identity, entry by entry |
| `LinearAlgebra.Field.KernelExcludesInverse` | internal/erasure/erasure.go:258-260 | the two outcomes exclude each other, so the singular error is returned only for singular matrices |
| `EncoderCode.EncoderCodeIsValid` | internal/erasure/erasure.go:64-72 | the byte casts of p + 1 are different nonzero points up to 255 and zero at 256, and two generates: what the results about the code ask for |
| `LinearAlgebra.Field.CubicRoots` | internal/erasure/erasure.go:64-72 | a cubic without square has the roots a, b and a + b, which makes the first three parity rows dependent |
| `Recoverability.Code.AnyKSufficeIff` | internal/erasure/erasure.go:85-138 | over every field with such points: any K of K + M shards determine the data if and only if K = 1, M = 1, M = 2 and K <= 255, or K <= 3 and M <= 255 |
| `EncoderCode.EncoderAnyKSufficeIff` | internal/erasure/erasure.go:85-138 | the same for the rows of the encoder |
| `Recoverability.Code.ThreeRowsFail` | internal/erasure/erasure.go:85-138 | for K >= 4 and M >= 3 a set of K shards whose rows are singular |
| `Recoverability.Code.LongRowsRepeat` | internal/erasure/erasure.go:64-72 | for K >= 256 the first two parity rows do not tell data shards 0 and 255 apart |
| `Recoverability.Code.WrappedFactorFails` | internal/erasure/erasure.go:64-72 | the 256th parity shard has a wrapped factor zero and repeats data shard 0 |
| `ReedSolomon.NewEncoder` | internal/erasure/erasure.go:29-34 | fails exactly for counts that are not positive |
| `ReedSolomon.Encoder.EncodingCoefficients` | internal/erasure/erasure.go:120-132 | the rows that reconstruction builds are the rows that encoding used |
| `ReedSolomon.Encoder.EncodeParity` | internal/erasure/erasure.go:64-79 | a parity shard is, byte by byte, its encoding row times the data shards |
| `ReedSolomon.Encoder.Encode` | internal/erasure/erasure.go:37-82 | K + M numbered shards of the zero-padded data with their checksums; fails exactly on empty data |
| `ReedSolomon.FlattenBlocks` | internal/erasure/erasure.go:178-187 | joining the data shards gives the padded data back |
| `ReedSolomon.Encoder.SelectShards` | internal/erasure/erasure.go:111-118 | K different available shards, whatever order the map yields |
| `ReedSolomon.Encoder.RecoverBlock` | internal/erasure/erasure.go:140-153 | a missing shard is the inverse's row times the selected shards, byte by byte |
| `ReedSolomon.RecoveredIsBlock` | internal/erasure/erasure.go:140-153 | with an inverse of the selected rows that product is the lost data shard |
| `ReedSolomon.Encoder.Reconstruct` | internal/erasure/erasure.go:86-156 | for shards of any lengths: too few fail; data shards that are all there are joined; else, for some choice of shards, singular rows fail, then a shorter shard is out of range, else the bytes are those of an inverse |
| `ReedSolomon.Encoder.CodedIsRecovered` | internal/erasure/erasure.go:86-156 | whatever was chosen, a result is the coded data every time, a singular failure exhibits a singular selection, and shards of one length are never out of range |
| `ReedSolomon.Encoder.ResultIsDataIff` | internal/erasure/erasure.go:86-156 | from K shards of one length, joined or decoded, the result is the data if and only if every one of them is a shard of that data |
| `ReedSolomon.ByteIsRightIff` | internal/erasure/erasure.go:140-152 | byte b of all the data is right if and only if byte b of every shard used is |
| `Recoverability.Code.Determined` | internal/erasure/erasure.go:119-140 | rows without a kernel determine the data: two vectors with the same products are the same |
| `ReedSolomon.EncodeLoseReconstruct` | internal/erasure/erasure.go:37-156 | after any loss the data comes back whenever K shards are left and the parameters are recoverable; with exactly K left, if and only if their rows are regular |
| `VerifiedReconstruction.ReconstructVerified` | internal/erasure/erasure.go:159-175 | has the outcomes of reconstruction from the shards whose checksum is as expected or not expected at all, of any lengths |
| `VerifiedReconstruction.AcceptedIsIntact` | internal/erasure/erasure.go:159-169 | with all checksums expected, exactly the uncorrupted shards are accepted |
| `VerifiedReconstruction.AllAcceptedIff` | internal/erasure/erasure.go:160-168 | a shard is left out if and only if a nonempty checksum is expected for it and it has another; all are used if and only if there is none such |
| `VerifiedReconstruction.EncodeCorruptReconstruct` | internal/erasure/erasure.go:37-175 | after any corruption and loss the outcome depends on the intact shards alone: the data, or an error |
| `ErasureStore.HeaderRoundTrip` | internal/coordinator/erasure.go:29-33 | the four big-endian bytes read back as the length modulo 2^32 |
| `ErasureStore.HeaderOrder` | internal/coordinator/erasure.go:30-31 | the header of the longer data is greater at the first byte that differs: the most significant byte comes first |
| `ErasureStore.ShardIdInjective` | internal/coordinator/erasure.go:50-51 | shards of one chunk have different names |
| `ErasureStore.ErasureCoordinator.PutErasureChunk` | internal/coordinator/erasure.go:14-75 | each shard goes to its target, nothing is overwritten, locations and error follow the acknowledgements; with all of them the chunk is stored if and only if no other bytes lay in its places |
| `ErasureStore.ErasureCoordinator.GatherShards` | internal/coordinator/erasure.go:98-121 | reads shards in order and stops with the first K that can be read, or has all readable ones |
| `ErasureStore.ErasureCoordinator.GatheredFirst` | internal/coordinator/erasure.go:98-121 | a shard that can be read is used if and only if fewer than K before it can be read |
| `ErasureStore.ErasureCoordinator.ReadErasureChunk` | internal/coordinator/erasure.go:78-142 | for any nodes and any shards: without nodes a division by zero, with fewer than K readable shards an error, else what reconstruction of the first K gives, stripped of header and padding |
| `ErasureStore.ErasureCoordinator.StoredIsRead` | internal/coordinator/erasure.go:78-142 | a stored chunk comes back if and only if K shards answer and the rows of the first K that answer are regular; else an error |
| `ErasureStore.ErasureCoordinator.ShardsAreUnchecked` | internal/coordinator/erasure.go:123-141 | whatever K shards of the stored size are read: singular rows are an error, else the stored buffer comes back if and only if every shard read is as stored, and the chunk if and only if it is shorter than 2^32 bytes and header and data are in the buffer unchanged |
| `ErasureStore.ErasureCoordinator.OneByteChanged` | internal/coordinator/erasure.go:123-141 | with one byte changed in a data shard, or in the parity shard read instead of a missing one, the chunk comes back if and only if the byte of that data shard is padding; in the data it comes back wrong at that byte alone, without an error |
| `ErasureStore.UnwrapIff` | internal/coordinator/erasure.go:132-141 | exactly the buffers that start with header and data give the data back |
| `ErasureStore.FoundIff` | internal/coordinator/erasure.go:50-121 | for different targets, fewer than shards or not, and any pattern of failed writes: a shard is found if and only if it was written and the write that became the location asked for went to the same node |
| `ErasureStore.FirstWriteFailsIff` | internal/coordinator/erasure.go:50-121 | when only the first of n writes fails, no shard is found if and only if the number of different targets does not divide n - 2 |
| `ErasureStore.PutThenRead` | internal/coordinator/erasure.go:14-142 | with recoverable parameters the chunk comes back after any loss if and only if K shards still answer, and whole if and only if it is shorter than 2^32 bytes |
| `ErasureStore.UnwrapPayload` | internal/coordinator/erasure.go:132-141 | header and padding are stripped from any buffer that starts with the payload |
| `Chunking.FindMask` | internal/chunk/cdc.go:81-90 | the mask is all ones, and the shortest such that one bit more reaches the average |
| `Chunking.MaskLoopEndsIff` | internal/chunk/cdc.go:85-88 | some number of steps reaches the average if and only if the average is at most 2^32 - 1 |
| `Chunking.DefaultWidth` | internal/chunk/cdc.go:81-90 | the default sizes of 16 and 256 KiB give a mask of 16 ones |
| `Chunking.Chunker.FingerprintIsSum` | internal/chunk/cdc.go:92-93 | the wrapping recurrence is the weighted sum of table entries modulo 2^32 |
| `Chunking.Chunker.CutTestIsLocal` | internal/chunk/cdc.go:92-97 | the cut test sees only the last w scanned bytes, for a mask of w ones |
| `Chunking.Chunker.ScanFindsFirst` | internal/chunk/cdc.go:92-98 | the scan stops at the first position that passes the test, if there is one |
| `Chunking.Chunker.CutRange` | internal/chunk/cdc.go:69-105 | every chunk is nonempty and, with ordered bounds, within them |
| `Chunking.FindEnd` | internal/chunk/cdc.go:69-105 | the loop finds the cut that the rule on the remaining input gives, which `Chunking.FirstCutIff` says in terms of the bytes |
| `Chunking.FirstCutIff` | internal/chunk/cdc.go:69-105 | the bytes decide where a chunk ends: at the end of data no longer than the minimum; else at the first position up to the maximum whose fingerprint passes the test; else at the maximum, or at the minimum when the data end before it |
| `Chunking.PiecesIff` | internal/chunk/cdc.go:65-122 | a list of pieces is what splitting gives if and only if the pieces are the input, none is empty, and each ends where the bytes from its start decide |
| `Chunking.SplitCDC` | internal/chunk/cdc.go:54-122 | whenever the mask loop is not reached or ends: the chunks are the input cut by content, with their hashes and numbers, for the sizes in effect; only empty input fails |
| `Chunking.PiecesConcat` | internal/chunk/cdc.go:107-118 | the pieces are the input, cut up |
| `Chunking.PiecesWithinBounds` | internal/chunk/cdc.go:69-119 | no piece exceeds the maximum and none but the last is below the minimum |
| `Chunking.BoundsHoldIff` | internal/chunk/cdc.go:55-60 | all inputs are cut within the bounds if and only if the minimum in effect is at most the maximum in effect |
| `Chunking.BoundsHoldForSizes` | internal/chunk/cdc.go:55-60 | for the sizes asked for, all inputs are cut within bounds unless a minimum above 256 KiB comes with a maximum that is not larger |
| `Chunking.Resynchronises` | internal/chunk/cdc.go:69-119 | after a cut at the end of p, the chunks of p + s are those of s alone |
| `Chunking.SharedSuffix` | internal/chunk/cdc.go:69-119 | two inputs that both cut at the start of a common suffix share every later chunk |
| `Chunking.SortByIndex` | internal/chunk/chunker.go:108-112 | a permutation in the order of the numbers |
| `Chunking.Reassemble` | internal/chunk/chunker.go:104-121 | succeeds exactly on a nonempty list in which every hash is right, and then gives the data in the order of the numbers; else it names the corrupted chunk with the lowest number |
| `Chunking.SplitShuffleReassemble` | internal/chunk/cdc.go:54-122 | splitting, any permutation of the chunks, and reassembling give the input back |
| `FixedChunks.Split` | internal/chunk/chunker.go:21-45 | the consecutive pieces of one size with their hashes and numbers, and both error cases |
| `FixedChunks.PiecesPartition` | internal/chunk/chunker.go:28-43 | the pieces concatenate to the input, all have the size but the last, and none is empty |
| `FixedChunks.ReadFull` | internal/chunk/chunker.go:65-66 | fills the buffer or takes all that is left, however the stream is fragmented |
| `FixedChunks.SplitStream` | internal/chunk/chunker.go:47-101 | the callback gets exactly the chunks that splitting all bytes at once gives, up to the first it rejects; IDs, errors and the number of bytes handed out agree |
| `Ring.VirtualNamesDistinct` | internal/ring/ring.go:36-39 | virtual nodes have different names |
| `Decimal.ItoaRoundTrip` | internal/ring/ring.go:39 | numbers in names are decimal numerals without leading zeros and read back |
| `Ring.AddingKeepsCanonical` | internal/ring/ring.go:29-43 | without collisions, adding a node takes the index of a node set to the index of the larger set |
| `Ring.RemovingKeepsCanonical` | internal/ring/ring.go:45-59 | removing a node takes it to the index of the smaller set |
| `Ring.IndexDependsOnNodes` | internal/ring/ring.go:29-59 | without collisions the index is a function of the node set, so the order of additions and removals is immaterial |
| `Ring.AddRemoveRestores` | internal/ring/ring.go:29-59 | adding and removing a node restores the index if and only if none of its positions was taken |
| `Ring.SortedUnique` | internal/ring/ring.go:90-97 | the sorted array is determined by the map |
| `Ring.Search` | internal/ring/ring.go:71-74 | binary search finds the first position at or after the key |
| `Ring.PreferenceSorted` | internal/ring/ring.go:63-88 | the preference list has every node once, by clockwise distance from the key |
| `Ring.RemovalDeletes` | internal/ring/ring.go:45-88 | removing a node deletes it from every key's preference list and moves nothing else |
| `Ring.UnaffectedKeys` | internal/ring/ring.go:45-88 | a key whose first n nodes did not include the node keeps exactly these n nodes |
| `Ring.OwnersArePreference` | internal/ring/ring.go:76-87 | the distinct owners met walking clockwise are the preference list |
| `Ring.HashRing.RebuildSortedHashes` | internal/ring/ring.go:90-97 | a strictly sorted array of exactly the positions in the map |
| `Ring.HashRing.AddNode` | internal/ring/ring.go:29-43 | the new index and node set; a node already there changes nothing; without collisions the ring stays consistent |
| `Ring.HashRing.RemoveNode` | internal/ring/ring.go:45-59 | the same for removal |
| `Ring.HashRing.Walk` | internal/ring/ring.go:76-87 | the wrap-around loop collects the first n distinct owners from a start |
| `Ring.HashRing.NodesForIsPreference` | internal/ring/ring.go:63-88 | on a consistent ring the nodes for a key are its preference list cut to n |
| `Ring.HashRing.GetNodesForKey` | internal/ring/ring.go:63-88 | binary search, wrap-around and early stop give the preference list cut to n |
| `VectorClocks.MergedIsLeastUpperBound` | internal/vectorclock/clock.go:105-121 | the merge is the least upper bound in the pointwise order |
| `VectorClocks.IncrementAdvances` | internal/vectorclock/clock.go:42-50 | an increment adds one to one counter and changes no other; it is strictly after its argument, and before it at the wrap of 64 bits |
| `VectorClocks.VectorClock.Increment` | internal/vectorclock/clock.go:42-50 | advances one counter, with wrap-around, and no other |
| `VectorClocks.VectorClock.Compare` | internal/vectorclock/clock.go:59-102 | the two loops decide the pointwise order, absent counters being zero |
| `VectorClocks.VectorClock.Merge` | internal/vectorclock/clock.go:105-121 | the pointwise maximum, leaving the other clock alone |
| `Manifests.MergeIdempotent` | internal/metadata/store.go:95-119 | merging a merged history again changes nothing |
| `Manifests.AppendUnseenIDs` | internal/metadata/store.go:95-119 | which version IDs the merged history has |
| `Manifests.ArchiveIs` | internal/metadata/store.go:95-119 | recording over a manifest keeps its archive and appends, in order, the manifest replaced and the versions that came with the new one, each ID once and never the current one |
| `Manifests.SameKeyIff` | internal/metadata/store.go:14-22 | two files share a key if and only if namespace and bare name agree, or one namespace is a path below the other; never for two namespaces without slashes |
| `Manifests.FoundUnderKeyIff` | internal/metadata/store.go:170-204 | for all IDs a version is found if and only if it lies under the scoped key, exactly when something lies there or the plain name is no key |
| `Manifests.OtherNamespaceAnswers` | internal/metadata/store.go:174-179 | asking a namespace for a name that is a key of another one gives the other one's versions |
| `WalRecords.RecordedIsFound` | internal/metadata/store.go:68-204 | right after recording, the version ID of the manifest finds it with all its fields, exactly when that ID was not archived before |
| `MetadataStore.RecordThenLookup` | internal/metadata/store.go:68-204 | recording a manifest and then looking its version up, by namespace, name and ID, gives what was recorded |
| `MetadataStore.Store.Prepare` | internal/metadata/store.go:72-119 | defaults, clock and merged history of the manifest to be stored |
| `MetadataStore.Store.RecordPlacement` | internal/metadata/store.go:68-140 | one step of the store, with its log record; fails exactly without a file ID |
| `MetadataStore.Store.Lookup` | internal/metadata/store.go:143-154 | the manifest under the plain or else the default key |
| `MetadataStore.Store.ListVersions` | internal/metadata/store.go:170-190 | the archived versions and then the current one, under the scoped or else the plain key |
| `MetadataStore.Store.LookupVersion` | internal/metadata/store.go:193-204 | the first listed version with that ID |
| `MetadataStore.Store.Delete` | internal/metadata/store.go:207-229 | removes exactly the plain key, or else the default key, keeps every other one, and logs the key removed |
| `MetadataStore.Store.DeleteScoped` | internal/metadata/store.go:232-249 | removes exactly the scoped key, keeps every other one, and logs it |
| `MetadataStore.Store.UpdateChunkLocations` | internal/metadata/store.go:264-296 | new locations in every manifest and every archived version that has the chunk; all other chunks and fields stay |
| `MetadataStore.Store.CreateBucket` | internal/metadata/store.go:299-327 | afterwards the bucket is there; fails on the empty name; an existing bucket is left and not logged |
| `MetadataStore.Store.DeleteBucket` | internal/metadata/store.go:330-354 | afterwards the bucket is gone; fails exactly for a missing bucket or one in which a manifest lies |
| `MetadataStore.Store.ApplyRecord` | internal/metadata/wal.go:169-190 | a replayed record does what the specification of replay says, without being logged again |
| `WalRecords.RecordAgain` | internal/metadata/wal.go:169-174 | recording a logged manifest again gives the same manifest up to clocks |
| `WalRecords.StepReplays` | internal/metadata/wal.go:169-190 | replaying what one operation logged keeps the copy equal to the store up to clocks |
| `WalRecords.ReplayRebuilds` | internal/metadata/wal.go:98-190 | for every run of operations, replaying its log rebuilds manifests, histories, locations and buckets up to clocks |
| `Compaction.RunKeepsInvariant` | internal/metadata/store.go:68-140 | in every reachable state manifests lie under their scoped keys and their namespaces are buckets |
| `Compaction.CompactionRebuilds` | internal/metadata/wal.go:193-235 | replaying the compacted log, in any order of keys, rebuilds every manifest with its history up to clocks |
| `Compaction.BucketsSurviveIff` | internal/metadata/wal.go:193-235 | bucket names survive compaction if and only if the default bucket exists and every other bucket holds something |
| `WalFile.LogFile.WriteRecord` | internal/metadata/wal.go:64-87 | appends one line |
| `WalFile.ReplayWAL` | internal/metadata/wal.go:98-167 | for every file content: the records applied, where the file is truncated, and when replay fails |
| `WalFile.WholeLog` | internal/metadata/wal.go:98-167 | a file of whole records is applied in order and kept |
| `WalFile.TornTail` | internal/metadata/wal.go:117-164 | after whole records and a torn one exactly the whole ones are applied, the file ends after the last of them, and a second replay does the same |
| `WalFile.TruncationStable` | internal/metadata/wal.go:117-164 | for every content, what a successful replay leaves replays to the same records |
| `WalFile.LostLineFeed` | internal/metadata/wal.go:64-87 | losing only the last line feed makes the next append destroy both records |
| `WalFile.AppendAfterCrash` | internal/metadata/wal.go:64-167 | for every length of the torn record: after restart, a record appended next survives if and only if the crash did not leave the whole text without its line feed |
| `WalFile.LineInTheMiddle` | internal/metadata/wal.go:117-159 | for any line between whole records: the records behind it are applied and kept if and only if it is blank or a record; no JSON truncates them away, a wrong checksum fails and truncates nothing |
| `WalFile.LineAtTheEnd` | internal/metadata/wal.go:117-159 | for any unterminated line behind whole records: a record is applied and kept, a blank line is kept, no JSON and a wrong checksum are truncated away without an error |
| `WalFile.CrashRecovery` | internal/metadata/wal.go:64-167 | a crash while one more operation is logged loses that operation and nothing before it |
| `WalFile.CompactWAL` | internal/metadata/wal.go:193-235 | writes one record per manifest in some order of keys, then one per credential |
| `WalFile.CompactedFileReplays` | internal/metadata/wal.go:193-235 | reading the compacted file rebuilds every manifest and gives every credential record, in order, behind them |
| `AntiEntropy.Reconciler.Decide` | internal/cluster/anti_entropy.go:95-115 | adopts what is not before or equal, and of that what is after, what has the longer history and what has the greater version ID; without two clocks, what has the longer history or another version ID |
| `AntiEntropy.Reconciler.SyncOnce` | internal/cluster/anti_entropy.go:75-119 | works through the manifests fetched, in order |
| `AntiEntropy.Reconciler.FetchedIff` | internal/cluster/anti_entropy.go:75-86 | a manifest is fetched if and only if a peer other than this node answers with it |
| `AntiEntropy.Reconciler.FetchedInOrder` | internal/cluster/anti_entropy.go:75-87 | what one peer answers stays together in its order, behind the answers of the peers before it |
| `AntiEntropy.SyncDecides` | internal/cluster/anti_entropy.go:87-115 | what a pass makes of the only manifest fetched for a key: a missing key is taken over; what is before or equal leaves the key as it was; what is after is taken over; what is concurrent is taken over if and only if its history is longer or its version ID greater; without two clocks, what has the longer history or another version ID |
| `AntiEntropy.TakenIsLater` | internal/cluster/anti_entropy.go:95-115 | the clock of what is taken over is later than the one received and the one replaced |
| `AntiEntropy.OneTakesOver` | internal/cluster/anti_entropy.go:104-108 | of two nodes with concurrent manifests of a key, equally long histories and different version IDs, exactly the one with the lesser ID takes over the other's |
| `Lexicographic.LessIff` | internal/cluster/anti_entropy.go:107 | the order of version IDs is that of the first character that differs, a beginning being less |
| `AntiEntropy.RecordedClock` | internal/metadata/store.go:85-98 | an adopted manifest's clock is strictly after the clock received, and no earlier than the clock replaced |
| `AntiEntropy.RecordAdvances` | internal/metadata/store.go:68-140 | recording never moves a clock back or makes it concurrent, and touches no other key's |
| `AntiEntropy.OverwriteClock` | internal/metadata/store.go:85-98 | overwriting without a clock leaves it equal exactly when this node has counted for the key |
| `AntiEntropy.OverwriteNotAdopted` | internal/cluster/anti_entropy.go:95-115 | a peer with the overwritten manifest adopts the new one if and only if this node had not counted for the key |
| `AntiEntropy.SyncConverges` | internal/cluster/anti_entropy.go:75-119 | after a pass no clock went back and no key is behind any manifest fetched |
| `AntiEntropy.AdoptedBack` | internal/cluster/anti_entropy.go:95-115 | an adopted manifest with a clock is adopted back by a node that has it as it was |
| `AntiEntropy.NeverAtRest` | internal/cluster/anti_entropy.go:70-119 | two nodes that synchronise in turn, each fetching all the other has: once one has something to adopt, the node whose turn it is has again at every later turn, until counters wrap |
| `AntiEntropy.SyncedKeys` | internal/cluster/anti_entropy.go:75-119 | a pass adds exactly the keys of the manifests fetched |
| `AntiEntropy.DeletedComesBackIff` | internal/cluster/anti_entropy.go:88-93 | a key deleted before a pass is there after it if and only if some manifest fetched has it |
| `Cluster.StepKeepsConsistent` | internal/cluster/anti_entropy.go:75-119 | every step of any node keeps each version what its put recorded and loses no version |
| `Cluster.RunsLoseNothing` | internal/metadata/store.go:95-119 | along every interleaving no node ever loses a version of a key |
| `Cluster.LookupFindsPut` | internal/metadata/store.go:193-204 | in every reachable state a listed version is one that a put of that key created, with the chunk list of that put |
| `Cluster.AnswersWithPut` | internal/metadata/store.go:170-204 | in every reachable state, for any namespace, name and ID: the store answers if and only if the ID is one under the scoped key, or under the plain name when the scoped key is missing, and then with the chunk list of the put of that ID and key |
| `Cluster.ClocksNeverGoBack` | internal/cluster/anti_entropy.go:75-119 | along every run shorter than a counter's range no key's clock goes back or becomes concurrent with an earlier one |
| `Quorum.Replicas.WriteChunk` | internal/coordinator/write.go:12-64 | each acknowledgement is listed once, at the number of acknowledgements before it; there is an error if and only if fewer than W arrived; the listed nodes hold the chunk if and only if none had other bytes before; nothing is overwritten |
| `Quorum.AckedSelects` | internal/coordinator/write.go:47-57 | the locations are exactly the acknowledgements, in the order of their arrival |
| `Selections.SelectsOnce` | internal/coordinator/write.go:47-57 | such a list is determined by the answers |
| `Quorum.Replicas.ReadChunk` | internal/coordinator/read.go:64-94 | counts the answers that pass the integrity check and keeps the first |
| `Quorum.ReadReturnsChunk` | internal/coordinator/read.go:64-94 | a read succeeds with the chunk if and only if R answers are intact, whatever the others are |
| `Quorum.CountIgnoresOrder` | internal/coordinator/read.go:64-94 | the outcome does not depend on the order of arrival |
| `Quorum.UncheckedNames` | internal/coordinator/read.go:69-77 | for names that do not have 64 characters, a read succeeds if and only if R answers, and at least one, have any bytes, and gives those that came first |
| `Quorum.Replicas.WriteThenRead` | internal/coordinator/read.go:15-95 | a write and then a read from its locations, or without any from the ring, in any orders, gives the bytes written if and only if R of the nodes asked still have them intact |
| `Repair.SortedMembers` | internal/replication/repair.go:104-107 | sorting the survivors keeps them |
| `Repair.OneCoordinator` | internal/replication/repair.go:104-110 | among nodes with the same view exactly the least survivor is elected |
| `Repair.NeedsIff` | internal/replication/repair.go:62-110 | a list is repaired by a node unless it lacks the dead node and has N locations, or has no survivor, or has every target, or the node has an address and is not the least survivor |
| `Repair.NewLocationsAre` | internal/replication/repair.go:84-130 | the new locations are the survivors in ascending order and then the missing targets that acknowledged, in the order of the ring |
| `Repair.RepairRestores` | internal/replication/repair.go:62-136 | when the copies succeed no survivor is dropped and there are as many live locations as targets |
| `RepairPass.RepairManager.FetchChunkFromSurvivors` | internal/replication/repair.go:143-162 | the bytes of the first survivor that answers |
| `RepairPass.RepairManager.RepairChunk` | internal/replication/repair.go:62-136 | decision, copies, new locations, log record and count for one chunk |
| `RepairPass.RepairManager.RepairDeadNode` | internal/replication/repair.go:54-141 | visits every chunk of every manifest of a snapshot exactly once, in any order, and does for each what the decision says |
| `RepairPass.VisitIff` | internal/replication/repair.go:62-136 | a visit does nothing if the list is skipped or no survivor answers; else the missing targets get the bytes of the least survivor that answers, the locations are replaced everywhere, one record is logged, and the acknowledged copies are counted |
| `RepairPass.PassSkips` | internal/replication/repair.go:54-141 | a pass leaves locations, files and log of a chunk alone when each of its lists is skipped |
| `RepairPass.OneNodeRepairs` | internal/replication/repair.go:104-110 | a node with an address that is not the least survivor leaves an agreed chunk alone, so of two nodes with the same view at least one does |
| `RepairPass.RepairedCounts` | internal/replication/repair.go:54-141 | when each list that is not skipped has an answering survivor, the pass returns the number of acknowledged copies of all lists |
| `RepairPass.FetchedIsHeld` | internal/replication/repair.go:143-162 | a fetch succeeds if and only if some survivor answers with the chunk, and gives what one of them holds |
| `RepairPass.PassKeepsSound` | internal/replication/repair.go:61-137 | a pass stores nothing but a chunk's own content |
| `RepairPass.PassKeepsHosted` | internal/replication/repair.go:61-137 | after a pass, current and archived manifests list only nodes that hold the chunk |
| `RepairPass.PassFollowsPlan` | internal/replication/repair.go:134-135 | a pass changes nothing in the metadata but chunk locations, the same everywhere |
| `RepairPass.PlanOfChunk` | internal/replication/repair.go:62-136 | under agreed locations a chunk is moved exactly when it needs a copy, and then to survivors and copies |
| `RepairPass.PassRestores` | internal/replication/repair.go:54-141 | after a pass a repairable chunk has all survivors and as many live holders as targets |
| `RepairPass.KeepsIff` | internal/replication/repair.go:54-141 | without agreed locations: a pass keeps the survivors a manifest lists if and only if the last list visited that needs a copy keeps them |
| `RepairPass.SurvivorsKeptIff` | internal/replication/repair.go:54-141 | in every order of the maps, if and only if every list of the chunk that needs a copy has each of them too, or the ring has it and it acknowledges its copy |
| `RepairPass.RepairManager.TargetsOfRing` | internal/replication/repair.go:78-82 | with the dead node off the ring, the targets are min(N, ring size) different live nodes |
| `RepairPass.RepairManager.ReplicasRestored` | internal/replication/repair.go:54-141 | then a repairable chunk has at least min(N, ring size) live locations, all of which hold it, and no survivor is dropped |
| `Lru.FitLongest` | internal/storage/lru.go:111-118 | eviction keeps the longest most recent prefix that fits |
| `Lru.StoredIsFirst` | internal/storage/lru.go:56-83 | an accepted value is in the cache at the front, so eviction never removes the item just put |
| `Lru.RunIsCoherent` | internal/storage/lru.go:37-125 | in every run each key is there once, the bytes fit, and every value is the last one accepted for its key |
| `Lru.HitIsLastAccepted` | internal/storage/lru.go:37-53 | a hit returns the value of the last accepted Put |
| `Lru.CacheIsFittingPrefix` | internal/storage/lru.go:37-125 | a cache that is read through always holds the longest prefix of the full recency list that fits |
| `Lru.LargerCacheHoldsMore` | internal/storage/lru.go:37-125 | when every value fits the smaller cache, a larger cache holds all that the smaller one holds, in the same order |
| `Lru.ChunkCache.constructor` | internal/storage/lru.go:25-34 | empty, with 64 MiB as the default bound |
| `Lru.ChunkCache.Get` | internal/storage/lru.go:37-53 | the value under the key, which moves to the front |
| `Lru.ChunkCache.Put` | internal/storage/lru.go:56-83 | the list with the entry in front, evicted to fit; an oversized value changes nothing; map, list and byte count agree afterwards |
| `Lru.ChunkCache.Evict` | internal/storage/lru.go:111-118 | the loop leaves the longest prefix that fits |
| `Lru.ChunkCache.RemoveElement` | internal/storage/lru.go:120-125 | takes one entry out of list and map and off the byte count |
| `Lru.ChunkCache.Remove` | internal/storage/lru.go:86-96 | the list without the key |
| `Lru.ChunkCache.Clear` | internal/storage/lru.go:99-109 | the empty cache |
| `Lru.ChunkCache.Stats` | internal/storage/lru.go:128-135 | the bytes and the number of the entries |
| `DiskStore.CachingIsCoherentIff` | internal/storage/diskstore.go:88-93 | caching a value for an existing file keeps cache and files equal if and only if it is the file's value or too large to cache |
| `DiskStore.DiskStore.Get` | internal/storage/diskstore.go:135-152 | a read through a coherent cache returns the file's bytes and keeps the cache coherent |
| `DiskStore.DiskStore.Put` | internal/storage/diskstore.go:80-133 | an existing file keeps its bytes; cache and files stay equal exactly unless other bytes were put for an uncached existing file |
| `DiskStore.DiskStore.Delete` | internal/storage/diskstore.go:165-178 | removes the key from cache and files and keeps them equal |
| `AwsChunked.HexRoundTrip` | internal/s3/aws_chunked.go:79-85 | hexadecimal sizes read back |
| `AwsChunked.HexIgnoresCase` | internal/s3/aws_chunked.go:82 | a size is read if and only if all its characters are hexadecimal digits, in either case |
| `AwsChunked.SignedSizes` | internal/s3/aws_chunked.go:82 | a sign may stand in front, and the value has to fit 64 bits |
| `Text.TrimIs` | internal/s3/aws_chunked.go:72 | white space is taken off at both ends, and all of it |
| `AwsChunked.HeaderRoundTrip` | internal/s3/aws_chunked.go:72-85 | a header line of size and extensions parses to the size |
| `AwsChunked.LastChunkEnds` | internal/s3/aws_chunked.go:98-105 | a chunk of size zero ends the body, whatever follows |
| `AwsChunked.TrailersConsumed` | internal/s3/aws_chunked.go:188-195 | the trailers are consumed up to their blank line and nothing after it |
| `AwsChunked.DecodesThen` | internal/s3/aws_chunked.go:60-135 | reading chunks and then anything else hands out the payload and then what reading the rest gives |
| `AwsChunked.Decodes` | internal/s3/aws_chunked.go:60-135 | for any buffers and any fragmentation the bytes read from a well-formed body are exactly its payload, and enough nonempty reads reach the end |
| `AwsChunked.CutIsNoticedIff` | internal/s3/aws_chunked.go:60-135 | a body with hexadecimal headers that is cut off anywhere ends with an unexpected end if and only if the cut is strictly inside a chunk, between the first byte of its header and the last of its data; elsewhere it reads as complete |
| `AwsChunked.CutChunk` | internal/s3/aws_chunked.go:65-134 | for header lines of any form: which bytes and which end reading a chunk gives that is cut off after k characters |
| `AwsChunked.CutWithinIff` | internal/s3/aws_chunked.go:65-134 | a chunk that is cut off reads as a complete body if and only if the cut is before it, behind its data, or leaves the beginning of a header line that reads as blank or zero; and then with the bytes before the cut |
| `AwsChunked.ReadsAsOnce` | internal/s3/aws_chunked.go:60-135 | a text reads in one way only: with one payload and one end |
| `AwsChunked.ReadsAsAfter` | internal/s3/aws_chunked.go:60-135 | how a text ends that follows whole chunks is how it ends on its own |
| `AwsChunked.OutOfRangeIff` | internal/s3/aws_chunked.go:82-115 | a read slices out of range if and only if a negative chunk size is in effect or is the next header |
| `AwsChunked.BadHeaderIff` | internal/s3/aws_chunked.go:72-91 | a read reports a bad or an oversized header if and only if the next header line that is not blank is one |
| `AwsChunked.AWSChunkedReader.ReadString` | internal/s3/aws_chunked.go:67-70 | the line up to its line feed, or all that is left |
| `AwsChunked.AWSChunkedReader.ConsumeCRLF` | internal/s3/aws_chunked.go:176-186 | skips CR LF, or else LF, or nothing |
| `AwsChunked.AWSChunkedReader.ConsumeTrailers` | internal/s3/aws_chunked.go:188-195 | skips lines up to a blank one or the end |
| `AwsChunked.AWSChunkedReader.Read` | internal/s3/aws_chunked.go:60-135 | bytes, error and new state of one call for every stream, including blank lines, bad and oversized headers and early ends |

## Left out

- HTTP and S3 handlers, routing, XML, command line, client SDK, transport and TLS: input and output around the modelled operations.
- SHA-256, CRC-32 and JSON: the hash is any function from bytes to strings, assumed collision-free only where a clause says so; a log record's text and checksum are an abstract codec (`WalFile.Codec`) whose laws are that texts are one line in braces, read back, and that neither a nonempty proper prefix of a text nor two texts in a row is JSON.
- Gear table values: chunking is proved for every table of 32-bit entries.
- The ring's hash: any function from names to 32-bit positions; results about the preference list assume that virtual nodes of different nodes do not collide.
- SigV4 chunk signatures, credentials and API keys: `internal/s3/aws_chunked.go:137-174`; credential records are written by compaction and skipped by replay, and what they do to the authenticator is not modelled.
- Goroutines, mutexes, channels and timeouts: a call is one atomic step, and fan-out is an arbitrary order of results.
- Real files, fsync and rename: a file is a text, a disk is a map; errors of the file system while reading or truncating the log are not modelled.
- Timestamps, version-name generation from the clock, metrics and logging: a new version name is a parameter.
- Aliasing between the caller's clock object and the stored one in `RecordPlacement`: manifests are values.
- Garbage collection of chunks: it is not atomic with registration and does not know shard names, so it has no global safety property to prove.
- Signed 64-bit overflow of sizes and offsets: lengths are unbounded; counters of vector clocks and the rolling hash do wrap.
- `SplitStreamCDC`: reads the whole stream and calls `SplitCDC`.
- `ListObjectsV2`, `ListBuckets`, `BucketExists`: read-only listing.
- A nil cache or a nil vector clock as receiver: the methods then do nothing.
- GaussJordan.SwapRows: exchanges the contents of two rows of one matrix, where the source exchanges row slices.
- Chunking.SplitCDC: asks, for data longer than the minimum in effect, for an average of at most 2^32 - 1; beyond it the source does not return (`Chunking.MaskLoopEndsIff`).
- Ring.HashRing.GetNodesForKey: with colliding virtual nodes the result is the walk of the actual index, not a preference list.
- RepairPass.RepairManager.RepairDeadNode: a node answers, acknowledges and stores a given chunk in the same way throughout one pass; the pass itself and the updates it makes are one step to other nodes.
- Cluster.RunsLoseNothing: runs without deletes; a delete is not propagated by reconciliation, and an adopted manifest brings a deleted key back exactly when a peer still has it (`AntiEntropy.DeletedComesBackIff`).
- WalRecords.ReplayRebuilds: equality is up to clocks, because replay advances clocks again.
- Quorum.Replicas.ReadChunk: replication mode; in erasure mode the source first tries the erasure read and falls back to this one.
- AwsChunked.AWSChunkedReader.Read: bytes are written as characters and header lines are taken as ASCII text, and an underlying stream that fails with an error other than its end is not modelled; a negative chunk size, on which the source panics, gives the outcome SliceOutOfRange.
