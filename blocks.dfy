/**
 * What the duplicate finder computes for one file, block by block: the bytes
 * each `read` of `blockSize` bytes delivers, the content of the reused block
 * buffer after each read and padding, the digest of each block, and when a
 * sub file is reported as a duplicate of a test file.
 */
module Blocks {
  import opened Hashing
  import opened Streams

  /** The run-wide settings: the block size, the hash type name, the hash
      routines, and the bytes a freshly declared (uninitialised) block buffer
      holds, the same for every buffer of the run. */
  datatype Config = Config(blockSize: nat, hashType: string, hasher: Hasher, uninit: seq<Byte>)
  {
    /** A block holds at least one byte, and the memory after a block buffer
        holds as many bytes as the hash may read there. */
    predicate Valid() {
      blockSize >= 1 && |uninit| == blockSize && |hasher.overrun| >= hasher.processedLength
    }
  }

  /** The offset of block `k`: `k * blockSize`, written as a sum so that the
      verifier reasons about it without multiplication. */
  function Offset(k: nat, blockSize: nat): nat {
    if k == 0 then 0 else Offset(k - 1, blockSize) + blockSize
  }

  lemma {:induction false} OffsetMonotone(i: nat, j: nat, blockSize: nat)
    requires i <= j
    ensures Offset(i, blockSize) <= Offset(j, blockSize)
    ensures blockSize >= 1 && i < j ==> Offset(i, blockSize) < Offset(j, blockSize)
    decreases j
  {
    if i < j {
      OffsetMonotone(i, j - 1, blockSize);
    }
  }

  /** The bytes that read number `k` (counting from 0) of `blockSize` bytes
      delivers from a stream over `data`, once `k` reads of that size were done.
      A read past the end delivers nothing. */
  function Chunk(data: seq<Byte>, blockSize: nat, k: nat): (c: seq<Byte>)
    requires blockSize >= 1
    ensures |c| <= blockSize
    ensures |c| > 0 <==> Offset(k, blockSize) < |data|
    ensures |c| == blockSize <==> Offset(k + 1, blockSize) <= |data|
    ensures |c| > 0 ==> Offset(k, blockSize) + |c| <= |data| &&
                        c == data[Offset(k, blockSize) .. Offset(k, blockSize) + |c|]
  {
    var start := Offset(k, blockSize);
    data[Min(start, |data|) .. Min(start + blockSize, |data|)]
  }

  /** The buffer after a read copied `chunk` to its front. */
  function Filled(previous: seq<Byte>, chunk: seq<Byte>): seq<Byte>
    requires |chunk| <= |previous|
  {
    chunk + previous[|chunk|..]
  }

  /** The content of a file's block buffer after `count` reads, each followed
      by the padding of `getHash` with the count that read delivered. Before
      the first read it holds the buffer's initial bytes. */
  function BufferAfter(cfg: Config, data: seq<Byte>, count: nat): (buffer: seq<Byte>)
    requires cfg.Valid()
    ensures |buffer| == cfg.blockSize
    decreases 3 * count
  {
    if count == 0 then cfg.uninit else PaddedBuffer(cfg, data, count - 1)
  }

  /** The buffer once read number `k` has copied its chunk to the front. */
  function FilledBuffer(cfg: Config, data: seq<Byte>, k: nat): (buffer: seq<Byte>)
    requires cfg.Valid()
    ensures |buffer| == cfg.blockSize
    decreases 3 * k + 1
  {
    Filled(BufferAfter(cfg, data, k), Chunk(data, cfg.blockSize, k))
  }

  /** The buffer once `getHash` has padded it after read number `k`. */
  function PaddedBuffer(cfg: Config, data: seq<Byte>, k: nat): (buffer: seq<Byte>)
    requires cfg.Valid()
    ensures |buffer| == cfg.blockSize
    decreases 3 * k + 2
  {
    Padded(FilledBuffer(cfg, data, k), |Chunk(data, cfg.blockSize, k)|)
  }

  /** The digest the finder computes for block `k` of a file. */
  function BlockDigest(cfg: Config, data: seq<Byte>, k: nat): Digest
    requires cfg.Valid()
  {
    Hash(cfg.hasher, cfg.hashType, BufferAfter(cfg, data, k + 1))
  }

  /** The number of reads of `blockSize` bytes that deliver something from a
      stream of `length` bytes: the smallest `n` whose blocks cover the stream. */
  function NumBlocks(length: nat, blockSize: nat): (n: nat)
    requires blockSize >= 1
    ensures length <= Offset(n, blockSize)
    ensures n == 0 || Offset(n - 1, blockSize) < length
  {
    if length == 0 then 0 else 1 + NumBlocks(length - Min(length, blockSize), blockSize)
  }

  /** The digests of the first `n` blocks of a file, in order. */
  function BlockDigests(cfg: Config, data: seq<Byte>, n: nat): (digests: seq<Digest>)
    requires cfg.Valid()
    ensures |digests| == n
  {
    if n == 0 then [] else BlockDigests(cfg, data, n - 1) + [BlockDigest(cfg, data, n - 1)]
  }

  /** The first `n` blocks of `sub` have the digests of the test file's blocks
      at the same indices. */
  predicate DigestsAgree(cfg: Config, test: seq<Byte>, sub: seq<Byte>, n: nat)
    requires cfg.Valid()
  {
    n == 0 || (DigestsAgree(cfg, test, sub, n - 1) && BlockDigest(cfg, sub, n - 1) == BlockDigest(cfg, test, n - 1))
  }

  /** The verdict of one comparison: no block of the sub file has a digest that
      differs from the test file's block at the same index. Only the sub file's
      block count is looked at. */
  predicate ReportedDuplicate(cfg: Config, test: seq<Byte>, sub: seq<Byte>)
    requires cfg.Valid()
  {
    DigestsAgree(cfg, test, sub, NumBlocks(|sub|, cfg.blockSize))
  }

  /** The digest list of the first `m` blocks is a prefix of the list of the
      first `n`. */
  lemma {:induction false} BlockDigestsPrefix(cfg: Config, data: seq<Byte>, m: nat, n: nat)
    requires cfg.Valid() && m <= n
    ensures BlockDigests(cfg, data, m) <= BlockDigests(cfg, data, n)
  {
    if m < n {
      BlockDigestsPrefix(cfg, data, m, n - 1);
      assert BlockDigests(cfg, data, n)[..n - 1] == BlockDigests(cfg, data, n - 1);
    }
  }

  /** Entry `k` of the digest list is the digest of block `k`. */
  lemma {:induction false} BlockDigestsAt(cfg: Config, data: seq<Byte>, n: nat, k: nat)
    requires cfg.Valid() && k < n
    ensures BlockDigests(cfg, data, n)[k] == BlockDigest(cfg, data, k)
  {
    if k < n - 1 {
      BlockDigestsAt(cfg, data, n - 1, k);
    }
  }

  /** Agreement of the first `n` blocks, index by index. */
  lemma {:induction false} DigestsAgreeIff(cfg: Config, test: seq<Byte>, sub: seq<Byte>, n: nat)
    requires cfg.Valid()
    ensures DigestsAgree(cfg, test, sub, n) <==>
              forall k :: 0 <= k < n ==> BlockDigest(cfg, sub, k) == BlockDigest(cfg, test, k)
  {
    if n > 0 {
      DigestsAgreeIff(cfg, test, sub, n - 1);
    }
  }

  /** The configured routine tells apart the byte strings `getHash` hands it:
      no two different inputs of `processedLength` bytes share a digest. */
  ghost predicate CollisionFree(cfg: Config) {
    forall a, b {:trigger Checksum(cfg.hasher, cfg.hashType, a), Checksum(cfg.hasher, cfg.hashType, b)} ::
      (|a| == cfg.hasher.processedLength && |b| == cfg.hasher.processedLength &&
       Checksum(cfg.hasher, cfg.hashType, a) == Checksum(cfg.hasher, cfg.hashType, b)) ==> a == b
  }

  /** When the hash reads at least a whole block, a collision-free routine
      gives different buffers different digests. */
  lemma BufferHashInjective(cfg: Config, a: seq<Byte>, b: seq<Byte>)
    requires cfg.Valid() && CollisionFree(cfg) && cfg.blockSize <= cfg.hasher.processedLength
    requires |a| == cfg.blockSize && |b| == cfg.blockSize
    requires Hash(cfg.hasher, cfg.hashType, a) == Hash(cfg.hasher, cfg.hashType, b)
    ensures a == b
  {
    var pa, pb := Processed(cfg.hasher, a), Processed(cfg.hasher, b);
    assert pa == pb;
    assert a == pa[..|a|] && b == pb[..|b|];
  }

  /** The read count that ends the finder's read loop is the block count. */
  lemma {:induction false} NumBlocksUnique(length: nat, blockSize: nat, n: nat)
    requires blockSize >= 1
    requires length <= Offset(n, blockSize)
    requires n == 0 || Offset(n - 1, blockSize) < length
    ensures n == NumBlocks(length, blockSize)
  {
    var r := NumBlocks(length, blockSize);
    if n > r {
      OffsetMonotone(r, n - 1, blockSize);
    } else if n < r {
      OffsetMonotone(n, r - 1, blockSize);
    }
  }

  /** A read that fills the whole block replaces the whole buffer: the padding
      does nothing and no earlier byte survives. */
  lemma FullReadReplacesBuffer(cfg: Config, data: seq<Byte>, k: nat)
    requires cfg.Valid()
    requires Offset(k + 1, cfg.blockSize) <= |data|
    ensures BufferAfter(cfg, data, k + 1) == data[Offset(k, cfg.blockSize) .. Offset(k + 1, cfg.blockSize)]
  {
    var chunk := Chunk(data, cfg.blockSize, k);
    assert BufferAfter(cfg, data, k + 1) == PaddedBuffer(cfg, data, k);
    assert FilledBuffer(cfg, data, k) == chunk;
    assert Padded(chunk, |chunk|) == chunk;
  }

  /** A read past the end of the file delivers nothing, so the padding does
      nothing and the buffer keeps the last block's bytes. */
  lemma ExhaustedReadKeepsBuffer(cfg: Config, data: seq<Byte>, k: nat)
    requires cfg.Valid()
    requires |data| <= Offset(k, cfg.blockSize)
    ensures BufferAfter(cfg, data, k + 1) == BufferAfter(cfg, data, k)
  {
    var previous := BufferAfter(cfg, data, k);
    assert BufferAfter(cfg, data, k + 1) == PaddedBuffer(cfg, data, k);
    assert FilledBuffer(cfg, data, k) == previous;
    assert Padded(previous, 0) == previous;
  }

  /** A sub file of `blocks` whole blocks that is a prefix of the test file is
      reported as a duplicate, although it may be shorter. */
  lemma {:induction false} WholeBlockPrefixIsDuplicate(cfg: Config, test: seq<Byte>, sub: seq<Byte>, blocks: nat)
    requires cfg.Valid()
    requires |sub| == Offset(blocks, cfg.blockSize) && sub <= test
    ensures ReportedDuplicate(cfg, test, sub)
  {
    var b := cfg.blockSize;
    NumBlocksUnique(|sub|, b, blocks);
    DigestsAgreeIff(cfg, test, sub, blocks);
    forall k | 0 <= k < blocks
      ensures BlockDigest(cfg, sub, k) == BlockDigest(cfg, test, k)
    {
      OffsetMonotone(k + 1, blocks, b);
      FullReadReplacesBuffer(cfg, sub, k);
      FullReadReplacesBuffer(cfg, test, k);
      assert sub[Offset(k, b) .. Offset(k + 1, b)] == test[Offset(k, b) .. Offset(k + 1, b)];
    }
  }

  /** An empty sub file is reported as a duplicate of every test file. */
  lemma EmptyIsDuplicate(cfg: Config, test: seq<Byte>)
    requires cfg.Valid()
    ensures ReportedDuplicate(cfg, test, [])
  {
  }

  /** Once the test file is exhausted its later digests repeat the hash of its
      last buffer; so a one-block test file and a sub file holding that block
      twice are reported as duplicates. */
  lemma {:induction false} RepeatedBlockIsDuplicate(cfg: Config, test: seq<Byte>)
    requires cfg.Valid() && |test| == cfg.blockSize
    ensures ReportedDuplicate(cfg, test, test + test)
  {
    var b := cfg.blockSize;
    var sub := test + test;
    assert Offset(2, b) == 2 * b && Offset(1, b) == b;
    NumBlocksUnique(|sub|, b, 2);
    FullReadReplacesBuffer(cfg, sub, 0);
    FullReadReplacesBuffer(cfg, sub, 1);
    FullReadReplacesBuffer(cfg, test, 0);
    ExhaustedReadKeepsBuffer(cfg, test, 1);
    assert sub[0..b] == test && sub[b..2 * b] == test;
    assert BufferAfter(cfg, sub, 1) == test == BufferAfter(cfg, test, 1);
    assert BufferAfter(cfg, sub, 2) == test == BufferAfter(cfg, test, 2);
    assert BlockDigest(cfg, sub, 0) == BlockDigest(cfg, test, 0);
    assert BlockDigest(cfg, sub, 1) == BlockDigest(cfg, test, 1);
    assert DigestsAgree(cfg, test, sub, 1);
    assert DigestsAgree(cfg, test, sub, 2);
  }

  /** With a collision-free hash that reads at least a whole block, a sub file
      of whole blocks no longer than the test file is reported as a duplicate
      exactly when it is a prefix of it. */
  lemma {:induction false} WholeBlockDuplicateIff(cfg: Config, test: seq<Byte>, sub: seq<Byte>, blocks: nat)
    requires cfg.Valid() && CollisionFree(cfg) && cfg.blockSize <= cfg.hasher.processedLength
    requires |sub| == Offset(blocks, cfg.blockSize) && |sub| <= |test|
    ensures ReportedDuplicate(cfg, test, sub) <==> sub <= test
  {
    if sub <= test {
      WholeBlockPrefixIsDuplicate(cfg, test, sub, blocks);
    }
    if ReportedDuplicate(cfg, test, sub) {
      NumBlocksUnique(|sub|, cfg.blockSize, blocks);
      DigestsAgreeIff(cfg, test, sub, blocks);
      EqualDigestsAgreeUpTo(cfg, test, sub, blocks);
      assert sub == test[..|sub|];
    }
  }

  /** With a collision-free hash that reads at least a whole block, a whole
      block `k` with the same digest in both files holds the same bytes. */
  lemma EqualDigestsEqualBlock(cfg: Config, test: seq<Byte>, sub: seq<Byte>, k: nat)
    requires cfg.Valid() && CollisionFree(cfg) && cfg.blockSize <= cfg.hasher.processedLength
    requires Offset(k + 1, cfg.blockSize) <= |sub| <= |test|
    requires BlockDigest(cfg, sub, k) == BlockDigest(cfg, test, k)
    ensures sub[Offset(k, cfg.blockSize) .. Offset(k + 1, cfg.blockSize)]
         == test[Offset(k, cfg.blockSize) .. Offset(k + 1, cfg.blockSize)]
  {
    FullReadReplacesBuffer(cfg, sub, k);
    FullReadReplacesBuffer(cfg, test, k);
    BufferHashInjective(cfg, BufferAfter(cfg, sub, k + 1), BufferAfter(cfg, test, k + 1));
  }

  /** With a collision-free hash that reads at least a whole block, agreeing
      digests of the first `n` whole blocks mean equal bytes in those blocks. */
  lemma {:induction false} EqualDigestsAgreeUpTo(cfg: Config, test: seq<Byte>, sub: seq<Byte>, n: nat)
    requires cfg.Valid() && CollisionFree(cfg) && cfg.blockSize <= cfg.hasher.processedLength
    requires Offset(n, cfg.blockSize) <= |sub| <= |test|
    requires DigestsAgree(cfg, test, sub, n)
    ensures sub[..Offset(n, cfg.blockSize)] == test[..Offset(n, cfg.blockSize)]
  {
    if n > 0 {
      var b := cfg.blockSize;
      var lo, hi := Offset(n - 1, b), Offset(n, b);
      EqualDigestsAgreeUpTo(cfg, test, sub, n - 1);
      OffsetMonotone(n - 1, n, b);
      EqualDigestsEqualBlock(cfg, test, sub, n - 1);
      assert sub[..hi] == sub[..lo] + sub[lo..hi];
      assert test[..hi] == test[..lo] + test[lo..hi];
    }
  }

  /** When a block is longer than what the hash reads, bytes past
      `processedLength` never reach a digest: two one-block files that agree
      on their first `processedLength` bytes are reported as duplicates,
      whatever the rest of them holds. */
  lemma {:induction false} UnhashedBytesGoUnseen(cfg: Config, test: seq<Byte>, sub: seq<Byte>)
    requires cfg.Valid() && cfg.hasher.processedLength < cfg.blockSize
    requires |test| == cfg.blockSize && |sub| == cfg.blockSize
    requires test[..cfg.hasher.processedLength] == sub[..cfg.hasher.processedLength]
    ensures ReportedDuplicate(cfg, test, sub)
  {
    var b := cfg.blockSize;
    assert Offset(1, b) == b;
    NumBlocksUnique(|sub|, b, 1);
    FullReadReplacesBuffer(cfg, sub, 0);
    FullReadReplacesBuffer(cfg, test, 0);
    assert BufferAfter(cfg, sub, 1) == sub && BufferAfter(cfg, test, 1) == test;
    HashReadsOnlyPrefix(cfg.hasher, cfg.hashType, sub, test);
    assert BlockDigest(cfg, sub, 0) == BlockDigest(cfg, test, 0);
    assert DigestsAgree(cfg, test, sub, 1);
  }

  /** So whenever a block is longer than what the hash reads, two different
      files of one block each are reported as duplicates, whatever the hash
      routine: the "only if" of `WholeBlockDuplicateIff` then fails. */
  lemma FalseDuplicateExists(cfg: Config)
    requires cfg.Valid() && cfg.hasher.processedLength < cfg.blockSize
    ensures exists test: seq<Byte>, sub: seq<Byte> ::
              && |test| == cfg.blockSize && |sub| == cfg.blockSize
              && test != sub && ReportedDuplicate(cfg, test, sub)
  {
    var n := cfg.hasher.processedLength;
    var test: seq<Byte> := seq(cfg.blockSize, i => 0);
    var sub := test[n := 1];
    assert sub[n] != test[n];
    assert test[..n] == sub[..n];
    UnhashedBytesGoUnseen(cfg, test, sub);
  }
}
