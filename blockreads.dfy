/**
 * Reading a file block by block as the duplicate finder does: a
 * `read(buffer, blockSize)` on the file's stream, then `getHash` on the buffer.
 * The predicates here tie a stream and a buffer to the number of blocks read.
 */
module BlockReads {
  import opened Hashing
  import opened Streams
  import opened Blocks

  /** A stream that has done `count` reads of `blockSize` bytes. */
  ghost predicate StreamAt(stream: InputStream, blockSize: nat, count: nat)
    reads stream
  {
    && stream.pos == Min(Offset(count, blockSize), |stream.data|)
    && stream.failed == (Offset(count, blockSize) > |stream.data|)
  }

  /** What read number `count` of `blockSize` bytes delivers, in the terms of
      the stream's position. */
  lemma ChunkAtPosition(data: seq<Byte>, blockSize: nat, count: nat)
    requires blockSize >= 1
    ensures var pos := Min(Offset(count, blockSize), |data|);
            var got := Min(blockSize, |data| - pos);
            var chunk := Chunk(data, blockSize, count);
            && (Offset(count, blockSize) <= |data| ==>
                  && got == |chunk| && data[pos..pos + got] == chunk
                  && pos + got == Min(Offset(count + 1, blockSize), |data|)
                  && (got < blockSize <==> Offset(count + 1, blockSize) > |data|))
            && (Offset(count, blockSize) > |data| ==>
                  chunk == [] && Offset(count + 1, blockSize) > |data|)
  {
  }

  /** A file's stream and block buffer once `count` blocks were read and
      hashed: the stream has done `count` reads and the buffer is as the last
      padding left it. */
  ghost predicate BlocksDone(cfg: Config, stream: InputStream, buffer: array<Byte>, data: seq<Byte>, count: nat)
    reads stream, buffer
    requires cfg.Valid()
  {
    && stream.Valid() && stream.data == data
    && buffer.Length == cfg.blockSize
    && StreamAt(stream, cfg.blockSize, count)
    && buffer[..] == BufferAfter(cfg, data, count)
  }

  /** A file's stream and block buffer once `count` blocks were read and hashed
      and read number `count` has been done but its block not yet hashed. */
  ghost predicate ReadPending(cfg: Config, stream: InputStream, buffer: array<Byte>, data: seq<Byte>, count: nat)
    reads stream, buffer
    requires cfg.Valid()
  {
    && stream.Valid() && stream.data == data
    && buffer.Length == cfg.blockSize
    && StreamAt(stream, cfg.blockSize, count + 1)
    && stream.gcount == |Chunk(data, cfg.blockSize, count)|
    && buffer[..] == FilledBuffer(cfg, data, count)
  }

  /** `read(buffer, blockSize)` on a stream that has done `count` reads, with the
      buffer as the last padding left it. */
  method ReadBlock(cfg: Config, stream: InputStream, buffer: array<Byte>, ghost data: seq<Byte>, ghost count: nat)
    returns (ok: bool)
    requires cfg.Valid() && BlocksDone(cfg, stream, buffer, data, count)
    modifies stream, buffer
    ensures ReadPending(cfg, stream, buffer, data, count)
    ensures (ok || stream.gcount > 0) <==> Offset(count, cfg.blockSize) < |data|
  {
    ChunkAtPosition(data, cfg.blockSize, count);
    ok := stream.Read(buffer, cfg.blockSize);
  }

  /** `getHash` on the block that read number `count` left in the buffer: the
      padding turns the buffer into the buffer after `count + 1` reads, and the
      digest is that block's digest. */
  method HashBlock(cfg: Config, stream: InputStream, buffer: array<Byte>, ghost data: seq<Byte>, ghost count: nat)
    returns (digest: Digest)
    requires cfg.Valid() && ReadPending(cfg, stream, buffer, data, count)
    modifies buffer
    ensures BlocksDone(cfg, stream, buffer, data, count + 1)
    ensures digest == BlockDigest(cfg, data, count)
  {
    digest := GetHash(buffer, cfg.hasher, cfg.hashType, cfg.blockSize, stream.gcount);
  }

  /** A cache of a file's block digests, in order, together with the file's
      stream and buffer as the reads that produced those digests left them. */
  ghost predicate CacheAt(cfg: Config, stream: InputStream, buffer: array<Byte>, data: seq<Byte>, hashes: seq<Digest>)
    reads stream, buffer
  {
    && cfg.Valid()
    && BlocksDone(cfg, stream, buffer, data, |hashes|)
    && hashes == BlockDigests(cfg, data, |hashes|)
  }

  /** The state of a loop that reads a file block by block and hashes each
      block: `hashes` holds the digests of the blocks hashed so far, the read
      of the next block has been done, and `more` is the loop condition
      `read(buffer, blockSize) || gcount()` that this read left. */
  ghost predicate Scanning(cfg: Config, stream: InputStream, buffer: array<Byte>, data: seq<Byte>,
                           hashes: seq<Digest>, more: bool)
    reads stream, buffer
  {
    && cfg.Valid()
    && ReadPending(cfg, stream, buffer, data, |hashes|)
    && (more <==> Offset(|hashes|, cfg.blockSize) < |data|)
    && (|hashes| == 0 || Offset(|hashes| - 1, cfg.blockSize) < |data|)
    && hashes == BlockDigests(cfg, data, |hashes|)
  }

  /** Opens a stream on a file and allocates its block buffer, whose bytes are
      the initial contents `cfg.uninit`: no block is read or hashed yet. */
  method OpenFile(cfg: Config, data: seq<Byte>) returns (stream: InputStream, buffer: array<Byte>)
    requires cfg.Valid()
    ensures fresh(stream) && fresh(buffer)
    ensures CacheAt(cfg, stream, buffer, data, [])
  {
    stream := new InputStream.Open(data);
    var uninit := cfg.uninit;
    buffer := new Byte[cfg.blockSize](i requires 0 <= i < |uninit| => uninit[i]);
    assert buffer[..] == BufferAfter(cfg, data, 0);
  }

  /** Opens a file for block reading and evaluates the loop condition
      `read(buffer, blockSize) || gcount()` a first time. */
  method OpenBlocks(cfg: Config, data: seq<Byte>) returns (stream: InputStream, buffer: array<Byte>, more: bool)
    requires cfg.Valid()
    ensures fresh(stream) && fresh(buffer)
    ensures Scanning(cfg, stream, buffer, data, [], more)
  {
    stream, buffer := OpenFile(cfg, data);
    var ok := ReadBlock(cfg, stream, buffer, data, 0);
    more := ok || stream.gcount > 0;
  }

  /** After block `|hashes|` was hashed to `digest`, the next evaluation of the
      loop condition. */
  method ContinueScan(cfg: Config, stream: InputStream, buffer: array<Byte>, ghost data: seq<Byte>,
                      ghost hashes: seq<Digest>, ghost digest: Digest)
    returns (more: bool)
    requires cfg.Valid() && BlocksDone(cfg, stream, buffer, data, |hashes| + 1)
    requires hashes == BlockDigests(cfg, data, |hashes|) && digest == BlockDigest(cfg, data, |hashes|)
    requires Offset(|hashes|, cfg.blockSize) < |data|
    modifies stream, buffer
    ensures Scanning(cfg, stream, buffer, data, hashes + [digest], more)
  {
    var ok := ReadBlock(cfg, stream, buffer, data, |hashes| + 1);
    more := ok || stream.gcount > 0;
  }

  /** The loop stops after exactly as many blocks as the file has. */
  lemma ScanComplete(cfg: Config, stream: InputStream, buffer: array<Byte>, data: seq<Byte>, hashes: seq<Digest>)
    requires Scanning(cfg, stream, buffer, data, hashes, false)
    ensures |hashes| == NumBlocks(|data|, cfg.blockSize)
  {
    NumBlocksUnique(|data|, cfg.blockSize, |hashes|);
  }
}
