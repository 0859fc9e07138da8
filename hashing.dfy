/**
 * Block hashing of the duplicate finder: the zero-padding loop that `getHash`
 * runs over a caller's buffer, and the dispatch on the configured hash type.
 * The CRC32, MD5 and SHA1 implementations are library code and appear here as
 * abstract functions of the bytes handed to them.
 */
module Hashing {

  newtype Byte = x: int | 0 <= x < 256

  type Digest = string

  /** A hash routine of the library: `process_bytes` over exactly the bytes it
      is given, followed by the text formatting of its checksum or digest. */
  type HashFn = seq<Byte> -> Digest

  /** The three algorithms `getHash` knows, and how many bytes it hands them.
      The source passes `sizeof(buffer)` where `buffer` is a `char *` parameter:
      the size of a pointer, not the block size. `processedLength` carries that
      value. When the block buffer is shorter, `process_bytes` reads on past
      its end; `overrun` stands for the bytes found there. */
  datatype Hasher = Hasher(crc32: HashFn, md5: HashFn, sha1: HashFn, processedLength: nat, overrun: seq<Byte>)

  const CRC32: string := "crc32"
  const MD5: string := "md5"
  const SHA1: string := "sha1"

  /** The routine `getHash` picks for `hashType`; any other name yields the
      empty digest. */
  function Algorithm(hasher: Hasher, hashType: string): HashFn {
    if hashType == CRC32 then hasher.crc32
    else if hashType == MD5 then hasher.md5
    else if hashType == SHA1 then hasher.sha1
    else (bytes: seq<Byte>) => ""
  }

  /** The configured routine applied to `bytes`. */
  function Checksum(hasher: Hasher, hashType: string, bytes: seq<Byte>): Digest {
    Algorithm(hasher, hashType)(bytes)
  }

  /** The bytes `process_bytes(buffer, sizeof(buffer))` reads: the first
      `processedLength` bytes from the start of the buffer, continuing into
      the bytes after it when the buffer is shorter. */
  function Processed(hasher: Hasher, buffer: seq<Byte>): (bytes: seq<Byte>)
    ensures |buffer| + |hasher.overrun| >= hasher.processedLength ==> |bytes| == hasher.processedLength
    ensures |buffer| >= hasher.processedLength ==> bytes == buffer[..hasher.processedLength]
    ensures |buffer| <= |bytes| ==> bytes[..|buffer|] == buffer
  {
    var all := buffer + hasher.overrun;
    if hasher.processedLength <= |all| then all[..hasher.processedLength] else all
  }

  /** The digest `getHash` returns for a buffer once padding is done. */
  function Hash(hasher: Hasher, hashType: string, buffer: seq<Byte>): Digest {
    Checksum(hasher, hashType, Processed(hasher, buffer))
  }

  /** The digest depends only on the first `processedLength` bytes of the
      buffer: buffers of one length that agree there hash alike, whatever
      follows. */
  lemma HashReadsOnlyPrefix(hasher: Hasher, hashType: string, a: seq<Byte>, b: seq<Byte>)
    requires |a| == |b| >= hasher.processedLength
    requires a[..hasher.processedLength] == b[..hasher.processedLength]
    ensures Hash(hasher, hashType, a) == Hash(hasher, hashType, b)
  {
  }

  /** Index `i` of a block buffer is zeroed by the padding loop: the loop runs
      only for a short read and counts down from `blockSize - 1` while
      `i > blockSize - lastRead`. */
  predicate Cleared(blockSize: int, lastRead: int, i: int) {
    lastRead < blockSize && blockSize - lastRead < i < blockSize
  }

  /** Index `i` lies in the tail that a short read of `lastRead` bytes did not
      fill, the range a zero-padding of the block would be meant to cover. */
  predicate UnreadTail(blockSize: int, lastRead: int, i: int) {
    0 <= lastRead <= i < blockSize
  }

  /** The buffer as the padding loop leaves it. */
  function Padded(buffer: seq<Byte>, lastRead: int): seq<Byte> {
    seq(|buffer|, i requires 0 <= i < |buffer| =>
      if Cleared(|buffer|, lastRead, i) then 0 else buffer[i])
  }

  /** `getHash`: zero the indices of the open range (blockSize - lastRead,
      blockSize) after a short read, leave every other byte as it was, and
      hash the first `processedLength` bytes. */
  method GetHash(buffer: array<Byte>, hasher: Hasher, hashType: string, blockSize: int, lastReadBlockSize: int)
    returns (digest: Digest)
    requires buffer.Length == blockSize
    modifies buffer
    ensures buffer[..] == Padded(old(buffer[..]), lastReadBlockSize)
    ensures digest == Hash(hasher, hashType, buffer[..])
  {
    if lastReadBlockSize < blockSize {
      var i := blockSize - 1;
      while i > blockSize - lastReadBlockSize
        invariant i <= blockSize - 1
        invariant lastReadBlockSize >= 1 ==> blockSize - lastReadBlockSize <= i
        invariant lastReadBlockSize < 1 ==> i == blockSize - 1
        invariant forall k :: 0 <= k < buffer.Length ==>
                    buffer[k] == if i < k then 0 else old(buffer[k])
      {
        buffer[i] := 0;
        i := i - 1;
      }
    }
    digest := Hash(hasher, hashType, buffer[..]);
  }

  /** The padding writes zeros at the cleared indices and nothing else: every
      other byte keeps its value, and a read that filled the block leaves the
      buffer as it was. */
  lemma PaddedClearsOnlyRange(buffer: seq<Byte>, lastRead: int)
    ensures |Padded(buffer, lastRead)| == |buffer|
    ensures forall i :: 0 <= i < |buffer| ==>
              Padded(buffer, lastRead)[i] == if Cleared(|buffer|, lastRead, i) then 0 else buffer[i]
    ensures lastRead >= |buffer| ==> Padded(buffer, lastRead) == buffer
  {
  }

  /** The padding loop clears exactly the unread tail [lastRead, blockSize) of a
      short read only when 2 * lastRead == blockSize + 1; for every other short
      read the two ranges differ in some index. */
  lemma {:induction false} ClearedIsUnreadTailIff(blockSize: int, lastRead: int)
    requires 0 <= lastRead < blockSize
    ensures (forall i :: Cleared(blockSize, lastRead, i) <==> UnreadTail(blockSize, lastRead, i))
            <==> 2 * lastRead == blockSize + 1
  {
    if 2 * lastRead == blockSize + 1 {
      forall i ensures Cleared(blockSize, lastRead, i) <==> UnreadTail(blockSize, lastRead, i) {
      }
    } else if 2 * lastRead <= blockSize {
      // lastRead itself is unread but not cleared
      assert UnreadTail(blockSize, lastRead, lastRead) && !Cleared(blockSize, lastRead, lastRead);
    } else {
      // index lastRead - 1 was read and is cleared
      assert Cleared(blockSize, lastRead, lastRead - 1) && !UnreadTail(blockSize, lastRead, lastRead - 1);
    }
  }

  /** When more than half a block plus one was read, the padding loop destroys
      read bytes: index blockSize - lastRead + 1 holds data and is zeroed. */
  lemma PaddingOverwritesReadBytes(buffer: seq<Byte>, lastRead: int)
    requires 0 < lastRead < |buffer| < 2 * lastRead - 1
    ensures var i := |buffer| - lastRead + 1;
            i < lastRead && Padded(buffer, lastRead)[i] == 0
  {
  }

  /** When less than half a block was read, bytes left over in the buffer from
      earlier content survive the padding at indices lastRead .. blockSize - lastRead. */
  lemma {:induction false} PaddingKeepsStaleBytes(buffer: seq<Byte>, lastRead: int, i: int)
    requires 0 <= lastRead <= i <= |buffer| - lastRead && i < |buffer|
    ensures Padded(buffer, lastRead)[i] == buffer[i]
    ensures UnreadTail(|buffer|, lastRead, i)
  {
  }
}
