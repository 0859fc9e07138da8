# bayan duplicate finder — a Dafny model

`bayan` scans directories for files, then reports every file whose contents
match another listed file block by block. It reads each file in blocks of
`blocksize` bytes and hashes every block with CRC32, MD5 or SHA1. This project
models the core of `main.cpp` as imperative Dafny and proves what that code
does:

- **Duplicate detection** (`main`, lines 165-217; modules `Detection`,
  `BlockReads`, `Blocks`, `Streams`). A `DuplicateFinder` object holds the
  found duplicates and, for the current test file, its digest cache, its
  stream and its block buffer. Streams are objects with a read position, a
  fail state and `gcount()`. Block buffers are arrays that the reads and the
  padding update in place. Each method is proved against specification
  functions:
  - the bytes read number `k` delivers;
  - the buffer content after `k` reads and paddings;
  - the digest of block `k`;
  - the verdict of one comparison;
  - the list of found duplicates after `n` turns of the outer loop.
- **`getHash`** (lines 59-105; module `Hashing`). The padding loop zeroes the
  open index range (blockSize − lastRead, blockSize) after a short read. The
  buffer is then hashed with the configured routine.
- **`scanDir`** (lines 26-57) and the scan of all roots (lines 158-162)
  (module `Scanner`). They are modelled as a walk over a tree of directory
  entries.
- **`trim`** (lines 19-24; module `Text`).

The model follows the code as written, including behaviour its design does
not intend:

- There is no early exit. A comparison reads the whole sub file even after a
  difference is found.
- The number of blocks compared is the sub file's block count. A sub file
  whose blocks all match the test file's first blocks is therefore reported
  as a duplicate, and so is an empty or unreadable sub file.
- The test file's cache is created per test file. It grows by one block only
  when a sub file gets further than any earlier one. Once the test file is
  exhausted, its buffer is "read" again with 0 bytes and hashed as it is.
- The padding loop zeroes (B − n, B) rather than the unread tail [n, B). The
  two agree only when 2n = B + 1. Bytes left in the buffer by earlier reads
  (or its uninitialised contents) enter later digests.
- `getHash` hashes `sizeof(buffer)` bytes where `buffer` is a `char *`: the
  size of a pointer (`Hasher.processedLength`), not the block size. The hash
  routines are abstract functions of exactly the bytes they read:
  - With a block longer than that, bytes past it never reach a digest.
    Two different one-block files that agree on their first
    `processedLength` bytes are reported as duplicates, whatever the hash.
  - With a shorter block (the default block size is 5), the hash reads on
    past the end of the buffer.
- `fs::file_size(...) >= minFSize` compares an unsigned 64-bit size with a
  signed `int`. A negative minimum wraps around to at least 2^63 and admits
  no file of realistic size.

## Model

| member | source | states |
|---|---|---|
| Hashing.GetHash | main.cpp:59-105 | the buffer ends as `Padded` of its old content: zeros exactly on the open range (blockSize − lastRead, blockSize) after a short read, every other byte unchanged; the digest is the configured routine (or "" for an unknown type) applied to the first `processedLength` (pointer-size) bytes from the start of the padded buffer |
| Hashing.Processed | main.cpp:66-98 | `process_bytes(buffer, sizeof(buffer))` reads `processedLength` bytes: the buffer's first ones when it is long enough, otherwise all of it followed by the bytes after it |
| Hashing.HashReadsOnlyPrefix | main.cpp:66-105 | two buffers of one length that agree on their first `processedLength` bytes get the same digest |
| Hashing.PaddedClearsOnlyRange | main.cpp:62-64 | padding keeps the length, writes 0 exactly at the cleared indices, keeps every other byte, and leaves the buffer unchanged when lastRead ≥ blockSize |
| Hashing.ClearedIsUnreadTailIff | main.cpp:62-64 | for a short read the cleared indices are exactly the unread tail [lastRead, blockSize) if and only if 2·lastRead = blockSize + 1 |
| Hashing.PaddingOverwritesReadBytes | main.cpp:62-64 | when blockSize < 2·lastRead − 1 the loop zeroes index blockSize − lastRead + 1, a byte the read delivered |
| Hashing.PaddingKeepsStaleBytes | main.cpp:62-64 | an unread index lastRead ≤ i ≤ blockSize − lastRead keeps its old byte |
| Streams.InputStream.Open | main.cpp:170 | a new stream reads the file's bytes from position 0, not failed, gcount 0 |
| Streams.InputStream.Read | main.cpp:192 | `read(buffer, n)`: a failed stream reads nothing (gcount 0, buffer unchanged); otherwise min(n, remaining) bytes are copied to the front of the buffer, the rest of the buffer is kept, the position advances by that count, a short read sets the fail state, and the result is "not failed" |
| Blocks.Chunk | main.cpp:192 | the bytes read number k delivers: at most blockSize bytes, non-empty iff block k starts inside the file, full iff block k ends inside it, and equal to the file's bytes at block k's offset |
| Blocks.NumBlocks | main.cpp:192 | the number of reads that deliver something is the least n whose n blocks cover the file |
| Blocks.NumBlocksUnique | main.cpp:192 | any n whose blocks cover the file while block n − 1 starts inside it is that block count |
| Blocks.BlockDigestsPrefix | main.cpp:196-200 | the digest list of the first m blocks is a prefix of that of the first n ≥ m blocks, so a cache that grows only keeps its entries |
| Blocks.BlockDigestsAt | main.cpp:202 | entry k of the digest list is the digest of block k |
| Blocks.DigestsAgreeIff | main.cpp:191-206 | the loop's verdict over n blocks holds iff the digests agree at every index below n |
| Blocks.FullReadReplacesBuffer | main.cpp:192-194 | a read that fills the block leaves exactly that block's bytes in the buffer after padding |
| Blocks.ExhaustedReadKeepsBuffer | main.cpp:196-199 | a read past the end of the test file leaves the buffer, and so the next digest's input, as the previous block left it |
| Blocks.WholeBlockPrefixIsDuplicate | main.cpp:191-215 | a sub file of whole blocks that is a prefix of the test file is reported as a duplicate |
| Blocks.EmptyIsDuplicate | main.cpp:191-215 | an empty sub file is reported as a duplicate of every test file |
| Blocks.RepeatedBlockIsDuplicate | main.cpp:196-206 | a one-block test file and a sub file of that block twice are reported as duplicates, because the exhausted test file re-hashes its stale buffer |
| Blocks.BufferHashInjective | main.cpp:66-105 | when the hash reads at least a whole block and the routine is collision-free on inputs of `processedLength` bytes, equal digests of two block buffers mean equal buffers |
| Blocks.EqualDigestsEqualBlock | main.cpp:194-206 | under the same two conditions, a whole block with the same digest in both files holds the same bytes |
| Blocks.WholeBlockDuplicateIff | main.cpp:191-215 | when the hash reads at least a whole block and is collision-free, a whole-block sub file no longer than the test file is reported iff it is a prefix of it |
| Blocks.EqualDigestsAgreeUpTo | main.cpp:202-206 | under the same two conditions, agreeing digests of the first n whole blocks mean equal bytes there |
| Blocks.UnhashedBytesGoUnseen | main.cpp:59-105 | when a block is longer than what the hash reads, two one-block files that agree on their first `processedLength` bytes are reported as duplicates, for any hash routine |
| Blocks.FalseDuplicateExists | main.cpp:59-105 | when a block is longer than what the hash reads, there are two different one-block files reported as duplicates, so the premise of `WholeBlockDuplicateIff` cannot be dropped |
| BlockReads.ChunkAtPosition | main.cpp:192 | after k reads, what the next read copies (from the stream's position) is `Chunk(k)`, and it is short exactly when block k + 1 ends past the file |
| BlockReads.ReadBlock | main.cpp:192 | the read leaves the stream after k + 1 reads, gcount = size of chunk k and the buffer filled with it; the loop condition `read(...) \|\| gcount()` holds iff block k starts inside the file |
| BlockReads.HashBlock | main.cpp:194 | `getHash` turns the filled buffer into the padded buffer after k + 1 reads and returns the digest of block k |
| BlockReads.OpenFile | main.cpp:169-171 | a fresh stream and buffer, with no block read yet and the buffer's initial bytes |
| BlockReads.OpenBlocks | main.cpp:187-192 | after opening, the first evaluation of the loop condition leaves the scan state with no digests and `more` iff the file is non-empty |
| BlockReads.ContinueScan | main.cpp:192 | after block k is hashed, the next evaluation of the loop condition extends the scan state by that digest |
| BlockReads.ScanComplete | main.cpp:192 | the read loop stops after exactly as many blocks as the file has |
| Detection.MatchesMembership | main.cpp:183-215 | a file is recorded for a test file iff it is listed, is not the test file, and the comparison reports it |
| Detection.FoundOnlyGrows | main.cpp:214 | the found-duplicates list after m turns is a prefix of the list after n ≥ m turns |
| Detection.SkippedTestAddsNothing | main.cpp:173-178 | the turn of a test file already among the found duplicates changes nothing |
| Detection.FoundMembership | main.cpp:167-217 | a path is among the found duplicates after n turns iff some earlier test file, not found before its turn, recorded it |
| Detection.EmptyFileIsFound | main.cpp:167-217 | every listed empty or unreadable file other than the first listed one ends up among the found duplicates |
| Detection.DuplicateFinder.constructor | main.cpp:165 | the found-duplicates list starts empty |
| Detection.DuplicateFinder.ExtendTestHashes | main.cpp:196-200 | reads and hashes the test file's next block and appends exactly its digest, keeping the cache invariant (each block hashed once, stream and buffer where those reads left them) |
| Detection.DuplicateFinder.HashSubBlock | main.cpp:194-200 | returns the digest of the sub file's next block; the cache grows to max(old length, index + 1) and holds the test file's digest at that index |
| Detection.DuplicateFinder.CompareStep | main.cpp:192-200 | one loop pass appends the sub file's block digest, extends the test cache by at most one entry, and evaluates the loop condition again |
| Detection.DuplicateFinder.CompareBlocks | main.cpp:191-209 | the loop ends at the sub file's end with its digests collected; `diffFound` iff some index has differing digests; the cache length is max(old length, the sub file's block count) |
| Detection.DuplicateFinder.CompareWith | main.cpp:187-209 | one comparison returns all the sub file's block digests (its block count of them); `diffFound` iff the sub file is not `ReportedDuplicate`; the old cache is a prefix of the new one |
| Detection.DuplicateFinder.OpenTest | main.cpp:169-171 | a test file gets a fresh stream and buffer and an empty cache |
| Detection.DuplicateFinder.CompareSub | main.cpp:183-215 | a sub file other than the test file is appended iff the comparison reports it; the cache reaches its block count |
| Detection.DuplicateFinder.CheckTestFile | main.cpp:168-216 | the test file is opened and its cache stays in step with its stream (each block read and hashed once); a test file already found changes nothing and hashes nothing (empty cache, no block read); otherwise its matches, in list order, are appended and exactly as many test blocks are hashed as the largest block count of a compared sub file |
| Detection.DuplicateFinder.Run | main.cpp:167-217 | the found duplicates equal `FoundAfter` over all listed files |
| Scanner.SizeBound | main.cpp:52 | the size bound is the signed minimum converted to an unsigned 64-bit value: below 2^64 and congruent to it modulo 2^64 |
| Scanner.ListedIff | main.cpp:26-57 | in a tree with unique names, a path is listed iff it lies under the directory and names a regular file that is admitted (non-empty mask, full match, size ≥ bound), is reached only through directories, lies directly in the directory unless level is 1, and has no excluded directory on the way |
| Scanner.FlatScan | main.cpp:40-44 | with level ≠ 1 every listed path is an entry of the scanned directory itself |
| Scanner.ExcludedSubtreeNotListed | main.cpp:39-44 | nothing below an excluded directory is listed |
| Scanner.EmptyMaskListsNothing | main.cpp:50 | with an empty file mask the scan lists nothing |
| Scanner.NegativeMinimumAdmitsNoFile | main.cpp:52 | a negative minimum size admits no file smaller than 2^63 bytes |
| Scanner.ScanDir | main.cpp:26-57 | `scanDir` appends exactly `Listed(dir, entries)` to the list, in enumeration order, keeping what the list held |
| Scanner.ScanAll | main.cpp:158-162 | the file list is the concatenation of the roots' scans, in order |
| Text.Trim | main.cpp:19-24 | the result is a slice of the input; everything before and after it is white space, and a non-empty result starts and ends with a non-space character |
| Text.TrimUnique | main.cpp:19-24 | the stripped slice is unique |
| Text.TrimIdempotent | main.cpp:19-24 | stripping a stripped string changes nothing |

## Left out

- Command-line parsing, help output and hash-type validation (lines 109-140): configuration glue. The model takes a block size of at least 1 (`Config.Valid`); with 0 the read loop of the source never ends.
- Splitting the comma-separated directory lists and `fs::canonical` (lines 142-157): scan roots and excluded directories are given as paths.
- The file system: directory iteration, `is_symlink`, `is_directory`, `file_size`, and errors while iterating or opening a directory (Boost throws) are not modelled. A directory is a list of entries in enumeration order, with unique names. A file's contents come from a map, and a path without an entry opens like an empty file.
- The regular expression engine (`boost::regex`, including its exception on a malformed mask) is an abstract match predicate.
- CRC32, MD5 and SHA1 and the hex formatting of their digests are library code. They are abstract functions of the bytes `process_bytes` reads.
- `Hashing.Processed`: when the block buffer is shorter than a pointer, `process_bytes` reads past its end (undefined behaviour in C++). The model takes those bytes from one fixed sequence (`Hasher.overrun`). In the source they are whatever memory follows the buffer and may differ from call to call.
- Progress output on `std::cout`.
- Variable-length stack buffers: their uninitialised contents are one configured byte sequence (`Config.uninit`), the same for every buffer. In the source they are whatever the stack holds.
- `Text.Trim` uses the "C" locale's `isspace`. `std::isspace` on a negative `char` (bytes ≥ 0x80) is undefined behaviour in C++ and is not modelled.
