/**
 * The duplicate detection of `main`: every listed file in turn is a test file,
 * unless it was already recorded as a duplicate; it is compared with every other
 * listed file (a sub file) block by block, and a sub file whose blocks show no
 * differing digest is recorded. The test file's block digests are cached and
 * extended only as far as the longest sub file so far needs.
 */
module Detection {
  import opened Hashing
  import opened Streams
  import opened Blocks
  import opened BlockReads
  import opened Scanner

  function Max(a: int, b: int): int {
    if a >= b then a else b
  }

  /** The bytes a stream opened on `p` delivers: a path without a readable file
      behind it opens a stream that fails at its first read, like an empty file. */
  function Contents(disk: map<Path, seq<Byte>>, p: Path): seq<Byte> {
    if p in disk then disk[p] else []
  }

  /** The outcome of comparing a test file with a sub file: true when the sub
      file is recorded as a duplicate of the test file. */
  type Verdict<!P> = (P, P) -> bool

  /** The verdict of the block-by-block comparison on the files of `disk`. */
  function BlockVerdict(cfg: Config, disk: map<Path, seq<Byte>>): Verdict<Path>
    requires cfg.Valid()
  {
    (test: Path, sub: Path) => ReportedDuplicate(cfg, Contents(disk, test), Contents(disk, sub))
  }

  /** The sub files, among `subs` and in their order, that the comparisons for
      `test` record as its duplicates. */
  function Matches<P(==)>(dup: Verdict<P>, subs: seq<P>, test: P): seq<P> {
    if subs == [] then []
    else
      var last := subs[|subs| - 1];
      Matches(dup, subs[..|subs| - 1], test) + if last != test && dup(test, last) then [last] else []
  }

  /** The largest block count of a sub file among `subs` compared with `test`. */
  function MaxBlocks(cfg: Config, disk: map<Path, seq<Byte>>, subs: seq<Path>, test: Path): nat
    requires cfg.Valid()
  {
    if subs == [] then 0
    else
      var last := subs[|subs| - 1];
      Max(MaxBlocks(cfg, disk, subs[..|subs| - 1], test),
          if last != test then NumBlocks(|Contents(disk, last)|, cfg.blockSize) else 0)
  }

  /** Comparing `test` with one more listed file appends that file when it
      is recorded. */
  lemma MatchesStep<P>(dup: Verdict<P>, files: seq<P>, j: nat, test: P)
    requires j < |files|
    ensures Matches(dup, files[..j + 1], test)
            == Matches(dup, files[..j], test) + if files[j] != test && dup(test, files[j]) then [files[j]] else []
  {
    assert files[..j + 1][..j] == files[..j];
  }

  /** One more listed file raises the largest block count to its own, unless
      it is the test file. */
  lemma MaxBlocksStep(cfg: Config, disk: map<Path, seq<Byte>>, files: seq<Path>, j: nat, test: Path)
    requires cfg.Valid() && j < |files|
    ensures MaxBlocks(cfg, disk, files[..j + 1], test)
            == Max(MaxBlocks(cfg, disk, files[..j], test),
                   if files[j] != test then NumBlocks(|Contents(disk, files[j])|, cfg.blockSize) else 0)
  {
    assert files[..j + 1][..j] == files[..j];
  }

  /** The list of found duplicates once the first `n` listed files have been
      taken as test files. */
  function FoundAfter<P(==)>(dup: Verdict<P>, files: seq<P>, n: nat): seq<P>
    requires n <= |files|
    decreases 2 * n
  {
    if n == 0 then [] else AfterTurn(dup, files, n - 1)
  }

  /** The turn of `files[k]`: skipped when it is already among the found
      duplicates, otherwise its matches are appended. */
  function AfterTurn<P(==)>(dup: Verdict<P>, files: seq<P>, k: nat): seq<P>
    requires k < |files|
    decreases 2 * k + 1
  {
    var found := FoundAfter(dup, files, k);
    if files[k] in found then found else found + Matches(dup, files, files[k])
  }

  /** The listed file `files[i]` was taken as a test file and its comparison
      with `p` recorded `p`. */
  ghost predicate RecordedBy<P>(dup: Verdict<P>, files: seq<P>, i: nat, p: P) {
    && i < |files|
    && files[i] !in FoundAfter(dup, files, i)
    && p in files && p != files[i]
    && dup(files[i], p)
  }

  /** A sub file is recorded for a test file exactly when it is listed, is not
      the test file itself, and the comparison says so. */
  lemma {:induction false} MatchesMembership<P>(dup: Verdict<P>, subs: seq<P>, test: P, p: P)
    ensures p in Matches(dup, subs, test) <==> p in subs && p != test && dup(test, p)
  {
    if subs != [] {
      var init := subs[..|subs| - 1];
      MatchesMembership(dup, init, test, p);
      assert subs == init + [subs[|subs| - 1]];
    }
  }

  /** The list of found duplicates only grows: each test file appends to it. */
  lemma {:induction false} FoundOnlyGrows<P>(dup: Verdict<P>, files: seq<P>, m: nat, n: nat)
    requires m <= n <= |files|
    ensures FoundAfter(dup, files, m) <= FoundAfter(dup, files, n)
    decreases n
  {
    if m < n {
      FoundOnlyGrows(dup, files, m, n - 1);
      var before := FoundAfter(dup, files, n - 1);
      var after := AfterTurn(dup, files, n - 1);
      assert after[..|before|] == before;
    }
  }

  /** A test file that is already among the found duplicates is skipped: it
      adds nothing. */
  lemma SkippedTestAddsNothing<P>(dup: Verdict<P>, files: seq<P>, n: nat)
    requires n < |files| && files[n] in FoundAfter(dup, files, n)
    ensures FoundAfter(dup, files, n + 1) == FoundAfter(dup, files, n)
  {
  }

  /** A path is among the found duplicates exactly when some earlier listed
      file, not itself found before its turn, recorded it. */
  lemma {:induction false} FoundMembership<P>(dup: Verdict<P>, files: seq<P>, n: nat, p: P)
    requires n <= |files|
    ensures p in FoundAfter(dup, files, n) <==> exists i :: 0 <= i < n && RecordedBy(dup, files, i, p)
  {
    if n > 0 {
      FoundMembership(dup, files, n - 1, p);
      var before := FoundAfter(dup, files, n - 1);
      var test := files[n - 1];
      if p in before {
        FoundOnlyGrows(dup, files, n - 1, n);
      } else if test in before {
        assert !RecordedBy(dup, files, n - 1, p);
      } else {
        MatchesMembership(dup, files, test, p);
        assert p in Matches(dup, files, test) <==> RecordedBy(dup, files, n - 1, p);
      }
    }
  }

  /** The first listed file is always a test file, so every other listed file
      that is empty (or cannot be opened) ends up among the found duplicates. */
  lemma EmptyFileIsFound(cfg: Config, disk: map<Path, seq<Byte>>, files: seq<Path>, p: Path)
    requires cfg.Valid() && p in files && files[0] != p
    requires Contents(disk, p) == []
    ensures p in FoundAfter(BlockVerdict(cfg, disk), files, |files|)
  {
    var dup := BlockVerdict(cfg, disk);
    EmptyIsDuplicate(cfg, Contents(disk, files[0]));
    assert RecordedBy(dup, files, 0, p);
    FoundMembership(dup, files, |files|, p);
  }

  class DuplicateFinder {
    const cfg: Config
    /** the bytes of every file the run can open */
    const disk: map<Path, seq<Byte>>
    var foundDuplicates: seq<Path>

    // the current test file: its digest cache, stream and block buffer
    var testFileHashes: seq<Digest>
    var testStream: InputStream
    var testBuffer: array<Byte>
    ghost var testData: seq<Byte>

    /** The test file's cache holds the digests of its first blocks, and its
        stream has read exactly those blocks, each once, leaving the buffer as
        their reads and paddings did. */
    ghost predicate TestValid()
      reads this, testStream, testBuffer
    {
      CacheAt(cfg, testStream, testBuffer, testData, testFileHashes)
    }

    constructor (cfg: Config, disk: map<Path, seq<Byte>>)
      requires cfg.Valid()
      ensures this.cfg == cfg && this.disk == disk && foundDuplicates == []
    {
      this.cfg := cfg;
      this.disk := disk;
      foundDuplicates := [];
      testFileHashes := [];
      testStream := new InputStream.Open([]);
      testBuffer := new Byte[cfg.blockSize];
      testData := [];
    }

    /** main.cpp, lines 196-200: read and hash the test file's next block and append its
        digest to the cache. */
    method ExtendTestHashes()
      requires TestValid()
      modifies this`testFileHashes, testStream, testBuffer
      ensures TestValid()
      ensures testFileHashes == old(testFileHashes) + [BlockDigest(cfg, testData, |old(testFileHashes)|)]
    {
      ghost var k := |testFileHashes|;
      var _ := ReadBlock(cfg, testStream, testBuffer, testData, k);
      var digest := HashBlock(cfg, testStream, testBuffer, testData, k);
      testFileHashes := testFileHashes + [digest];
    }

    /** main.cpp, lines 194-200: hash the sub file's next block, then bring the test
        file's cache up to the same length when the sub file is ahead of it. */
    method HashSubBlock(stream: InputStream, buffer: array<Byte>, ghost data: seq<Byte>, hashes: seq<Digest>)
      returns (digest: Digest)
      requires TestValid() && Scanning(cfg, stream, buffer, data, hashes, true)
      requires stream != testStream && buffer != testBuffer
      requires |hashes| <= |testFileHashes|
      modifies this`testFileHashes, testStream, testBuffer, buffer
      ensures TestValid() && BlocksDone(cfg, stream, buffer, data, |hashes| + 1)
      ensures digest == BlockDigest(cfg, data, |hashes|)
      ensures |testFileHashes| == Max(|old(testFileHashes)|, |hashes| + 1)
      ensures testFileHashes[|hashes|] == BlockDigest(cfg, testData, |hashes|)
    {
      digest := HashBlock(cfg, stream, buffer, data, |hashes|);
      if |hashes| + 1 > |testFileHashes| {
        ExtendTestHashes();
      }
      BlockDigestsAt(cfg, testData, |testFileHashes|, |hashes|);
    }

    /** One pass of the inner loop (main.cpp, lines 192-200): hash the sub file's block,
        extend the test file's cache when the sub file is ahead of it, and
        evaluate the loop condition again with the sub file's next read. */
    method CompareStep(stream: InputStream, buffer: array<Byte>, ghost data: seq<Byte>, hashes: seq<Digest>)
      returns (digest: Digest, more: bool)
      // the test file's cache is in step with its stream, and the sub file's
      // next block has been read
      requires TestValid() == true && Scanning(cfg, stream, buffer, data, hashes, true) == true
      requires stream != testStream && buffer != testBuffer
      requires |hashes| <= |testFileHashes|
      modifies this`testFileHashes, testStream, testBuffer, stream, buffer
      ensures TestValid() && Scanning(cfg, stream, buffer, data, hashes + [digest], more)
      ensures digest == BlockDigest(cfg, data, |hashes|)
      ensures |testFileHashes| == Max(|old(testFileHashes)|, |hashes| + 1)
      ensures testFileHashes[|hashes|] == BlockDigest(cfg, testData, |hashes|)
    {
      digest := HashSubBlock(stream, buffer, data, hashes);
      more := ContinueScan(cfg, stream, buffer, data, hashes, digest);
    }

    /** The inner loop of one comparison (main.cpp, lines 191-209): read the sub file
        block by block to its end, hash each block, extend the test file's
        cache by one block whenever the sub file is ahead of it, and note any
        index whose digests differ. */
    method CompareBlocks(stream: InputStream, buffer: array<Byte>, ghost data: seq<Byte>, more0: bool)
      returns (diffFound: bool, subTestFileHashes: seq<Digest>)
      requires TestValid() && Scanning(cfg, stream, buffer, data, [], more0)
      requires stream != testStream && buffer != testBuffer
      modifies this`testFileHashes, testStream, testBuffer, stream, buffer
      // the test file's cache is in step with its stream, and the sub file is
      // read to its end with every block hashed
      ensures TestValid() == true && Scanning(cfg, stream, buffer, data, subTestFileHashes, false) == true
      ensures diffFound <==> !DigestsAgree(cfg, testData, data, |subTestFileHashes|)
      ensures |testFileHashes| == Max(|old(testFileHashes)|, |subTestFileHashes|)
    {
      var more := more0;
      diffFound := false;
      subTestFileHashes := [];
      while more
        // the sub file's blocks so far are hashed and its next read is done
        invariant Scanning(cfg, stream, buffer, data, subTestFileHashes, more) == true
        invariant TestValid() == true
        invariant |testFileHashes| == Max(|old(testFileHashes)|, |subTestFileHashes|)
        invariant diffFound <==> !DigestsAgree(cfg, testData, data, |subTestFileHashes|)
        decreases |data| - Offset(|subTestFileHashes|, cfg.blockSize)
      {
        var h;
        h, more := CompareStep(stream, buffer, data, subTestFileHashes);
        if h != testFileHashes[|subTestFileHashes|] {
          diffFound := true;
        }
        OffsetMonotone(|subTestFileHashes|, |subTestFileHashes| + 1, cfg.blockSize);
        subTestFileHashes := subTestFileHashes + [h];
      }
    }

    /** One comparison of the inner loop (main.cpp, lines 187-209): open the sub file and
        compare its blocks with the test file's. The digests of the sub file's
        blocks are returned; the verdict is that no block index showed
        differing digests. */
    method CompareWith(subTestFile: Path) returns (diffFound: bool, subTestFileHashes: seq<Digest>)
      requires TestValid()
      modifies this`testFileHashes, testStream, testBuffer
      ensures TestValid()
      ensures var subData := Contents(disk, subTestFile);
              && |subTestFileHashes| == NumBlocks(|subData|, cfg.blockSize)
              && subTestFileHashes == BlockDigests(cfg, subData, |subTestFileHashes|)
              && (diffFound <==> !ReportedDuplicate(cfg, testData, subData))
      ensures old(testFileHashes) <= testFileHashes
      ensures |testFileHashes| == Max(|old(testFileHashes)|, |subTestFileHashes|)
    {
      var subData := Contents(disk, subTestFile);
      var subTestFileStream, subTestFileBuffer, more := OpenBlocks(cfg, subData);
      diffFound, subTestFileHashes := CompareBlocks(subTestFileStream, subTestFileBuffer, subData, more);
      ScanComplete(cfg, subTestFileStream, subTestFileBuffer, subData, subTestFileHashes);
      BlockDigestsPrefix(cfg, testData, |old(testFileHashes)|, |testFileHashes|);
    }

    /** main.cpp, lines 169-171: a new test file gets its own stream, its own block
        buffer and an empty digest cache. */
    method OpenTest(testFile: Path)
      requires cfg.Valid()
      modifies this`testFileHashes, this`testStream, this`testBuffer, this`testData
      ensures TestValid() && testFileHashes == []
      ensures testData == Contents(disk, testFile)
      ensures fresh(testStream) && fresh(testBuffer)
    {
      var data := Contents(disk, testFile);
      testData := data;
      testStream, testBuffer := OpenFile(cfg, data);
      testFileHashes := [];
    }

    /** One pass of the loop over sub files (main.cpp, lines 183-215): a sub file other
        than the test file is compared with it and appended to the found
        duplicates when no block index showed differing digests. */
    method CompareSub(testFile: Path, subTestFile: Path)
      requires TestValid() && testData == Contents(disk, testFile)
      modifies this`testFileHashes, testStream, testBuffer, this`foundDuplicates
      ensures TestValid()
      ensures foundDuplicates == old(foundDuplicates) +
                if subTestFile != testFile && BlockVerdict(cfg, disk)(testFile, subTestFile) then [subTestFile] else []
      ensures |testFileHashes| == Max(|old(testFileHashes)|,
                if subTestFile != testFile then NumBlocks(|Contents(disk, subTestFile)|, cfg.blockSize) else 0)
    {
      if testFile != subTestFile {
        var diffFound, _ := CompareWith(subTestFile);
        if !diffFound {
          foundDuplicates := foundDuplicates + [subTestFile];
        }
      }
    }

    /** The turn of one test file (main.cpp, lines 168-216): its stream is opened, then
        it is skipped when it is already among the found duplicates; otherwise
        every other listed file is compared with it, in list order, and those
        reported as duplicates are appended. The test file's cache ends as long
        as the longest compared sub file needs. */
    method CheckTestFile(files: seq<Path>, testFile: Path)
      requires cfg.Valid()
      modifies this`testFileHashes, this`testStream, this`testBuffer, this`testData,
        this`foundDuplicates
      ensures TestValid() && testData == Contents(disk, testFile)
      ensures testFile in old(foundDuplicates) ==> foundDuplicates == old(foundDuplicates) && testFileHashes == []
      ensures testFile !in old(foundDuplicates) ==>
                && foundDuplicates == old(foundDuplicates) + Matches(BlockVerdict(cfg, disk), files, testFile)
                && |testFileHashes| == MaxBlocks(cfg, disk, files, testFile)
    {
      OpenTest(testFile);
      if testFile in foundDuplicates {
        return;
      }
      ghost var dup := BlockVerdict(cfg, disk);
      var j := 0;
      while j < |files|
        invariant j <= |files|
        invariant TestValid() == true && testData == Contents(disk, testFile)
        invariant fresh(testStream) && fresh(testBuffer)
        invariant foundDuplicates == old(foundDuplicates) + Matches(dup, files[..j], testFile)
        invariant |testFileHashes| == MaxBlocks(cfg, disk, files[..j], testFile)
      {
        MatchesStep(dup, files, j, testFile);
        MaxBlocksStep(cfg, disk, files, j, testFile);
        CompareSub(testFile, files[j]);
        j := j + 1;
      }
      assert files[..j] == files;
    }

    /** The outer loop of `main` (main.cpp, lines 167-217): every listed file in turn
        takes its turn as the test file. */
    method Run(files: seq<Path>)
      requires cfg.Valid() && foundDuplicates == []
      modifies this`testFileHashes, this`testStream, this`testBuffer, this`testData,
        this`foundDuplicates
      ensures foundDuplicates == FoundAfter(BlockVerdict(cfg, disk), files, |files|)
    {
      var i := 0;
      while i < |files|
        invariant i <= |files|
        invariant foundDuplicates == FoundAfter(BlockVerdict(cfg, disk), files, i)
      {
        CheckTestFile(files, files[i]);
        i := i + 1;
      }
    }
  }
}
