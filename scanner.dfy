/**
 * `scanDir`: the walk that collects the files to compare. A directory is a
 * list of entries in the order its iterator enumerates them; symbolic links
 * are passed over, subdirectories are entered only when the scan level is 1
 * and they are not excluded, and a regular file is collected when the file
 * mask is non-empty, its name fully matches the mask and it is large enough.
 */
module Scanner {
  /** A file path, as the list of its components. */
  type Path = seq<string>

  datatype Option<T> = None | Some(value: T)

  /** A directory entry: its file name and what the name refers to. */
  datatype Entry = Entry(name: string, kind: Kind)

  datatype Kind =
    | Symlink
    | Directory(entries: seq<Entry>)
    | RegularFile(size: nat)
    | Other

  /** `regex_match(text, pattern)`: the text matches the whole regular
      expression. The regular expression engine is not part of this model. */
  type RegexMatch = (string, string) -> bool

  datatype ScanOptions = ScanOptions(
    level: int,
    excludeDirs: seq<Path>,
    fmask: string,
    regexMatch: RegexMatch,
    minFSize: int)

  /** 2^64: `file_size` is an unsigned 64-bit count. */
  const SizeRange: int := 0x1_0000_0000_0000_0000

  /** The bound `file_size(...) >= minFSize` compares with: the signed
      `minFSize` is converted to the unsigned type of `file_size`, so a
      negative bound wraps around to a huge one. */
  function SizeBound(minFSize: int): (bound: nat)
    requires -SizeRange < minFSize < SizeRange
    ensures bound < SizeRange
    ensures bound % SizeRange == minFSize % SizeRange
  {
    if minFSize >= 0 then minFSize else minFSize + SizeRange
  }

  predicate ValidOptions(opts: ScanOptions) {
    -SizeRange < opts.minFSize < SizeRange
  }

  /** A regular file named `name` of `size` bytes is collected. */
  predicate Admitted(opts: ScanOptions, name: string, size: nat)
    requires ValidOptions(opts)
  {
    && |opts.fmask| != 0
    && opts.regexMatch(name, opts.fmask)
    && size >= SizeBound(opts.minFSize)
  }

  /** The paths `scanDir(dir, ...)` appends, in order, for a directory whose
      entries are `entries`. */
  function Listed(dir: Path, entries: seq<Entry>, opts: ScanOptions): seq<Path>
    requires ValidOptions(opts)
    decreases entries, 1
  {
    if entries == [] then [] else Listed(dir, entries[..|entries| - 1], opts) + LastListed(dir, entries, opts)
  }

  /** What the last of `entries` contributes: a symbolic link nothing, a
      subdirectory what the scan of it collects, and a regular file its own
      path when it is admitted. */
  function LastListed(dir: Path, entries: seq<Entry>, opts: ScanOptions): seq<Path>
    requires ValidOptions(opts) && entries != []
    decreases entries, 0
  {
    var e := entries[|entries| - 1];
    var path := dir + [e.name];
    match e.kind
    case Directory(children) =>
      if opts.level == 1 && path !in opts.excludeDirs then Listed(path, children, opts) else []
    case RegularFile(size) =>
      if Admitted(opts, e.name, size) then [path] else []
    case _ => []
  }

  /** The entry that the relative path `rest` names inside a directory whose
      entries are `entries`, looked up component by component through
      subdirectories (never through a symbolic link). */
  function Lookup(entries: seq<Entry>, rest: seq<string>): Option<Kind>
    decreases entries
  {
    if entries == [] || rest == [] then None
    else
      var e := entries[|entries| - 1];
      if e.name != rest[0] then Lookup(entries[..|entries| - 1], rest)
      else if |rest| == 1 then Some(e.kind)
      else if e.kind.Directory? then Lookup(e.kind.entries, rest[1..])
      else None
  }

  /** No two entries of a directory, at any depth, share a name. */
  ghost predicate WellFormed(entries: seq<Entry>)
    decreases entries
  {
    && (forall i, j :: 0 <= i < j < |entries| ==> entries[i].name != entries[j].name)
    && (forall i :: 0 <= i < |entries| ==>
          entries[i].kind.Directory? ==> WellFormed(entries[i].kind.entries))
  }

  /** The path `dir + rest` names a regular file under `dir` that the scan
      collects: it is admitted, it lies directly in `dir` unless the level is
      1, and no directory on the way to it is excluded. */
  ghost predicate Collected(dir: Path, entries: seq<Entry>, rest: seq<string>, opts: ScanOptions)
    requires ValidOptions(opts)
  {
    && rest != []
    && Lookup(entries, rest).Some?
    && Lookup(entries, rest).value.RegularFile?
    && Admitted(opts, rest[|rest| - 1], Lookup(entries, rest).value.size)
    && (opts.level == 1 || |rest| == 1)
    && (forall k :: 1 <= k < |rest| ==> dir + rest[..k] !in opts.excludeDirs)
  }

  /** A name that no entry carries leads nowhere. */
  lemma {:induction false} LookupUnknownName(entries: seq<Entry>, rest: seq<string>)
    requires rest != [] && forall i :: 0 <= i < |entries| ==> entries[i].name != rest[0]
    ensures Lookup(entries, rest) == None
    decreases entries
  {
    if entries != [] {
      var init := entries[..|entries| - 1];
      assert forall i :: 0 <= i < |init| ==> init[i] == entries[i];
      LookupUnknownName(init, rest);
    }
  }

  /** In a well-formed tree, a path is listed exactly when it names a regular
      file the scan collects. */
  lemma {:induction false} ListedIff(dir: Path, entries: seq<Entry>, opts: ScanOptions, p: Path)
    requires ValidOptions(opts) && WellFormed(entries)
    ensures p in Listed(dir, entries, opts) <==>
            |p| > |dir| && p[..|dir|] == dir && Collected(dir, entries, p[|dir|..], opts)
    decreases entries
  {
    if entries == [] {
      return;
    }
    var init := entries[..|entries| - 1];
    var e := entries[|entries| - 1];
    var path := dir + [e.name];
    assert WellFormed(init) by {
      forall i | 0 <= i < |init| && init[i].kind.Directory?
        ensures WellFormed(init[i].kind.entries)
      {
        assert init[i] == entries[i];
      }
    }
    ListedIff(dir, init, opts, p);
    if |p| > |dir| && p[..|dir|] == dir {
      var rest := p[|dir|..];
      assert p == dir + rest;
      if rest[0] == e.name {
        // the last entry is the only one with this name
        assert forall i :: 0 <= i < |init| ==> init[i].name != rest[0] by {
          assert forall i :: 0 <= i < |init| ==> init[i] == entries[i];
        }
        LookupUnknownName(init, rest);
        LastEntryIff(dir, entries, opts, p);
      } else {
        assert Lookup(entries, rest) == Lookup(init, rest);
        assert Collected(dir, entries, rest, opts) == Collected(dir, init, rest, opts);
        LastEntryOthers(dir, entries, opts, p);
      }
    } else {
      LastEntryOthers(dir, entries, opts, p);
    }
  }

  /** The last entry contributes only paths under its own name. */
  lemma {:induction false} LastEntryOthers(dir: Path, entries: seq<Entry>, opts: ScanOptions, p: Path)
    requires ValidOptions(opts) && WellFormed(entries) && entries != []
    requires !(|p| > |dir| && p[..|dir|] == dir && p[|dir|] == entries[|entries| - 1].name)
    ensures p in Listed(dir, entries, opts) <==> p in Listed(dir, entries[..|entries| - 1], opts)
    decreases entries, 0
  {
    var e := entries[|entries| - 1];
    var path := dir + [e.name];
    if e.kind.Directory? && opts.level == 1 && path !in opts.excludeDirs {
      assert WellFormed(e.kind.entries);
      ListedIff(path, e.kind.entries, opts, p);
    }
  }

  /** A path under the name of the last entry is listed exactly when it is
      collected through that entry. */
  lemma {:induction false} LastEntryIff(dir: Path, entries: seq<Entry>, opts: ScanOptions, p: Path)
    requires ValidOptions(opts) && WellFormed(entries) && entries != []
    requires |p| > |dir| && p[..|dir|] == dir && p[|dir|] == entries[|entries| - 1].name
    requires !Collected(dir, entries[..|entries| - 1], p[|dir|..], opts)
    ensures p in Listed(dir, entries, opts) <==> Collected(dir, entries, p[|dir|..], opts)
    decreases entries, 0
  {
    var init := entries[..|entries| - 1];
    var e := entries[|entries| - 1];
    var path := dir + [e.name];
    var rest := p[|dir|..];
    ListedIff(dir, init, opts, p);
    assert p !in Listed(dir, init, opts);
    match e.kind
    case Directory(children) =>
      assert WellFormed(children);
      ListedIff(path, children, opts, p);
      if |rest| == 1 {
        assert !Collected(dir, entries, rest, opts);
      } else {
        var rest' := p[|path|..];
        assert rest' == rest[1..];
        assert Lookup(entries, rest) == Lookup(children, rest');
        assert p[..|path|] == path by {
          assert p[..|dir|] == dir;
        }
        if opts.level == 1 && path !in opts.excludeDirs {
          assert rest[..1] == [e.name];
          ExcludedIff(dir, path, rest, rest', opts);
        } else if opts.level == 1 {
          assert rest[..1] == [e.name];
          assert !Collected(dir, entries, rest, opts);
        }
      }
    case RegularFile(size) =>
      if |rest| == 1 {
        assert rest == [e.name];
        assert p == path;
      } else {
        assert p != path;
      }
    case _ =>
  }

  /** The directories on the way to `dir + rest` are those on the way to
      `path + rest'`, together with `path` itself. */
  lemma ExcludedIff(dir: Path, path: Path, rest: seq<string>, rest': seq<string>, opts: ScanOptions)
    requires |rest| >= 2 && path == dir + rest[..1] && rest' == rest[1..]
    requires path !in opts.excludeDirs
    ensures (forall k :: 1 <= k < |rest| ==> dir + rest[..k] !in opts.excludeDirs) <==>
            (forall k :: 1 <= k < |rest'| ==> path + rest'[..k] !in opts.excludeDirs)
  {
    forall k | 1 <= k < |rest'|
      ensures path + rest'[..k] == dir + rest[..k + 1]
    {
      assert rest[..k + 1] == rest[..1] + rest'[..k];
    }
    if forall k :: 1 <= k < |rest'| ==> path + rest'[..k] !in opts.excludeDirs {
      forall k | 1 <= k < |rest|
        ensures dir + rest[..k] !in opts.excludeDirs
      {
        if k > 1 {
          assert path + rest'[..k - 1] == dir + rest[..k];
        }
      }
    }
  }

  /** When the level is not 1 the scan does not descend: every listed path
      names an entry of `dir` itself. */
  lemma FlatScan(dir: Path, entries: seq<Entry>, opts: ScanOptions, p: Path)
    requires ValidOptions(opts) && WellFormed(entries) && opts.level != 1
    requires p in Listed(dir, entries, opts)
    ensures |p| == |dir| + 1 && p[..|dir|] == dir
  {
    ListedIff(dir, entries, opts, p);
  }

  /** Nothing below an excluded directory is listed. */
  lemma ExcludedSubtreeNotListed(dir: Path, entries: seq<Entry>, opts: ScanOptions, excluded: Path, p: Path)
    requires ValidOptions(opts) && WellFormed(entries)
    requires excluded in opts.excludeDirs && |dir| < |excluded| < |p| && p[..|excluded|] == excluded
    ensures p !in Listed(dir, entries, opts)
  {
    var rest := p[|dir|..];
    var k := |excluded| - |dir|;
    if p[..|dir|] == dir {
      assert dir + rest[..k] == excluded by {
        assert rest[..k] == p[|dir|..|excluded|];
        assert p[..|excluded|] == p[..|dir|] + p[|dir|..|excluded|];
      }
      assert !Collected(dir, entries, rest, opts);
    }
    ListedIff(dir, entries, opts, p);
  }

  /** With an empty file mask nothing is collected. */
  lemma {:induction false} EmptyMaskListsNothing(dir: Path, entries: seq<Entry>, opts: ScanOptions)
    requires ValidOptions(opts) && opts.fmask == ""
    ensures Listed(dir, entries, opts) == []
    decreases entries
  {
    if entries != [] {
      EmptyMaskListsNothing(dir, entries[..|entries| - 1], opts);
      var e := entries[|entries| - 1];
      if e.kind.Directory? {
        EmptyMaskListsNothing(dir + [e.name], e.kind.entries, opts);
      }
    }
  }

  /** A negative minimum size wraps around to at least 2^63, so no file below
      that size is collected. */
  lemma NegativeMinimumAdmitsNoFile(opts: ScanOptions, name: string, size: nat)
    requires ValidOptions(opts) && -0x8000_0000_0000_0000 <= opts.minFSize < 0
    requires size < 0x8000_0000_0000_0000
    ensures !Admitted(opts, name, size)
  {
  }

  /** `scanDir(dir, fileList, ...)` on a directory whose entries are
      `entries`: the collected paths are appended to `fileList` in the order
      the entries are enumerated, subdirectories in place. */
  method ScanDir(dir: Path, entries: seq<Entry>, opts: ScanOptions, fileList: seq<Path>)
    returns (result: seq<Path>)
    requires ValidOptions(opts)
    ensures result == fileList + Listed(dir, entries, opts)
    decreases entries
  {
    result := fileList;
    var i := 0;
    while i < |entries|
      invariant i <= |entries|
      invariant result == fileList + Listed(dir, entries[..i], opts)
    {
      var e := entries[i];
      assert entries[..i + 1][..i] == entries[..i];
      assert Listed(dir, entries[..i + 1], opts) == Listed(dir, entries[..i], opts) + LastListed(dir, entries[..i + 1], opts);
      if e.kind.Symlink? {
        i := i + 1;
        continue;
      }
      var path := dir + [e.name];
      var foundExcluded := path in opts.excludeDirs;
      if opts.level == 1 && e.kind.Directory? {
        if !foundExcluded {
          result := ScanDir(path, e.kind.entries, opts, result);
        }
      }
      if e.kind.RegularFile? {
        if |opts.fmask| != 0 && opts.regexMatch(e.name, opts.fmask) && e.kind.size >= SizeBound(opts.minFSize) {
          result := result + [path];
        }
      }
      i := i + 1;
    }
    assert entries[..i] == entries;
  }

  /** The directories to scan, each with its entries. */
  datatype Root = Root(path: Path, entries: seq<Entry>)

  /** The paths the scans of `roots`, one after the other, collect. */
  function ListedAll(roots: seq<Root>, opts: ScanOptions): seq<Path>
    requires ValidOptions(opts)
  {
    if roots == [] then []
    else
      var last := roots[|roots| - 1];
      ListedAll(roots[..|roots| - 1], opts) + Listed(last.path, last.entries, opts)
  }

  /** `main`, main.cpp lines 158-162: every scan directory in turn is scanned into
      the one list of files to compare. */
  method ScanAll(roots: seq<Root>, opts: ScanOptions) returns (fullScanFileList: seq<Path>)
    requires ValidOptions(opts)
    ensures fullScanFileList == ListedAll(roots, opts)
  {
    fullScanFileList := [];
    var i := 0;
    while i < |roots|
      invariant i <= |roots|
      invariant fullScanFileList == ListedAll(roots[..i], opts)
    {
      assert roots[..i + 1][..i] == roots[..i];
      fullScanFileList := ScanDir(roots[i].path, roots[i].entries, opts, fullScanFileList);
      i := i + 1;
    }
    assert roots[..i] == roots;
  }
}
