/**
 * `collect_files`: a top-down walk of the source directory that drops every
 * excluded sub-directory before descending into it and keeps every file that
 * is not excluded.  Every test is made relative to the source directory; the
 * source directory itself is never tested.
 */
module Collect {
  import opened Wrappers
  import opened Paths
  import opened Exclude

  /**
   * A directory tree as the walk sees it; children are in listing order.  A
   * `File` is any entry that is not a directory (a regular file, a FIFO, a
   * socket, a device node), since the walk lists all of them among the files.
   */
  datatype Entry = File(name: string) | Dir(name: string, children: seq<Entry>)

  datatype CollectError = NotADirectory(path: Path)

  /** Every name in the tree is a name a directory listing can hold. */
  predicate WellFormed(e: Entry)
    decreases e
  {
    ValidSegment(e.name) && (e.Dir? ==> AllWellFormed(e.children))
  }

  predicate AllWellFormed(entries: seq<Entry>)
    decreases entries
  {
    forall k | 0 <= k < |entries| :: WellFormed(entries[k])
  }

  /** The files kept below entry `e`, which sits in directory `parent`. */
  function Kept(e: Entry, parent: Path, base: Path, patterns: seq<string>): set<Path>
    decreases e
  {
    match e
    case File(n) =>
      if Excluded(parent + [n], base, false, patterns) then {} else {parent + [n]}
    case Dir(n, children) =>
      if Excluded(parent + [n], base, true, patterns) then {}
      else KeptAll(children, parent + [n], base, patterns)
  }

  /** The files kept below the entries of directory `dir`. */
  function KeptAll(entries: seq<Entry>, dir: Path, base: Path, patterns: seq<string>): set<Path>
    decreases entries
  {
    if entries == [] then {}
    else Kept(entries[0], dir, base, patterns) + KeptAll(entries[1..], dir, base, patterns)
  }

  /** The set `collect_files` returns for a source directory with these children. */
  function Collected(children: seq<Entry>, sourceDir: Path, patterns: seq<string>): set<Path>
  {
    KeptAll(children, sourceDir, sourceDir, patterns)
  }

  /** Entry `e` holds a non-directory entry at `rel`, whose first segment is `e`'s own name. */
  ghost predicate HasFile(e: Entry, rel: seq<string>)
    decreases e
  {
    && |rel| > 0 && rel[0] == e.name
    && match e
       case File(_) => |rel| == 1
       case Dir(_, children) => FileAt(children, rel[1..])
  }

  /** The entries of a directory hold a non-directory entry at relative path `rel`. */
  ghost predicate FileAt(entries: seq<Entry>, rel: seq<string>)
    decreases entries
  {
    exists k | 0 <= k < |entries| :: HasFile(entries[k], rel)
  }

  /** No directory of `f` strictly below its first `depth` segments is excluded. */
  ghost predicate NoExcludedDirBetween(f: Path, depth: nat, base: Path, patterns: seq<string>)
  {
    forall k | depth < k < |f| :: !Excluded(f[..k], base, true, patterns)
  }

  /** What the walk keeps, stated without the walk: see `CollectedIff`. */
  ghost predicate Admitted(f: Path, dir: Path, entries: seq<Entry>, base: Path, patterns: seq<string>)
  {
    && |f| > |dir| && f[..|dir|] == dir
    && FileAt(entries, f[|dir|..])
    && !Excluded(f, base, false, patterns)
    && NoExcludedDirBetween(f, |dir|, base, patterns)
  }

  lemma {:induction false} KeptAllMembers(entries: seq<Entry>, dir: Path, base: Path, patterns: seq<string>, f: Path)
    ensures f in KeptAll(entries, dir, base, patterns) <==>
      exists k | 0 <= k < |entries| :: f in Kept(entries[k], dir, base, patterns)
    decreases entries
  {
    if entries != [] {
      KeptAllMembers(entries[1..], dir, base, patterns, f);
      if exists k | 0 <= k < |entries| :: f in Kept(entries[k], dir, base, patterns) {
        var k :| 0 <= k < |entries| && f in Kept(entries[k], dir, base, patterns);
        if k > 0 {
          assert entries[1..][k - 1] == entries[k];
        }
      }
      if exists k | 0 <= k < |entries[1..]| :: f in Kept(entries[1..][k], dir, base, patterns) {
        var k :| 0 <= k < |entries[1..]| && f in Kept(entries[1..][k], dir, base, patterns);
        assert entries[1..][k] == entries[k + 1];
      }
    }
  }

  /** Peeling the first directory off the ones between. */
  lemma NoExcludedDirStep(f: Path, depth: nat, base: Path, patterns: seq<string>)
    requires depth + 1 < |f|
    ensures NoExcludedDirBetween(f, depth, base, patterns) <==>
      !Excluded(f[..depth + 1], base, true, patterns) && NoExcludedDirBetween(f, depth + 1, base, patterns)
  {
  }

  lemma {:induction false} KeptIff(e: Entry, parent: Path, base: Path, patterns: seq<string>, f: Path)
    ensures f in Kept(e, parent, base, patterns) <==>
      && |f| > |parent| && f[..|parent|] == parent
      && HasFile(e, f[|parent|..])
      && !Excluded(f, base, false, patterns)
      && NoExcludedDirBetween(f, |parent|, base, patterns)
    decreases e, 1
  {
    var d := |parent|;
    match e
    case File(n) =>
      if |f| > d && f[..d] == parent && HasFile(e, f[d..]) {
        assert f == f[..d] + f[d..];
        assert f[d..] == [n];
      }
    case Dir(n, children) =>
      KeptDirIff(n, children, parent, base, patterns, f);
  }

  lemma {:induction false} KeptDirIff(n: string, children: seq<Entry>, parent: Path, base: Path, patterns: seq<string>, f: Path)
    ensures f in Kept(Dir(n, children), parent, base, patterns) <==>
      && |f| > |parent| && f[..|parent|] == parent
      && HasFile(Dir(n, children), f[|parent|..])
      && !Excluded(f, base, false, patterns)
      && NoExcludedDirBetween(f, |parent|, base, patterns)
    decreases Dir(n, children), 0
  {
    var d := |parent|;
    var here := parent + [n];
    var e := Dir(n, children);
    KeptAllIff(children, here, base, patterns, f);
    if && |f| > d && f[..d] == parent
       && HasFile(e, f[d..])
       && !Excluded(f, base, false, patterns)
       && NoExcludedDirBetween(f, d, base, patterns)
    {
      var rel := f[d..];
      assert rel[1..] == f[d + 1..];
      assert FileAt(children, rel[1..]);
      var k :| 0 <= k < |children| && HasFile(children[k], rel[1..]);
      assert |f| > d + 1;
      assert f[..d + 1] == here;
      NoExcludedDirStep(f, d, base, patterns);
      assert Admitted(f, here, children, base, patterns);
    }
    if f in Kept(e, parent, base, patterns) {
      assert !Excluded(here, base, true, patterns);
      assert Admitted(f, here, children, base, patterns);
      assert f[..d] == parent;
      assert f[d..][0] == n;
      assert f[d..][1..] == f[d + 1..];
      NoExcludedDirStep(f, d, base, patterns);
    }
  }

  lemma {:induction false} KeptAllIff(entries: seq<Entry>, dir: Path, base: Path, patterns: seq<string>, f: Path)
    ensures f in KeptAll(entries, dir, base, patterns) <==> Admitted(f, dir, entries, base, patterns)
    decreases entries, 2
  {
    KeptAllMembers(entries, dir, base, patterns, f);
    if f in KeptAll(entries, dir, base, patterns) {
      var k :| 0 <= k < |entries| && f in Kept(entries[k], dir, base, patterns);
      KeptIff(entries[k], dir, base, patterns, f);
    }
    if Admitted(f, dir, entries, base, patterns) {
      var k :| 0 <= k < |entries| && HasFile(entries[k], f[|dir|..]);
      KeptIff(entries[k], dir, base, patterns, f);
    }
  }

  /**
   * The collected set, without the walk: `f` is collected exactly when it is
   * a non-directory entry below the source directory, is not itself excluded, and no
   * directory strictly between the source directory and `f` is excluded.
   */
  lemma CollectedIff(children: seq<Entry>, sourceDir: Path, patterns: seq<string>, f: Path)
    ensures f in Collected(children, sourceDir, patterns) <==> Admitted(f, sourceDir, children, sourceDir, patterns)
  {
    KeptAllIff(children, sourceDir, sourceDir, patterns, f);
  }

  /** Pruning: nothing below an excluded directory is collected, whatever the files' own names. */
  lemma PrunedSubtree(children: seq<Entry>, sourceDir: Path, patterns: seq<string>, f: Path, depth: nat)
    ensures f in Collected(children, sourceDir, patterns) && |sourceDir| < depth < |f| ==>
      !Excluded(f[..depth], sourceDir, true, patterns)
  {
    CollectedIff(children, sourceDir, patterns, f);
  }

  /** With no patterns every non-directory entry of the tree is collected. */
  lemma EverythingWithoutPatterns(children: seq<Entry>, sourceDir: Path, rel: seq<string>)
    requires FileAt(children, rel)
    ensures sourceDir + rel in Collected(children, sourceDir, [])
  {
    var f := sourceDir + rel;
    assert f[..|sourceDir|] == sourceDir;
    assert f[|sourceDir|..] == rel;
    assert |rel| > 0;
    CollectedIff(children, sourceDir, [], f);
  }

  lemma {:induction false} HasFileValid(e: Entry, rel: seq<string>)
    requires WellFormed(e) && HasFile(e, rel)
    ensures ValidPath(rel)
    decreases e
  {
    match e
    case File(_) =>
    case Dir(_, children) =>
      var k :| 0 <= k < |children| && HasFile(children[k], rel[1..]);
      HasFileValid(children[k], rel[1..]);
      forall i | 0 <= i < |rel| ensures ValidSegment(rel[i]) {
        if i > 0 {
          assert rel[i] == rel[1..][i - 1];
        }
      }
  }

  /** In a well-formed tree every collected file lies strictly below the source directory, with valid names. */
  lemma CollectedBelowSource(children: seq<Entry>, sourceDir: Path, patterns: seq<string>, f: Path)
    requires AllWellFormed(children)
    requires f in Collected(children, sourceDir, patterns)
    ensures |f| > |sourceDir| && f[..|sourceDir|] == sourceDir
    ensures f[|sourceDir|..] != [] && ValidPath(f[|sourceDir|..])
    ensures !Excluded(f, sourceDir, false, patterns)
  {
    CollectedIff(children, sourceDir, patterns, f);
    var rel := f[|sourceDir|..];
    var k :| 0 <= k < |children| && HasFile(children[k], rel);
    HasFileValid(children[k], rel);
  }

  // Measures for the walk's termination.

  ghost function Size(e: Entry): nat
    decreases e
  {
    match e
    case File(_) => 1
    case Dir(_, children) => 1 + SizeAll(children)
  }

  ghost function SizeAll(entries: seq<Entry>): nat
    decreases entries
  {
    if entries == [] then 0 else Size(entries[0]) + SizeAll(entries[1..])
  }

  /** A directory still to visit: its path and its entries. */
  type Pending = (Path, seq<Entry>)

  ghost function PendingWeight(pending: seq<Pending>): nat
  {
    if pending == [] then 0
    else PendingWeight(pending[..|pending| - 1]) + 1 + SizeAll(pending[|pending| - 1].1)
  }

  /** The files the walk will still collect from the directories it has yet to visit. */
  ghost function PendingKept(pending: seq<Pending>, base: Path, patterns: seq<string>): set<Path>
  {
    if pending == [] then {}
    else
      var (dir, entries) := pending[|pending| - 1];
      PendingKept(pending[..|pending| - 1], base, patterns) + KeptAll(entries, dir, base, patterns)
  }

  /**
   * `collect_files(source_dir, patterns)`.  `source` is what is found at the
   * absolute path `sourceDir` (`None` when nothing is there); anything but a
   * directory is an error, where the source prints and exits.  Directories
   * are visited from a stack; the set of files found does not depend on the
   * order of visits.
   */
  method CollectFiles(source: Option<Entry>, sourceDir: Path, patterns: seq<string>)
    returns (r: Result<set<Path>, CollectError>)
    ensures !(source.Some? && source.value.Dir?) ==> r == Failure(NotADirectory(sourceDir))
    ensures source.Some? && source.value.Dir? ==>
      r == Success(Collected(source.value.children, sourceDir, patterns))
  {
    if source.None? || source.value.File? {
      return Failure(NotADirectory(sourceDir));
    }
    ghost var target := Collected(source.value.children, sourceDir, patterns);
    var files: set<Path> := {};
    var pending: seq<Pending> := [(sourceDir, source.value.children)];
    assert pending[..0] == [];
    while pending != []
      invariant files + PendingKept(pending, sourceDir, patterns) == target
      decreases PendingWeight(pending)
    {
      var (root, entries) := pending[|pending| - 1];
      pending := pending[..|pending| - 1];
      ghost var rest := pending;
      for i := 0 to |entries|
        invariant files + PendingKept(pending, sourceDir, patterns) + KeptAll(entries[i..], root, sourceDir, patterns) == target
        invariant PendingWeight(pending) + SizeAll(entries[i..]) <= PendingWeight(rest) + SizeAll(entries)
      {
        var e := entries[i];
        assert entries[i..][1..] == entries[i + 1..];
        var path := root + [e.name];
        var excluded := ShouldExclude(path, sourceDir, e.Dir?, patterns);
        if !excluded {
          match e
          case File(_) =>
            files := files + {path};
          case Dir(_, children) =>
            assert (pending + [(path, children)])[..|pending|] == pending;
            pending := pending + [(path, children)];
        }
      }
      assert entries[|entries|..] == [];
    }
    return Success(files);
  }
}
