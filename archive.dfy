/**
 * `create_archive` up to the point where the container library takes over:
 * the pattern source is chosen, the files are collected, and every kept file
 * is paired with its name inside the archive, its path relative to the
 * parent of the source directory.  Writing the tar or zip container is not
 * part of the model.
 */
module Archive {
  import opened Wrappers
  import opened Paths
  import opened Ignore
  import opened Collect

  /** `os.path.relpath(file_path, os.path.dirname(source_dir))`. */
  function Arcname(file: Path, sourceDir: Path): string
  {
    RelPath(file, Dirname(sourceDir))
  }

  /** The top-level folder of the archive: the source directory's own name (none for `/`). */
  function TopFolder(sourceDir: Path): seq<string>
  {
    if sourceDir == [] then [] else [Basename(sourceDir)]
  }

  /** Every file handed to the container library, with its archive name. */
  function Members(files: set<Path>, sourceDir: Path): (m: map<Path, string>)
    ensures m.Keys == files
  {
    map f | f in files :: Arcname(f, sourceDir)
  }

  /** Adding one file to the set adds its entry to the map. */
  lemma MembersAdd(files: set<Path>, f: Path, sourceDir: Path)
    ensures Members(files + {f}, sourceDir) == Members(files, sourceDir)[f := Arcname(f, sourceDir)]
  {
  }

  /**
   * A file below the source directory is named by the source directory's
   * name, `/`, and the file's path relative to the source directory, the same
   * relative path the exclusion tests see.
   */
  lemma ArcnameBelowSource(sourceDir: Path, rel: seq<string>)
    requires rel != []
    ensures Arcname(sourceDir + rel, sourceDir) == Join(TopFolder(sourceDir) + rel)
    ensures sourceDir != [] ==>
      Arcname(sourceDir + rel, sourceDir) == Basename(sourceDir) + "/" + RelPath(sourceDir + rel, sourceDir)
    ensures sourceDir == [] ==> Arcname(sourceDir + rel, sourceDir) == RelPath(sourceDir + rel, sourceDir)
  {
    var parent := Dirname(sourceDir);
    var top := TopFolder(sourceDir);
    assert sourceDir == parent + top;
    assert sourceDir + rel == parent + (top + rel);
    RelPathBelow(parent, top + rel);
    RelPathBelow(sourceDir, rel);
    if sourceDir != [] {
      assert (top + rel)[1..] == rel;
    } else {
      assert top + rel == rel;
    }
  }

  /** The name of a collected file is a clean relative path: no leading `/`, no `..` component, nothing empty. */
  lemma ArcnameIsClean(sourceDir: Path, rel: seq<string>)
    requires ValidPath(sourceDir) && ValidPath(rel) && rel != []
    ensures Components(Arcname(sourceDir + rel, sourceDir)) == TopFolder(sourceDir) + rel
    ensures Arcname(sourceDir + rel, sourceDir) != ""
    ensures Arcname(sourceDir + rel, sourceDir)[0] != '/'
    ensures ".." !in Components(Arcname(sourceDir + rel, sourceDir))
    ensures "" !in Components(Arcname(sourceDir + rel, sourceDir))
  {
    ArcnameBelowSource(sourceDir, rel);
    var parts := TopFolder(sourceDir) + rel;
    assert ValidPath(parts) by {
      forall k | 0 <= k < |parts| ensures ValidSegment(parts[k]) {
        if sourceDir != [] && k == 0 {
          assert parts[0] == sourceDir[|sourceDir| - 1];
        } else if sourceDir != [] {
          assert parts[k] == rel[k - 1];
        } else {
          assert parts[k] == rel[k];
        }
      }
    }
    JoinValid(parts);
  }

  /** Two different collected files never get the same archive name. */
  lemma ArcnamesDistinct(children: seq<Entry>, sourceDir: Path, patterns: seq<string>, f: Path, g: Path)
    requires ValidPath(sourceDir) && AllWellFormed(children)
    requires f in Collected(children, sourceDir, patterns) && g in Collected(children, sourceDir, patterns)
    requires f != g
    ensures Arcname(f, sourceDir) != Arcname(g, sourceDir)
  {
    CollectedBelowSource(children, sourceDir, patterns, f);
    CollectedBelowSource(children, sourceDir, patterns, g);
    var n := |sourceDir|;
    var rf, rg := f[n..], g[n..];
    assert f == sourceDir + rf && g == sourceDir + rg;
    ArcnameIsClean(sourceDir, rf);
    ArcnameIsClean(sourceDir, rg);
    var top := TopFolder(sourceDir);
    assert rf != rg;
    assert (top + rf)[|top|..] == rf && (top + rg)[|top|..] == rg;
    assert Components(Arcname(f, sourceDir)) != Components(Arcname(g, sourceDir));
  }

  /** Every archive name of a run is clean, and no two members share one. */
  lemma MembersWellNamed(children: seq<Entry>, sourceDir: Path, patterns: seq<string>)
    requires ValidPath(sourceDir) && AllWellFormed(children)
    ensures var m := Members(Collected(children, sourceDir, patterns), sourceDir);
      && (forall f | f in m :: m[f] != "" && m[f][0] != '/' && ".." !in Components(m[f]))
      && (forall f, g | f in m && g in m && f != g :: m[f] != m[g])
  {
    var files := Collected(children, sourceDir, patterns);
    var m := Members(files, sourceDir);
    forall f | f in m ensures m[f] != "" && m[f][0] != '/' && ".." !in Components(m[f]) {
      CollectedBelowSource(children, sourceDir, patterns, f);
      assert f == sourceDir + f[|sourceDir|..];
      ArcnameIsClean(sourceDir, f[|sourceDir|..]);
    }
    forall f, g | f in m && g in m && f != g ensures m[f] != m[g] {
      ArcnamesDistinct(children, sourceDir, patterns, f, g);
    }
  }

  /**
   * `create_archive(..., source_dir, tarignore_path)` without the container:
   * the members the archive would get, or the error `collect_files` stops on.
   */
  method CreateArchive(source: Option<Entry>, sourceDir: Path, ignorePath: string, ignoreFile: Option<string>)
    returns (r: Result<map<Path, string>, CollectError>)
    ensures !(source.Some? && source.value.Dir?) ==> r == Failure(NotADirectory(sourceDir))
    ensures source.Some? && source.value.Dir? ==>
      r == Success(Members(Collected(source.value.children, sourceDir, SelectedPatterns(ignorePath, ignoreFile)), sourceDir))
  {
    var patterns := LoadPatterns(ignorePath, ignoreFile);
    var collected := CollectFiles(source, sourceDir, patterns);
    if collected.Failure? {
      return Failure(collected.error);
    }
    var files := collected.value;
    var members: map<Path, string> := map[];
    var remaining := files;
    while remaining != {}
      invariant remaining <= files
      invariant members == Members(files - remaining, sourceDir)
      decreases |remaining|
    {
      var f :| f in remaining;
      MembersAdd(files - remaining, f, sourceDir);
      assert files - (remaining - {f}) == (files - remaining) + {f};
      members := members[f := Arcname(f, sourceDir)];
      remaining := remaining - {f};
    }
    assert files - remaining == files;
    return Success(members);
  }
}
