/**
 * `should_exclude`: whether one path is excluded by the pattern list.  A
 * pattern is one of three kinds, decided when it is tried:
 *   - a directory pattern ends in `/`; it excludes only directories, whose
 *     path relative to the base glob-matches the pattern without its `/`
 *     followed by `*`;
 *   - a wildcard pattern holds `*`, `?` or `[`; it is `fnmatch`ed against the
 *     relative path and against the base name;
 *   - any other non-empty pattern is a literal, compared for equality with
 *     the relative path and with the base name.
 * The path is excluded when at least one pattern matches.
 */
module Exclude {
  import opened Strings
  import opened Paths
  import opened Glob

  predicate IsDirPattern(pattern: string)
  {
    |pattern| > 0 && pattern[|pattern| - 1] == '/'
  }

  /** The glob a directory pattern stands for: its prefix followed by `*`. */
  function DirGlob(pattern: string): string
    requires IsDirPattern(pattern)
  {
    pattern[..|pattern| - 1] + "*"
  }

  /** One pattern against a path given by its relative form and its base name. */
  predicate PatternMatches(pattern: string, relPath: string, filename: string, isDir: bool)
  {
    if pattern == "" then false
    else if IsDirPattern(pattern) then isDir && Fnmatch(relPath, DirGlob(pattern))
    else if IsWildcard(pattern) then Fnmatch(relPath, pattern) || Fnmatch(filename, pattern)
    else relPath == pattern || filename == pattern
  }

  /** Some pattern of the list matches `path` seen from `baseDir`. */
  predicate Excluded(path: Path, baseDir: Path, isDir: bool, patterns: seq<string>)
  {
    exists k | 0 <= k < |patterns| :: PatternMatches(patterns[k], RelPath(path, baseDir), Basename(path), isDir)
  }

  /** `should_exclude(path, base_dir, patterns)`; `isDir` is what `os.path.isdir(path)` answers. */
  method ShouldExclude(path: Path, baseDir: Path, isDir: bool, patterns: seq<string>) returns (excluded: bool)
    ensures excluded <==> exists k | 0 <= k < |patterns| ::
      PatternMatches(patterns[k], RelPath(path, baseDir), Basename(path), isDir)
  {
    var relPath := RelPath(path, baseDir);
    var filename := Basename(path);
    for i := 0 to |patterns|
      invariant forall k | 0 <= k < i :: !PatternMatches(patterns[k], relPath, filename, isDir)
    {
      if PatternMatches(patterns[i], relPath, filename, isDir) {
        return true;
      }
    }
    return false;
  }

  /** No pattern, no exclusion. */
  lemma NothingExcludedWithoutPatterns(path: Path, baseDir: Path, isDir: bool)
    ensures !Excluded(path, baseDir, isDir, [])
  {
  }

  /** The list is an OR: exclusion by a concatenation is exclusion by either part. */
  lemma ExcludedAppend(path: Path, baseDir: Path, isDir: bool, p: seq<string>, q: seq<string>)
    ensures Excluded(path, baseDir, isDir, p + q) <==>
      Excluded(path, baseDir, isDir, p) || Excluded(path, baseDir, isDir, q)
  {
    var rel, name := RelPath(path, baseDir), Basename(path);
    if Excluded(path, baseDir, isDir, p + q) {
      var k :| 0 <= k < |p + q| && PatternMatches((p + q)[k], rel, name, isDir);
      if k >= |p| {
        assert PatternMatches(q[k - |p|], rel, name, isDir);
      }
    }
    if Excluded(path, baseDir, isDir, p) {
      var k :| 0 <= k < |p| && PatternMatches(p[k], rel, name, isDir);
      assert (p + q)[k] == p[k];
    }
    if Excluded(path, baseDir, isDir, q) {
      var k :| 0 <= k < |q| && PatternMatches(q[k], rel, name, isDir);
      assert (p + q)[|p| + k] == q[k];
    }
  }

  /** With two patterns, a path is excluded when the first or the second matches. */
  lemma ExcludedByTwo(path: Path, baseDir: Path, isDir: bool, p: string, q: string)
    ensures Excluded(path, baseDir, isDir, [p, q]) <==>
      || PatternMatches(p, RelPath(path, baseDir), Basename(path), isDir)
      || PatternMatches(q, RelPath(path, baseDir), Basename(path), isDir)
  {
    var rel, name := RelPath(path, baseDir), Basename(path);
    if PatternMatches(p, rel, name, isDir) {
      assert [p, q][0] == p;
    }
    if PatternMatches(q, rel, name, isDir) {
      assert [p, q][1] == q;
    }
  }

  /**
   * Only the set of non-empty patterns counts: reordering the list, repeating
   * a pattern or adding empty patterns never changes the answer.
   */
  lemma ExcludedBySetOfPatterns(path: Path, baseDir: Path, isDir: bool, p: seq<string>, q: seq<string>)
    requires forall x | x in p && x != "" :: x in q
    requires forall x | x in q && x != "" :: x in p
    ensures Excluded(path, baseDir, isDir, p) <==> Excluded(path, baseDir, isDir, q)
  {
    var rel, name := RelPath(path, baseDir), Basename(path);
    if Excluded(path, baseDir, isDir, p) {
      var k :| 0 <= k < |p| && PatternMatches(p[k], rel, name, isDir);
      assert p[k] in p && p[k] != "";
      var j :| 0 <= j < |q| && q[j] == p[k];
    }
    if Excluded(path, baseDir, isDir, q) {
      var k :| 0 <= k < |q| && PatternMatches(q[k], rel, name, isDir);
      assert q[k] in q && q[k] != "";
      var j :| 0 <= j < |p| && p[j] == q[k];
    }
  }

  /** A directory pattern never excludes a non-directory entry, whatever its name, and is never tried as a glob or literal. */
  lemma DirPatternSparesFiles(pattern: string, relPath: string, filename: string)
    requires IsDirPattern(pattern)
    ensures !PatternMatches(pattern, relPath, filename, false)
  {
  }

  /**
   * A directory pattern whose prefix has no glob character excludes exactly the
   * directories whose relative path begins with that prefix: `exclude_dir/`
   * excludes `exclude_dir`, and `build/` also excludes `build-tmp` and `builder`.
   */
  lemma DirPatternIsLoosePrefix(pattern: string, relPath: string, filename: string)
    requires IsDirPattern(pattern) && !IsWildcard(pattern)
    ensures PatternMatches(pattern, relPath, filename, true) <==> StartsWith(relPath, pattern[..|pattern| - 1])
  {
    var prefix := pattern[..|pattern| - 1];
    assert !IsWildcard(prefix) by {
      assert forall c | c in prefix :: c in pattern;
    }
    PrefixStarMatch(relPath, prefix);
  }

  /** A literal pattern excludes a path exactly when it equals the relative path or the base name, as `fnmatch` would also say. */
  lemma LiteralPatternIsEquality(pattern: string, relPath: string, filename: string, isDir: bool)
    requires pattern != "" && !IsDirPattern(pattern) && !IsWildcard(pattern)
    ensures PatternMatches(pattern, relPath, filename, isDir) <==> relPath == pattern || filename == pattern
    ensures PatternMatches(pattern, relPath, filename, isDir) <==> Fnmatch(relPath, pattern) || Fnmatch(filename, pattern)
  {
    LiteralMatch(relPath, pattern);
    LiteralMatch(filename, pattern);
  }

  /**
   * A `*suffix` pattern with a literal suffix excludes a path when its relative
   * path or its base name ends with the suffix; `*` crosses `/`, so `*.log`
   * reaches into sub-directories.
   */
  lemma StarSuffixPattern(suffix: string, relPath: string, filename: string, isDir: bool)
    requires !IsWildcard(suffix) && (suffix == "" || suffix[|suffix| - 1] != '/')
    ensures PatternMatches("*" + suffix, relPath, filename, isDir) <==>
      EndsWith(relPath, suffix) || EndsWith(filename, suffix)
  {
    var pattern := "*" + suffix;
    assert pattern[0] == '*';
    assert !IsDirPattern(pattern) by {
      if suffix != "" {
        assert pattern[|pattern| - 1] == suffix[|suffix| - 1];
      }
    }
    StarSuffixMatch(relPath, suffix);
    StarSuffixMatch(filename, suffix);
  }

  /**
   * The shape of a typical ignore file: a `*suffix` pattern and a `prefix/`
   * directory pattern.  A path goes when its relative path or its name ends
   * with the suffix, or it is a directory whose relative path begins with the
   * prefix.
   */
  lemma SuffixAndDirPatterns(path: Path, baseDir: Path, isDir: bool, suffix: string, prefix: string)
    requires !IsWildcard(suffix) && suffix != "" && suffix[|suffix| - 1] != '/'
    requires !IsWildcard(prefix)
    ensures Excluded(path, baseDir, isDir, ["*" + suffix, prefix + "/"]) <==>
      || EndsWith(RelPath(path, baseDir), suffix)
      || EndsWith(Basename(path), suffix)
      || (isDir && StartsWith(RelPath(path, baseDir), prefix))
  {
    var rel, name := RelPath(path, baseDir), Basename(path);
    var starPattern, dirPattern := "*" + suffix, prefix + "/";
    assert PatternMatches(starPattern, rel, name, isDir) <==> EndsWith(rel, suffix) || EndsWith(name, suffix) by {
      StarSuffixPattern(suffix, rel, name, isDir);
    }
    assert PatternMatches(dirPattern, rel, name, isDir) <==> isDir && StartsWith(rel, prefix) by {
      assert dirPattern[..|dirPattern| - 1] == prefix;
      assert !IsWildcard(dirPattern) by {
        assert forall c | c in dirPattern :: c in prefix || c == '/';
      }
      if isDir {
        DirPatternIsLoosePrefix(dirPattern, rel, name);
      } else {
        DirPatternSparesFiles(dirPattern, rel, name);
      }
    }
    ExcludedByTwo(path, baseDir, isDir, starPattern, dirPattern);
  }
}
