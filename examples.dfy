/**
 * The scenario of the repository's unit tests, stated as lemmas about the
 * model: a temporary directory `dir` holding `include_file.txt`,
 * `exclude_file.log`, `.tarignore`, the empty directories `include_dir` and
 * `exclude_dir`, and `mixed_dir` with `include.txt` and `exclude.log`; the
 * ignore file reads `*.log` and `exclude_dir/`.  The temporary directory's
 * own path is left open: nothing below depends on it.
 */
module Examples {
  import opened Strings
  import opened Paths
  import opened Glob
  import opened Ignore
  import opened Exclude
  import opened Collect
  import opened Archive

  const TestPatterns: seq<string> := ["*.log", "exclude_dir/"]

  const MixedDir: Entry := Dir("mixed_dir", [File("include.txt"), File("exclude.log")])

  const TestTree: seq<Entry> := [
    Dir("include_dir", []),
    Dir("exclude_dir", []),
    MixedDir,
    File("include_file.txt"),
    File("exclude_file.log"),
    File(".tarignore")
  ]

  /**
   * An ignore file of two pattern lines, each ended by a newline, gives those
   * two patterns in order.
   */
  lemma TwoLineFile(a: string, b: string)
    requires IsPattern(a) && IsPattern(b)
    requires !IsSpace(a[0]) && !IsSpace(a[|a| - 1]) && !IsSpace(b[0]) && !IsSpace(b[|b| - 1])
    requires forall c | c in a + b :: !IsLineBreak(c)
    ensures Patterns(Lines(a + "\n" + b + "\n")) == [a, b]
  {
    TwoLines(a, b);
    TwoPatterns(a, b);
  }

  lemma TwoLines(a: string, b: string)
    requires forall c | c in a + b :: !IsLineBreak(c)
    ensures Lines(a + "\n" + b + "\n") == [a, b, ""]
  {
    assert forall c | c in a :: c in a + b;
    assert forall c | c in b :: c in a + b;
    assert a + "\n" + b + "\n" == a + "\n" + (b + "\n" + "");
    LinesAfterBreak(a, '\n', b + "\n" + "");
    LinesAfterBreak(b, '\n', "");
    LinesOfLine("");
  }

  lemma TwoPatterns(a: string, b: string)
    requires IsPattern(a) && IsPattern(b)
    requires !IsSpace(a[0]) && !IsSpace(a[|a| - 1]) && !IsSpace(b[0]) && !IsSpace(b[|b| - 1])
    ensures Patterns([a, b, ""]) == [a, b]
  {
    StripUnchanged(a);
    StripUnchanged(b);
    StripUnchanged("");
    PatternsAppend([a, b], [""]);
    PatternsAppend([a], [b]);
    PatternsOfLine(a);
    PatternsOfLine(b);
    PatternsOfLine("");
    assert [a, b] + [""] == [a, b, ""];
    assert [a] + [b] == [a, b];
  }

  /** The ignore file of the tests parses to its two patterns, in order. */
  lemma TestIgnoreFile(text: string)
    requires text == "*.log\nexclude_dir/\n"
    ensures Patterns(Lines(text)) == TestPatterns
  {
    var a, b := "*.log", "exclude_dir/";
    assert text == a + "\n" + b + "\n";
    TwoLineFile(a, b);
  }

  /** Under the test patterns a path is excluded when a name ends in `.log`, or it is a directory whose relative path begins with `exclude_dir`. */
  lemma TestPatternsExclude(path: Path, dir: Path, isDir: bool)
    ensures Excluded(path, dir, isDir, TestPatterns) <==>
      || EndsWith(RelPath(path, dir), ".log")
      || EndsWith(Basename(path), ".log")
      || (isDir && StartsWith(RelPath(path, dir), "exclude_dir"))
  {
    assert TestPatterns == ["*" + ".log", "exclude_dir" + "/"] by {
      assert "*" + ".log" == "*.log";
      assert "exclude_dir" + "/" == "exclude_dir/";
    }
    SuffixAndDirPatterns(path, dir, isDir, ".log", "exclude_dir");
  }

  /** An entry right under the test directory: a file goes when its name ends in `.log`. */
  lemma ExcludedTopFile(dir: Path, name: string)
    ensures Excluded(dir + [name], dir, false, TestPatterns) <==> EndsWith(name, ".log")
  {
    assert RelPath(dir + [name], dir) == name by {
      RelPathBelow(dir, [name]);
    }
    TestPatternsExclude(dir + [name], dir, false);
  }

  /** A directory right under the test directory goes when its name ends in `.log` or begins with `exclude_dir`. */
  lemma ExcludedTopDir(dir: Path, name: string)
    ensures Excluded(dir + [name], dir, true, TestPatterns) <==>
      EndsWith(name, ".log") || StartsWith(name, "exclude_dir")
  {
    assert RelPath(dir + [name], dir) == name by {
      RelPathBelow(dir, [name]);
    }
    TestPatternsExclude(dir + [name], dir, true);
  }

  /** A file one directory down goes when its path relative to the test directory, or its name, ends in `.log`. */
  lemma ExcludedNestedFile(dir: Path, sub: string, name: string)
    ensures Excluded(dir + [sub, name], dir, false, TestPatterns) <==>
      EndsWith(sub + "/" + name, ".log") || EndsWith(name, ".log")
  {
    assert RelPath(dir + [sub, name], dir) == sub + "/" + name by {
      RelPathBelow(dir, [sub, name]);
      assert [sub, name][1..] == [name];
      assert JoinWith([sub, name][1..], '/') == name;
    }
    assert Basename(dir + [sub, name]) == name;
    TestPatternsExclude(dir + [sub, name], dir, false);
  }

  /** The `should_exclude` checks of the tests on files: `exclude_file.log` goes, `include_file.txt` stays. */
  lemma TestShouldExcludeFiles(dir: Path)
    ensures Excluded(dir + ["exclude_file.log"], dir, false, TestPatterns)
    ensures !Excluded(dir + ["include_file.txt"], dir, false, TestPatterns)
  {
    ExcludedTopFile(dir, "exclude_file.log");
    ExcludedTopFile(dir, "include_file.txt");
  }

  /** The `should_exclude` checks of the tests on directories: `exclude_dir` goes, `include_dir` stays. */
  lemma TestShouldExcludeDirs(dir: Path)
    ensures Excluded(dir + ["exclude_dir"], dir, true, TestPatterns)
    ensures !Excluded(dir + ["include_dir"], dir, true, TestPatterns)
  {
    ExcludedTopDir(dir, "exclude_dir");
    ExcludedTopDir(dir, "include_dir");
  }

  /** A file right under the test directory is kept unless its name ends in `.log`. */
  lemma KeptTopFile(dir: Path, name: string)
    ensures Kept(File(name), dir, dir, TestPatterns) == if EndsWith(name, ".log") then {} else {dir + [name]}
  {
    ExcludedTopFile(dir, name);
  }

  /** In `mixed_dir`, `include.txt` stays and `exclude.log` goes. */
  lemma MixedDirFiles(dir: Path)
    ensures !Excluded(dir + ["mixed_dir", "include.txt"], dir, false, TestPatterns)
    ensures Excluded(dir + ["mixed_dir", "exclude.log"], dir, false, TestPatterns)
  {
    ExcludedNestedFile(dir, "mixed_dir", "include.txt");
    ExcludedNestedFile(dir, "mixed_dir", "exclude.log");
  }

  /** From `mixed_dir` the walk keeps `include.txt` only. */
  lemma KeptMixedDir(dir: Path)
    ensures Kept(MixedDir, dir, dir, TestPatterns) == {dir + ["mixed_dir", "include.txt"]}
  {
    var here := dir + ["mixed_dir"];
    var inc, exc := dir + ["mixed_dir", "include.txt"], dir + ["mixed_dir", "exclude.log"];
    assert here + ["include.txt"] == inc && here + ["exclude.log"] == exc;
    ExcludedTopDir(dir, "mixed_dir");
    MixedDirFiles(dir);
    var kids := [File("include.txt"), File("exclude.log")];
    assert kids[1..][1..] == [];
    assert MixedDir == Dir("mixed_dir", kids);
  }

  /** The archive gets `include_file.txt`, `mixed_dir/include.txt` and the ignore file itself, and nothing else. */
  lemma TestCollected(dir: Path)
    ensures Collected(TestTree, dir, TestPatterns) == {
      dir + ["include_file.txt"],
      dir + ["mixed_dir", "include.txt"],
      dir + [".tarignore"]
    }
  {
    var p := TestPatterns;
    var inc, mixed, ign := dir + ["include_file.txt"], dir + ["mixed_dir", "include.txt"], dir + [".tarignore"];
    var e0, e1, e2 := Dir("include_dir", []), Dir("exclude_dir", []), MixedDir;
    var e3, e4, e5 := File("include_file.txt"), File("exclude_file.log"), File(".tarignore");
    var t := [e0, e1, e2, e3, e4, e5];
    assert TestTree == t;
    assert KeptAll(t[5..], dir, dir, p) == {ign} by {
      assert t[5..] == [e5] && t[5..][1..] == [];
      KeptTopFile(dir, ".tarignore");
    }
    assert KeptAll(t[4..], dir, dir, p) == {ign} by {
      assert t[4..][0] == e4 && t[4..][1..] == t[5..];
      KeptTopFile(dir, "exclude_file.log");
    }
    assert KeptAll(t[3..], dir, dir, p) == {inc, ign} by {
      assert t[3..][0] == e3 && t[3..][1..] == t[4..];
      KeptTopFile(dir, "include_file.txt");
    }
    assert KeptAll(t[2..], dir, dir, p) == {mixed, inc, ign} by {
      assert t[2..][0] == e2 && t[2..][1..] == t[3..];
      KeptMixedDir(dir);
    }
    assert KeptAll(t[1..], dir, dir, p) == {mixed, inc, ign} by {
      assert t[1..][0] == e1 && t[1..][1..] == t[2..];
    }
    assert KeptAll(t, dir, dir, p) == {mixed, inc, ign} by {
      assert t[0] == e0 && t[1..] == t[1..];
    }
  }

  /**
   * A file right under a source directory `top` is named `top/name`, never the
   * bare `name`: the source directory `tmpdir` of the tests gives
   * `tmpdir/include_file.txt`, not the `include_file.txt` the zip test looks for.
   */
  lemma ArcnameOfTopFile(parent: Path, top: string, name: string)
    ensures Arcname(parent + [top, name], parent + [top]) == top + "/" + name
    ensures Arcname(parent + [top, name], parent + [top]) != name
  {
    var dir := parent + [top];
    assert dir + [name] == parent + [top, name];
    assert Basename(dir) == top;
    ArcnameBelowSource(dir, [name]);
    RelPathBelow(dir, [name]);
  }

  /** A file in a sub-directory `sub` of a source directory `top` is named `top/sub/name`. */
  lemma ArcnameOfNestedFile(parent: Path, top: string, sub: string, name: string)
    ensures Arcname(parent + [top, sub, name], parent + [top]) == top + "/" + sub + "/" + name
  {
    var dir := parent + [top];
    assert dir + [sub, name] == parent + [top, sub, name];
    assert Basename(dir) == top;
    ArcnameBelowSource(dir, [sub, name]);
    RelPathBelow(dir, [sub, name]);
    assert Join([sub, name]) == sub + "/" + name by {
      assert [sub, name][1..] == [name];
      assert JoinWith([sub, name][1..], '/') == name;
    }
  }

  /** `*` crosses `/`: `*.log` matches a `.log` file's path below a sub-directory, as well as its name. */
  lemma StarCrossesSeparator(sub: string, name: string)
    requires EndsWith(name, ".log")
    ensures Fnmatch(sub + "/" + name, "*.log")
  {
    var s := sub + "/" + name;
    assert s[|s| - 4..] == name[|name| - 4..];
    assert "*.log" == "*" + ".log";
    StarSuffixMatch(s, ".log");
  }

  /** `build/` also prunes `build-tmp`, but never a file named `build`. */
  lemma LooseDirectoryPrefix(dir: Path)
    ensures Excluded(dir + ["build-tmp"], dir, true, ["build/"])
    ensures !Excluded(dir + ["build"], dir, false, ["build/"])
  {
    var pattern := "build/";
    assert PatternMatches(pattern, "build-tmp", "build-tmp", true) by {
      assert pattern[..|pattern| - 1] == "build";
      DirPatternIsLoosePrefix(pattern, "build-tmp", "build-tmp");
    }
    assert RelPath(dir + ["build-tmp"], dir) == "build-tmp" by {
      RelPathBelow(dir, ["build-tmp"]);
    }
    assert [pattern][0] == pattern;
    assert !Excluded(dir + ["build"], dir, false, [pattern]) by {
      DirPatternSparesFiles(pattern, RelPath(dir + ["build"], dir), "build");
    }
  }
}
