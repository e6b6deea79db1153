# zipexcept, modelled in Dafny

zipexcept builds a tar or zip archive of one directory. It skips every file
and directory that a pattern of an ignore file (`.tarignore` by default)
excludes. This project models the part of `zipexcept/main.py` that decides
what goes into the archive and under which name:

- `read_tarignore` is `Ignore.ReadTarignore`. It is a loop over the lines of
  the file, proved equal to the specification function
  `Ignore.Patterns(Ignore.Lines(text))`. The file is given as its decoded text,
  or as `None` when it does not exist.
- The choice of pattern source in `create_archive` is `Ignore.LoadPatterns`.
  With no path or a missing file it yields no patterns.
- `should_exclude` is `Exclude.ShouldExclude`. It is a loop over the patterns,
  proved equal to the predicate `Exclude.Excluded`: some pattern matches.
  Each pattern is of one of three kinds (directory, wildcard or literal), and
  each kind's meaning is proved as a lemma.
- `fnmatch.fnmatch` is `Glob.Fnmatch`. The pattern is read into tokens much
  as Python's `fnmatch.translate` reads it; character classes are simplified
  (see "## Left out"). `*` also matches `/`.
- `os.path.relpath`, `basename` and `dirname` are in `Paths`. They work on
  absolute paths given as sequences of segments.
- `collect_files` is `Collect.CollectFiles`. It is a walk over a directory
  tree (`Collect.Entry`) driven by a stack of directories still to visit. It
  is proved to return the set `Collect.Collected`. `Collect.CollectedIff`
  characterises that set without the walk: a file is collected exactly when
  - it is not excluded itself, and
  - no directory strictly between it and the source directory is excluded.
- The archive names at lines 127 and 135 are `Archive.Arcname`.
  `Archive.CreateArchive` pairs every collected file with its name. The names
  are proved clean and pairwise distinct. Every name starts with the source
  directory's own name, and the lemma `Examples.ArcnameOfTopFile` shows this.
  The zip test of the repository (`tests/test_main.py:85`) looks for
  `include_file.txt` without that prefix. The model follows the code.
- `main` appends an output extension in `OutputName.WithExtension`. The
  compressed branch has a defect; see "## Findings".
- The unit tests of the repository are restated as lemmas in `Examples`:
  - the test ignore file parses to `*.log` and `exclude_dir/`;
  - each `should_exclude` check of the tests holds;
  - the test tree collects exactly `include_file.txt`,
    `mixed_dir/include.txt` and `.tarignore`.

The default ignore file `.tarignore` is looked up relative to the current
directory, not the source directory. The model takes its contents as a
parameter, so this makes no difference to it.

## Model

| member | source | states |
|---|---|---|
| Strings.StripTrims | zipexcept/main.py:27 | `strip` removes only whitespace, and only at the two ends; what it keeps neither begins nor ends with whitespace |
| Strings.StripUnchanged | zipexcept/main.py:27 | a string that neither begins nor ends with whitespace is left as it is by `strip` |
| Strings.StripIdempotent | zipexcept/main.py:27 | stripping a stripped line changes nothing |
| Ignore.Lines | zipexcept/main.py:26 | the model's lines of the text: at least one (empty text is one empty line), none holding a line break; Python's lines keep their line break, which `strip` removes, and the model has extra empty lines |
| Ignore.LinesOfLine | zipexcept/main.py:26 | text without a line break is a single line |
| Ignore.LinesAfterBreak | zipexcept/main.py:26 | a line break ends the line before it; what follows is split on its own |
| Ignore.Patterns | zipexcept/main.py:25-30 | there are never more patterns than lines; every pattern is non-empty, does not start with `#`, and is already stripped |
| Ignore.PatternsAppend | zipexcept/main.py:25-30 | lines are read one after the other: the patterns of two blocks of lines are the patterns of the first block followed by those of the second |
| Ignore.PatternsOfLine | zipexcept/main.py:27-30 | one line yields its stripped text when that is neither empty nor a comment, and nothing otherwise |
| Ignore.PatternsMembership | zipexcept/main.py:25-30 | a string is a pattern of the file exactly when it is neither empty nor a comment and some line strips to it |
| Ignore.ReadTarignore | zipexcept/main.py:19-31 | a missing file gives no patterns; otherwise the loop returns the patterns of the file's lines, in file order |
| Ignore.LoadPatterns | zipexcept/main.py:104-110 | patterns come from the ignore file only when a path is given and the file exists; otherwise the list is empty |
| Paths.BasenameAfterLastSlash | zipexcept/main.py:38 | in the path's string, the base name is the text after the last `/` (it holds no `/`), and the parent's string is the text before that `/`, or `/` itself |
| Paths.Dirname | zipexcept/main.py:127 | a path is its parent followed by its base name; `/` is its own parent |
| Paths.RelPathBelow | zipexcept/main.py:37 | a path below the base directory is seen as its remaining segments joined with `/` |
| Paths.RelPathResolves | zipexcept/main.py:37 | `relpath` is undone by resolving its result against the start directory, for any two absolute paths |
| Paths.JoinValid | zipexcept/main.py:127 | segments joined with `/` split back into the same segments, and the result is not empty, does not start with `/` and has no `..` component |
| Paths.JoinInjective | zipexcept/main.py:127 | different segment sequences join to different strings |
| Glob.LiteralMatch | zipexcept/main.py:57 | a pattern without `*`, `?` or `[` matches exactly the string equal to it |
| Glob.PrefixStarMatch | zipexcept/main.py:47 | `prefix*` with a literal prefix matches exactly the strings that begin with the prefix |
| Glob.StarSuffixMatch | zipexcept/main.py:53 | `*suffix` with a literal suffix matches exactly the strings that end with the suffix, `/` included |
| Glob.StarPatternMatchesAll | zipexcept/main.py:53 | `*` matches every string |
| Exclude.ShouldExclude | zipexcept/main.py:34-60 | the loop answers true exactly when some pattern matches the relative path or the base name, according to that pattern's kind |
| Exclude.NothingExcludedWithoutPatterns | zipexcept/main.py:40-60 | with no patterns nothing is excluded |
| Exclude.ExcludedAppend | zipexcept/main.py:40-60 | the pattern list is an OR: exclusion by two lists put together is exclusion by either list |
| Exclude.ExcludedByTwo | zipexcept/main.py:40-60 | with two patterns, a path is excluded when the first matches or the second does |
| Exclude.ExcludedBySetOfPatterns | zipexcept/main.py:40-43 | order, repeats and empty patterns never change the answer; only the set of non-empty patterns counts |
| Exclude.DirPatternSparesFiles | zipexcept/main.py:46-48 | a pattern ending in `/` never excludes a non-directory entry, and is never tried as a glob or a literal |
| Exclude.DirPatternIsLoosePrefix | zipexcept/main.py:46-48 | a directory pattern with a literal prefix excludes exactly the directories whose relative path begins with that prefix (`build/` also excludes `build-tmp`) |
| Exclude.StarSuffixPattern | zipexcept/main.py:51-54 | `*suffix` excludes a path when its relative path or its base name ends with the suffix |
| Exclude.LiteralPatternIsEquality | zipexcept/main.py:56-57 | a literal pattern excludes a path exactly when it equals the relative path or the base name, which is also what `fnmatch` would say |
| Exclude.SuffixAndDirPatterns | zipexcept/main.py:40-57 | with a `*suffix` pattern and a `prefix/` pattern, a path is excluded when a name ends with the suffix, or it is a directory whose relative path begins with the prefix |
| Collect.KeptAllMembers | zipexcept/main.py:75-84 | a file is kept from a directory's entries exactly when it is kept from one of them |
| Collect.NoExcludedDirStep | zipexcept/main.py:77-78 | no directory on the way down is excluded exactly when the first one is not excluded and none below it is |
| Collect.KeptIff | zipexcept/main.py:75-84 | a file is kept below an entry exactly when the entry holds it, it is not excluded, and no directory between is excluded |
| Collect.KeptDirIff | zipexcept/main.py:75-84 | the same holds for a directory entry, whose excluded sub-directories are dropped before the walk descends |
| Collect.KeptAllIff | zipexcept/main.py:75-84 | the same holds for all the entries of a directory |
| Collect.CollectedIff | zipexcept/main.py:63-86 | a file is collected exactly when it is a non-directory entry below the source directory, it is not excluded, and no directory between is excluded |
| Collect.PrunedSubtree | zipexcept/main.py:77-78 | nothing below an excluded directory is collected, whatever the files' own names |
| Collect.EverythingWithoutPatterns | zipexcept/main.py:63-86 | with no patterns every non-directory entry of the tree is collected |
| Collect.CollectedBelowSource | zipexcept/main.py:75-84 | every collected file lies strictly below the source directory, has valid segments, and is not excluded |
| Collect.CollectFiles | zipexcept/main.py:63-86 | anything but a directory is the error where the source exits; otherwise the walk returns exactly the collected set |
| Archive.Members | zipexcept/main.py:125-137 | every collected file gets an archive entry, and nothing else does |
| Archive.MembersAdd | zipexcept/main.py:125-128 | adding one file to the archive adds its entry under its archive name |
| Archive.ArcnameBelowSource | zipexcept/main.py:127 | a file's archive name is the source directory's name, `/`, and the file's path relative to the source directory (just the relative path when the source is `/`) |
| Archive.ArcnameIsClean | zipexcept/main.py:127 | an archive name is not empty, has no leading `/` and no `..` component, and splits into the top folder followed by the file's relative segments |
| Archive.ArcnamesDistinct | zipexcept/main.py:125-136 | two different collected files never get the same archive name |
| Archive.MembersWellNamed | zipexcept/main.py:125-137 | every member name of a run is clean, and no two members share a name |
| Archive.CreateArchive | zipexcept/main.py:104-137 | the run fails where `collect_files` exits; otherwise each collected file is paired with its archive name, under the selected patterns |
| OutputName.CompressedNameIsNotTar | zipexcept/main.py:161-164 | a name ending in `.tar.gz` or `.tgz` does not end in `.tar` |
| OutputName.ZipExtension | zipexcept/main.py:165-166 | for zip, `.zip` is appended exactly when it is missing, and the name always ends in `.zip` |
| OutputName.TarExtension | zipexcept/main.py:163-164 | for plain tar, `.tar` is appended exactly when it is missing, and the name always ends in `.tar` |
| OutputName.CompressedTarExtension | zipexcept/main.py:161-164 | for compressed tar as written, `.tar` is appended to names ending in `.tar.gz` or `.tgz`, and `.tar.gz` to all other names |
| OutputName.CompressedTarAppendsTar | zipexcept/main.py:160-164 | as written, `x.tar.gz` becomes `x.tar.gz.tar` and `x.tgz` becomes `x.tgz.tar`, so applying the rule to its own result changes the name again |
| OutputName.IntendedExtension | zipexcept/main.py:160-166 | the corrected rule keeps a compressed name that already ends in `.tar.gz` or `.tgz`, always ends the name in its format's suffix, appends at most one suffix, and leaves its own result unchanged |
| OutputName.WrittenAgreesElsewhere | zipexcept/main.py:160-166 | the written rule and the corrected one differ only on compressed names already ending in `.tar.gz` or `.tgz` |
| Examples.TwoLineFile | tests/test_main.py:36-37 | an ignore file of two pattern lines, each ended by a newline, gives those two patterns in order |
| Examples.TestIgnoreFile | tests/test_main.py:43-46 | the test's ignore file parses to `*.log` and `exclude_dir/` |
| Examples.TestPatternsExclude | tests/test_main.py:50 | under the test patterns, a path goes when a name ends in `.log`, or it is a directory whose relative path begins with `exclude_dir` |
| Examples.ExcludedTopFile | zipexcept/main.py:34-60 | a file right under the test directory goes exactly when its name ends in `.log` |
| Examples.ExcludedTopDir | zipexcept/main.py:34-60 | a directory right under the test directory goes exactly when its name ends in `.log` or begins with `exclude_dir` |
| Examples.ExcludedNestedFile | zipexcept/main.py:34-60 | a file one directory down goes exactly when its relative path or its name ends in `.log` |
| Examples.TestShouldExcludeFiles | tests/test_main.py:53-63 | `exclude_file.log` is excluded and `include_file.txt` is not |
| Examples.TestShouldExcludeDirs | tests/test_main.py:56-66 | `exclude_dir` is excluded and `include_dir` is not |
| Examples.KeptTopFile | zipexcept/main.py:81-84 | a top-level file is kept exactly when its name does not end in `.log` |
| Examples.MixedDirFiles | tests/test_main.py:86-90 | `mixed_dir/include.txt` stays and `mixed_dir/exclude.log` goes |
| Examples.KeptMixedDir | tests/test_main.py:86-90 | the walk keeps exactly `include.txt` from `mixed_dir` |
| Examples.TestCollected | tests/test_main.py:82-91 | the test tree collects exactly `include_file.txt`, `mixed_dir/include.txt` and `.tarignore` |
| Examples.ArcnameOfTopFile | tests/test_main.py:85 | a top-level file `name` of source directory `top` is archived as `top/name`, never as the bare `name` the zip test looks for |
| Examples.ArcnameOfNestedFile | zipexcept/main.py:135 | a file in sub-directory `sub` is archived as `top/sub/name` |
| Examples.StarCrossesSeparator | zipexcept/main.py:53 | `*.log` matches the relative path of a `.log` file in a sub-directory, not just its name |
| Examples.LooseDirectoryPrefix | zipexcept/main.py:47 | `build/` excludes the directory `build-tmp` and never a file named `build` |

## Left out

- Writing the tar or zip container, gzip compression and the `compress` mode flag (lines 121-137 beyond the names): library code; the model stops at the map from files to archive names.
- Argument parsing, the messages printed, and the exit status: `sys.exit(1)` in `collect_files` is the error value `NotADirectory`.
- `os.path.abspath` and the current directory: the source directory is given as an absolute, normalised path (a sequence of segments).
- Symbolic links, permission errors during the walk, and the order in which `os.walk` lists entries: the tree is a plain value. The collected set, and hence the archive contents, does not depend on the order.
- Windows paths and `normcase`: only POSIX behaviour is modelled, where matching is case-sensitive.
- Decoding the ignore file, and an ignore path that names a directory: the file is given as its decoded text.
- Ignore.Lines: yields more lines than Python's text-mode iteration. It splits at every `\r` and `\n`, so `\r\n` gives an extra empty line where universal newlines give one line break. Empty text is one empty line where Python yields none. A final line break is followed by an empty line where Python yields nothing more. Python's lines also keep their line break, and the model's lines do not. The parser strips every line, which removes that line break, and drops empty lines, so the patterns are the same.
- Glob.Tokenize: character classes are simplified. A reversed range such as `[z-a]` is read as an empty range that matches nothing. Older Python versions raise `re.error` on such a pattern instead. Newer ones delete the range before deciding negation, so a `!` that then comes first negates the class: `[z-a!]` matches any one character, and `[z-a!b]` any character but `b`. The model matches only `!` for the first, and only `!` or `b` for the second.
- An `archive_type` other than `tar` or `zip`: the argument parser rules it out, and `OutputName.Format` has just the two.

## Findings

| source | as written | input that shows it | evidently intended | confidence | as-written member | corrected member |
|---|---|---|---|---|---|---|
| zipexcept/main.py:160-166 | with `--compress`, a name already ending in `.tar.gz` or `.tgz` fails the first test and falls to the `elif`, which appends `.tar` | `-f tar -c -o backup.tar.gz` writes `backup.tar.gz.tar` | keep a name that already ends in `.tar.gz` or `.tgz` | not executed | OutputName.CompressedTarAppendsTar | OutputName.IntendedExtension |
