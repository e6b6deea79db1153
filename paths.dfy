/**
 * POSIX paths as `os.path` treats them once `abspath` has normalised them:
 * an absolute path is the sequence of its segments below `/`, with no empty,
 * `.` or `..` segment.  Segments are joined with `/`.
 */
module Paths {
  import opened Strings

  /** The segments of an absolute path below `/`; `[]` is the root. */
  type Path = seq<string>

  /** A directory entry name: what `os.listdir` can return. */
  predicate ValidSegment(s: string)
  {
    s != "" && '/' !in s && s != "." && s != ".."
  }

  predicate ValidPath(p: seq<string>)
  {
    forall k | 0 <= k < |p| :: ValidSegment(p[k])
  }

  /** `os.path.join(*parts)` on segments that hold no `/`. */
  function Join(parts: seq<string>): string
  {
    JoinWith(parts, '/')
  }

  /** The `/`-separated components of a relative path string. */
  function Components(s: string): seq<string>
  {
    Split(s, '/')
  }

  /** `os.path.basename`: the last segment, `""` for `/`. */
  function Basename(p: Path): (name: string)
    ensures p != [] ==> name == p[|p| - 1]
  {
    if p == [] then "" else p[|p| - 1]
  }

  /** `os.path.dirname`: the parent directory; `/` is its own parent. */
  function Dirname(p: Path): (d: Path)
    ensures p != [] ==> p == d + [Basename(p)]
    ensures p == [] ==> d == []
  {
    if p == [] then [] else p[..|p| - 1]
  }

  /** The string form `"/" + os.path.join(...)` of an absolute path. */
  function PathString(p: Path): string
  {
    "/" + Join(p)
  }

  /**
   * `posixpath.basename` and `posixpath.dirname` split a path's string at its
   * last `/`: the base name is the text after that `/`, which holds no `/`, and
   * the parent's string is the text before it (`/` itself when that is empty).
   */
  lemma BasenameAfterLastSlash(p: Path)
    requires p != [] && ValidPath(p)
    ensures '/' !in Basename(p)
    ensures |p| == 1 ==> PathString(p) == PathString(Dirname(p)) + Basename(p)
    ensures |p| > 1 ==> PathString(p) == PathString(Dirname(p)) + "/" + Basename(p)
  {
    var d := Dirname(p);
    assert ValidSegment(p[|p| - 1]);
    assert p == d + [Basename(p)];
    if |p| == 1 {
      assert Join(d) == "";
      assert Join(p) == p[0];
    } else {
      JoinWithSnoc(d, Basename(p), '/');
    }
  }

  /** Length of the longest common prefix of `a` and `b` (`os.path.commonprefix` on segment lists). */
  function CommonPrefixLen(a: Path, b: Path): (n: nat)
    ensures n <= |a| && n <= |b|
    ensures a[..n] == b[..n]
    ensures n < |a| && n < |b| ==> a[n] != b[n]
  {
    if a == [] || b == [] || a[0] != b[0] then 0
    else
      var n := 1 + CommonPrefixLen(a[1..], b[1..]);
      assert a[..n] == [a[0]] + a[1..][..n - 1];
      assert b[..n] == [b[0]] + b[1..][..n - 1];
      n
  }

  /** `m` copies of the parent-directory segment `..`. */
  function Ups(m: nat): (ups: seq<string>)
    ensures |ups| == m
    ensures forall k | 0 <= k < m :: ups[k] == ".."
  {
    seq(m, _ => "..")
  }

  /** The segments of `os.path.relpath(path, start)`; empty when the two are equal. */
  function RelParts(path: Path, start: Path): seq<string>
  {
    var c := CommonPrefixLen(path, start);
    Ups(|start| - c) + path[c..]
  }

  /** `os.path.relpath(path, start)` for two absolute paths. */
  function RelPath(path: Path, start: Path): string
  {
    var parts := RelParts(path, start);
    if parts == [] then "." else Join(parts)
  }

  /** Below its start, a path's relative form is its remaining segments joined. */
  lemma RelPathBelow(start: Path, rel: seq<string>)
    requires rel != []
    ensures RelParts(start + rel, start) == rel
    ensures RelPath(start + rel, start) == Join(rel)
  {
    var p := start + rel;
    var c := CommonPrefixLen(p, start);
    assert p[..|start|] == start;
    assert c == |start|;
    assert p[c..] == rel;
  }

  /** A relative path resolved against directory `dir`, as `os.path.normpath(os.path.join(dir, ...))` does. */
  function Resolve(dir: Path, parts: seq<string>): Path
    decreases |parts|
  {
    if parts == [] then dir
    else if parts[0] == ".." then Resolve(Dirname(dir), parts[1..])
    else if parts[0] == "." || parts[0] == "" then Resolve(dir, parts[1..])
    else Resolve(dir + [parts[0]], parts[1..])
  }

  lemma {:induction false} ResolveUps(dir: Path, m: nat, tail: seq<string>)
    requires m <= |dir|
    ensures Resolve(dir, Ups(m) + tail) == Resolve(dir[..|dir| - m], tail)
    decreases m
  {
    if m > 0 {
      assert (Ups(m) + tail)[0] == "..";
      assert (Ups(m) + tail)[1..] == Ups(m - 1) + tail;
      ResolveUps(Dirname(dir), m - 1, tail);
      assert Dirname(dir)[..|Dirname(dir)| - (m - 1)] == dir[..|dir| - m];
    } else {
      assert Ups(m) + tail == tail;
      assert dir[..|dir| - m] == dir;
    }
  }

  lemma {:induction false} ResolvePlain(dir: Path, tail: seq<string>)
    requires ValidPath(tail)
    ensures Resolve(dir, tail) == dir + tail
    decreases |tail|
  {
    if tail != [] {
      assert ValidSegment(tail[0]);
      ResolvePlain(dir + [tail[0]], tail[1..]);
      assert dir + [tail[0]] + tail[1..] == dir + tail;
    }
  }

  /** The segments of a relative path between valid paths never hold `/`. */
  lemma RelPartsNoSeparator(path: Path, start: Path)
    requires ValidPath(path)
    ensures ValidPath(path[CommonPrefixLen(path, start)..])
    ensures forall k | 0 <= k < |RelParts(path, start)| :: '/' !in RelParts(path, start)[k]
  {
    var c := CommonPrefixLen(path, start);
    var parts := RelParts(path, start);
    var tail := path[c..];
    assert ValidPath(tail) by {
      forall k | 0 <= k < |tail| ensures ValidSegment(tail[k]) {
        assert tail[k] == path[c + k];
      }
    }
    forall k | 0 <= k < |parts| ensures '/' !in parts[k] {
      if k >= |start| - c {
        assert parts[k] == tail[k - (|start| - c)];
      }
    }
  }

  /** `relpath` is undone by resolving its result against the start directory. */
  lemma RelPathResolves(path: Path, start: Path)
    requires ValidPath(path)
    ensures Resolve(start, Components(RelPath(path, start))) == path
  {
    var c := CommonPrefixLen(path, start);
    var parts := RelParts(path, start);
    var tail := path[c..];
    if parts == [] {
      assert c == |start| && c == |path|;
      assert path == path[..c] && start == start[..c];
      assert Components(".") == ["."];
    } else {
      RelPartsNoSeparator(path, start);
      SplitJoinWith(parts, '/');
      assert Components(RelPath(path, start)) == Ups(|start| - c) + tail;
      ResolveUps(start, |start| - c, tail);
      assert start[..|start| - (|start| - c)] == start[..c];
      ResolvePlain(start[..c], tail);
      assert start[..c] + tail == path[..c] + path[c..] == path;
    }
  }

  /** Segments joined with `/` never begin with `/` and split back into the same segments. */
  lemma JoinValid(parts: seq<string>)
    requires parts != [] && ValidPath(parts)
    ensures Components(Join(parts)) == parts
    ensures Join(parts) != "" && Join(parts)[0] != '/'
    ensures ".." !in Components(Join(parts))
  {
    SplitJoinWith(parts, '/');
    JoinHead(parts);
  }

  lemma {:induction false} JoinHead(parts: seq<string>)
    requires parts != [] && parts[0] != ""
    ensures |Join(parts)| >= |parts[0]| && Join(parts)[..|parts[0]|] == parts[0]
  {
    if |parts| > 1 {
      assert Join(parts) == parts[0] + ['/'] + Join(parts[1..]);
    }
  }

  /** Distinct segment sequences join to distinct strings. */
  lemma JoinInjective(a: seq<string>, b: seq<string>)
    requires a != [] && b != [] && ValidPath(a) && ValidPath(b)
    requires Join(a) == Join(b)
    ensures a == b
  {
    JoinValid(a);
    JoinValid(b);
  }
}
