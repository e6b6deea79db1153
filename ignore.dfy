/**
 * The ignore file (`.tarignore` by default): one pattern per line, blank
 * lines and `#` comments dropped, surrounding whitespace stripped, order and
 * duplicates kept.  The file is given as its decoded text, or `None` when the
 * path does not exist.
 */
module Ignore {
  import opened Wrappers
  import opened Strings

  predicate IsLineBreak(c: char)
  {
    c == '\n' || c == '\r'
  }

  /**
   * The lines of the file's text, split at every `\n` and `\r`.  Text-mode
   * iteration splits at `\n`, `\r` and `\r\n`, yields nothing for empty text
   * and nothing after a final line break.  This function yields an extra empty
   * line in each of those three cases (`\r\n` split in two, empty text, text
   * ending in a break).  Python's lines also keep their line break, which
   * `strip` removes; these lines hold none.  The parser strips every line and
   * drops empty ones, so the patterns are the same.
   */
  function Lines(text: string): (lines: seq<string>)
    ensures |lines| >= 1
    ensures forall k | 0 <= k < |lines| :: forall c | c in lines[k] :: !IsLineBreak(c)
    decreases |text|
  {
    if text == [] then [""]
    else
      var rest := Lines(text[1..]);
      if IsLineBreak(text[0]) then [""] + rest
      else [[text[0]] + rest[0]] + rest[1..]
  }

  /** Text without a line break is one line. */
  lemma {:induction false} LinesOfLine(a: string)
    requires forall c | c in a :: !IsLineBreak(c)
    ensures Lines(a) == [a]
    decreases |a|
  {
    if a != [] {
      assert a[0] in a;
      assert forall c | c in a[1..] :: c in a;
      LinesOfLine(a[1..]);
      assert [a[0]] + a[1..] == a;
    }
  }

  /** A line break ends the line before it. */
  lemma {:induction false} LinesAfterBreak(a: string, brk: char, b: string)
    requires IsLineBreak(brk)
    requires forall c | c in a :: !IsLineBreak(c)
    ensures Lines(a + [brk] + b) == [a] + Lines(b)
    decreases |a|
  {
    var t := a + [brk] + b;
    if a == [] {
      assert t == [brk] + b && t[1..] == b;
    } else {
      assert t[0] == a[0] && t[1..] == a[1..] + [brk] + b;
      assert a[0] in a;
      assert forall c | c in a[1..] :: c in a;
      LinesAfterBreak(a[1..], brk, b);
      assert [a[0]] + a[1..] == a;
    }
  }

  /** A stripped line that the parser keeps: not blank and not a `#` comment. */
  predicate IsPattern(line: string)
  {
    line != "" && line[0] != '#'
  }

  /** The patterns the given lines yield, in file order. */
  function Patterns(lines: seq<string>): (patterns: seq<string>)
    ensures |patterns| <= |lines|
    ensures forall k | 0 <= k < |patterns| :: IsPattern(patterns[k]) && Strip(patterns[k]) == patterns[k]
  {
    if lines == [] then []
    else
      var line := Strip(lines[|lines| - 1]);
      StripIdempotent(lines[|lines| - 1]);
      var before := Patterns(lines[..|lines| - 1]);
      if IsPattern(line) then before + [line] else before
  }

  /** Reading lines one after the other: the patterns of a concatenation are the concatenation of the patterns. */
  lemma {:induction false} PatternsAppend(a: seq<string>, b: seq<string>)
    ensures Patterns(a + b) == Patterns(a) + Patterns(b)
    decreases |b|
  {
    if b == [] {
      assert a + b == a;
    } else {
      var b' := b[..|b| - 1];
      assert (a + b)[..|a + b| - 1] == a + b';
      assert (a + b)[|a + b| - 1] == b[|b| - 1];
      PatternsAppend(a, b');
    }
  }

  /** One line yields its stripped text when that is a pattern, and nothing otherwise. */
  lemma PatternsOfLine(line: string)
    ensures Patterns([line]) == if IsPattern(Strip(line)) then [Strip(line)] else []
  {
    assert [line][..0] == [];
  }

  /** Some line of `init + [last]` strips to `p` when some line of `init` does or `last` does. */
  lemma SomeLineStripsTo(init: seq<string>, last: string, p: string)
    ensures (exists k | 0 <= k < |init + [last]| :: Strip((init + [last])[k]) == p) <==>
      (exists k | 0 <= k < |init| :: Strip(init[k]) == p) || Strip(last) == p
  {
    var lines := init + [last];
    if exists k | 0 <= k < |lines| :: Strip(lines[k]) == p {
      var k :| 0 <= k < |lines| && Strip(lines[k]) == p;
      if k < |init| {
        assert lines[k] == init[k];
      }
    }
    if exists k | 0 <= k < |init| :: Strip(init[k]) == p {
      var k :| 0 <= k < |init| && Strip(init[k]) == p;
      assert lines[k] == init[k];
    }
    assert lines[|init|] == last;
  }

  /** A pattern comes out exactly when some line strips to it. */
  lemma {:induction false} PatternsMembership(lines: seq<string>, p: string)
    ensures p in Patterns(lines) <==> IsPattern(p) && exists k | 0 <= k < |lines| :: Strip(lines[k]) == p
    decreases |lines|
  {
    if lines != [] {
      var init, last := lines[..|lines| - 1], lines[|lines| - 1];
      PatternsMembership(init, p);
      assert lines == init + [last];
      SomeLineStripsTo(init, last, p);
      var line, before := Strip(last), Patterns(init);
      assert Patterns(lines) == if IsPattern(line) then before + [line] else before;
      assert p in before + [line] <==> p in before || p == line;
    }
  }

  /** `read_tarignore`: no file gives no patterns; otherwise one pattern per kept line, in order. */
  method ReadTarignore(file: Option<string>) returns (patterns: seq<string>)
    ensures file.None? ==> patterns == []
    ensures file.Some? ==> patterns == Patterns(Lines(file.value))
  {
    if file.None? {
      return [];
    }
    var lines := Lines(file.value);
    patterns := [];
    for i := 0 to |lines|
      invariant patterns == Patterns(lines[..i])
    {
      assert lines[..i + 1][..i] == lines[..i];
      var line := Strip(lines[i]);
      if line != "" && line[0] != '#' {
        patterns := patterns + [line];
      }
    }
    assert lines[..|lines|] == lines;
  }

  /** The patterns `create_archive` uses: the ignore file's when a path is given and the file exists, none otherwise. */
  function SelectedPatterns(ignorePath: string, file: Option<string>): seq<string>
  {
    if ignorePath != "" && file.Some? then Patterns(Lines(file.value)) else []
  }

  /** The pattern source chosen by `create_archive` before it collects files. */
  method LoadPatterns(ignorePath: string, file: Option<string>) returns (patterns: seq<string>)
    ensures patterns == SelectedPatterns(ignorePath, file)
    ensures ignorePath == "" || file.None? ==> patterns == []
  {
    patterns := [];
    if ignorePath != "" {
      if file.Some? {
        patterns := ReadTarignore(file);
      }
    }
  }
}
