/**
 * `fnmatch.fnmatch(name, pat)` on POSIX, where `normcase` changes nothing, so
 * matching is case-sensitive.  The pattern is read much as Python's
 * `fnmatch.translate` reads it (classes are simplified; see the README):
 * `*` matches any run of characters (including
 * `/`), `?` any one character, `[...]` a character class (`!` first negates
 * it, a `]` right after `[` or `[!` belongs to the class, `x-y` is a range),
 * a `[` with no closing `]` is an ordinary character, and every other
 * character stands for itself.  The whole name must match.
 */
module Glob {
  import opened Strings

  datatype ClassItem = Single(c: char) | Span(lo: char, hi: char)

  datatype Token =
    | Star
    | AnyChar
    | Class(negated: bool, items: seq<ClassItem>)
    | Lit(c: char)

  /** True for a pattern that contains one of the glob characters `*`, `?`, `[`. */
  predicate IsWildcard(pattern: string)
  {
    '*' in pattern || '?' in pattern || '[' in pattern
  }

  predicate ItemHas(item: ClassItem, c: char)
  {
    match item
    case Single(d) => c == d
    case Span(lo, hi) => lo <= c <= hi
  }

  predicate InClass(items: seq<ClassItem>, c: char)
  {
    exists k | 0 <= k < |items| :: ItemHas(items[k], c)
  }

  /** Index of the first `]` in `s` at or after `from`, or `|s|` when there is none. */
  function FindClose(s: string, from: nat): (k: nat)
    requires from <= |s|
    ensures from <= k <= |s|
    ensures k < |s| ==> s[k] == ']'
    ensures forall j | from <= j < k :: s[j] != ']'
    decreases |s| - from
  {
    if from == |s| || s[from] == ']' then from else FindClose(s, from + 1)
  }

  /** The members of a class body: `x-y` is a range, any other character stands for itself. */
  function ClassItems(body: string): (items: seq<ClassItem>)
    decreases |body|
  {
    if body == [] then []
    else if |body| >= 3 && body[1] == '-' then [Span(body[0], body[2])] + ClassItems(body[3..])
    else [Single(body[0])] + ClassItems(body[1..])
  }

  /** The token for the text between `[` and `]`. */
  function ClassToken(stuff: string): Token
  {
    if |stuff| > 0 && stuff[0] == '!' then Class(true, ClassItems(stuff[1..]))
    else Class(false, ClassItems(stuff))
  }

  /** The pattern read left to right into tokens. */
  function Tokenize(pattern: string): seq<Token>
    decreases |pattern|
  {
    if pattern == [] then []
    else if pattern[0] == '*' then [Star] + Tokenize(pattern[1..])
    else if pattern[0] == '?' then [AnyChar] + Tokenize(pattern[1..])
    else if pattern[0] == '[' then
      var rest := pattern[1..];
      var j0 := if |rest| > 0 && rest[0] == '!' then 1 else 0;
      var j1 := if j0 < |rest| && rest[j0] == ']' then j0 + 1 else j0;
      var k := FindClose(rest, j1);
      if k == |rest| then [Lit('[')] + Tokenize(rest)
      else [ClassToken(rest[..k])] + Tokenize(rest[k + 1..])
    else [Lit(pattern[0])] + Tokenize(pattern[1..])
  }

  /** The whole of `s` matches the token sequence. */
  predicate Matches(toks: seq<Token>, s: string)
    decreases |toks|, |s|
  {
    if toks == [] then s == []
    else match toks[0]
      case Star => Matches(toks[1..], s) || (s != [] && Matches(toks, s[1..]))
      case AnyChar => s != [] && Matches(toks[1..], s[1..])
      case Lit(c) => s != [] && s[0] == c && Matches(toks[1..], s[1..])
      case Class(negated, items) =>
        s != [] && InClass(items, s[0]) != negated && Matches(toks[1..], s[1..])
  }

  /** `fnmatch.fnmatch(name, pattern)`. */
  predicate Fnmatch(name: string, pattern: string)
  {
    Matches(Tokenize(pattern), name)
  }

  /** One literal token per character. */
  function Lits(p: string): (toks: seq<Token>)
    ensures |toks| == |p|
    ensures forall k | 0 <= k < |p| :: toks[k] == Lit(p[k])
  {
    if p == [] then [] else [Lit(p[0])] + Lits(p[1..])
  }

  /** A pattern with no glob character is read as its characters, one literal each. */
  lemma {:induction false} TokenizeLiteral(p: string, q: string)
    requires !IsWildcard(p)
    ensures Tokenize(p + q) == Lits(p) + Tokenize(q)
    decreases |p|
  {
    if p != [] {
      assert (p + q)[0] == p[0];
      assert (p + q)[1..] == p[1..] + q;
      assert !IsWildcard(p[1..]) by {
        assert forall c | c in p[1..] :: c in p;
      }
      TokenizeLiteral(p[1..], q);
    } else {
      assert p + q == q;
    }
  }

  lemma {:induction false} MatchesLits(p: string, s: string)
    ensures Matches(Lits(p), s) <==> s == p
    decreases |p|
  {
    if p != [] {
      assert Lits(p)[1..] == Lits(p[1..]);
      if s != [] {
        MatchesLits(p[1..], s[1..]);
        if s[0] == p[0] && s[1..] == p[1..] {
          assert s == [s[0]] + s[1..] && p == [p[0]] + p[1..];
        }
      }
    }
  }

  /** Without glob characters `fnmatch` is plain equality. */
  lemma LiteralMatch(name: string, pattern: string)
    requires !IsWildcard(pattern)
    ensures Fnmatch(name, pattern) <==> name == pattern
  {
    TokenizeLiteral(pattern, "");
    assert pattern + "" == pattern;
    assert Tokenize("") == [];
    assert Lits(pattern) + [] == Lits(pattern);
    MatchesLits(pattern, name);
  }

  lemma {:induction false} StarMatchesAll(s: string)
    ensures Matches([Star], s)
    decreases |s|
  {
    assert [Star][1..] == [];
    if s != [] {
      StarMatchesAll(s[1..]);
    }
  }

  /** A non-empty prefix is its first character followed by the rest. */
  lemma StartsWithFirst(s: string, p: string)
    requires s != [] && p != []
    ensures StartsWith(s, p) <==> s[0] == p[0] && StartsWith(s[1..], p[1..])
  {
    if s[0] == p[0] && StartsWith(s[1..], p[1..]) {
      assert s[..|p|] == [s[0]] + s[1..][..|p| - 1];
      assert p == [p[0]] + p[1..];
    }
    if StartsWith(s, p) {
      assert s[0] == s[..|p|][0];
      assert s[1..][..|p| - 1] == s[..|p|][1..];
    }
  }

  lemma {:induction false} MatchesLitsStar(p: string, s: string)
    ensures Matches(Lits(p) + [Star], s) <==> StartsWith(s, p)
    decreases |p|
  {
    var toks := Lits(p) + [Star];
    if p == [] {
      assert toks == [Star];
      StarMatchesAll(s);
    } else {
      assert toks[0] == Lit(p[0]) && toks[1..] == Lits(p[1..]) + [Star];
      if s != [] {
        MatchesLitsStar(p[1..], s[1..]);
        StartsWithFirst(s, p);
      }
    }
  }

  /** `prefix*` with a literal prefix matches exactly the names that begin with that prefix. */
  lemma PrefixStarMatch(name: string, prefix: string)
    requires !IsWildcard(prefix)
    ensures Fnmatch(name, prefix + "*") <==> StartsWith(name, prefix)
  {
    TokenizeLiteral(prefix, "*");
    assert "*"[1..] == "" && Tokenize("") == [];
    assert Tokenize("*") == [Star];
    MatchesLitsStar(prefix, name);
  }

  lemma {:induction false} MatchesStarLits(q: string, s: string)
    ensures Matches([Star] + Lits(q), s) <==> EndsWith(s, q)
    decreases |s|
  {
    var toks := [Star] + Lits(q);
    assert toks[1..] == Lits(q);
    MatchesLits(q, s);
    if s != [] {
      MatchesStarLits(q, s[1..]);
      if |q| < |s| {
        assert s[|s| - |q|..] == s[1..][|s| - 1 - |q|..];
      }
    }
  }

  /** `*suffix` with a literal suffix matches exactly the names that end with that suffix, `/` or not. */
  lemma StarSuffixMatch(name: string, suffix: string)
    requires !IsWildcard(suffix)
    ensures Fnmatch(name, "*" + suffix) <==> EndsWith(name, suffix)
  {
    assert ("*" + suffix)[0] == '*' && ("*" + suffix)[1..] == suffix;
    TokenizeLiteral(suffix, "");
    assert suffix + "" == suffix;
    assert Lits(suffix) + Tokenize("") == Lits(suffix);
    MatchesStarLits(suffix, name);
  }

  /** `*` alone matches every name. */
  lemma StarPatternMatchesAll(name: string)
    ensures Fnmatch(name, "*")
  {
    assert "*"[1..] == "" && Tokenize("") == [];
    assert Tokenize("*") == [Star];
    StarMatchesAll(name);
  }
}
