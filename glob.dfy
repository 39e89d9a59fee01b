/** Shell-style name matching as `fnmatch.fnmatchcase` does it without
    bracket expressions: `*` matches any run of characters, `?` any single
    character, and every other character, `[` included, itself. Names are
    compared case-sensitively, as `fnmatch.filter` does on POSIX. */
module Glob {
  import opened Text

  /** `fnmatch.fnmatchcase(name, pattern)`. */
  predicate Match(pattern: string, name: string)
    decreases |pattern| + |name|
  {
    if pattern == [] then name == []
    else if pattern[0] == '*' then Match(pattern[1..], name) || (name != [] && Match(pattern, name[1..]))
    else name != [] && (pattern[0] == '?' || pattern[0] == name[0]) && Match(pattern[1..], name[1..])
  }

  /** A pattern without wildcards. */
  predicate Literal(p: string) {
    forall i :: 0 <= i < |p| ==> p[i] != '*' && p[i] != '?'
  }

  /** A literal pattern matches exactly itself. */
  lemma {:induction false} LiteralMatch(p: string, name: string)
    requires Literal(p)
    ensures Match(p, name) <==> name == p
    decreases |p|
  {
    if p != [] && name != [] {
      LiteralMatch(p[1..], name[1..]);
      if name == p { assert name[1..] == p[1..]; }
      if p[0] == name[0] && name[1..] == p[1..] { assert name == [name[0]] + name[1..]; }
    }
  }

  /** A literal head must be matched character for character. */
  lemma {:induction false} LiteralHead(a: string, q: string, name: string)
    requires Literal(a)
    ensures Match(a + q, name) <==> StartsWith(name, a) && Match(q, name[|a|..])
    decreases |a|
  {
    if a != [] {
      assert (a + q)[0] == a[0] && (a + q)[1..] == a[1..] + q;
      if name != [] {
        LiteralHead(a[1..], q, name[1..]);
        if |a| <= |name| { assert name[1..][|a| - 1..] == name[|a|..]; }
        if StartsWith(name, a) { assert name[1..][..|a| - 1] == a[1..]; }
        if name[0] == a[0] && StartsWith(name[1..], a[1..]) {
          assert name[..|a|] == [name[0]] + name[1..][..|a| - 1];
        }
      }
    } else {
      assert a + q == q;
    }
  }

  /** `*` followed by a literal tail matches exactly the names ending in it. */
  lemma {:induction false} StarLiteral(b: string, name: string)
    requires Literal(b)
    ensures Match("*" + b, name) <==> EndsWith(name, b)
    decreases |name|
  {
    var p := "*" + b;
    assert p[1..] == b;
    LiteralMatch(b, name);
    if name != [] {
      StarLiteral(b, name[1..]);
      if |b| <= |name[1..]| { assert name[1..][|name[1..]| - |b|..] == name[|name| - |b|..]; }
    }
  }

  /** `prefix*suffix` with literal ends, as in `instr_*_model` and
      `col_*_variable`: the names that start with the prefix and end with the
      suffix, the two not overlapping. */
  lemma StemPattern(a: string, b: string, name: string)
    requires Literal(a) && Literal(b)
    ensures Match(a + "*" + b, name) <==>
      StartsWith(name, a) && EndsWith(name[|a|..], b)
  {
    assert a + "*" + b == a + ("*" + b);
    LiteralHead(a, "*" + b, name);
    if StartsWith(name, a) { StarLiteral(b, name[|a|..]); }
  }

  /** `fnmatch.filter(names, pattern)` on POSIX: the matching names in their order. */
  function Filter(names: seq<string>, pattern: string): (r: seq<string>)
    ensures forall n :: n in r <==> n in names && Match(pattern, n)
    ensures |r| <= |names|
  {
    if names == [] then []
    else
      var rest := Filter(names[..|names| - 1], pattern);
      assert names == names[..|names| - 1] + [Last(names)];
      if Match(pattern, Last(names)) then rest + [Last(names)] else rest
  }

  /** Filtering keeps the relative order of the names it keeps. */
  lemma {:induction false} FilterKeepsOrder(pattern: string, a: seq<string>, b: seq<string>)
    ensures Filter(a + b, pattern) == Filter(a, pattern) + Filter(b, pattern)
    decreases |b|
  {
    if b == [] {
      assert a + b == a;
    } else {
      var b0, x := b[..|b| - 1], Last(b);
      FilterKeepsOrder(pattern, a, b0);
      SplitLast(a, b);
      FilterSnoc(pattern, a + b0, x);
      FilterSnoc(pattern, b0, x);
    }
  }

  /** Filtering a list with one more name at the end. */
  lemma FilterSnoc(pattern: string, names: seq<string>, x: string)
    ensures Filter(names + [x], pattern) == Filter(names, pattern) + (if Match(pattern, x) then [x] else [])
  {
    assert (names + [x])[..|names + [x]| - 1] == names;
  }

  lemma SplitLast(a: seq<string>, b: seq<string>)
    requires b != []
    ensures a + b == (a + b[..|b| - 1]) + [Last(b)]
    ensures b == b[..|b| - 1] + [Last(b)]
  {
  }
}
