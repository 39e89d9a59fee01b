/** Python string operations used by the pipeline, written out over `seq<char>`.
    Each function follows CPython's documented behaviour for the cases the
    pipeline reaches (`str.replace`, `str.split`, `in`, `endswith`, `lstrip`,
    `rstrip`, `str(int)`, `zfill`). */
module Text {

  /** `p` occurs in `s` starting at index `i`. */
  predicate OccursAt(s: string, p: string, i: int) {
    0 <= i && i + |p| <= |s| && s[i..i + |p|] == p
  }

  /** Python's `p in s` for strings: the empty string occurs everywhere. */
  predicate Contains(s: string, p: string) {
    exists i :: 0 <= i <= |s| && OccursAt(s, p, i)
  }

  predicate StartsWith(s: string, p: string) {
    |p| <= |s| && s[..|p|] == p
  }

  /** Python's `s.endswith(p)`. */
  predicate EndsWith(s: string, p: string) {
    |p| <= |s| && s[|s| - |p|..] == p
  }

  /** `"abc".replace("", r)` inserts `r` before every character and at the end. */
  function InsertEverywhere(s: string, r: string): string
    decreases |s|
  {
    if s == [] then r else r + [s[0]] + InsertEverywhere(s[1..], r)
  }

  /** Python's `s.replace(p, r)`: every non-overlapping occurrence of `p`,
      scanning left to right, is replaced by `r`. */
  function ReplaceAll(s: string, p: string, r: string): string
    decreases |s|
  {
    if p == [] then InsertEverywhere(s, r)
    else if |s| < |p| then s
    else if s[..|p|] == p then r + ReplaceAll(s[|p|..], p, r)
    else [s[0]] + ReplaceAll(s[1..], p, r)
  }

  /** Python's `s.replace(p, r, 1)`: only the leftmost occurrence is replaced. */
  function ReplaceFirst(s: string, p: string, r: string): string
    decreases |s|
  {
    if p == [] then r + s
    else if |s| < |p| then s
    else if s[..|p|] == p then r + s[|p|..]
    else [s[0]] + ReplaceFirst(s[1..], p, r)
  }

  /** Index of the leftmost occurrence of `p` in `s`, if any (Python's `str.find`). */
  function Find(s: string, p: string): (r: Option<nat>)
    ensures r.Some? ==> OccursAt(s, p, r.value)
    ensures r.Some? ==> forall j :: 0 <= j < r.value ==> !OccursAt(s, p, j)
    ensures r.None? ==> !Contains(s, p)
    decreases |s|
  {
    if |s| < |p| then None
    else if s[..|p|] == p then Some(0)
    else
      var r := Find(s[1..], p);
      FindShift(s, p, r);
      if r.None? then None else Some(r.value + 1)
  }

  /** The search continued one character later, stated for `Find`. */
  lemma FindShift(s: string, p: string, r: Option<nat>)
    requires s != [] && !OccursAt(s, p, 0)
    requires r.Some? ==> OccursAt(s[1..], p, r.value)
    requires r.Some? ==> forall j :: 0 <= j < r.value ==> !OccursAt(s[1..], p, j)
    requires r.None? ==> !Contains(s[1..], p)
    ensures r.Some? ==> OccursAt(s, p, r.value + 1)
    ensures r.Some? ==> forall j :: 0 <= j < r.value + 1 ==> !OccursAt(s, p, j)
    ensures r.None? ==> !Contains(s, p)
  {
    forall j | 1 <= j <= |s| ensures OccursAt(s, p, j) <==> OccursAt(s[1..], p, j - 1) {
      OccursAtShift(s, p, j);
    }
  }

  datatype Option<+T> = None | Some(value: T)

  /** The outcome of a step that Python would end by raising: `Err` names the exception. */
  datatype Result<+T> = Ok(value: T) | Err(error: string)

  /** Python's `s.split(sep)` for a non-empty separator. */
  function Split(s: string, sep: string): (pieces: seq<string>)
    requires sep != []
    ensures |pieces| >= 1
    decreases |s|
  {
    match Find(s, sep)
    case None => [s]
    case Some(i) => [s[..i]] + Split(s[i + |sep|..], sep)
  }

  /** Inverse of `Split`: `sep.join(pieces)`. */
  function Join(pieces: seq<string>, sep: string): string {
    if pieces == [] then ""
    else if |pieces| == 1 then pieces[0]
    else pieces[0] + sep + Join(pieces[1..], sep)
  }

  function Last<T>(xs: seq<T>): T
    requires xs != []
  {
    xs[|xs| - 1]
  }

  /** Python's `s.lstrip(c)` for a single character. */
  function LStrip(s: string, c: char): (r: string)
    ensures r == [] || r[0] != c
    ensures EndsWith(s, r)
    decreases |s|
  {
    if s != [] && s[0] == c then
      var r := LStrip(s[1..], c);
      assert s[1..][|s[1..]| - |r|..] == s[|s| - |r|..];
      r
    else s
  }

  /** Python's `s.rstrip(chars)`: strips every trailing character that belongs
      to the SET `chars` (not the suffix `chars`). */
  function RStripChars(s: string, chars: set<char>): (r: string)
    ensures r == [] || r[|r| - 1] !in chars
    ensures StartsWith(s, r)
    decreases |s|
  {
    if s != [] && s[|s| - 1] in chars then RStripChars(s[..|s| - 1], chars) else s
  }

  /** Python's `s.rsplit(c, 1)[0]`: everything before the last `c`, or `s`. */
  function BeforeLast(s: string, c: char): (r: string)
    ensures StartsWith(s, r)
    ensures c in s ==> |r| < |s| && s[|r|] == c && c !in s[|r| + 1..]
    ensures c !in s ==> r == s
    decreases |s|
  {
    if s == [] then s
    else if s[|s| - 1] == c then s[..|s| - 1]
    else
      var r := BeforeLast(s[..|s| - 1], c);
      if c in s[..|s| - 1] then
        assert s[|r| + 1..] == s[..|s| - 1][|r| + 1..] + [s[|s| - 1]];
        r
      else
        assert s == s[..|s| - 1] + [s[|s| - 1]];
        s
  }

  function DigitChar(d: nat): (c: char)
    requires d < 10
    ensures '0' <= c <= '9' && c as int - '0' as int == d
  {
    ('0' as int + d) as char
  }

  /** `str(n)` for a natural number. */
  function NatToString(n: nat): (r: string)
    ensures |r| >= 1
    ensures forall i :: 0 <= i < |r| ==> '0' <= r[i] <= '9'
    decreases n
  {
    if n < 10 then [DigitChar(n)] else NatToString(n / 10) + [DigitChar(n % 10)]
  }

  /** `str(i)` for any integer. */
  function IntToString(i: int): string {
    if i < 0 then "-" + NatToString(-i) else NatToString(i)
  }

  /** Python's `s.zfill(width)` for a string without a sign. */
  function ZFill(s: string, width: nat): (r: string)
    ensures |r| == if |s| < width then width else |s|
    ensures EndsWith(r, s)
  {
    if |s| < width then seq(width - |s|, _ => '0') + s else s
  }

  function DigitValue(c: char): nat
    requires '0' <= c <= '9'
  {
    c as nat - '0' as nat
  }

  function DigitsValue(s: string): nat
    requires forall i :: 0 <= i < |s| ==> '0' <= s[i] <= '9'
  {
    if s == [] then 0 else DigitsValue(s[..|s| - 1]) * 10 + DigitValue(s[|s| - 1])
  }

  /** Python's `int(s)` on plain decimal digit strings: the value of a
      non-empty run of digits, and `None` for any other text, including the
      signs, surrounding whitespace and underscores `int` would accept. */
  function ParseNat(s: string): Option<nat> {
    if s != [] && forall i :: 0 <= i < |s| ==> '0' <= s[i] <= '9' then Some(DigitsValue(s)) else None
  }

  // ---------------------------------------------------------------------------
  // Lemmas

  lemma {:induction false} OccursAtShift(s: string, p: string, j: int)
    requires s != [] && 1 <= j
    ensures OccursAt(s, p, j) <==> OccursAt(s[1..], p, j - 1)
  {
    if OccursAt(s, p, j) {
      assert s[1..][j - 1..j - 1 + |p|] == s[j..j + |p|];
    }
    if OccursAt(s[1..], p, j - 1) {
      assert s[1..][j - 1..j - 1 + |p|] == s[j..j + |p|];
    }
  }

  /** A pattern that does not occur leaves the string unchanged. */
  lemma {:induction false} ReplaceAllAbsent(s: string, p: string, r: string)
    requires p != [] && !Contains(s, p)
    ensures ReplaceAll(s, p, r) == s
    decreases |s|
  {
    if |s| >= |p| {
      assert !OccursAt(s, p, 0);
      forall j | OccursAt(s[1..], p, j) ensures false {
        OccursAtShift(s, p, j + 1);
      }
      ReplaceAllAbsent(s[1..], p, r);
    }
  }

  /** Replacing a pattern by itself changes nothing. */
  lemma {:induction false} ReplaceAllSelf(s: string, p: string)
    ensures ReplaceAll(s, p, p) == s
    decreases |s|
  {
    if p == [] {
      InsertEmpty(s);
    } else if |s| >= |p| {
      if s[..|p|] == p {
        ReplaceAllSelf(s[|p|..], p);
        assert s == s[..|p|] + s[|p|..];
      } else {
        ReplaceAllSelf(s[1..], p);
        assert s == [s[0]] + s[1..];
      }
    }
  }

  lemma {:induction false} InsertEmpty(s: string)
    ensures InsertEverywhere(s, "") == s
    decreases |s|
  {
    if s != [] {
      InsertEmpty(s[1..]);
      assert s == [s[0]] + s[1..];
    }
  }

  lemma ContainsPrefix(a: string, b: string, p: string)
    requires Contains(b, p)
    ensures Contains(a + b, p)
  {
    var i :| 0 <= i <= |b| && OccursAt(b, p, i);
    assert i + |p| <= |b| && b[i..i + |p|] == p;
    assert (a + b)[|a| + i..|a| + i + |p|] == b[i..i + |p|];
    assert OccursAt(a + b, p, |a| + i);
  }

  lemma ContainsStart(a: string, b: string)
    ensures Contains(a + b, a)
  {
    assert (a + b)[0..|a|] == a;
    assert OccursAt(a + b, a, 0);
  }

  /** When the pattern occurs, the replacement text appears in the result. */
  lemma {:induction false} ReplaceAllIntroduces(s: string, p: string, r: string)
    requires p != [] && Contains(s, p)
    ensures Contains(ReplaceAll(s, p, r), r)
    decreases |s|
  {
    var i :| 0 <= i <= |s| && OccursAt(s, p, i);
    assert |s| >= |p|;
    if s[..|p|] == p {
      ContainsStart(r, ReplaceAll(s[|p|..], p, r));
    } else {
      assert i != 0 && s != [];
      OccursAtShift(s, p, i);
      ReplaceAllIntroduces(s[1..], p, r);
      ContainsPrefix([s[0]], ReplaceAll(s[1..], p, r), r);
    }
  }

  /** Replacing a one-character pattern by text without that character
      removes the character everywhere (e.g. `t.replace(' ', '')`). */
  lemma {:induction false} ReplaceCharRemoves(s: string, c: char, r: string)
    requires c !in r
    ensures c !in ReplaceAll(s, [c], r)
    decreases |s|
  {
    if |s| >= 1 {
      if s[..1] == [c] {
        ReplaceCharRemoves(s[1..], c, r);
      } else {
        ReplaceCharRemoves(s[1..], c, r);
      }
    }
  }

  /** `ReplaceFirst` replaces exactly the leftmost occurrence found by `Find`
      and leaves a string without the pattern unchanged. */
  lemma ReplaceFirstAtFind(s: string, p: string, r: string)
    requires p != []
    ensures Find(s, p).None? ==> ReplaceFirst(s, p, r) == s
    ensures Find(s, p).Some? ==>
      ReplaceFirst(s, p, r) == s[..Find(s, p).value] + r + s[Find(s, p).value + |p|..]
  {
    if Find(s, p).None? { ReplaceFirstAbsent(s, p, r); } else { ReplaceFirstFound(s, p, r, Find(s, p).value); }
  }

  lemma {:induction false} ReplaceFirstAbsent(s: string, p: string, r: string)
    requires p != [] && Find(s, p).None?
    ensures ReplaceFirst(s, p, r) == s
    decreases |s|
  {
    if |s| >= |p| {
      assert s[..|p|] != p;
      assert Find(s[1..], p).None?;
      ReplaceFirstAbsent(s[1..], p, r);
      assert s == [s[0]] + s[1..];
    }
  }

  /** `ReplaceFirst` splices `r` in at the leftmost occurrence `i`. */
  lemma {:induction false} ReplaceFirstFound(s: string, p: string, r: string, i: nat)
    requires p != [] && OccursAt(s, p, i)
    requires forall j :: 0 <= j < i ==> !OccursAt(s, p, j)
    ensures ReplaceFirst(s, p, r) == s[..i] + r + s[i + |p|..]
    decreases i
  {
    if i == 0 {
      assert s[..|p|] == p;
      assert s[..0] + r + s[|p|..] == r + s[|p|..];
    } else {
      FirstInTail(s, p, i);
      ReplaceFirstFound(s[1..], p, r, i - 1);
      ReplaceFirstCons(s, p, r, i - 1);
    }
  }

  /** A leftmost occurrence past the head is, one place earlier, the
      leftmost occurrence in the tail. */
  lemma FirstInTail(s: string, p: string, i: nat)
    requires 0 < i && OccursAt(s, p, i)
    requires forall j :: 0 <= j < i ==> !OccursAt(s, p, j)
    ensures |s| >= |p| && s[..|p|] != p
    ensures OccursAt(s[1..], p, i - 1)
    ensures forall j :: 0 <= j < i - 1 ==> !OccursAt(s[1..], p, j)
  {
    assert !OccursAt(s, p, 0);
    forall j | 0 <= j < i - 1 ensures !OccursAt(s[1..], p, j) {
      OccursAtShift(s, p, j + 1);
    }
    OccursAtShift(s, p, i);
  }

  /** One step of `ReplaceFirst` past a non-matching head. */
  lemma ReplaceFirstCons(s: string, p: string, r: string, k: nat)
    requires p != [] && |s| >= |p| && s[..|p|] != p && k + |p| <= |s| - 1
    requires ReplaceFirst(s[1..], p, r) == s[1..][..k] + r + s[1..][k + |p|..]
    ensures ReplaceFirst(s, p, r) == s[..k + 1] + r + s[k + 1 + |p|..]
  {
    assert ReplaceFirst(s, p, r) == [s[0]] + ReplaceFirst(s[1..], p, r);
    SpliceCons(s, k, |p|, r);
  }

  /** Splicing `r` into the tail of `s` and putting the head back is
      splicing one place later into `s`. */
  lemma SpliceCons(s: string, k: nat, n: nat, r: string)
    requires s != [] && k + n <= |s| - 1
    ensures [s[0]] + (s[1..][..k] + r + s[1..][k + n..]) == s[..k + 1] + r + s[k + 1 + n..]
  {
    assert s[..k + 1] == [s[0]] + s[1..][..k];
    assert s[k + 1 + n..] == s[1..][k + n..];
  }

  /** `sep.join(s.split(sep)) == s`. */
  lemma {:induction false} SplitJoin(s: string, sep: string)
    requires sep != []
    ensures Join(Split(s, sep), sep) == s
    decreases |s|
  {
    match Find(s, sep)
    case None =>
    case Some(i) =>
      var rest := s[i + |sep|..];
      var tail := Split(rest, sep);
      SplitJoin(rest, sep);
      assert Split(s, sep) == [s[..i]] + tail;
      JoinPrepend(s[..i], tail, sep);
      FoundSplitsAt(s, sep, i);
  }

  lemma JoinPrepend(head: string, tail: seq<string>, sep: string)
    requires tail != []
    ensures Join([head] + tail, sep) == head + sep + Join(tail, sep)
  {
    var pieces := [head] + tail;
    assert pieces[0] == head && pieces[1..] == tail;
  }

  lemma FoundSplitsAt(s: string, sep: string, i: nat)
    requires i + |sep| <= |s| && s[i..i + |sep|] == sep
    ensures s == s[..i] + sep + s[i + |sep|..]
  {
  }

  /** No piece of `s.split(sep)` contains the separator. */
  lemma {:induction false} SplitPiecesFree(s: string, sep: string)
    requires sep != []
    ensures forall k :: 0 <= k < |Split(s, sep)| ==> !Contains(Split(s, sep)[k], sep)
    decreases |s|
  {
    match Find(s, sep)
    case None =>
    case Some(i) =>
      var rest := s[i + |sep|..];
      SplitPiecesFree(rest, sep);
      forall j | OccursAt(s[..i], sep, j) ensures false {
        assert s[..i][j..j + |sep|] == s[j..j + |sep|];
        assert OccursAt(s, sep, j);
      }
  }

  /** The last piece of `s.split(sep)` (`split(sep)[-1]`) never contains `sep`,
      nor does the first (`split(sep)[0]`). */
  lemma SplitEndsFree(s: string, sep: string)
    requires sep != []
    ensures !Contains(Last(Split(s, sep)), sep)
    ensures !Contains(Split(s, sep)[0], sep)
  {
    SplitPiecesFree(s, sep);
  }

  /** Different numbers are rendered differently. */
  lemma {:induction false} NatToStringInjective(m: nat, n: nat)
    requires NatToString(m) == NatToString(n)
    ensures m == n
    decreases m + n
  {
    var a, b := NatToString(m), NatToString(n);
    if m < 10 && n < 10 {
      assert a[0] == DigitChar(m) && b[0] == DigitChar(n);
    } else if m < 10 || n < 10 {
      assert false;
    } else {
      assert a[..|a| - 1] == NatToString(m / 10) && b[..|b| - 1] == NatToString(n / 10);
      NatToStringInjective(m / 10, n / 10);
      assert a[|a| - 1] == DigitChar(m % 10) && b[|b| - 1] == DigitChar(n % 10);
    }
  }

  /** `ZFill` pads a one-digit number to two digits, as in `str(m).zfill(2)`. */
  lemma ZFillTwoDigits(n: nat)
    requires n < 100
    ensures |ZFill(NatToString(n), 2)| == 2
  {
    if n >= 10 {
      assert |NatToString(n / 10)| == 1;
    }
  }

  /** `Split` undoes `Join` when no piece contains the separator. */
  lemma {:induction false} JoinSplit(pieces: seq<string>, c: char)
    requires pieces != []
    requires forall k :: 0 <= k < |pieces| ==> c !in pieces[k]
    ensures Split(Join(pieces, [c]), [c]) == pieces
    decreases |pieces|
  {
    var s := Join(pieces, [c]);
    if |pieces| == 1 {
      NoCharNoFind(pieces[0], c);
    } else {
      var rest := Join(pieces[1..], [c]);
      JoinSplit(pieces[1..], c);
      assert s == pieces[0] + [c] + rest;
      FindFirstChar(pieces[0], c, rest);
      assert s[|pieces[0]| + 1..] == rest;
      assert s[..|pieces[0]|] == pieces[0];
    }
  }

  lemma NoCharNoFind(s: string, c: char)
    requires c !in s
    ensures Find(s, [c]).None?
  {
    forall i | 0 <= i <= |s| ensures !OccursAt(s, [c], i) {
      if i < |s| {
        assert s[i..i + 1] == [s[i]];
      }
    }
  }

  lemma FindFirstChar(a: string, c: char, b: string)
    requires c !in a
    ensures Find(a + [c] + b, [c]) == Some(|a|)
  {
    var s := a + [c] + b;
    assert s[|a|..|a| + 1] == [c];
    assert OccursAt(s, [c], |a|);
    forall i | 0 <= i < |a| ensures !OccursAt(s, [c], i) {
      assert s[i..i + 1] == [a[i]];
    }
  }

  /** Splitting at the first separator: the part before it is the first piece. */
  lemma SplitAtFirst(a: string, c: char, b: string)
    requires c !in a
    ensures Split(a + [c] + b, [c]) == [a] + Split(b, [c])
  {
    var s := a + [c] + b;
    FindFirstChar(a, c, b);
    assert s[..|a|] == a;
    assert s[|a| + 1..] == b;
  }
}
