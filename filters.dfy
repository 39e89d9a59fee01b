/** The filter pass of `filterData`: how a file's `Filter Flags` text grows
    as rules fire, which data columns a rule's variables resolve to in each
    configuration group, and the whole pass over rules, conditions, groups
    and statistics, after which every flagged file loses its group. */
module Filters {
  import opened Text
  import opened Tables
  import opened Grouping

  /** The inventory columns the pass reads and writes. */
  const FlagColumn: string := "Filter Flags"
  const GroupIdColumn: string := "groupID"

  // ---------------------------------------------------------------------------
  // The flag text

  /** `f'{name}: {what}'`: the text one firing adds. */
  function Label(name: string, what: string): (l: string)
    ensures l != [] && ':' in l
    ensures StartsWith(l, name) && EndsWith(l, what)
  {
    var l := name + ": " + what;
    assert l[|name|] == ':';
    l
  }

  /** A entry that reads back unambiguously: not empty, no leading comma,
      and no NaN tag inside it. */
  predicate Clean(l: string) {
    l != [] && l[0] != ',' && !Contains(l, NanTag)
  }

  /** `(flags.str.replace(NaN tag, '') + f',{entry}').str.lstrip(',')`: the
      tag is deleted, the entry appended after a comma, and leading commas
      stripped. Nothing is deduplicated. */
  function AppendFlag(flags: string, entry: string): (r: string)
    ensures entry != [] && entry[0] != ',' ==> EndsWith(r, entry)
    ensures ':' in entry ==> ':' in r && r != NanTag
  {
    var head := ReplaceAll(flags, NanTag, "") + ",";
    assert ReplaceAll(flags, NanTag, "") + "," + entry == head + entry;
    LStripAppend(head, entry, ',');
    var r := LStrip(head + entry, ',');
    LStripKeeps(head + entry, ',', ':');
    r
  }

  /** Stripping one character keeps every other character. */
  lemma {:induction false} LStripKeeps(s: string, c: char, d: char)
    ensures d in s && d != c ==> d in LStrip(s, c)
    decreases |s|
  {
    if d in s && d != c && s[0] == c {
      assert d in s[1..];
      LStripKeeps(s[1..], c, d);
    }
  }

  /** Stripping a character off the front of `a + b` stops inside `a` when
      `b` does not start with it. */
  lemma {:induction false} LStripAppend(a: string, b: string, c: char)
    ensures b != [] && b[0] != c ==> LStrip(a + b, c) == LStrip(a, c) + b
    decreases |a|
  {
    if b != [] && b[0] != c {
      if a == [] {
        assert a + b == b;
      } else if a[0] == c {
        assert (a + b)[0] == c && (a + b)[1..] == a[1..] + b;
        LStripAppend(a[1..], b, c);
      } else {
        assert (a + b)[0] != c;
      }
    }
  }

  /** The first firing on a file replaces the tag by the entry. */
  lemma FirstFlag(entry: string)
    requires Clean(entry)
    ensures AppendFlag(NanTag, entry) == entry
  {
    assert ReplaceAll(NanTag, NanTag, "") == "" by {
      assert NanTag[..|NanTag|] == NanTag;
      assert NanTag[|NanTag|..] == "";
    }
    LStripAppend(",", entry, ',');
    assert "" + "," + entry == "," + entry;
  }

  /** A later firing appends `,entry` to flags that are already clean. */
  lemma NextFlag(flags: string, entry: string)
    requires Clean(flags) && Clean(entry)
    ensures AppendFlag(flags, entry) == flags + "," + entry
  {
    ReplaceAllAbsent(flags, NanTag, "");
    LStripAppend(flags + ",", entry, ',');
    LStripAppend([], flags + ",", ',');
    assert flags + "," + entry == (flags + ",") + entry;
  }

  /** A NaN tag cannot straddle a comma: two clean texts joined by one
      stay clean. */
  lemma CleanJoin(a: string, b: string)
    requires Clean(a) && Clean(b)
    ensures Clean(a + "," + b)
  {
    var s := a + "," + b;
    forall i | 0 <= i <= |s| ensures !OccursAt(s, NanTag, i) {
      if i + 3 <= |a| {
        assert s[i..i + 3] == a[i..i + 3];
        assert !OccursAt(a, NanTag, i);
      } else if i <= |a| && i + 3 <= |s| {
        assert s[|a|] == ',';
        assert s[i..i + 3][|a| - i] == ',';
      } else if i + 3 <= |s| {
        var j := i - |a| - 1;
        assert forall k :: 0 <= k < |b| ==> s[|a| + 1 + k] == b[k];
        assert s[i..i + 3] == b[j..j + 3];
        assert !OccursAt(b, NanTag, j);
      }
    }
  }

  /** The flags after each entry fires once, in order. */
  function AppendAll(flags: string, entries: seq<string>): string
    decreases |entries|
  {
    if entries == [] then flags else AppendAll(AppendFlag(flags, entries[0]), entries[1..])
  }

  /** Firing on flags that are already clean adds every entry, in order,
      after a comma, duplicates included. */
  lemma {:induction false} AppendAllOnto(flags: string, entries: seq<string>)
    requires Clean(flags)
    requires forall k :: 0 <= k < |entries| ==> Clean(entries[k])
    ensures AppendAll(flags, entries) == if entries == [] then flags else flags + "," + Join(entries, ",")
    decreases |entries|
  {
    if entries != [] {
      var next := flags + "," + entries[0];
      NextFlag(flags, entries[0]);
      CleanJoin(flags, entries[0]);
      assert AppendAll(flags, entries) == AppendAll(next, entries[1..]);
      AppendAllOnto(next, entries[1..]);
      if |entries| > 1 {
        CommaAssoc(flags, entries[0], Join(entries[1..], ","));
      }
    }
  }

  lemma CommaAssoc(a: string, b: string, c: string)
    ensures (a + "," + b) + "," + c == a + "," + (b + "," + c)
  {
  }

  /** Starting from the NaN tag, the flags of a file are its entries joined
      by commas: the tag disappears with the first firing. */
  lemma AppendAllFromTag(entries: seq<string>)
    requires entries != []
    requires forall k :: 0 <= k < |entries| ==> Clean(entries[k])
    ensures AppendAll(NanTag, entries) == Join(entries, ",")
  {
    FirstFlag(entries[0]);
    AppendAllOnto(entries[0], entries[1..]);
  }

  /** The entries can be read back with `split(',')` when none holds a comma. */
  lemma FlagsReadBack(entries: seq<string>)
    requires entries != []
    requires forall k :: 0 <= k < |entries| ==> Clean(entries[k]) && ',' !in entries[k]
    ensures Split(AppendAll(NanTag, entries), ",") == entries
  {
    AppendAllFromTag(entries);
    JoinSplit(entries, ',');
  }

  // ---------------------------------------------------------------------------
  // Resolving a rule's variables to data columns

  /** `'col_' + k + '_header_name'`. */
  function HeaderName(k: string): (h: string)
    ensures |h| == |k| + 16
  {
    "col_" + k + "_header_name"
  }

  lemma HeaderNameInjective(a: string, b: string)
    requires HeaderName(a) == HeaderName(b)
    ensures a == b
  {
    assert a == HeaderName(a)[4..4 + |a|];
    assert b == HeaderName(b)[4..4 + |b|];
  }

  /** `key.split('_')[1]`: the column number of `col_<k>_<field>`; a key
      without an underscore raises IndexError. */
  function ColumnNumber(key: string): (r: Result<string>)
    ensures r.Err? <==> '_' !in key
  {
    var pieces := Split(key, "_");
    if '_' !in key then
      NoCharNoFind(key, '_');
      Err("IndexError: list index out of range")
    else
      assert |pieces| >= 2 by {
        var i :| 0 <= i < |key| && key[i] == '_';
        assert key[i..i + 1] == "_";
        assert OccursAt(key, "_", i);
        assert Contains(key, "_");
      }
      Ok(pieces[1])
  }

  /** The number is read back from every `col_<k>_<field>` name, header
      names included. */
  lemma ColumnNumberOf(k: string, field: string)
    requires '_' !in k
    ensures ColumnNumber("col_" + k + "_" + field) == Ok(k)
  {
    var key := "col_" + k + "_" + field;
    var rest := k + "_" + field;
    assert key == "col" + ['_'] + rest;
    assert '_' in key by { assert key[3] == '_'; }
    SplitAtFirst("col", '_', rest);
    SplitAtFirst(k, '_', field);
    assert Split(key, "_")[1] == Split(rest, "_")[0] == k;
  }

  lemma HeaderNameNumber(k: string)
    requires '_' !in k
    ensures ColumnNumber(HeaderName(k)) == Ok(k)
  {
    ColumnNumberOf(k, "header_name");
    assert HeaderName(k) == "col_" + k + "_" + "header_name";
  }

  /** A FileDescription cell the condition asks for: its value is one of the
      variables, or the measure type (`row.isin(variables) |
      row.isin([measure_type])`). */
  predicate Wanted(v: Cell, variables: seq<string>, measureType: string) {
    v.Str? && (v.s in variables || v.s == measureType)
  }

  /** The column numbers of the wanted cells of one group's FileDescription
      row (keys in column order), one entry per wanted cell. */
  function MatchedNumbers(fd: seq<(string, Cell)>, variables: seq<string>, measureType: string)
    : (r: Result<seq<string>>)
    ensures r.Err? <==> exists i :: 0 <= i < |fd| && Wanted(fd[i].1, variables, measureType) && '_' !in fd[i].0
    ensures r.Ok? ==> forall k :: k in r.value <==>
      exists i :: 0 <= i < |fd| && Wanted(fd[i].1, variables, measureType) && ColumnNumber(fd[i].0) == Ok(k)
    decreases |fd|
  {
    if fd == [] then Ok([])
    else
      var rest := MatchedNumbers(fd[1..], variables, measureType);
      assert forall i :: 1 <= i < |fd| ==> fd[i] == fd[1..][i - 1];
      if !Wanted(fd[0].1, variables, measureType) then rest
      else match ColumnNumber(fd[0].0)
        case Err(e) => Err(e)
        case Ok(k) =>
          if rest.Err? then rest
          else
            assert forall j :: j in [k] + rest.value <==> j == k || j in rest.value;
            Ok([k] + rest.value)
  }

  /** Index of the first occurrence of `x`. */
  function FirstIndex(xs: seq<string>, x: string): (i: nat)
    requires x in xs
    ensures i < |xs| && xs[i] == x
    ensures forall j :: 0 <= j < i ==> xs[j] != x
  {
    if xs[0] == x then 0 else 1 + FirstIndex(xs[1..], x)
  }

  lemma FirstIndexPrefix(xs: seq<string>, n: nat, x: string)
    requires n <= |xs| && x in xs[..n]
    ensures FirstIndex(xs, x) == FirstIndex(xs[..n], x) < n
  {
    var i := FirstIndex(xs[..n], x);
    assert xs[i] == x;
    var f := FirstIndex(xs, x);
    assert f <= i;
    assert xs[..n][f] == x;
  }

  /** The keys of `Counter(xs)`: every value once, in order of first
      appearance. */
  function Distinct(xs: seq<string>): (d: seq<string>)
    ensures forall x :: x in d <==> x in xs
    ensures forall i, j :: 0 <= i < j < |d| ==> FirstIndex(xs, d[i]) < FirstIndex(xs, d[j])
    decreases |xs|
  {
    if xs == [] then []
    else
      var n := |xs| - 1;
      var d := Distinct(xs[..n]);
      var x := xs[n];
      assert xs == xs[..n] + [x];
      DistinctSnoc(xs, d);
      if x in d then d
      else
        assert FirstIndex(xs, x) == n;
        d + [x]
  }

  lemma DistinctSnoc(xs: seq<string>, d: seq<string>)
    requires xs != [] && forall y :: y in d ==> y in xs[..|xs| - 1]
    ensures forall y :: y in d ==> FirstIndex(xs, y) == FirstIndex(xs[..|xs| - 1], y) < |xs| - 1
  {
    var n := |xs| - 1;
    forall y | y in d ensures FirstIndex(xs, y) == FirstIndex(xs[..n], y) < n {
      FirstIndexPrefix(xs, n, y);
    }
  }

  /** `max(Counter(xs).values())` over the keys `ks`. */
  function MaxCount(ks: seq<string>, m: multiset<string>): (top: nat)
    ensures forall k :: k in ks ==> m[k] <= top
    ensures ks != [] ==> exists k :: k in ks && m[k] == top
  {
    if ks == [] then 0
    else
      var rest := MaxCount(ks[1..], m);
      assert forall k :: k in ks <==> k == ks[0] || k in ks[1..];
      if m[ks[0]] >= rest then m[ks[0]] else rest
  }

  /** `x` comes before `y` in `ks`. */
  predicate Before(ks: seq<string>, x: string, y: string) {
    exists a, b :: 0 <= a < b < |ks| && ks[a] == x && ks[b] == y
  }

  /** The keys of `ks` whose count is `top`, in the order of `ks`. */
  function Modes(ks: seq<string>, m: multiset<string>, top: nat): (r: seq<string>)
    ensures forall k :: k in r <==> k in ks && m[k] == top
    ensures forall i, j :: 0 <= i < j < |r| ==> Before(ks, r[i], r[j])
  {
    if ks == [] then []
    else
      var rest := Modes(ks[1..], m, top);
      assert forall k :: k in ks <==> k == ks[0] || k in ks[1..];
      if m[ks[0]] == top then
        ModesCons(ks, rest, true);
        [ks[0]] + rest
      else
        ModesCons(ks, rest, false);
        rest
  }

  lemma ModesCons(ks: seq<string>, rest: seq<string>, keep: bool)
    requires ks != []
    requires forall k :: k in rest ==> k in ks[1..]
    requires forall i, j :: 0 <= i < j < |rest| ==> Before(ks[1..], rest[i], rest[j])
    ensures keep ==> forall i, j :: 0 <= i < j < |rest| + 1 ==> Before(ks, ([ks[0]] + rest)[i], ([ks[0]] + rest)[j])
    ensures !keep ==> forall i, j :: 0 <= i < j < |rest| ==> Before(ks, rest[i], rest[j])
  {
    var r := if keep then [ks[0]] + rest else rest;
    forall i, j | 0 <= i < j < |r| ensures Before(ks, r[i], r[j]) {
      if keep && i == 0 {
        assert r[j] in ks[1..];
        var b :| 0 <= b < |ks[1..]| && ks[1..][b] == r[j];
        assert ks[0] == r[i] && ks[b + 1] == r[j];
      } else {
        var i', j' := if keep then i - 1 else i, if keep then j - 1 else j;
        assert Before(ks[1..], rest[i'], rest[j']);
        var a, b :| 0 <= a < b < |ks[1..]| && ks[1..][a] == rest[i'] && ks[1..][b] == rest[j'];
        assert ks[a + 1] == r[i] && ks[b + 1] == r[j];
      }
    }
  }

  /** The column numbers matched most often (the Counter's most common
      keys, ties all kept), each once, in order of first appearance. */
  function TopNumbers(lst: seq<string>): (ks: seq<string>)
    ensures forall k :: k in ks <==> k in lst && forall j :: j in lst ==> multiset(lst)[j] <= multiset(lst)[k]
    ensures forall i, j :: 0 <= i < j < |ks| ==> FirstIndex(lst, ks[i]) < FirstIndex(lst, ks[j])
    ensures lst != [] ==> ks != []
  {
    var d := Distinct(lst);
    var m := multiset(lst);
    var top := MaxCount(d, m);
    var ks := Modes(d, m, top);
    TopNumbersFacts(lst, d, top, ks);
    ks
  }

  lemma TopNumbersFacts(lst: seq<string>, d: seq<string>, top: nat, ks: seq<string>)
    requires d == Distinct(lst) && top == MaxCount(d, multiset(lst)) && ks == Modes(d, multiset(lst), top)
    ensures forall k :: k in ks <==> k in lst && forall j :: j in lst ==> multiset(lst)[j] <= multiset(lst)[k]
    ensures forall i, j :: 0 <= i < j < |ks| ==> FirstIndex(lst, ks[i]) < FirstIndex(lst, ks[j])
    ensures lst != [] ==> ks != []
  {
    var m := multiset(lst);
    forall i, j | 0 <= i < j < |ks| ensures FirstIndex(lst, ks[i]) < FirstIndex(lst, ks[j]) {
      assert Before(d, ks[i], ks[j]);
      var a, b :| 0 <= a < b < |d| && d[a] == ks[i] && d[b] == ks[j];
    }
    forall k | k in lst && (forall j :: j in lst ==> m[j] <= m[k]) ensures k in ks {
      var w :| w in d && m[w] == top;
    }
    if lst != [] {
      var w :| w in d && m[w] == top;
      assert w in ks;
    }
  }

  /** `header_names` for one group: the header names of the most often
      matched column numbers. A wanted key without an underscore raises. */
  function HeaderColumns(fd: seq<(string, Cell)>, variables: seq<string>, measureType: string)
    : (r: Result<seq<string>>)
    ensures r.Err? <==> MatchedNumbers(fd, variables, measureType).Err?
  {
    match MatchedNumbers(fd, variables, measureType)
    case Err(e) => Err(e)
    case Ok(lst) => Ok(HeaderNames(TopNumbers(lst)))
  }

  function HeaderNames(ks: seq<string>): (hs: seq<string>)
    ensures |hs| == |ks| && forall i :: 0 <= i < |ks| ==> hs[i] == HeaderName(ks[i])
  {
    seq(|ks|, i requires 0 <= i < |ks| => HeaderName(ks[i]))
  }

  /** The header names found are those of the column numbers matched most
      often, each once, and a group with any match gets at least one. */
  lemma HeaderColumnsAreModes(fd: seq<(string, Cell)>, variables: seq<string>, measureType: string)
    requires HeaderColumns(fd, variables, measureType).Ok?
    ensures var lst := MatchedNumbers(fd, variables, measureType).value;
      var hs := HeaderColumns(fd, variables, measureType).value;
      && (forall k :: HeaderName(k) in hs <==> k in lst && forall j :: j in lst ==> multiset(lst)[j] <= multiset(lst)[k])
      && (forall i, j :: 0 <= i < j < |hs| ==> hs[i] != hs[j])
      && (lst != [] ==> hs != [])
  {
    var lst := MatchedNumbers(fd, variables, measureType).value;
    var ks := TopNumbers(lst);
    var hs := HeaderNames(ks);
    forall k | HeaderName(k) in hs ensures k in ks {
      var i :| 0 <= i < |hs| && hs[i] == HeaderName(k);
      HeaderNameInjective(ks[i], k);
    }
    forall i, j | 0 <= i < j < |hs| ensures hs[i] != hs[j] {
      if hs[i] == hs[j] {
        HeaderNameInjective(ks[i], ks[j]);
      }
    }
  }

  /** A column number that matches both a variable and the measure type
      (two cells) beats one that matches only one of them, when no column
      holds more than two wanted cells: the header found is that column's. */
  lemma BothBeatsOne(lst: seq<string>, k: string, j: string)
    requires multiset(lst)[k] == 2 && multiset(lst)[j] == 1
    requires forall x :: x in lst ==> multiset(lst)[x] <= 2
    ensures k in TopNumbers(lst) && j !in TopNumbers(lst)
  {
    assert k in multiset(lst) && j in multiset(lst);
  }

  /** The FileDescription row of a configuration group, keys in column
      order: `configurationGroups['FileDescription']`. */
  function FileDescriptionRow(first: Row<Column>, order: seq<Column>): (fd: seq<(string, Cell)>)
    ensures forall p :: p in fd ==> ("FileDescription", p.0) in first && p.1 == first[("FileDescription", p.0)]
    ensures forall c :: c in order && c.0 == "FileDescription" && c in first ==> (c.1, first[c]) in fd
  {
    if order == [] then []
    else
      var rest := FileDescriptionRow(first, order[1..]);
      assert forall c :: c in order <==> c == order[0] || c in order[1..];
      var c := order[0];
      if c.0 == "FileDescription" && c in first then
        [(c.1, first[c])] + rest
      else rest
  }

  /** `h`: the group's first value of each `('Custom', header)` column. In
      current pandas a header missing from the table raises KeyError. */
  function HeaderValues(first: Row<Column>, headers: seq<string>): (r: Result<seq<Cell>>)
    ensures r.Err? <==> exists i :: 0 <= i < |headers| && ("Custom", headers[i]) !in first
    ensures r.Ok? ==> |r.value| == |headers|
    ensures r.Ok? ==> forall i :: 0 <= i < |headers| ==> r.value[i] == first[("Custom", headers[i])]
  {
    if forall i :: 0 <= i < |headers| ==> ("Custom", headers[i]) in first then
      Ok(seq(|headers|, i requires 0 <= i < |headers| => first[("Custom", headers[i])]))
    else Err("KeyError: header name")
  }

  // ---------------------------------------------------------------------------
  // The pass

  /** One condition of a rule: the variables and measure type it looks for
      and, per statistic, the filter expression to evaluate. The measure
      type has no default: `None` is a condition without `measure_type`. */
  datatype Condition = Condition(condition: string, variables: seq<string>, measureType: Option<string>,
                                 filters: seq<(string, string)>)

  const NoMeasureType := "KeyError: 'measure_type'"
  const NoFileDescription := "KeyError: 'FileDescription'"

  /** `configurationGroups['FileDescription']` exists: one of the table's
      columns, listed in `order`, lies under `FileDescription`. */
  predicate HasFileDescription(order: seq<Column>) {
    exists c :: c in order && c.0 == "FileDescription"
  }

  /** One entry of `dataFilters`: its name and its conditions, in order. */
  datatype Rule = Rule(name: string, conditions: seq<Condition>)

  /** The `eval` of a filter expression against the statistics: given the
      expression, the statistic, the group's header values and the group ID,
      the timestamps the test flags. */
  type Test = (string, string, seq<Cell>, int) -> set<int>

  /** A row's flag text. Every inventory row carries one once the pass has
      reset the column. */
  function FlagOf(row: Row<string>): string {
    if FlagColumn in row && row[FlagColumn].Str? then row[FlagColumn].s else NanTag
  }

  /** `fileInventory['groupID'] == g`. */
  function GroupRows(inv: Table<string>, g: int): set<int> {
    set ts | ts in inv && GroupIdColumn in inv[ts] && inv[ts][GroupIdColumn] == Int(g)
  }

  /** Row `b` differs from row `a` at most in the flag column. */
  ghost predicate SameButFlag(a: Row<string>, b: Row<string>) {
    forall c :: c != FlagColumn ==> (c in a <==> c in b) && (c in a ==> a[c] == b[c])
  }

  /** Table `b` differs from table `a` at most in the flag column. */
  ghost predicate OnlyFlags(a: Table<string>, b: Table<string>) {
    a.Keys == b.Keys && forall ts :: ts in a ==> SameButFlag(a[ts], b[ts])
  }

  /** A flag that changes is raised (is no longer the NaN tag). */
  predicate Grows(a: Table<string>, b: Table<string>)
    requires a.Keys <= b.Keys
  {
    forall ts :: ts in a ==> FlagOf(b[ts]) == FlagOf(a[ts]) || FlagOf(b[ts]) != NanTag
  }

  /** A flag once raised stays raised. */
  predicate KeepsRaised(a: Table<string>, b: Table<string>)
    requires a.Keys <= b.Keys
  {
    forall ts :: ts in a && FlagOf(a[ts]) != NanTag ==> FlagOf(b[ts]) != NanTag
  }

  /** One row's flag after a firing. */
  function RaiseRow(row: Row<string>, entry: string): (r: Row<string>)
    ensures SameButFlag(row, r)
    ensures FlagOf(r) == AppendFlag(FlagOf(row), entry)
  {
    row[FlagColumn := Str(AppendFlag(FlagOf(row), entry))]
  }

  /** `fileInventory.loc[rows, 'Filter Flags'] = (...).str.lstrip(',')`. */
  function Raise(inv: Table<string>, rows: set<int>, entry: string): (r: Table<string>)
    requires ':' in entry
    ensures OnlyFlags(inv, r) && Grows(inv, r) && KeepsRaised(inv, r)
    ensures forall ts :: ts in inv && ts !in rows ==> r[ts] == inv[ts]
    ensures forall ts :: ts in inv && ts in rows ==> FlagOf(r[ts]) == AppendFlag(FlagOf(inv[ts]), entry) != NanTag
  {
    var r := map ts | ts in inv :: if ts in rows then RaiseRow(inv[ts], entry) else inv[ts];
    RaiseFacts(inv, rows, entry, r);
    r
  }

  lemma RaiseFacts(inv: Table<string>, rows: set<int>, entry: string, r: Table<string>)
    requires ':' in entry
    requires r == map ts | ts in inv :: if ts in rows then RaiseRow(inv[ts], entry) else inv[ts]
    ensures OnlyFlags(inv, r) && Grows(inv, r) && KeepsRaised(inv, r)
    ensures forall ts :: ts in inv && ts !in rows ==> r[ts] == inv[ts]
    ensures forall ts :: ts in inv && ts in rows ==> FlagOf(r[ts]) == AppendFlag(FlagOf(inv[ts]), entry) != NanTag
  {
    forall ts | ts in inv
      ensures SameButFlag(inv[ts], r[ts])
      ensures ts in rows ==> FlagOf(r[ts]) == AppendFlag(FlagOf(inv[ts]), entry) != NanTag
      ensures ts !in rows ==> r[ts] == inv[ts]
    {
      if ts in rows {
        var row := RaiseRow(inv[ts], entry);
        assert r[ts] == row;
        assert FlagOf(row) != NanTag;
      }
    }
  }

  /** The three relations compose along the pass. */
  lemma Chain(a: Table<string>, b: Table<string>, r: Result<Table<string>>)
    requires OnlyFlags(a, b) && Grows(a, b) && KeepsRaised(a, b)
    ensures r.Ok? && OnlyFlags(b, r.value) && Grows(b, r.value) && KeepsRaised(b, r.value) ==>
      OnlyFlags(a, r.value) && Grows(a, r.value) && KeepsRaised(a, r.value)
  {
  }

  /** The `for stat, filter in parameters['filters'].items()` loop for one
      group: with a NaN tag among the header values every file of the group
      is flagged `Data not available`; otherwise the files the test flags
      get the condition, and flagging a timestamp the inventory lacks
      raises KeyError. */
  function StatsPass(inv: Table<string>, name: string, cond: string, h: seq<Cell>, g: int,
                     filters: seq<(string, string)>, test: Test): (r: Result<Table<string>>)
    ensures r.Ok? ==> OnlyFlags(inv, r.value) && Grows(inv, r.value) && KeepsRaised(inv, r.value)
    ensures r.Ok? && filters != [] && Str(NanTag) in h ==>
      forall ts :: ts in GroupRows(inv, g) ==> FlagOf(r.value[ts]) != NanTag
    ensures r.Ok? && filters != [] && Str(NanTag) !in h ==>
      forall ts :: ts in test(filters[0].1, filters[0].0, h, g) ==> ts in inv && FlagOf(r.value[ts]) != NanTag
    decreases |filters|
  {
    if filters == [] then Ok(inv)
    else
      var (stat, expr) := filters[0];
      var next :=
        if Str(NanTag) in h then Ok(Raise(inv, GroupRows(inv, g), Label(name, "Data not available")))
        else
          var flagged := test(expr, stat, h, g);
          if flagged <= inv.Keys then Ok(Raise(inv, flagged, Label(name, cond)))
          else Err("KeyError: timestamp not in the inventory");
      if next.Err? then next
      else
        var r := StatsPass(next.value, name, cond, h, g, filters[1..], test);
        Chain(inv, next.value, r);
        r
  }

  /** One group under one condition: resolve the header names, look up
      their values, then run the statistics loop. The lambda reads
      `parameters['measure_type']` for the group's row, so a condition
      without one raises KeyError. */
  function GroupPass(inv: Table<string>, name: string, c: Condition, g: int, first: Row<Column>,
                     order: seq<Column>, test: Test): (r: Result<Table<string>>)
    ensures c.measureType.None? ==> r == Err(NoMeasureType)
    ensures r.Ok? ==> OnlyFlags(inv, r.value) && Grows(inv, r.value) && KeepsRaised(inv, r.value)
  {
    if c.measureType.None? then Err(NoMeasureType)
    else
    match HeaderColumns(FileDescriptionRow(first, order), c.variables, c.measureType.value)
    case Err(e) => Err(e)
    case Ok(headers) =>
      match HeaderValues(first, headers)
      case Err(e) => Err(e)
      case Ok(h) => StatsPass(inv, name, c.condition, h, g, c.filters, test)
  }

  /** The indices of `configurationGroups` in increasing order: the order
      in which the filters and the batch set-up visit the groups. */
  function GroupOrder(groups: map<int, GroupInfo>): (ids: seq<int>)
    ensures forall k :: 0 <= k < |ids| ==> ids[k] in groups
  {
    Sorted(groups.Keys)
  }

  /** The groups of `configurationGroups`, in index order. Without a
      measure type the pass raises as soon as there is a group to apply the
      lambda to. */
  function GroupsPass(inv: Table<string>, name: string, c: Condition, ids: seq<int>,
                      groups: map<int, GroupInfo>, order: seq<Column>, test: Test): (r: Result<Table<string>>)
    requires forall i :: 0 <= i < |ids| ==> ids[i] in groups
    ensures c.measureType.None? ==> (r.Err? <==> ids != []) && (r.Err? ==> r.error == NoMeasureType)
    ensures r.Ok? ==> OnlyFlags(inv, r.value) && Grows(inv, r.value) && KeepsRaised(inv, r.value)
    decreases |ids|
  {
    if ids == [] then Ok(inv)
    else
      match GroupPass(inv, name, c, ids[0], groups[ids[0]].first, order, test)
      case Err(e) => Err(e)
      case Ok(next) =>
        var r := GroupsPass(next, name, c, ids[1..], groups, order, test);
        Chain(inv, next, r);
        r
  }

  /** One condition over every group. `configurationGroups['FileDescription']`
      is looked up before any group is visited, so a table without that
      level raises even when there is no group. */
  function ConditionPass(inv: Table<string>, name: string, c: Condition, ids: seq<int>,
                         groups: map<int, GroupInfo>, order: seq<Column>, test: Test): (r: Result<Table<string>>)
    requires forall i :: 0 <= i < |ids| ==> ids[i] in groups
    ensures !HasFileDescription(order) ==> r == Err(NoFileDescription)
    ensures HasFileDescription(order) && c.measureType.None? ==> (r.Err? <==> ids != [])
    ensures HasFileDescription(order) && ids == [] ==> r == Ok(inv)
    ensures r.Ok? ==> OnlyFlags(inv, r.value) && Grows(inv, r.value) && KeepsRaised(inv, r.value)
  {
    if !HasFileDescription(order) then Err(NoFileDescription)
    else GroupsPass(inv, name, c, ids, groups, order, test)
  }

  /** The conditions of one rule, in order. */
  function ConditionsPass(inv: Table<string>, name: string, conds: seq<Condition>, ids: seq<int>,
                          groups: map<int, GroupInfo>, order: seq<Column>, test: Test): (r: Result<Table<string>>)
    requires forall i :: 0 <= i < |ids| ==> ids[i] in groups
    ensures r.Ok? ==> OnlyFlags(inv, r.value) && Grows(inv, r.value) && KeepsRaised(inv, r.value)
    decreases |conds|
  {
    if conds == [] then Ok(inv)
    else
      match ConditionPass(inv, name, conds[0], ids, groups, order, test)
      case Err(e) => Err(e)
      case Ok(next) =>
        var r := ConditionsPass(next, name, conds[1..], ids, groups, order, test);
        Chain(inv, next, r);
        r
  }

  /** The pass over `filters[i..]` is statistic `i`, then the rest. */
  lemma StatsStep(inv: Table<string>, name: string, cond: string, h: seq<Cell>, g: int,
                  filters: seq<(string, string)>, i: int, test: Test)
    requires 0 <= i < |filters|
    ensures StatsPass(inv, name, cond, h, g, filters[i..], test) ==
      if Str(NanTag) in h
      then StatsPass(Raise(inv, GroupRows(inv, g), Label(name, "Data not available")), name, cond, h, g, filters[i + 1..], test)
      else if test(filters[i].1, filters[i].0, h, g) <= inv.Keys
      then StatsPass(Raise(inv, test(filters[i].1, filters[i].0, h, g), Label(name, cond)), name, cond, h, g, filters[i + 1..], test)
      else Err("KeyError: timestamp not in the inventory")
  {
    assert filters[i..][0] == filters[i];
    assert filters[i..][1..] == filters[i + 1..];
  }

  /** The pass over `rules[i..]` is rule `i`'s conditions, then the rest. */
  lemma RulesStep(inv: Table<string>, rules: seq<Rule>, i: int, ids: seq<int>,
                  groups: map<int, GroupInfo>, order: seq<Column>, test: Test)
    requires forall k :: 0 <= k < |ids| ==> ids[k] in groups
    requires 0 <= i < |rules|
    ensures RulesPass(inv, rules[i..], ids, groups, order, test) ==
      match ConditionsPass(inv, rules[i].name, rules[i].conditions, ids, groups, order, test)
      case Err(e) => Err(e)
      case Ok(next) => RulesPass(next, rules[i + 1..], ids, groups, order, test)
  {
    assert rules[i..][0] == rules[i];
    assert rules[i..][1..] == rules[i + 1..];
  }

  /** The pass over `conds[i..]` is condition `i` over every group, then the rest. */
  lemma ConditionsStep(inv: Table<string>, name: string, conds: seq<Condition>, i: int, ids: seq<int>,
                       groups: map<int, GroupInfo>, order: seq<Column>, test: Test)
    requires forall k :: 0 <= k < |ids| ==> ids[k] in groups
    requires 0 <= i < |conds|
    ensures ConditionsPass(inv, name, conds[i..], ids, groups, order, test) ==
      match ConditionPass(inv, name, conds[i], ids, groups, order, test)
      case Err(e) => Err(e)
      case Ok(next) => ConditionsPass(next, name, conds[i + 1..], ids, groups, order, test)
  {
    assert conds[i..][0] == conds[i];
    assert conds[i..][1..] == conds[i + 1..];
  }

  /** The pass over `ids[i..]` is group `ids[i]`, then the rest. */
  lemma GroupsStep(inv: Table<string>, name: string, c: Condition, ids: seq<int>, i: int,
                   groups: map<int, GroupInfo>, order: seq<Column>, test: Test)
    requires forall k :: 0 <= k < |ids| ==> ids[k] in groups
    requires 0 <= i < |ids|
    ensures GroupsPass(inv, name, c, ids[i..], groups, order, test) ==
      match GroupPass(inv, name, c, ids[i], groups[ids[i]].first, order, test)
      case Err(e) => Err(e)
      case Ok(next) => GroupsPass(next, name, c, ids[i + 1..], groups, order, test)
  {
    assert ids[i..][0] == ids[i];
    assert ids[i..][1..] == ids[i + 1..];
  }

  /** The rules of `dataFilters`, in order. */
  function RulesPass(inv: Table<string>, rules: seq<Rule>, ids: seq<int>,
                     groups: map<int, GroupInfo>, order: seq<Column>, test: Test): (r: Result<Table<string>>)
    requires forall i :: 0 <= i < |ids| ==> ids[i] in groups
    ensures r.Ok? ==> OnlyFlags(inv, r.value) && Grows(inv, r.value) && KeepsRaised(inv, r.value)
    decreases |rules|
  {
    if rules == [] then Ok(inv)
    else
      match ConditionsPass(inv, rules[0].name, rules[0].conditions, ids, groups, order, test)
      case Err(e) => Err(e)
      case Ok(next) =>
        var r := RulesPass(next, rules[1..], ids, groups, order, test);
        Chain(inv, next, r);
        r
  }

  /** `fileInventory['Filter Flags'] = NaN tag`. */
  function ResetFlags(inv: Table<string>): (r: Table<string>)
    ensures OnlyFlags(inv, r)
    ensures forall ts :: ts in r ==> FlagOf(r[ts]) == NanTag
  {
    map ts | ts in inv :: inv[ts][FlagColumn := Str(NanTag)]
  }

  /** `fileInventory.loc[flags != NaN tag, 'groupID'] = intNaN`. */
  function Exclude(inv: Table<string>): (r: Table<string>)
    ensures r.Keys == inv.Keys
    ensures forall ts :: ts in inv && FlagOf(inv[ts]) != NanTag ==>
      r[ts] == inv[ts][GroupIdColumn := Int(IntNaN)]
    ensures forall ts :: ts in inv && FlagOf(inv[ts]) == NanTag ==> r[ts] == inv[ts]
  {
    map ts | ts in inv :: if FlagOf(inv[ts]) != NanTag then inv[ts][GroupIdColumn := Int(IntNaN)] else inv[ts]
  }

  /** What `filterData` leaves in the inventory. */
  function FilterPass(inv: Table<string>, rules: seq<Rule>, ids: seq<int>,
                      groups: map<int, GroupInfo>, order: seq<Column>, test: Test): (r: Result<Table<string>>)
    requires forall i :: 0 <= i < |ids| ==> ids[i] in groups
  {
    match RulesPass(ResetFlags(inv), rules, ids, groups, order, test)
    case Err(e) => Err(e)
    case Ok(flagged) => Ok(Exclude(flagged))
  }

  /** After the pass, a file keeps its group exactly when no rule flagged
      it: flagged files have group `intNaN`, the others keep every cell but
      the reset flag, and no file is added or lost. */
  lemma FilterPassExcludes(inv: Table<string>, rules: seq<Rule>, ids: seq<int>,
                           groups: map<int, GroupInfo>, order: seq<Column>, test: Test)
    requires forall i :: 0 <= i < |ids| ==> ids[i] in groups
    requires FilterPass(inv, rules, ids, groups, order, test).Ok?
    ensures var r := FilterPass(inv, rules, ids, groups, order, test).value;
      r.Keys == inv.Keys
      && (forall ts :: ts in r && FlagOf(r[ts]) != NanTag ==>
            GroupIdColumn in r[ts] && r[ts][GroupIdColumn] == Int(IntNaN))
      && (forall ts :: ts in r && FlagOf(r[ts]) == NanTag ==> SameButFlag(inv[ts], r[ts]))
  {
    var start := ResetFlags(inv);
    var flagged := RulesPass(start, rules, ids, groups, order, test).value;
    forall ts | ts in inv ensures SameButFlag(inv[ts], flagged[ts]) {
      SameButFlagTrans(inv[ts], start[ts], flagged[ts]);
    }
    ExcludeFacts(inv, flagged);
  }

  lemma SameButFlagTrans(a: Row<string>, b: Row<string>, c: Row<string>)
    requires SameButFlag(a, b) && SameButFlag(b, c)
    ensures SameButFlag(a, c)
  {
  }

  lemma ExcludeFacts(inv: Table<string>, flagged: Table<string>)
    requires flagged.Keys == inv.Keys
    requires forall ts :: ts in inv ==> SameButFlag(inv[ts], flagged[ts])
    ensures var r := Exclude(flagged);
      (forall ts :: ts in r && FlagOf(r[ts]) != NanTag ==>
         GroupIdColumn in r[ts] && r[ts][GroupIdColumn] == Int(IntNaN))
      && (forall ts :: ts in r && FlagOf(r[ts]) == NanTag ==> SameButFlag(inv[ts], r[ts]))
  {
    var r := Exclude(flagged);
    forall ts | ts in r
      ensures FlagOf(r[ts]) == FlagOf(flagged[ts])
      ensures FlagOf(r[ts]) != NanTag ==> GroupIdColumn in r[ts] && r[ts][GroupIdColumn] == Int(IntNaN)
      ensures FlagOf(r[ts]) == NanTag ==> r[ts] == flagged[ts]
    {
      if FlagOf(flagged[ts]) != NanTag {
        assert r[ts] == flagged[ts][GroupIdColumn := Int(IntNaN)];
      }
    }
  }
}
