/** Grouping the metadata by site configuration (`groupAndFilter`): the
    columns each monitoring-instruction category selects, the NaN-tag
    normalisation of the grouping columns, and the group labels that
    `groupby(...).grouper.group_info` hands out. */
module Grouping {
  import opened Text
  import opened Tables
  import opened Glob

  /** A metadata column: (section, key). */
  type Column = (string, string)

  /** One category of the monitoring instructions (`groupBy`, `track` or
      `pass`): for each section, in order, the key patterns to select. */
  type Instructions = seq<(string, seq<string>)>

  // ---------------------------------------------------------------------------
  // Column selection

  /** `section in metaDataValues.columns.get_level_values(0)`. */
  predicate HasSection(columns: seq<Column>, section: string) {
    exists i :: 0 <= i < |columns| && columns[i].0 == section
  }

  /** `metaDataValues[section].columns`: the keys of `section`, in column order. */
  function KeysIn(columns: seq<Column>, section: string): (keys: seq<string>)
    ensures forall k :: k in keys <==> (section, k) in columns
  {
    if columns == [] then []
    else
      var rest := KeysIn(columns[1..], section);
      assert forall c :: c in columns <==> c == columns[0] || c in columns[1..];
      if columns[0].0 == section then [columns[0].1] + rest else rest
  }

  /** `[(section, v) for val in patterns for v in fnmatch.filter(keys, val)]`. */
  function Matches(keys: seq<string>, section: string, patterns: seq<string>): (r: seq<Column>)
    ensures forall c :: c in r <==>
      c.0 == section && c.1 in keys && exists p :: p in patterns && Match(p, c.1)
  {
    if patterns == [] then []
    else
      var rest := Matches(keys, section, patterns[1..]);
      var here := seq(|Filter(keys, patterns[0])|, i requires 0 <= i < |Filter(keys, patterns[0])| =>
        (section, Filter(keys, patterns[0])[i]));
      assert forall c :: c in here <==> c.0 == section && c.1 in Filter(keys, patterns[0]) by {
        forall c: Column | c.0 == section && c.1 in Filter(keys, patterns[0]) ensures c in here {
          var i :| 0 <= i < |Filter(keys, patterns[0])| && Filter(keys, patterns[0])[i] == c.1;
          assert here[i] == c;
        }
      }
      assert forall p :: p in patterns <==> p == patterns[0] || p in patterns[1..];
      here + rest
  }

  /** A column the instructions name: its section is listed with a pattern
      its key matches. */
  predicate Selected(instr: Instructions, c: Column) {
    exists i :: 0 <= i < |instr| && instr[i].0 == c.0 && exists p :: p in instr[i].1 && Match(p, c.1)
  }

  /** The `grouper`, `tracker` and `passer` comprehensions. Looking up a
      section the metadata lacks raises KeyError, except for `pass`, whose
      comprehension skips such sections (`skipMissing`). */
  function Select(columns: seq<Column>, instr: Instructions, skipMissing: bool): (r: Result<seq<Column>>)
    ensures r.Err? <==> !skipMissing && exists i :: 0 <= i < |instr| && !HasSection(columns, instr[i].0)
    ensures r.Ok? ==> forall c :: c in r.value <==> c in columns && Selected(instr, c)
  {
    if instr == [] then Ok([])
    else
      var (section, patterns) := instr[0];
      var rest := Select(columns, instr[1..], skipMissing);
      assert forall i :: 1 <= i < |instr| ==> instr[i] == instr[1..][i - 1];
      if !HasSection(columns, section) then
        if skipMissing then
          assert forall c :: c in columns ==> c.0 != section;
          rest
        else Err("KeyError: " + section)
      else if rest.Err? then rest
      else
        var here := Matches(KeysIn(columns, section), section, patterns);
        SelectedCons(instr);
        Ok(here + rest.value)
  }

  /** A column is named by the instructions iff the first instruction or
      the remaining ones name it. */
  lemma SelectedCons(instr: Instructions)
    requires instr != []
    ensures forall c :: Selected(instr, c) <==>
      (c.0 == instr[0].0 && exists p :: p in instr[0].1 && Match(p, c.1)) || Selected(instr[1..], c)
  {
    forall c | Selected(instr[1..], c) ensures Selected(instr, c) {
      var i :| 0 <= i < |instr[1..]| && instr[1..][i].0 == c.0 && exists p :: p in instr[1..][i].1 && Match(p, c.1);
      assert instr[i + 1] == instr[1..][i];
    }
  }

  // ---------------------------------------------------------------------------
  // Normalisation

  /** The value a grouping or pass column holds after `fillna(NaN tag)`
      followed by `replace('', NaN tag)`. */
  function NormCell(row: Row<Column>, c: Column): (v: Cell)
    ensures v != Str("")
    ensures c in row && row[c] != Str("") ==> v == row[c]
    ensures c !in row || row[c] == Str("") ==> v == Str(NanTag)
  {
    if c !in row || row[c] == Str("") then Str(NanTag) else row[c]
  }

  /** Both replacements applied to the columns `cols` of every row. */
  function Normalise(t: Table<Column>, cols: set<Column>): (r: Table<Column>)
    ensures r.Keys == t.Keys
    ensures forall ts :: ts in t ==> r[ts].Keys == t[ts].Keys + cols
    ensures forall ts, c :: ts in t && c in cols ==> r[ts][c] == NormCell(t[ts], c)
    ensures forall ts, c :: ts in t && c in t[ts] && c !in cols ==> r[ts][c] == t[ts][c]
  {
    map ts | ts in t :: NormalRow(t[ts], cols)
  }

  function NormalRow(row: Row<Column>, cols: set<Column>): (r: Row<Column>)
    ensures r.Keys == row.Keys + cols
    ensures forall c :: c in cols ==> r[c] == NormCell(row, c)
    ensures forall c :: c in row && c !in cols ==> r[c] == row[c]
  {
    row + map c | c in cols :: NormCell(row, c)
  }

  /** After normalisation no selected cell is missing or empty, and
      normalising again changes nothing. */
  lemma NormaliseIdempotent(t: Table<Column>, cols: set<Column>)
    ensures forall ts, c :: ts in t && c in cols ==>
      c in Normalise(t, cols)[ts] && Normalise(t, cols)[ts][c] != Str("")
    ensures Normalise(Normalise(t, cols), cols) == Normalise(t, cols)
  {
    var once := Normalise(t, cols);
    forall ts | ts in t ensures Normalise(once, cols)[ts] == once[ts] {
      NormalRowIdempotent(t[ts], cols);
    }
  }

  lemma NormalRowIdempotent(row: Row<Column>, cols: set<Column>)
    ensures NormalRow(NormalRow(row, cols), cols) == NormalRow(row, cols)
  {
    var once := NormalRow(row, cols);
    var twice := NormalRow(once, cols);
    forall c | c in once ensures twice[c] == once[c] {
      if c in cols { assert once[c] != Str(""); }
    }
    assert twice.Keys == once.Keys;
  }

  // ---------------------------------------------------------------------------
  // The order pandas sorts group keys in

  /** Comparison of two strings, code point by code point. */
  predicate StrLess(a: string, b: string)
    decreases |a|
  {
    if a == [] then b != []
    else if b == [] then false
    else a[0] < b[0] || (a[0] == b[0] && StrLess(a[1..], b[1..]))
  }

  /** Comparison of two cells. Text is ordered as strings are; cells of
      different kinds, which the text-typed grouping columns never hold, are
      ordered by kind. */
  predicate CellLess(a: Cell, b: Cell) {
    match (a, b)
    case (Str(x), Str(y)) => StrLess(x, y)
    case (Int(x), Int(y)) => x < y
    case (Stat(x), Stat(y)) => x < y
    case _ => Kind(a) < Kind(b)
  }

  function Kind(a: Cell): nat {
    match a
    case Str(_) => 0
    case Int(_) => 1
    case Stat(_) => 2
  }

  /** Lexicographic comparison of two group keys, as the sorted `groupby` does. */
  predicate KeyLess(a: seq<Cell>, b: seq<Cell>)
    decreases |a|
  {
    if a == [] then b != []
    else if b == [] then false
    else CellLess(a[0], b[0]) || (a[0] == b[0] && KeyLess(a[1..], b[1..]))
  }

  lemma {:induction false} StrLessIrreflexive(a: string)
    ensures !StrLess(a, a)
    decreases |a|
  {
    if a != [] { StrLessIrreflexive(a[1..]); }
  }

  lemma {:induction false} StrLessTransitive(a: string, b: string, c: string)
    requires StrLess(a, b) && StrLess(b, c)
    ensures StrLess(a, c)
    decreases |a|
  {
    if a != [] && a[0] == b[0] && b[0] == c[0] {
      StrLessTransitive(a[1..], b[1..], c[1..]);
    }
  }

  lemma {:induction false} StrLessTotal(a: string, b: string)
    requires a != b
    ensures StrLess(a, b) || StrLess(b, a)
    decreases |a|
  {
    if a != [] && b != [] && a[0] == b[0] {
      assert a == [a[0]] + a[1..] && b == [b[0]] + b[1..];
      StrLessTotal(a[1..], b[1..]);
    }
  }

  lemma CellLessIrreflexive(a: Cell)
    ensures !CellLess(a, a)
  {
    if a.Str? { StrLessIrreflexive(a.s); }
  }

  lemma CellLessTransitive(a: Cell, b: Cell, c: Cell)
    requires CellLess(a, b) && CellLess(b, c)
    ensures CellLess(a, c)
  {
    if a.Str? && b.Str? && c.Str? { StrLessTransitive(a.s, b.s, c.s); }
  }

  lemma CellLessTotal(a: Cell, b: Cell)
    requires a != b
    ensures CellLess(a, b) || CellLess(b, a)
  {
    if a.Str? && b.Str? { StrLessTotal(a.s, b.s); }
  }

  lemma {:induction false} KeyLessIrreflexive(a: seq<Cell>)
    ensures !KeyLess(a, a)
    decreases |a|
  {
    if a != [] {
      CellLessIrreflexive(a[0]);
      KeyLessIrreflexive(a[1..]);
    }
  }

  lemma {:induction false} KeyLessTransitive(a: seq<Cell>, b: seq<Cell>, c: seq<Cell>)
    requires KeyLess(a, b) && KeyLess(b, c)
    ensures KeyLess(a, c)
    decreases |a|
  {
    if a != [] {
      if CellLess(a[0], b[0]) && CellLess(b[0], c[0]) {
        CellLessTransitive(a[0], b[0], c[0]);
      } else if a[0] == b[0] && b[0] == c[0] {
        KeyLessTransitive(a[1..], b[1..], c[1..]);
      }
    }
  }

  lemma {:induction false} KeyLessTotal(a: seq<Cell>, b: seq<Cell>)
    requires a != b
    ensures KeyLess(a, b) || KeyLess(b, a)
    decreases |a|
  {
    if a != [] && b != [] {
      if a[0] != b[0] {
        CellLessTotal(a[0], b[0]);
      } else {
        assert a == [a[0]] + a[1..] && b == [b[0]] + b[1..];
        KeyLessTotal(a[1..], b[1..]);
      }
    }
  }

  // ---------------------------------------------------------------------------
  // Group labels

  /** The group key of a row: its normalised grouping values, in grouper order. */
  function KeyOf(row: Row<Column>, grouper: seq<Column>): (k: seq<Cell>)
    ensures |k| == |grouper|
    ensures forall i :: 0 <= i < |grouper| ==> k[i] == NormCell(row, grouper[i])
  {
    seq(|grouper|, i requires 0 <= i < |grouper| => NormCell(row, grouper[i]))
  }

  /** The distinct keys of the table. */
  function Keys(t: Table<Column>, grouper: seq<Column>): set<seq<Cell>> {
    set ts | ts in t :: KeyOf(t[ts], grouper)
  }

  /** How many distinct keys sort before `k`. */
  function Rank(keys: set<seq<Cell>>, k: seq<Cell>): nat {
    |Smaller(keys, k)|
  }

  function Smaller(keys: set<seq<Cell>>, k: seq<Cell>): set<seq<Cell>> {
    set x | x in keys && KeyLess(x, k)
  }

  /** `group_info[0] + 1`: each row's label is one more than the rank of its
      key among the table's distinct keys. */
  function Labels(t: Table<Column>, grouper: seq<Column>): (labels: map<int, int>)
    ensures labels.Keys == t.Keys
  {
    var keys := Keys(t, grouper);
    map ts | ts in t :: 1 + Rank(keys, KeyOf(t[ts], grouper))
  }

  lemma RankBound(keys: set<seq<Cell>>, k: seq<Cell>)
    requires k in keys
    ensures Rank(keys, k) < |keys|
  {
    KeyLessIrreflexive(k);
    SubsetSize(Smaller(keys, k), keys - {k});
  }

  lemma RankStrict(keys: set<seq<Cell>>, a: seq<Cell>, b: seq<Cell>)
    requires a in keys && KeyLess(a, b)
    ensures Rank(keys, a) < Rank(keys, b)
  {
    forall x | x in Smaller(keys, a) ensures x in Smaller(keys, b) {
      KeyLessTransitive(x, a, b);
    }
    KeyLessIrreflexive(a);
    StrictSubsetSize(Smaller(keys, a), Smaller(keys, b), a);
  }

  lemma RankInjective(keys: set<seq<Cell>>, a: seq<Cell>, b: seq<Cell>)
    requires a in keys && b in keys && a != b
    ensures Rank(keys, a) != Rank(keys, b)
  {
    KeyLessTotal(a, b);
    if KeyLess(a, b) { RankStrict(keys, a, b); } else { RankStrict(keys, b, a); }
  }

  /** The ranks of distinct keys are `0 .. |keys| - 1`, each taken once. */
  lemma RankOnto(keys: set<seq<Cell>>, r: nat)
    requires r < |keys|
    ensures exists k :: k in keys && Rank(keys, k) == r
  {
    var ranks := set k | k in keys :: Rank(keys, k);
    ImageSize(keys, keys);
    forall x | x in ranks ensures 0 <= x < |keys| {
      var k :| k in keys && Rank(keys, k) == x;
      RankBound(keys, k);
    }
    var all := Below(|keys|);
    assert ranks <= all;
    if r !in ranks {
      StrictSubsetSize(ranks, all, r);
      assert false;
    }
  }

  /** Ranking is one to one on any subset of the keys. */
  lemma {:induction false} ImageSize(keys: set<seq<Cell>>, sub: set<seq<Cell>>)
    requires sub <= keys
    ensures |set k | k in sub :: Rank(keys, k)| == |sub|
    decreases |sub|
  {
    if sub != {} {
      var a :| a in sub;
      var rest := sub - {a};
      ImageSize(keys, rest);
      var img := set k | k in sub :: Rank(keys, k);
      var imgRest := set k | k in rest :: Rank(keys, k);
      forall k | k in rest ensures Rank(keys, k) != Rank(keys, a) {
        RankInjective(keys, k, a);
      }
      assert img == imgRest + {Rank(keys, a)};
    }
  }

  /** The integers `0 .. n - 1`. */
  function Below(n: nat): (r: set<int>)
    ensures |r| == n
    ensures forall i :: i in r <==> 0 <= i < n
  {
    if n == 0 then {} else Below(n - 1) + {n - 1}
  }

  lemma SubsetSize<T>(a: set<T>, b: set<T>)
    requires a <= b
    ensures |a| <= |b|
  {
    assert b == a + (b - a);
    assert a * (b - a) == {};
  }

  /** A subset missing an element of the larger set is strictly smaller. */
  lemma StrictSubsetSize<T>(a: set<T>, b: set<T>, x: T)
    requires a <= b && x in b && x !in a
    ensures |a| < |b|
  {
    SubsetSize(a, b - {x});
  }

  /** Some row carries label `g`. */
  predicate Used(labels: map<int, int>, g: int) {
    exists ts :: ts in labels && labels[ts] == g
  }

  /** Every row gets a label in `1 .. k`, `k` the number of distinct keys,
      and every label in that range is used: the labels are dense. */
  lemma LabelsDense(t: Table<Column>, grouper: seq<Column>)
    ensures forall ts :: ts in t ==> 1 <= Labels(t, grouper)[ts] <= |Keys(t, grouper)|
    ensures forall g :: 1 <= g <= |Keys(t, grouper)| ==> Used(Labels(t, grouper), g)
  {
    var keys := Keys(t, grouper);
    var labels := Labels(t, grouper);
    forall ts | ts in t ensures 1 <= labels[ts] <= |keys| {
      RankBound(keys, KeyOf(t[ts], grouper));
    }
    forall g | 1 <= g <= |keys| ensures Used(labels, g) {
      RankOnto(keys, g - 1);
      var k :| k in keys && Rank(keys, k) == g - 1;
      var ts :| ts in t && KeyOf(t[ts], grouper) == k;
      assert labels[ts] == g;
    }
  }

  /** Two rows share a label exactly when their normalised keys agree, and a
      key that sorts first gets the smaller label. */
  lemma LabelsAgree(t: Table<Column>, grouper: seq<Column>, a: int, b: int)
    requires a in t && b in t
    ensures Labels(t, grouper)[a] == Labels(t, grouper)[b] <==> KeyOf(t[a], grouper) == KeyOf(t[b], grouper)
    ensures KeyLess(KeyOf(t[a], grouper), KeyOf(t[b], grouper)) ==> Labels(t, grouper)[a] < Labels(t, grouper)[b]
  {
    var keys := Keys(t, grouper);
    var ka, kb := KeyOf(t[a], grouper), KeyOf(t[b], grouper);
    assert ka in keys && kb in keys;
    if ka != kb { RankInjective(keys, ka, kb); }
    if KeyLess(ka, kb) { RankStrict(keys, ka, kb); }
  }

  // ---------------------------------------------------------------------------
  // Joining the labels into the tables, and the per-group summary

  /** `('group', 'ID')`, the label column of the metadata values. */
  const GroupColumn: Column := ("group", "ID")

  /** Dropping a table's label column and joining fresh labels: a row with a
      label gets it; a row without one gets `missing` (`None`: the join
      leaves the cell empty). */
  function Relabel<C(!new)>(t: Table<C>, col: C, labels: map<int, int>, missing: Option<Cell>): (r: Table<C>)
    ensures r.Keys == t.Keys
    ensures forall ts, c :: ts in t && c != col ==> (c in r[ts] <==> c in t[ts])
    ensures forall ts, c :: ts in t && c != col && c in t[ts] ==> r[ts][c] == t[ts][c]
    ensures forall ts :: ts in t && ts in labels ==> col in r[ts] && r[ts][col] == Int(labels[ts])
    ensures forall ts :: ts in t && ts !in labels ==>
      (col in r[ts] <==> missing.Some?) && (missing.Some? ==> r[ts][col] == missing.value)
  {
    map ts | ts in t :: LabelRow(t[ts], col, if ts in labels then Some(Int(labels[ts])) else missing)
  }

  function LabelRow<C(!new)>(row: Row<C>, col: C, v: Option<Cell>): (r: Row<C>)
    ensures forall c :: c != col ==> (c in r <==> c in row) && (c in row ==> r[c] == row[c])
    ensures col in r <==> v.Some?
    ensures v.Some? ==> r[col] == v.value
  {
    var kept := map c | c in row && c != col :: row[c];
    if v.Some? then kept[col := v.value] else kept
  }

  /** The row without column `col`. */
  function Without<C>(row: Row<C>, col: C): Row<C> {
    map c | c in row && c != col :: row[c]
  }

  /** The old labels are replaced wholesale: two tables that differ only in
      their label column come out of `Relabel` the same. */
  lemma RelabelForgetsOld<C(!new)>(t: Table<C>, u: Table<C>, col: C, labels: map<int, int>, missing: Option<Cell>)
    requires t.Keys == u.Keys
    requires forall ts :: ts in t ==> Without(t[ts], col) == Without(u[ts], col)
    ensures Relabel(t, col, labels, missing) == Relabel(u, col, labels, missing)
  {
    var a, b := Relabel(t, col, labels, missing), Relabel(u, col, labels, missing);
    forall ts | ts in t ensures a[ts] == b[ts] {
      forall c | c != col && c in t[ts] ensures c in u[ts] && t[ts][c] == u[ts][c] {
        assert c in Without(t[ts], col);
      }
      forall c | c != col && c in u[ts] ensures c in t[ts] {
        assert c in Without(u[ts], col);
      }
      assert a[ts].Keys == b[ts].Keys;
    }
  }

  /** A row of `configurationGroups`: the first value of each grouping and
      pass column (`agg(['first'])`) and the group's size (`agg(['count'])`
      of the grouping columns, which normalisation leaves without gaps). */
  datatype GroupInfo = GroupInfo(first: Row<Column>, count: nat)

  /** The rows carrying label `g`. */
  function Members(labels: map<int, int>, g: int): set<int> {
    set ts | ts in labels && labels[ts] == g
  }

  /** The row restricted to the columns `cols`. */
  function Restrict(row: Row<Column>, cols: set<Column>): Row<Column> {
    map c | c in row && c in cols :: row[c]
  }

  /** Group `g`'s row of `configurationGroups`, the table being in time
      order: the values of its earliest member. */
  function Summary(t: Table<Column>, labels: map<int, int>, cols: set<Column>, g: int): (info: GroupInfo)
    requires labels.Keys <= t.Keys && Used(labels, g)
    ensures info.count == |Members(labels, g)| && info.count > 0
    ensures exists ts :: ts in Members(labels, g) && info.first == Restrict(t[ts], cols)
  {
    var m := Members(labels, g);
    MembersNonEmpty(labels, g);
    GroupInfo(Restrict(t[Earliest(m)], cols), |m|)
  }

  /** `configurationGroups`: one summary per label in use, in label order. */
  function ConfigurationGroups(t: Table<Column>, labels: map<int, int>, cols: set<Column>): (r: map<int, GroupInfo>)
    requires labels.Keys <= t.Keys
    ensures forall g :: g in r <==> Used(labels, g)
    ensures forall g :: g in r ==> r[g] == Summary(t, labels, cols, g)
  {
    map g | g in Ids(labels) :: Summary(t, labels, cols, g)
  }

  /** The labels in use (`groupLabels.unique()`). */
  function Ids(labels: map<int, int>): (ids: set<int>)
    ensures forall g :: g in ids <==> Used(labels, g)
  {
    set ts | ts in labels :: labels[ts]
  }

  lemma MembersNonEmpty(labels: map<int, int>, g: int)
    requires Used(labels, g)
    ensures Members(labels, g) != {}
  {
    var ts :| ts in labels && labels[ts] == g;
    assert ts in Members(labels, g);
  }

  /** Every member of a group holds the group's first value in each grouping
      column: the grouping values are what the group is. */
  lemma SummaryIsKey(t: Table<Column>, grouper: seq<Column>, cols: set<Column>, ts: int, i: nat)
    requires ts in t && i < |grouper| && grouper[i] in cols
    requires forall u :: u in t ==> grouper[i] in t[u] && t[u][grouper[i]] != Str("")
    ensures Labels(t, grouper)[ts] in ConfigurationGroups(t, Labels(t, grouper), cols)
    ensures ConfigurationGroups(t, Labels(t, grouper), cols)[Labels(t, grouper)[ts]].first[grouper[i]]
      == t[ts][grouper[i]]
  {
    var labels := Labels(t, grouper);
    var g := labels[ts];
    assert Used(labels, g);
    SummaryShares(t, grouper, cols, ts, i);
  }

  lemma SummaryShares(t: Table<Column>, grouper: seq<Column>, cols: set<Column>, ts: int, i: nat)
    requires ts in t && i < |grouper| && grouper[i] in cols
    requires forall u :: u in t ==> grouper[i] in t[u] && t[u][grouper[i]] != Str("")
    ensures Used(Labels(t, grouper), Labels(t, grouper)[ts])
    ensures grouper[i] in Summary(t, Labels(t, grouper), cols, Labels(t, grouper)[ts]).first
    ensures Summary(t, Labels(t, grouper), cols, Labels(t, grouper)[ts]).first[grouper[i]]
      == t[ts][grouper[i]]
  {
    var labels := Labels(t, grouper);
    var g := labels[ts];
    assert Used(labels, g);
    var info := Summary(t, labels, cols, g);
    var u :| u in Members(labels, g) && info.first == Restrict(t[u], cols);
    LabelsAgree(t, grouper, ts, u);
    var c := grouper[i];
    calc {
      info.first[c];
      t[u][c];
      NormCell(t[u], c);
      KeyOf(t[u], grouper)[i];
      KeyOf(t[ts], grouper)[i];
      NormCell(t[ts], c);
      t[ts][c];
    }
  }
}
