/** What `makeMetadataFiles` writes for each configuration group: the
    group's `.metadata` file (its values with the NaN tag blanked, the
    template's indexed `*` keys expanded up to the highest index the group
    has) and the `.eddypro` column definitions (each logical variable
    resolved to a column index, or `'0'`). */
module MetadataFiles {
  import opened Text
  import opened Tables
  import opened Glob
  import opened Grouping
  import BatchProcessing

  type IniFile = BatchProcessing.IniFile

  // ---------------------------------------------------------------------------
  // The group's metadata values

  /** `str(v).replace(NaN tag, '')`. */
  function Blank(s: string): string {
    ReplaceAll(s, NanTag, "")
  }

  /** `str(v)` of a stored value; how Python prints a float is `show`. */
  function CellText(c: Cell, show: real -> string): string {
    match c
    case Str(s) => s
    case Int(n) => IntToString(n)
    case Stat(x) => show(x)
  }

  /** The value of column `c` after `row.fillna(NaN tag)`. */
  function FilledCell(row: Row<Column>, c: Column): (v: Cell)
    ensures c !in row ==> v == Str(NanTag)
    ensures c in row ==> v == row[c]
  {
    if c in row then row[c] else Str(NanTag)
  }

  function SectionsOf(cols: set<Column>): (ss: set<string>)
    ensures forall s :: s in ss <==> exists k :: (s, k) in cols
  {
    set c | c in cols :: c.0
  }

  function KeysIn(cols: set<Column>, s: string): (ks: set<string>)
    ensures forall k :: k in ks <==> (s, k) in cols
  {
    set c | c in cols && c.0 == s :: c.1
  }

  /** `groupMetaData`: for each section of the group's columns, each key
      with the text of its value, the NaN tag blanked out. */
  function GroupMetaData(row: Row<Column>, cols: set<Column>, show: real -> string): (gm: IniFile)
    ensures forall s :: s in gm <==> exists k :: (s, k) in cols
    ensures forall s, k :: s in gm ==> (k in gm[s] <==> (s, k) in cols)
  {
    map s | s in SectionsOf(cols) :: map k | k in KeysIn(cols, s) :: Blank(CellText(FilledCell(row, (s, k)), show))
  }

  /** A value the group does not have is written empty. */
  lemma MissingIsEmpty(row: Row<Column>, cols: set<Column>, show: real -> string, s: string, k: string)
    requires (s, k) in cols && (s, k) !in row
    ensures s in GroupMetaData(row, cols, show) && GroupMetaData(row, cols, show)[s][k] == ""
  {
    assert NanTag[..|NanTag|] == NanTag;
    assert NanTag[|NanTag|..] == "";
  }

  /** A text value without the NaN tag in it is written as it is. */
  lemma PlainTextKept(row: Row<Column>, cols: set<Column>, show: real -> string, s: string, k: string, v: string)
    requires (s, k) in cols && (s, k) in row && row[(s, k)] == Str(v) && !Contains(v, NanTag)
    ensures s in GroupMetaData(row, cols, show) && GroupMetaData(row, cols, show)[s][k] == v
  {
    ReplaceAllAbsent(v, NanTag, "");
  }

  // ---------------------------------------------------------------------------
  // The highest index of a dynamic section

  /** `int(name.split('_')[1])`, or `None` where `int` raises. */
  function IndexOf(name: string): Option<nat> {
    var parts := Split(name, "_");
    if |parts| < 2 then None else ParseNat(parts[1])
  }

  /** `fnmatch.filter(keys, pattern)` as a set. */
  function Hits(keys: set<string>, pattern: string): (h: set<string>)
    ensures forall k :: k in h <==> k in keys && Match(pattern, k)
  {
    set k | k in keys && Match(pattern, k)
  }

  /** `max([int(i.split('_')[1]) for i in fnmatch.filter(keys, pattern)])`:
      fails on no match (`max` of an empty list) or an index that is not a
      number. */
  function DynamicCount(keys: set<string>, pattern: string): (r: Result<nat>)
    ensures r.Ok? <==> Hits(keys, pattern) != {} && forall k :: k in Hits(keys, pattern) ==> IndexOf(k).Some?
    ensures r.Ok? ==> exists k :: k in Hits(keys, pattern) && IndexOf(k) == Some(r.value)
    ensures r.Ok? ==> forall k :: k in Hits(keys, pattern) ==> IndexOf(k).value <= r.value
  {
    var hits := Hits(keys, pattern);
    if hits == {} then Err("ValueError: max() arg is an empty sequence")
    else if exists k :: k in hits && IndexOf(k).None? then Err("ValueError: invalid literal for int()")
    else
      var ns := set k | k in hits :: IndexOf(k).value as int;
      var k0 :| k0 in hits;
      assert IndexOf(k0).value as int in ns;
      var m := Latest(ns);
      assert forall k :: k in hits ==> IndexOf(k).value as int in ns;
      Ok(m as nat)
  }

  /** `dynamicVals`: the instrument and file-description counts. A group
      without either section raises `KeyError`. */
  function DynamicVals(gm: IniFile): Result<map<string, nat>> {
    if "Instruments" !in gm then Err("KeyError: Instruments")
    else if "FileDescription" !in gm then Err("KeyError: FileDescription")
    else match DynamicCount(gm["Instruments"].Keys, "instr_*_model")
      case Err(e) => Err(e)
      case Ok(ni) =>
        match DynamicCount(gm["FileDescription"].Keys, "col_*_variable")
        case Err(e) => Err(e)
        case Ok(nf) => Ok(map["Instruments" := ni, "FileDescription" := nf])
  }

  // ---------------------------------------------------------------------------
  // One section of the `.metadata` file

  /** A template section: its keys and default values, in order. */
  type Items = seq<(string, string)>

  function ItemKeys(items: Items): (ks: set<string>)
    ensures forall k :: k in ks <==> exists j :: 0 <= j < |items| && items[j].0 == k
  {
    set j | 0 <= j < |items| :: items[j].0
  }

  /** The first pass over a template section: a key the group has takes the
      group's value; in a section the group lacks, the template's value. */
  function Assigned(items: Items, group: Option<map<string, string>>): map<string, string>
    decreases |items|
  {
    if items == [] then map[]
    else
      var m := Assigned(items[..|items| - 1], group);
      var (k, v) := Last(items);
      match group
      case None => m[k := v]
      case Some(g) => if k in g then m[k := g[k]] else m
  }

  /** `orderedKeys`: the template keys of a section the group has that the
      group lacks (the indexed `*` keys), in template order. */
  function Pending(items: Items, group: Option<map<string, string>>): seq<string>
    decreases |items|
  {
    if items == [] || group.None? then []
    else
      var ks := Pending(items[..|items| - 1], group);
      if Last(items).0 in group.value then ks else ks + [Last(items).0]
  }

  /** `key.replace('*', str(n))`. */
  function Numbered(key: string, n: nat): string {
    ReplaceAll(key, "*", NatToString(n))
  }

  /** One pass of the inner loop: index `n` of every pending key the group has. */
  function AddIndex(m: map<string, string>, keys: seq<string>, g: map<string, string>, n: nat): map<string, string>
    decreases |keys|
  {
    if keys == [] then m
    else
      var m' := AddIndex(m, keys[..|keys| - 1], g, n);
      var nk := Numbered(Last(keys), n);
      if nk in g then m'[nk := g[nk]] else m'
  }

  /** The outer loop: indices `1..n`. */
  function AddIndices(m: map<string, string>, keys: seq<string>, g: map<string, string>, n: nat): map<string, string>
    decreases n
  {
    if n == 0 then m else AddIndex(AddIndices(m, keys, g, n - 1), keys, g, n)
  }

  function GroupOr(group: Option<map<string, string>>): map<string, string> {
    if group.Some? then group.value else map[]
  }

  /** `metaDataFile[section]`. */
  function SectionFile(items: Items, group: Option<map<string, string>>, dyn: nat): map<string, string> {
    AddIndices(Assigned(items, group), Pending(items, group), GroupOr(group), dyn)
  }

  /** `key` with some index `1..n` is `k`. */
  ghost predicate Expands(keys: seq<string>, n: nat, k: string) {
    exists i, key :: 1 <= i <= n && key in keys && Numbered(key, i) == k
  }

  /** `m` holds only the group's own values. */
  ghost predicate FromGroup(m: map<string, string>, g: map<string, string>) {
    forall k :: k in m ==> k in g && m[k] == g[k]
  }

  lemma {:induction false} AssignedFromGroup(items: Items, g: map<string, string>)
    ensures FromGroup(Assigned(items, Some(g)), g)
    ensures forall k :: k in Assigned(items, Some(g)) <==> k in g && k in ItemKeys(items)
    decreases |items|
  {
    if items != [] {
      var init := items[..|items| - 1];
      AssignedFromGroup(init, g);
      forall k ensures k in ItemKeys(items) <==> k in ItemKeys(init) || k == Last(items).0 {
        if k in ItemKeys(items) {
          var j :| 0 <= j < |items| && items[j].0 == k;
          if j < |init| { assert init[j] == items[j]; }
        }
        if k in ItemKeys(init) {
          var j :| 0 <= j < |init| && init[j].0 == k;
          assert items[j] == init[j];
        }
      }
    }
  }

  lemma {:induction false} AssignedWithoutGroupKeys(items: Items)
    ensures Assigned(items, None).Keys == ItemKeys(items)
    decreases |items|
  {
    if items != [] {
      var init := items[..|items| - 1];
      AssignedWithoutGroupKeys(init);
      forall k ensures k in ItemKeys(items) <==> k in ItemKeys(init) || k == Last(items).0 {
        if k in ItemKeys(items) {
          var j :| 0 <= j < |items| && items[j].0 == k;
          if j < |init| { assert init[j] == items[j]; }
        }
        if k in ItemKeys(init) {
          var j :| 0 <= j < |init| && init[j].0 == k;
          assert items[j] == init[j];
        }
      }
    }
  }

  /** The last template entry of a key gives its value. */
  lemma {:induction false} AssignedWithoutGroupValue(items: Items, j: nat)
    requires j < |items| && forall j' :: j < j' < |items| ==> items[j'].0 != items[j].0
    ensures items[j].0 in Assigned(items, None) && Assigned(items, None)[items[j].0] == items[j].1
    decreases |items|
  {
    var init := items[..|items| - 1];
    if j < |init| {
      assert init[j] == items[j];
      assert forall j' :: j < j' < |init| ==> init[j'] == items[j'];
      AssignedWithoutGroupValue(init, j);
    }
  }

  lemma {:induction false} PendingKeys(items: Items, g: map<string, string>)
    ensures forall key :: key in Pending(items, Some(g)) <==> key in ItemKeys(items) && key !in g
    decreases |items|
  {
    if items != [] {
      var init := items[..|items| - 1];
      PendingKeys(init, g);
      forall k ensures k in ItemKeys(items) <==> k in ItemKeys(init) || k == Last(items).0 {
        if k in ItemKeys(items) {
          var j :| 0 <= j < |items| && items[j].0 == k;
          if j < |init| { assert init[j] == items[j]; }
        }
        if k in ItemKeys(init) {
          var j :| 0 <= j < |init| && init[j].0 == k;
          assert items[j] == init[j];
        }
      }
    }
  }

  lemma {:induction false} AddIndexFacts(m: map<string, string>, keys: seq<string>, g: map<string, string>, n: nat)
    requires FromGroup(m, g)
    ensures FromGroup(AddIndex(m, keys, g, n), g)
    ensures forall k :: k in AddIndex(m, keys, g, n) <==>
      k in m || (k in g && exists key :: key in keys && Numbered(key, n) == k)
    decreases |keys|
  {
    if keys != [] {
      var init := keys[..|keys| - 1];
      AddIndexFacts(m, init, g, n);
      assert keys == init + [Last(keys)];
    }
  }

  lemma {:induction false} AddIndicesFacts(m: map<string, string>, keys: seq<string>, g: map<string, string>, n: nat)
    requires FromGroup(m, g)
    ensures FromGroup(AddIndices(m, keys, g, n), g)
    ensures forall k :: k in AddIndices(m, keys, g, n) <==> k in m || (k in g && Expands(keys, n, k))
    decreases n
  {
    if n > 0 {
      var before := AddIndices(m, keys, g, n - 1);
      AddIndicesFacts(m, keys, g, n - 1);
      AddIndexFacts(before, keys, g, n);
      forall k | k in g && Expands(keys, n, k) && !Expands(keys, n - 1, k)
        ensures exists key :: key in keys && Numbered(key, n) == k
      {
        var i, key :| 1 <= i <= n && key in keys && Numbered(key, i) == k;
        assert i == n;
      }
    }
  }

  /** A section the group has holds only the group's values: the template
      keys the group has, and each indexed key `1..dyn` the group has. */
  lemma SectionFromGroup(items: Items, g: map<string, string>, dyn: nat)
    ensures FromGroup(SectionFile(items, Some(g), dyn), g)
    ensures forall k :: k in SectionFile(items, Some(g), dyn) <==>
      k in g && (k in ItemKeys(items) || Expands(Pending(items, Some(g)), dyn, k))
  {
    AssignedFromGroup(items, g);
    AddIndicesFacts(Assigned(items, Some(g)), Pending(items, Some(g)), g, dyn);
  }

  /** A section the group lacks is the template's section as it stands. */
  lemma SectionWithoutGroup(items: Items, dyn: nat)
    ensures SectionFile(items, None, dyn).Keys == ItemKeys(items)
    ensures forall j :: 0 <= j < |items| && (forall j' :: j < j' < |items| ==> items[j'].0 != items[j].0) ==>
      SectionFile(items, None, dyn)[items[j].0] == items[j].1
  {
    AssignedWithoutGroupKeys(items);
    NoneAddsNothing(Assigned(items, None), dyn);
    forall j | 0 <= j < |items| && (forall j' :: j < j' < |items| ==> items[j'].0 != items[j].0)
      ensures SectionFile(items, None, dyn)[items[j].0] == items[j].1
    {
      AssignedWithoutGroupValue(items, j);
    }
  }

  lemma {:induction false} NoneAddsNothing(m: map<string, string>, n: nat)
    ensures AddIndices(m, [], map[], n) == m
    decreases n
  {
    if n > 0 { NoneAddsNothing(m, n - 1); }
  }

  /** The loops that build `metaDataFile[section]`. */
  method ExpandSection(items: Items, group: Option<map<string, string>>, dyn: nat) returns (m: map<string, string>)
    ensures m == SectionFile(items, group, dyn)
  {
    var first, pending := AssignItems(items, group);
    m := AddNumbered(first, pending, GroupOr(group), dyn);
  }

  /** The loop over the template's items: each gets the group's value, or
      the template's when the section has no group; keys the group lacks
      are kept for numbering. */
  method AssignItems(items: Items, group: Option<map<string, string>>) returns (m: map<string, string>, pending: seq<string>)
    ensures m == Assigned(items, group) && pending == Pending(items, group)
  {
    m := map[];
    pending := [];
    var j := 0;
    while j < |items|
      invariant 0 <= j <= |items|
      invariant m == Assigned(items[..j], group) && pending == Pending(items[..j], group)
    {
      var (k, v) := items[j];
      assert items[..j + 1][..j] == items[..j];
      match group {
        case None =>
          m := m[k := v];
        case Some(g) =>
          if k in g {
            m := m[k := g[k]];
          } else {
            pending := pending + [k];
          }
      }
      j := j + 1;
    }
    assert items[..j] == items;
  }

  /** The loop over the indices `1..dyn`. */
  method AddNumbered(first: map<string, string>, pending: seq<string>, g: map<string, string>, dyn: nat)
    returns (m: map<string, string>)
    ensures m == AddIndices(first, pending, g, dyn)
  {
    m := first;
    var n := 0;
    while n < dyn
      invariant 0 <= n <= dyn
      invariant m == AddIndices(first, pending, g, n)
    {
      m := AddOneIndex(m, pending, g, n + 1);
      n := n + 1;
    }
  }

  /** The loop over the pending keys for one index `n`. */
  method AddOneIndex(before: map<string, string>, pending: seq<string>, g: map<string, string>, n: nat)
    returns (m: map<string, string>)
    ensures m == AddIndex(before, pending, g, n)
  {
    m := before;
    var i := 0;
    while i < |pending|
      invariant 0 <= i <= |pending|
      invariant m == AddIndex(before, pending[..i], g, n)
    {
      assert pending[..i + 1][..i] == pending[..i];
      var nk := Numbered(pending[i], n);
      if nk in g {
        m := m[nk := g[nk]];
      }
      i := i + 1;
    }
    assert pending[..i] == pending;
  }

  /** The template: its sections, each with its keys in order. */
  type Template = map<string, Items>

  /** `metaDataFile`: every template section, expanded up to the section's
      dynamic count (0 for a section that has none). */
  function MetaDataFile(template: Template, gm: IniFile): (r: Result<IniFile>)
    ensures r.Ok? <==> DynamicVals(gm).Ok?
    ensures r.Ok? ==> r.value.Keys == template.Keys
  {
    match DynamicVals(gm)
    case Err(e) => Err(e)
    case Ok(dv) => Ok(map s | s in template :: SectionOf(template, gm, dv, s))
  }

  /** `metaDataFile[s]`, given the dynamic counts. */
  function SectionOf(template: Template, gm: IniFile, dv: map<string, nat>, s: string): map<string, string>
    requires s in template
  {
    SectionFile(template[s], if s in gm then Some(gm[s]) else None, if s in dv then dv[s] else 0)
  }

  /** The loop over the template's sections. */
  method WriteMetaDataFile(template: Template, gm: IniFile) returns (r: Result<IniFile>)
    ensures r == MetaDataFile(template, gm)
  {
    var dv := DynamicVals(gm);
    if dv.Err? {
      return Err(dv.error);
    }
    var file: IniFile := map[];
    var todo := template.Keys;
    while todo != {}
      invariant todo <= template.Keys
      invariant forall s :: s in file <==> s in template && s !in todo
      invariant forall s :: s in file ==> file[s] == SectionOf(template, gm, dv.value, s)
      decreases |todo|
    {
      var s :| s in todo;
      var section := ExpandSection(template[s], if s in gm then Some(gm[s]) else None, if s in dv.value then dv.value[s] else 0);
      file := file[s := section];
      todo := todo - {s};
    }
    AllSections(file, template, gm, dv.value);
    r := Ok(file);
  }

  lemma AllSections(file: IniFile, template: Template, gm: IniFile, dv: map<string, nat>)
    requires forall s :: s in file <==> s in template
    requires forall s :: s in file ==> file[s] == SectionOf(template, gm, dv, s)
    ensures file == map s | s in template :: SectionOf(template, gm, dv, s)
  {
  }

  /** Every value the file holds for a section the group has is the group's
      own value, and every template key the group has is there. */
  lemma MetaDataFromGroup(template: Template, gm: IniFile, s: string, k: string)
    requires MetaDataFile(template, gm).Ok? && s in template && s in gm
    ensures k in MetaDataFile(template, gm).value[s] ==> k in gm[s] && MetaDataFile(template, gm).value[s][k] == gm[s][k]
    ensures k in gm[s] && k in ItemKeys(template[s]) ==> k in MetaDataFile(template, gm).value[s]
  {
    var dv := DynamicVals(gm).value;
    SectionFromGroup(template[s], gm[s], if s in dv then dv[s] else 0);
  }

  // ---------------------------------------------------------------------------
  // The `.eddypro` column definitions

  /** One `eddyProGroupDefs['Project']` entry: the variable and the measure
      types to try, in order (absent when the configuration gives none). */
  datatype Definition = Definition(variable: string, measureTypes: Option<seq<string>>)

  /** An absent `measure_type` defaults to `[NaN tag]`. */
  function MeasureTypes(d: Definition): seq<string> {
    if d.measureTypes.Some? then d.measureTypes.value else [NanTag]
  }

  /** `i.split('_')[1]`: the index text of a `col_*_...` name. */
  function IndexText(name: string): string {
    var parts := Split(name, "_");
    if |parts| < 2 then "" else parts[1]
  }

  /** The index texts of the `col_*_{suffix}` columns whose filled value is `value`. */
  function Matching(row: Row<Column>, cols: set<Column>, pattern: string, value: string): (ix: set<string>)
    ensures forall x :: x in ix <==>
      exists c :: c in cols && Match(pattern, c.1) && FilledCell(row, c) == Str(value) && IndexText(c.1) == x
  {
    set c | c in cols && Match(pattern, c.1) && FilledCell(row, c) == Str(value) :: IndexText(c.1)
  }

  function VarIx(row: Row<Column>, cols: set<Column>, d: Definition): set<string> {
    Matching(row, cols, "col_*_variable", d.variable)
  }

  /** `set(var_ix) & set(meas_ix)` for one measure type. */
  function Meet(vix: set<string>, row: Row<Column>, cols: set<Column>, m: string): set<string> {
    vix * Matching(row, cols, "col_*_measure_type", m)
  }

  /** The measure-type loop stops at the first measure type whose
      intersection is non-empty, or runs to the last one. */
  function Stop(vix: set<string>, row: Row<Column>, cols: set<Column>, ms: seq<string>): (j: nat)
    requires ms != []
    ensures j < |ms|
    ensures forall j' :: 0 <= j' < j ==> Meet(vix, row, cols, ms[j']) == {}
    ensures Meet(vix, row, cols, ms[j]) == {} ==> j == |ms| - 1
    decreases |ms|
  {
    if Meet(vix, row, cols, ms[0]) != {} || |ms| == 1 then 0
    else
      var j := Stop(vix, row, cols, ms[1..]);
      assert forall j' :: 1 <= j' < j + 1 ==> ms[j'] == ms[1..][j' - 1];
      j + 1
  }

  /** `col_num` after the measure-type loop; no value when there is no
      measure type to try. */
  function Candidates(vix: set<string>, row: Row<Column>, cols: set<Column>, ms: seq<string>): (r: Option<set<string>>)
    ensures r.None? <==> ms == []
  {
    if ms == [] then None else Some(Meet(vix, row, cols, ms[Stop(vix, row, cols, ms)]))
  }

  lemma SingletonUnique(s: set<string>)
    requires |s| == 1
    ensures forall x, y :: x in s && y in s ==> x == y
  {
    forall x, y | x in s && y in s ensures x == y {
      assert |s - {x}| == 0;
      assert y !in s - {x};
    }
  }

  /** `col_num[0] if len(col_num) == 1 else '0'` for a set of candidates. */
  function Single(s: set<string>): (r: string)
    ensures |s| == 1 ==> s == {r}
    ensures |s| != 1 ==> r == "0"
  {
    if |s| == 1 then
      SingletonUnique(s);
      var x :| x in s;
      x
    else "0"
  }

  /** The column number for one definition. With no measure type to try,
      `col_num` is the previous definition's text (and is unbound before the
      first): a one-character text is kept, any other becomes `'0'`. */
  function ColumnNumber(cands: Option<set<string>>, prev: Option<string>): (r: Result<string>)
    ensures r.Err? <==> cands.None? && prev.None?
    ensures cands.Some? ==> r == Ok(Single(cands.value))
  {
    match cands
    case Some(s) => Ok(Single(s))
    case None =>
      match prev
      case None => Err("UnboundLocalError: col_num")
      case Some(t) => Ok(if |t| == 1 then t else "0")
  }

  /** `col_num` after the measure-type loop of one definition. It does not
      depend on the previous definition's `col_num`. */
  function DefCandidates(d: Definition, row: Row<Column>, cols: set<Column>): Option<set<string>> {
    Candidates(VarIx(row, cols, d), row, cols, MeasureTypes(d))
  }

  /** The candidates of every definition, in order. */
  function CandidatesOf(defs: seq<(string, Definition)>, row: Row<Column>, cols: set<Column>): (cs: seq<Option<set<string>>>)
    ensures |cs| == |defs|
    ensures forall i :: 0 <= i < |defs| ==> cs[i] == DefCandidates(defs[i].1, row, cols)
  {
    seq(|defs|, i requires 0 <= i < |defs| => DefCandidates(defs[i].1, row, cols))
  }

  /** `eddyProGroupDefs['Project']` for one group, and the `col_num` left over. */
  function ProjectColumns(defs: seq<(string, Definition)>, row: Row<Column>, cols: set<Column>, prev: Option<string>)
    : Result<(map<string, string>, Option<string>)>
  {
    ColumnsUpTo(defs, CandidatesOf(defs, row, cols), |defs|, prev)
  }

  /** The same after the first `n` definitions, given their candidates. */
  function ColumnsUpTo(defs: seq<(string, Definition)>, cands: seq<Option<set<string>>>, n: nat, prev: Option<string>)
    : Result<(map<string, string>, Option<string>)>
    requires n <= |defs| == |cands|
    decreases n
  {
    if n == 0 then Ok((map[], prev))
    else
      match ColumnsUpTo(defs, cands, n - 1, prev)
      case Err(e) => Err(e)
      case Ok((m, last)) =>
        match ColumnNumber(cands[n - 1], last)
        case Err(e) => Err(e)
        case Ok(c) => Ok((m[defs[n - 1].0 := c], Some(c)))
  }

  /** The column resolution fails only when the very first definition has no
      measure type to try (its candidates are `None`, see `Candidates`) and
      no earlier group left a `col_num`. */
  lemma {:induction false} ProjectColumnsFails(defs: seq<(string, Definition)>, cands: seq<Option<set<string>>>,
                                               n: nat, prev: Option<string>)
    requires n <= |defs| == |cands|
    ensures var r := ColumnsUpTo(defs, cands, n, prev);
      r.Err? <==> n > 0 && prev.None? && cands[0].None?
    ensures var r := ColumnsUpTo(defs, cands, n, prev);
      r.Ok? ==> r.value.1 == (if n == 0 then prev else Some(r.value.1.value))
    decreases n
  {
    if n > 0 {
      ProjectColumnsFails(defs, cands, n - 1, prev);
    }
  }

  /** Every definition with candidates (a measure type to try) gets the one
      index in them, or `'0'` when there is not exactly one; the last
      definition of a key wins. */
  lemma {:induction false} ProjectColumnsResolve(defs: seq<(string, Definition)>, cands: seq<Option<set<string>>>,
                                                 n: nat, prev: Option<string>, j: nat)
    requires n <= |defs| == |cands| && ColumnsUpTo(defs, cands, n, prev).Ok?
    requires j < n && cands[j].Some?
    requires forall j' :: j < j' < n ==> defs[j'].0 != defs[j].0
    ensures defs[j].0 in ColumnsUpTo(defs, cands, n, prev).value.0
    ensures ColumnsUpTo(defs, cands, n, prev).value.0[defs[j].0] == Single(cands[j].value)
    decreases n
  {
    if j < n - 1 {
      ProjectColumnsResolve(defs, cands, n - 1, prev, j);
    }
  }

  /** The definitions loop. */
  method ResolveColumns(defs: seq<(string, Definition)>, row: Row<Column>, cols: set<Column>, prev: Option<string>)
    returns (r: Result<(map<string, string>, Option<string>)>)
    ensures r == ProjectColumns(defs, row, cols, prev)
  {
    var cands := CandidatesOf(defs, row, cols);
    r := ResolveWith(defs, cands, prev);
  }

  /** The loop itself, over the definitions and their candidates. */
  method ResolveWith(defs: seq<(string, Definition)>, cands: seq<Option<set<string>>>, prev: Option<string>)
    returns (r: Result<(map<string, string>, Option<string>)>)
    requires |defs| == |cands|
    ensures r == ColumnsUpTo(defs, cands, |defs|, prev)
  {
    var m: map<string, string> := map[];
    var last := prev;
    for i := 0 to |defs|
      invariant ColumnsUpTo(defs, cands, i, prev) == Ok((m, last))
    {
      var c := ColumnNumber(cands[i], last);
      if c.Err? {
        PrefixErr(defs, cands, i + 1, |defs|, prev);
        return Err(c.error);
      }
      m := m[defs[i].0 := c.value];
      last := Some(c.value);
    }
    r := Ok((m, last));
  }

  /** A failure part-way fails the whole loop. */
  lemma {:induction false} PrefixErr(defs: seq<(string, Definition)>, cands: seq<Option<set<string>>>, i: nat, k: nat,
                                     prev: Option<string>)
    requires i <= k <= |defs| == |cands| && ColumnsUpTo(defs, cands, i, prev).Err?
    ensures ColumnsUpTo(defs, cands, k, prev) == ColumnsUpTo(defs, cands, i, prev)
    decreases k
  {
    if k > i {
      PrefixErr(defs, cands, i, k - 1, prev);
    }
  }

  // ---------------------------------------------------------------------------
  // The biomet column definitions

  /** `list(columns).index(value) + 1`: the 1-based position of the first
      occurrence. */
  function Position(columns: seq<string>, value: string): (p: nat)
    requires value in columns
    ensures 1 <= p <= |columns| && columns[p - 1] == value && value !in columns[..p - 1]
  {
    if columns[0] == value then 1
    else
      var p := Position(columns[1..], value);
      assert columns[..p] == [columns[0]] + columns[1..][..p - 1];
      p + 1
  }

  /** `eddyProGroupDefsTemplate[bm]`: each biomet definition whose column is
      in the biomet table, at its 1-based position. */
  function BiometColumns(defs: map<string, string>, columns: seq<string>): (r: map<string, nat>)
    ensures forall k :: k in r <==> k in defs && defs[k] in columns
    ensures forall k :: k in r ==> 1 <= r[k] <= |columns| && columns[r[k] - 1] == defs[k] && defs[k] !in columns[..r[k] - 1]
  {
    map k | k in defs && defs[k] in columns :: Position(columns, defs[k])
  }

  // ---------------------------------------------------------------------------
  // One group's files

  /** What is written for one group: its `.metadata` file and its
      `.eddypro` column definitions (with the biomet section, when there is
      biomet data). */
  datatype GroupFiles = GroupFiles(metadata: IniFile, project: map<string, string>, biomet: Option<map<string, nat>>)

  /** What every group's files are made from: the columns of
      `configurationGroups`, how floats are printed, the metadata template,
      the project definitions and the resolved biomet definitions. */
  datatype Setup = Setup(cols: set<Column>, show: real -> string, template: Template,
                         defs: seq<(string, Definition)>, biomet: Option<map<string, nat>>)

  /** The files of one group, and the `col_num` the next group starts from. */
  function GroupFilesOf(info: GroupInfo, s: Setup, prev: Option<string>): Result<(GroupFiles, Option<string>)> {
    match MetaDataFile(s.template, GroupMetaData(info.first, s.cols, s.show))
    case Err(e) => Err(e)
    case Ok(md) =>
      match ProjectColumns(s.defs, info.first, s.cols, prev)
      case Err(e) => Err(e)
      case Ok((project, last)) => Ok((GroupFiles(md, project, s.biomet), last))
  }

  /** The groups in `iterrows` order; the first failure stops the loop. */
  function AllFiles(rows: seq<(int, GroupInfo)>, s: Setup): Result<(map<int, GroupFiles>, Option<string>)>
    decreases |rows|
  {
    if rows == [] then Ok((map[], None))
    else
      match AllFiles(rows[..|rows| - 1], s)
      case Err(e) => Err(e)
      case Ok((files, prev)) =>
        var (g, info) := Last(rows);
        match GroupFilesOf(info, s, prev)
        case Err(e) => Err(e)
        case Ok((f, last)) => Ok((files[g := f], last))
  }

  /** One pass of the loop over the groups: the metadata file, then the
      column numbers of the project file. */
  method WriteGroup(info: GroupInfo, s: Setup, prev: Option<string>) returns (r: Result<(GroupFiles, Option<string>)>)
    ensures r == GroupFilesOf(info, s, prev)
  {
    var md := WriteMetaDataFile(s.template, GroupMetaData(info.first, s.cols, s.show));
    if md.Err? {
      return Err(md.error);
    }
    var pc := ResolveColumns(s.defs, info.first, s.cols, prev);
    if pc.Err? {
      return Err(pc.error);
    }
    r := Ok((GroupFiles(md.value, pc.value.0, s.biomet), pc.value.1));
  }

  /** The loop over the groups. */
  method WriteAll(rows: seq<(int, GroupInfo)>, s: Setup) returns (r: Result<(map<int, GroupFiles>, Option<string>)>)
    ensures r == AllFiles(rows, s)
  {
    var files: map<int, GroupFiles> := map[];
    var prev: Option<string> := None;
    var i := 0;
    while i < |rows|
      invariant 0 <= i <= |rows|
      invariant AllFiles(rows[..i], s) == Ok((files, prev))
    {
      AllFilesStep(rows, s, i, files, prev);
      var gf := WriteGroup(rows[i].1, s, prev);
      if gf.Err? {
        r := Err(gf.error);
        AllFilesPrefixErr(rows, s, i + 1);
        return;
      }
      files := files[rows[i].0 := gf.value.0];
      prev := gf.value.1;
      i := i + 1;
    }
    assert rows[..i] == rows;
    r := Ok((files, prev));
  }

  /** One more group on top of the groups before it. */
  lemma AllFilesStep(rows: seq<(int, GroupInfo)>, s: Setup, i: nat, files: map<int, GroupFiles>, prev: Option<string>)
    requires i < |rows| && AllFiles(rows[..i], s) == Ok((files, prev))
    ensures var gf := GroupFilesOf(rows[i].1, s, prev);
      AllFiles(rows[..i + 1], s) == if gf.Err? then Err(gf.error) else Ok((files[rows[i].0 := gf.value.0], gf.value.1))
  {
    assert rows[..i + 1][..i] == rows[..i];
  }

  /** A failure part-way fails the whole loop. */
  lemma {:induction false} AllFilesPrefixErr(rows: seq<(int, GroupInfo)>, s: Setup, i: nat)
    requires i <= |rows| && AllFiles(rows[..i], s).Err?
    ensures AllFiles(rows, s) == AllFiles(rows[..i], s)
    decreases |rows| - i
  {
    if i < |rows| {
      assert rows[..i + 1][..i] == rows[..i];
      AllFilesPrefixErr(rows, s, i + 1);
    } else {
      assert rows[..i] == rows;
    }
  }
}
