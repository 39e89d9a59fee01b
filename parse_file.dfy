/** The raw-file parser of parseFile.py: which members of a `.ghg` archive
    are read, how the data header's columns are renamed to the variables of
    the variable list, which statistic is kept per variable, and how the
    EddyPro template's column numbers are chosen. */
module ParseFile {
  import opened Text
  import Filters
  import EventLogs

  /** The sections of the variable list as ordered `(key, value)` items. */
  type Items = seq<(string, string)>

  // ---------------------------------------------------------------------
  // whichFiles

  /** Where `whichFiles` files one archive member. */
  datatype Kind = Ignored | Metadata | Data | Status | Co2App | Xml

  /** The tests of `whichFiles`, in their priority order. */
  function KindOf(f: string): Kind {
    if Contains(f, "biomet") then Ignored
    else if Contains(f, ".metadata") then Metadata
    else if Contains(f, ".data") then Data
    else if Contains(f, ".status") then Status
    else if Contains(f, "system_config") then
      if Contains(f, "co2app") then Co2App
      else if Contains(f, ".xml") && !Contains(f, "factory") then Xml
      else Ignored
    else Ignored
  }

  /** `self.ghgFiles`: one slot per single member, a list of xml files. */
  datatype GhgFiles = GhgFiles(data: string, metadata: string, status: string, co2app: string, xmlFiles: seq<string>)

  const NoFiles: GhgFiles := GhgFiles("", "", "", "", [])

  /** The slot a kind of member is written to (`""` for the xml list and
      for ignored members, which have none). */
  function Slot(g: GhgFiles, k: Kind): string {
    match k
    case Metadata => g.metadata
    case Data => g.data
    case Status => g.status
    case Co2App => g.co2app
    case _ => ""
  }

  /** The inventory after `whichFiles(files)`: it starts from the empty
      defaults and takes the members in order. */
  function Classified(files: seq<string>): GhgFiles
    decreases |files|
  {
    if files == [] then NoFiles
    else
      var g := Classified(files[..|files| - 1]);
      var f := files[|files| - 1];
      match KindOf(f)
      case Ignored => g
      case Metadata => g.(metadata := f)
      case Data => g.(data := f)
      case Status => g.(status := f)
      case Co2App => g.(co2app := f)
      case Xml => g.(xmlFiles := g.xmlFiles + [f])
  }

  /** The members of one kind, in archive order. */
  function OfKind(files: seq<string>, k: Kind): (r: seq<string>)
    ensures forall f :: f in r <==> f in files && KindOf(f) == k
    decreases |files|
  {
    if files == [] then []
    else
      var r := OfKind(files[..|files| - 1], k);
      assert files == files[..|files| - 1] + [files[|files| - 1]];
      if KindOf(files[|files| - 1]) == k then r + [files[|files| - 1]] else r
  }

  /** The xml list keeps every qualifying member, in archive order. */
  lemma {:induction false} XmlFilesInOrder(files: seq<string>)
    ensures Classified(files).xmlFiles == OfKind(files, Xml)
    decreases |files|
  {
    if files != [] {
      XmlFilesInOrder(files[..|files| - 1]);
    }
  }

  /** A slot holds the last member of its kind: a later match overwrites an
      earlier one. */
  lemma {:induction false} LastOfKindWins(files: seq<string>, k: Kind, j: nat)
    requires k != Ignored && k != Xml
    requires j < |files| && KindOf(files[j]) == k
    requires forall j' :: j < j' < |files| ==> KindOf(files[j']) != k
    ensures Slot(Classified(files), k) == files[j]
    decreases |files|
  {
    if j < |files| - 1 {
      var init := files[..|files| - 1];
      assert forall j' :: j < j' < |init| ==> init[j'] == files[j'];
      LastOfKindWins(init, k, j);
    }
  }

  /** A slot with no member of its kind keeps its empty default, whatever an
      earlier call found. */
  lemma {:induction false} NoneOfKindEmpty(files: seq<string>, k: Kind)
    requires forall j :: 0 <= j < |files| ==> KindOf(files[j]) != k
    ensures Slot(Classified(files), k) == ""
    ensures k == Xml ==> Classified(files).xmlFiles == []
    decreases |files|
  {
    if files != [] {
      NoneOfKindEmpty(files[..|files| - 1], k);
    }
  }

  /** Biomet members are never read, whatever else their names contain. */
  lemma BiometIgnored(files: seq<string>, f: string)
    requires Contains(f, "biomet")
    ensures Classified(files + [f]) == Classified(files)
  {
    assert (files + [f])[..|files|] == files;
  }

  // ---------------------------------------------------------------------
  // readHeader

  /** `s.split(',', 1)[1]`: the text after the first comma; `IndexError`
      where there is none. */
  function AfterFirstComma(s: string): (r: Result<string>)
    ensures r.Err? <==> ',' !in s
    ensures r.Ok? ==> |r.value| < |s| && s == s[..|s| - |r.value| - 1] + [','] + r.value
    ensures r.Ok? ==> ',' !in s[..|s| - |r.value| - 1]
  {
    match Find(s, ",")
    case None =>
      assert forall i :: 0 <= i < |s| && s[i] == ',' ==> OccursAt(s, ",", i);
      Err("IndexError: list index out of range")
    case Some(i) =>
      assert forall j :: 0 <= j < i && s[j] == ',' ==> OccursAt(s, ",", j);
      assert s == s[..i] + [','] + s[i + 1..];
      Ok(s[i + 1..])
  }

  /** `section[key]` on an item list: the entry's value, if the key is there. */
  function Get(items: Items, key: string): (r: Option<string>)
    ensures r.None? <==> forall i :: 0 <= i < |items| ==> items[i].0 != key
    ensures r.Some? ==> exists i :: 0 <= i < |items| && items[i] == (key, r.value)
  {
    if items == [] then None
    else if items[0].0 == key then Some(items[0].1)
    else
      var r := Get(items[1..], key);
      assert r.Some? ==> items[1..][0..] == items[1..];
      if r.Some? then
        assert exists i :: 0 <= i < |items| && items[i] == (key, r.value) by {
          var i :| 0 <= i < |items[1..]| && items[1..][i] == (key, r.value);
          assert items[i + 1] == (key, r.value);
        }
        r
      else r
  }

  /** `section[key] = value` for a key already present: the entry keeps its
      place and takes the new value. */
  function Put(items: Items, key: string, value: string): (r: Items)
    ensures |r| == |items|
    ensures forall i :: 0 <= i < |items| ==> r[i] == if items[i].0 == key then (key, value) else items[i]
  {
    seq(|items|, i requires 0 <= i < |items| => if items[i].0 == key then (key, value) else items[i])
  }

  /** `section[key] = value`: an entry already present keeps its place and
      takes the new value, a new key is appended at the end. */
  function Assign(items: Items, key: string, value: string): (r: Items)
    ensures Get(items, key).Some? ==> r == Put(items, key, value)
    ensures Get(items, key).None? ==> r == items + [(key, value)]
  {
    if Get(items, key).Some? then Put(items, key, value) else items + [(key, value)]
  }

  /** One of the analyser tweaks: `col_diag_75` takes the aliases of
      `source` after its first one. Only `source` is read, so a missing
      `col_diag_75` is created when `source` is another key. */
  function Retarget(project: Items, source: string): Result<Items> {
    match Get(project, source)
    case None => Err("KeyError: " + source)
    case Some(v) =>
      match AfterFirstComma(v)
      case Err(e) => Err(e)
      case Ok(rest) => Ok(Assign(project, "col_diag_75", rest))
  }

  /** A tweak keeps every entry other than `col_diag_75` in place, and
      appends `col_diag_75` only when the section lacked it; afterwards the
      section has it. */
  lemma RetargetKeeps(project: Items, source: string)
    ensures Retarget(project, source).Ok? ==>
      var q := Retarget(project, source).value;
      && |project| <= |q| <= |project| + 1
      && (forall i :: 0 <= i < |project| && project[i].0 != "col_diag_75" ==> q[i] == project[i])
      && (|q| == |project| + 1 ==> Get(project, "col_diag_75").None? && q[|project|].0 == "col_diag_75")
      && Get(q, "col_diag_75").Some?
  {
    if Retarget(project, source).Ok? {
      GetAssign(project, "col_diag_75", AfterFirstComma(Get(project, source).value).value);
    }
  }

  /** The project section after the analyser tweaks of `readHeader`, with
      the error that stopped them, if any: a `72` model drops the first alias
      of `col_diag_75`, a `75` model gives it the aliases of `col_diag_72`
      after their first. A failed step leaves the section as the steps
      before it left it. Every entry other than `col_diag_75` keeps its
      place and value, and at most `col_diag_75` is added at the end. */
  function AdjustDiag(project: Items, model: string): (r: (Items, Option<string>))
    ensures !Contains(model, "72") && !Contains(model, "75") ==> r == (project, None)
    ensures |project| <= |r.0| <= |project| + 1
    ensures forall i :: 0 <= i < |project| && project[i].0 != "col_diag_75" ==> r.0[i] == project[i]
    ensures |r.0| == |project| + 1 ==> r.0[|project|].0 == "col_diag_75"
  {
    RetargetKeeps(project, "col_diag_75");
    var first := if Contains(model, "72") then Retarget(project, "col_diag_75") else Ok(project);
    match first
    case Err(e) => (project, Some(e))
    case Ok(p) =>
      RetargetKeeps(p, "col_diag_72");
      if Contains(model, "75") then
        match Retarget(p, "col_diag_72")
        case Err(e) => (p, Some(e))
        case Ok(q) => (q, None)
      else (p, None)
  }

  /** The model `7200` names a `72` analyser and not a `75` one. */
  lemma SevenTwoHundred()
    ensures Contains("7200", "72") && !Contains("7200", "75")
  {
    var m := "7200";
    assert OccursAt(m, "72", 0);
    forall i | 0 <= i <= |m| ensures !OccursAt(m, "75", i) {
      if i + 2 <= |m| {
        assert m[i..i + 2][0] == m[i];
      }
    }
  }

  /** One `readHeader` call for a `7200` on a section holding only
      `col_diag_75`. */
  lemma OneTweak(v: string)
    ensures AfterFirstComma(v).Ok? ==>
      AdjustDiag([("col_diag_75", v)], "7200") == ([("col_diag_75", AfterFirstComma(v).value)], None)
    ensures AfterFirstComma(v).Err? ==> AdjustDiag([("col_diag_75", v)], "7200").1.Some?
  {
    SevenTwoHundred();
    var p := [("col_diag_75", v)];
    assert Get(p, "col_diag_75") == Some(v);
    if AfterFirstComma(v).Ok? {
      assert Assign(p, "col_diag_75", AfterFirstComma(v).value) == [("col_diag_75", AfterFirstComma(v).value)];
    }
  }

  /** The alias lists of the example, one alias shorter each time. */
  lemma AliasTails()
    ensures AfterFirstComma("a,b,c") == Ok("b,c")
    ensures AfterFirstComma("b,c") == Ok("c")
    ensures AfterFirstComma("c").Err?
  {
    assert "a,b,c" == "a" + [','] + "b,c";
    FindFirstChar("a", ',', "b,c");
    assert "a,b,c"[2..] == "b,c";
    assert "b,c" == "b" + [','] + "c";
    FindFirstChar("b", ',', "c");
    assert "b,c"[2..] == "c";
    assert ',' !in "c";
  }

  /** Because `readHeader` stores the tweak back into the variable list, a
      `72` site loses one more alias of `col_diag_75` on every call: from
      `a,b,c` the second call leaves `c` and the third raises. */
  lemma RepeatedReadsStripAliases()
    ensures var p1 := AdjustDiag([("col_diag_75", "a,b,c")], "7200");
      var p2 := AdjustDiag(p1.0, "7200");
      && p1 == ([("col_diag_75", "b,c")], None)
      && p2 == ([("col_diag_75", "c")], None)
      && AdjustDiag(p2.0, "7200").1.Some?
  {
    AliasTails();
    OneTweak("a,b,c");
    OneTweak("b,c");
    OneTweak("c");
  }

  /** Keys of a configuration section are distinct. */
  predicate UniqueKeys(items: Items) {
    forall i, j :: 0 <= i < j < |items| ==> items[i].0 != items[j].0
  }

  /** In a section with distinct keys, `Get` reads the key's entry. */
  lemma GetEntry(items: Items, i: nat)
    requires UniqueKeys(items) && i < |items|
    ensures Get(items, items[i].0) == Some(items[i].1)
  {
  }

  /** For a `72` model, the tweak succeeds exactly when `col_diag_75` has a
      comma, and then leaves it its aliases after the first; the other
      entries keep their values. */
  lemma DropsFirstAlias(project: Items, model: string, i: nat)
    requires UniqueKeys(project)
    requires Contains(model, "72") && !Contains(model, "75")
    requires i < |project| && project[i].0 == "col_diag_75"
    ensures AdjustDiag(project, model).1.None? <==> ',' in project[i].1
    ensures AdjustDiag(project, model).1.None? ==>
      AfterFirstComma(project[i].1) == Ok(AdjustDiag(project, model).0[i].1)
    ensures forall j :: 0 <= j < |project| && j != i ==> AdjustDiag(project, model).0[j] == project[j]
  {
    GetEntry(project, i);
  }

  /** After `section[key] = value` the key reads back the value. */
  lemma {:induction false} GetAssign(items: Items, key: string, value: string)
    ensures Get(Assign(items, key, value), key) == Some(value)
  {
    if items == [] {
    } else if items[0].0 == key {
      assert Assign(items, key, value)[0] == (key, value);
    } else {
      GetAssign(items[1..], key, value);
      var r := Assign(items, key, value);
      assert r[1..] == Assign(items[1..], key, value);
    }
  }

  /** For a `75` model, the tweak succeeds exactly when `col_diag_72` has a
      comma, and `col_diag_75` then holds the aliases of `col_diag_72` after
      the first; it is appended when the section did not have it. */
  lemma TakesSeventyTwoAliases(project: Items, model: string, j: nat)
    requires UniqueKeys(project)
    requires Contains(model, "75") && !Contains(model, "72")
    requires j < |project| && project[j].0 == "col_diag_72"
    ensures AdjustDiag(project, model).1.None? <==> ',' in project[j].1
    ensures AdjustDiag(project, model).1.None? ==>
      Get(AdjustDiag(project, model).0, "col_diag_75") == Some(AfterFirstComma(project[j].1).value)
    ensures AdjustDiag(project, model).1.None? && Get(project, "col_diag_75").None? ==>
      AdjustDiag(project, model).0 == project + [("col_diag_75", AfterFirstComma(project[j].1).value)]
  {
    GetEntry(project, j);
    if ',' in project[j].1 {
      GetAssign(project, "col_diag_75", AfterFirstComma(project[j].1).value);
    }
  }

  /** What `readHeader` builds: the data columns, and per variable the
      position and the alias its column was found under. `order` is the
      order in which variables were first found, the iteration order of
      `Variable_Names`. */
  datatype Header = Header(columns: seq<string>, positions: map<string, nat>, names: map<string, string>, order: seq<string>)

  /** Index of the first alias present among the columns. */
  function FirstPresent(aliases: seq<string>, columns: seq<string>): (r: Option<nat>)
    ensures r.Some? ==> r.value < |aliases| && aliases[r.value] in columns
    ensures r.Some? ==> forall j :: 0 <= j < r.value ==> aliases[j] !in columns
    ensures r.None? ==> forall j :: 0 <= j < |aliases| ==> aliases[j] !in columns
    decreases |aliases|
  {
    if aliases == [] then None
    else if aliases[0] in columns then Some(0)
    else
      match FirstPresent(aliases[1..], columns)
      case None => None
      case Some(j) => Some(j + 1)
  }

  /** `data_columns[col_num] = key` with `col_num` every column named `rec`. */
  function RenameEvery(columns: seq<string>, rec: string, key: string): (r: seq<string>)
    ensures |r| == |columns|
    ensures forall i :: 0 <= i < |columns| ==> r[i] == if columns[i] == rec then key else columns[i]
  {
    seq(|columns|, i requires 0 <= i < |columns| => if columns[i] == rec then key else columns[i])
  }

  /** One variable of the list. Its aliases are tried in order and the first
      one among the columns renames every column of that name to the
      variable, which records the first such position and the alias; later
      aliases are not consulted. Without a present alias nothing changes. */
  function Step(h: Header, entry: (string, string)): (r: Header)
    ensures |r.columns| == |h.columns|
    ensures FirstPresent(Split(entry.1, ","), h.columns).None? ==> r == h
    ensures FirstPresent(Split(entry.1, ","), h.columns).Some? ==>
      var rec := Split(entry.1, ",")[FirstPresent(Split(entry.1, ","), h.columns).value];
      && entry.0 in r.positions && r.positions[entry.0] < |h.columns|
      && h.columns[r.positions[entry.0]] == rec
      && r.columns[r.positions[entry.0]] == entry.0
      && (rec != entry.0 ==> rec !in r.columns)
      && r.names == h.names[entry.0 := rec]
  {
    var key := entry.0;
    var aliases := Split(entry.1, ",");
    match FirstPresent(aliases, h.columns)
    case None => h
    case Some(j) =>
      var rec := aliases[j];
      var r := Header(RenameEvery(h.columns, rec, key),
                      h.positions[key := Filters.FirstIndex(h.columns, rec)],
                      h.names[key := rec],
                      if key in h.names then h.order else h.order + [key]);
      assert rec != key ==> forall i :: 0 <= i < |r.columns| ==> r.columns[i] != rec;
      r
  }

  /** The header after the variables `entries` (the Sonic, Project and
      Auxillary sections in turn) have been looked up in `header`. */
  function Renaming(header: seq<string>, entries: Items): (h: Header)
    ensures |h.columns| == |header|
    decreases |entries|
  {
    if entries == [] then Header(header, map[], map[], [])
    else Step(Renaming(header, entries[..|entries| - 1]), entries[|entries| - 1])
  }

  /** The bookkeeping of a header agrees with itself: the same variables have
      a position and an alias, each once in `order`, and every position is a
      column. */
  ghost predicate Consistent(h: Header, n: nat) {
    && |h.columns| == n
    && h.positions.Keys == h.names.Keys
    && (forall k :: k in h.names <==> k in h.order)
    && (forall i, j :: 0 <= i < j < |h.order| ==> h.order[i] != h.order[j])
    && (forall k :: k in h.positions ==> h.positions[k] < n)
  }

  /** `a` is one of the comma-separated aliases listed for variable `k`. */
  ghost predicate AliasOf(entries: Items, k: string, a: string) {
    exists e :: e in entries && e.0 == k && a in Split(e.1, ",")
  }

  /** `readHeader` keeps the column count, and every variable it records was
      found under one of its own aliases. */
  lemma {:induction false} RenamingConsistent(header: seq<string>, entries: Items)
    ensures Consistent(Renaming(header, entries), |header|)
    ensures forall k :: k in Renaming(header, entries).names ==> AliasOf(entries, k, Renaming(header, entries).names[k])
    decreases |entries|
  {
    if entries != [] {
      var init := entries[..|entries| - 1];
      var e := entries[|entries| - 1];
      RenamingConsistent(header, init);
      var h := Renaming(header, init);
      var aliases := Split(e.1, ",");
      forall k | k in h.names ensures AliasOf(entries, k, h.names[k]) {
        var e' :| e' in init && e'.0 == k && h.names[k] in Split(e'.1, ",");
        assert e' in entries;
      }
      if FirstPresent(aliases, h.columns).Some? {
        assert e in entries;
      }
    }
  }

  /** A column whose header name is no variable's alias keeps its name. */
  lemma {:induction false} UnlistedColumnKept(header: seq<string>, entries: Items, i: nat)
    requires i < |header|
    requires forall e :: e in entries ==> header[i] !in Split(e.1, ",")
    ensures Renaming(header, entries).columns[i] == header[i]
    decreases |entries|
  {
    if entries != [] {
      var init := entries[..|entries| - 1];
      assert forall e :: e in init ==> e in entries;
      UnlistedColumnKept(header, init, i);
      RenamingConsistent(header, init);
    }
  }

  // ---------------------------------------------------------------------
  // read_dat and getStats

  datatype Statistic = Mean | Max

  /** A value of `dataValues`: the sample count, or which statistic of
      which column was taken (the numbers themselves are not modelled). */
  datatype DataValue = Samples(n: nat) | Summary(stat: Statistic, column: string)

  /** Diagnostic variables keep their maximum, the others their mean. */
  function StatFor(key: string): Statistic {
    if Contains(key, "diag") then Max else Mean
  }

  const MissingValue: string := "Missing Data Value"
  const SoundSpeed: string := "sos"
  const SonicTemperature: string := "t_sonic"

  /** `read_dat`'s progress: the values so far, the table's columns (a
      sonic temperature column is added from the speed of sound), the
      variables logged as missing, and whether a `KeyError` escaped. */
  datatype DatState = DatState(values: map<string, DataValue>, columns: seq<string>, missing: seq<string>, raised: bool)

  /** One variable: `getStats` keeps its statistic or logs it as missing;
      for the speed of sound the sonic temperature column is then derived,
      which raises when the speed of sound is not a column. */
  function DatStep(st: DatState, key: string): DatState {
    var st1 := if key in st.columns then st.(values := st.values[key := Summary(StatFor(key), key)])
               else st.(missing := st.missing + [key]);
    if key != SoundSpeed then st1
    else if SoundSpeed !in st.columns then st1.(raised := true)
    else
      var columns := if SonicTemperature in st1.columns then st1.columns else st1.columns + [SonicTemperature];
      st1.(columns := columns, values := st1.values[SonicTemperature := Summary(Mean, SonicTemperature)])
  }

  /** The loop over `Variable_Names` in order; it stops where a `KeyError`
      escapes. */
  function ReadDatState(st: DatState, keys: seq<string>): DatState
    decreases |keys|
  {
    if keys == [] then st
    else
      var s := ReadDatState(st, keys[..|keys| - 1]);
      if s.raised then s else DatStep(s, keys[|keys| - 1])
  }

  /** The flags `getStats` logs for the missing variables. */
  function MissingFlags(missing: seq<string>): (r: seq<string>)
    ensures |r| == |missing|
    ensures forall i :: 0 <= i < |missing| ==> r[i] == EventLogs.IssueText(MissingValue, missing[i])
  {
    seq(|missing|, i requires 0 <= i < |missing| => EventLogs.IssueText(MissingValue, missing[i]))
  }

  /** What `read_dat` computes from the columns: only a variable that is not
      a column is logged as missing, a variable that is one keeps its
      statistic (the maximum for diagnostics, the mean otherwise), and the
      only escape is a speed of sound that is not a column. Earlier values
      are kept unless a variable overwrites them. */
  lemma {:induction false} ReadDatFacts(values: map<string, DataValue>, columns: seq<string>, keys: seq<string>)
    ensures var st := ReadDatState(DatState(values, columns, [], false), keys);
      && (forall x :: x != SonicTemperature ==> (x in st.columns <==> x in columns))
      && (st.raised <==> SoundSpeed in keys && SoundSpeed !in columns)
      && (!st.raised ==> forall k :: k != SonicTemperature ==> (k in st.missing <==> k in keys && k !in columns))
      && (forall k :: k in keys && k in columns && k != SonicTemperature && !st.raised ==>
            k in st.values && st.values[k] == Summary(StatFor(k), k))
      && (forall k :: k in values && k !in keys && k != SonicTemperature ==> k in st.values && st.values[k] == values[k])
    decreases |keys|
  {
    if keys != [] {
      var init := keys[..|keys| - 1];
      var key := keys[|keys| - 1];
      assert forall k :: k in keys <==> k in init || k == key;
      ReadDatFacts(values, columns, init);
    }
  }

  // ---------------------------------------------------------------------
  // Write_EP_Template

  /** Two positions holding the same name make its count at least two. */
  lemma TwoOccurrences(columns: seq<string>, i: nat, j: nat)
    requires i < j < |columns| && columns[i] == columns[j]
    ensures multiset(columns)[columns[i]] >= 2
  {
    assert columns == columns[..j] + columns[j..];
    assert columns[..j][i] == columns[i];
    assert columns[j..][0] == columns[j];
    assert multiset(columns) == multiset(columns[..j]) + multiset(columns[j..]);
  }

  /** The channel of a project variable: 0 when no column has its name, the
      column's index when exactly one does; a name on two columns ends the
      program. */
  function Channel(columns: seq<string>, key: string): (r: Result<nat>)
    ensures r.Err? <==> multiset(columns)[key] > 1
    ensures key !in columns ==> r == Ok(0)
    ensures r.Ok? && key in columns ==> r.value < |columns| && columns[r.value] == key
    ensures r.Ok? ==> forall i :: 0 <= i < |columns| && columns[i] == key ==> i == r.value
  {
    if key !in columns then Ok(0)
    else if multiset(columns)[key] > 1 then Err("Warning! Duplicate Channel " + key + " in Column Headers")
    else
      var c := Filters.FirstIndex(columns, key);
      assert forall i :: 0 <= i < |columns| && columns[i] == key ==> i == c by {
        forall i | 0 <= i < |columns| && columns[i] == key ensures i == c {
          if i != c {
            TwoOccurrences(columns, c, i);
          }
        }
      }
      Ok(c)
  }

  /** A biomet variable's 1-based trace position, given only when exactly
      one trace has the variable's name. */
  function BiometIndex(traces: seq<string>, name: string): (r: Option<nat>)
    ensures r.Some? <==> multiset(traces)[name] == 1
    ensures r.Some? ==> 1 <= r.value <= |traces| && traces[r.value - 1] == name
  {
    if multiset(traces)[name] == 1 then Some(Filters.FirstIndex(traces, name) + 1) else None
  }

  /** The two sections of the EddyPro processing template. */
  datatype EpTemplate = EpTemplate(project: map<string, string>, biomet: map<string, string>)

  /** The Project section; the first duplicated channel stops it. */
  function ProjectSection(project: Items, columns: seq<string>): Result<map<string, string>>
    decreases |project|
  {
    if project == [] then Ok(map[])
    else
      match ProjectSection(project[..|project| - 1], columns)
      case Err(e) => Err(e)
      case Ok(m) =>
        var key := project[|project| - 1].0;
        match Channel(columns, key)
        case Err(e) => Err(e)
        case Ok(c) => Ok(m[key := NatToString(c)])
  }

  /** The biomet section: a variable is written only with a unique trace. */
  function BiometSection(biomet: Items, traces: seq<string>): map<string, string>
    decreases |biomet|
  {
    if biomet == [] then map[]
    else
      var m := BiometSection(biomet[..|biomet| - 1], traces);
      var (key, name) := biomet[|biomet| - 1];
      match BiometIndex(traces, name)
      case None => m
      case Some(b) => m[key := NatToString(b)]
  }

  /** `Write_EP_Template`: both sections, or the exit on a duplicate channel. */
  function EpTemplateOf(project: Items, biomet: Items, columns: seq<string>, traces: seq<string>): Result<EpTemplate> {
    match ProjectSection(project, columns)
    case Err(e) => Err(e)
    case Ok(p) => Ok(EpTemplate(p, BiometSection(biomet, traces)))
  }

  /** The Project section fails exactly when some project variable names two
      columns. */
  lemma {:induction false} ProjectSectionFails(project: Items, columns: seq<string>)
    ensures ProjectSection(project, columns).Err? <==>
      exists i :: 0 <= i < |project| && multiset(columns)[project[i].0] > 1
    decreases |project|
  {
    if project != [] {
      var init := project[..|project| - 1];
      ProjectSectionFails(init, columns);
      if ProjectSection(project, columns).Err? && ProjectSection(init, columns).Err? {
        var i :| 0 <= i < |init| && multiset(columns)[init[i].0] > 1;
        assert project[i] == init[i];
      }
    }
  }

  /** Some entry of the section has key `k`. */
  ghost predicate HasKey(items: Items, k: string) {
    exists i :: 0 <= i < |items| && items[i].0 == k
  }

  /** A Project section that is written has exactly the project variables. */
  lemma {:induction false} ProjectSectionKeys(project: Items, columns: seq<string>)
    requires ProjectSection(project, columns).Ok?
    ensures forall k :: k in ProjectSection(project, columns).value <==> HasKey(project, k)
    decreases |project|
  {
    if project != [] {
      var init := project[..|project| - 1];
      ProjectSectionKeys(init, columns);
      forall k | HasKey(init, k) ensures HasKey(project, k) {
        var i :| 0 <= i < |init| && init[i].0 == k;
        assert project[i] == init[i];
      }
      forall k | HasKey(project, k) && k != project[|project| - 1].0 ensures HasKey(init, k) {
        var i :| 0 <= i < |project| && project[i].0 == k;
        assert init[i] == project[i];
      }
    }
  }

  /** Every project variable is written with its channel. */
  lemma {:induction false} ProjectSectionValues(project: Items, columns: seq<string>)
    requires ProjectSection(project, columns).Ok?
    ensures forall i :: 0 <= i < |project| ==> Channel(columns, project[i].0).Ok?
    ensures forall i :: 0 <= i < |project| ==>
      && project[i].0 in ProjectSection(project, columns).value
      && ProjectSection(project, columns).value[project[i].0] == NatToString(Channel(columns, project[i].0).value)
    decreases |project|
  {
    if project != [] {
      var init := project[..|project| - 1];
      ProjectSectionValues(init, columns);
      assert forall i :: 0 <= i < |init| ==> init[i] == project[i];
    }
  }

  /** A prefix of a section with distinct keys has distinct keys. */
  lemma UniqueKeysPrefix(items: Items, n: nat)
    requires UniqueKeys(items) && n <= |items|
    ensures UniqueKeys(items[..n])
    ensures forall i :: 0 <= i < n ==> items[..n][i] == items[i]
  {
  }

  /** The last biomet variable is added to the section of the others when
      one trace has its name. */
  lemma BiometSectionLast(biomet: Items, traces: seq<string>)
    requires biomet != []
    ensures var n := |biomet| - 1;
      var m := BiometSection(biomet[..n], traces);
      BiometSection(biomet, traces)
      == if BiometIndex(traces, biomet[n].1).Some? then m[biomet[n].0 := NatToString(BiometIndex(traces, biomet[n].1).value)] else m
  {
  }

  /** With distinct keys, a biomet variable is in the section exactly when
      one trace has its name, and then holds that trace's 1-based position. */
  lemma {:induction false} BiometSectionFacts(biomet: Items, traces: seq<string>)
    requires UniqueKeys(biomet)
    ensures forall k :: k in BiometSection(biomet, traces) ==> HasKey(biomet, k)
    ensures forall i :: 0 <= i < |biomet| ==>
      (biomet[i].0 in BiometSection(biomet, traces) <==> BiometIndex(traces, biomet[i].1).Some?)
    ensures forall i :: 0 <= i < |biomet| && biomet[i].0 in BiometSection(biomet, traces) ==>
      BiometSection(biomet, traces)[biomet[i].0] == NatToString(BiometIndex(traces, biomet[i].1).value)
    decreases |biomet|
  {
    if biomet != [] {
      var n := |biomet| - 1;
      var init := biomet[..n];
      UniqueKeysPrefix(biomet, n);
      BiometSectionFacts(init, traces);
      var m := BiometSection(init, traces);
      var r := BiometSection(biomet, traces);
      var key := biomet[n].0;
      BiometSectionLast(biomet, traces);
      forall k | k in r ensures HasKey(biomet, k) {
        if k != key {
          assert k in m;
          var i :| 0 <= i < |init| && init[i].0 == k;
          assert biomet[i].0 == k;
        }
      }
      forall i | 0 <= i < |biomet|
        ensures (biomet[i].0 in r <==> BiometIndex(traces, biomet[i].1).Some?)
             && (biomet[i].0 in r ==> r[biomet[i].0] == NatToString(BiometIndex(traces, biomet[i].1).value))
      {
        if i < n {
          assert init[i] == biomet[i] && biomet[i].0 != key;
        }
      }
    }
  }

  /** A prefix of `read_dat`'s loop that raised is where the loop ends. */
  lemma {:induction false} RaisedStops(st: DatState, keys: seq<string>, k: nat)
    requires k <= |keys| && ReadDatState(st, keys[..k]).raised
    ensures ReadDatState(st, keys) == ReadDatState(st, keys[..k])
    decreases |keys|
  {
    if k < |keys| {
      var init := keys[..|keys| - 1];
      assert init[..k] == keys[..k];
      RaisedStops(st, init, k);
    } else {
      assert keys[..k] == keys;
    }
  }

  /** A prefix of the Project section that failed is where it ends. */
  lemma {:induction false} ProjectSectionStops(project: Items, columns: seq<string>, k: nat)
    requires k <= |project| && ProjectSection(project[..k], columns).Err?
    ensures ProjectSection(project, columns) == ProjectSection(project[..k], columns)
    decreases |project|
  {
    if k < |project| {
      var init := project[..|project| - 1];
      assert init[..k] == project[..k];
      ProjectSectionStops(init, columns, k);
    } else {
      assert project[..k] == project;
    }
  }

  /** `read_dat`'s outcome: the template when one is written. */
  function TemplateOutcome(t: Result<EpTemplate>): Result<Option<EpTemplate>> {
    match t
    case Err(e) => Err(e)
    case Ok(v) => Ok(Some(v))
  }

  /** The two analyser tweaks of `readHeader`, applied in turn to the
      project section; the first that raises stops them. */
  method Adjust(project: Items, model: string) returns (p: Items, err: Option<string>)
    ensures (p, err) == AdjustDiag(project, model)
  {
    p, err := project, None;
    if Contains(model, "72") {
      var q := Retarget(p, "col_diag_75");
      if q.Err? {
        return p, Some(q.error);
      }
      p := q.value;
    }
    if Contains(model, "75") {
      var q := Retarget(p, "col_diag_72");
      if q.Err? {
        return p, Some(q.error);
      }
      p := q.value;
    }
  }

  /** The position of the first column named `x` (`np.where(...)[0][0]`),
      or -1 when no column has the name. */
  method IndexIn(a: array<string>, x: string) returns (i: int)
    ensures i == -1 <==> x !in a[..]
    ensures i != -1 ==> x in a[..] && i == Filters.FirstIndex(a[..], x)
  {
    i := 0;
    while i < a.Length
      invariant 0 <= i <= a.Length
      invariant forall j :: 0 <= j < i ==> a[j] != x
    {
      if a[i] == x {
        assert a[..][i] == x;
        return;
      }
      i := i + 1;
    }
    i := -1;
  }

  /** The first of the aliases that names a column. */
  method FirstAlias(a: array<string>, aliases: seq<string>) returns (r: Option<nat>)
    ensures r == FirstPresent(aliases, a[..])
  {
    var j := 0;
    while j < |aliases|
      invariant 0 <= j <= |aliases|
      invariant forall j' :: 0 <= j' < j ==> aliases[j'] !in a[..]
    {
      var i := IndexIn(a, aliases[j]);
      if i != -1 {
        return Some(j);
      }
      j := j + 1;
    }
    r := None;
  }

  /** `data_columns[col_num] = key`: every column named `rec` is renamed in
      place. */
  method RenameAll(a: array<string>, rec: string, key: string)
    modifies a
    ensures a[..] == RenameEvery(old(a[..]), rec, key)
  {
    var i := 0;
    while i < a.Length
      invariant 0 <= i <= a.Length
      invariant forall j :: 0 <= j < i ==> a[j] == if old(a[j]) == rec then key else old(a[j])
      invariant forall j :: i <= j < a.Length ==> a[j] == old(a[j])
    {
      if a[i] == rec {
        a[i] := key;
      }
      i := i + 1;
    }
  }

  /** The parser's state (the `Parse` class): the sections of the variable
      list, the biomet trace names, the archive inventory, the header
      bookkeeping, the values read from the current file and its event
      log. */
  class Parser {
    var sonicVars: Items
    var projectVars: Items
    var auxVars: Items
    var biometVars: Items
    var biometTraces: seq<string>
    var ghgFiles: GhgFiles
    var dataColumns: array<string>
    var variablePositions: map<string, nat>
    var variableNames: map<string, string>
    var nameOrder: seq<string>
    var dataValues: map<string, DataValue>
    var timeStamp: int
    const ev: EventLogs.EventLog

    constructor (sonic: Items, project: Items, aux: Items, biomet: Items, traces: seq<string>, t: int)
      ensures sonicVars == sonic && projectVars == project && auxVars == aux
      ensures biometVars == biomet && biometTraces == traces && timeStamp == t
      ensures ghgFiles == NoFiles && dataValues == map[]
      ensures fresh(ev) && ev.flags == map[]
    {
      sonicVars := sonic;
      projectVars := project;
      auxVars := aux;
      biometVars := biomet;
      biometTraces := traces;
      timeStamp := t;
      ghgFiles := NoFiles;
      dataColumns := new string[0];
      variablePositions := map[];
      variableNames := map[];
      nameOrder := [];
      dataValues := map[];
      ev := new EventLogs.EventLog();
    }

    /** The header bookkeeping as a value. */
    function HeaderState(): Header
      reads this, dataColumns
    {
      Header(dataColumns[..], variablePositions, variableNames, nameOrder)
    }

    /** `whichFiles`: the inventory is reset, then each member is filed. */
    method WhichFiles(files: seq<string>)
      modifies this`ghgFiles
      ensures ghgFiles == Classified(files)
    {
      ghgFiles := NoFiles;
      var i := 0;
      while i < |files|
        invariant 0 <= i <= |files|
        invariant ghgFiles == Classified(files[..i])
      {
        assert files[..i + 1][..i] == files[..i];
        var f := files[i];
        if Contains(f, "biomet") {
        } else if Contains(f, ".metadata") {
          ghgFiles := ghgFiles.(metadata := f);
        } else if Contains(f, ".data") {
          ghgFiles := ghgFiles.(data := f);
        } else if Contains(f, ".status") {
          ghgFiles := ghgFiles.(status := f);
        } else if Contains(f, "system_config") {
          if Contains(f, "co2app") {
            ghgFiles := ghgFiles.(co2app := f);
          } else if Contains(f, ".xml") && !Contains(f, "factory") {
            ghgFiles := ghgFiles.(xmlFiles := ghgFiles.xmlFiles + [f]);
          }
        }
        i := i + 1;
      }
      assert files[..i] == files;
    }

    /** The renaming loop of `readHeader` over the variables `entries`. */
    method RenameColumns(entries: Items)
      requires variablePositions == map[] && variableNames == map[] && nameOrder == []
      modifies dataColumns, this`variablePositions, this`variableNames, this`nameOrder
      ensures HeaderState() == Renaming(old(dataColumns[..]), entries)
    {
      ghost var header := dataColumns[..];
      var i := 0;
      while i < |entries|
        invariant 0 <= i <= |entries|
        invariant HeaderState() == Renaming(header, entries[..i])
      {
        assert entries[..i + 1][..i] == entries[..i];
        var key := entries[i].0;
        var aliases := Split(entries[i].1, ",");
        var j := FirstAlias(dataColumns, aliases);
        if j.Some? {
          var rec := aliases[j.value];
          var pos := IndexIn(dataColumns, rec);
          RenameAll(dataColumns, rec, key);
          if key !in variableNames {
            nameOrder := nameOrder + [key];
          }
          variablePositions := variablePositions[key := pos];
          variableNames := variableNames[key := rec];
        }
        i := i + 1;
      }
      assert entries[..i] == entries;
    }
  
    /** `readHeader` as written: the analyser tweaks are stored back into
        the variable list, so each call starts from the previous call's
        aliases. A failed tweak raises with the bookkeeping reset. */
    method ReadHeaderAsWritten(header: seq<string>, model: string) returns (err: Option<string>)
      modifies this`dataColumns, this`variablePositions, this`variableNames, this`nameOrder, this`projectVars
      ensures projectVars == AdjustDiag(old(projectVars), model).0
      ensures err == AdjustDiag(old(projectVars), model).1
      ensures fresh(dataColumns)
      ensures err.Some? ==> HeaderState() == Header(header, map[], map[], [])
      ensures err.None? ==> HeaderState() == Renaming(header, sonicVars + projectVars + auxVars)
    {
      variableNames := map[];
      variablePositions := map[];
      nameOrder := [];
      dataColumns := new string[|header|](i requires 0 <= i < |header| => header[i]);
      assert dataColumns[..] == header;
      projectVars, err := Adjust(projectVars, model);
      if err.None? {
        RenameColumns(sonicVars + projectVars + auxVars);
      }
    }

    /** `readHeader` with the tweaks applied to a copy of the project
        section: the variable list is left as read, so every call sees the
        same aliases. */
    method ReadHeader(header: seq<string>, model: string) returns (err: Option<string>)
      modifies this`dataColumns, this`variablePositions, this`variableNames, this`nameOrder
      ensures err == AdjustDiag(projectVars, model).1
      ensures fresh(dataColumns)
      ensures err.Some? ==> HeaderState() == Header(header, map[], map[], [])
      ensures err.None? ==> HeaderState() == Renaming(header, sonicVars + AdjustDiag(projectVars, model).0 + auxVars)
    {
      variableNames := map[];
      variablePositions := map[];
      nameOrder := [];
      dataColumns := new string[|header|](i requires 0 <= i < |header| => header[i]);
      assert dataColumns[..] == header;
      var project;
      project, err := Adjust(projectVars, model);
      if err.None? {
        RenameColumns(sonicVars + project + auxVars);
      }
    }

    /** `getStats`: the statistic of a column that exists; a missing column
        is logged as missing data at the file's timestamp instead. */
    method GetStats(columns: seq<string>, rec: string, stat: Statistic)
      modifies this`dataValues, ev
      ensures rec in columns ==> dataValues == old(dataValues)[rec := Summary(stat, rec)] && ev.flags == old(ev.flags)
      ensures rec !in columns ==> dataValues == old(dataValues)
      ensures rec !in columns ==> ev.flags == EventLogs.Logged(old(ev.flags), timeStamp, EventLogs.IssueText(MissingValue, rec))
    {
      if rec in columns {
        dataValues := dataValues[rec := Summary(stat, rec)];
      } else {
        ev.ErrorLog(MissingValue, rec, timeStamp);
      }
    }

    /** `Write_EP_Template` for the table's columns. */
    method WriteEpTemplate(columns: seq<string>) returns (r: Result<EpTemplate>)
      ensures r == EpTemplateOf(projectVars, biometVars, columns, biometTraces)
    {
      var project: map<string, string> := map[];
      var i := 0;
      while i < |projectVars|
        invariant 0 <= i <= |projectVars|
        invariant ProjectSection(projectVars[..i], columns) == Ok(project)
      {
        assert projectVars[..i + 1][..i] == projectVars[..i];
        var key := projectVars[i].0;
        var channel := Channel(columns, key);
        if channel.Err? {
          ProjectSectionStops(projectVars, columns, i + 1);
          return Err(channel.error);
        }
        project := project[key := NatToString(channel.value)];
        i := i + 1;
      }
      assert projectVars[..i] == projectVars;
      var biomet: map<string, string> := map[];
      i := 0;
      while i < |biometVars|
        invariant 0 <= i <= |biometVars|
        invariant BiometSection(biometVars[..i], biometTraces) == biomet
      {
        assert biometVars[..i + 1][..i] == biometVars[..i];
        var b := BiometIndex(biometTraces, biometVars[i].1);
        if b.Some? {
          biomet := biomet[biometVars[i].0 := NatToString(b.value)];
        }
        i := i + 1;
      }
      assert biometVars[..i] == biometVars;
      r := Ok(EpTemplate(project, biomet));
    }

    /** `read_dat`: the sample count, then each found variable's statistic in
        the order the variables were found, then the template when the
        metadata did not match a stored one. */
    method ReadDat(rows: nat, templateFile: bool) returns (r: Result<Option<EpTemplate>>)
      modifies this`dataValues, ev
      ensures var st := ReadDatState(DatState(old(dataValues)["n_samples" := Samples(rows)], dataColumns[..], [], false), nameOrder);
        && dataValues == st.values
        && ev.flags == EventLogs.LoggedAll(old(ev.flags), timeStamp, MissingFlags(st.missing))
        && (st.raised ==> r.Err?)
        && (!st.raised && templateFile ==> r == Ok(None))
        && (!st.raised && !templateFile ==> r == TemplateOutcome(EpTemplateOf(projectVars, biometVars, st.columns, biometTraces)))
    {
      dataValues := dataValues["n_samples" := Samples(rows)];
      var columns, raised := ReadVariables();
      if raised {
        return Err("KeyError: sos");
      }
      if templateFile {
        r := Ok(None);
      } else {
        var t := WriteEpTemplate(columns);
        r := TemplateOutcome(t);
      }
    }

    /** The loop of `read_dat` over the variables in the order they were
        found; it stops where the speed of sound raises. */
    method ReadVariables() returns (columns: seq<string>, raised: bool)
      modifies this`dataValues, ev
      ensures var st := ReadDatState(DatState(old(dataValues), dataColumns[..], [], false), nameOrder);
        && dataValues == st.values && columns == st.columns && raised == st.raised
        && ev.flags == EventLogs.LoggedAll(old(ev.flags), timeStamp, MissingFlags(st.missing))
    {
      ghost var st0 := DatState(dataValues, dataColumns[..], [], false);
      columns := dataColumns[..];
      ghost var missing: seq<string> := [];
      var i := 0;
      while i < |nameOrder|
        invariant 0 <= i <= |nameOrder|
        invariant ReadDatState(st0, nameOrder[..i]) == DatState(dataValues, columns, missing, false)
        invariant ev.flags == EventLogs.LoggedAll(old(ev.flags), timeStamp, MissingFlags(missing))
      {
        assert nameOrder[..i + 1][..i] == nameOrder[..i];
        var key := nameOrder[i];
        if key !in columns {
          EventLogs.LoggedAllSnoc(old(ev.flags), timeStamp, MissingFlags(missing), EventLogs.IssueText(MissingValue, key));
          assert MissingFlags(missing + [key]) == MissingFlags(missing) + [EventLogs.IssueText(MissingValue, key)];
          missing := missing + [key];
        }
        GetStats(columns, key, StatFor(key));
        if key == SoundSpeed {
          if SoundSpeed !in columns {
            RaisedStops(st0, nameOrder, i + 1);
            return columns, true;
          }
          if SonicTemperature !in columns {
            columns := columns + [SonicTemperature];
          }
          dataValues := dataValues[SonicTemperature := Summary(Mean, SonicTemperature)];
        }
        i := i + 1;
      }
      assert nameOrder[..i] == nameOrder;
      raised := false;
    }
  }
}

