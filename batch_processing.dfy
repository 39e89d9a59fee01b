/** File discovery and per-file parsing (batchProcessing.py): which raw files
    enter the inventory and under what names, how a parse failure is
    absorbed, how `.metadata` sections are flattened, how the kept data
    columns are named, and how the members of a `.ghg` archive are found. */
module BatchProcessing {
  import opened Text

  // ---------------------------------------------------------------------------
  // copy_and_check_files

  /** `fileInfo['timeShift']`. The default is the TEXT 'None'; a Python `None`
      is a different value, and so is a number of minutes. */
  datatype TimeShift = PyNone | NoneText | Minutes(m: int)

  /** The `fileInfo` entries the decision reads. The regular expression and the
      time format are functions: `search(s)` is the text `re.search(pattern, s)`
      matched, `parse` is `strptime` (timestamps in seconds, `None` where
      `strptime` raises) and `render` is `strftime`. */
  datatype FileInfo = FileInfo(
    extension: string,
    searchTag: string,
    excludeTag: string,
    epDatePattern: string,
    search: string -> Option<string>,
    parse: string -> Option<int>,
    render: int -> string,
    timeShift: TimeShift)

  /** `dateRange.min()` and `dateRange.max()`. */
  datatype DateRange = DateRange(lo: int, hi: int)

  /** `[TIMESTAMP, source, outName, file_prototype]`. */
  datatype FileRecord = FileRecord(timestamp: int, source: string, outName: string, prototype: string)

  /** The four tests made before the name is searched for a timestamp. */
  predicate Accepted(inName: string, info: FileInfo, checkList: seq<string>) {
    EndsWith(inName, info.extension) && Contains(inName, info.searchTag)
    && inName !in checkList && info.excludeTag + "_" + inName !in checkList
  }

  /** No range, or the timestamp lies within it, both bounds included. */
  predicate InRange(t: int, range: Option<DateRange>) {
    range.None? || (range.value.lo <= t && t <= range.value.hi)
  }

  /** The name without its extension: `inName.rsplit('.', 1)[0]`. */
  function Stem(inName: string): string {
    BeforeLast(inName, '.')
  }

  /** What follows a successful search: the timestamp `srch` is parsed,
      shifted, and the record is kept only inside the range. */
  function Decide(inName: string, inDir: string, info: FileInfo, range: Option<DateRange>, srch: string)
    : (r: Result<Option<FileRecord>>)
    ensures r.Ok? && r.value.Some? ==>
      info.parse(srch).Some? && InRange(r.value.value.timestamp, range)
      && r.value.value.prototype == ReplaceAll(inName, srch, info.epDatePattern)
      && r.value.value.source == inDir + "/" + inName
  {
    var prototype := ReplaceAll(inName, srch, info.epDatePattern);
    match info.parse(srch)
    case None => Err("ValueError: time data does not match format")
    case Some(t0) =>
      match info.timeShift
      case PyNone => Err("TypeError: timedelta minutes of type NoneType")
      case NoneText =>
        Ok(if InRange(t0, range) then Some(FileRecord(t0, inDir + "/" + inName, inName, prototype)) else None)
      case Minutes(m) =>
        var t := t0 + 60 * m;
        var outName := ReplaceAll(inName, srch, info.render(t));
        Ok(if InRange(t, range) then Some(FileRecord(t, inDir + "/" + inName, outName, prototype)) else None)
  }

  /** `copy_and_check_files` as written: `.group(0)` is applied to the result
      of `re.search` before the `is not None` test, so an accepted name in
      which the pattern finds no timestamp raises instead of being skipped. */
  function CopyAndCheckAsWritten(inName: string, inDir: string, info: FileInfo, checkList: seq<string>, range: Option<DateRange>)
    : (r: Result<Option<FileRecord>>)
    ensures !Accepted(inName, info, checkList) ==> r == Ok(None)
    ensures Accepted(inName, info, checkList) && info.search(Stem(inName)).None? ==> r.Err?
  {
    if !Accepted(inName, info, checkList) then Ok(None)
    else match info.search(Stem(inName))
      case None => Err("AttributeError: 'NoneType' object has no attribute 'group'")
      case Some(srch) => Decide(inName, inDir, info, range, srch)
  }

  /** `copy_and_check_files` with the `is not None` test in effect: a name
      without a timestamp gives the empty record, like every other reject. */
  function CopyAndCheck(inName: string, inDir: string, info: FileInfo, checkList: seq<string>, range: Option<DateRange>)
    : (r: Result<Option<FileRecord>>)
    ensures !Accepted(inName, info, checkList) ==> r == Ok(None)
    ensures info.search(Stem(inName)).None? ==> r == Ok(None)
    ensures r.Ok? && r.value.Some? ==> Accepted(inName, info, checkList) && info.search(Stem(inName)).Some?
  {
    if !Accepted(inName, info, checkList) then Ok(None)
    else match info.search(Stem(inName))
      case None => Ok(None)
      case Some(srch) => Decide(inName, inDir, info, range, srch)
  }

  /** A record is returned exactly when the name is accepted, carries a
      timestamp that parses, the shift is usable and the (shifted) timestamp
      lies in the range. */
  lemma RecordIff(inName: string, inDir: string, info: FileInfo, checkList: seq<string>, range: Option<DateRange>)
    ensures (var r := CopyAndCheck(inName, inDir, info, checkList, range);
      r.Ok? && r.value.Some?)
      <==>
      (Accepted(inName, info, checkList) && info.search(Stem(inName)).Some?
       && info.parse(info.search(Stem(inName)).value).Some? && !info.timeShift.PyNone?
       && InRange(info.parse(info.search(Stem(inName)).value).value
                  + (if info.timeShift.Minutes? then 60 * info.timeShift.m else 0), range))
  {
  }

  /** The record's names: without a shift the output name is the input name;
      with one, the timestamp moves by the shift and the output name carries
      the re-rendered timestamp. */
  lemma RecordNames(inName: string, inDir: string, info: FileInfo, checkList: seq<string>, range: Option<DateRange>)
    requires CopyAndCheck(inName, inDir, info, checkList, range).Ok?
    requires CopyAndCheck(inName, inDir, info, checkList, range).value.Some?
    ensures var rec := CopyAndCheck(inName, inDir, info, checkList, range).value.value;
      var srch := info.search(Stem(inName)).value;
      var t0 := info.parse(srch).value;
      && rec.prototype == ReplaceAll(inName, srch, info.epDatePattern)
      && (info.timeShift.NoneText? ==> rec.timestamp == t0 && rec.outName == inName)
      && (info.timeShift.Minutes? ==>
            rec.timestamp == t0 + 60 * info.timeShift.m
            && rec.outName == ReplaceAll(inName, srch, info.render(rec.timestamp)))
  {
  }

  /** A zero shift under a format that renders back the text it parsed leaves
      the file name as it was. */
  lemma ZeroShiftKeepsName(inName: string, inDir: string, info: FileInfo, checkList: seq<string>, range: Option<DateRange>)
    requires info.timeShift == Minutes(0)
    requires CopyAndCheck(inName, inDir, info, checkList, range).Ok?
    requires CopyAndCheck(inName, inDir, info, checkList, range).value.Some?
    requires var srch := info.search(Stem(inName)).value; info.render(info.parse(srch).value) == srch
    ensures CopyAndCheck(inName, inDir, info, checkList, range).value.value.outName == inName
  {
    var srch := info.search(Stem(inName)).value;
    ReplaceAllSelf(inName, srch);
  }

  /** The two versions differ only on names in which no timestamp is found. */
  lemma CorrectionOnlyWithoutMatch(inName: string, inDir: string, info: FileInfo, checkList: seq<string>, range: Option<DateRange>)
    requires info.search(Stem(inName)).Some?
    ensures CopyAndCheckAsWritten(inName, inDir, info, checkList, range) == CopyAndCheck(inName, inDir, info, checkList, range)
  {
  }

  /** A `.ghg` name without a timestamp, with no search tag and an empty check
      list: as written the scan raises, while the guard meant to skip it would
      return the empty record. */
  lemma UnmatchedNameRaises()
    ensures var info := FileInfo(".ghg", "", "ID", "%Y", _ => None, _ => None, _ => "", NoneText);
      CopyAndCheckAsWritten("notes.ghg", "raw", info, [], None).Err?
      && CopyAndCheck("notes.ghg", "raw", info, [], None) == Ok(None)
  {
    var name := "notes.ghg";
    assert name[|name| - 4..] == ".ghg";
    assert OccursAt(name, "", 0);
  }

  // ---------------------------------------------------------------------------
  // Parser.readFile, readMetaData

  /** A `.metadata` (INI) file as `{key: dict(metaData[key])}` gives it. */
  type IniFile = map<string, map<string, string>>

  /** The flattened form `{(section, key): value}`. */
  type Flat = map<(string, string), string>

  function Flatten(doc: IniFile): (flat: Flat)
    ensures forall s, k :: (s, k) in flat <==> s in doc && k in doc[s]
    ensures forall s, k :: s in doc && k in doc[s] ==> flat[(s, k)] == doc[s][k]
  {
    map s, k | s in doc && k in doc[s] :: (s, k) := doc[s][k]
  }

  function Sections(flat: Flat): set<string> {
    set p | p in flat.Keys :: p.0
  }

  function KeysOf(flat: Flat, s: string): set<string> {
    set p | p in flat.Keys && p.0 == s :: p.1
  }

  /** The inverse of `Flatten`, regrouping the pairs by section. */
  function Unflatten(flat: Flat): IniFile {
    map s | s in Sections(flat) :: map k | k in KeysOf(flat, s) :: flat[(s, k)]
  }

  lemma SectionsOfFlatten(doc: IniFile)
    requires forall s :: s in doc ==> doc[s] != map[]
    ensures Sections(Flatten(doc)) == doc.Keys
  {
    var flat := Flatten(doc);
    forall s | s in doc ensures s in Sections(flat) {
      var k :| k in doc[s];
      assert (s, k) in flat.Keys;
    }
  }

  lemma SectionOfFlatten(doc: IniFile, s: string)
    requires s in doc
    ensures (map k | k in KeysOf(Flatten(doc), s) :: Flatten(doc)[(s, k)]) == doc[s]
  {
    var flat := Flatten(doc);
    forall k | k in doc[s] ensures k in KeysOf(flat, s) {
      assert (s, k) in flat.Keys;
    }
    assert KeysOf(flat, s) == doc[s].Keys;
  }

  /** Flattening loses nothing but empty sections. */
  lemma FlattenRoundTrip(doc: IniFile)
    requires forall s :: s in doc ==> doc[s] != map[]
    ensures Unflatten(Flatten(doc)) == doc
  {
    UnflattenKeys(doc);
    forall s | s in doc ensures Unflatten(Flatten(doc))[s] == doc[s] {
      UnflattenAt(doc, s);
    }
  }

  lemma UnflattenKeys(doc: IniFile)
    requires forall s :: s in doc ==> doc[s] != map[]
    ensures Unflatten(Flatten(doc)).Keys == doc.Keys
  {
    SectionsOfFlatten(doc);
  }

  lemma UnflattenAt(doc: IniFile, s: string)
    requires s in doc && doc[s] != map[]
    ensures s in Unflatten(Flatten(doc)) && Unflatten(Flatten(doc))[s] == doc[s]
  {
    var k :| k in doc[s];
    assert (s, k) in Flatten(doc);
    SectionOfFlatten(doc, s);
  }

  lemma UnflattenRoundTrip(flat: Flat)
    ensures Flatten(Unflatten(flat)) == flat
  {
    var doc := Unflatten(flat);
    forall p | p in flat ensures p in Flatten(doc) {
      assert p.0 in Sections(flat);
    }
  }

  /** `readMetaData`: the flattened metadata and the file description with its
      `delimiter` looked up in the delimiter table by `separator`. A missing
      section, key or table entry raises `KeyError`. */
  function ReadMetaData(doc: IniFile, delimiters: map<string, string>): (r: Result<(Flat, map<string, string>)>)
    ensures r.Ok? <==>
      "FileDescription" in doc && "separator" in doc["FileDescription"]
      && doc["FileDescription"]["separator"] in delimiters
    ensures r.Ok? ==>
      r.value.0 == Flatten(doc)
      && r.value.1 == WithDelimiter(doc["FileDescription"], delimiters[doc["FileDescription"]["separator"]])
  {
    if "FileDescription" !in doc then Err("KeyError: FileDescription")
    else
      var fd := doc["FileDescription"];
      if "separator" !in fd then Err("KeyError: separator")
      else if fd["separator"] !in delimiters then Err("KeyError: " + fd["separator"])
      else Ok((Flatten(doc), WithDelimiter(fd, delimiters[fd["separator"]])))
  }

  /** The `FileDescription` section with the `delimiter` entry added: every
      other entry is kept. */
  function WithDelimiter(fd: map<string, string>, delimiter: string): (m: map<string, string>)
    ensures m.Keys == fd.Keys + {"delimiter"}
    ensures m["delimiter"] == delimiter
    ensures forall k :: k in fd && k != "delimiter" ==> m[k] == fd[k]
  {
    fd["delimiter" := delimiter]
  }

  /** What `readFile` returns: the aggregated statistics (absent after a failed
      extraction) and the metadata row. */
  datatype Parsed<S> = Parsed(agg: Option<S>, meta: Flat)

  /** `Parser.readFile`: any failure while extracting a `.ghg` file is caught
      and gives no statistics and an empty metadata row; other files are read
      with the parser's template, updated by the column names read. */
  function ReadFile<S>(path: string, extract: string -> Option<(S, Flat)>, readData: string -> (S, Flat), template: Flat)
    : (p: Parsed<S>)
    ensures EndsWith(path, ".ghg") && extract(path).None? ==> p.agg.None? && p.meta == map[]
    ensures EndsWith(path, ".ghg") && extract(path).Some? ==> p.agg == Some(extract(path).value.0) && p.meta == extract(path).value.1
    ensures !EndsWith(path, ".ghg") ==>
      p.agg == Some(readData(path).0)
      && p.meta.Keys == template.Keys + readData(path).1.Keys
      && forall k :: k in p.meta ==> p.meta[k] == if k in readData(path).1 then readData(path).1[k] else template[k]
  {
    if EndsWith(path, ".ghg") then
      match extract(path)
      case None => Parsed(None, map[])
      case Some(out) => Parsed(Some(out.0), out.1)
    else
      var (agg, names) := readData(path);
      Parsed(Some(agg), template + names)
  }

  // ---------------------------------------------------------------------------
  // readData: naming the kept columns

  /** A column of the data file: its header and whether every value is missing. */
  datatype DataColumn = DataColumn(name: string, allMissing: bool)

  /** `('Custom', f'col_{i}_header_name')`. */
  function HeaderKey(i: nat): (string, string) {
    ("Custom", "col_" + NatToString(i) + "_header_name")
  }

  lemma HeaderKeyInjective(i: nat, j: nat)
    requires HeaderKey(i) == HeaderKey(j)
    ensures i == j
  {
    var a, b := "col_" + NatToString(i) + "_header_name", "col_" + NatToString(j) + "_header_name";
    var ni, nj := NatToString(i), NatToString(j);
    assert |a| == |b|;
    assert a[4..4 + |ni|] == ni && b[4..4 + |nj|] == nj;
    NatToStringInjective(i, j);
  }

  /** The names given to `kept` use only keys 1..|kept|. */
  lemma {:induction false} HeaderNamesFresh(kept: seq<DataColumn>, n: nat)
    requires n > |kept|
    ensures HeaderKey(n) !in HeaderNames(kept)
    decreases |kept|
  {
    if kept != [] {
      HeaderNamesFresh(kept[..|kept| - 1], n);
      if HeaderKey(n) == HeaderKey(|kept|) { HeaderKeyInjective(n, |kept|); }
    }
  }

  /** The 1-based naming of the kept columns. */
  function HeaderNames(kept: seq<DataColumn>): (names: Flat)
    ensures forall i :: 1 <= i <= |kept| ==> HeaderKey(i) in names && names[HeaderKey(i)] == kept[i - 1].name
    ensures forall key :: key in names ==> exists i :: 1 <= i <= |kept| && key == HeaderKey(i)
    decreases |kept|
  {
    if kept == [] then map[]
    else
      var names := HeaderNames(kept[..|kept| - 1]);
      forall i | 1 <= i < |kept| ensures HeaderKey(i) != HeaderKey(|kept|) {
        if HeaderKey(i) == HeaderKey(|kept|) { HeaderKeyInjective(i, |kept|); }
      }
      names[HeaderKey(|kept|) := kept[|kept| - 1].name]
  }

  /** The columns `readData` keeps: it drops the label column (when
      `data_label` is set), then every column whose values are all missing.
      With one header row the unit list must match the remaining columns. */
  function KeptColumns(cols: seq<DataColumn>, dataLabel: string, headerRows: nat, units: seq<string>)
    : (r: Result<seq<DataColumn>>)
    ensures r.Ok? ==> forall c :: c in r.value ==> c in cols && !c.allMissing
  {
    if dataLabel != "Not set" && cols == [] then Err("IndexError: no label column")
    else
      var rest := if dataLabel != "Not set" then cols[1..] else cols;
      if headerRows == 1 && |units| != |rest| then Err("ValueError: length mismatch")
      else Ok(NonEmpty(rest))
  }

  /** `dropna(how='all', axis=1)`. */
  function NonEmpty(cols: seq<DataColumn>): (kept: seq<DataColumn>)
    ensures forall c :: c in kept ==> c in cols && !c.allMissing
    ensures forall c :: c in cols && !c.allMissing ==> c in kept
    ensures |kept| <= |cols|
  {
    if cols == [] then []
    else
      var kept := NonEmpty(cols[..|cols| - 1]);
      assert cols == cols[..|cols| - 1] + [cols[|cols| - 1]];
      if cols[|cols| - 1].allMissing then kept else kept + [cols[|cols| - 1]]
  }

  /** The naming loop of `readData`: `col_{i+1}_header_name` for the i-th kept
      column, counting from 1. */
  method ColumnNames(kept: seq<DataColumn>) returns (names: Flat)
    ensures names == HeaderNames(kept)
    ensures |names| == |kept|
  {
    names := map[];
    for i := 0 to |kept|
      invariant names == HeaderNames(kept[..i])
      invariant |names| == i
    {
      HeaderNamesStep(kept, i);
      names := names[HeaderKey(i + 1) := kept[i].name];
    }
    assert kept[..|kept|] == kept;
  }

  /** Naming one more column adds one fresh key. */
  lemma HeaderNamesStep(kept: seq<DataColumn>, i: nat)
    requires i < |kept|
    ensures HeaderKey(i + 1) !in HeaderNames(kept[..i])
    ensures HeaderNames(kept[..i + 1]) == HeaderNames(kept[..i])[HeaderKey(i + 1) := kept[i].name]
  {
    assert kept[..i + 1][..i] == kept[..i];
    HeaderNamesFresh(kept[..i], i + 1);
  }

  // ---------------------------------------------------------------------------
  // extractGHG: the member inventory

  /** The loop of `extractGHG`: each member is filed under its name with the
      archive's base name removed; a later member with the same key wins. */
  method MemberInventory(base: string, members: seq<string>) returns (inv: map<string, string>)
    ensures inv == InventoryOf(base, members)
  {
    inv := map[];
    for i := 0 to |members|
      invariant inv == InventoryOf(base, members[..i])
    {
      assert members[..i + 1][..i] == members[..i];
      inv := inv[ReplaceAll(members[i], base, "") := members[i]];
    }
    assert members[..|members|] == members;
  }

  function InventoryOf(base: string, members: seq<string>): map<string, string> {
    if members == [] then map[]
    else InventoryOf(base, members[..|members| - 1])[ReplaceAll(Last(members), base, "") := Last(members)]
  }

  /** Every member is reachable under its key, and every key holds the last
      member filed under it. */
  lemma {:induction false} InventoryLastWins(base: string, members: seq<string>, k: int)
    requires 0 <= k < |members|
    ensures ReplaceAll(members[k], base, "") in InventoryOf(base, members)
    ensures (forall j :: k < j < |members| ==> ReplaceAll(members[j], base, "") != ReplaceAll(members[k], base, ""))
      ==> InventoryOf(base, members)[ReplaceAll(members[k], base, "")] == members[k]
    decreases |members|
  {
    if k < |members| - 1 {
      InventoryLastWins(base, members[..|members| - 1], k);
    }
  }

  /** The base name as written: `basename.rstrip('.ghg')` strips every trailing
      `.`, `g` and `h`, not the suffix `.ghg`. */
  function GhgBaseAsWritten(name: string): string {
    RStripChars(name, {'.', 'g', 'h'})
  }

  /** The base name evidently intended: the name without its `.ghg` suffix. */
  function GhgBase(name: string): (base: string)
    ensures EndsWith(name, ".ghg") ==> base + ".ghg" == name
  {
    if EndsWith(name, ".ghg") then name[..|name| - 4] else name
  }

  /** The `.metadata` and `.data` members `extractGHG` opens; `None` where the
      lookup raises `KeyError` (which `readFile` then absorbs). */
  function GhgMembers(base: string, members: seq<string>): Option<(string, string)> {
    var inv := InventoryOf(base, members);
    if ".metadata" in inv && ".data" in inv then Some((inv[".metadata"], inv[".data"])) else None
  }

  /** With the intended base, an archive holding `base.metadata` and
      `base.data` always yields both members. */
  lemma GhgBaseFindsMembers(name: string, members: seq<string>)
    requires EndsWith(name, ".ghg")
    requires GhgBase(name) != "" && !Contains(".metadata", GhgBase(name)) && !Contains(".data", GhgBase(name))
    requires GhgBase(name) + ".metadata" in members && GhgBase(name) + ".data" in members
    ensures GhgMembers(GhgBase(name), members).Some?
  {
    var base := GhgBase(name);
    RemovePrefix(base, ".metadata");
    RemovePrefix(base, ".data");
    var i :| 0 <= i < |members| && members[i] == base + ".metadata";
    var j :| 0 <= j < |members| && members[j] == base + ".data";
    InventoryLastWins(base, members, i);
    InventoryLastWins(base, members, j);
  }

  /** Removing a base name from `base + x` leaves `x` when `x` does not hold it. */
  lemma RemovePrefix(base: string, x: string)
    requires base != [] && !Contains(x, base)
    ensures ReplaceAll(base + x, base, "") == x
  {
    assert (base + x)[..|base|] == base;
    assert (base + x)[|base|..] == x;
    ReplaceAllAbsent(x, base, "");
  }

  /** `"bog.ghg".rstrip('.ghg')` is `"bo"`. */
  lemma StripBog()
    ensures GhgBaseAsWritten("bog.ghg") == "bo"
  {
    assert "bog.ghg"[..6] == "bog.gh";
    assert "bog.gh"[..5] == "bog.g";
    assert "bog.g"[..4] == "bog.";
    assert "bog."[..3] == "bog";
    assert "bog"[..2] == "bo";
    assert RStripChars("bo", {'.', 'g', 'h'}) == "bo";
  }

  /** A text lacking the first character of `base` cannot contain `base`. */
  lemma FirstCharAbsent(x: string, base: string)
    requires base != [] && base[0] !in x
    ensures !Contains(x, base)
  {
    forall i | 0 <= i <= |x| ensures !OccursAt(x, base, i) {
      if i + |base| <= |x| { assert x[i..i + |base|][0] == x[i]; }
    }
  }

  /** The inventory of a two-member archive. */
  lemma InventoryTwo(base: string, m: string, d: string)
    ensures InventoryOf(base, [m, d]) == map[ReplaceAll(m, base, "") := m][ReplaceAll(d, base, "") := d]
  {
    assert [m, d][..1] == [m] && Last([m, d]) == d;
    assert [m][..0] == [] && Last([m]) == m;
    assert InventoryOf(base, [m]) == map[ReplaceAll(m, base, "") := m];
  }

  /** As written, an archive named `bog.ghg` loses its trailing `g` too: the
      base becomes `bo`, its metadata member is filed under `g.metadata`, and
      the `.metadata` lookup fails although the member is present. With the
      intended base both members are found. */
  lemma StrippedBaseMissesMetadata()
    ensures GhgMembers(GhgBaseAsWritten("bog.ghg"), ["bog.metadata", "bog.data"]).None?
    ensures GhgMembers(GhgBase("bog.ghg"), ["bog.metadata", "bog.data"]).Some?
  {
    StripBog();
    BoInventory();
    BogFindsMembers();
  }

  lemma BoInventory()
    ensures InventoryOf("bo", ["bog.metadata", "bog.data"]).Keys == {"g.metadata", "g.data"}
  {
    FirstCharAbsent("g.metadata", "bo");
    FirstCharAbsent("g.data", "bo");
    assert "bog.metadata" == "bo" + "g.metadata";
    assert "bog.data" == "bo" + "g.data";
    RemovePrefix("bo", "g.metadata");
    RemovePrefix("bo", "g.data");
    InventoryTwo("bo", "bog.metadata", "bog.data");
  }

  lemma BogFindsMembers()
    ensures GhgMembers(GhgBase("bog.ghg"), ["bog.metadata", "bog.data"]).Some?
  {
    assert "bog.ghg"[3..] == ".ghg" && "bog.ghg"[..3] == "bog";
    assert GhgBase("bog.ghg") == "bog";
    FirstCharAbsent(".metadata", "bog");
    FirstCharAbsent(".data", "bog");
    assert "bog" + ".metadata" == "bog.metadata";
    assert "bog" + ".data" == "bog.data";
    GhgBaseFindsMembers("bog.ghg", ["bog.metadata", "bog.data"]);
  }
}
