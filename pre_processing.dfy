/** The month's pre-processing pass (preProcessing.py, `read_ALL`): the scan
    of the raw folder into a half-hourly file inventory, the per-file records
    appended to the month's tables, the numbering of distinct site set-ups
    and the clearing of repeated metadata updates. */
module PreProcessing {
  import opened Text
  import opened Tables
  import Grid
  import Numbering

  const FileColumn: string := "filename"
  const PatternColumn: string := "name_pattern"
  const FlagColumn: string := "Flag"
  const MetaColumn: string := "MetaDataFile"
  const UpdateColumn: string := "Update"
  const SetupColumn: string := "setup_ID"
  const TempColumn: string := "temp_ID"

  /** The placeholder of an empty inventory entry. */
  const Unset: string := "-"
  const IncompleteFlag: string := "Incomplete Record"
  const IncompleteTag: string := "_incomplete"

  // ---------------------------------------------------------------------
  // find_files

  /** The settings of the raw file type: `search` gives the text
      `re.search` matches, `parse` is `strptime` (seconds; `None` where it
      raises). */
  datatype TypeInfo = TypeInfo(fileType: string, search: string -> Option<string>, parse: string -> Option<int>,
                               epDatePattern: string)

  /** A file the scan keeps: its timestamp, its name and the prototype
      name EddyPro is given. */
  datatype Listed = Listed(time: int, file: string, pattern: string)

  /** The prototype name: the name without its extension, the timestamp
      replaced by the date pattern followed by the extension. */
  function NamePattern(name: string, stamp: string, info: TypeInfo): string {
    ReplaceAll(name, stamp, info.epDatePattern + "." + info.fileType)
  }

  /** One file of the listing that has the file type's extension. A name
      without a timestamp raises (`.group(0)` on no match), as does a
      timestamp `strptime` rejects. */
  function ScanRecord(file: string, info: TypeInfo): (r: Result<Listed>)
    ensures info.search(BeforeLast(file, '.')).None? ==> r.Err?
    ensures r.Ok? ==>
      var name := BeforeLast(file, '.');
      var stamp := info.search(name).value;
      && info.search(name).Some? && info.parse(stamp) == Some(r.value.time)
      && r.value.file == file && r.value.pattern == NamePattern(name, stamp, info)
  {
    var name := BeforeLast(file, '.');
    match info.search(name)
    case None => Err("AttributeError: 'NoneType' object has no attribute 'group'")
    case Some(stamp) =>
      match info.parse(stamp)
      case None => Err("ValueError: time data does not match format")
      case Some(t) => Ok(Listed(t, file, NamePattern(name, stamp, info)))
  }

  /** The scanned files, one per file with the extension, in listing order;
      the first file that raises ends the scan. */
  function Listing(files: seq<string>, info: TypeInfo): (r: Result<seq<Listed>>)
    ensures r.Ok? ==> |r.value| <= |files|
    decreases |files|
  {
    if files == [] then Ok([])
    else
      var f := files[|files| - 1];
      match Listing(files[..|files| - 1], info)
      case Err(e) => Err(e)
      case Ok(ls) =>
        if !EndsWith(f, info.fileType) then Ok(ls)
        else
          match ScanRecord(f, info)
          case Err(e) => Err(e)
          case Ok(l) => Ok(ls + [l])
  }

  /** A scan fails exactly when one of the files with the extension
      fails. */
  lemma {:induction false} ListingFails(files: seq<string>, info: TypeInfo)
    ensures Listing(files, info).Err? <==>
      exists i :: 0 <= i < |files| && EndsWith(files[i], info.fileType) && ScanRecord(files[i], info).Err?
    decreases |files|
  {
    if files != [] {
      var init := files[..|files| - 1];
      ListingFails(init, info);
      assert forall i :: 0 <= i < |init| ==> init[i] == files[i];
      if Listing(init, info).Err? {
        var i :| 0 <= i < |init| && EndsWith(init[i], info.fileType) && ScanRecord(init[i], info).Err?;
        assert files[i] == init[i];
      }
    }
  }

  /** Every scanned record is the record of a listed file with the
      extension. */
  lemma {:induction false} ListingRecords(files: seq<string>, info: TypeInfo, j: int)
    requires Listing(files, info).Ok? && 0 <= j < |Listing(files, info).value|
    ensures exists i :: (0 <= i < |files| && EndsWith(files[i], info.fileType)
                         && ScanRecord(files[i], info) == Ok(Listing(files, info).value[j]))
    decreases |files|
  {
    var init := files[..|files| - 1];
    var ls := Listing(init, info).value;
    if j < |ls| {
      ListingRecords(init, info, j);
      var i :| 0 <= i < |init| && EndsWith(init[i], info.fileType) && ScanRecord(init[i], info) == Ok(ls[j]);
      assert files[i] == init[i];
    } else {
      assert ScanRecord(files[|files| - 1], info) == Ok(Listing(files, info).value[j]);
    }
  }

  /** Where the timestamp text occurs in the name, the prototype carries the
      date pattern and the extension in its place. */
  lemma PatternCarriesDatePattern(file: string, info: TypeInfo)
    requires ScanRecord(file, info).Ok?
    requires var stamp := info.search(BeforeLast(file, '.')).value;
      stamp != [] && Contains(BeforeLast(file, '.'), stamp)
    ensures Contains(ScanRecord(file, info).value.pattern, info.epDatePattern + "." + info.fileType)
  {
    var name := BeforeLast(file, '.');
    ReplaceAllIntroduces(name, info.search(name).value, info.epDatePattern + "." + info.fileType);
  }

  /** The minute and second fields of a timestamp. */
  function Minute(t: int): int {
    (t % 3600) / 60
  }

  function Second(t: int): int {
    t % 60
  }

  /** `(minute != 30 and minute != 0) or second != 0`. */
  predicate Incomplete(t: int) {
    (Minute(t) != 30 && Minute(t) != 0) || Second(t) != 0
  }

  /** A record is incomplete exactly when its timestamp is off the
      half-hourly grid. */
  lemma IncompleteOffGrid(t: int)
    ensures Incomplete(t) <==> t % Grid.SlotWidth != 0
  {
    HourResidues(t);
    WithinHour(t % 3600);
  }

  /** The second and the half-hour residue are read off the time within the
      hour. */
  lemma HourResidues(t: int)
    ensures t % 60 == (t % 3600) % 60
    ensures t % 1800 == (t % 3600) % 1800
  {
    var q := t / 3600;
    assert t == 3600 * q + t % 3600;
  }

  /** Within an hour, minute 0 or 30 at second 0 are exactly the multiples
      of half an hour. */
  lemma WithinHour(r: int)
    requires 0 <= r < 3600
    ensures ((r / 60 != 30 && r / 60 != 0) || r % 60 != 0) <==> r % 1800 != 0
  {
    if r % 1800 == 0 {
      assert r == 0 || r == 1800;
    }
  }

  // ---------------------------------------------------------------------
  // Renaming incomplete records

  /** The new name as written: the text before the first dot, the tag, a
      dot and the text up to the second dot; a name without a dot raises
      `IndexError`. */
  function IncompleteNameAsWritten(name: string): (r: Result<string>)
    ensures r.Err? <==> |Split(name, ".")| < 2
  {
    var pieces := Split(name, ".");
    if |pieces| < 2 then Err("IndexError: list index out of range")
    else Ok(pieces[0] + IncompleteTag + "." + pieces[1])
  }

  /** The new name as intended: the tag inserted before the extension. */
  function IncompleteName(name: string): (r: string)
    ensures Contains(r, IncompleteTag)
  {
    var stem := BeforeLast(name, '.');
    assert OccursAt(stem + IncompleteTag + name[|stem|..], IncompleteTag, |stem|);
    stem + IncompleteTag + name[|stem|..]
  }

  /** A name with an extension keeps it and gains the tag just before
      it. */
  lemma IncompleteKeepsExtension(name: string, ext: string)
    requires EndsWith(name, "." + ext) && '.' !in ext
    ensures IncompleteName(name) == name[..|name| - |ext| - 1] + IncompleteTag + "." + ext
    ensures EndsWith(IncompleteName(name), "." + ext)
  {
    var n := |name| - |ext| - 1;
    LastDotBeforeExtension(name, ext);
    assert name[n..] == "." + ext;
    var r := IncompleteName(name);
    assert r == name[..n] + IncompleteTag + ("." + ext);
    assert r[|r| - |ext| - 1..] == "." + ext;
  }

  /** The last dot of a name ending in `.ext` is the one before `ext`. */
  lemma LastDotBeforeExtension(name: string, ext: string)
    requires EndsWith(name, "." + ext) && '.' !in ext
    ensures BeforeLast(name, '.') == name[..|name| - |ext| - 1]
  {
    var n := |name| - |ext| - 1;
    var stem := BeforeLast(name, '.');
    assert name[n] == '.';
    assert name[n + 1..] == ext;
    NoCharAfter(name, n, '.');
    NoCharAfter(name, |stem|, '.');
    assert name[|stem|] == '.';
  }

  lemma NoCharAfter(s: string, k: nat, c: char)
    requires k < |s| && c !in s[k + 1..]
    ensures forall j :: k < j < |s| ==> s[j] != c
  {
    assert forall j :: k < j < |s| ==> s[k + 1..][j - k - 1] == s[j];
  }

  /** A name with two dots loses its extension as written: `a.b.ghg`
      becomes `a_incomplete.b`, which the next scan no longer lists. */
  lemma IncompleteNameDropsExtension(a: string, b: string, ext: string)
    requires a == "a" && b == "b" && ext == "ghg"
    ensures IncompleteNameAsWritten(a + "." + b + "." + ext).Ok?
    ensures !EndsWith(IncompleteNameAsWritten(a + "." + b + "." + ext).value, ext)
    ensures EndsWith(IncompleteName(a + "." + b + "." + ext), ext)
  {
    TwoDots(a, b, ext);
    var r := a + IncompleteTag + "." + b;
    assert r[|r| - 1] == 'b' != ext[2];
    var full := a + "." + b + IncompleteTag + "." + ext;
    assert full[|full| - 3..] == ext;
  }

  /** With two dots, the name as written ends at the second dot, while the
      intended name keeps everything after it. */
  lemma TwoDots(a: string, b: string, c: string)
    requires '.' !in a && '.' !in b && '.' !in c
    ensures IncompleteNameAsWritten(a + "." + b + "." + c) == Ok(a + IncompleteTag + "." + b)
    ensures IncompleteName(a + "." + b + "." + c) == a + "." + b + IncompleteTag + "." + c
  {
    var s := a + "." + b + "." + c;
    SplitTwoDots(a, b, c);
    assert s == (a + "." + b) + ("." + c);
    assert EndsWith(s, "." + c);
    IncompleteKeepsExtension(s, c);
    assert s[..|s| - |c| - 1] == a + "." + b;
  }

  lemma SplitTwoDots(a: string, b: string, c: string)
    requires '.' !in a && '.' !in b && '.' !in c
    ensures Split(a + "." + b + "." + c, ".") == [a, b, c]
  {
    var t := b + "." + c;
    SplitOneDot(b, c);
    SplitAtFirst(a, '.', t);
    DotRegroup(a, b, c);
  }

  lemma DotRegroup(a: string, b: string, c: string)
    ensures a + "." + b + "." + c == a + ['.'] + (b + "." + c)
  {
  }

  lemma SplitOneDot(b: string, c: string)
    requires '.' !in b && '.' !in c
    ensures Split(b + "." + c, ".") == [b, c]
  {
    SplitAtFirst(b, '.', c);
    NoCharNoFind(c, '.');
    assert b + "." + c == b + ['.'] + c;
  }

  /** On names with a single dot the two agree. */
  lemma OneDotAgrees(stem: string, ext: string)
    requires '.' !in stem && '.' !in ext
    ensures IncompleteNameAsWritten(stem + "." + ext) == Ok(IncompleteName(stem + "." + ext))
  {
    SplitOneDot(stem, ext);
    IncompleteKeepsExtension(stem + "." + ext, ext);
    assert (stem + "." + ext)[..|stem|] == stem;
  }

  /** A record the loop renames: off the grid and not yet tagged. */
  predicate Selected(l: Listed) {
    Incomplete(l.time) && !Contains(l.file, IncompleteTag)
  }

  /** The name of record `j` once the loop has visited the first `k`
      records: each selected record renames every record with its
      timestamp (`df.loc[df.index == i, 'filename']`). */
  function RenamedAfter(ls: seq<Listed>, k: nat, j: nat): string
    requires k <= |ls| && j < |ls|
  {
    if k == 0 then ls[j].file
    else if Selected(ls[k - 1]) && ls[k - 1].time == ls[j].time then IncompleteName(ls[k - 1].file)
    else RenamedAfter(ls, k - 1, j)
  }

  /** A record on the grid keeps its name. */
  lemma {:induction false} CompleteNotRenamed(ls: seq<Listed>, k: nat, j: nat)
    requires k <= |ls| && j < |ls| && !Incomplete(ls[j].time)
    ensures RenamedAfter(ls, k, j) == ls[j].file
  {
    if k > 0 {
      CompleteNotRenamed(ls, k - 1, j);
    }
  }

  /** Once the loop has passed record `j`, its name is tagged or it was
      not selected. */
  lemma {:induction false} RenamedTagged(ls: seq<Listed>, k: nat, j: nat)
    requires k <= |ls| && j < |ls|
    ensures Contains(RenamedAfter(ls, k, j), IncompleteTag)
      || (RenamedAfter(ls, k, j) == ls[j].file && (k <= j || !Selected(ls[j])))
  {
    if k > 0 {
      RenamedTagged(ls, k - 1, j);
    }
  }

  /** After the loop, every off-grid record carries the tag, so scanning
      the renamed files selects nothing again. */
  lemma IncompleteTagged(ls: seq<Listed>, j: nat)
    requires j < |ls| && Incomplete(ls[j].time)
    ensures Contains(RenamedAfter(ls, |ls|, j), IncompleteTag)
  {
    RenamedTagged(ls, |ls|, j);
  }

  /** The last selected record of a timestamp gives all of its records
      their name. */
  lemma {:induction false} LastSelectedNames(ls: seq<Listed>, k: nat, j: nat, i: nat)
    requires i < k <= |ls| && j < |ls| && Selected(ls[i]) && ls[i].time == ls[j].time
    requires forall m :: i < m < |ls| && ls[m].time == ls[j].time ==> !Selected(ls[m])
    ensures RenamedAfter(ls, k, j) == IncompleteName(ls[i].file)
  {
    if k - 1 > i {
      LastSelectedNames(ls, k - 1, j, i);
    }
  }

  /** The loop over the selected records (`iterrows`), renaming in place. */
  method RenameIncomplete(ls: seq<Listed>) returns (names: seq<string>)
    ensures |names| == |ls|
    ensures forall j :: 0 <= j < |ls| ==> names[j] == RenamedAfter(ls, |ls|, j)
  {
    var a := new string[|ls|](j requires 0 <= j < |ls| => ls[j].file);
    for k := 0 to |ls|
      invariant forall j :: 0 <= j < |ls| ==> a[j] == RenamedAfter(ls, k, j)
    {
      if Selected(ls[k]) {
        var newName := IncompleteName(ls[k].file);
        for j := 0 to |ls|
          invariant forall i :: 0 <= i < j ==> a[i] == RenamedAfter(ls, k + 1, i)
          invariant forall i :: j <= i < |ls| ==> a[i] == RenamedAfter(ls, k, i)
        {
          if ls[j].time == ls[k].time {
            a[j] := newName;
          }
        }
      }
    }
    names := a[..];
  }

  // ---------------------------------------------------------------------
  // The scanned inventory

  /** The flag a scanned file starts with. */
  function FlagOf(t: int): string {
    if Incomplete(t) then IncompleteFlag else Unset
  }

  /** The row a scanned file starts with: its (possibly renamed) name, its
      prototype, its flag, and the placeholder in the metadata and update
      columns; `setup_ID` is missing. */
  function ListedRow(file: string, pattern: string, flag: string): (row: Row<string>)
    ensures row.Keys == {FileColumn, PatternColumn, FlagColumn, MetaColumn, UpdateColumn}
    ensures row[FileColumn] == Str(file) && row[FlagColumn] == Str(flag) && row[MetaColumn] == Str(Unset)
  {
    map[FileColumn := Str(file), PatternColumn := Str(pattern), FlagColumn := Str(flag),
        MetaColumn := Str(Unset), UpdateColumn := Str(Unset)]
  }

  /** The names after the renaming loop. */
  function RenamedNames(ls: seq<Listed>): (names: seq<string>)
    ensures |names| == |ls|
  {
    seq(|ls|, j requires 0 <= j < |ls| => RenamedAfter(ls, |ls|, j))
  }

  /** The frame before resampling. */
  function Entries(ls: seq<Listed>, names: seq<string>): (es: seq<Grid.Entry<string>>)
    requires |names| == |ls|
    ensures |es| == |ls|
    ensures forall j :: 0 <= j < |ls| ==>
      es[j] == (ls[j].time, ListedRow(names[j], ls[j].pattern, FlagOf(ls[j].time)))
  {
    seq(|ls|, j requires 0 <= j < |ls| => (ls[j].time, ListedRow(names[j], ls[j].pattern, FlagOf(ls[j].time))))
  }

  /** The new scan on the half-hour grid. */
  function ScanTable(ls: seq<Listed>): Table<string> {
    Grid.Resample(Entries(ls, RenamedNames(ls)))
  }

  /** The inventory after a scan: the scan itself on a reset or when no
      inventory was saved, otherwise the saved one merged with the scan's
      new timestamps. */
  function Inventory(scan: Table<string>, reset: bool, saved: Option<Table<string>>): (r: Table<string>)
    ensures reset || saved.None? ==> r == scan
    ensures !reset && saved.Some? ==> r.Keys == saved.value.Keys + scan.Keys
    ensures !reset && saved.Some? ==> forall t :: t in saved.value ==> r[t] == saved.value[t]
  {
    if reset || saved.None? then scan else Grid.Merge(saved.value, scan)
  }

  /** A file on the grid whose timestamp no other scanned file shares keeps
      its own row: its name, the placeholder flag and no set-up. */
  lemma CompleteRecordKept(ls: seq<Listed>, j: nat)
    requires j < |ls| && !Incomplete(ls[j].time)
    requires forall k :: 0 <= k < |ls| && k != j ==> Grid.Slot(ls[k].time) != Grid.Slot(ls[j].time)
    ensures ls[j].time in ScanTable(ls)
    ensures ScanTable(ls)[ls[j].time] == ListedRow(ls[j].file, ls[j].pattern, Unset)
  {
    IncompleteOffGrid(ls[j].time);
    Grid.SlotUnique(ls[j].time, ls[j].time);
    CompleteNotRenamed(ls, |ls|, j);
    var es := Entries(ls, RenamedNames(ls));
    assert forall k :: 0 <= k < |ls| ==> es[k].0 == ls[k].time;
    Grid.SingleEntrySlot(es, j);
  }

  /** Every scanned file's slot is in the new scan, so it reaches the
      inventory (the saved row wins where the slot was already known). */
  lemma ScannedSlotsKept(ls: seq<Listed>, reset: bool, saved: Option<Table<string>>, j: nat)
    requires j < |ls|
    ensures Grid.Slot(ls[j].time) in Inventory(ScanTable(ls), reset, saved)
  {
    var es := Entries(ls, RenamedNames(ls));
    Grid.EntrySlotKept(es, j);
  }

  // ---------------------------------------------------------------------
  // appendRecs

  /** What reading one file returns: its values, its timestamp, the event
      log's `Flag` and `Update` columns and the metadata file it wrote. */
  datatype Output = Output(values: Row<string>, time: int, flagLog: map<int, string>,
                           updateLog: map<int, string>, metadataFile: string)

  /** `df[cols]` for columns known to be present, and the columns left
      over. */
  function Select(row: Row<string>, cols: seq<string>): (r: Row<string>)
    ensures forall c :: c in r <==> c in row && c in cols
    ensures forall c :: c in r ==> r[c] == row[c]
  {
    map c | c in row && c in cols :: row[c]
  }

  function Others(row: Row<string>, cols: seq<string>): (r: Row<string>)
    ensures forall c :: c in r <==> c in row && c !in cols
    ensures forall c :: c in r ==> r[c] == row[c]
  {
    map c | c in row && c !in cols :: row[c]
  }

  /** `[x for x in cols if x in df.columns]`: the configured columns the
      record has, in configured order. */
  function Present(cols: seq<string>, row: Row<string>): (r: seq<string>)
    ensures forall c :: c in r <==> c in cols && c in row
    ensures |r| <= |cols|
    decreases |cols|
  {
    if cols == [] then []
    else
      var init := Present(cols[..|cols| - 1], row);
      var c := cols[|cols| - 1];
      assert cols == cols[..|cols| - 1] + [c];
      if c in row then init + [c] else init
  }

  /** Narrowing twice by the same record changes nothing more. */
  lemma {:induction false} PresentIdempotent(cols: seq<string>, row: Row<string>)
    ensures Present(Present(cols, row), row) == Present(cols, row)
    decreases |cols|
  {
    if cols != [] {
      var init := cols[..|cols| - 1];
      PresentIdempotent(init, row);
      var c := cols[|cols| - 1];
      if c in row {
        var r := Present(cols, row);
        assert r[..|r| - 1] == Present(init, row);
      }
    }
  }

  /** One column filled from the event log: a placeholder or missing entry
      takes the log's entry for its timestamp, or the placeholder where the
      log has none; any other entry stays. */
  function FillFromLog(files: Table<string>, col: string, log: map<int, string>): (r: Table<string>)
    ensures r.Keys == files.Keys
  {
    map t | t in files ::
      if col in files[t] && files[t][col] != Str(Unset) then files[t]
      else files[t][col := Str(if t in log then log[t] else Unset)]
  }

  /** Filling again from the same log changes nothing. */
  lemma FillFromLogIdempotent(files: Table<string>, col: string, log: map<int, string>)
    ensures FillFromLog(FillFromLog(files, col, log), col, log) == FillFromLog(files, col, log)
  {
    var once := FillFromLog(files, col, log);
    var twice := FillFromLog(once, col, log);
    forall t | t in once
      ensures twice[t] == once[t]
    {
      if once[t][col] == Str(Unset) {
        assert twice[t].Keys == once[t].Keys;
      }
    }
  }

  /** `files.loc[files.index == t, 'MetaDataFile'] = name`: nothing
      happens when the timestamp is not in the inventory. */
  function SetMetadata(files: Table<string>, t: int, name: string): (r: Table<string>)
    ensures r.Keys == files.Keys
    ensures forall u :: u in files && u != t ==> r[u] == files[u]
    ensures t in files ==> r[t] == files[t][MetaColumn := Str(name)]
  {
    if t in files then files[t := files[t][MetaColumn := Str(name)]] else files
  }

  /** The inventory after one record: flags and updates filled from the
      log, and the record's metadata file set at its timestamp. */
  function RecordFile(files: Table<string>, out: Output): Table<string> {
    SetMetadata(FillFromLog(FillFromLog(files, FlagColumn, out.flagLog), UpdateColumn, out.updateLog),
                out.time, out.metadataFile)
  }

  /** A `Flag` entry other than the placeholder is never overwritten;
      every row ends with one. */
  lemma FlagKept(files: Table<string>, out: Output, t: int)
    requires t in files
    ensures t in RecordFile(files, out) && FlagColumn in RecordFile(files, out)[t]
    ensures FlagColumn in files[t] && files[t][FlagColumn] != Str(Unset) ==>
      RecordFile(files, out)[t][FlagColumn] == files[t][FlagColumn]
  {
    var flagged := FillFromLog(files, FlagColumn, out.flagLog);
    var filled := FillFromLog(flagged, UpdateColumn, out.updateLog);
    ColumnsDistinct();
    FillKeeps(files, FlagColumn, out.flagLog, t, FlagColumn);
    FillKeeps(flagged, UpdateColumn, out.updateLog, t, FlagColumn);
    MetadataKeeps(filled, out.time, out.metadataFile, t, FlagColumn);
  }

  /** The same for `Update`. */
  lemma UpdateKept(files: Table<string>, out: Output, t: int)
    requires t in files
    ensures t in RecordFile(files, out) && UpdateColumn in RecordFile(files, out)[t]
    ensures UpdateColumn in files[t] && files[t][UpdateColumn] != Str(Unset) ==>
      RecordFile(files, out)[t][UpdateColumn] == files[t][UpdateColumn]
  {
    var flagged := FillFromLog(files, FlagColumn, out.flagLog);
    var filled := FillFromLog(flagged, UpdateColumn, out.updateLog);
    ColumnsDistinct();
    FillKeeps(files, FlagColumn, out.flagLog, t, UpdateColumn);
    FillKeeps(flagged, UpdateColumn, out.updateLog, t, UpdateColumn);
    MetadataKeeps(filled, out.time, out.metadataFile, t, UpdateColumn);
  }

  lemma ColumnsDistinct()
    ensures FlagColumn != UpdateColumn && FlagColumn != MetaColumn && UpdateColumn != MetaColumn
  {
    assert |FlagColumn| == 4 && |UpdateColumn| == 6 && |MetaColumn| == 12;
  }

  /** Setting the metadata file keeps every other column of every row. */
  lemma MetadataKeeps(files: Table<string>, time: int, name: string, t: int, c: string)
    requires t in files && c != MetaColumn
    ensures t in SetMetadata(files, time, name)
    ensures c in SetMetadata(files, time, name)[t] <==> c in files[t]
    ensures c in files[t] ==> SetMetadata(files, time, name)[t][c] == files[t][c]
  {
  }

  /** One fill leaves the filled column present, keeps every other entry
      and every entry other than the placeholder, and fills a placeholder
      or missing entry from the log. */
  lemma FillKeeps(files: Table<string>, col: string, log: map<int, string>, t: int, c: string)
    requires t in files
    ensures t in FillFromLog(files, col, log) && col in FillFromLog(files, col, log)[t]
    ensures c in files[t] ==> c in FillFromLog(files, col, log)[t]
    ensures c in files[t] && (c != col || files[t][c] != Str(Unset)) ==>
      FillFromLog(files, col, log)[t][c] == files[t][c]
    ensures col !in files[t] || files[t][col] == Str(Unset) ==>
      FillFromLog(files, col, log)[t][col] == Str(if t in log then log[t] else Unset)
  {
  }

  // ---------------------------------------------------------------------
  // GroupCommon

  /** The grouping columns: the configured list written back with `join`
      and read with `split`, so an empty list groups by one column named
      "". */
  function KeyColumns(cols: seq<string>): seq<string> {
    Split(Join(cols, ","), ",")
  }

  lemma NoSetupColumns()
    ensures KeyColumns([]) == [""]
  {
    assert !Contains("", ",");
  }

  /** Every grouping column is a column of the frame (else `KeyError`). */
  predicate Groupable(ss: seq<Grid.Entry<string>>, keyCols: seq<string>) {
    forall i :: 0 <= i < |keyCols| ==> keyCols[i] in Grid.Columns(ss) || keyCols[i] == TempColumn
  }

  /** Row `p` with `temp_ID` set to its position and every missing value
      filled with 0. */
  function Prepared(ss: seq<Grid.Entry<string>>, p: nat): (r: Row<string>)
    requires p < |ss|
    ensures r.Keys == ss[p].1.Keys + Grid.Columns(ss) + {TempColumn}
    ensures forall c :: c in ss[p].1 && c != TempColumn ==> r[c] == ss[p].1[c]
    ensures forall c :: c in Grid.Columns(ss) && c !in ss[p].1 && c != TempColumn ==> r[c] == Int(0)
  {
    FilledRow(ss[p].1[TempColumn := Int(p)], Grid.Columns(ss), Int(0))
  }

  function PreparedAll(ss: seq<Grid.Entry<string>>): (r: seq<Grid.Entry<string>>)
    ensures |r| == |ss|
  {
    seq(|ss|, p requires 0 <= p < |ss| => (ss[p].0, Prepared(ss, p)))
  }

  /** Each row's configuration: its values in the grouping columns. */
  function ConfigKeys(ss: seq<Grid.Entry<string>>, keyCols: seq<string>): (keys: seq<seq<Cell>>)
    requires Groupable(ss, keyCols)
    ensures |keys| == |ss|
  {
    seq(|ss|, p requires 0 <= p < |ss| => seq(|keyCols|, i requires 0 <= i < |keyCols| => Prepared(ss, p)[keyCols[i]]))
  }

  /** `temp_ID` after the group minimum. */
  function Temps(ss: seq<Grid.Entry<string>>, keyCols: seq<string>): (ts: seq<nat>)
    requires Groupable(ss, keyCols)
    ensures |ts| == |ss|
  {
    Numbering.FirstPositions(ConfigKeys(ss, keyCols))
  }

  /** `setup_ID`: the distinct `temp_ID` values numbered in order. */
  function SetupIds(ss: seq<Grid.Entry<string>>, keyCols: seq<string>): (ids: seq<nat>)
    requires Groupable(ss, keyCols)
    ensures |ids| == |ss|
  {
    var ts := Temps(ss, keyCols);
    seq(|ss|, p requires 0 <= p < |ss| => Numbering.Numbering(ts)[ts[p]])
  }

  function Labelled(ss: seq<Grid.Entry<string>>, keyCols: seq<string>): (r: seq<Grid.Entry<string>>)
    requires Groupable(ss, keyCols)
    ensures |r| == |ss|
  {
    var ts, ids := Temps(ss, keyCols), SetupIds(ss, keyCols);
    seq(|ss|, p requires 0 <= p < |ss| =>
      (ss[p].0, Prepared(ss, p)[TempColumn := Int(ts[p])][SetupColumn := Int(ids[p])]))
  }

  /** The loop over the distinct `temp_ID` values. */
  method NumberSetups(ss: seq<Grid.Entry<string>>, keyCols: seq<string>) returns (ids: seq<nat>)
    requires Groupable(ss, keyCols)
    ensures ids == SetupIds(ss, keyCols)
  {
    var temps := Temps(ss, keyCols);
    ids := Numbering.Number(temps);
  }

  /** A row's set-up number is its configuration's first-seen number. */
  lemma SetupIdIsNumbering(ss: seq<Grid.Entry<string>>, keyCols: seq<string>, p: nat)
    requires Groupable(ss, keyCols) && p < |ss|
    ensures SetupIds(ss, keyCols)[p] == Numbering.Numbering(ConfigKeys(ss, keyCols))[ConfigKeys(ss, keyCols)[p]]
  {
    Numbering.NumberingFirstPositions(ConfigKeys(ss, keyCols), p);
  }

  /** Two rows share a set-up exactly when their configurations agree. */
  lemma SameSetupIff(ss: seq<Grid.Entry<string>>, keyCols: seq<string>, p: nat, q: nat)
    requires Groupable(ss, keyCols) && p < |ss| && q < |ss|
    ensures SetupIds(ss, keyCols)[p] == SetupIds(ss, keyCols)[q] <==> ConfigKeys(ss, keyCols)[p] == ConfigKeys(ss, keyCols)[q]
  {
    SetupIdIsNumbering(ss, keyCols, p);
    SetupIdIsNumbering(ss, keyCols, q);
    Numbering.NumberingFacts(ConfigKeys(ss, keyCols));
  }

  /** The set-up numbers are exactly `0 .. k-1` for `k` distinct
      configurations. */
  lemma SetupIdsDense(ss: seq<Grid.Entry<string>>, keyCols: seq<string>, n: nat)
    requires Groupable(ss, keyCols)
    ensures forall p :: 0 <= p < |ss| ==> SetupIds(ss, keyCols)[p] < |Numbering.Numbering(ConfigKeys(ss, keyCols))|
    ensures n < |Numbering.Numbering(ConfigKeys(ss, keyCols))| ==>
      exists p :: 0 <= p < |ss| && SetupIds(ss, keyCols)[p] == n
  {
    var keys := ConfigKeys(ss, keyCols);
    Numbering.NumberingFacts(keys);
    forall p | 0 <= p < |ss| ensures SetupIds(ss, keyCols)[p] < |Numbering.Numbering(keys)| {
      SetupIdIsNumbering(ss, keyCols, p);
    }
    if n < |Numbering.Numbering(keys)| {
      Numbering.NumberingDense(keys, n);
      var k :| k in Numbering.Numbering(keys) && Numbering.Numbering(keys)[k] == n;
      var p :| 0 <= p < |keys| && keys[p] == k;
      SetupIdIsNumbering(ss, keyCols, p);
    }
  }

  /** A configuration seen for the first time gets the next number. */
  lemma SetupIdsFirstSeen(ss: seq<Grid.Entry<string>>, keyCols: seq<string>, p: nat)
    requires Groupable(ss, keyCols) && p < |ss|
    requires ConfigKeys(ss, keyCols)[p] !in ConfigKeys(ss, keyCols)[..p]
    ensures SetupIds(ss, keyCols)[p] == |Numbering.Numbering(ConfigKeys(ss, keyCols)[..p])|
  {
    SetupIdIsNumbering(ss, keyCols, p);
    Numbering.FirstOccurrence(ConfigKeys(ss, keyCols), p);
  }

  function Times(ss: seq<Grid.Entry<string>>): (ts: seq<int>)
    ensures |ts| == |ss| && forall p :: 0 <= p < |ss| ==> ts[p] == ss[p].0
  {
    seq(|ss|, p requires 0 <= p < |ss| => ss[p].0)
  }

  predicate Distinct(ts: seq<int>) {
    forall p, q :: 0 <= p < q < |ts| ==> ts[p] != ts[q]
  }

  /** Every set-up timestamp is in the inventory, once. */
  predicate Assignable(ss: seq<Grid.Entry<string>>, files: Table<string>) {
    Distinct(Times(ss)) && forall p :: 0 <= p < |ss| ==> Times(ss)[p] in files
  }

  /** `files.loc[site_setup.index, 'setup_ID'] = ...`: each row's set-up
      number written at its timestamp. */
  function AssignIds(files: Table<string>, ts: seq<int>, ids: seq<nat>): (r: Table<string>)
    requires |ts| == |ids| && forall p :: 0 <= p < |ts| ==> ts[p] in files
    ensures r.Keys == files.Keys
    ensures forall t :: t in files && t !in ts ==> r[t] == files[t]
    ensures Distinct(ts) ==> forall p :: 0 <= p < |ts| ==> r[ts[p]] == files[ts[p]][SetupColumn := Int(ids[p])]
    decreases |ts|
  {
    if ts == [] then files
    else
      var n := |ts| - 1;
      var r := AssignIds(files, ts[..n], ids[..n]);
      assert forall p :: 0 <= p < n ==> ts[..n][p] == ts[p] && ids[..n][p] == ids[p];
      r[ts[n] := files[ts[n]][SetupColumn := Int(ids[n])]]
  }

  /** Some entry of `r` holds exactly this row. */
  predicate HasRow(r: seq<Grid.Entry<string>>, row: Row<string>) {
    exists i :: 0 <= i < |r| && r[i].1 == row
  }

  /** `drop_duplicates(keep='first')`: a row equal in every column to an
      earlier one is dropped (the timestamp is not compared). */
  function DropDuplicateRows(es: seq<Grid.Entry<string>>): (r: seq<Grid.Entry<string>>)
    ensures |r| <= |es|
    ensures forall i :: 0 <= i < |r| ==> r[i] in es
    ensures forall p :: 0 <= p < |es| ==> HasRow(r, es[p].1)
    ensures forall i, j :: 0 <= i < j < |r| ==> r[i].1 != r[j].1
    decreases |es|
  {
    if es == [] then []
    else
      var n := |es| - 1;
      var r := DropDuplicateRows(es[..n]);
      assert forall p :: 0 <= p < n ==> es[..n][p] == es[p];
      if HasRow(r, es[n].1) then r
      else
        var r' := r + [es[n]];
        assert forall i :: 0 <= i < |r| ==> r'[i] == r[i];
        assert forall x :: HasRow(r, x) ==> HasRow(r', x);
        assert r'[|r|].1 == es[n].1;
        r'
  }

  // ---------------------------------------------------------------------
  // GroupRuns

  /** `ffill`: a missing entry takes the nearest earlier entry present. */
  function FFill<T>(xs: seq<Option<T>>): (r: seq<Option<T>>)
    ensures |r| == |xs|
    ensures forall i :: 0 <= i < |xs| && xs[i].Some? ==> r[i] == xs[i]
    decreases |xs|
  {
    if xs == [] then []
    else
      var n := |xs| - 1;
      var init := FFill(xs[..n]);
      assert forall i :: 0 <= i < n ==> xs[..n][i] == xs[i];
      init + [if xs[n].Some? || n == 0 then xs[n] else init[n - 1]]
  }

  /** Each entry of the fill is the nearest entry present at or before
      it, or missing when there is none. */
  lemma {:induction false} FFillNearest<T>(xs: seq<Option<T>>, i: nat, j: nat)
    requires j <= i < |xs| && xs[j].Some?
    requires forall k :: j < k <= i ==> xs[k].None?
    ensures FFill(xs)[i] == xs[j]
    decreases |xs|
  {
    var n := |xs| - 1;
    assert forall k :: 0 <= k < n ==> xs[..n][k] == xs[k];
    if i < n {
      FFillNearest(xs[..n], i, j);
    } else if j < i {
      FFillNearest(xs[..n], i - 1, j);
    }
  }

  lemma {:induction false} FFillNone<T>(xs: seq<Option<T>>, i: nat)
    requires i < |xs| && forall k :: 0 <= k <= i ==> xs[k].None?
    ensures FFill(xs)[i].None?
    decreases |xs|
  {
    var n := |xs| - 1;
    assert forall k :: 0 <= k < n ==> xs[..n][k] == xs[k];
    if i < n {
      FFillNone(xs[..n], i);
    } else if i > 0 {
      FFillNone(xs[..n], i - 1);
    }
  }

  /** No gap is left after the first entry present, and filling again
      changes nothing. */
  lemma {:induction false} FFillNoGaps<T>(xs: seq<Option<T>>, i: nat, j: nat)
    requires j <= i < |xs| && xs[j].Some?
    ensures FFill(xs)[i].Some?
    decreases |xs|
  {
    var n := |xs| - 1;
    assert forall k :: 0 <= k < n ==> xs[..n][k] == xs[k];
    if i < n {
      FFillNoGaps(xs[..n], i, j);
    } else if j < i && xs[i].None? {
      FFillNoGaps(xs[..n], i - 1, j);
    }
  }

  lemma {:induction false} FFillIdempotent<T>(xs: seq<Option<T>>)
    ensures FFill(FFill(xs)) == FFill(xs)
    decreases |xs|
  {
    if xs != [] {
      var n := |xs| - 1;
      FFillIdempotent(xs[..n]);
      var r := FFill(xs);
      assert r[..n] == FFill(xs[..n]);
      assert FFill(r)[..n] == FFill(r[..n]);
    }
  }

  function UpdateOf(row: Row<string>): Option<Cell> {
    if UpdateColumn in row then Some(row[UpdateColumn]) else None
  }

  function MetaOf(row: Row<string>): Option<Cell> {
    if MetaColumn in row then Some(row[MetaColumn]) else None
  }

  /** A cell set, or removed (`NaN`). */
  function WithCell(row: Row<string>, col: string, v: Option<Cell>): (r: Row<string>)
    ensures v.Some? ==> col in r && r[col] == v.value
    ensures v.None? ==> col !in r
    ensures forall c :: c != col ==> (c in r <==> c in row) && (c in r ==> r[c] == row[c])
  {
    if v.Some? then row[col := v.value] else row - {col}
  }

  /** A row of the month with an update (a missing update counts, as
      `NaN != '-'`). */
  predicate InRun(files: Table<string>, t: int, month: int, monthOf: int -> int)
    requires t in files
  {
    UpdateOf(files[t]) != Some(Str(Unset)) && monthOf(t) == month
  }

  /** The run rows, in time order. */
  function RunTimes(files: Table<string>, ks: seq<int>, month: int, monthOf: int -> int): (ms: seq<int>)
    requires forall i :: 0 <= i < |ks| ==> ks[i] in files
    ensures forall t :: t in ms <==> t in ks && InRun(files, t, month, monthOf)
    ensures forall k :: 0 <= k < |ms| ==> ms[k] in files
    decreases |ks|
  {
    if ks == [] then []
    else
      var n := |ks| - 1;
      var init := RunTimes(files, ks[..n], month, monthOf);
      assert ks == ks[..n] + [ks[n]];
      if InRun(files, ks[n], month, monthOf) then init + [ks[n]] else init
  }

  /** `Updates['Update'].duplicated()`: an update equal to an earlier one in
      the run (two missing updates are equal). */
  predicate Duplicated(files: Table<string>, ms: seq<int>, i: nat)
    requires i < |ms| && forall k :: 0 <= k < |ms| ==> ms[k] in files
  {
    exists j :: 0 <= j < i && UpdateOf(files[ms[j]]) == UpdateOf(files[ms[i]])
  }

  /** The metadata files of duplicated rows (a missing one matches
      nothing). */
  function RemovedUpTo(files: Table<string>, ms: seq<int>, n: nat): set<Cell>
    requires n <= |ms| && forall k :: 0 <= k < |ms| ==> ms[k] in files
  {
    set i | 0 <= i < n && Duplicated(files, ms, i) && MetaOf(files[ms[i]]).Some? :: MetaOf(files[ms[i]]).value
  }

  /** `files.loc[files['MetaDataFile'] == rem, 'MetaDataFile'] = NaN` for
      each removed name. */
  function ClearMetadata(files: Table<string>, removed: set<Cell>): (r: Table<string>)
    ensures r.Keys == files.Keys
  {
    map t | t in files :: if MetaOf(files[t]).Some? && MetaOf(files[t]).value in removed then files[t] - {MetaColumn} else files[t]
  }

  lemma ClearMore(files: Table<string>, removed: set<Cell>, x: Cell)
    ensures ClearMetadata(ClearMetadata(files, removed), {x}) == ClearMetadata(files, removed + {x})
  {
    var a := ClearMetadata(ClearMetadata(files, removed), {x});
    var b := ClearMetadata(files, removed + {x});
    forall t | t in files ensures a[t] == b[t] {
      if MetaOf(files[t]).Some? && MetaOf(files[t]).value in removed {
        assert MetaColumn !in ClearMetadata(files, removed)[t];
      }
    }
  }

  /** One more run row: its metadata file joins the removed ones when it
      is duplicated. */
  lemma RemovedStep(files: Table<string>, ms: seq<int>, n: nat)
    requires 0 < n <= |ms| && forall k :: 0 <= k < |ms| ==> ms[k] in files
    ensures Duplicated(files, ms, n - 1) && MetaOf(files[ms[n - 1]]).Some? ==>
      RemovedUpTo(files, ms, n) == RemovedUpTo(files, ms, n - 1) + {MetaOf(files[ms[n - 1]]).value}
    ensures !(Duplicated(files, ms, n - 1) && MetaOf(files[ms[n - 1]]).Some?) ==>
      RemovedUpTo(files, ms, n) == RemovedUpTo(files, ms, n - 1)
  {
  }

  /** The inventory after the loop over `toRemove` has visited the first
      `n` run rows. */
  function ClearedUpTo(files: Table<string>, ms: seq<int>, n: nat): (r: Table<string>)
    requires n <= |ms| && forall k :: 0 <= k < |ms| ==> ms[k] in files
  {
    if n == 0 then files
    else
      var prev := ClearedUpTo(files, ms, n - 1);
      var meta := MetaOf(files[ms[n - 1]]);
      if Duplicated(files, ms, n - 1) && meta.Some? then ClearMetadata(prev, {meta.value}) else prev
  }

  /** Clearing one name at a time clears exactly the removed names: a row
      loses its metadata file iff that file belongs to a duplicated run row. */
  lemma ClearedRemoved(files: Table<string>, ms: seq<int>, n: nat)
    requires n <= |ms| && forall k :: 0 <= k < |ms| ==> ms[k] in files
    ensures ClearedUpTo(files, ms, n) == ClearMetadata(files, RemovedUpTo(files, ms, n))
  {
    assert RemovedUpTo(files, ms, 0) == {};
    assert ClearMetadata(files, {}) == files;
    for m := 0 to n
      invariant ClearedUpTo(files, ms, m) == ClearMetadata(files, RemovedUpTo(files, ms, m))
    {
      ClearedStep(files, ms, m);
    }
  }

  lemma ClearedStep(files: Table<string>, ms: seq<int>, m: nat)
    requires m < |ms| && forall k :: 0 <= k < |ms| ==> ms[k] in files
    requires ClearedUpTo(files, ms, m) == ClearMetadata(files, RemovedUpTo(files, ms, m))
    ensures ClearedUpTo(files, ms, m + 1) == ClearMetadata(files, RemovedUpTo(files, ms, m + 1))
  {
    RemovedStep(files, ms, m + 1);
    var meta := MetaOf(files[ms[m]]);
    var prev := ClearedUpTo(files, ms, m);
    if Duplicated(files, ms, m) && meta.Some? {
      assert ClearedUpTo(files, ms, m + 1) == ClearMetadata(prev, {meta.value});
      ClearMore(files, RemovedUpTo(files, ms, m), meta.value);
    } else {
      assert ClearedUpTo(files, ms, m + 1) == prev;
    }
  }

  /** The loop over `toRemove`: each duplicated row's metadata file is
      cleared wherever it is named. */
  method ClearDuplicates(files: Table<string>, ms: seq<int>) returns (r: Table<string>)
    requires forall k :: 0 <= k < |ms| ==> ms[k] in files
    ensures r == ClearedUpTo(files, ms, |ms|)
  {
    r := files;
    for i := 0 to |ms|
      invariant r == ClearedUpTo(files, ms, i)
    {
      var meta := MetaOf(files[ms[i]]);
      ClearedNext(files, ms, i);
      if Duplicated(files, ms, i) && meta.Some? {
        r := ClearMetadata(r, {meta.value});
      }
    }
  }

  /** `ClearedUpTo` one row further. */
  lemma ClearedNext(files: Table<string>, ms: seq<int>, i: nat)
    requires i < |ms| && forall k :: 0 <= k < |ms| ==> ms[k] in files
    ensures var meta := MetaOf(files[ms[i]]);
      ClearedUpTo(files, ms, i + 1)
      == if Duplicated(files, ms, i) && meta.Some? then ClearMetadata(ClearedUpTo(files, ms, i), {meta.value})
         else ClearedUpTo(files, ms, i)
  {
  }

  /** `GroupRuns` step by step: the run rows, the clearing loop, the
      write-back and the forward fill. */
  method RegroupRuns(files: Table<string>, ks: seq<int>, month: int, monthOf: int -> int) returns (r: Table<string>)
    requires forall i :: 0 <= i < |ks| ==> ks[i] in files
    ensures r == GroupRunsOf(files, ks, month, monthOf)
  {
    var ms := RunTimes(files, ks, month, monthOf);
    var cleared := ClearDuplicates(files, ms);
    ClearedRemoved(files, ms, |ms|);
    r := FillMetadataForward(WriteBack(cleared, files, ms), ks);
  }

  /** The run rows' new update: the placeholder for a duplicated or missing
      update. */
  function RunUpdate(files: Table<string>, ms: seq<int>, i: nat): Cell
    requires i < |ms| && forall k :: 0 <= k < |ms| ==> ms[k] in files
  {
    if Duplicated(files, ms, i) || UpdateOf(files[ms[i]]).None? then Str(Unset) else UpdateOf(files[ms[i]]).value
  }

  /** The run rows' new metadata file: cleared on duplicated rows, then
      filled forward along the run. */
  function RunMeta(files: Table<string>, ms: seq<int>): (r: seq<Option<Cell>>)
    requires forall k :: 0 <= k < |ms| ==> ms[k] in files
    ensures |r| == |ms|
  {
    FFill(KeptMeta(files, ms))
  }

  /** The metadata file of each row of the run, with the duplicated rows'
      cleared. */
  function KeptMeta(files: Table<string>, ms: seq<int>): (xs: seq<Option<Cell>>)
    requires forall k :: 0 <= k < |ms| ==> ms[k] in files
    ensures |xs| == |ms|
    ensures forall i :: 0 <= i < |ms| ==> xs[i] == if Duplicated(files, ms, i) then None else MetaOf(files[ms[i]])
  {
    seq(|ms|, i requires 0 <= i < |ms| => if Duplicated(files, ms, i) then None else MetaOf(files[ms[i]]))
  }

  /** After the run: the cleared inventory with the run rows' update and
      metadata written back. */
  function AfterRuns(files: Table<string>, ms: seq<int>): (r: Table<string>)
    requires forall k :: 0 <= k < |ms| ==> ms[k] in files
    ensures r.Keys == files.Keys
  {
    ClearedRemoved(files, ms, |ms|);
    WriteBack(ClearedUpTo(files, ms, |ms|), files, ms)
  }

  /** The run rows' update and metadata file written over `cleared`. */
  function WriteBack(cleared: Table<string>, files: Table<string>, ms: seq<int>): (r: Table<string>)
    requires forall k :: 0 <= k < |ms| ==> ms[k] in files
    ensures r.Keys == cleared.Keys
  {
    var meta := RunMeta(files, ms);
    map t | t in cleared ::
      if t in ms then
        var i := Numbering.IndexOf(ms, t);
        WithCell(WithCell(cleared[t], UpdateColumn, Some(RunUpdate(files, ms, i))), MetaColumn, meta[i])
      else cleared[t]
  }

  /** `files['MetaDataFile'].ffill()` along the sorted timestamps. */
  function FillMetadataForward(files: Table<string>, ks: seq<int>): (r: Table<string>)
    requires forall i :: 0 <= i < |ks| ==> ks[i] in files
    ensures r.Keys == files.Keys
  {
    var meta := FFill(seq(|ks|, i requires 0 <= i < |ks| => MetaOf(files[ks[i]])));
    map t | t in files :: if t in ks then WithCell(files[t], MetaColumn, meta[Numbering.IndexOf(ks, t)]) else files[t]
  }

  /** `GroupRuns` as a whole, along the sorted timestamps `ks`. */
  function GroupRunsOf(files: Table<string>, ks: seq<int>, month: int, monthOf: int -> int): Table<string>
    requires forall i :: 0 <= i < |ks| ==> ks[i] in files
  {
    FillMetadataForward(AfterRuns(files, RunTimes(files, ks, month, monthOf)), ks)
  }

  /** In the run, two rows share their new update only when both carry
      the placeholder. */
  lemma RunUpdatesDistinct(files: Table<string>, ms: seq<int>, i: nat, j: nat)
    requires i < |ms| && j < |ms| && i != j && forall k :: 0 <= k < |ms| ==> ms[k] in files
    ensures RunUpdate(files, ms, i) == RunUpdate(files, ms, j) ==> RunUpdate(files, ms, i) == Str(Unset)
  {
  }

  /** A duplicated row takes the metadata file of the nearest earlier row
      of the run that kept one. */
  lemma DuplicateTakesEarlierMetadata(files: Table<string>, ms: seq<int>, i: nat, j: nat)
    requires j < i < |ms| && forall k :: 0 <= k < |ms| ==> ms[k] in files
    requires Duplicated(files, ms, i)
    requires !Duplicated(files, ms, j) && MetaOf(files[ms[j]]).Some?
    requires forall k :: j < k < i ==> Duplicated(files, ms, k) || MetaOf(files[ms[k]]).None?
    ensures RunMeta(files, ms)[i] == MetaOf(files[ms[j]])
  {
    var xs := KeptMeta(files, ms);
    NoneBetween(files, ms, xs, i, j);
    FFillNearest(xs, i, j);
  }

  /** Between the row that kept its metadata file and the duplicate, every
      row contributes nothing to the fill. */
  lemma NoneBetween(files: Table<string>, ms: seq<int>, xs: seq<Option<Cell>>, i: nat, j: nat)
    requires j < i < |ms| && forall k :: 0 <= k < |ms| ==> ms[k] in files
    requires |xs| == |ms| && forall k :: 0 <= k < |ms| ==> xs[k] == if Duplicated(files, ms, k) then None else MetaOf(files[ms[k]])
    requires Duplicated(files, ms, i)
    requires forall k :: j < k < i ==> Duplicated(files, ms, k) || MetaOf(files[ms[k]]).None?
    ensures forall k :: j < k <= i ==> xs[k].None?
  {
  }

  /** After `GroupRuns`, no two rows of the month's run share an update
      other than the placeholder. */
  lemma RunsLeaveDistinctUpdates(files: Table<string>, ks: seq<int>, month: int, monthOf: int -> int, t1: int, t2: int)
    requires forall i :: 0 <= i < |ks| ==> ks[i] in files
    requires t1 in ks && t2 in ks && t1 != t2
    requires InRun(files, t1, month, monthOf) && InRun(files, t2, month, monthOf)
    ensures var r := GroupRunsOf(files, ks, month, monthOf);
      t1 in r && t2 in r && (UpdateOf(r[t1]) == UpdateOf(r[t2]) ==> UpdateOf(r[t1]) == Some(Str(Unset)))
  {
    var ms := RunTimes(files, ks, month, monthOf);
    var after := AfterRuns(files, ms);
    assert t1 in ms && t2 in ms;
    RunRowUpdate(files, ms, t1);
    RunRowUpdate(files, ms, t2);
    FillForwardKeepsUpdate(after, ks, t1);
    FillForwardKeepsUpdate(after, ks, t2);
    RunUpdatesDistinct(files, ms, Numbering.IndexOf(ms, t1), Numbering.IndexOf(ms, t2));
  }

  /** A run row carries its new update after the run. */
  lemma RunRowUpdate(files: Table<string>, ms: seq<int>, t: int)
    requires forall k :: 0 <= k < |ms| ==> ms[k] in files
    requires t in ms
    ensures t in AfterRuns(files, ms)
    ensures UpdateOf(AfterRuns(files, ms)[t]) == Some(RunUpdate(files, ms, Numbering.IndexOf(ms, t)))
  {
    assert |UpdateColumn| == 6 && |MetaColumn| == 12;
  }

  /** The forward fill only touches the metadata column. */
  lemma FillForwardKeepsUpdate(files: Table<string>, ks: seq<int>, t: int)
    requires forall i :: 0 <= i < |ks| ==> ks[i] in files
    requires t in files
    ensures t in FillMetadataForward(files, ks)
    ensures UpdateOf(FillMetadataForward(files, ks)[t]) == UpdateOf(files[t])
  {
    assert |UpdateColumn| == 6 && |MetaColumn| == 12;
  }

  /** Along strictly increasing timestamps, once a row has a metadata file
      every later row has one. */
  lemma FillForwardNoGaps(files: Table<string>, ks: seq<int>, j: nat, i: nat)
    requires forall k :: 0 <= k < |ks| ==> ks[k] in files
    requires forall a, b :: 0 <= a < b < |ks| ==> ks[a] < ks[b]
    requires j <= i < |ks| && MetaOf(files[ks[j]]).Some?
    ensures ks[i] in FillMetadataForward(files, ks) && MetaOf(FillMetadataForward(files, ks)[ks[i]]).Some?
  {
    var xs := seq(|ks|, k requires 0 <= k < |ks| => MetaOf(files[ks[k]]));
    FFillNoGaps(xs, i, j);
    assert Numbering.IndexOf(ks, ks[i]) == i;
  }

  /** The loop over the directory's names: the names of the file type,
      each scanned in turn; the first that raises ends the loop. */
  method ListFiles(all: seq<string>, info: TypeInfo) returns (r: Result<seq<Listed>>)
    ensures r == Listing(all, info)
  {
    var ls: seq<Listed> := [];
    for i := 0 to |all|
      invariant Listing(all[..i], info) == Ok(ls)
    {
      assert all[..i + 1][..i] == all[..i];
      if EndsWith(all[i], info.fileType) {
        var l := ScanRecord(all[i], info);
        if l.Err? {
          ListingStops(all, info, i + 1);
          return Err(l.error);
        }
        ls := ls + [l.value];
      }
    }
    assert all[..|all|] == all;
    r := Ok(ls);
  }

  // ---------------------------------------------------------------------
  // The month's state

  /** `read_ALL`: the file inventory and the tables appended to as files are
      read, with the configured column lists. */
  class ReadAll {
    var files: Table<string>
    var dynamicMetadata: seq<Grid.Entry<string>>
    var siteSetup: seq<Grid.Entry<string>>
    var dataRecords: seq<Grid.Entry<string>>
    /** `ini['Monitor']['site_setup']`, narrowed as files are read. */
    var siteSetupColumns: seq<string>
    /** `ini['Monitor']['dynamic_metadata']`. */
    const dynamicColumns: seq<string>
    const month: int
    /** The calendar month of a timestamp. */
    const monthOf: int -> int

    constructor(dynamicColumns: seq<string>, siteSetupColumns: seq<string>, month: int, monthOf: int -> int)
      ensures this.dynamicColumns == dynamicColumns && this.siteSetupColumns == siteSetupColumns
      ensures this.month == month && this.monthOf == monthOf
      ensures files == map[] && dynamicMetadata == [] && siteSetup == [] && dataRecords == []
    {
      this.dynamicColumns := dynamicColumns;
      this.siteSetupColumns := siteSetupColumns;
      this.month := month;
      this.monthOf := monthOf;
      files := map[];
      dynamicMetadata := [];
      siteSetup := [];
      dataRecords := [];
    }

    /** `find_files`: scan the listing (`None` when the raw folder is not a
        directory, which leaves the inventory alone), rename the incomplete
        records, resample and merge. A file that raises ends the scan with
        its error and no change. With no file of the type the frame's index
        holds no timestamps, and reading its minutes raises, again with no
        change. */
    method FindFiles(listing: Option<seq<string>>, info: TypeInfo, reset: bool, saved: Option<Table<string>>)
      returns (err: Option<string>)
      modifies this`files
      ensures listing.None? ==> err.None? && files == old(files)
      ensures listing.Some? && Listing(listing.value, info).Err? ==>
        err == Some(Listing(listing.value, info).error) && files == old(files)
      ensures listing.Some? && Listing(listing.value, info).Ok? && Listing(listing.value, info).value == [] ==>
        err.Some? && files == old(files)
      ensures listing.Some? && Listing(listing.value, info).Ok? && Listing(listing.value, info).value != [] ==>
        err.None? && files == Inventory(ScanTable(Listing(listing.value, info).value), reset, saved)
    {
      if listing.None? {
        return None;
      }
      var listed := ListFiles(listing.value, info);
      if listed.Err? {
        return Some(listed.error);
      }
      var ls := listed.value;
      if ls == [] {
        return Some("AttributeError: 'Index' object has no attribute 'minute'");
      }
      var names := RenameIncomplete(ls);
      assert names == RenamedNames(ls);
      var scan := Grid.Resample(Entries(ls, names));
      files := Inventory(scan, reset, saved);
      return None;
    }

    /** `appendRecs`: a record without every dynamic column raises before
        anything changes; otherwise the configured site-setup columns are
        narrowed to the record's, the record is split among the three
        tables, and the inventory is filled from the record's log. */
    method AppendRecs(out: Output) returns (err: Option<string>)
      modifies this`dynamicMetadata, this`siteSetup, this`dataRecords, this`siteSetupColumns, this`files
      ensures (exists c :: c in dynamicColumns && c !in out.values) ==>
        err.Some? && dynamicMetadata == old(dynamicMetadata) && siteSetup == old(siteSetup)
        && dataRecords == old(dataRecords) && siteSetupColumns == old(siteSetupColumns) && files == old(files)
      ensures (forall c :: c in dynamicColumns ==> c in out.values) ==>
        && err.None?
        && siteSetupColumns == Present(old(siteSetupColumns), out.values)
        && dynamicMetadata == old(dynamicMetadata) + [(out.time, Select(out.values, dynamicColumns))]
        && siteSetup == old(siteSetup) + [(out.time, Select(out.values, siteSetupColumns))]
        && dataRecords == old(dataRecords) + [(out.time, Others(out.values, dynamicColumns + siteSetupColumns))]
        && files == RecordFile(old(files), out)
    {
      if exists c :: c in dynamicColumns && c !in out.values {
        return Some("KeyError: dynamic metadata column missing");
      }
      dynamicMetadata := dynamicMetadata + [(out.time, Select(out.values, dynamicColumns))];
      siteSetupColumns := Present(siteSetupColumns, out.values);
      siteSetup := siteSetup + [(out.time, Select(out.values, siteSetupColumns))];
      dataRecords := dataRecords + [(out.time, Others(out.values, dynamicColumns + siteSetupColumns))];
      files := RecordFile(files, out);
      return None;
    }

    /** `GroupCommon`: number the distinct site set-ups in first-seen order,
        write each row's number into the inventory at its timestamp and keep
        the first row of each set-up. Grouping by a column the frame lacks
        raises after `temp_ID` and the zero fill; a timestamp missing from
        the inventory, or one that occurs twice, raises once the numbers
        are in place. */
    method GroupCommon() returns (err: Option<string>)
      modifies this`siteSetup, this`files
      ensures var keyCols := KeyColumns(siteSetupColumns);
        !Groupable(old(siteSetup), keyCols) ==>
          err.Some? && files == old(files) && siteSetup == PreparedAll(old(siteSetup))
      ensures var keyCols := KeyColumns(siteSetupColumns);
        Groupable(old(siteSetup), keyCols)
        && !Assignable(old(siteSetup), old(files)) ==>
          err.Some? && files == old(files) && siteSetup == Labelled(old(siteSetup), keyCols)
      ensures var keyCols := KeyColumns(siteSetupColumns);
        Groupable(old(siteSetup), keyCols)
        && Assignable(old(siteSetup), old(files)) ==>
          && err.None?
          && files == AssignIds(old(files), Times(old(siteSetup)), SetupIds(old(siteSetup), keyCols))
          && siteSetup == DropDuplicateRows(Labelled(old(siteSetup), keyCols))
    {
      var ss := siteSetup;
      var keyCols := KeyColumns(siteSetupColumns);
      if !Groupable(ss, keyCols) {
        siteSetup := PreparedAll(ss);
        return Some("KeyError: site setup column missing");
      }
      var ids := NumberSetups(ss, keyCols);
      siteSetup := Labelled(ss, keyCols);
      if !Assignable(ss, files) {
        return Some("KeyError: set-up timestamp not in the inventory");
      }
      files := AssignIds(files, Times(ss), ids);
      siteSetup := DropDuplicateRows(siteSetup);
      return None;
    }

    /** `GroupRuns`: within the month, a row whose update repeats an earlier
        one loses its metadata file (and the file is dropped wherever it is
        named), the run's updates and metadata files are written back, and
        the metadata file is filled forward over the whole inventory. */
    method GroupRuns()
      modifies this`files
      ensures files == GroupRunsOf(old(files), Sorted(old(files).Keys), month, monthOf)
    {
      var ks := SortedTimes(files.Keys);
      files := RegroupRuns(files, ks, month, monthOf);
    }
  }

  /** A scan that has failed on a prefix fails with the same error. */
  lemma {:induction false} ListingStops(files: seq<string>, info: TypeInfo, i: nat)
    requires i <= |files| && Listing(files[..i], info).Err?
    ensures Listing(files, info) == Listing(files[..i], info)
    decreases |files| - i
  {
    if i < |files| {
      assert files[..i + 1][..i] == files[..i];
      ListingStops(files, info, i + 1);
    } else {
      assert files[..i] == files;
    }
  }
}
