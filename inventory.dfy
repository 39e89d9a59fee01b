/** The file inventory scan of `eddyProAPI.searchRawDir`: which files of each
    listed directory are looked at, the rows their records become, and the
    half-hourly grid the inventory is put on afterwards. The per-file search
    is a parameter: the scan calls it `batchProcessing.findFiles`, which that
    module does not define, and `ScanAsWritten` models that call. */
module Inventory {
  import opened Text
  import opened Tables
  import Grid
  import Filters
  import BatchProcessing

  /** `os.path.basename`: the text after the last `/` or `\`. */
  function Basename(p: string): (b: string)
    ensures '/' !in b && '\\' !in b
    ensures EndsWith(p, b)
    decreases |p|
  {
    if p == [] || Last(p) == '/' || Last(p) == '\\' then []
    else
      var b := Basename(p[..|p| - 1]);
      assert p == p[..|p| - 1] + [Last(p)];
      b + [Last(p)]
  }

  /** The basenames of the `source` cells of the frame's rows inside the
      date range: the files already processed. */
  function KnownSources(frame: seq<Grid.Entry<string>>, lo: int, hi: int): set<string> {
    set j | 0 <= j < |frame| && Within(frame[j].0, lo, hi) && "source" in frame[j].1 && frame[j].1["source"].Str?
      :: Basename(frame[j].1["source"].s)
  }

  /** `[f for f in fileList if f not in source_names]`. */
  function Fresh(files: seq<string>, known: set<string>): (r: seq<string>)
    ensures forall f :: f in r <==> f in files && f !in known
    ensures |r| <= |files|
    decreases |files|
  {
    if files == [] then []
    else
      var r := Fresh(files[..|files| - 1], known);
      assert files == files[..|files| - 1] + [Last(files)];
      if Last(files) in known then r else r + [Last(files)]
  }

  /** The row a found file adds: its source, output name and prototype, with
      the flag column set to the NaN tag. */
  function RecordRow(rec: BatchProcessing.FileRecord): (row: Row<string>)
    ensures row.Keys == {"source", "filename", "file_prototype", Filters.FlagColumn}
  {
    map["source" := Str(rec.source), "filename" := Str(rec.outName),
        "file_prototype" := Str(rec.prototype), Filters.FlagColumn := Str(NanTag)]
  }

  /** The per-file search, for one directory, called with the file name and
      the directory. The scan calls it `batchProcessing.findFiles`, which
      that module does not define; its record
      `[TIMESTAMP, source, outName, file_prototype]` is the one
      `copy_and_check_files` returns (`BatchProcessing.CopyAndCheck`). `None`
      stands for the empty record, whose missing file name drops the row. */
  type Finder = (string, string) -> Option<BatchProcessing.FileRecord>

  /** The rows the files of one directory listing add, in listing order. */
  function Found(dir: string, files: seq<string>, find: Finder): (es: seq<Grid.Entry<string>>)
    ensures |es| <= |files|
    ensures forall j :: 0 <= j < |es| ==> FoundIn(dir, files, find, es[j])
    decreases |files|
  {
    if files == [] then []
    else
      var n := |files| - 1;
      var es := Found(dir, files[..n], find);
      FoundInPrefix(dir, files, n, find, es);
      match find(files[n], dir)
      case None => es
      case Some(rec) =>
        assert FoundIn(dir, files, find, (rec.timestamp, RecordRow(rec))) by {
          assert find(files[n], dir).Some? && find(files[n], dir).value == rec;
        }
        es + [(rec.timestamp, RecordRow(rec))]
  }

  /** Whether `e` is the row of some file of the listing. */
  ghost predicate FoundIn(dir: string, files: seq<string>, find: Finder, e: Grid.Entry<string>) {
    exists i :: 0 <= i < |files| && find(files[i], dir).Some?
      && e == (find(files[i], dir).value.timestamp, RecordRow(find(files[i], dir).value))
  }

  lemma FoundInPrefix(dir: string, files: seq<string>, n: int, find: Finder, es: seq<Grid.Entry<string>>)
    requires 0 <= n <= |files|
    requires forall j :: 0 <= j < |es| ==> FoundIn(dir, files[..n], find, es[j])
    ensures forall j :: 0 <= j < |es| ==> FoundIn(dir, files, find, es[j])
  {
    forall j | 0 <= j < |es| ensures FoundIn(dir, files, find, es[j]) {
      var i :| 0 <= i < n && find(files[..n][i], dir).Some?
        && es[j] == (find(files[..n][i], dir).value.timestamp, RecordRow(find(files[..n][i], dir).value));
      assert files[..n][i] == files[i];
    }
  }

  /** The frame after scanning the listings `(directory, files)` in order;
      each listing sees the rows earlier listings added. */
  function Scan(frame: seq<Grid.Entry<string>>, listings: seq<(string, seq<string>)>,
                find: Finder, lo: int, hi: int): (r: seq<Grid.Entry<string>>)
    ensures |frame| <= |r| && r[..|frame|] == frame
    decreases |listings|
  {
    if listings == [] then frame
    else
      var (dir, files) := listings[0];
      var next := frame + Found(dir, Fresh(files, KnownSources(frame, lo, hi)), find);
      var r := Scan(next, listings[1..], find, lo, hi);
      assert r[..|next|][..|frame|] == r[..|frame|];
      r
  }

  /** The saved inventory as a frame, in time order. */
  function InitialFrame(inv: Table<string>): (es: seq<Grid.Entry<string>>)
    ensures |es| == |inv|
    ensures forall j :: 0 <= j < |es| ==> es[j].0 in inv && es[j].1 == inv[es[j].0]
    ensures forall i, j :: 0 <= i < j < |es| ==> es[i].0 < es[j].0
  {
    Rows(Sorted(inv.Keys), inv)
  }

  /** The rows of `inv` at the timestamps `ks`, in that order. */
  function Rows(ks: seq<int>, inv: Table<string>): (es: seq<Grid.Entry<string>>)
    requires forall j :: 0 <= j < |ks| ==> ks[j] in inv
    ensures |es| == |ks|
    ensures forall j :: 0 <= j < |es| ==> es[j] == (ks[j], inv[ks[j]])
  {
    seq(|ks|, j requires 0 <= j < |ks| => (ks[j], inv[ks[j]]))
  }

  /** Every saved row is in the frame. */
  lemma InitialFrameCovers(inv: Table<string>, t: int) returns (j: nat)
    requires t in inv
    ensures j < |InitialFrame(inv)| && InitialFrame(inv)[j] == (t, inv[t])
  {
    var ks := Sorted(inv.Keys);
    assert t in ks;
    j :| 0 <= j < |ks| && ks[j] == t;
  }

  /** `groupID` read back as an integer: the NaN tag becomes `intNaN`. */
  function GroupIdCell(c: Cell): (r: Result<Cell>)
    ensures r.Ok? ==> r.value.Int?
    ensures c == Str(NanTag) ==> r == Ok(Int(IntNaN))
    ensures c.Int? ==> r == Ok(c)
  {
    match c
    case Int(_) => Ok(c)
    case Stat(x) => Ok(Int(if x >= 0.0 then x.Floor else -((-x).Floor)))
    case Str(s) =>
      if s == NanTag then Ok(Int(IntNaN))
      else match ParseNat(s)
        case None => Err("ValueError: invalid literal for int(): " + s)
        case Some(n) => Ok(Int(n))
  }

  /** Whether every `groupID` cell of the table converts. */
  predicate GroupIdsConvert(t: Table<string>) {
    forall ts :: ts in t && Filters.GroupIdColumn in t[ts] ==> GroupIdCell(t[ts][Filters.GroupIdColumn]).Ok?
  }

  /** `groupID` replaced and cast to integers, every other cell kept. */
  function GroupIdsToInt(t: Table<string>): (r: Table<string>)
    requires GroupIdsConvert(t)
    ensures r.Keys == t.Keys
    ensures forall ts :: ts in t ==> r[ts].Keys == t[ts].Keys
    ensures forall ts, c :: ts in t && c in t[ts] && c != Filters.GroupIdColumn ==> r[ts][c] == t[ts][c]
    ensures forall ts :: ts in t && Filters.GroupIdColumn in t[ts] ==>
      r[ts][Filters.GroupIdColumn] == GroupIdCell(t[ts][Filters.GroupIdColumn]).value
  {
    map ts | ts in t ::
      if Filters.GroupIdColumn in t[ts]
      then t[ts][Filters.GroupIdColumn := GroupIdCell(t[ts][Filters.GroupIdColumn]).value]
      else t[ts]
  }

  /** The end of the scan: quit with "No Data Found" on an empty frame;
      otherwise resample to the half-hour grid keeping the first value per
      slot, fill every missing cell with the NaN tag, and read `groupID` back
      as integers. */
  function Finish(frame: seq<Grid.Entry<string>>): (r: Result<Table<string>>)
    ensures r.Err? <==> frame == [] || !GroupIdsConvert(Filled(frame))
  {
    if frame == [] then Err("No Data Found")
    else if !GroupIdsConvert(Filled(frame)) then Err("ValueError: groupID")
    else Ok(GroupIdsToInt(Filled(frame)))
  }

  function Filled(frame: seq<Grid.Entry<string>>): Table<string> {
    FillMissing(Grid.Resample(frame), Grid.Columns(frame), Str(NanTag))
  }

  /** One listing of the scan. */
  lemma ScanStep(frame: seq<Grid.Entry<string>>, listings: seq<(string, seq<string>)>, i: int,
                 find: Finder, lo: int, hi: int)
    requires 0 <= i < |listings|
    ensures Scan(frame, listings[i..], find, lo, hi)
         == Scan(frame + Found(listings[i].0, Fresh(listings[i].1, KnownSources(frame, lo, hi)), find),
                 listings[i + 1..], find, lo, hi)
  {
    assert listings[i..][0] == listings[i];
    assert listings[i..][1..] == listings[i + 1..];
  }

  /** What `searchRawDir` leaves in the inventory. */
  function SearchResult(inv: Table<string>, listings: seq<(string, seq<string>)>,
                        find: Finder, lo: int, hi: int): Result<Table<string>>
  {
    Finish(Scan(InitialFrame(inv), listings, find, lo, hi))
  }

  // ---------------------------------------------------------------------------
  // The scan as written

  /** `batchProcessing` defines no `findFiles`, so the call the scan makes
      for a directory with new files raises. */
  const NoFindFiles := "AttributeError: module 'batchProcessing' has no attribute 'findFiles'"

  /** The scan as written: the first listing with a file not yet known
      raises; listings without one add nothing. */
  function ScanAsWritten(frame: seq<Grid.Entry<string>>, listings: seq<(string, seq<string>)>,
                         lo: int, hi: int): (r: Result<seq<Grid.Entry<string>>>)
    ensures r.Err? ==> r.error == NoFindFiles
    decreases |listings|
  {
    if listings == [] then Ok(frame)
    else if Fresh(listings[0].1, KnownSources(frame, lo, hi)) != [] then Err(NoFindFiles)
    else ScanAsWritten(frame, listings[1..], lo, hi)
  }

  /** `searchRawDir` as written. */
  function SearchAsWritten(inv: Table<string>, listings: seq<(string, seq<string>)>, lo: int, hi: int)
    : Result<Table<string>>
  {
    match ScanAsWritten(InitialFrame(inv), listings, lo, hi)
    case Err(e) => Err(e)
    case Ok(frame) => Finish(frame)
  }

  /** Some listing holds a file that is not yet a known source. */
  ghost predicate AnyFresh(frame: seq<Grid.Entry<string>>, listings: seq<(string, seq<string>)>, lo: int, hi: int) {
    exists i :: 0 <= i < |listings| && Fresh(listings[i].1, KnownSources(frame, lo, hi)) != []
  }

  /** As written, the scan raises exactly when some listing has a new file;
      otherwise it leaves the frame as it was, as the corrected scan with
      any per-file search does. */
  lemma {:induction false} ScanAsWrittenAgrees(frame: seq<Grid.Entry<string>>, listings: seq<(string, seq<string>)>,
                                               find: Finder, lo: int, hi: int)
    ensures ScanAsWritten(frame, listings, lo, hi).Err? <==> AnyFresh(frame, listings, lo, hi)
    ensures ScanAsWritten(frame, listings, lo, hi).Ok? ==>
      ScanAsWritten(frame, listings, lo, hi).value == frame && Scan(frame, listings, find, lo, hi) == frame
    decreases |listings|
  {
    if listings == [] {
    } else if Fresh(listings[0].1, KnownSources(frame, lo, hi)) != [] {
      assert AnyFresh(frame, listings, lo, hi);
    } else {
      ScanAsWrittenAgrees(frame, listings[1..], find, lo, hi);
      assert frame + Found(listings[0].0, [], find) == frame;
      if AnyFresh(frame, listings, lo, hi) {
        var i :| 0 <= i < |listings| && Fresh(listings[i].1, KnownSources(frame, lo, hi)) != [];
        assert listings[1..][i - 1] == listings[i];
      }
      if AnyFresh(frame, listings[1..], lo, hi) {
        var i :| 0 <= i < |listings[1..]| && Fresh(listings[1..][i].1, KnownSources(frame, lo, hi)) != [];
        assert listings[i + 1] == listings[1..][i];
      }
    }
  }

  /** As written, `searchRawDir` raises whenever a listing has a new file,
      and otherwise ends as the corrected search does without finding
      anything. */
  lemma SearchAsWrittenAgrees(inv: Table<string>, listings: seq<(string, seq<string>)>, find: Finder, lo: int, hi: int)
    ensures SearchAsWritten(inv, listings, lo, hi)
         == (if AnyFresh(InitialFrame(inv), listings, lo, hi) then Err(NoFindFiles)
             else SearchResult(inv, listings, find, lo, hi))
  {
    var frame := InitialFrame(inv);
    ScanAsWrittenAgrees(frame, listings, find, lo, hi);
    if !AnyFresh(frame, listings, lo, hi) {
      assert ScanAsWritten(frame, listings, lo, hi) == Ok(frame);
      assert SearchResult(inv, listings, find, lo, hi) == Finish(frame);
    }
  }

  /** On an empty inventory, one directory holding one file that the search
      accepts: as written the scan raises, while the corrected scan adds the
      file's row. */
  lemma NewFileRaises(dir: string, f: string, find: Finder, lo: int, hi: int)
    requires find(f, dir).Some?
    ensures SearchAsWritten(map[], [(dir, [f])], lo, hi) == Err(NoFindFiles)
    ensures Scan(InitialFrame(map[]), [(dir, [f])], find, lo, hi)
         == [(find(f, dir).value.timestamp, RecordRow(find(f, dir).value))]
  {
    var init := InitialFrame(map[]);
    assert init == [];
    assert KnownSources(init, lo, hi) == {};
    var kept := Fresh([f], {});
    assert f in kept;
    assert kept == [f];
    assert [f][..0] == [];
  }

  // ---------------------------------------------------------------------------
  // Properties

  /** A file whose basename is already a source inside the date range is not
      searched again; every other file of the listing is, in order. */
  lemma FreshSkipsKnown(frame: seq<Grid.Entry<string>>, files: seq<string>, lo: int, hi: int, j: int)
    requires 0 <= j < |frame| && Within(frame[j].0, lo, hi)
    requires "source" in frame[j].1 && frame[j].1["source"].Str?
    ensures Basename(frame[j].1["source"].s) !in Fresh(files, KnownSources(frame, lo, hi))
  {
    assert Basename(frame[j].1["source"].s) in KnownSources(frame, lo, hi);
  }

  /** The scanned inventory lies on the half-hour grid without gaps between
      its first and last slot, every row has every column, no cell is
      missing, and every `groupID` is an integer. */
  lemma {:induction false} FinishOnGrid(frame: seq<Grid.Entry<string>>)
    requires Finish(frame).Ok?
    ensures forall s :: s in Finish(frame).value <==> Grid.InSpan(frame, s)
    ensures forall ts :: ts in Finish(frame).value ==> Finish(frame).value[ts].Keys == Grid.Columns(frame)
    ensures forall ts :: ts in Finish(frame).value && Filters.GroupIdColumn in Finish(frame).value[ts] ==>
      Finish(frame).value[ts][Filters.GroupIdColumn].Int?
  {
    var t := Grid.Resample(frame);
    Grid.ResampleRows(frame);
    forall s | s in t ensures t[s].Keys <= Grid.Columns(frame) {
      forall c | c in t[s] ensures c in Grid.Columns(frame) {
        var j := Grid.Chosen(frame, s, c).value;
        assert c in frame[j].1;
      }
    }
  }

  /** A saved row is never displaced by a rescanned file of the same
      timestamp: the saved frame comes first and `first()` keeps it. */
  lemma SavedRowWins(inv: Table<string>, listings: seq<(string, seq<string>)>,
                     find: Finder, lo: int, hi: int, t: int, c: string)
    requires t in inv && t % Grid.SlotWidth == 0 && c in inv[t]
    ensures var frame := Scan(InitialFrame(inv), listings, find, lo, hi);
      Grid.Chosen(frame, t, c).Some? && frame[Grid.Chosen(frame, t, c).value].0 == t
      && Grid.Chosen(frame, t, c).value < |inv|
  {
    var init := InitialFrame(inv);
    var frame := Scan(init, listings, find, lo, hi);
    var j := InitialFrameCovers(inv, t);
    assert frame[j] == init[j];
    Grid.SlotUnique(t, t);
    assert Grid.Offers(frame[j], t, c);
    var k := Grid.Chosen(frame, t, c).value;
    assert frame[k].0 <= t;
    assert Grid.Slot(frame[k].0) == t;
    assert frame[k].0 == t;
    assert k <= j;
  }
}
