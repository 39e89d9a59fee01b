/** The run planner (setupEP.py, `makeRun`): the inventory rows with a
    metadata file, the inclusive date range, and the split of each metadata
    file's timestamps into one EddyPro run per thread. */
module SetupEP {
  import opened Text
  import opened Tables
  import PreProcessing
  import Numbering
  import SubPaths

  const MetaColumn := PreProcessing.MetaColumn
  const Unset := PreProcessing.Unset

  /** A row that names a metadata file: after `fillna('-')`, anything but
      the placeholder. */
  predicate HasMetadataFile(row: Row<string>) {
    MetaColumn in row && row[MetaColumn] != Str(Unset)
  }

  /** The inventory kept by the constructor. */
  function RunInventory(inv: Table<string>): (r: Table<string>)
    ensures forall t :: t in r <==> t in inv && HasMetadataFile(inv[t])
    ensures forall t :: t in r ==> r[t] == inv[t]
  {
    map t | t in inv && HasMetadataFile(inv[t]) :: inv[t]
  }

  /** The metadata file of a row (`None` for `NaN`). */
  function MetaOf(row: Row<string>): Option<Cell> {
    PreProcessing.MetaOf(row)
  }

  /** The column `MetaDataFile` along the timestamps `ks`. */
  function MetaFiles(sub: Table<string>, ks: seq<int>): (ms: seq<Option<Cell>>)
    requires forall i :: 0 <= i < |ks| ==> ks[i] in sub
    ensures |ms| == |ks|
  {
    seq(|ks|, i requires 0 <= i < |ks| => MetaOf(sub[ks[i]]))
  }

  /** `unique()`: the distinct values in the order they first appear. */
  function UniqueInOrder(xs: seq<Option<Cell>>): (u: seq<Option<Cell>>)
    ensures forall x :: x in u <==> x in xs
    ensures forall i, j :: 0 <= i < j < |u| ==> u[i] != u[j]
    decreases |xs|
  {
    if xs == [] then []
    else
      var n := |xs| - 1;
      var u := UniqueInOrder(xs[..n]);
      assert xs == xs[..n] + [xs[n]];
      if xs[n] in u then u else u + [xs[n]]
  }

  /** The distinct values listed in order are exactly the values numbered
      in first-seen order: the value at position `j` was numbered `j`. */
  lemma {:induction false} UniqueNumbering(xs: seq<Option<Cell>>)
    ensures |UniqueInOrder(xs)| == |Numbering.Numbering(xs)|
    ensures forall j :: 0 <= j < |UniqueInOrder(xs)| ==>
      UniqueInOrder(xs)[j] in Numbering.Numbering(xs) && Numbering.Numbering(xs)[UniqueInOrder(xs)[j]] == j
    decreases |xs|
  {
    if xs != [] {
      var n := |xs| - 1;
      var init := xs[..n];
      UniqueNumbering(init);
      Numbering.NumberingMembers(init, xs[n]);
      var u, m := UniqueInOrder(init), Numbering.Numbering(init);
      assert xs[n] in u <==> xs[n] in m;
      if xs[n] !in m {
        assert |m[xs[n] := |m|]| == |m| + 1;
      }
    }
  }

  /** `Range_index` for one metadata file: its timestamps, in index order. */
  function GroupIndex(sub: Table<string>, ks: seq<int>, f: Option<Cell>): (g: seq<int>)
    requires forall i :: 0 <= i < |ks| ==> ks[i] in sub
    ensures forall t :: t in g <==> t in ks && MetaOf(sub[t]) == f
    ensures forall i :: 0 <= i < |g| ==> g[i] in sub
    decreases |ks|
  {
    if ks == [] then []
    else
      var n := |ks| - 1;
      var g := GroupIndex(sub, ks[..n], f);
      assert ks == ks[..n] + [ks[n]];
      if MetaOf(sub[ks[n]]) == f then g + [ks[n]] else g
  }

  predicate Increasing(xs: seq<int>) {
    forall i, j :: 0 <= i < j < |xs| ==> xs[i] < xs[j]
  }

  /** A group of an increasing index is increasing. */
  lemma {:induction false} GroupIndexSorted(sub: Table<string>, ks: seq<int>, f: Option<Cell>)
    requires forall i :: 0 <= i < |ks| ==> ks[i] in sub
    requires Increasing(ks)
    ensures Increasing(GroupIndex(sub, ks, f))
    decreases |ks|
  {
    if ks != [] {
      var n := |ks| - 1;
      var init := ks[..n];
      assert Increasing(init);
      GroupIndexSorted(sub, init, f);
      var g := GroupIndex(sub, init, f);
      if MetaOf(sub[ks[n]]) == f {
        forall i | 0 <= i < |g| ensures g[i] < ks[n] {
          BelowLast(ks, g[i]);
        }
        AppendIncreasing(g, ks[n]);
      }
    }
  }

  /** An element of an increasing sequence's prefix is below its last one. */
  lemma BelowLast(ks: seq<int>, t: int)
    requires ks != [] && Increasing(ks) && t in ks[..|ks| - 1]
    ensures t < ks[|ks| - 1]
  {
    var k :| 0 <= k < |ks| - 1 && ks[..|ks| - 1][k] == t;
  }

  /** Appending a larger element keeps a sequence increasing. */
  lemma AppendIncreasing(g: seq<int>, x: int)
    requires Increasing(g) && forall i :: 0 <= i < |g| ==> g[i] < x
    ensures Increasing(g + [x])
  {
  }

  // ---------------------------------------------------------------------
  // Slicing one group between the threads

  /** `np.floor(size / threads)`, for a positive thread count. */
  function Step(size: nat, threads: nat): nat
    requires threads >= 1
  {
    size / threads
  }

  /** Slice `i` of `size` timestamps: `[i*step, i*step+step)`, and the last
      one runs to the end. */
  function SliceStart(size: nat, threads: nat, i: nat): nat
    requires threads >= 1
  {
    i * Step(size, threads)
  }

  function SliceEnd(size: nat, threads: nat, i: nat): nat
    requires threads >= 1
  {
    if i < threads - 1 then i * Step(size, threads) + Step(size, threads) else size
  }

  /** Every slice lies inside the group, and starts no later than it
      ends. */
  lemma SliceBounds(size: nat, threads: nat, i: nat)
    requires threads >= 1 && i < threads
    ensures SliceStart(size, threads, i) <= SliceEnd(size, threads, i) <= size
  {
    var step := Step(size, threads);
    assert step * threads <= size;
    assert i * step <= (threads - 1) * step by {
      MulLeft(i, threads - 1, step);
    }
    assert (threads - 1) * step + step == threads * step;
    if i < threads - 1 {
      MulLeft(i + 1, threads - 1, step);
    }
  }

  lemma MulLeft(a: nat, b: nat, c: nat)
    requires a <= b
    ensures a * c <= b * c
  {
  }

  /** Each slice ends where the next begins; the first begins at 0 and the
      last ends at the group's size. */
  lemma SlicesContiguous(size: nat, threads: nat, i: nat)
    requires threads >= 1 && i + 1 < threads
    ensures SliceEnd(size, threads, i) == SliceStart(size, threads, i + 1)
    ensures SliceStart(size, threads, 0) == 0 && SliceEnd(size, threads, threads - 1) == size
  {
  }

  /** The slice holding position `p`. */
  function SliceOf(size: nat, threads: nat, p: nat): (i: nat)
    requires threads >= 1
    ensures i < threads
  {
    var step := Step(size, threads);
    if step == 0 || p / step >= threads - 1 then threads - 1 else p / step
  }

  /** `i*step <= p` exactly when `p / step >= i`. */
  lemma DivLower(p: nat, step: nat, i: nat)
    requires step > 0
    ensures i * step <= p <==> p / step >= i
  {
    var q := p / step;
    assert q * step <= p < q * step + step;
    if q >= i {
      MulLeft(i, q, step);
    } else {
      MulLeft(q + 1, i, step);
    }
  }

  /** The slices partition the group: position `p` lies in slice `i`
      exactly when `i` is its slice, so no position is in two slices and
      every position is in one. */
  lemma SlicesPartition(size: nat, threads: nat, p: nat, i: nat)
    requires threads >= 1 && p < size && i < threads
    ensures SliceStart(size, threads, i) <= p < SliceEnd(size, threads, i) <==> i == SliceOf(size, threads, p)
  {
    var step := Step(size, threads);
    if step > 0 {
      DivLower(p, step, i);
      DivLower(p, step, i + 1);
      assert (i + 1) * step == i * step + step;
    }
  }

  /** A slice is empty exactly when it is not the last and the group has
      fewer timestamps than there are threads (the last one is empty only
      for an empty group). */
  lemma SliceEmpty(size: nat, threads: nat, i: nat)
    requires threads >= 1 && i < threads
    ensures SliceStart(size, threads, i) == SliceEnd(size, threads, i) <==>
      (i < threads - 1 && size < threads) || (i == threads - 1 && size == 0)
  {
    var step := Step(size, threads);
    if i == threads - 1 && size > 0 && step > 0 {
      assert step * threads <= size && size - step * threads < threads;
      assert (threads - 1) * step + step == threads * step;
    }
    if i < threads - 1 && size >= threads {
      assert step >= 1;
    }
  }

  // ---------------------------------------------------------------------
  // Naming the runs

  /** The settings of one call of `runDates`: the run name, the number of
      threads, `strftime('%Y-%m-%dT%H%M00')` and the batch directory. */
  datatype RunSettings = RunSettings(name: string, threads: int, render: int -> string, batchPath: string)

  /** `{name}_{start}_{end}`. */
  function ProjectId(name: string, start: string, end: string): (r: string)
    ensures StartsWith(r, name + "_") && EndsWith(r, "_" + end)
  {
    name + "_" + start + "_" + end
  }

  /** `{batch_path}{project_id}.eddypro`, named after the run's first and
      last timestamps. */
  function RunFile(st: RunSettings, run: seq<int>): string
    requires |run| > 0
  {
    st.batchPath + ProjectId(st.name, st.render(run[0]), st.render(run[|run| - 1])) + ".eddypro"
  }

  const EmptySlice := "IndexError: index 0 is out of bounds for axis 0 with size 0"
  const NoThreads := "ZeroDivisionError: division by zero"

  /** The run files of the first `n` slices of one group; an empty slice
      raises at `run_ix[0]`. */
  function SliceRuns(group: seq<int>, st: RunSettings, n: nat): (r: Result<seq<string>>)
    requires st.threads >= 1 && n <= st.threads
    decreases n
  {
    if n == 0 then Ok([])
    else match SliceRuns(group, st, n - 1)
      case Err(e) => Err(e)
      case Ok(rs) =>
        var a, b := SliceStart(|group|, st.threads, n - 1), SliceEnd(|group|, st.threads, n - 1);
        SliceBounds(|group|, st.threads, n - 1);
        if a == b then Err(EmptySlice) else Ok(rs + [RunFile(st, group[a..b])])
  }

  /** The run files of one group: none for a negative thread count, an
      error for none at all. */
  function GroupRuns(group: seq<int>, st: RunSettings): Result<seq<string>> {
    if st.threads == 0 then Err(NoThreads)
    else if st.threads < 0 then Ok([])
    else SliceRuns(group, st, st.threads)
  }

  /** `runList` after the first `n` metadata files. */
  function RunList(sub: Table<string>, ks: seq<int>, files: seq<Option<Cell>>, st: RunSettings, n: nat)
    : Result<seq<string>>
    requires forall i :: 0 <= i < |ks| ==> ks[i] in sub
    requires n <= |files|
    decreases n
  {
    if n == 0 then Ok([])
    else match RunList(sub, ks, files, st, n - 1)
      case Err(e) => Err(e)
      case Ok(rs) =>
        match GroupRuns(GroupIndex(sub, ks, files[n - 1]), st)
        case Err(e) => Err(e)
        case Ok(more) => Ok(rs + more)
  }

  /** `runDates` over the rows of the range, listed along `ks`. */
  function RunsOver(sub: Table<string>, ks: seq<int>, st: RunSettings): Result<seq<string>>
    requires forall i :: 0 <= i < |ks| ==> ks[i] in sub
  {
    var files := UniqueInOrder(MetaFiles(sub, ks));
    RunList(sub, ks, files, st, |files|)
  }

  /** `runDates` on an inventory and an inclusive date range. */
  function RunDatesOf(inv: Table<string>, start: int, end: int, st: RunSettings): Result<seq<string>> {
    var sub := Between(inv, start, end);
    RunsOver(sub, Sorted(sub.Keys), st)
  }

  // ---------------------------------------------------------------------
  // What the plan promises

  /** With at least one thread, the slices give runs exactly when none of
      them is empty. */
  lemma {:induction false} SliceRunsOk(group: seq<int>, st: RunSettings, n: nat)
    requires st.threads >= 1 && n <= st.threads
    ensures SliceRuns(group, st, n).Ok? <==>
      forall i :: 0 <= i < n ==> SliceStart(|group|, st.threads, i) < SliceEnd(|group|, st.threads, i)
    decreases n
  {
    if n > 0 {
      SliceRunsOk(group, st, n - 1);
      SliceBounds(|group|, st.threads, n - 1);
      var prev := SliceRuns(group, st, n - 1);
      if prev.Err? {
        assert SliceRuns(group, st, n) == prev;
        var i :| 0 <= i < n - 1 && !(SliceStart(|group|, st.threads, i) < SliceEnd(|group|, st.threads, i));
      } else if SliceStart(|group|, st.threads, n - 1) == SliceEnd(|group|, st.threads, n - 1) {
        assert SliceRuns(group, st, n).Err?;
      } else {
        assert SliceRuns(group, st, n).Ok?;
        forall i | 0 <= i < n ensures SliceStart(|group|, st.threads, i) < SliceEnd(|group|, st.threads, i) {
          if i < n - 1 {
          }
        }
      }
    }
  }

  /** Then there is one run per thread, each named after the first and last
      timestamps of its slice. */
  lemma {:induction false} SliceRunsNamed(group: seq<int>, st: RunSettings, n: nat)
    requires st.threads >= 1 && n <= st.threads && SliceRuns(group, st, n).Ok?
    ensures var rs := SliceRuns(group, st, n).value;
      |rs| == n && forall i :: 0 <= i < n ==>
        SliceStart(|group|, st.threads, i) < SliceEnd(|group|, st.threads, i) <= |group|
        && rs[i] == RunFile(st, group[SliceStart(|group|, st.threads, i)..SliceEnd(|group|, st.threads, i)])
    decreases n
  {
    if n > 0 {
      var prev := SliceRuns(group, st, n - 1);
      assert prev.Ok?;
      SliceRunsNamed(group, st, n - 1);
      SliceBounds(|group|, st.threads, n - 1);
      var a, b := SliceStart(|group|, st.threads, n - 1), SliceEnd(|group|, st.threads, n - 1);
      var rs := prev.value + [RunFile(st, group[a..b])];
      assert SliceRuns(group, st, n) == Ok(rs);
      forall i | 0 <= i < n - 1 ensures rs[i] == prev.value[i] {
      }
    }
  }

  /** A group runs without error exactly when it has one thread, or at
      least as many timestamps as threads. */
  lemma GroupRunsSucceed(group: seq<int>, st: RunSettings)
    requires st.threads >= 1 && |group| >= 1
    ensures GroupRuns(group, st).Ok? <==> st.threads == 1 || |group| >= st.threads
    ensures GroupRuns(group, st).Ok? ==> |GroupRuns(group, st).value| == st.threads
  {
    SliceRunsOk(group, st, st.threads);
    if GroupRuns(group, st).Err? {
      var i :| 0 <= i < st.threads && !(SliceStart(|group|, st.threads, i) < SliceEnd(|group|, st.threads, i));
      SliceBounds(|group|, st.threads, i);
      SliceEmpty(|group|, st.threads, i);
    } else {
      SliceRunsNamed(group, st, st.threads);
      if st.threads > 1 {
        SliceEmpty(|group|, st.threads, 0);
      }
    }
  }

  /** The slices of a sorted group are sorted, so a run's file is named
      after its earliest and latest timestamps. */
  lemma RunNamedByExtremes(group: seq<int>, a: nat, b: nat)
    requires a < b <= |group| && Increasing(group)
    ensures forall t :: t in group[a..b] ==> group[a] <= t <= group[b - 1]
  {
    assert forall t :: t in group[a..b] ==> exists k :: a <= k < b && group[k] == t;
  }

  /** Once a metadata file fails, the whole plan fails with its error. */
  lemma {:induction false} RunListFails(sub: Table<string>, ks: seq<int>, files: seq<Option<Cell>>, st: RunSettings,
                                        n: nat, m: nat)
    requires forall i :: 0 <= i < |ks| ==> ks[i] in sub
    requires n <= m <= |files| && RunList(sub, ks, files, st, n).Err?
    ensures RunList(sub, ks, files, st, m) == RunList(sub, ks, files, st, n)
    decreases m
  {
    if m > n {
      RunListFails(sub, ks, files, st, n, m - 1);
    }
  }

  /** Likewise for the slices of one group. */
  lemma {:induction false} SliceRunsFail(group: seq<int>, st: RunSettings, n: nat, m: nat)
    requires st.threads >= 1 && n <= m <= st.threads && SliceRuns(group, st, n).Err?
    ensures SliceRuns(group, st, m) == SliceRuns(group, st, n)
    decreases m
  {
    if m > n {
      SliceRunsFail(group, st, n, m - 1);
    }
  }

  /** Every run of the plan comes from exactly one metadata file, each file
      in range contributing its runs in turn: the plan for `n + 1` files
      extends the plan for `n`. */
  lemma RunListExtends(sub: Table<string>, ks: seq<int>, files: seq<Option<Cell>>, st: RunSettings, n: nat)
    requires forall i :: 0 <= i < |ks| ==> ks[i] in sub
    requires n < |files| && RunList(sub, ks, files, st, n + 1).Ok?
    ensures RunList(sub, ks, files, st, n).Ok? && GroupRuns(GroupIndex(sub, ks, files[n]), st).Ok?
    ensures RunList(sub, ks, files, st, n + 1).value ==
      RunList(sub, ks, files, st, n).value + GroupRuns(GroupIndex(sub, ks, files[n]), st).value
  {
  }

  // ---------------------------------------------------------------------
  // The loops

  /** The loop over the slices of one group, appending to `runList`. */
  method PlanGroup(group: seq<int>, st: RunSettings, runList: seq<string>) returns (out: seq<string>, err: Option<string>)
    ensures GroupRuns(group, st).Err? <==> err.Some?
    ensures err.Some? ==> err.value == GroupRuns(group, st).error
    ensures err.None? ==> out == runList + GroupRuns(group, st).value
  {
    out := runList;
    if st.threads == 0 {
      return runList, Some(NoThreads);
    }
    if st.threads < 0 {
      return runList, None;
    }
    var step := |group| / st.threads;
    for i := 0 to st.threads
      invariant SliceRuns(group, st, i).Ok? && out == runList + SliceRuns(group, st, i).value
    {
      var a := i * step;
      var b := if i < st.threads - 1 then i * step + step else |group|;
      assert a == SliceStart(|group|, st.threads, i) && b == SliceEnd(|group|, st.threads, i);
      SliceBounds(|group|, st.threads, i);
      if a == b {
        SliceRunsFail(group, st, i + 1, st.threads);
        return out, Some(EmptySlice);
      }
      out := out + [RunFile(st, group[a..b])];
    }
    err := None;
  }

  /** The loop over the metadata files of the range. */
  method PlanRuns(sub: Table<string>, ks: seq<int>, st: RunSettings) returns (runList: seq<string>, err: Option<string>)
    requires forall i :: 0 <= i < |ks| ==> ks[i] in sub
    ensures RunsOver(sub, ks, st).Err? <==> err.Some?
    ensures err.Some? ==> err.value == RunsOver(sub, ks, st).error
    ensures err.None? ==> runList == RunsOver(sub, ks, st).value
  {
    var files := UniqueInOrder(MetaFiles(sub, ks));
    runList, err := PlanFiles(sub, ks, files, st);
  }

  /** The loop itself, over a given list of metadata files. */
  method PlanFiles(sub: Table<string>, ks: seq<int>, files: seq<Option<Cell>>, st: RunSettings)
    returns (runList: seq<string>, err: Option<string>)
    requires forall i :: 0 <= i < |ks| ==> ks[i] in sub
    ensures RunList(sub, ks, files, st, |files|).Err? <==> err.Some?
    ensures err.Some? ==> err.value == RunList(sub, ks, files, st, |files|).error
    ensures err.None? ==> runList == RunList(sub, ks, files, st, |files|).value
  {
    runList := [];
    for j := 0 to |files|
      invariant RunList(sub, ks, files, st, j) == Ok(runList)
    {
      var group := GroupIndex(sub, ks, files[j]);
      var e;
      runList, e := PlanGroup(group, st, runList);
      if e.Some? {
        RunListFails(sub, ks, files, st, j + 1, |files|);
        return runList, e;
      }
    }
    err := None;
  }

  /** `makeRun(template_file, SiteID)` as written: setupEP.py:42 hands
      `sub_path` the metadata path alone, so the constructor raises before
      the inventory is read. `MakeRun` is what the evidently intended
      `sub_path(self, ...)` of preProcessing.py builds. */
  function MakeRunAsWritten(metadata: string, read: Table<string>): (r: Result<Table<string>>)
    ensures r.Ok? ==> r.value == RunInventory(read)
  {
    var dir := SubPaths.SubPathCall([SubPaths.StringArg(metadata)]);
    if dir.Err? then Err(dir.error) else Ok(RunInventory(read))
  }

  /** `runDates` as written: the project title is set, then setupEP.py:60
      calls `sub_path` with the output path alone and raises before any run
      is planned. */
  function RunDatesAsWritten(output: string, inv: Table<string>, start: int, end: int, st: RunSettings): (r: Result<seq<string>>)
    ensures r.Ok? ==> r == RunDatesOf(inv, start, end, st)
  {
    var dir := SubPaths.SubPathCall([SubPaths.StringArg(output)]);
    if dir.Err? then Err(dir.error) else RunDatesOf(inv, start, end, st)
  }

  /** Both calls raise TypeError for every input, where the same paths
      passed together with the object substitute its attributes. */
  lemma MakeRunAsWrittenRaises(attrs: SubPaths.Attributes, metadata: string, output: string,
                               read: Table<string>, start: int, end: int, st: RunSettings)
    ensures MakeRunAsWritten(metadata, read) == Err(SubPaths.MissingPathString)
    ensures RunDatesAsWritten(output, RunInventory(read), start, end, st) == Err(SubPaths.MissingPathString)
    ensures SubPaths.SubPathCall([SubPaths.ObjectArg(attrs), SubPaths.StringArg(metadata)])
      == Ok(SubPaths.SubPath(attrs, metadata))
  {
  }

  /** `makeRun`: the inventory of rows with a metadata file, and the
      template's project title. */
  class MakeRun {
    var inventory: Table<string>
    var projectTitle: string

    /** Rows whose metadata file is missing or the placeholder are
        dropped. */
    constructor(read: Table<string>, title: string)
      ensures inventory == RunInventory(read) && projectTitle == title
    {
      inventory := RunInventory(read);
      projectTitle := title;
    }

    /** `runDates`: the project is titled `name`, and the run files are
        planned for every metadata file in the inclusive range. */
    method RunDates(start: int, end: int, st: RunSettings) returns (runList: seq<string>, err: Option<string>)
      modifies this`projectTitle
      ensures projectTitle == st.name && inventory == old(inventory)
      ensures RunDatesOf(inventory, start, end, st).Err? <==> err.Some?
      ensures err.Some? ==> err.value == RunDatesOf(inventory, start, end, st).error
      ensures err.None? ==> runList == RunDatesOf(inventory, start, end, st).value
    {
      projectTitle := st.name;
      var sub := Between(inventory, start, end);
      var ks := SortedTimes(sub.Keys);
      runList, err := PlanRuns(sub, ks, st);
    }
  }
}
