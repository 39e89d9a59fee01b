/** The `eddyProAPI` object: the tables it keeps between steps and the steps
    that change them (the inventory scan, grouping and filtering, the batch
    set-up). Each method is proved against the specification functions of
    the Inventory, Grouping, Filters and Batching modules. */
module EddyProApi {
  import opened Text
  import opened Tables
  import opened Grouping
  import Filters
  import opened Batching
  import Grid
  import Inventory
  import MetadataFiles
  import MergeStats

  /** A column of `rawDataStatistics`: (variable, statistic, unit level). */
  type StatColumn = (string, string, string)

  /** The label column of the statistics table, `('group', 'ID', NaN tag)`. */
  const StatsGroupColumn: StatColumn := ("group", "ID", NanTag)

  /** The set of a column list. */
  function Elements(cs: seq<Column>): (s: set<Column>)
    ensures forall c :: c in s <==> c in cs
  {
    set c | c in cs
  }

  /** `self.fileInventory[['groupID', 'file_prototype']].groupby('groupID')
      .agg(['first'])`: the prototype of the group's earliest file that has
      one, if any. */
  function FirstPrototype(inv: Table<string>, g: int): (r: Option<Cell>)
    ensures r.None? <==> forall ts :: ts in Filters.GroupRows(inv, g) ==> "file_prototype" !in inv[ts]
    ensures r.Some? ==>
      exists ts :: ts in Filters.GroupRows(inv, g) && "file_prototype" in inv[ts]
        && r.value == inv[ts]["file_prototype"]
        && (forall u :: u in Filters.GroupRows(inv, g) && "file_prototype" in inv[u] ==> ts <= u)
  {
    var rows := PrototypeRows(inv, g);
    if rows == {} then None
    else
      var t := Earliest(rows);
      Some(inv[t]["file_prototype"])
  }

  /** The group's files that have a prototype. */
  function PrototypeRows(inv: Table<string>, g: int): (rows: set<int>)
    ensures forall ts :: ts in rows <==> ts in Filters.GroupRows(inv, g) && "file_prototype" in inv[ts]
  {
    set ts | ts in Filters.GroupRows(inv, g) && "file_prototype" in inv[ts]
  }

  /** `configurationGroups.join(temp)`: each group gains its first
      prototype as `('Custom', 'file_prototype')`, or no value when none of
      its files is left in the inventory. */
  function JoinPrototypes(groups: map<int, GroupInfo>, inv: Table<string>): (r: map<int, GroupInfo>)
    ensures r.Keys == groups.Keys
    ensures forall g :: g in r ==> r[g].count == groups[g].count
    ensures forall g, c :: g in r && c != PrototypeColumn ==>
      (c in r[g].first <==> c in groups[g].first) && (c in r[g].first ==> r[g].first[c] == groups[g].first[c])
    ensures forall g :: g in r ==>
      (PrototypeColumn in r[g].first <==> FirstPrototype(inv, g).Some?)
      && (FirstPrototype(inv, g).Some? ==> r[g].first[PrototypeColumn] == FirstPrototype(inv, g).value)
  {
    map g | g in groups :: GroupInfo(LabelRow(groups[g].first, PrototypeColumn, FirstPrototype(inv, g)), groups[g].count)
  }

  /** `configurationGroups.iterrows()`: each group with its row, in label order. */
  function GroupRowsInOrder(groups: map<int, GroupInfo>): (rows: seq<(int, GroupInfo)>)
    ensures |rows| == |Filters.GroupOrder(groups)|
    ensures forall j :: 0 <= j < |rows| ==> rows[j].0 in groups && rows[j].1 == groups[rows[j].0]
  {
    var ids := Filters.GroupOrder(groups);
    seq(|ids|, j requires 0 <= j < |ids| => (ids[j], groups[ids[j]]))
  }

  class Api {
    var fileInventory: Table<string>
    var metaDataValues: Table<Column>
    var rawDataStatistics: Table<StatColumn>
    var configurationGroups: map<int, GroupInfo>
    var rpBatches: map<string, Table<string>>
    var fccList: seq<string>
    var processes: int
    var minN: int
    var nBatchesPerGroup: int
    /** `tempStats[1]` and `tempStats[2]`: the month's statistics and
        metadata rows, not yet merged into the tables. */
    var tempStats: Table<StatColumn>
    var tempMeta: Table<Column>
    /** The directory the batch project files go to. */
    const tempDir: string
    /** `dateRange.min()` and `dateRange.max()`. */
    const lo: int
    const hi: int

    /** The set-up: the date range, the directory and the tables saved by a
        previous run (empty when there is none). */
    constructor (tempDir: string, lo: int, hi: int, processes: int,
                 inventory: Table<string>, meta: Table<Column>, stats: Table<StatColumn>)
      ensures this.tempDir == tempDir && this.lo == lo && this.hi == hi && this.processes == processes
      ensures fileInventory == inventory && metaDataValues == meta && rawDataStatistics == stats
      ensures configurationGroups == map[] && rpBatches == map[] && fccList == []
    {
      this.tempDir := tempDir;
      this.lo := lo;
      this.hi := hi;
      this.processes := processes;
      fileInventory := inventory;
      metaDataValues := meta;
      rawDataStatistics := stats;
      configurationGroups := map[];
      rpBatches := map[];
      fccList := [];
      minN := 1;
      nBatchesPerGroup := 1;
      tempStats := map[];
      tempMeta := map[];
    }

    // -------------------------------------------------------------------------
    // searchRawDir

    /** Scans the directory listings in order, skipping files already in the
        inventory, and puts the result on the half-hour grid. Fails ("No
        Data Found", or a `groupID` that does not convert) with the
        inventory unchanged. */
    method SearchRawDir(listings: seq<(string, seq<string>)>, find: Inventory.Finder) returns (ok: bool)
      modifies this`fileInventory
      ensures var r := Inventory.SearchResult(old(fileInventory), listings, find, lo, hi);
        ok == r.Ok? && (ok ==> fileInventory == r.value) && (!ok ==> fileInventory == old(fileInventory))
    {
      var frame := Inventory.InitialFrame(fileInventory);
      var i := 0;
      while i < |listings|
        invariant 0 <= i <= |listings|
        invariant fileInventory == old(fileInventory)
        invariant Inventory.Scan(frame, listings[i..], find, lo, hi)
               == Inventory.Scan(Inventory.InitialFrame(old(fileInventory)), listings, find, lo, hi)
      {
        var (dir, files) := listings[i];
        var dout := FindFiles(dir, Inventory.Fresh(files, Inventory.KnownSources(frame, lo, hi)), find);
        Inventory.ScanStep(frame, listings, i, find, lo, hi);
        frame := frame + dout;
        i := i + 1;
      }
      var r := Inventory.Finish(frame);
      if r.Err? {
        return false;
      }
      fileInventory := r.value;
      return true;
    }

    /** The sequential `findFiles` loop over one directory's new files: the
        records found, in listing order. */
    method FindFiles(dir: string, files: seq<string>, find: Inventory.Finder) returns (dout: seq<Grid.Entry<string>>)
      ensures dout == Inventory.Found(dir, files, find)
    {
      dout := [];
      var j := 0;
      while j < |files|
        invariant 0 <= j <= |files|
        invariant dout == Inventory.Found(dir, files[..j], find)
      {
        assert files[..j + 1][..j] == files[..j];
        match find(files[j], dir) {
          case None =>
          case Some(rec) =>
            dout := dout + [(rec.timestamp, Inventory.RecordRow(rec))];
        }
        j := j + 1;
      }
      assert files[..j] == files;
    }

    // -------------------------------------------------------------------------
    // groupAndFilter

    /** Selects the grouping, tracked and pass columns (a missing grouping or
        tracked section raises), normalises the grouping and pass columns,
        and raises when no grouping column was selected, since `groupby`
        needs a key. Otherwise labels every metadata row with its
        configuration's group, replaces the old labels in the metadata,
        statistics and inventory tables (inventory rows without a label get
        `intNaN`) and summarises the groups. It then writes the groups'
        metadata files, whose failure stops it, runs the filters and joins
        each group's first file prototype. `written` holds the files
        written. */
    method GroupAndFilter(columns: seq<Column>, groupBy: Instructions, track: Instructions, pass: Instructions,
                          rules: seq<Filters.Rule>, order: seq<Column>, test: Filters.Test,
                          show: real -> string, template: MetadataFiles.Template,
                          defs: seq<(string, MetadataFiles.Definition)>,
                          biometDefs: map<string, string>, biometColumns: Option<seq<string>>)
      returns (ok: bool, written: Option<map<int, MetadataFiles.GroupFiles>>)
      modifies this`metaDataValues, this`rawDataStatistics, this`fileInventory, this`configurationGroups
      ensures Select(columns, groupBy, false).Err? || Select(columns, track, false).Err? ==>
        !ok && written.None? && unchanged(this)
      ensures (Select(columns, groupBy, false).Ok? && Select(columns, track, false).Ok?
        && Select(columns, groupBy, false).value == []) ==>
        !ok && written.None?
        && metaDataValues == Normalise(old(metaDataValues), Elements(Select(columns, pass, true).value))
        && rawDataStatistics == old(rawDataStatistics) && fileInventory == old(fileInventory)
        && configurationGroups == old(configurationGroups)
      ensures (Select(columns, groupBy, false).Ok? && Select(columns, track, false).Ok?
        && Select(columns, groupBy, false).value != []) ==>
        var grouper := Select(columns, groupBy, false).value;
        GroupedAndFiltered(old(metaDataValues), old(rawDataStatistics), old(fileInventory), grouper,
                           Elements(grouper + Select(columns, pass, true).value), rules, order, test,
                           show, template, defs, biometDefs, biometColumns,
                           ok, written, metaDataValues, rawDataStatistics, fileInventory, configurationGroups)
    {
      written := None;
      var g := Select(columns, groupBy, false);
      var t := Select(columns, track, false);
      if g.Err? || t.Err? {
        return false, None;
      }
      var grouper := g.value;
      var passer := Select(columns, pass, true).value;
      if grouper == [] {
        metaDataValues := Normalise(metaDataValues, Elements(passer));
        return false, None;
      }
      ok, written := GroupWriteFilter(grouper, Elements(grouper + passer), rules, order, test,
                                      show, template, defs, biometDefs, biometColumns);
    }

    /** `groupAndFilter` once its columns are chosen: the metadata is
        normalised on `cols` and relabelled by the ranks of the `grouper`
        keys, the statistics and inventory are relabelled (inventory rows
        without a label get `intNaN`), and the groups are summarised; then
        the metadata files are written and the filters run, as
        `WroteAndFiltered` says. */
    ghost predicate GroupedAndFiltered(meta0: Table<Column>, stats0: Table<StatColumn>, inv0: Table<string>,
                                       grouper: seq<Column>, cols: set<Column>,
                                       rules: seq<Filters.Rule>, order: seq<Column>, test: Filters.Test,
                                       show: real -> string, template: MetadataFiles.Template,
                                       defs: seq<(string, MetadataFiles.Definition)>,
                                       biometDefs: map<string, string>, biometColumns: Option<seq<string>>,
                                       ok: bool, written: Option<map<int, MetadataFiles.GroupFiles>>,
                                       meta': Table<Column>, stats': Table<StatColumn>, inv': Table<string>,
                                       groups': map<int, GroupInfo>)
    {
      var meta := Normalise(meta0, cols);
      var labels := Labels(meta, grouper);
      var groups := ConfigurationGroups(Relabel(meta, GroupColumn, labels, None), labels, cols);
      var inv := Relabel(inv0, Filters.GroupIdColumn, labels, Some(Int(IntNaN)));
      && meta' == Relabel(meta, GroupColumn, labels, None)
      && stats' == Relabel(stats0, StatsGroupColumn, labels, None)
      && WroteAndFiltered(groups, inv, cols, rules, order, test, show, template, defs, biometDefs, biometColumns,
                          ok, written, inv', groups')
    }

    /** The grouping, writing and filtering of `groupAndFilter` for chosen
        columns. */
    method GroupWriteFilter(grouper: seq<Column>, cols: set<Column>,
                            rules: seq<Filters.Rule>, order: seq<Column>, test: Filters.Test,
                            show: real -> string, template: MetadataFiles.Template,
                            defs: seq<(string, MetadataFiles.Definition)>,
                            biometDefs: map<string, string>, biometColumns: Option<seq<string>>)
      returns (ok: bool, written: Option<map<int, MetadataFiles.GroupFiles>>)
      modifies this`metaDataValues, this`rawDataStatistics, this`fileInventory, this`configurationGroups
      ensures GroupedAndFiltered(old(metaDataValues), old(rawDataStatistics), old(fileInventory), grouper, cols,
                                 rules, order, test, show, template, defs, biometDefs, biometColumns,
                                 ok, written, metaDataValues, rawDataStatistics, fileInventory, configurationGroups)
    {
      ghost var meta := Normalise(metaDataValues, cols);
      ghost var labels := Labels(meta, grouper);
      ghost var inv := Relabel(fileInventory, Filters.GroupIdColumn, labels, Some(Int(IntNaN)));
      Regroup(grouper, cols);
      ghost var groups := configurationGroups;
      assert groups == ConfigurationGroups(Relabel(meta, GroupColumn, labels, None), labels, cols);
      assert fileInventory == inv;
      ok, written := WriteAndFilter(cols, rules, order, test, show, template, defs, biometDefs, biometColumns);
    }

    /** The end of `groupAndFilter`, from the groups `groups` and the
        relabelled inventory `inv`: the groups' metadata files are written,
        and a failure stops there; then the filters run, and when they
        succeed each group gains its first file prototype. */
    ghost predicate WroteAndFiltered(groups: map<int, GroupInfo>, inv: Table<string>, cols: set<Column>,
                                     rules: seq<Filters.Rule>, order: seq<Column>, test: Filters.Test,
                                     show: real -> string, template: MetadataFiles.Template,
                                     defs: seq<(string, MetadataFiles.Definition)>,
                                     biometDefs: map<string, string>, biometColumns: Option<seq<string>>,
                                     ok: bool, written: Option<map<int, MetadataFiles.GroupFiles>>,
                                     inv': Table<string>, groups': map<int, GroupInfo>)
    {
      var biomet := if biometColumns.Some? then Some(MetadataFiles.BiometColumns(biometDefs, biometColumns.value)) else None;
      var all := MetadataFiles.AllFiles(GroupRowsInOrder(groups), MetadataFiles.Setup(cols, show, template, defs, biomet));
      var filtered := Filters.FilterPass(inv, rules, Filters.GroupOrder(groups), groups, order, test);
      && (all.Err? ==> !ok && written.None? && inv' == inv && groups' == groups)
      && (all.Ok? ==> written == Some(all.value.0) && ok == filtered.Ok?)
      && (ok ==> inv' == filtered.value && groups' == JoinPrototypes(groups, inv'))
    }

    /** Writes the metadata files of the current groups, then filters. */
    method WriteAndFilter(cols: set<Column>, rules: seq<Filters.Rule>, order: seq<Column>, test: Filters.Test,
                          show: real -> string, template: MetadataFiles.Template,
                          defs: seq<(string, MetadataFiles.Definition)>,
                          biometDefs: map<string, string>, biometColumns: Option<seq<string>>)
      returns (ok: bool, written: Option<map<int, MetadataFiles.GroupFiles>>)
      modifies this`fileInventory, this`configurationGroups
      ensures WroteAndFiltered(old(configurationGroups), old(fileInventory), cols, rules, order, test, show, template,
                               defs, biometDefs, biometColumns, ok, written, fileInventory, configurationGroups)
    {
      var files := MakeMetadataFiles(cols, show, template, defs, biometDefs, biometColumns);
      if files.Err? {
        return false, None;
      }
      written := Some(files.value);
      ok := FilterData(rules, order, test);
      if ok {
        configurationGroups := JoinPrototypes(configurationGroups, fileInventory);
      }
    }

    /** The grouping half of `groupAndFilter`: normalise the columns `cols`,
        label the metadata rows by their `grouper` values, relabel the three
        tables and summarise the groups. */
    method Regroup(grouper: seq<Column>, cols: set<Column>)
      modifies this`metaDataValues, this`rawDataStatistics, this`fileInventory, this`configurationGroups
      ensures var meta := Normalise(old(metaDataValues), cols);
        var labels := Labels(meta, grouper);
        metaDataValues == Relabel(meta, GroupColumn, labels, None)
        && configurationGroups == ConfigurationGroups(metaDataValues, labels, cols)
        && rawDataStatistics == Relabel(old(rawDataStatistics), StatsGroupColumn, labels, None)
        && fileInventory == Relabel(old(fileInventory), Filters.GroupIdColumn, labels, Some(Int(IntNaN)))
    {
      metaDataValues := Normalise(metaDataValues, cols);
      var labels := Labels(metaDataValues, grouper);
      metaDataValues := Relabel(metaDataValues, GroupColumn, labels, None);
      configurationGroups := ConfigurationGroups(metaDataValues, labels, cols);
      rawDataStatistics := Relabel(rawDataStatistics, StatsGroupColumn, labels, None);
      fileInventory := Relabel(fileInventory, Filters.GroupIdColumn, labels, Some(Int(IntNaN)));
    }

    /** `filterData`: resets every flag, runs the rules over the groups in
        index order, then takes every flagged file out of its group. */
    method FilterData(rules: seq<Filters.Rule>, order: seq<Column>, test: Filters.Test) returns (ok: bool)
      modifies this`fileInventory
      ensures var ids := Filters.GroupOrder(configurationGroups);
        var r := Filters.FilterPass(old(fileInventory), rules, ids, configurationGroups, order, test);
        ok == r.Ok? && (ok ==> fileInventory == r.value)
    {
      var ids := Filters.GroupOrder(configurationGroups);
      fileInventory := Filters.ResetFlags(fileInventory);
      var i := 0;
      while i < |rules|
        invariant 0 <= i <= |rules|
        invariant Filters.RulesPass(fileInventory, rules[i..], ids, configurationGroups, order, test)
               == Filters.RulesPass(Filters.ResetFlags(old(fileInventory)), rules, ids, configurationGroups, order, test)
      {
        Filters.RulesStep(fileInventory, rules, i, ids, configurationGroups, order, test);
        var step := ApplyConditions(rules[i].name, rules[i].conditions, ids, order, test);
        if !step {
          return false;
        }
        i := i + 1;
      }
      fileInventory := Filters.Exclude(fileInventory);
      return true;
    }

    /** The conditions of one rule. */
    method ApplyConditions(name: string, conds: seq<Filters.Condition>, ids: seq<int>,
                           order: seq<Column>, test: Filters.Test) returns (ok: bool)
      requires forall i :: 0 <= i < |ids| ==> ids[i] in configurationGroups
      modifies this`fileInventory
      ensures var r := Filters.ConditionsPass(old(fileInventory), name, conds, ids, configurationGroups, order, test);
        ok == r.Ok? && (ok ==> fileInventory == r.value)
    {
      var i := 0;
      while i < |conds|
        invariant 0 <= i <= |conds|
        invariant Filters.ConditionsPass(fileInventory, name, conds[i..], ids, configurationGroups, order, test)
               == Filters.ConditionsPass(old(fileInventory), name, conds, ids, configurationGroups, order, test)
      {
        Filters.ConditionsStep(fileInventory, name, conds, i, ids, configurationGroups, order, test);
        var step := ApplyGroups(name, conds[i], ids, order, test);
        if !step {
          return false;
        }
        i := i + 1;
      }
      return true;
    }

    /** One condition over every group, after looking up the
        `FileDescription` level. */
    method ApplyGroups(name: string, c: Filters.Condition, ids: seq<int>,
                       order: seq<Column>, test: Filters.Test) returns (ok: bool)
      requires forall i :: 0 <= i < |ids| ==> ids[i] in configurationGroups
      modifies this`fileInventory
      ensures var r := Filters.ConditionPass(old(fileInventory), name, c, ids, configurationGroups, order, test);
        ok == r.Ok? && (ok ==> fileInventory == r.value)
    {
      if !Filters.HasFileDescription(order) {
        return false;
      }
      var i := 0;
      while i < |ids|
        invariant 0 <= i <= |ids|
        invariant Filters.GroupsPass(fileInventory, name, c, ids[i..], configurationGroups, order, test)
               == Filters.GroupsPass(old(fileInventory), name, c, ids, configurationGroups, order, test)
      {
        Filters.GroupsStep(fileInventory, name, c, ids, i, configurationGroups, order, test);
        var step := ApplyGroup(name, c, ids[i], order, test);
        if !step {
          return false;
        }
        i := i + 1;
      }
      return true;
    }

    /** One condition for one group: resolve its header columns, look up
        their names, then test each statistic. */
    method ApplyGroup(name: string, c: Filters.Condition, g: int, order: seq<Column>, test: Filters.Test) returns (ok: bool)
      requires g in configurationGroups
      modifies this`fileInventory
      ensures var r := Filters.GroupPass(old(fileInventory), name, c, g, configurationGroups[g].first, order, test);
        ok == r.Ok? && (ok ==> fileInventory == r.value)
    {
      if c.measureType.None? {
        return false;
      }
      var first := configurationGroups[g].first;
      var headers := Filters.HeaderColumns(Filters.FileDescriptionRow(first, order), c.variables, c.measureType.value);
      if headers.Err? {
        return false;
      }
      var hv := Filters.HeaderValues(first, headers.value);
      if hv.Err? {
        return false;
      }
      var h := hv.value;
      var i := 0;
      while i < |c.filters|
        invariant 0 <= i <= |c.filters|
        invariant Filters.StatsPass(fileInventory, name, c.condition, h, g, c.filters[i..], test)
               == Filters.StatsPass(old(fileInventory), name, c.condition, h, g, c.filters, test)
      {
        Filters.StatsStep(fileInventory, name, c.condition, h, g, c.filters, i, test);
        var (stat, expr) := c.filters[i];
        if Str(NanTag) in h {
          fileInventory := Filters.Raise(fileInventory, Filters.GroupRows(fileInventory, g),
                                         Filters.Label(name, "Data not available"));
        } else {
          var flagged := test(expr, stat, h, g);
          if !(flagged <= fileInventory.Keys) {
            return false;
          }
          fileInventory := Filters.Raise(fileInventory, flagged, Filters.Label(name, c.condition));
        }
        i := i + 1;
      }
      return true;
    }

    // -------------------------------------------------------------------------
    // runEP: batch set-up

    /** `batchesPerGroup`: the recommended minimum of the selected settings
        (reported through `warn` when the group is smaller), then the batch
        size and the number of batches. */
    method BatchesPerGroup(n: int, sz: Sizing) returns (ok: bool, warn: bool)
      modifies this`minN, this`nBatchesPerGroup
      ensures var rec := RecommendedMinimum(sz.req, sz.user, sz.defaults);
        var count := BatchCount(n, processes, sz.bmin, sz.bmax);
        ok == (rec.Ok? && count.Ok?)
        && (ok ==> warn == (n < rec.value) && minN == BatchSize(n, sz.bmin, sz.bmax) && nBatchesPerGroup == count.value)
    {
      minN := 1;
      var local := 1;
      var i := 0;
      while i < |sz.req|
        invariant 0 <= i <= |sz.req|
        invariant Recommended(sz.req[i..], sz.user, sz.defaults, minN, local) == RecommendedMinimum(sz.req, sz.user, sz.defaults)
      {
        var (section, options) := sz.req[i];
        var start := local;
        var j := 0;
        while j < |options|
          invariant 0 <= j <= |options|
          invariant SectionMinimum(section, options[j..], sz.user, sz.defaults, local)
                 == SectionMinimum(section, options, sz.user, sz.defaults, start)
        {
          assert options[j..][1..] == options[j + 1..];
          var (option, limit) := options[j];
          if HasSetting(sz.user, section, option) && sz.user[section][option] in limit {
            local := limit[sz.user[section][option]];
          } else if !HasSetting(sz.defaults, section, option) {
            return false, false;
          } else if sz.defaults[section][option] in limit {
            local := limit[sz.defaults[section][option]];
          } else {
            local := 1;
          }
          j := j + 1;
        }
        assert sz.req[i..][1..] == sz.req[i + 1..];
        minN := Max(minN, local);
        i := i + 1;
      }
      warn := n < minN;
      minN := BatchSize(n, sz.bmin, sz.bmax);
      if minN == 0 {
        return false, warn;
      }
      nBatchesPerGroup := Min(processes, Max(1, FloorDiv(n, minN)));
      return true, warn;
    }

    /** `makeBatch`: an rp batch records its project file with the inventory
        rows it runs on, an fcc batch is appended to the fcc list. Returns
        the batch's file type and the configuration written for it. */
    method MakeBatch(x: Batch, info: GroupInfo, defaults: Settings, cols: Settings, dynamic: Settings, user: Settings)
      returns (fileType: Result<string>, config: Settings)
      modifies this`rpBatches, this`fccList
      ensures IsRpProject(x.projectId) ==>
        rpBatches == old(rpBatches)[BatchFile(tempDir, x.projectId) := RpRows(fileInventory, x.group, x.start, x.end)]
        && fccList == old(fccList)
      ensures !IsRpProject(x.projectId) ==>
        rpBatches == old(rpBatches) && fccList == old(fccList) + [BatchFile(tempDir, x.projectId)]
      ensures fileType == BatchFileType(info)
      ensures config == GroupConfig(defaults, cols, dynamic, user)
    {
      var file := BatchFile(tempDir, x.projectId);
      if IsRpProject(x.projectId) {
        rpBatches := rpBatches[file := RpRows(fileInventory, x.group, x.start, x.end)];
      } else {
        fccList := fccList + [file];
      }
      fileType := BatchFileType(info);
      config := GroupConfig(defaults, cols, dynamic, user);
    }

    /** `setupGroups`: drops incomplete inventory rows, then makes the rp and
        fcc batches of every group in index order, and finally caps the
        number of processes at the number of rp batches. */
    method SetupGroups(sz: Sizing, colsOf: int -> Settings, dynamicOf: Batch -> Settings) returns (ok: bool)
      modifies this`fileInventory, this`rpBatches, this`fccList, this`processes, this`minN, this`nBatchesPerGroup
      ensures fileInventory == DropNa(old(fileInventory))
      ensures var plan := Plan(fileInventory, configurationGroups, Filters.GroupOrder(configurationGroups), lo, hi, old(processes), sz);
        ok == plan.Ok?
        && (ok ==> rpBatches == RpMap(plan.value, fileInventory, tempDir)
                   && fccList == FccFiles(plan.value, tempDir)
                   && processes == Min(old(processes), |rpBatches|))
    {
      fileInventory := DropNa(fileInventory);
      rpBatches := map[];
      fccList := [];
      ok := SetupAll(Filters.GroupOrder(configurationGroups), sz, colsOf, dynamicOf);
    }

    /** The `setupGroups` loop over the groups `ids`, from empty batch lists,
        and the cap on the number of processes. */
    method SetupAll(ids: seq<int>, sz: Sizing, colsOf: int -> Settings, dynamicOf: Batch -> Settings) returns (ok: bool)
      requires forall k :: 0 <= k < |ids| ==> ids[k] in configurationGroups
      requires rpBatches == map[] && fccList == []
      modifies this`rpBatches, this`fccList, this`processes, this`minN, this`nBatchesPerGroup
      ensures var plan := Plan(fileInventory, configurationGroups, ids, lo, hi, old(processes), sz);
        ok == plan.Ok?
        && (ok ==> rpBatches == RpMap(plan.value, fileInventory, tempDir) && fccList == FccFiles(plan.value, tempDir)
                   && processes == Min(old(processes), |rpBatches|))
    {
      ghost var done: seq<Batch> := [];
      var i := 0;
      while i < |ids|
        invariant 0 <= i <= |ids|
        invariant processes == old(processes)
        invariant Plan(fileInventory, configurationGroups, ids[..i], lo, hi, processes, sz) == Ok(done)
        invariant rpBatches == RpMap(done, fileInventory, tempDir) && fccList == FccFiles(done, tempDir)
      {
        PlanStep(fileInventory, configurationGroups, ids, i, lo, hi, processes, sz, done);
        var step, more := SetupGroup(ids[i], GroupTimes(fileInventory, ids[i], lo, hi), configurationGroups[ids[i]],
                                     sz, colsOf(ids[i]), dynamicOf, done);
        if !step {
          return false;
        }
        done := done + more;
        i := i + 1;
      }
      assert ids[..i] == ids;
      if |rpBatches| < processes {
        processes := |rpBatches|;
      }
      return true;
    }

    /** The body of the `setupGroups` loop for group `g`: nothing when the
        group has no timestamp in the range; otherwise size the group, cut it
        into rp batches and make each of them and then the fcc batch. */
    method SetupGroup(g: int, ts: seq<int>, info: GroupInfo, sz: Sizing, cols: Settings, dynamicOf: Batch -> Settings,
                      ghost done: seq<Batch>)
      returns (ok: bool, more: seq<Batch>)
      requires rpBatches == RpMap(done, fileInventory, tempDir) && fccList == FccFiles(done, tempDir)
      modifies this`rpBatches, this`fccList, this`minN, this`nBatchesPerGroup
      ensures var r := TimesPlan(g, ts, info, processes, sz);
        ok == r.Ok?
        && (ok ==> more == r.value && rpBatches == RpMap(done + more, fileInventory, tempDir)
                   && fccList == FccFiles(done + more, tempDir))
    {
      if |ts| == 0 {
        assert done + [] == done;
        return true, [];
      }
      var sized, warn := BatchesPerGroup(|ts|, sz);
      if !sized {
        return false, [];
      }
      ok, more := CutGroup(g, ts, info, sz, cols, dynamicOf, done);
    }

    /** The rest of the loop body, once the group is sized: read the file
        duration and type, cut the batches and make each of them. */
    method CutGroup(g: int, ts: seq<int>, info: GroupInfo, sz: Sizing, cols: Settings, dynamicOf: Batch -> Settings,
                    ghost done: seq<Batch>)
      returns (ok: bool, more: seq<Batch>)
      requires 1 <= |ts| && nBatchesPerGroup <= |ts|
      requires rpBatches == RpMap(done, fileInventory, tempDir) && fccList == FccFiles(done, tempDir)
      modifies this`rpBatches, this`fccList
      ensures var r := CutPlan(g, ts, nBatchesPerGroup, info);
        ok == r.Ok?
        && (ok ==> more == r.value && rpBatches == RpMap(done + more, fileInventory, tempDir)
                   && fccList == FccFiles(done + more, tempDir))
    {
      var dur := FileDuration(info);
      if dur.Err? {
        return false, [];
      }
      var bs := GroupBatches(g, ts, nBatchesPerGroup, dur.value);
      if bs.Err? || BatchFileType(info).Err? {
        return false, [];
      }
      more := bs.value;
      MakeBatches(more, info, sz, cols, dynamicOf, done);
      return true, more;
    }

    /** `makeBatch` on each batch of a group in turn. */
    method MakeBatches(bs: seq<Batch>, info: GroupInfo, sz: Sizing, cols: Settings, dynamicOf: Batch -> Settings,
                       ghost done: seq<Batch>)
      requires rpBatches == RpMap(done, fileInventory, tempDir) && fccList == FccFiles(done, tempDir)
      modifies this`rpBatches, this`fccList
      ensures rpBatches == RpMap(done + bs, fileInventory, tempDir) && fccList == FccFiles(done + bs, tempDir)
    {
      assert done + bs[..0] == done;
      var j := 0;
      while j < |bs|
        invariant 0 <= j <= |bs|
        invariant rpBatches == RpMap(done + bs[..j], fileInventory, tempDir)
        invariant fccList == FccFiles(done + bs[..j], tempDir)
      {
        SnocPrefix(done, bs, j, fileInventory, tempDir);
        var fileType, config := MakeBatch(bs[j], info, sz.defaults, cols, dynamicOf(bs[j]), sz.user);
        j := j + 1;
      }
      assert bs[..j] == bs;
    }

    // -------------------------------------------------------------------------
    // mergeStats

    /** `mergeStats(out=n)`: empty buffers for the month. */
    method MergeStatsStart()
      modifies this`tempStats, this`tempMeta
      ensures tempStats == map[] && tempMeta == map[]
    {
      tempStats := map[];
      tempMeta := map[];
    }

    /** `mergeStats(out)` for one file's `(name, statistics, metadata)`:
        nothing when the file gave no statistics; otherwise both tables, their
        column levels filled, are appended to the buffers (a timestamp already
        buffered takes the new row). */
    method MergeStatsAdd(stats: Option<Table<StatColumn>>, statsOrder: seq<StatColumn>,
                         meta: Table<Column>, metaOrder: seq<Column>)
      modifies this`tempStats, this`tempMeta
      ensures stats.None? ==> tempStats == old(tempStats) && tempMeta == old(tempMeta)
      ensures stats.Some? ==>
        tempStats == old(tempStats) + MergeStats.FillTable(stats.value, statsOrder, MergeStats.FillStatColumn)
        && tempMeta == old(tempMeta) + MergeStats.FillTable(meta, metaOrder, MergeStats.FillColumn)
    {
      if stats.Some? {
        tempStats := tempStats + MergeStats.FillTable(stats.value, statsOrder, MergeStats.FillStatColumn);
        tempMeta := tempMeta + MergeStats.FillTable(meta, metaOrder, MergeStats.FillColumn);
      }
    }

    /** `mergeStats()`: the buffers are appended to the statistics and
        metadata tables (the buffers are kept until the next month starts). */
    method MergeStatsFlush()
      modifies this`rawDataStatistics, this`metaDataValues
      ensures rawDataStatistics == old(rawDataStatistics) + tempStats
      ensures metaDataValues == old(metaDataValues) + tempMeta
    {
      rawDataStatistics := rawDataStatistics + tempStats;
      metaDataValues := metaDataValues + tempMeta;
    }

    // -------------------------------------------------------------------------
    // makeMetadataFiles

    /** `makeMetadataFiles`: for each group, in label order, its `.metadata`
        file and its `.eddypro` column definitions; `cols` are the columns of
        `configurationGroups`, and the biomet definitions are resolved against
        the biomet table's columns when there is one. The first failure stops
        the loop. */
    method MakeMetadataFiles(cols: set<Column>, show: real -> string, template: MetadataFiles.Template,
                             defs: seq<(string, MetadataFiles.Definition)>,
                             biometDefs: map<string, string>, biometColumns: Option<seq<string>>)
      returns (r: Result<map<int, MetadataFiles.GroupFiles>>)
      ensures var biomet := if biometColumns.Some? then Some(MetadataFiles.BiometColumns(biometDefs, biometColumns.value)) else None;
        var all := MetadataFiles.AllFiles(GroupRowsInOrder(configurationGroups), MetadataFiles.Setup(cols, show, template, defs, biomet));
        r.Ok? == all.Ok? && (r.Ok? ==> r.value == all.value.0)
    {
      var biomet := if biometColumns.Some? then Some(MetadataFiles.BiometColumns(biometDefs, biometColumns.value)) else None;
      var out := MetadataFiles.WriteAll(GroupRowsInOrder(configurationGroups), MetadataFiles.Setup(cols, show, template, defs, biomet));
      r := if out.Ok? then Ok(out.value.0) else Err(out.error);
    }
  }
}
