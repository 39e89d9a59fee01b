/** The older file handler (handleFiles.py): the copy-and-check decision
    without a date range or check list, the dated output directory, and the
    parser's metadata reading and flattening. */
module HandleFiles {
  import opened Text
  import BatchProcessing

  type IniFile = BatchProcessing.IniFile
  type Flat = BatchProcessing.Flat

  /** The `fileInfo` entries read here. `search(s)` is the text
      `re.search(pattern, s)` matched, `parse` is `strptime` (seconds, `None`
      where it raises), `render` is `strftime`; `timeShift` is a number of
      minutes or Python's `None`. `year` and `month` read a timestamp's
      calendar fields. */
  datatype FileInfo = FileInfo(
    extension: string,
    searchTag: string,
    epDatePattern: string,
    search: string -> Option<string>,
    parse: string -> Option<int>,
    render: int -> string,
    timeShift: Option<int>,
    year: int -> int,
    month: int -> int)

  /** `[TIMESTAMP, filename, name_pattern]`, and where the copy goes. */
  datatype Copied = Copied(timestamp: int, filename: string, namePattern: string, outDir: string, outName: string)

  /** The two tests made before the name is searched. */
  predicate Accepted(filename: string, info: FileInfo) {
    EndsWith(filename, info.extension) && Contains(filename, info.searchTag)
  }

  /** `out_dir/YYYY/` and, by month, `out_dir/YYYY/MM/`. */
  function OutDir(outDir: string, byYear: bool, byMonth: bool, year: int, month: int): string {
    if !byYear then outDir
    else
      var d := outDir + "/" + IntToString(year) + "/";
      if byMonth then d + ZFill(IntToString(month), 2) + "/" else d
  }

  /** `copy_and_check_files`: `None` for a rejected name; as in the newer
      handler, `.group(0)` is taken before the `is not None` test, so an
      accepted name without a timestamp raises. The timestamp is shifted
      whenever a shift is given, zero included, and the copy then carries the
      re-rendered timestamp; the record names the original file either way. */
  function CopyAndCheck(filename: string, outDir: string, info: FileInfo, byYear: bool, byMonth: bool)
    : (r: Result<Option<Copied>>)
    ensures !Accepted(filename, info) ==> r == Ok(None)
    ensures Accepted(filename, info) && info.search(BatchProcessing.Stem(filename)).None? ==> r.Err?
    ensures r.Ok? && r.value.Some? ==>
      var srch := info.search(BatchProcessing.Stem(filename)).value;
      Accepted(filename, info) && info.search(BatchProcessing.Stem(filename)).Some?
      && r.value.value.filename == filename
      && r.value.value.namePattern == ReplaceAll(filename, srch, info.epDatePattern)
    ensures r.Ok? && r.value.Some? ==>
      var c := r.value.value;
      var srch := info.search(BatchProcessing.Stem(filename)).value;
      && info.parse(srch).Some?
      && (info.timeShift.None? ==> c.timestamp == info.parse(srch).value && c.outName == filename)
      && (info.timeShift.Some? ==> c.timestamp == info.parse(srch).value + 60 * info.timeShift.value)
      && (info.timeShift.Some? ==> c.outName == ReplaceAll(filename, srch, info.render(c.timestamp)))
      && c.outDir == OutDir(outDir, byYear, byMonth, info.year(c.timestamp), info.month(c.timestamp))
  {
    if !Accepted(filename, info) then Ok(None)
    else match info.search(BatchProcessing.Stem(filename))
      case None => Err("AttributeError: 'NoneType' object has no attribute 'group'")
      case Some(srch) =>
        match info.parse(srch)
        case None => Err("ValueError: time data does not match format")
        case Some(t0) =>
          var t := if info.timeShift.Some? then t0 + 60 * info.timeShift.value else t0;
          var outName := if info.timeShift.Some? then ReplaceAll(filename, srch, info.render(t)) else filename;
          var dir := OutDir(outDir, byYear, byMonth, info.year(t), info.month(t));
          Ok(Some(Copied(t, filename, ReplaceAll(filename, srch, info.epDatePattern), dir, outName)))
  }

  /** A copy by year and month goes to `out_dir/YYYY/MM/`: the month is
      always two digits. */
  lemma MonthDirectory(outDir: string, year: int, month: int)
    requires 1 <= month <= 12
    ensures var d := OutDir(outDir, true, true, year, month);
      |d| >= 3 && d[|d| - 1] == '/' && '0' <= d[|d| - 3] <= '9' && '0' <= d[|d| - 2] <= '9'
      && d[..|d| - 3] == outDir + "/" + IntToString(year) + "/"
  {
    ZFillTwoDigits(month);
    var m := ZFill(IntToString(month), 2);
    assert |m| == 2;
    var d := OutDir(outDir, true, true, year, month);
    assert d == outDir + "/" + IntToString(year) + "/" + m + "/";
    assert d[|d| - 3] == m[0] && d[|d| - 2] == m[1];
  }

  /** `readMetaData`: the sections as dictionaries, and the file description
      with `delimiter` set from the delimiter table (its escapes decoded by
      `unescape`). A missing section, key or table entry raises. */
  function ReadMetaData(doc: IniFile, delimiters: map<string, string>, unescape: string -> string)
    : (r: Result<(IniFile, map<string, string>)>)
    ensures r.Ok? <==>
      ("FileDescription" in doc && "separator" in doc["FileDescription"]
       && doc["FileDescription"]["separator"] in delimiters)
    ensures r.Ok? ==> r.value.0 == doc
    ensures r.Ok? ==> r.value.1 == BatchProcessing.WithDelimiter(doc["FileDescription"],
                                                    unescape(delimiters[doc["FileDescription"]["separator"]]))
  {
    if "FileDescription" !in doc then Err("KeyError: FileDescription")
    else
      var fd := doc["FileDescription"];
      if "separator" !in fd then Err("KeyError: separator")
      else if fd["separator"] !in delimiters then Err("KeyError: " + fd["separator"])
      else Ok((doc, BatchProcessing.WithDelimiter(fd, unescape(delimiters[fd["separator"]]))))
  }

  /** The metadata half of `readFile`: the `DEFAULT` section is deleted (a
      dictionary without one raises `KeyError`) and the rest is flattened to
      `(section, key)` pairs. */
  function WithoutDefault(meta: IniFile): (rest: IniFile)
    ensures forall s :: s in rest <==> s in meta && s != "DEFAULT"
    ensures forall s :: s in rest ==> rest[s] == meta[s]
  {
    meta - {"DEFAULT"}
  }

  function MetadataRow(meta: IniFile): (r: Result<Flat>)
    ensures r.Err? <==> "DEFAULT" !in meta
    ensures r.Ok? ==> forall s, k :: (s, k) in r.value <==> s != "DEFAULT" && s in meta && k in meta[s]
    ensures r.Ok? ==> forall s, k :: (s, k) in r.value ==> r.value[(s, k)] == meta[s][k]
  {
    if "DEFAULT" !in meta then Err("KeyError: DEFAULT")
    else
      var rest := WithoutDefault(meta);
      Ok(BatchProcessing.Flatten(rest))
  }

  /** `readFile`: a `.ghg` file is extracted (the statistics and its
      metadata, `None` where extraction fails); any other file is read with
      the parser's template, which is absent when none was given. */
  function ReadFile<S>(path: string, extract: string -> Option<(S, IniFile)>, readData: string -> S,
                      template: Option<IniFile>) : (r: Result<(S, Flat)>)
    ensures EndsWith(path, ".ghg") && extract(path).None? ==> r.Err?
    ensures !EndsWith(path, ".ghg") && template.None? ==> r.Err?
    ensures EndsWith(path, ".ghg") ==>
      (r.Ok? <==> extract(path).Some? && "DEFAULT" in extract(path).value.1)
    ensures EndsWith(path, ".ghg") && r.Ok? ==>
      r.value == (extract(path).value.0, MetadataRow(extract(path).value.1).value)
    ensures !EndsWith(path, ".ghg") ==> (r.Ok? <==> template.Some? && "DEFAULT" in template.value)
    ensures !EndsWith(path, ".ghg") && r.Ok? ==> r.value == (readData(path), MetadataRow(template.value).value)
    ensures r.Ok? ==> "DEFAULT" !in BatchProcessing.Sections(r.value.1)
  {
    if EndsWith(path, ".ghg") then
      match extract(path)
      case None => Err("extraction failed")
      case Some((agg, meta)) =>
        match MetadataRow(meta)
        case Err(e) => Err(e)
        case Ok(row) => Ok((agg, row))
    else
      match template
      case None => Err("AttributeError: no metaDataTemplate")
      case Some(t) =>
        match MetadataRow(t)
        case Err(e) => Err(e)
        case Ok(row) => Ok((readData(path), row))
  }
}
