/** The LI-7200 `co2app.conf` reader (readLiConfigFiles.py). The instrument
    writes its settings as nested parentheses, `(calibrate (co2 (zero 0)))`;
    `parse` rewrites each parenthesised group into INI text and `readConfig`
    keeps the calibration entries listed in the reader's calibration map. */
module LiConfig {
  import opened Text
  import opened EventLogs

  // ---------------------------------------------------------------------------
  // re.findall(r'\((.+?)\)', s)

  /** A `)` at `j` closes a group opened at `open`: `.+?` needs at least one
      character, and `.` does not match a newline. */
  predicate Closes(s: string, open: nat, j: int) {
    open + 2 <= j < |s| && s[j] == ')' && forall i :: open < i < j ==> s[i] != '\n'
  }

  /** The `)` that the non-greedy `.+?` stops at: the first one that closes. */
  function CloseAt(s: string, open: nat, k: nat): (r: Option<nat>)
    requires open < k <= |s|
    requires forall i :: open < i < k ==> s[i] != '\n'
    requires forall j :: open < j < k ==> !Closes(s, open, j)
    ensures r.Some? ==> Closes(s, open, r.value)
    ensures r.Some? ==> forall j :: open < j < r.value ==> !Closes(s, open, j)
    ensures r.None? ==> forall j :: !Closes(s, open, j)
    decreases |s| - k
  {
    if k == |s| then None
    else if s[k] == '\n' then None
    else if s[k] == ')' && open + 2 <= k then Some(k)
    else CloseAt(s, open, k + 1)
  }

  /** The group a closing `)` delimits satisfies `ValidGroup`. */
  lemma ClosedGroupValid(s: string, j: nat)
    requires Closes(s, 0, j) && forall i :: 0 < i < j ==> !Closes(s, 0, i)
    ensures ValidGroup(s[1..j])
  {
    var g := s[1..j];
    forall i | 0 <= i < |g| ensures g[i] == s[i + 1] && g[i] != '\n' {
    }
    forall i | 1 <= i < |g| ensures g[i] != ')' {
      assert !Closes(s, 0, i + 1);
    }
  }

  /** The captured groups of `re.findall(r'\((.+?)\)', s)`, in order of
      appearance; after a match the scan resumes behind its `)`. */
  function FindGroups(s: string): (gs: seq<string>)
    ensures forall k :: 0 <= k < |gs| ==> ValidGroup(gs[k])
    decreases |s|
  {
    if s == [] then []
    else if s[0] == '(' then
      match CloseAt(s, 0, 1)
      case Some(j) =>
        ClosedGroupValid(s, j);
        [s[1..j]] + FindGroups(s[j + 1..])
      case None => FindGroups(s[1..])
    else FindGroups(s[1..])
  }

  /** What a captured group can be: non-empty, on one line, and with no `)`
      after its first character. */
  predicate ValidGroup(g: string) {
    |g| >= 1 && '\n' !in g && forall i :: 1 <= i < |g| ==> g[i] != ')'
  }

  /** The text `(g1)(g2)...`, each group in its own parentheses. */
  function Wrapped(gs: seq<string>): string {
    if gs == [] then "" else "(" + gs[0] + ")" + Wrapped(gs[1..])
  }

  /** `findall` recovers exactly the groups of a text written as `(g1)(g2)...`. */
  lemma {:induction false} FindGroupsWrapped(gs: seq<string>)
    requires forall k :: 0 <= k < |gs| ==> ValidGroup(gs[k])
    ensures FindGroups(Wrapped(gs)) == gs
    decreases |gs|
  {
    if gs != [] {
      var g := gs[0];
      var rest := Wrapped(gs[1..]);
      var s := "(" + g + ")" + rest;
      assert s == Wrapped(gs);
      var j := |g| + 1;
      assert s[j] == ')';
      assert s[1..j] == g;
      forall i | 0 < i < j ensures s[i] == g[i - 1] {
      }
      assert Closes(s, 0, j);
      forall i | 0 < i < j ensures !Closes(s, 0, i) {
        if 2 <= i { assert s[i] == g[i - 1]; }
      }
      assert CloseAt(s, 0, 1) == Some(j);
      assert s[j + 1..] == rest;
      FindGroupsWrapped(gs[1..]);
    }
  }

  // ---------------------------------------------------------------------------
  // The INI text of one group

  /** One `[section]` line per tag, spaces removed from the tag. */
  function SectionLines(tags: seq<string>): string {
    if tags == [] then ""
    else SectionLines(tags[..|tags| - 1]) + SectionLine(Last(tags))
  }

  function SectionLine(tag: string): (line: string)
    ensures ' ' !in line
  {
    ReplaceCharRemoves(tag, ' ', "");
    "\n[" + ReplaceAll(tag, " ", "") + "]\n"
  }

  /** The group holds a `(`: it opens sections. */
  predicate Nested(v: string) {
    '(' in v
  }

  /** The INI text written for one captured group `v`. */
  function FormatGroup(v: string): string {
    if Nested(v) then
      var pieces := Split(v, "(");
      SectionLines(pieces[..|pieces| - 1]) + ReplaceFirst(Last(pieces), " ", "=")
    else if ' ' !in v then "\n" + v + "="
    else "\n" + ReplaceFirst(v, " ", "=")
  }

  /** The whole text `parse` hands to the INI parser. */
  function FormatAll(gs: seq<string>): string {
    if gs == [] then "" else FormatAll(gs[..|gs| - 1]) + FormatGroup(Last(gs))
  }

  /** Each group is formatted on its own: the text for `gs1 + gs2` is the text
      for `gs1` followed by the text for `gs2`. */
  lemma {:induction false} FormatAllConcat(gs1: seq<string>, gs2: seq<string>)
    ensures FormatAll(gs1 + gs2) == FormatAll(gs1) + FormatAll(gs2)
    decreases |gs2|
  {
    if gs2 != [] {
      var init := gs2[..|gs2| - 1];
      assert (gs1 + gs2)[..|gs1 + gs2| - 1] == gs1 + init;
      assert Last(gs1 + gs2) == Last(gs2);
      FormatAllConcat(gs1, init);
    } else {
      assert gs1 + gs2 == gs1;
    }
  }

  /** A key/value group `k v...` (no `(`, key without spaces) becomes the line
      `k=v...`: only the first space turns into `=`. */
  lemma KeyValueLine(k: string, value: string)
    requires ' ' !in k && '(' !in k && '(' !in value
    ensures FormatGroup(k + " " + value) == "\n" + k + "=" + value
  {
    var v := k + " " + value;
    NoOpenParen(k, value);
    assert v[|k|..|k| + 1] == " ";
    forall j | 0 <= j < |k| ensures !OccursAt(v, " ", j) {
      assert v[j..j + 1] == [k[j]];
    }
    ReplaceFirstFound(v, " ", "=", |k|);
    assert v[..|k|] == k;
    assert v[|k| + 1..] == value;
    assert ' ' in v;
  }

  lemma NoOpenParen(k: string, value: string)
    requires '(' !in k && '(' !in value
    ensures '(' !in k + " " + value
  {
    var v := k + " " + value;
    forall i | 0 <= i < |v| ensures v[i] != '(' {
      if i < |k| { assert v[i] == k[i]; }
      else if i > |k| { assert v[i] == value[i - |k| - 1]; }
    }
  }

  /** A bare key (no space, no `(`) becomes `k=` with an empty value. */
  lemma BareKeyLine(k: string)
    requires ' ' !in k && '(' !in k
    ensures FormatGroup(k) == "\n" + k + "="
  {
  }

  /** A group `t1(t2(...(last` written as tags joined by `(` opens one section
      per tag, in order, and ends with the key/value line of its last piece. */
  lemma NestedSections(tags: seq<string>, last: string)
    requires tags != []
    requires forall k :: 0 <= k < |tags| ==> '(' !in tags[k]
    requires '(' !in last
    ensures FormatGroup(Join(tags + [last], "(")) == SectionLines(tags) + ReplaceFirst(last, " ", "=")
  {
    var pieces := tags + [last];
    var v := Join(pieces, "(");
    JoinSplit(pieces, '(');
    assert Split(v, "(") == pieces;
    JoinHasSeparator(pieces, "(");
    assert pieces[..|pieces| - 1] == tags;
  }

  /** Joining two or more pieces puts the separator into the text. */
  lemma JoinHasSeparator(pieces: seq<string>, sep: string)
    requires |pieces| >= 2 && |sep| == 1
    ensures sep[0] in Join(pieces, sep)
  {
    var s := Join(pieces, sep);
    assert s == pieces[0] + sep + Join(pieces[1..], sep);
    assert s[|pieces[0]|] == sep[0];
  }

  /** The inner loop of `parse`: one `[section]` line per tag, appended. */
  method AppendSections(text: string, tags: seq<string>) returns (formatted: string)
    ensures formatted == text + SectionLines(tags)
  {
    formatted := text;
    for j := 0 to |tags|
      invariant formatted == text + SectionLines(tags[..j])
    {
      assert tags[..j + 1][..j] == tags[..j];
      formatted := formatted + SectionLine(tags[j]);
    }
    assert tags[..|tags|] == tags;
  }

  /** One pass of the loop of `parse`: the INI text of group `v`, appended. */
  method AppendGroup(text: string, v: string) returns (formatted: string)
    ensures formatted == text + FormatGroup(v)
  {
    if Nested(v) {
      var pieces := Split(v, "(");
      var tags, last := pieces[..|pieces| - 1], Last(pieces);
      assert FormatGroup(v) == SectionLines(tags) + ReplaceFirst(last, " ", "=");
      formatted := AppendSections(text, tags);
      formatted := formatted + ReplaceFirst(last, " ", "=");
    } else if ' ' !in v {
      var line := "\n" + v + "=";
      assert FormatGroup(v) == line;
      formatted := text + line;
    } else {
      var line := "\n" + ReplaceFirst(v, " ", "=");
      assert FormatGroup(v) == line;
      formatted := text + line;
    }
  }

  /** The loop of `parse` that accumulates the INI text group by group. */
  method Format(groups: seq<string>) returns (formatted: string)
    ensures formatted == FormatAll(groups)
  {
    formatted := "";
    for i := 0 to |groups|
      invariant formatted == FormatAll(groups[..i])
    {
      formatted := AppendGroup(formatted, groups[i]);
      assert groups[..i + 1][..i] == groups[..i];
    }
    assert groups[..|groups|] == groups;
  }

  // ---------------------------------------------------------------------------
  // Calibration rows

  /** One INI section as `{section: dict(config[section])}` yields it. */
  datatype IniSection = IniSection(name: string, options: map<string, string>)

  /** A parsed configuration: its sections in file order. */
  type IniDoc = seq<IniSection>

  /** A cell of the calibration table. `Time(raw)` stands for `getTime(raw)`. */
  datatype CalValue = Str(s: string) | Time(raw: string) | Number(n: int) | NotANumber

  type CalRow = map<string, CalValue>

  /** `key in calibrate_map.split(',') and val['date'] != '4Cal'`. */
  predicate Kept(sec: IniSection, mapList: seq<string>)
    requires "date" in sec.options
  {
    sec.options["date"] != "4Cal" && sec.name in mapList
  }

  /** The row `readConfig` appends for a kept section. */
  function RowOf(sec: IniSection): (row: CalRow)
    requires "date" in sec.options
    ensures row.Keys == sec.options.Keys + {"Parameter"} + (if Contains(sec.name, "Zero") then {"target", "tdensity"} else {})
    ensures row["Parameter"] == Str(sec.name)
    ensures row["date"] == Time(sec.options["date"])
    ensures Contains(sec.name, "Zero") ==> row["target"] == Number(0) && row["tdensity"] == NotANumber
    ensures forall k ::
      (k in sec.options && k !in {"date", "Parameter"} && (Contains(sec.name, "Zero") ==> k !in {"target", "tdensity"}))
      ==> row[k] == Str(sec.options[k])
  {
    var base := map k | k in sec.options :: Str(sec.options[k]);
    var dated := base["date" := Time(sec.options["date"])];
    var zeroed := if Contains(sec.name, "Zero") then dated["target" := Number(0)]["tdensity" := NotANumber] else dated;
    zeroed["Parameter" := Str(sec.name)]
  }

  predicate AllDated(doc: IniDoc) {
    forall k :: 0 <= k < |doc| ==> "date" in doc[k].options
  }

  /** Index of the first section without a `date` option (`val['date']`
      raises there), or `|doc|`. */
  function FirstUndated(doc: IniDoc): (u: nat)
    ensures u <= |doc| && AllDated(doc[..u])
    ensures u < |doc| ==> "date" !in doc[u].options
  {
    if doc == [] then 0
    else if "date" !in doc[0].options then 0
    else
      var u := FirstUndated(doc[1..]);
      assert forall k :: 1 <= k < u + 1 ==> doc[k] == doc[1..][k - 1];
      u + 1
  }

  /** The rows of the kept sections, in section order. */
  function CalRows(doc: IniDoc, mapList: seq<string>): seq<CalRow>
    requires AllDated(doc)
  {
    if doc == [] then []
    else
      var init := doc[..|doc| - 1];
      CalRows(init, mapList) + (if Kept(Last(doc), mapList) then [RowOf(Last(doc))] else [])
  }

  /** `row` is the row of some kept section of `doc`. */
  predicate FromKept(doc: IniDoc, mapList: seq<string>, row: CalRow)
    requires AllDated(doc)
  {
    exists j :: 0 <= j < |doc| && Kept(doc[j], mapList) && row == RowOf(doc[j])
  }

  /** Extending the scanned prefix by one dated section adds at most its row. */
  lemma CalRowsSnoc(doc: IniDoc, i: nat, mapList: seq<string>)
    requires i < |doc| && AllDated(doc[..i]) && "date" in doc[i].options
    ensures AllDated(doc[..i + 1])
    ensures CalRows(doc[..i + 1], mapList)
      == CalRows(doc[..i], mapList) + (if Kept(doc[i], mapList) then [RowOf(doc[i])] else [])
  {
    assert doc[..i + 1][..i] == doc[..i];
    assert forall k :: 0 <= k < i ==> doc[..i + 1][k] == doc[..i][k];
  }

  /** Every row comes from a kept section, and every kept section gives a row. */
  lemma CalRowsExact(doc: IniDoc, mapList: seq<string>)
    requires AllDated(doc)
    ensures forall k :: 0 <= k < |CalRows(doc, mapList)| ==> FromKept(doc, mapList, CalRows(doc, mapList)[k])
    ensures forall j :: 0 <= j < |doc| && Kept(doc[j], mapList) ==> RowOf(doc[j]) in CalRows(doc, mapList)
  {
    CalRowsSound(doc, mapList);
    CalRowsComplete(doc, mapList);
  }

  lemma {:induction false} CalRowsSound(doc: IniDoc, mapList: seq<string>)
    requires AllDated(doc)
    ensures forall k :: 0 <= k < |CalRows(doc, mapList)| ==> FromKept(doc, mapList, CalRows(doc, mapList)[k])
    decreases |doc|
  {
    if doc != [] {
      var init := doc[..|doc| - 1];
      CalRowsSound(init, mapList);
      var rows := CalRows(doc, mapList);
      var initRows := CalRows(init, mapList);
      assert rows[..|initRows|] == initRows;
      forall k | 0 <= k < |rows| ensures FromKept(doc, mapList, rows[k]) {
        if k < |initRows| {
          assert rows[k] == initRows[k];
          assert FromKept(init, mapList, initRows[k]);
          var j :| 0 <= j < |init| && Kept(init[j], mapList) && initRows[k] == RowOf(init[j]);
          assert doc[j] == init[j];
          assert 0 <= j < |doc| && Kept(doc[j], mapList) && rows[k] == RowOf(doc[j]);
        } else {
          var j := |doc| - 1;
          assert Kept(doc[j], mapList) && rows[k] == RowOf(doc[j]);
        }
      }
    }
  }

  lemma {:induction false} CalRowsComplete(doc: IniDoc, mapList: seq<string>)
    requires AllDated(doc)
    ensures forall j :: 0 <= j < |doc| && Kept(doc[j], mapList) ==> RowOf(doc[j]) in CalRows(doc, mapList)
    decreases |doc|
  {
    if doc != [] {
      var init := doc[..|doc| - 1];
      CalRowsComplete(init, mapList);
      var rows := CalRows(doc, mapList);
      var initRows := CalRows(init, mapList);
      assert rows[..|initRows|] == initRows;
      forall j | 0 <= j < |doc| && Kept(doc[j], mapList) ensures RowOf(doc[j]) in rows {
        if j < |init| {
          assert doc[j] == init[j];
          assert RowOf(init[j]) in initRows;
        }
      }
    }
  }

  /** Every row names a parameter of the calibration map, and its section was
      not dated `4Cal`. */
  lemma {:induction false} CalRowsKeptOnly(doc: IniDoc, mapList: seq<string>)
    requires AllDated(doc)
    ensures forall row: CalRow :: row in CalRows(doc, mapList) ==>
      "Parameter" in row && "date" in row && row["Parameter"].Str? && row["Parameter"].s in mapList && row["date"] != Time("4Cal")
  {
    CalRowsExact(doc, mapList);
    forall row: CalRow | row in CalRows(doc, mapList)
      ensures "Parameter" in row && "date" in row && row["Parameter"].Str? && row["Parameter"].s in mapList && row["date"] != Time("4Cal")
    {
      var k :| 0 <= k < |CalRows(doc, mapList)| && CalRows(doc, mapList)[k] == row;
      assert FromKept(doc, mapList, row);
      var j :| 0 <= j < |doc| && Kept(doc[j], mapList) && row == RowOf(doc[j]);
    }
  }

  /** The region of the file `readConfig` parses: after the last occurrence of
      the first marker and before the next occurrence of the second. `None`
      where Python raises (fewer than two markers, or an empty one). */
  function CalibrateText(file: string, calibrate: string): (r: Option<string>)
    ensures r.Some? ==> |Split(calibrate, ",")| >= 2 && Split(calibrate, ",")[0] != [] && Split(calibrate, ",")[1] != []
    ensures r.Some? ==> !Contains(r.value, Split(calibrate, ",")[1])
    ensures r.Some? ==> !Contains(r.value, Split(calibrate, ",")[0]) || Contains(Split(calibrate, ",")[0], Split(calibrate, ",")[1])
  {
    var splits := Split(calibrate, ",");
    if |splits| < 2 || splits[0] == [] || splits[1] == [] then None
    else
      var after := Last(Split(file, splits[0]));
      SplitEndsFree(file, splits[0]);
      SplitEndsFree(after, splits[1]);
      var region := Split(after, splits[1])[0];
      PrefixAvoids(region, after, splits[0], splits[1]);
      Some(region)
  }

  /** The first piece of `t.split(b)` is a prefix of `t`, so it avoids
      whatever `t` avoids (unless `a` can be cut short at a `b`). */
  lemma PrefixAvoids(region: string, t: string, a: string, b: string)
    requires a != [] && b != [] && !Contains(t, a)
    requires region == Split(t, b)[0]
    ensures !Contains(region, a) || Contains(a, b)
  {
    match Find(t, b)
    case None =>
    case Some(i) =>
      assert region == t[..i];
      forall j | 0 <= j <= |region| && OccursAt(region, a, j) ensures false {
        assert t[j..j + |a|] == region[j..j + |a|];
        assert OccursAt(t, a, j);
      }
  }

  // ---------------------------------------------------------------------------
  // The reader

  datatype Outcome = Done | Failed(reason: string)

  /** `read_LI_Config`: the parsed sections by name, the growing calibration
      table, and the event log errors go to. */
  class ConfigReader {
    var parsedConfig: map<string, IniDoc>
    var calData: seq<CalRow>
    const log: EventLog
    /** `ini_CO2APP['calibrate']`: the two region markers, comma-separated. */
    const calibrate: string
    /** `ini_CO2APP['calibrate_map']`: the kept parameters, comma-separated. */
    const calibrateMap: string

    constructor (log: EventLog, calibrate: string, calibrateMap: string)
      ensures this.log == log && this.calibrate == calibrate && this.calibrateMap == calibrateMap
      ensures parsedConfig == map[] && calData == []
    {
      this.log := log;
      this.calibrate := calibrate;
      this.calibrateMap := calibrateMap;
      parsedConfig := map[];
      calData := [];
    }

    /** `parse(string, key, TimeStamp)`: rewrites the groups of `text` into INI
        text and stores what `ini` makes of it under `key`; when `ini` fails,
        an error is logged and `parsedConfig` is left as it was. */
    method Parse(text: string, key: string, t: int, ini: string -> Option<IniDoc>)
      modifies this, log
      ensures calData == old(calData)
      ensures ini(FormatAll(FindGroups(text))).Some? ==>
        parsedConfig == old(parsedConfig)[key := ini(FormatAll(FindGroups(text))).value]
        && log.flags == old(log.flags)
      ensures ini(FormatAll(FindGroups(text))).None? ==>
        parsedConfig == old(parsedConfig)
        && log.flags == Logged(old(log.flags), t, IssueText("Calibration", "Unable to Parse " + key + " from .conf"))
    {
      var groups := FindGroups(text);
      var formatted := Format(groups);
      match ini(formatted)
      case Some(doc) =>
        parsedConfig := parsedConfig[key := doc];
      case None =>
        log.ErrorLog("Calibration", "Unable to Parse " + key + " from .conf", t);
    }

    /** `readConfig(file, TimeStamp)`: parses the calibration region of `file`
        and appends one row per kept section to `calData`. A missing marker,
        a failed parse or a section without `date` raise in Python; here they
        end in `Failed`, with the rows appended before a missing `date` kept. */
    method ReadConfig(file: string, t: int, ini: string -> Option<IniDoc>) returns (r: Outcome)
      modifies this, log
      ensures CalibrateText(file, calibrate).None? ==>
        r.Failed? && calData == old(calData) && parsedConfig == map[] && log.flags == old(log.flags)
      ensures CalibrateText(file, calibrate).Some? ==>
        var doc := ini(FormatAll(FindGroups(CalibrateText(file, calibrate).value)));
        if doc.None? then
          r.Failed? && calData == old(calData) && parsedConfig == map[]
          && log.flags == Logged(old(log.flags), t, IssueText("Calibration", "Unable to Parse " + "calibrate" + " from .conf"))
        else
          var u := FirstUndated(doc.value);
          parsedConfig == map["calibrate" := doc.value]
          && calData == old(calData) + CalRows(doc.value[..u], Split(calibrateMap, ","))
          && log.flags == old(log.flags)
          && (r.Done? <==> u == |doc.value|)
    {
      parsedConfig := map[];
      var region := CalibrateText(file, calibrate);
      if region.None? {
        return Failed("calibrate markers");
      }
      Parse(region.value, "calibrate", t, ini);
      if "calibrate" !in parsedConfig {
        return Failed("KeyError: calibrate");
      }
      r := AppendCalRows(parsedConfig["calibrate"], Split(calibrateMap, ","));
    }

    /** The loop of `readConfig` over the parsed sections: appends the row of
        each kept section, stopping with `Failed` at a section without `date`. */
    method AppendCalRows(doc: IniDoc, mapList: seq<string>) returns (r: Outcome)
      modifies this
      ensures parsedConfig == old(parsedConfig)
      ensures calData == old(calData) + CalRows(doc[..FirstUndated(doc)], mapList)
      ensures r.Done? <==> FirstUndated(doc) == |doc|
    {
      var u := FirstUndated(doc);
      var i := 0;
      while i < |doc|
        invariant 0 <= i <= u
        invariant parsedConfig == old(parsedConfig)
        invariant AllDated(doc[..i])
        invariant calData == old(calData) + CalRows(doc[..i], mapList)
        decreases |doc| - i
      {
        var sec := doc[i];
        if "date" !in sec.options {
          assert i == u;
          return Failed("KeyError: date");
        }
        CalRowsSnoc(doc, i, mapList);
        if Kept(sec, mapList) {
          calData := calData + [RowOf(sec)];
        }
        i := i + 1;
      }
      assert i == u == |doc|;
      return Done;
    }
  }
}
