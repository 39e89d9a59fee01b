# EddyPro_API bookkeeping, modelled in Dafny

EddyPro_API automates flux recalculation with the EddyPro binary. It scans raw
`.ghg` and `.dat` files into a half-hourly file inventory. It parses each file's
metadata and statistics, groups the half-hours by site configuration and flags
files that fail the configured filters. Finally it cuts each configuration
group into batches, or runs, and writes one EddyPro project file per run.

This project models that bookkeeping and proves what it promises:

- `tables`, `text`, `glob`: pandas tables as maps from timestamp to row, and
  Python's string operations and `fnmatch` written out over `seq<char>`.
- `inventory`, `grid`, `batch_processing`, `handle_files`, `pre_processing`:
  - which files enter the inventory, and under what name and timestamp;
  - the half-hourly first-per-slot grid and the incremental merge;
  - the off-grid (incomplete) flag and renaming;
  - the flattening of `.metadata` sections, and the naming of data columns.
- `grouping`, `filters`: configuration fingerprints, group labels, and the
  filter-flag rules that take a file out of its group.
- `batching`, `setup_ep`: the recommended group size, the number of batches,
  and the equal-frequency rp slices with the one fcc batch per group. Also the
  per-thread split of each metadata file's timestamps.
- `metadata_files`, `merge_stats`, `parse_file`, `li_config`:
  - the `.metadata` and `.eddypro` files written per group;
  - the header aliasing and column choice;
  - the LI-7200 configuration reader.
- `numbering`, `sub_path`, `event_log`: first-seen set-up numbers, path
  templates, and the per-timestamp issue log.

The objects the source mutates are classes here:

- `EddyProApi.Api`
- `ParseFile.Parser`
- `PreProcessing.ReadAll`
- `SetupEP.MakeRun`
- `EventLogs.EventLog`
- `LiConfig.ConfigReader`

Each of their methods is proved against specification functions over the old
state. Pure parts are functions, with lemmas relating them to independent
definitions.

Conventions:

- Timestamps are integer seconds. The half-hour slot is 1800 seconds, and a
  time shift of `m` minutes adds `60 * m`.
- Regular-expression search, `strptime`/`strftime`, calendar fields, `eval`
  of filter conditions, INI parsing and the statistics themselves are
  parameters of the operations that use them.
- A Python exception is an `Err` (or an error out-parameter of a method), and
  its text names the exception.
- Group labels follow the code. `groupby(...).grouper.group_info` numbers
  groups in sorted key order, so labels are ranks of the fingerprints.
  First-seen order holds only for the set-up numbers of
  preProcessing.py:219-224, and that is what `Numbering` models.
- `mergeStats` is modelled on its own text: each entry is `(name, stats, meta)`.
  The shipped `Parser.readFile` returns a pair, so it cannot feed that method
  as written.

## Model

| member | source | states |
|---|---|---|
| Glob.LiteralMatch | eddyProAPI.py:353-356 | a grouping pattern without `*` or `?` selects exactly the column of that name, and only it |
| Glob.LiteralHead | eddyProAPI.py:429-430 | a pattern with a literal head matches exactly the names that start with that head and whose rest matches the remaining pattern |
| Glob.StarLiteral | eddyProAPI.py:716 | `*` followed by literal text matches exactly the names ending in that text |
| Glob.StemPattern | eddyProAPI.py:429-430 | `instr_*_model` and `col_*_variable`: a name matches iff it starts with the prefix and the rest after the prefix ends with the suffix |
| Glob.Filter | eddyProAPI.py:356 | `fnmatch.filter` keeps a name iff it is among the input names and matches the pattern, and never yields more names than it was given |
| Glob.FilterKeepsOrder | eddyProAPI.py:356 | filtering a concatenation is the concatenation of the filtered parts, so the kept names stay in input order |
| Glob.FilterSnoc | eddyProAPI.py:356 | one more name at the end is kept at the end exactly when it matches |
| Grouping.KeysIn | eddyProAPI.py:356 | the keys of a section are exactly the second halves of the columns under that section |
| Grouping.Matches | eddyProAPI.py:353-356 | the comprehension yields a column iff it lies in the section and its key matches one of the section's patterns |
| Grouping.Select | eddyProAPI.py:353-365 | `grouper`/`tracker` raise iff some listed section is absent from the metadata; `passer` skips such sections; otherwise a column is selected iff it exists and the instructions name it |
| Grouping.NormCell | eddyProAPI.py:366-367 | after `fillna` and `replace('')` a grouping cell is never empty: a missing or empty value becomes the NaN tag, any other value is kept |
| Grouping.Normalise | eddyProAPI.py:366-367 | both replacements touch only the grouping and pass columns, add them where missing, and leave every other cell and every row as it was |
| Grouping.NormalRow | eddyProAPI.py:366-367 | one row: the selected columns hold their normalised values, the others keep theirs |
| Grouping.NormaliseIdempotent | eddyProAPI.py:366-367 | after normalisation no selected cell is missing or empty, and normalising again changes nothing |
| Grouping.NormalRowIdempotent | eddyProAPI.py:366-367 | normalising a row twice is normalising it once |
| Grouping.StrLessIrreflexive | eddyProAPI.py:371 | the string order `groupby` sorts keys by is irreflexive |
| Grouping.StrLessTransitive | eddyProAPI.py:371 | the string order is transitive |
| Grouping.StrLessTotal | eddyProAPI.py:371 | any two different strings are ordered one way or the other |
| Grouping.CellLessIrreflexive | eddyProAPI.py:371 | the cell order is irreflexive |
| Grouping.CellLessTransitive | eddyProAPI.py:371 | the cell order is transitive |
| Grouping.CellLessTotal | eddyProAPI.py:371 | any two different cells are ordered |
| Grouping.KeyLessIrreflexive | eddyProAPI.py:371 | the lexicographic order of group keys is irreflexive |
| Grouping.KeyLessTransitive | eddyProAPI.py:371 | the key order is transitive |
| Grouping.KeyLessTotal | eddyProAPI.py:371 | any two different keys are ordered, so sorting the distinct keys is well defined |
| Grouping.KeyOf | eddyProAPI.py:371 | a row's group key holds its normalised value of each grouping column, in grouper order |
| Grouping.Labels | eddyProAPI.py:370-372 | every row of the metadata gets a label, one more than its key's rank |
| Grouping.RankBound | eddyProAPI.py:371 | a key's rank lies below the number of distinct keys |
| Grouping.RankStrict | eddyProAPI.py:371 | a key that sorts first has the smaller rank |
| Grouping.RankInjective | eddyProAPI.py:371 | different keys get different ranks |
| Grouping.RankOnto | eddyProAPI.py:371 | every rank below the number of distinct keys is taken by some key |
| Grouping.ImageSize | eddyProAPI.py:371 | ranking a set of keys yields as many ranks as keys |
| Grouping.Below | eddyProAPI.py:371 | the label range `0 .. n-1` has exactly `n` members |
| Grouping.SubsetSize | eddyProAPI.py:371 | a subset is no larger than its superset |
| Grouping.StrictSubsetSize | eddyProAPI.py:371 | a subset missing an element is strictly smaller |
| Grouping.LabelsDense | eddyProAPI.py:370-372 | every row's label lies in `1 .. k` for `k` distinct keys, and every label in that range is used |
| Grouping.LabelsAgree | eddyProAPI.py:370-372 | two rows share a label iff their normalised grouping values agree, and the row whose key sorts first has the smaller label |
| Grouping.Relabel | eddyProAPI.py:373-375 | dropping the label column and joining new labels keeps every row and every other cell; a labelled row gets its label, an unlabelled one gets the fill value or nothing |
| Grouping.LabelRow | eddyProAPI.py:373-375 | one row relabelled: the label column holds the new value or is absent, every other column is unchanged |
| Grouping.RelabelForgetsOld | eddyProAPI.py:373-375 | the old labels are replaced wholesale: tables differing only in the label column relabel to the same table |
| Grouping.Summary | eddyProAPI.py:382-386 | a group's summary counts exactly its members (at least one) and takes its `first` values from one of them |
| Grouping.ConfigurationGroups | eddyProAPI.py:382-386 | `configurationGroups` has a row exactly for each label in use, holding that label's summary |
| Grouping.Ids | eddyProAPI.py:377 | `groupLabels.unique()` holds exactly the labels some row carries |
| Grouping.MembersNonEmpty | eddyProAPI.py:382 | a label in use has at least one member |
| Grouping.SummaryIsKey | eddyProAPI.py:383-384 | every row of a group holds that group's first value in each grouping column |
| Grouping.SummaryShares | eddyProAPI.py:383-384 | the group's summary carries a row's own grouping value |
| Filters.Label | eddyProAPI.py:519 | the text a firing adds starts with the rule name, holds a colon, and ends with the condition |
| Filters.AppendFlag | eddyProAPI.py:519 | the appended flag ends with the new entry, and after a firing the flag is no longer the NaN tag |
| Filters.LStripKeeps | eddyProAPI.py:519 | stripping leading commas keeps every other character of the text |
| Filters.LStripAppend | eddyProAPI.py:519 | stripping leading commas off `a + b` stops inside `a` when `b` does not start with a comma |
| Filters.FirstFlag | eddyProAPI.py:491-519 | the first firing on a reset file replaces the NaN tag by the entry |
| Filters.NextFlag | eddyProAPI.py:519 | a later firing appends `,entry` to a flag that already holds entries |
| Filters.CleanJoin | eddyProAPI.py:519 | entries joined by a comma never form a NaN tag, so later firings delete nothing |
| Filters.AppendAllOnto | eddyProAPI.py:519 | firing on flags that already hold entries adds every entry in order, duplicates included |
| Filters.CommaAssoc | eddyProAPI.py:519 | comma-joining is associative |
| Filters.AppendAllFromTag | eddyProAPI.py:491-519 | from the reset tag, a file's flags are its entries joined by commas, in firing order, with no deduplication |
| Filters.FlagsReadBack | eddyProAPI.py:519 | entries without commas are read back exactly by `split(',')` |
| Filters.HeaderName | eddyProAPI.py:504 | a header name is `col_` + number + `_header_name` |
| Filters.HeaderNameInjective | eddyProAPI.py:504 | different column numbers give different header names |
| Filters.ColumnNumber | eddyProAPI.py:499 | `split('_')[1]` raises exactly when the key has no underscore |
| Filters.ColumnNumberOf | eddyProAPI.py:499 | the number is read back from every `col_<k>_<field>` key |
| Filters.HeaderNameNumber | eddyProAPI.py:499-504 | the number of a header name is the number it was built from |
| Filters.MatchedNumbers | eddyProAPI.py:498-501 | the lookup raises iff a wanted cell's key lacks an underscore; otherwise it lists exactly the numbers of the cells holding a wanted variable or the measure type |
| Filters.FirstIndex | eddyProAPI.py:504 | the first position holding a value |
| Filters.FirstIndexPrefix | eddyProAPI.py:504 | a value's first position does not change when the list grows |
| Filters.Distinct | eddyProAPI.py:504 | `Counter(lst).keys()`: each value once, in order of first appearance |
| Filters.DistinctSnoc | eddyProAPI.py:504 | first positions in a prefix are first positions in the whole list |
| Filters.MaxCount | eddyProAPI.py:505 | `max(Counter(lst).values())` bounds every count and is reached by some key |
| Filters.Modes | eddyProAPI.py:504-505 | the keys whose count equals the maximum, kept in key order |
| Filters.ModesCons | eddyProAPI.py:504-505 | keeping or dropping the first key preserves key order |
| Filters.TopNumbers | eddyProAPI.py:503-505 | a number is kept iff it occurs and no number occurs more often; kept numbers follow first appearance; a non-empty list keeps at least one |
| Filters.TopNumbersFacts | eddyProAPI.py:503-505 | the same facts proved for the composition of `Distinct`, `MaxCount` and `Modes` |
| Filters.HeaderColumns | eddyProAPI.py:498-505 | the header names raise iff the number lookup raises |
| Filters.HeaderNames | eddyProAPI.py:504 | one header name per number, in order |
| Filters.HeaderColumnsAreModes | eddyProAPI.py:498-505 | the header names found are those of the most often matched numbers, each once, and a group with any match gets at least one |
| Filters.BothBeatsOne | eddyProAPI.py:500-505 | a column matching both the variable and the measure type beats a column matching only one of them |
| Filters.FileDescriptionRow | eddyProAPI.py:498 | the group's FileDescription row holds exactly its FileDescription cells |
| Filters.HeaderValues | eddyProAPI.py:509 | looking up the header values raises iff a header is not a `Custom` column; otherwise one value per header, in order |
| Filters.RaiseRow | eddyProAPI.py:519 | flagging a row changes only its flag, which becomes the appended text |
| Filters.Raise | eddyProAPI.py:519-521 | flagging changes only the flags of the chosen rows, each becomes the appended text and is no longer the tag; other rows stay as they were |
| Filters.RaiseFacts | eddyProAPI.py:519-521 | the same facts for the map comprehension itself |
| Filters.Chain | eddyProAPI.py:492-521 | "only flags change", "a flag that changes is raised" and "a raised flag stays raised" compose along the pass |
| Filters.StatsPass | eddyProAPI.py:512-521 | with the NaN tag among the header values every file of the group is flagged; otherwise every timestamp the test flags is in the inventory and flagged; only flags change |
| Filters.GroupPass | eddyProAPI.py:498-521 | a condition without `measure_type` raises KeyError (line 500 has no default); otherwise one group under one condition changes only flags, and only by raising them |
| Filters.GroupOrder | eddyProAPI.py:507 | the groups are visited in index order, each a group of `configurationGroups` |
| Filters.GroupsPass | eddyProAPI.py:497-521 | without `measure_type` the pass raises KeyError iff there is a group to apply the lambda to; it changes only flags, and only by raising them |
| Filters.ConditionPass | eddyProAPI.py:497-521 | `configurationGroups['FileDescription']` raises KeyError, before any group and even with none, when no column lies under `FileDescription`; with that level and no groups nothing changes; with it and no `measure_type` the condition raises iff there is a group; only flags change, and only by raising them |
| Filters.ConditionsPass | eddyProAPI.py:495-521 | the pass over a rule's conditions changes only flags, and only by raising them |
| Filters.StatsStep | eddyProAPI.py:512-521 | the statistics loop is statistic `i` (tag → every group row; otherwise the test's rows, or KeyError), then the rest |
| Filters.RulesStep | eddyProAPI.py:492 | the rules loop is rule `i`'s conditions, then the remaining rules |
| Filters.ConditionsStep | eddyProAPI.py:495 | the conditions loop is condition `i` over every group, then the rest |
| Filters.GroupsStep | eddyProAPI.py:507 | the groups loop is group `ids[i]`, then the remaining groups |
| Filters.RulesPass | eddyProAPI.py:492-521 | the pass over all rules changes only flags, and only by raising them |
| Filters.ResetFlags | eddyProAPI.py:491 | every file's flag is reset to the NaN tag and nothing else changes |
| Filters.Exclude | eddyProAPI.py:523 | a flagged file gets group `intNaN`; an unflagged one is left as it was |
| Filters.FilterPassExcludes | eddyProAPI.py:491-523 | after `filterData` no file is added or lost, every flagged file has group `intNaN`, and every unflagged file keeps every cell but its reset flag |
| Filters.SameButFlagTrans | eddyProAPI.py:491-523 | "differs at most in the flag" is transitive |
| Filters.ExcludeFacts | eddyProAPI.py:523 | the exclusion step's facts, stated against the original inventory |
| Batching.DivLe | eddyProAPI.py:596 | `np.floor(a / d)` for a positive divisor is the largest `q` with `q * d <= a` |
| Batching.MulMono | eddyProAPI.py:596 | multiplying by a non-negative number keeps order |
| Batching.OptionMinimum | eddyProAPI.py:586-591 | an option's minimum is the table's entry for the user's value when listed, else for the static value; an unlisted value asks for one file; reading a static option the template lacks raises iff the user's value does not decide |
| Batching.SectionMinimum | eddyProAPI.py:584-591 | the running minimum is reassigned on every option, so a section yields its last option's minimum (an empty section keeps the carried value); it raises iff some option's lookup raises |
| Batching.Recommended | eddyProAPI.py:582-592 | `self.minN` never drops below its starting value |
| Batching.SectionCarry | eddyProAPI.py:583-591 | what is carried into a nonempty section does not matter |
| Batching.RecommendedIsLargest | eddyProAPI.py:582-592 | the recommended minimum raises iff some section's lookup raises; otherwise it is at least every nonempty section's last-option minimum and equals one of them or the starting value |
| Batching.BatchCount | eddyProAPI.py:595-597 | the batch count raises iff the clamped batch size is zero; otherwise it is at most `processes`, at least 1 when `processes >= 1`, and at most the group size |
| Batching.BatchCountBelow | eddyProAPI.py:596-597 | `max(1, floor(n / size))` never exceeds a positive group size |
| Batching.OnlyLargeGroupsSplit | eddyProAPI.py:595-597 | with `1 <= min <= max`, a group no larger than `max` gets one batch, a larger one `min(processes, n // max)` |
| Batching.QcutLabels | eddyProAPI.py:565-567 | `qcut` refuses fewer than one bin and a single position cut into several bins; otherwise each of the `n` positions gets its bin label |
| Batching.CeilAtMost | eddyProAPI.py:567 | `ceil(a / d) <= b` iff `a <= b * d` |
| Batching.CeilAtLeast | eddyProAPI.py:567 | `ceil(a / d) >= b` iff `a > (b - 1) * d` |
| Batching.BinAtMost | eddyProAPI.py:567 | a position's label is at most `b` iff the position is at most the block end `Hi(b)` |
| Batching.BinAtLeast | eddyProAPI.py:567 | a position's label is at least `b` iff the position is at least the block start `Lo(b)` |
| Batching.BinBlock | eddyProAPI.py:567 | label `b` is carried exactly by the positions `Lo(b) .. Hi(b)` |
| Batching.BinBounds | eddyProAPI.py:566-567 | every label lies in `1 .. nBatches` |
| Batching.BinMonotone | eddyProAPI.py:567 | labels never decrease along the positions, so each batch is contiguous |
| Batching.HiBounds | eddyProAPI.py:567 | every block end lies in `0 .. n-1`, and the last block ends at `n - 1` |
| Batching.HiStep | eddyProAPI.py:567 | with at most one bin per position, consecutive block ends strictly increase |
| Batching.BlockBounds | eddyProAPI.py:567 | the blocks are nonempty, start at 0, end at `n - 1`, and each starts right after the previous one ends |
| Batching.Span | eddyProAPI.py:562 | the integers `lo .. hi`, `hi - lo + 1` of them |
| Batching.LabelSetIsBlock | eddyProAPI.py:567-568 | every label `1 .. k` is used, by the contiguous block of positions `Lo(b) .. Hi(b)` |
| Batching.BatchLetter | eddyProAPI.py:569 | `chr(ord('@') + id)` has code point `64 + id`, an upper-case letter for labels 1 to 26 |
| Batching.IntToStringChars | eddyProAPI.py:569 | a rendered group number is a nonempty string of digits and minus signs |
| Batching.IntToStringInjective | eddyProAPI.py:569 | different group numbers render differently |
| Batching.RpNameInjective | eddyProAPI.py:569 | two rp project ids are equal only for the same group and label, so no `rpBatches` entry is overwritten |
| Batching.RpNotFcc | eddyProAPI.py:569-574 | no rp project id is an fcc project id |
| Batching.InSpanIsLabel | eddyProAPI.py:569-573 | a timestamp lies in an rp batch's span iff its position carries that batch's label |
| Batching.IncreasingOrder | eddyProAPI.py:559-561 | along the sorted timestamps, positions and times are in the same order |
| Batching.RpBatchIsLabel | eddyProAPI.py:569-573 | an rp batch starts at the label's minimum timestamp, ends at its maximum plus one file duration, counts the label's files, and spans exactly the timestamps of that label |
| Batching.NextBatchOverlaps | eddyProAPI.py:572-606 | consecutive rp spans follow one another, and when the next file starts within one file duration the earlier window reaches it, so both batches read that file |
| Batching.RpBatches | eddyProAPI.py:568-573 | one rp batch per label `b .. k`, in label order |
| Batching.GroupBatches | eddyProAPI.py:562-578 | a group's batches fail iff `qcut` or a batch name fails; otherwise there are `k` rp batches followed by exactly one fcc batch spanning the whole group |
| Batching.RpBatchesPartition | eddyProAPI.py:562-573 | every file of the group lies in the span of exactly one rp batch, the one of its label, and the rp batches together count every file once |
| Batching.RpBatchesAreLabels | eddyProAPI.py:568-573 | the `b`-th batch of the list is label `b`'s batch and spans exactly that label's timestamps |
| Batching.RpBatchesAt | eddyProAPI.py:568-573 | batch `b` of the list is the batch of label `b` |
| Batching.SumBlocks | eddyProAPI.py:573 | the counts of the first `m` rp batches add up to the end of block `m` plus one, and all of them to the group size |
| Batching.Duration | eddyProAPI.py:572 | `int(file_duration)` of a plain digit string keeps its value; other text is an error (signs, whitespace and underscores are not parsed, see Left out) |
| Batching.RpDirectoryMisroutesFcc | eddyProAPI.py:601-602 | as written, an fcc batch in a temporary directory whose path holds `_rp_` is taken for an rp batch |
| Batching.RpNamesClassified | eddyProAPI.py:569-602 | corrected test on the project id: every rp id is rp and no fcc id is |
| Batching.FccIsNotRp | eddyProAPI.py:574 | an fcc project id never contains `_rp_` |
| Batching.RpRows | eddyProAPI.py:603-606 | an rp batch's rows are exactly the group's inventory rows inside the closed window, holding only their `source` and `filename` cells |
| Batching.FileType | eddyProAPI.py:628-631 | the file type is `"0"` or `"1"` |
| Batching.GroupConfig | eddyProAPI.py:641-655 | a batch's configuration has exactly the static template's nonempty sections and their options; a user setting wins; an evaluated dynamic setting has no backslash; otherwise the column map beats the template |
| Batching.DropNa | eddyProAPI.py:550 | `dropna()` keeps exactly the rows that have every column, unchanged |
| Batching.GroupTimes | eddyProAPI.py:559-561 | a group's timestamps are exactly its inventory rows inside the closed date range, strictly increasing |
| Batching.BatchFileType | eddyProAPI.py:626-631 | the file type is read iff the group has a prototype string, and it is `"0"` iff that string ends in `.ghg` |
| Batching.TimesPlan | eddyProAPI.py:563-578 | a group without timestamps in the range gets no batches; otherwise the plan succeeds iff the minimum lookup, the batch count and the cutting succeed |
| Batching.CutPlan | eddyProAPI.py:569-631 | cutting fails iff the file duration, the prototype or the batch list fails |
| Batching.Snoc | eddyProAPI.py:602-615 | one more `makeBatch`: an rp batch sets its file's rows, an fcc batch appends its file to `fccList` |
| Batching.SnocPrefix | eddyProAPI.py:602-615 | the same step for the `j`-th batch of a group after earlier ones |
| Batching.FccFilesAppend | eddyProAPI.py:615 | the fcc list of two runs of batches is the concatenation of their lists |
| Batching.GroupFcc | eddyProAPI.py:568-615 | one group's batches add its fcc file and nothing else to `fccList` |
| Batching.RpFccFree | eddyProAPI.py:568-615 | rp batches add nothing to `fccList` |
| Batching.RpFccFreePrefix | eddyProAPI.py:568-615 | no prefix of the rp batches adds to `fccList` |
| Batching.PlanStep | eddyProAPI.py:558-578 | the plan of the first `i + 1` groups extends that of the first `i` by group `i`'s batches, and a failing group makes the whole plan fail |
| Batching.PlanErrPersists | eddyProAPI.py:558-578 | a failure in some group makes the whole plan fail |
| Batching.PlanFcc | eddyProAPI.py:558-615 | `fccList` holds exactly one fcc file per group with a timestamp in the range, in group order |
| Batching.RpMapKeys | eddyProAPI.py:602-606 | `rpBatches` has an entry exactly for the project file of each rp batch |
| Batching.RpMapValue | eddyProAPI.py:603-606 | the file of an rp batch whose id is not reused later maps to that batch's rows |
| Batching.BatchFileInjective | eddyProAPI.py:601 | different project ids give different project files |
| Grid.Slot | eddyProAPI.py:254 | a timestamp's half-hour slot is aligned to 30 minutes and is the last such instant at or before it |
| Grid.SlotUnique | eddyProAPI.py:254 | the slot is the only aligned instant less than 30 minutes before the timestamp |
| Grid.Chosen | eddyProAPI.py:254 | `first()` takes a column's value in a slot from no entry iff none offers one; otherwise from the earliest offering entry, the first of equal timestamps |
| Grid.MinTime | eddyProAPI.py:254 | the earliest timestamp of the frame |
| Grid.MaxTime | eddyProAPI.py:254 | the latest timestamp of the frame |
| Grid.Columns | eddyProAPI.py:254 | the resampled frame's columns are exactly those some entry has |
| Grid.ResampleRows | eddyProAPI.py:254 | `resample('30min').first()` has a row for every entry's slot, its rows are exactly the aligned slots from the first entry's to the last's (empty ones included), and each cell is the chosen entry's value (likewise preProcessing.py:105) |
| Grid.EntrySlotKept | eddyProAPI.py:254 | every entry's slot is a row of the result |
| Grid.ResampleCell | eddyProAPI.py:254 | a slot row holds a column iff some entry of the slot offers it, with the chosen entry's value |
| Grid.SlotMonotone | eddyProAPI.py:254 | later timestamps never fall in earlier slots |
| Grid.SingleEntrySlot | eddyProAPI.py:254 | a slot into which exactly one entry falls copies that entry's row (likewise preProcessing.py:105) |
| Grid.SingleEntryRow | eddyProAPI.py:254 | the row built for a slot with one entry is that entry's row |
| Grid.OnlyOffer | eddyProAPI.py:254 | the only entry of a slot is the chosen one for each of its columns |
| Grid.ResampleGridRows | eddyProAPI.py:254 | an inventory already on the grid comes back unchanged row by row |
| Grid.Merge | preProcessing.py:112-115 | the merged inventory keeps every saved row unchanged and adds exactly the scanned rows whose timestamps are new |
| Grid.MergeIdempotent | preProcessing.py:112-115 | merging the same scan again changes nothing, and a scan of known timestamps only leaves the inventory as it was |
| Inventory.ScanAsWrittenAgrees | eddyProAPI.py:219-238 | as written, the scan raises exactly when some listing has a file that is not yet a known source; otherwise it leaves the frame unchanged, as the corrected scan does with any per-file search |
| Inventory.SearchAsWrittenAgrees | eddyProAPI.py:219-238 | as written, `searchRawDir` raises `AttributeError` whenever a listing has a new file, and otherwise ends as the corrected search that finds nothing |
| Inventory.NewFileRaises | eddyProAPI.py:229-237 | on an empty inventory with one directory holding one accepted file, the search as written raises, while the corrected scan adds that file's row |
| Inventory.Basename | eddyProAPI.py:216 | a basename has no path separator and is a suffix of the path |
| Inventory.Fresh | eddyProAPI.py:219 | a file is searched iff it is listed and its name is not among the known source names; the list never grows |
| Inventory.RecordRow | eddyProAPI.py:241-243 | a found file's row has exactly the columns `source`, `filename`, `file_prototype` and `Filter Flags` |
| Inventory.Found | eddyProAPI.py:236-247 | every row a listing adds is the record of one of its files (a file without a record adds none), and there are no more rows than files |
| Inventory.FoundInPrefix | eddyProAPI.py:236-238 | a record found in part of the listing is found in the whole listing |
| Inventory.Scan | eddyProAPI.py:209-249 | scanning only appends: the frame before a listing is a prefix of the frame after it |
| Inventory.InitialFrame | eddyProAPI.py:249 | the saved inventory enters the frame as one row per timestamp, in time order |
| Inventory.Rows | eddyProAPI.py:249 | the rows at the given timestamps, in that order |
| Inventory.InitialFrameCovers | eddyProAPI.py:249 | every saved row is in the frame |
| Inventory.GroupIdCell | eddyProAPI.py:260-262 | a `groupID` cell converts to an integer; the NaN tag becomes `intNaN`; an integer stays as it is |
| Inventory.GroupIdsToInt | eddyProAPI.py:260-262 | the cast rewrites only the `groupID` cells, to their integer values, and keeps every row, every column and every other cell |
| Inventory.Finish | eddyProAPI.py:250-262 | the scan stops with "No Data Found" on an empty inventory and fails when a `groupID` does not convert; in both cases the result is an error, and only then |
| Inventory.ScanStep | eddyProAPI.py:209-249 | the scan is listing `i` against the sources known so far, then the remaining listings |
| Inventory.FreshSkipsKnown | eddyProAPI.py:213-219 | a file whose basename is already a source inside the date range is not searched again |
| Inventory.FinishOnGrid | eddyProAPI.py:250-262 | the inventory lies on the half-hour grid with no gap between its first and last slot, every row has every column, and every `groupID` is an integer |
| Inventory.SavedRowWins | eddyProAPI.py:249-254 | a saved row on the grid is never displaced by a rescanned file of the same slot: `first()` keeps the saved value |
| EddyProApi.Elements | eddyProAPI.py:366 | the set of `grouper + passer` holds exactly the listed columns |
| EddyProApi.FirstPrototype | eddyProAPI.py:401 | a group's `first` prototype is absent iff none of its files has one; otherwise it is the prototype of its earliest file that has one |
| EddyProApi.PrototypeRows | eddyProAPI.py:401 | the group's files that have a prototype |
| EddyProApi.JoinPrototypes | eddyProAPI.py:401-403 | joining the prototypes keeps every group, its count and every other cell, and gives a group a prototype iff one of its files has one |
| EddyProApi.GroupRowsInOrder | eddyProAPI.py:419 | `iterrows()` yields every group with its own row, in label order |
| EddyProApi.Api.constructor | eddyProAPI.py:61-85 | a new object holds the date range, the temporary directory, the process count and the saved tables, with no groups and no batches |
| EddyProApi.Api.SearchRawDir | eddyProAPI.py:209-262 | the scan succeeds iff the scanned frame is nonempty and its `groupID`s convert; on success the inventory is the gridded, filled scan; on failure it is unchanged |
| EddyProApi.Api.FindFiles | eddyProAPI.py:234-238 | the sequential `findFiles` loop returns the records of the directory's files, in listing order |
| EddyProApi.Api.GroupAndFilter | eddyProAPI.py:348-403 | a missing grouping or tracked section fails with nothing changed; an empty grouper fails (`groupby` needs a key) after the pass columns are normalised; otherwise the result is what `GroupedAndFiltered` describes: tables relabelled, groups summarised, metadata files written (their failure stops it), filters run and each group joined with its first prototype |
| EddyProApi.Api.GroupWriteFilter | eddyProAPI.py:366-403 | for chosen columns, the grouping, file writing and filtering leave the tables, the written files and the outcome exactly as `GroupedAndFiltered` describes |
| EddyProApi.Api.WriteAndFilter | eddyProAPI.py:398-403 | the metadata files of the current groups are written, and a failure stops before the filters; otherwise the filters decide the outcome, and on success each group gains its first file prototype |
| EddyProApi.Api.Regroup | eddyProAPI.py:366-397 | the grouping half leaves the three tables relabelled with the labels of the normalised keys, and `configurationGroups` summarising them |
| EddyProApi.Api.FilterData | eddyProAPI.py:485-523 | the rule loop leaves the inventory the filter pass computes, and fails exactly when the pass does |
| EddyProApi.Api.ApplyConditions | eddyProAPI.py:495-521 | the condition loop of one rule leaves the inventory its specification computes |
| EddyProApi.Api.ApplyGroups | eddyProAPI.py:497-521 | the `FileDescription` lookup, then the group loop of one condition, leave the inventory `Filters.ConditionPass` computes and fail exactly when it does |
| EddyProApi.Api.ApplyGroup | eddyProAPI.py:498-521 | one group under one condition: the `measure_type` KeyError, the header lookup, then the statistics loop, as `Filters.GroupPass` computes |
| EddyProApi.Api.BatchesPerGroup | eddyProAPI.py:581-597 | the two nested loops compute the recommended minimum (a warning iff the group is smaller), then the clamped batch size and the batch count; a lookup that raises or a zero batch size fails |
| EddyProApi.Api.MakeBatch | eddyProAPI.py:599-659 | an rp batch records its project file with its inventory rows, an fcc batch is appended to `fccList`; the file type and configuration are those the specification gives |
| EddyProApi.Api.SetupGroups | eddyProAPI.py:540-579 | incomplete inventory rows are dropped; on success `rpBatches` and `fccList` are those of the whole plan, in group order, and the process count is capped at the number of rp batches |
| EddyProApi.Api.SetupAll | eddyProAPI.py:558-579 | the loop over the groups builds the plan's batch lists, and fails exactly when the plan does |
| EddyProApi.Api.SetupGroup | eddyProAPI.py:559-578 | one group: nothing without timestamps; otherwise the group's batches as the specification plans them |
| EddyProApi.Api.CutGroup | eddyProAPI.py:565-578 | a sized group is cut into its planned batches and each is made |
| EddyProApi.Api.MakeBatches | eddyProAPI.py:568-578 | making a group's batches in turn extends both lists exactly as the specification does |
| EddyProApi.Api.MergeStatsStart | eddyProAPI.py:319-322 | `mergeStats(n)` empties the month's buffers |
| EddyProApi.Api.MergeStatsAdd | eddyProAPI.py:323-333 | a file without statistics changes nothing; otherwise both tables, their column levels filled, are appended to the buffers |
| EddyProApi.Api.MergeStatsFlush | eddyProAPI.py:312-316 | `mergeStats()` appends the buffers to the statistics and metadata tables |
| EddyProApi.Api.MakeMetadataFiles | eddyProAPI.py:407-483 | the per-group files are those the specification computes, in label order, and the first failure stops the loop |
| BatchProcessing.Decide | batchProcessing.py:44-67 | after a timestamp is found: a record is kept only if the text parses and the (shifted) timestamp lies inside the date range, bounds included; its prototype is the name with the timestamp replaced by the EddyPro date pattern and its source is `in_dir/inName`; a Python `None` shift raises |
| BatchProcessing.CopyAndCheckAsWritten | batchProcessing.py:40-70 | as written: a name failing any of the four name tests gives the empty record, and an accepted name in which the pattern finds no timestamp raises (`.group(0)` on `None`) |
| BatchProcessing.CopyAndCheck | batchProcessing.py:40-70 | with the `is not None` guard in effect: a rejected name and a name without a timestamp both give the empty record, and a record only comes from an accepted name with a timestamp |
| BatchProcessing.RecordIff | batchProcessing.py:43-67 | a record is returned exactly when the name passes the four tests, holds a timestamp that parses, the shift is usable, and the shifted timestamp lies in the range |
| BatchProcessing.RecordNames | batchProcessing.py:46-53 | without a shift the timestamp is the parsed one and the output name is the input name; with a shift the timestamp moves by that many minutes and the output name carries the re-rendered timestamp |
| BatchProcessing.ZeroShiftKeepsName | batchProcessing.py:48-51 | a zero shift under a format that renders back what it parsed leaves the file name unchanged |
| BatchProcessing.CorrectionOnlyWithoutMatch | batchProcessing.py:44-45 | the code as written and the guarded version agree on every name in which a timestamp is found |
| BatchProcessing.UnmatchedNameRaises | batchProcessing.py:44-45 | for `notes.ghg`, which holds no timestamp, the code as written raises while the guarded version returns the empty record |
| BatchProcessing.Flatten | batchProcessing.py:134 | the flattened metadata holds a `(section, key)` pair exactly when the section holds the key, with the same value |
| BatchProcessing.SectionsOfFlatten | batchProcessing.py:134 | flattening keeps every non-empty section |
| BatchProcessing.SectionOfFlatten | batchProcessing.py:134 | regrouping the pairs of one section gives back that section |
| BatchProcessing.FlattenRoundTrip | batchProcessing.py:127-134 | flattening loses nothing but empty sections: regrouping the pairs gives back the document |
| BatchProcessing.UnflattenRoundTrip | batchProcessing.py:134 | regrouping a flat row and flattening it again gives back the row |
| BatchProcessing.ReadMetaData | batchProcessing.py:120-135 | succeeds iff the `FileDescription` section, its `separator` key and the delimiter-table entry all exist; it then returns the flattened metadata and the file description with `delimiter` taken from the table |
| BatchProcessing.WithDelimiter | batchProcessing.py:131 | the file description gains `delimiter` with the looked-up value and keeps every other entry |
| BatchProcessing.ReadFile | batchProcessing.py:81-98 | a failed `.ghg` extraction gives no statistics and an empty metadata row; a successful one gives its statistics and metadata; any other file gives its statistics and the template updated by its column names, the names winning on shared keys |
| BatchProcessing.HeaderNamesFresh | batchProcessing.py:157-159 | the names given to `k` columns never use a key beyond `col_k_header_name` |
| BatchProcessing.HeaderNames | batchProcessing.py:157-159 | the i-th kept column (counting from 1) is stored under `('Custom', col_i_header_name)`, and no other key is present |
| BatchProcessing.KeptColumns | batchProcessing.py:146-155 | the kept columns are columns of the file with at least one value; a missing label column or a unit list of the wrong length raises |
| BatchProcessing.NonEmpty | batchProcessing.py:155 | `dropna(how='all', axis=1)` keeps exactly the columns with at least one value, in order |
| BatchProcessing.ColumnNames | batchProcessing.py:157-159 | the naming loop yields exactly `HeaderNames` of the kept columns, one entry per column |
| BatchProcessing.MemberInventory | batchProcessing.py:102-109 | the inventory loop files every member under its name with the base removed, later members overwriting earlier ones |
| BatchProcessing.InventoryLastWins | batchProcessing.py:108-109 | every member is reachable under its key, and a key holds a member whenever no later member shares that key |
| BatchProcessing.GhgBase | batchProcessing.py:101 | the intended base name: the archive name without its `.ghg` suffix |
| BatchProcessing.GhgBaseFindsMembers | batchProcessing.py:101-116 | with the intended base, an archive holding `base.metadata` and `base.data` always yields both members |
| BatchProcessing.StrippedBaseMissesMetadata | batchProcessing.py:101-110 | as written, `bog.ghg` is stripped to `bo`, so the `.metadata` member of an archive holding `bog.metadata` and `bog.data` is not found; the intended base finds both |
| BatchProcessing.BoInventory | batchProcessing.py:108-109 | with the stripped base `bo`, the members are filed under `g.metadata` and `g.data` |
| BatchProcessing.BogFindsMembers | batchProcessing.py:101-116 | with the base `bog`, both members of that archive are found |
| ParseFile.OfKind | parseFile.py:253-266 | the members of one kind are exactly the archive members the `whichFiles` tests file under that kind |
| ParseFile.XmlFilesInOrder | parseFile.py:262-266 | the xml list holds every `system_config` xml member that is not a factory file, in archive order |
| ParseFile.LastOfKindWins | parseFile.py:253-264 | a single-member slot holds the last member of its kind, since a later match overwrites an earlier one |
| ParseFile.NoneOfKindEmpty | parseFile.py:246-252 | the inventory is reset on every call: a slot with no member of its kind keeps its empty default |
| ParseFile.BiometIgnored | parseFile.py:254-255 | a member whose name contains `biomet` changes nothing, whatever else its name contains |
| ParseFile.AfterFirstComma | parseFile.py:105 | `split(',', 1)[1]` raises iff there is no comma; otherwise it is the text after the first comma |
| ParseFile.Get | parseFile.py:105-107 | a section lookup finds a value iff some entry has the key, and the value is that entry's |
| ParseFile.Put | parseFile.py:105-107 | assigning to a present key keeps every entry in place and changes only that key's value |
| ParseFile.AdjustDiag | parseFile.py:103-107 | a model naming neither `72` nor `75` leaves the project section unchanged; every entry other than `col_diag_75` keeps its place and value, and at most `col_diag_75` is appended |
| ParseFile.RetargetKeeps | parseFile.py:104-107 | one tweak keeps every entry other than `col_diag_75` in place, appends `col_diag_75` only when the section lacked it, and leaves the section holding it |
| ParseFile.SevenTwoHundred | parseFile.py:104-106 | the model `7200` triggers the `72` tweak and not the `75` one |
| ParseFile.OneTweak | parseFile.py:104-105 | one call for a `7200` drops the first alias of `col_diag_75`, or raises when it has no comma |
| ParseFile.AliasTails | parseFile.py:105 | `a,b,c` loses one alias per split, and `c` has none left to split off |
| ParseFile.RepeatedReadsStripAliases | parseFile.py:92-107 | as written, the tweak is stored back into the variable list, so successive headers of a `72` site see `b,c`, then `c`, and the third raises |
| ParseFile.GetEntry | parseFile.py:105 | in a section with distinct keys, a lookup reads the key's own entry |
| ParseFile.DropsFirstAlias | parseFile.py:104-105 | for a `72` model the tweak succeeds iff `col_diag_75` holds a comma, then leaves the aliases after the first; all other entries keep their values |
| ParseFile.TakesSeventyTwoAliases | parseFile.py:106-107 | for a `75` model the tweak succeeds iff `col_diag_72` holds a comma; `col_diag_75` then reads back the aliases of `col_diag_72` after the first, and is appended when the section lacked it |
| ParseFile.GetAssign | parseFile.py:107 | after `section[key] = value` the key reads back the value, whether it was present or not |
| ParseFile.FirstPresent | parseFile.py:110-111 | the first alias that names a column, with no earlier alias naming one; none when no alias does |
| ParseFile.RenameEvery | parseFile.py:112-113 | every column named `rec` takes the variable's name, and the others keep theirs |
| ParseFile.Step | parseFile.py:109-116 | for one variable, the first present alias renames its columns to the variable, records the position of its first column and the alias, and leaves no column with the alias's name; without a present alias nothing changes |
| ParseFile.Renaming | parseFile.py:108-116 | renaming keeps the number of columns |
| ParseFile.RenamingConsistent | parseFile.py:93-116 | the same variables get a position and an alias, each once in iteration order, every position is a column, and every recorded alias is one of the variable's own aliases |
| ParseFile.UnlistedColumnKept | parseFile.py:108-116 | a column whose name is no variable's alias keeps its name |
| ParseFile.MissingFlags | parseFile.py:274-275 | one `Missing Data Value` flag per missing variable, in order |
| ParseFile.ReadDatFacts | parseFile.py:118-131 | the only columns added are `t_sonic`; the loop raises iff `sos` is a variable but not a column; exactly the variables that are not columns are logged missing; a found variable keeps its maximum if diagnostic, else its mean; values of other variables are kept |
| ParseFile.TwoOccurrences | parseFile.py:213 | a name on two columns has a count of at least two |
| ParseFile.Channel | parseFile.py:213-227 | a project variable's channel is 0 when no column has its name and that column's index when exactly one does; a name on two columns stops the program |
| ParseFile.BiometIndex | parseFile.py:232-236 | a biomet variable gets a 1-based trace position iff exactly one trace has its name, and that trace is at that position |
| ParseFile.ProjectSectionFails | parseFile.py:211-229 | the Project section fails iff some project variable names two columns |
| ParseFile.ProjectSectionKeys | parseFile.py:211-229 | a written Project section holds exactly the project variables |
| ParseFile.ProjectSectionValues | parseFile.py:211-229 | every project variable is written with its own channel |
| ParseFile.BiometSectionFacts | parseFile.py:232-236 | a biomet variable is written iff exactly one trace has its name, and then with that trace's position |
| ParseFile.RaisedStops | parseFile.py:118-131 | once the loop has raised, the later variables are not processed |
| ParseFile.ProjectSectionStops | parseFile.py:224-225 | once a duplicated channel stops the Project section, the later variables are not processed |
| ParseFile.Adjust | parseFile.py:103-107 | the two tweaks applied in turn give exactly the section and error `AdjustDiag` describes |
| ParseFile.IndexIn | parseFile.py:112-114 | the search returns -1 iff no column has the name, else the first column with it |
| ParseFile.FirstAlias | parseFile.py:110-111 | the alias loop stops at the first alias that names a column |
| ParseFile.RenameAll | parseFile.py:112-113 | renaming in place turns the array into the renamed header |
| ParseFile.Parser.constructor | parseFile.py:24-46 | a new parser holds the variable list sections and the biomet traces, an empty inventory, no data values and an empty event log |
| ParseFile.Parser.WhichFiles | parseFile.py:243-266 | the inventory after the call is the classification of the members, starting from the empty defaults |
| ParseFile.Parser.RenameColumns | parseFile.py:108-116 | the header bookkeeping after the loop is the renaming of the header by the Sonic, Project and Auxillary variables |
| ParseFile.Parser.ReadHeaderAsWritten | parseFile.py:92-116 | as written: the tweaked project section replaces the stored one; a failed tweak leaves the bookkeeping reset, otherwise the header is renamed with the tweaked aliases |
| ParseFile.Parser.ReadHeader | parseFile.py:92-116 | with the tweak applied to a copy: the stored variable list is unchanged, so every call applies the same tweak and renames with the same aliases |
| ParseFile.Parser.GetStats | parseFile.py:268-276 | a column that exists stores its statistic; a missing one leaves the values and logs `Missing Data Value` for the variable at the file's timestamp |
| ParseFile.Parser.WriteEpTemplate | parseFile.py:206-236 | the template written is the Project section, built from the channels, and the biomet section, built from the unique traces; a duplicated channel stops it |
| ParseFile.Parser.ReadDat | parseFile.py:118-143 | the sample count plus each found variable's statistic, in the order variables were found; missing variables are logged; a missing `sos` raises; the EddyPro template is built only when the metadata matched no stored template |
| ParseFile.Parser.ReadVariables | parseFile.py:123-131 | the loop over the variables, in the order they were found, leaves the values, columns, logged missing variables and raise exactly as `ReadDatState` describes |
| EventLogs.IssueText | eventLog.py:12 | a flag is the issue, a colon, and the record |
| EventLogs.Logged | eventLog.py:11-17 | `errorLog` adds the timestamp if it is new, appends `\|flag` to an existing entry, and leaves every other timestamp as it was |
| EventLogs.Cleaned | eventLog.py:18-20 | `cleanLog` writes `No Issues` only at a timestamp with no entry; existing entries are untouched |
| EventLogs.LoggedAllJoins | eventLog.py:11-17 | several issues logged at a fresh timestamp are recorded in order, joined by `\|`, and other timestamps are untouched |
| EventLogs.LoggedAllAppends | eventLog.py:13-14 | at a timestamp already logged, each further issue is appended after a `\|` |
| EventLogs.LoggedAllSnoc | eventLog.py:11-17 | logging one more issue after a run of issues is one more `errorLog` |
| EventLogs.LoggedAllReadBack | eventLog.py:11-17 | splitting a timestamp's entry on `\|` gives back exactly the issues logged there, as long as none contains `\|` |
| EventLogs.CleanKeepsIssues | eventLog.py:11-20 | `cleanLog` never hides a logged issue, and an issue logged after a clean entry is appended to `No Issues` |
| EventLogs.EventLog.constructor | eventLog.py:5-9 | a new log is empty |
| EventLogs.EventLog.ErrorLog | eventLog.py:11-17 | the flag table afterwards is `Logged` of the old table at the timestamp |
| EventLogs.EventLog.CleanLog | eventLog.py:18-20 | the flag table afterwards is `Cleaned` of the old table at the timestamp |
| SubPaths.NoTokenUnchanged | subPath.py:4-25 | a path that contains none of `YEAR`, `MONTH`, `SITEID` or `DATE` comes back unchanged, whatever attributes the object has |
| SubPaths.YearOnly | subPath.py:5-8 | the template `YEAR` renders as the object's year when it has one, and as the empty text when it does not |
| SubPaths.SubPathCall | subPath.py:4 | a call with fewer than two arguments raises TypeError; a call with the object and a path string gives `SubPath` of the object's attributes (none for a string) and the path; it succeeds iff there are exactly two arguments and the second is a string |
| SubPaths.LaterStepsSeeEarlierOutput | subPath.py:15-23 | the replacements run in sequence, so a site ID that itself contains `DATE` has that token replaced by the date string |
| MergeStats.FillLevel | eddyProAPI.py:330 | a filled level is never empty, and a non-empty level is kept as it is |
| MergeStats.FillColumn | eddyProAPI.py:328-332 | a filled metadata column has no empty level |
| MergeStats.FillStatColumn | eddyProAPI.py:328-332 | a filled statistics column has no empty level |
| MergeStats.FillIdempotent | eddyProAPI.py:330 | filling a column name a second time changes nothing |
| MergeStats.RenamedKeys | eddyProAPI.py:327-332 | the renamed row has exactly the renamed names of the row's columns |
| MergeStats.RenamedValue | eddyProAPI.py:327-332 | a renamed column holds the value of a column renamed to it, the last one when two columns fill to the same name (the source keeps both; see Left out) |
| MergeStats.FillTable | eddyProAPI.py:332 | renaming the columns keeps every timestamp and renames each row's columns |
| MergeStats.FilledStatsHaveNoEmptyLevel | eddyProAPI.py:327-332 | no column of a filled statistics row has an empty level |
| MergeStats.FilledMetaHaveNoEmptyLevel | eddyProAPI.py:327-332 | no column of a filled metadata row has an empty level |
| MergeStats.RenameColumns | eddyProAPI.py:329-332 | the loop over the columns yields the renamed row |
| LiConfig.CloseAt | readLiConfigFiles.py:56 | the non-greedy `.+?` stops at the first `)` that closes the group: at least one character inside, and no newline before it |
| LiConfig.ClosedGroupValid | readLiConfigFiles.py:56 | a group delimited by the first closing `)` is non-empty, on one line, and holds no `)` after its first character |
| LiConfig.FindGroups | readLiConfigFiles.py:56 | every group `findall` captures is non-empty, on one line, and has no `)` after its first character |
| LiConfig.FindGroupsWrapped | readLiConfigFiles.py:56 | `findall` recovers exactly the groups of a text written as `(g1)(g2)...`, in order |
| LiConfig.SectionLine | readLiConfigFiles.py:63 | a section line holds no space, since spaces are removed from the tag |
| LiConfig.FormatAllConcat | readLiConfigFiles.py:57-69 | each group is formatted on its own: the text for two runs of groups is the text for the first followed by the text for the second |
| LiConfig.KeyValueLine | readLiConfigFiles.py:68-69 | a group `k v...` becomes the line `k=v...`, in which only the first space turns into `=` |
| LiConfig.NoOpenParen | readLiConfigFiles.py:60 | a key and a value without `(` make a group without `(` |
| LiConfig.BareKeyLine | readLiConfigFiles.py:66-67 | a bare key becomes `k=`, with an empty value |
| LiConfig.NestedSections | readLiConfigFiles.py:60-64 | a group `t1(t2(...(last` opens one section per tag, in order, and ends with the key/value line of its last piece |
| LiConfig.JoinHasSeparator | readLiConfigFiles.py:60 | a group joined from two or more pieces by `(` is nested |
| LiConfig.AppendSections | readLiConfigFiles.py:62-63 | the tag loop appends one section line per tag |
| LiConfig.AppendGroup | readLiConfigFiles.py:58-69 | one pass of the loop appends exactly the INI text of its group |
| LiConfig.Format | readLiConfigFiles.py:56-69 | the loop builds the INI text of all captured groups, group by group |
| LiConfig.RowOf | readLiConfigFiles.py:47-53 | a kept section's row holds its options, its date passed through `getTime`, its name as `Parameter`, and for a `Zero` parameter a target of 0 and no `tdensity` |
| LiConfig.FirstUndated | readLiConfigFiles.py:45-46 | the first section without `date`, where `val['date']` raises, with every earlier section dated |
| LiConfig.CalRowsSnoc | readLiConfigFiles.py:45-53 | scanning one more dated section adds its row if it is kept, and nothing otherwise |
| LiConfig.CalRowsExact | readLiConfigFiles.py:45-53 | every row comes from a kept section, and every kept section gives a row |
| LiConfig.CalRowsSound | readLiConfigFiles.py:45-53 | every row comes from a kept section |
| LiConfig.CalRowsComplete | readLiConfigFiles.py:45-53 | every kept section gives a row |
| LiConfig.CalRowsKeptOnly | readLiConfigFiles.py:46 | every row names a parameter of the calibration map, and its date was not `4Cal` |
| LiConfig.CalibrateText | readLiConfigFiles.py:42-43 | the region parsed lies after the last occurrence of the first marker and before the next occurrence of the second; it fails when fewer than two markers are given |
| LiConfig.PrefixAvoids | readLiConfigFiles.py:43 | the text before the second marker contains no first marker, since it is a prefix of the text after the last one |
| LiConfig.ConfigReader.constructor | readLiConfigFiles.py:24-38 | a new reader holds the given event log and markers, with no parsed sections and an empty calibration table |
| LiConfig.ConfigReader.Parse | readLiConfigFiles.py:55-77 | a successful parse stores the sections of the formatted groups under the key; a failed one logs `Unable to Parse <key> from .conf` at the timestamp and stores nothing |
| LiConfig.ConfigReader.ReadConfig | readLiConfigFiles.py:40-53 | the parsed sections are reset on every path; missing markers fail with the log unchanged; a failed parse fails and logs `Unable to Parse calibrate from .conf` at the timestamp; otherwise the log is unchanged, one row per kept section is appended up to the first undated section, and the read completes iff every section is dated |
| LiConfig.ConfigReader.AppendCalRows | readLiConfigFiles.py:45-53 | the loop appends the rows of the kept sections before the first undated one, and completes iff there is none |
| MetadataFiles.FilledCell | eddyProAPI.py:420 | after `fillna`, a value the group lacks is the NaN tag and any other value is kept |
| MetadataFiles.SectionsOf | eddyProAPI.py:425-426 | the sections are the first levels of the group's columns |
| MetadataFiles.KeysIn | eddyProAPI.py:424-425 | a section's keys are the second levels of its columns |
| MetadataFiles.GroupMetaData | eddyProAPI.py:423-427 | the group's metadata has exactly one section per first level of its columns, and exactly one key per column of that section |
| MetadataFiles.MissingIsEmpty | eddyProAPI.py:420-424 | a value the group does not have is written as the empty text |
| MetadataFiles.PlainTextKept | eddyProAPI.py:424 | a text value without the NaN tag in it is written unchanged |
| MetadataFiles.Hits | eddyProAPI.py:429-430 | the keys `fnmatch.filter` keeps are exactly those matching the pattern |
| MetadataFiles.DynamicCount | eddyProAPI.py:429-430 | succeeds iff some key matches and every match has a numeric index; the result is the highest index among the matches |
| MetadataFiles.ItemKeys | eddyProAPI.py:438 | the keys of a template section are those of its entries |
| MetadataFiles.AssignedFromGroup | eddyProAPI.py:438-440 | in a section the group has, the first pass writes exactly the template keys the group has, with the group's values |
| MetadataFiles.AssignedWithoutGroupKeys | eddyProAPI.py:441-442 | in a section the group lacks, the first pass writes every template key |
| MetadataFiles.AssignedWithoutGroupValue | eddyProAPI.py:441-442 | in a section the group lacks, a key gets the value of its last template entry |
| MetadataFiles.PendingKeys | eddyProAPI.py:443-444 | the keys left for expansion are the template keys the group lacks |
| MetadataFiles.AddIndexFacts | eddyProAPI.py:446-449 | one pass adds exactly the keys numbered with that index that the group has, each with the group's value |
| MetadataFiles.AddIndicesFacts | eddyProAPI.py:445-449 | the passes `1..n` add exactly the numbered keys the group has, with the group's values |
| MetadataFiles.SectionFromGroup | eddyProAPI.py:437-449 | a section the group has holds only the group's values: its template keys the group has, and each indexed key up to the dynamic count that the group has |
| MetadataFiles.SectionWithoutGroup | eddyProAPI.py:441-442 | a section the group lacks is the template's section as it stands |
| MetadataFiles.NoneAddsNothing | eddyProAPI.py:445-449 | with no keys left for expansion, the index passes add nothing |
| MetadataFiles.ExpandSection | eddyProAPI.py:436-449 | the loops build exactly the section `SectionFile` describes |
| MetadataFiles.AssignItems | eddyProAPI.py:437-444 | the loop over the template's items yields exactly the assigned values and the keys left for numbering |
| MetadataFiles.AddNumbered | eddyProAPI.py:445-449 | the loop over the indices yields exactly the section with every index `1..dyn` added |
| MetadataFiles.AddOneIndex | eddyProAPI.py:446-449 | the loop over the pending keys adds exactly the group's numbered keys for that index |
| MetadataFiles.MetaDataFile | eddyProAPI.py:428-449 | the file is written iff both dynamic counts can be computed, and it then has exactly the template's sections |
| MetadataFiles.WriteMetaDataFile | eddyProAPI.py:428-449 | the loop over the template's sections builds exactly `MetaDataFile` |
| MetadataFiles.AllSections | eddyProAPI.py:433-449 | a file with every template section, each as `SectionOf` gives it, is the whole metadata file |
| MetadataFiles.MetaDataFromGroup | eddyProAPI.py:437-449 | every value written for a section the group has is the group's own, and every template key the group has is written |
| MetadataFiles.Matching | eddyProAPI.py:464-466 | the index texts picked out are exactly those of the matching columns whose filled value equals the one sought |
| MetadataFiles.Stop | eddyProAPI.py:465-469 | the measure-type loop stops at the first type with a non-empty intersection, or runs to the last type |
| MetadataFiles.Candidates | eddyProAPI.py:465-469 | there is no candidate set iff there is no measure type to try |
| MetadataFiles.SingletonUnique | eddyProAPI.py:470-471 | a set of one element has no two different elements |
| MetadataFiles.Single | eddyProAPI.py:470-473 | exactly one candidate gives that candidate; any other count gives `'0'` |
| MetadataFiles.ColumnNumber | eddyProAPI.py:465-473 | fails iff there is no measure type and no earlier `col_num`; with candidates it is their single element or `'0'` |
| MetadataFiles.ProjectColumnsFails | eddyProAPI.py:461-474 | the column resolution fails iff there is a definition and the very first one has no candidates (no measure type to try) while no earlier group left a `col_num` |
| MetadataFiles.CandidatesOf | eddyProAPI.py:461-471 | one candidate set per definition, each the result of its measure-type loop |
| MetadataFiles.ProjectColumnsResolve | eddyProAPI.py:461-474 | each definition with candidates gets the single index among them, or `'0'`, unless a later definition has the same key |
| MetadataFiles.ResolveColumns | eddyProAPI.py:461-474 | the definitions loop yields exactly `ProjectColumns` |
| MetadataFiles.ResolveWith | eddyProAPI.py:461-474 | the loop over the definitions with their candidates yields exactly the resolution of all of them, and stops at the first failure |
| MetadataFiles.PrefixErr | eddyProAPI.py:461-474 | a failure part-way fails the whole definitions loop |
| MetadataFiles.Position | eddyProAPI.py:418 | `index(value) + 1` is the 1-based position of the first occurrence |
| MetadataFiles.BiometColumns | eddyProAPI.py:414-418 | a biomet definition is written iff its column is in the biomet table, and then at its 1-based first position |
| MetadataFiles.WriteGroup | eddyProAPI.py:420-483 | one group's pass raises iff its metadata file or its column numbers raise, and otherwise yields both files and the `col_num` the next group starts from |
| MetadataFiles.WriteAll | eddyProAPI.py:419-483 | the loop over the groups yields exactly `AllFiles` |
| MetadataFiles.AllFilesPrefixErr | eddyProAPI.py:419-483 | a failure at one group fails the whole loop |
| PreProcessing.ScanRecord | preProcessing.py:82-87 | a name without a timestamp raises; a record that is returned carries the parsed timestamp, the file name, and the prototype built from the name with the timestamp replaced |
| PreProcessing.Listing | preProcessing.py:81-87 | the scan yields at most one record per listed file |
| PreProcessing.ListingFails | preProcessing.py:81-87 | the scan fails iff some file with the extension fails to give a record |
| PreProcessing.ListingRecords | preProcessing.py:81-87 | every scanned record is the record of a listed file with the extension |
| PreProcessing.ListingStops | preProcessing.py:81-87 | a scan that has failed on a prefix of the listing fails with that same error |
| PreProcessing.PatternCarriesDatePattern | preProcessing.py:87 | where the timestamp text occurs in the name, the prototype carries the EddyPro date pattern followed by the extension |
| PreProcessing.IncompleteOffGrid | preProcessing.py:98 | a record is flagged incomplete iff its timestamp is off the half-hour grid |
| PreProcessing.IncompleteNameAsWritten | preProcessing.py:101 | as written, the new name raises iff the name has no dot |
| PreProcessing.IncompleteName | preProcessing.py:101 | the intended new name always carries the `_incomplete` tag |
| PreProcessing.IncompleteKeepsExtension | preProcessing.py:101 | with the intended rule, a name keeps its extension and gains the tag just before it |
| PreProcessing.LastDotBeforeExtension | preProcessing.py:101 | the last dot of a name ending in `.ext` is the one before `ext` |
| PreProcessing.NoCharAfter | preProcessing.py:101 | a character absent from a suffix occurs at no position of that suffix |
| PreProcessing.IncompleteNameDropsExtension | preProcessing.py:101 | as written, `a.b.ghg` is renamed to `a_incomplete.b`, which loses the `.ghg` extension; the intended name keeps it |
| PreProcessing.TwoDots | preProcessing.py:101 | with two dots the name as written ends at the second dot, while the intended name keeps all three parts |
| PreProcessing.SplitTwoDots | preProcessing.py:101 | a name with two dots splits into its three parts |
| PreProcessing.SplitOneDot | preProcessing.py:101 | a name with one dot splits into its two parts |
| PreProcessing.OneDotAgrees | preProcessing.py:101 | on names with a single dot, the code as written and the intended rule give the same name |
| PreProcessing.CompleteNotRenamed | preProcessing.py:99 | a record on the grid keeps its name |
| PreProcessing.RenamedTagged | preProcessing.py:99-101 | once the loop has passed a record, its name carries the tag, or it is unchanged because the record was not selected |
| PreProcessing.IncompleteTagged | preProcessing.py:99-101 | after the loop every off-grid record carries the tag, so a later scan does not rename it again |
| PreProcessing.LastSelectedNames | preProcessing.py:101 | the assignment by timestamp gives every record of that timestamp the name of the last selected record there |
| PreProcessing.RenameIncomplete | preProcessing.py:99-102 | the renaming loop yields, for every record, the name it has once the loop is over, with the intended `_incomplete` name (the as-written name is `PreProcessing.IncompleteNameAsWritten`) |
| PreProcessing.ListedRow | preProcessing.py:90-95 | a scanned file starts with its name, its prototype and its flag, with `-` as its metadata file and its update |
| PreProcessing.RenamedNames | preProcessing.py:99-102 | there is one name per scanned record after the renaming |
| PreProcessing.Entries | preProcessing.py:90-101 | one row per scanned record, at its timestamp |
| PreProcessing.Inventory | preProcessing.py:107-115 | on a reset, or with no saved inventory, the inventory is the scan; otherwise it is the saved inventory with the new timestamps of the scan added and every saved row kept |
| PreProcessing.CompleteRecordKept | preProcessing.py:98-109 | a file on the grid whose slot no other file shares reaches the inventory unchanged |
| PreProcessing.ScannedSlotsKept | preProcessing.py:105-115 | every scanned file's half-hour slot is in the inventory |
| PreProcessing.Select | preProcessing.py:192-196 | `df[cols]` keeps exactly the named columns of the record, with their values |
| PreProcessing.Others | preProcessing.py:198 | the data record keeps exactly the columns not named, with their values |
| PreProcessing.Present | preProcessing.py:194 | the configured site-setup columns narrowed to those the record has |
| PreProcessing.PresentIdempotent | preProcessing.py:194-195 | narrowing again by the same record changes nothing |
| PreProcessing.FillFromLog | preProcessing.py:199-204 | filling a column from the log keeps every timestamp of the inventory |
| PreProcessing.FillFromLogIdempotent | preProcessing.py:199-204 | filling again from the same log changes nothing |
| PreProcessing.SetMetadata | preProcessing.py:205 | only the row at the record's timestamp gets the metadata file name, and only if it exists |
| PreProcessing.FlagKept | preProcessing.py:199-201 | a `Flag` entry other than `-` is never overwritten |
| PreProcessing.UpdateKept | preProcessing.py:202-204 | an `Update` entry other than `-` is never overwritten |
| PreProcessing.FillKeeps | preProcessing.py:199-204 | one fill leaves the column present and keeps every other entry, and a `-` or missing entry takes the log's entry for its timestamp, or `-` |
| PreProcessing.NoSetupColumns | preProcessing.py:195-221 | an empty site-setup list is written back as the empty text and read again as one empty column name |
| PreProcessing.Prepared | preProcessing.py:219-220 | a prepared row has `temp_ID`, keeps its values, and has 0 for every other column of the frame it lacks |
| PreProcessing.PreparedAll | preProcessing.py:219-220 | there is one prepared row per row |
| PreProcessing.ConfigKeys | preProcessing.py:221 | there is one configuration per row |
| PreProcessing.Temps | preProcessing.py:221 | there is one `temp_ID` per row |
| PreProcessing.SetupIds | preProcessing.py:222-224 | there is one `setup_ID` per row |
| PreProcessing.Labelled | preProcessing.py:219-224 | there is one labelled row per row |
| PreProcessing.NumberSetups | preProcessing.py:223-224 | the loop over the distinct `temp_ID` values yields exactly `SetupIds` |
| PreProcessing.SetupIdIsNumbering | preProcessing.py:219-224 | a row's set-up number is the first-seen number of its configuration |
| PreProcessing.SameSetupIff | preProcessing.py:219-224 | two rows share a set-up number iff their configurations agree |
| PreProcessing.SetupIdsDense | preProcessing.py:223-224 | the set-up numbers are exactly 0 to k-1 for k distinct configurations |
| PreProcessing.SetupIdsFirstSeen | preProcessing.py:223-224 | a configuration seen for the first time gets the number of configurations seen before it |
| PreProcessing.Times | preProcessing.py:225 | the rows' timestamps, in order |
| PreProcessing.AssignIds | preProcessing.py:225 | only the set-up timestamps change, and each gets its row's set-up number |
| PreProcessing.DropDuplicateRows | preProcessing.py:226 | no more rows than before, every row kept is an original, every original row's values are still present, and no two kept rows are equal |
| PreProcessing.FFill | preProcessing.py:242-244 | `ffill` keeps the same length and every entry that is present |
| PreProcessing.FFillNearest | preProcessing.py:242-244 | a missing entry takes the nearest entry present before it |
| PreProcessing.FFillNone | preProcessing.py:242-244 | an entry with no entry present at or before it stays missing |
| PreProcessing.FFillNoGaps | preProcessing.py:242-244 | no gap is left after the first entry present |
| PreProcessing.FFillIdempotent | preProcessing.py:242-244 | filling again changes nothing |
| PreProcessing.WithCell | preProcessing.py:240-243 | a cell is set or removed, and every other cell is kept |
| PreProcessing.RunTimes | preProcessing.py:230 | the run rows are exactly the inventory's rows of the month with an update other than `-` |
| PreProcessing.ClearMetadata | preProcessing.py:233-234 | clearing keeps every timestamp |
| PreProcessing.ClearMore | preProcessing.py:233-234 | clearing one more name is clearing the larger set |
| PreProcessing.RemovedStep | preProcessing.py:231-233 | a duplicated run row adds its metadata file to the names removed; any other row adds nothing |
| PreProcessing.ClearedRemoved | preProcessing.py:233-234 | clearing the names one at a time clears exactly the removed names |
| PreProcessing.ClearedStep | preProcessing.py:233-234 | the clearing loop keeps that correspondence one row further |
| PreProcessing.ClearedNext | preProcessing.py:233-234 | one more pass of the loop clears that row's metadata file only if its update is duplicated |
| PreProcessing.ClearDuplicates | preProcessing.py:232-234 | the loop over `toRemove` yields the inventory with every duplicated row's metadata file cleared wherever it is named |
| PreProcessing.RegroupRuns | preProcessing.py:229-244 | the whole of `GroupRuns`, done step by step, yields exactly `GroupRunsOf` |
| PreProcessing.RunMeta | preProcessing.py:240-242 | there is one new metadata file per run row |
| PreProcessing.AfterRuns | preProcessing.py:233-243 | the inventory keeps every timestamp after the run is written back |
| PreProcessing.WriteBack | preProcessing.py:243 | writing the run rows back keeps every timestamp |
| PreProcessing.FillMetadataForward | preProcessing.py:244 | the forward fill keeps every timestamp |
| PreProcessing.RunUpdatesDistinct | preProcessing.py:231-241 | two run rows share their new update only when it is `-` |
| PreProcessing.DuplicateTakesEarlierMetadata | preProcessing.py:240-242 | a duplicated row takes the metadata file of the nearest earlier non-duplicated row that has one |
| PreProcessing.RunsLeaveDistinctUpdates | preProcessing.py:229-244 | after `GroupRuns`, no two rows of the month's run share an update other than `-` |
| PreProcessing.RunRowUpdate | preProcessing.py:243 | a run row carries its new update after the write-back |
| PreProcessing.FillForwardKeepsUpdate | preProcessing.py:244 | the forward fill touches only the metadata column |
| PreProcessing.FillForwardNoGaps | preProcessing.py:244 | along increasing timestamps, every row after one with a metadata file has one too |
| PreProcessing.ReadAll.constructor | preProcessing.py:25-58 | a new pass holds the configured column lists and month, with an empty inventory and empty tables |
| PreProcessing.ReadAll.FindFiles | preProcessing.py:66-117 | a raw folder that is not a directory leaves the inventory alone; a file that raises ends the scan with its error and no change; a directory with no file of the type raises (`AttributeError` on the empty index) with no change; otherwise the inventory becomes the resampled scan, merged with the saved inventory; off-grid files take the intended `_incomplete` name (the as-written name is `PreProcessing.IncompleteNameAsWritten`) |
| PreProcessing.ListFiles | preProcessing.py:81-87 | the loop over the directory's names yields exactly the listing: every name of the file type scanned in order, or the error of the first that raises |
| PreProcessing.ReadAll.AppendRecs | preProcessing.py:187-206 | a record without every dynamic column raises with nothing changed; otherwise the site-setup columns are narrowed, the record is split among the three tables, and the inventory is filled from the record's log |
| PreProcessing.ReadAll.GroupCommon | preProcessing.py:218-226 | a missing grouping column raises after the zero fill; a set-up timestamp missing from the inventory or repeated raises once the numbers are in place; otherwise each timestamp gets its set-up number and the duplicate rows are dropped |
| PreProcessing.ReadAll.GroupRuns | preProcessing.py:229-244 | the inventory afterwards is `GroupRunsOf` of the old one along its sorted timestamps |
| Numbering.Numbering | preProcessing.py:223-224 | every value of the sequence gets a number |
| Numbering.NumberingFacts | preProcessing.py:223-224 | only the sequence's values are numbered, each below the count of distinct values, and no two share a number |
| Numbering.NumberingDense | preProcessing.py:223-224 | every number below the count of distinct values is used |
| Numbering.NumberingStep | preProcessing.py:223-224 | one more value is numbered next if it is new, and changes nothing otherwise |
| Numbering.NumberingStable | preProcessing.py:223-224 | a value keeps the number it was first given |
| Numbering.FirstOccurrence | preProcessing.py:223-224 | at its first occurrence a value gets the count of distinct values seen before it |
| Numbering.Number | preProcessing.py:223-224 | the loop gives each position the number of its value |
| Numbering.IndexOf | preProcessing.py:221 | the first position that holds the value |
| Numbering.FirstPositions | preProcessing.py:219-221 | `temp_ID` after the group minimum: each position is replaced by the first position holding an equal value |
| Numbering.FirstPositionsAgree | preProcessing.py:219-221 | two positions share their first position iff they hold equal values |
| Numbering.FirstPositionsPattern | preProcessing.py:219-221 | the first positions repeat exactly where the values do |
| Numbering.NumberingMembers | preProcessing.py:223-224 | a value is numbered iff it occurs |
| Numbering.PatternStep | preProcessing.py:219-224 | one step of the correspondence between the numberings of two sequences with the same pattern |
| Numbering.PatternNumbering | preProcessing.py:219-224 | sequences with the same pattern of repeats are numbered alike |
| Numbering.NumberingFirstPositions | preProcessing.py:219-224 | numbering the `temp_ID` values numbers the configurations themselves |
| SetupEP.RunInventory | setupEP.py:45-46 | exactly the inventory rows whose metadata file is neither missing nor `-`, unchanged |
| SetupEP.MetaFiles | setupEP.py:72 | one metadata-file entry per timestamp of the range |
| SetupEP.UniqueInOrder | setupEP.py:72 | `unique()` lists every value of the column, and each once |
| SetupEP.UniqueNumbering | setupEP.py:72 | the value listed at position `j` is the `j`-th value seen, in first-seen order |
| SetupEP.GroupIndex | setupEP.py:76 | the timestamps of the range whose metadata file is the given one, and no others |
| SetupEP.GroupIndexSorted | setupEP.py:76 | a group of a sorted index is sorted |
| SetupEP.SliceBounds | setupEP.py:78-83 | every slice of a group lies inside the group |
| SetupEP.SlicesContiguous | setupEP.py:79-83 | each slice ends where the next begins; the first starts at 0 and the last, which takes any extra timestamps, ends at the group's end |
| SetupEP.SliceOf | setupEP.py:79-83 | the slice a position falls in is one of the threads' slices |
| SetupEP.SlicesPartition | setupEP.py:79-83 | a position lies in slice `i` iff `i` is its slice, so the slices partition the group |
| SetupEP.SliceEmpty | setupEP.py:78-83 | a slice is empty iff it is not the last and the group is smaller than the thread count, or it is the last and the group is empty |
| SetupEP.ProjectId | setupEP.py:97 | the project id starts with the run name and ends with the end timestamp |
| SetupEP.SliceRunsOk | setupEP.py:79-85 | the slices give runs iff none of them is empty |
| SetupEP.SliceRunsNamed | setupEP.py:79-98 | when the slices give runs, there is one run file per thread, named after the first and last timestamps of its slice |
| SetupEP.GroupRunsSucceed | setupEP.py:78-85 | a non-empty group gives runs iff there is one thread or the group has at least as many timestamps as threads, and then one run per thread |
| SetupEP.RunNamedByExtremes | setupEP.py:85-96 | in a sorted group, a slice's first and last timestamps are its earliest and latest |
| SetupEP.RunListFails | setupEP.py:75-117 | once one metadata file's runs raise, the whole plan raises with that error |
| SetupEP.SliceRunsFail | setupEP.py:79-85 | once one slice raises, the group raises with that error |
| SetupEP.RunListExtends | setupEP.py:75-117 | the runs of each metadata file are appended in turn, in the order `unique()` lists the files |
| SetupEP.PlanGroup | setupEP.py:78-117 | the loop over the threads raises iff the group's runs raise, and otherwise appends exactly those runs |
| SetupEP.PlanRuns | setupEP.py:69-117 | the loop over the metadata files raises iff the plan raises, and otherwise yields exactly the plan |
| SetupEP.PlanFiles | setupEP.py:75-117 | the loop over a given list of metadata files raises iff some group's runs raise, and otherwise yields the runs of every group in file order |
| SetupEP.MakeRun.constructor | setupEP.py:44-46 | with the intended `sub_path(self, ...)`, the kept inventory is the read one without the rows lacking a metadata file |
| SetupEP.MakeRunAsWritten | setupEP.py:42 | as written the constructor can only fail, and whatever it would keep is `RunInventory` of the read table |
| SetupEP.RunDatesAsWritten | setupEP.py:60 | as written `runDates` can only fail, and whatever it would return is the intended plan |
| SetupEP.MakeRunAsWrittenRaises | setupEP.py:42 | the one-argument `sub_path` calls of lines 42 and 60 raise TypeError for every input, where the call with the object substitutes its attributes |
| SetupEP.MakeRun.RunDates | setupEP.py:56-117 | with the intended `sub_path(self, ...)`, the project is titled with the run name, the inventory is unchanged, and the run list or the error is the plan over the rows in the inclusive date range |
| HandleFiles.CopyAndCheck | handleFiles.py:28-50 | a name without the extension or the search tag gives no record; an accepted name without a timestamp raises; a record keeps the original name, carries the name pattern and the timestamp shifted by any given shift (the copy then renamed to the shifted time), and the copy goes to the dated directory |
| HandleFiles.MonthDirectory | handleFiles.py:40-43 | a copy by year and month goes to `out_dir/YYYY/MM/`, with a two-digit month |
| HandleFiles.ReadMetaData | handleFiles.py:94-105 | reading succeeds iff the file description and its separator exist and the separator is in the delimiter table; the sections are returned whole and the description gains the decoded delimiter |
| HandleFiles.MetadataRow | handleFiles.py:69-70 | raises iff there is no `DEFAULT` section; otherwise the row holds exactly the other sections' keys, each with its value |
| HandleFiles.ReadFile | handleFiles.py:61-73 | a `.ghg` file is read iff its extraction succeeds with a `DEFAULT` section, any other file iff a template with a `DEFAULT` section was given; the row read is the flattened metadata without `DEFAULT`, beside the extracted or read statistics |

## Left out

- File-system and process I/O is left out. This covers `os.walk`, copies, zip
  archives, CSV and INI reads and writes, `rmtree`, and the interactive reset
  prompt. Listings, archive members and saved tables are inputs instead.
- The `multiprocessing` pools, the `.bat` files, and the EddyPro executions are
  left out: `runEddyPro`, `runEP`, `runGroups`, `rpMerge`, `copyFinalOutputs`
  and `pasteWithSubprocess`. Their point is concurrency and external processes.
- Floating-point statistics are left out: `mean`, `max`, `agg`, `t_sonic` and
  `expectedSamples`. Their values are opaque, and only which column and which
  statistic is chosen is modelled.
- `eval` of configuration strings is left out: filter conditions, dynamic
  template updates, and the custom-variable loop of `read_dat`. Each condition
  is a predicate parameter.
- `readXML` and `Parse_Metadata`'s template-file comparison are left out.
  They depend on XML parsing and file comparison.
- The `Calibration` table of `read_ALL` is left out, and with it its
  `drop_duplicates` in `GroupCommon`. Its rows are the calibration rows of each file's configuration, which the
  LI-7200 reader models (`LiConfig.ConfigReader.ReadConfig`).
- `searchRawDir` ends the program with `sys.exit` on an empty scan. Here that
  is the `false` outcome of `EddyProApi.Api.SearchRawDir`.
- Printed warnings are left out. Only the warning condition is returned, as
  `warn` of `EddyProApi.Api.BatchesPerGroup`.
- PreProcessing.ReadAll.GroupRuns leaves out the `os.remove` of the metadata
  files it clears.
- SetupEP.MakeRun.constructor models the evidently intended
  `sub_path(self, ...)`. As written, setupEP.py:42 passes only the path and
  raises TypeError on every call; that is `SetupEP.MakeRunAsWritten` (see
  Findings).
- SetupEP.MakeRun.RunDates models the evidently intended `sub_path(self,
  ...)` at setupEP.py:60, which as written raises TypeError before any run
  is planned (`SetupEP.RunDatesAsWritten`, see Findings).
- SetupEP.MakeRun.RunDates leaves out the per-run template filling and
  copying. It models the run list and its error cases, not the `.eddypro`
  contents written for each run.
- HandleFiles.CopyAndCheck leaves out the copy itself and its
  `isfile` guard, which only avoid overwriting the file.
- HandleFiles.ReadFile takes `extractGHG` as a parameter. Its member search is
  the one of batchProcessing.py, modelled by `BatchProcessing.GhgBase`.
- Grouping.Labels gives every row label 1 for an empty grouper, where
  `groupby(by=[])` raises "No group keys passed!". The raise is modelled one
  level up: `EddyProApi.Api.GroupAndFilter` fails before it labels anything.
- Grouping.Summary keeps only each group's first values and its count. The
  tracked columns' aggregates (`mean` and the like), which the source puts
  first in `configurationGroups`, are floating-point statistics and are not
  carried.
- Grouping.ConfigurationGroups has one row per label in use, without the
  tracked columns' aggregates, for the reason given for `Grouping.Summary`.
- EddyProApi.Api.GroupAndFilter selects the tracked columns and fails on a
  missing tracked section. It does not model their cast to `float`, their
  aggregates, or `expectedSamples`, all of which are floating point.
- EddyProApi.Api.GroupWriteFilter leaves out the tracked aggregates, as
  `EddyProApi.Api.GroupAndFilter` does.
- Batching.QcutLabels uses the exact rational quantile edges `j*(n-1)/k`.
  pandas computes them in floating point, so a position exactly on an edge
  can fall in the next bin there, for example with 4 positions and 3 bins.
- Batching.Bin shares the exact edges of `Batching.QcutLabels`.
- Batching.Duration parses plain digit strings only. Python's `int` also
  accepts a sign, surrounding whitespace and underscores (`-30`, ` 30`,
  `3_0`), which the model reports as an error.
- Inventory.GroupIdCell reads plain digit strings only, for the same reason:
  `astype(int)` also accepts text such as `-9999` or padded digits.
- MetadataFiles.IndexOf reads a section index as a plain digit string, for
  the same reason.
- EddyProApi.Api.MakeBatch does not read `('Instruments', 'instr_1_model',
  'first')`. The master sonic only fills the template, which is left out, so
  the `KeyError` of a group without that column is not modelled.
- EddyProApi.Api.SetupGroups inherits that gap of `EddyProApi.Api.MakeBatch`:
  it can succeed where a group lacking `instr_1_model` raises.
- BatchProcessing.Decide records the source as `in_dir + "/" + inName`, not
  as its `os.path.abspath`. That normalisation depends on the working
  directory and the platform.
- BatchProcessing.ReadFile always has a metadata template. A `Parser` built
  with `metaDataTemplate='None'` raises `AttributeError` on a file that is
  not a `.ghg` archive; that case is not modelled.
- ParseFile.RenameEvery stores a renamed column under its whole variable
  name. numpy's `data_columns` has the width of the longest header name and
  cuts longer names short: with header `u,v,w,Ts` the variable `sos` becomes
  `so`, and `read_dat` then logs `sos` as missing.
- ParseFile.Step keeps whole names, as `ParseFile.RenameEvery` does.
- ParseFile.Renaming keeps whole names, as `ParseFile.RenameEvery` does.
- ParseFile.RenameAll keeps whole names, as `ParseFile.RenameEvery` does.
- ParseFile.Parser.RenameColumns keeps whole names, as `ParseFile.RenameEvery`
  does.
- ParseFile.Parser.ReadHeader keeps whole names, as `ParseFile.RenameEvery`
  does.
- ParseFile.Parser.ReadHeaderAsWritten keeps whole names, as
  `ParseFile.RenameEvery` does.
- ParseFile.Parser.ReadDat reads the statistics of whole renamed names, so it
  does not log the missing variables or raise the `KeyError` that a
  truncated name causes.
- MetadataFiles.WriteGroup reads only the `first` values of a group row. The
  tracked means of the `('mean', 'first')` slice are floating point and never
  reach the `.metadata` file here. The `file_prototype` lookup
  (`.values[0]`, which raises `IndexError` for a group with no inventory
  row) is not modelled either; the prototype only names the written files.
- MetadataFiles.WriteAll inherits both gaps of `MetadataFiles.WriteGroup`.
- EddyProApi.Api.MakeMetadataFiles inherits both gaps of
  `MetadataFiles.WriteGroup`.
- EddyProApi.Api.MergeStatsFlush joins the buffers by map union. `pd.concat`
  appends rows, and `tempStats` is reset only in a month that has files, so
  a month without files appends the previous month's rows again, leaving
  duplicate timestamps. The union hides those duplicates.
- PreProcessing.ReadAll.GroupRuns does not raise for a NaN `MetaDataFile`
  among the duplicates. There, `rem.replace` in the left-out file removal
  raises `AttributeError`.
- EddyProApi.Api.SearchRawDir takes the per-file search as a parameter
  (`Inventory.Finder`). It does not propagate the errors that search can
  raise; the call as written is modelled by `Inventory.SearchAsWritten`.
- EddyProApi.Api.FindFiles takes the per-file search as a parameter, as
  `EddyProApi.Api.SearchRawDir` does.
- MergeStats.RenamedValue represents a row as a map from column names, so
  two columns that fill to the same name (`('x', '')` and `('x', 'NaN')`)
  become one column holding the later value. `pd.MultiIndex.from_tuples` at
  eddyProAPI.py:331 keeps both columns; duplicate column labels are not
  represented.
- Glob.Filter is `fnmatchcase` without bracket expressions: `[seq]` and
  `[!seq]` are taken as literal text, not as character classes, and names
  are compared case-sensitively as on POSIX. `fnmatch.filter` applies
  `os.path.normcase` first, which ignores case on Windows.
- Glob.LiteralMatch holds for patterns without `[`: with `fnmatch`, a
  pattern such as `co[2]` is a character class and selects `co2`, not
  itself.
- preProcessing.py:13 and handleFiles.py:23 import `sub_path` and `EventLog`
  from HelperFunctions.py, which defines only `progressbar`. The model takes
  them to be `sub_path` of subPath.py and `EventLog` of eventLog.py.
- Filters.ConditionPass reads the columns of `configurationGroups` from
  `order`, which `EddyProApi.Api.GroupAndFilter` takes as a parameter; the
  model does not derive it from the selected columns.
- Filters.GroupPass models the missing `measure_type`, but a condition
  always has `variables` and `filters`. Without them the source raises
  KeyError at eddyProAPI.py:500 and 509.
- `readFiles` is not part of this model. As written, it builds
  `batchProcessing.Parser(..., verbose=...)` and reads `Parser.nOut`, neither
  of which the `Parser` of batchProcessing.py has.
- The legacy `setup()` helpers, `process_file` plumbing and the progress bar
  are not part of this model.

## Findings

| source | as written | input that shows it | evidently intended | confidence | as-written member | corrected member |
|---|---|---|---|---|---|---|
| batchProcessing.py:44-45 | `.group(0)` is taken before the `is not None` test, so the test is dead and a name without a timestamp raises. handleFiles.py:30-31 does the same | `notes.ghg` with the timestamp pattern | a name without a timestamp gives the empty record | high, not executed | BatchProcessing.UnmatchedNameRaises | BatchProcessing.CopyAndCheck |
| batchProcessing.py:101 | `rstrip('.ghg')` strips any trailing `.`, `g` or `h` characters, not the suffix | `bog.ghg`, whose base becomes `bo`, so `bog.metadata` is not found | the base is the name without `.ghg` | high, not executed | BatchProcessing.StrippedBaseMissesMetadata | BatchProcessing.GhgBaseFindsMembers |
| eddyProAPI.py:601-602 | `_rp_` is searched in the whole batch file path | a temporary directory `C:\eddy_rp_runs\temp` with the fcc batch of group 1 | only the project id is tested | medium, not executed | Batching.RpDirectoryMisroutesFcc | Batching.RpNamesClassified |
| parseFile.py:92-107 | the model-specific alias tweak is stored back into the variable list, so each header read strips one more alias | three reads for an analyzer model containing `72`, with `col_diag_75` aliases `a,b,c` | each read starts from the configured aliases | medium, not executed | ParseFile.RepeatedReadsStripAliases | ParseFile.Parser.ReadHeader |
| eddyProAPI.py:229-237 | the scan calls `batchProcessing.findFiles`, which batchProcessing.py does not define, so any directory with a file not yet in the inventory raises `AttributeError` | an empty inventory and one directory holding one `.ghg` file | each new file goes through batchProcessing's per-file search, whose record `[TIMESTAMP, source, outName, file_prototype]` is the one `copy_and_check_files` returns | medium, not executed | Inventory.NewFileRaises | EddyProApi.Api.SearchRawDir |
| setupEP.py:42-60 | `sub_path` takes `(class_object, path_string)`, but lines 42 and 60 pass only the path, so `makeRun(...)` and `runDates` raise TypeError | any `makeRun(template_file, SiteID)` | `sub_path(self, ...)`, as preProcessing.py:37-43 calls it | high, not executed | SetupEP.MakeRunAsWrittenRaises | SetupEP.MakeRun.constructor |
| preProcessing.py:101 | the incomplete name is `split('.')[0] + '_incomplete.' + split('.')[1]` | `a.b.ghg`, renamed `a_incomplete.b` | the tag goes before the extension, which is kept | medium, not executed | PreProcessing.IncompleteNameDropsExtension | PreProcessing.IncompleteKeepsExtension |
