# NLPump stepchart model

A Dafny model of the NLPump core. NLPump reads Pump It Up `.ssc` stepcharts and turns each
chart into a beat-by-beat timeline with real-time seconds. It serialises that timeline into
a compact step string and searches the string for step patterns at a given speed.

The model follows the program's four stages, one module each:

- `Ssc` (`src/ssc_parser.py`) covers document parsing:
  - removal of comment lines;
  - the split on `#NOTEDATA:;` into a global header and chart sections;
  - `#KEY:VALUE;` attribute records, including the `\:` escape;
  - the notes block after `#NOTES:`;
  - the five timing keys a chart inherits from the global header.
- `Stepchart` (`src/stepchart_parser.py`, up to `timing_changes_to_df`) covers one chart:
  - the format and panel count from `STEPSTYPE`;
  - the description denylist and the "standard" check on note lines;
  - the note grid turned into `(panel, kind, beat)` events;
  - the timing keys parsed into change tables.
- `Timeline` (`chart_to_df`) holds the stages that build the final table:
  - relocation of hold caps and tails that a warp jumps over;
  - hold durations;
  - the merge of every event onto one row per beat;
  - the forward fill of hold durations;
  - warp elision;
  - forward-filled BPM and zero-filled stop, delay and warp;
  - the seconds recurrence.
- `Serializer` (`src/step_serializer.py`) renders each selected row as `sec:` followed by tap letters, hold caps and hold interior or tail codes. It joins the rows with `-`.
- `Searcher` (`src/step_pattern_searcher.py`) covers search setup:
  - compiling a step pattern into a regular-expression string;
  - the singles and doubles mirror maps;
  - the mirrored second search.
- `Speed` holds the search's speed filter over candidate matches.
- `Text` holds the Python string operations the program relies on: `split` on a literal, `join`, `replace`, `strip`, and `Lines`, which is Python's `re.split('\n+', text.strip())`. Only `\n` separates lines, so `\r` and Unicode line breaks stay inside a line.
- `Wrappers` holds `Option`, `Result` and `Collect`.

Python exceptions become `Err` values of a `Result`; each module's error type names them.
Pandas data frames become sequences of records with `Option<real>` for nullable cells. A timing
frame takes its width from its widest entry and pads narrower entries with `NaN`, so a timing
change carries its value as an `Option`, and the merge only places rows at beats where a value is
known. Four
things the program takes from its runtime are parameters of the model:
- `toInt` and `toReal` are Python's `int()` and `float()` parsing;
- `fmt` is `round(sec, 3)` followed by `str`;
- `findAll` is `re.findall`.

Where the program's own design description and its code disagree, the model follows the code:
- A record with no `:` in an attribute header is not silently dropped. It reuses the `key, val` locals of the previous loop iteration, as that iteration left them: key already stripped of `#`, value already restored. A chart with such a record therefore stores nothing for it, unless the reused key itself starts with `#`. Before any record with a `:` it raises instead (`Ssc.StaleRecordStoresNothing`, `ParseError.UnboundRecord`).
- `atts.get(key, global_attributes[key])` evaluates the global value eagerly. A timing key missing from the global header fails the parse even when the chart sets it (`Ssc.Inherit`).
- The speed filter compares each gap with the previous gap, not with the first one. Its guard `time_delta >= 0` leaves unchecked the first gap of every match, and also every gap that follows a negative gap: the times 0, -1, 5 are kept whatever the limits (`Speed.JudgeSteady`, `Speed.BackwardStepUnchecked`).
- The `\#` escape can never apply, because every `#` has already become `;#` by then. The model performs the replacement as written (`Ssc.Records`).
- The hold table is sorted by panel letter, then beat, then kind, so the `diff(-1)` that computes durations runs across panel boundaries (`Timeline.Durations`). When a panel's caps and tails alternate, each cap still lasts until its own tail (`Timeline.OwnTailDurations`).

## Model

| member | source | states |
|---|---|---|
| Ssc.DropComments | src/ssc_parser.py:80 | the kept lines are not comment lines (first character one of `= < > /`), and a line is kept iff it is an input line that is not a comment line |
| Ssc.DropCommentsConcat | src/ssc_parser.py:80 | comment removal of two joined line lists is the removal of each, joined in the same order |
| Ssc.DropCommentsCount | src/ssc_parser.py:80 | a kept line occurs as often as in the input, and a comment line not at all |
| Ssc.ParseSections | src/ssc_parser.py:79-102 | fails with the missing-title error iff section 0 lacks `#TITLE`, and with the missing-step-type error iff a later section lacks `#STEPSTYPE`; on success the header and chart sections joined back with `#NOTEDATA:;` give the comment-free document text, and no section contains the delimiter |
| Ssc.StaleRecordStoresNothing | src/ssc_parser.py:137-151 | a record without `:` after a record that stored a key not starting with `#` stores nothing, because the reused key has already lost its `#` |
| Ssc.EntriesAt | src/ssc_parser.py:137-151 | the loop's entry for record `i` is that record read with the locals the records before it leave |
| Ssc.StoreFails | src/ssc_parser.py:137-153 | parsing a header succeeds iff every record succeeds, and otherwise fails with the first failing record's error |
| Ssc.LaterRecordWins | src/ssc_parser.py:151 | when a key is stored more than once, the last record that stores it decides its value |
| Ssc.StoredKeysComeFromRecords | src/ssc_parser.py:145-151 | every key of the attribute map was stored by some record |
| Ssc.EscapedColonsRestored | src/ssc_parser.py:122-151 | `#key:` followed by pieces joined with `\:` parses to the single attribute `key` whose value is the pieces joined with `:` |
| Ssc.EscapedRecords | src/ssc_parser.py:122-134 | such a header becomes one record, with every `\:` replaced by the private sentinel |
| Ssc.Inherit | src/ssc_parser.py:195-198 | succeeds iff the global header holds every inherited timing key; the result keeps the chart's own value for a key it sets and takes the global value for the rest |
| Ssc.InheritFailsAtFirst | src/ssc_parser.py:197-198 | a failure names an inherited key that the global header lacks |
| Ssc.NotesBlock | src/ssc_parser.py:188-189 | fails iff the text has no `;`; otherwise the block has no `;` |
| Ssc.NotesBlockShape | src/ssc_parser.py:188-189 | the block is the stripped text before the first `;` and is its own strip |
| Ssc.ParseChart | src/ssc_parser.py:179-198 | a section without `#NOTES:` is skipped; otherwise the chart holds every inherited key and the notes block of the text after `#NOTES:` |
| Ssc.ChartBody | src/ssc_parser.py:184-198 | a built chart holds every inherited key, its notes are the notes block, and the global header held every inherited key |
| Ssc.ParseStepcharts | src/ssc_parser.py:155-200 | on success one chart per section holding `#NOTES:`, each with every inherited key and notes free of `;` |
| Ssc.WithNotesMembers | src/ssc_parser.py:179-182 | the sections read as charts are exactly the sections containing `#NOTES:` |
| Ssc.ParseStepchartsCharts | src/ssc_parser.py:155-200 | parsing succeeds iff every section parses; chart `k` is then what the `k`-th section holding `#NOTES:` parses to; a failure is the error of the first section that fails |
| Ssc.GatherOk | src/ssc_parser.py:155-200 | collecting the sections succeeds iff every section parses |
| Ssc.GatherCharts | src/ssc_parser.py:155-200 | the collected charts are, in order, the charts of the sections that yield one |
| Ssc.GatherFails | src/ssc_parser.py:155-200 | a failed collection has the error of the first section that fails |
| Ssc.ParseDocument | src/ssc_parser.py:39-49 | a section error is the document's error; every parsed chart and the global header hold every inherited timing key |
| Ssc.InheritNeedsGlobals | src/ssc_parser.py:195-198 | once any chart parses, the global header holds all five timing keys |
| Stepchart.PanelIndexInverse | src/stepchart_parser.py:16-27 | a column's panel letter maps back to that column |
| Stepchart.Truncate | src/stepchart_parser.py:171 | the result is a prefix of the line: the whole line when it fits in the panel count, and exactly that many characters when it is longer |
| Stepchart.Lookup | src/stepchart_parser.py:56-98 | succeeds iff the key is an attribute, with its value, and otherwise names the missing key |
| Stepchart.NewChart | src/stepchart_parser.py:47-98 | `pump-single` gives format S and `pump-double` format D with the matching panel count; the chart is standard iff its format is S or D, no denylisted phrase is in its description and its notes pass the line check; a missing `STEPSTYPE` is an error |
| Stepchart.CleanLinesIffStandard | src/stepchart_parser.py:100-135 | the line filter that `parse_steps` applies accepts the notes iff `standard_notes` accepts them |
| Stepchart.CleanLinesSome | src/stepchart_parser.py:158-182 | the filter succeeds iff every line is a comment, a measure separator or a truncated row of note characters |
| Stepchart.ParseStep | src/stepchart_parser.py:230-256 | succeeds iff the column is a panel and the character a step kind; the event sits at the given beat on that column's panel |
| Stepchart.RowEvents | src/stepchart_parser.py:221-225 | a row decodes iff each of its cells is `0` or a panel column holding a step kind; it then yields one event per non-`0` character, left to right, all at the row's beat, and every marked cell's event is among them |
| Stepchart.RowEventsFrom | src/stepchart_parser.py:221-225 | every event of a decoded row is the event of one of its marked cells |
| Stepchart.RowEventsFails | src/stepchart_parser.py:221-253 | a row that fails raises the error of its first marked cell that does not decode: a missing panel when the column is past the tenth, otherwise the unknown step character |
| Stepchart.RowBeatBounds | src/stepchart_parser.py:212-216 | row `r` of an `n`-row measure starting at beat `b` lies in `[b, b + 4)`, and later rows lie strictly later |
| Stepchart.MeasureRows | src/stepchart_parser.py:217-228 | rows `i..` decode iff each of their cells does; their events lie from row `i`'s beat to the measure's end, in order |
| Stepchart.MeasureRowsEvents | src/stepchart_parser.py:217-228 | the events of decoded rows are exactly the events of their marked cells, row `k` at beat `start + 4k/n` |
| Stepchart.MeasureRowsFails | src/stepchart_parser.py:217-228 | rows that fail raise the error of their first bad cell, reading rows in order and each row left to right |
| Stepchart.ParseMeasure | src/stepchart_parser.py:196-228 | all events of a measure lie within its four beats, in row-then-column order |
| Stepchart.ParseMeasureDecodes | src/stepchart_parser.py:196-228 | a measure decodes iff every cell of its newline-separated rows does; its events are then exactly those of its marked cells; a failure is the first bad cell's error |
| Stepchart.ParseSteps | src/stepchart_parser.py:137-194 | no events for a chart with no panels, a non-standard chart or notes that fail the line check; otherwise every event is at a non-negative beat and the events are ordered |
| Stepchart.ParseStepsEvents | src/stepchart_parser.py:158-194 | for a standard chart whose lines pass the check: it decodes iff every cell of every measure does; its events are then exactly those of the marked cells, measure `j` starting at beat `4j`; a failure is the first failing measure's error |
| Stepchart.MeasuresDecode | src/stepchart_parser.py:184-192 | the measures decode iff every cell of each does; their events are then exactly those of their marked cells; otherwise the first measure that fails gives the error |
| Stepchart.MeasureEvents | src/stepchart_parser.py:188-191 | one decoded measure holds exactly the events of its marked cells |
| Stepchart.DecodedMeasuresEvents | src/stepchart_parser.py:185-192 | the events of all decoded measures together are exactly those of their marked cells |
| Stepchart.FlattenHas | src/stepchart_parser.py:191 | every event of a measure is among the chart's events |
| Stepchart.FlattenFrom | src/stepchart_parser.py:191 | every event of the chart comes from some measure |
| Stepchart.FlattenSorted | src/stepchart_parser.py:185-192 | measures each sorted and confined to their own four beats extend to a sorted list starting at the first measure's beat |
| Stepchart.BlocksSorted | src/stepchart_parser.py:184-192 | the measures' events, concatenated, stay ordered and at non-negative beats |
| Stepchart.SortedPairwise | src/stepchart_parser.py:184-192 | an ordered event list has every earlier event before every later one |
| Stepchart.Numbers | src/stepchart_parser.py:289 | parses iff every field is a number, giving those numbers in order; otherwise it names the first field that is not a number |
| Stepchart.Fields | src/stepchart_parser.py:288-291 | parses iff every field is a number; an entry of more than two fields has its last field as the boolean `value != 0` and every other field as its number; a failure names the first bad field |
| Stepchart.EntryFields | src/stepchart_parser.py:288-291 | a parsed entry has at least one field, and a flag exactly in the last place of an entry of three or more |
| Stepchart.ParseTimingChanges | src/stepchart_parser.py:277-294 | empty data gives no entries; every parsed entry has at least one field and a flag only last in an entry of three or more |
| Stepchart.ParseTimingChangesEntries | src/stepchart_parser.py:280-294 | non-empty data parses iff every non-empty comma field of the stripped text does; entry `i` is then the fields of comma field `i`; a failure is the first failing field's error |
| Stepchart.Entries | src/stepchart_parser.py:283-292 | one entry result per non-empty comma field, in order, each the fields of that comma field |
| Stepchart.PairChanges | src/stepchart_parser.py:313-319 | a two-column table parses iff there are no entries or the widest entry has exactly two fields; a narrower entry is padded, so its value is missing; each change has its entry's beat and, for two fields, its value; a wider entry names the key |
| Stepchart.Width | src/stepchart_parser.py:318 | the frame's width is that of its widest entry, and 0 for no entries |
| Stepchart.SpeedChanges | src/stepchart_parser.py:313-319 | the speed table parses iff there are no entries or the widest has exactly four fields; each change has its entry's beat, and its speed, duration and mode cells are present exactly when the entry reaches them, with the entry's values |
| Stepchart.TimingChanges | src/stepchart_parser.py:296-336 | a parsed chart has every timing list built from its attribute's entries by the two-column or the speed table, and at least one speed change; a chart without speeds fails, since the frame then lacks the `speed_mode` column |
| Timeline.WarpsOf | src/stepchart_parser.py:394-395 | every warp is a warp change with positive length, and every warp change with positive length is a warp |
| Timeline.LatestEnd | src/stepchart_parser.py:396-402 | none iff no warp strictly contains the beat; otherwise the largest end among the warps that do |
| Timeline.LatestStart | src/stepchart_parser.py:404-411 | none iff no warp strictly contains the beat; otherwise the largest start among the warps that do |
| Timeline.Relocate | src/stepchart_parser.py:393-411 | a cap inside warps moves past all of them and never earlier; a tail moves to the latest containing warp's start and never later; a beat outside every warp stays put |
| Timeline.PanelHolds | src/stepchart_parser.py:385-391 | the holds of one panel are caps and tails of that panel only |
| Timeline.RelocatedHolds | src/stepchart_parser.py:385-411 | the hold table has one entry per cap or tail of the sorted table, each at its relocated beat |
| Timeline.HoldsByPanelOrdered | src/stepchart_parser.py:386-391 | on sorted events the table holds exactly the chart's caps and tails, grouped by panel in letter order with beats strictly rising within a panel |
| Timeline.HoldsByPanelMembers | src/stepchart_parser.py:386-391 | the entries of the table for given panels are exactly the caps and tails on those panels |
| Timeline.PanelHoldsMembers | src/stepchart_parser.py:386-391 | one panel's entries are exactly its caps and tails |
| Timeline.PanelHoldsOrdered | src/stepchart_parser.py:390-391 | on sorted events one panel's caps and tails come at strictly rising beats |
| Timeline.HoldsByPanelSplit | src/stepchart_parser.py:390-391 | the table splits at any letter into the blocks of the letters before and after it |
| Timeline.Durations | src/stepchart_parser.py:413-417 | a tail's duration is 0; a cap's is the absolute distance to the next entry of the table, which may belong to another panel; the last entry's cap has none; no duration is negative |
| Timeline.CapMeetsOwnTail | src/stepchart_parser.py:413-417 | a cap directly followed by a later tail of its panel lasts until that tail |
| Timeline.OwnTailDurations | src/stepchart_parser.py:385-417 | when a panel's caps and tails alternate, each of its caps lasts until its own tail, between their relocated beats, and without warps exactly the tail's beat minus the cap's |
| Timeline.BlockDurations | src/stepchart_parser.py:413-417 | every cap of an alternating, rising block of the table lasts until its own tail |
| Timeline.SortUnique | src/stepchart_parser.py:480-485 | the merged beats are strictly increasing and are exactly the input beats |
| Timeline.RowAt | src/stepchart_parser.py:429-452 | the row at a beat counts, per panel, the taps and the relocated caps at that beat; a duration is known iff the hold table has an entry at the beat and the panel had a cap or tail there before relocation, and is then the sum of that panel's durations at the beat |
| Timeline.Merge | src/stepchart_parser.py:480-485 | one row per beat of a tap, a relocated hold or a known timing value, in increasing beat order, each with one column per panel and the BPM, warp, stop and delay set at its beat |
| Timeline.MergeCounts | src/stepchart_parser.py:429-485 | every merged row counts the taps and relocated caps per panel at its beat, and a known duration is the sum of that panel's hold durations there |
| Timeline.TapCount | src/stepchart_parser.py:429-441 | the number of taps on that panel at that beat, zero iff there is none |
| Timeline.CapCount | src/stepchart_parser.py:433-441 | the number of caps on that panel at that beat, zero iff there is none |
| Timeline.At | src/stepchart_parser.py:480-485 | a timing value at a beat is missing when no change sits there; otherwise it is the value of the first change at that beat |
| Timeline.Bridge | src/stepchart_parser.py:487-496 | known non-negative durations are kept, and no filled duration is negative |
| Timeline.BridgeSpan | src/stepchart_parser.py:487-496 | a row between a cap row and the next known duration gets the distance from its beat to the hold's end |
| Timeline.BridgeBeforeAny | src/stepchart_parser.py:487-496 | rows before any known duration stay null |
| Timeline.BridgeRows | src/stepchart_parser.py:487-496 | every panel's duration column is filled that way and nothing else changes |
| Timeline.RowWarps | src/stepchart_parser.py:499-500 | the warps are exactly the rows carrying a positive warp |
| Timeline.DropWarpedKeeps | src/stepchart_parser.py:507-513 | every kept row is an input row with warp rows' steps zeroed, and every row outside all warps is kept |
| Timeline.DropWarpedAscending | src/stepchart_parser.py:509-513 | dropping warped rows keeps beats ascending |
| Timeline.Elide | src/stepchart_parser.py:498-513 | no kept row lies strictly inside a warp, warp rows carry no steps, rows outside warps survive, and order is kept |
| Timeline.FillForwardIsLastKnown | src/stepchart_parser.py:516 | the forward-filled value at row `i` is the last known value up to row `i` |
| Timeline.FillTiming | src/stepchart_parser.py:515-518 | BPM is forward filled, and stop, delay and warp become 0 where unset |
| Timeline.CumSum | src/stepchart_parser.py:522-526 | each running total is the previous one plus the current term |
| Timeline.WarpSumsAreWarpBefore | src/stepchart_parser.py:522 | the shifted warp total at row `i` is the sum of the warps before it |
| Timeline.BeatDeltaIs | src/stepchart_parser.py:523-524 | the beat delta is the absolute difference of consecutive warp-corrected beats |
| Timeline.SecondsAdvance | src/stepchart_parser.py:520-555 | seconds start at minus the offset, and each row adds the travel time at its BPM plus its stop and delay |
| Timeline.TravelIs | src/stepchart_parser.py:523-525 | the travel time is the corrected beat distance times 60/BPM |
| Timeline.SecondsAscend | src/stepchart_parser.py:520-530 | with positive BPM and non-negative stops and delays, seconds never decrease |
| Timeline.WithSeconds | src/stepchart_parser.py:520-555 | only the seconds column changes, and it follows the recurrence |
| Timeline.FillScroll | src/stepchart_parser.py:533-558 | speed, scroll factor and tickcount of each row are the last value known up to that row, missing before the first; nothing else changes |
| Timeline.Finish | src/stepchart_parser.py:520-558 | only seconds and the forward-filled visual columns change; seconds follow the recurrence, and each visual cell is the last value known up to its row |
| Timeline.ChartTimeline | src/stepchart_parser.py:358-560 | a step error is the timeline's error; a timeline has a parsed timing table, ascending beats, every row timed, seconds by the recurrence, no row inside a warp, and each row counts the taps and caps at its beat, none on a warp row |
| Timeline.BuildTimeline | src/stepchart_parser.py:429-560 | fails only for a missing tickcount, bpm or scroll-factor column or a non-finite second, and always when one of those timing lists is empty; a built timeline has ascending beats, every row timed, seconds by the recurrence, no row inside a warp, and each row counts the taps and caps at its beat, none on a warp row |
| Timeline.MergeHasWarpRow | src/stepchart_parser.py:480-485 | every warp change has a merged row at its beat |
| Timeline.ElideOutsideWarps | src/stepchart_parser.py:498-513 | after elision no row lies strictly inside any warp change of the chart |
| Timeline.TimelineFacts | src/stepchart_parser.py:498-558 | the stages after the merge keep beats ascending and rows outside warps, make the seconds follow the recurrence, and leave each row counting the taps and caps at its beat, none on a warp row |
| Timeline.BridgedCounts | src/stepchart_parser.py:487-496 | filling the durations leaves every row's tap and cap counts |
| Timeline.ElidedCounts | src/stepchart_parser.py:498-513 | the rows the warp step keeps count the steps at their beats, none on a warp row |
| Timeline.FinalCounts | src/stepchart_parser.py:515-558 | the finished rows count the steps at their beats, none on a warp row |
| Timeline.FillsKeepSteps | src/stepchart_parser.py:515-558 | the fills after the warp step keep the row count and each row's beat, taps, caps and whether it is a warp row |
| Timeline.FilledWarpRow | src/stepchart_parser.py:515-518 | the BPM and zero fills keep whether a row is a warp row, and its taps and caps |
| Serializer.DecodeRender | src/step_serializer.py:96-104 | reading back the rendering of a well-formed code list gives that list |
| Serializer.KindLetters | src/step_serializer.py:15-18 | letters exist iff the kind is S or D; they are distinct upper-case panel letters |
| Serializer.RowCodesCount | src/step_serializer.py:70-93 | per panel the token has as many tap letters as taps and cap codes as caps, one interior code iff the duration is positive with no cap, and one tail code iff the duration is 0 |
| Serializer.RowTapCount | src/step_serializer.py:70-75 | a panel's tap letters appear exactly as many times as its tap count |
| Serializer.RowCapCount | src/step_serializer.py:76-81 | a panel's cap codes appear exactly as many times as its cap count |
| Serializer.RowHoldCount | src/step_serializer.py:82-93 | a panel's interior and tail codes appear exactly when its duration calls for them |
| Serializer.SelectedIffCodes | src/step_serializer.py:61-64 | a row is selected iff its codes hold a tap, a cap or a tail |
| Serializer.TapOrigin | src/step_serializer.py:70-75 | every tap code names a panel with a positive tap count |
| Serializer.CapOrigin | src/step_serializer.py:76-81 | every cap code names a panel with a positive cap count |
| Serializer.HoldOrigin | src/step_serializer.py:82-93 | every interior or tail code names a panel of the chart's format |
| Serializer.RowCodesWellFormed | src/step_serializer.py:70-101 | a row's codes are well formed, so they read back |
| Serializer.Serialize | src/step_serializer.py:32-106 | produces a string iff the kind is S or D and every row has one column per panel |
| Serializer.SerializeRead | src/step_serializer.py:32-106 | splitting the output on `-` and each token on `:` gives back, for each selected row in order, its formatted seconds and its codes |
| Serializer.TokenShape | src/step_serializer.py:96-101 | a token has a `:` and no `-` |
| Searcher.RankInjective | src/step_pattern_searcher.py:19 | distinct letters of the order string have distinct ranks |
| Searcher.SortSteps | src/step_pattern_searcher.py:100 | the sorted group is ordered by rank and is a permutation of the group |
| Searcher.RankSortedUnique | src/step_pattern_searcher.py:100 | two rank-ordered permutations of the same letters are equal |
| Searcher.SortGroup | src/step_pattern_searcher.py:100 | succeeds iff every letter is in the order string, and otherwise names a letter that is not; the result is a rank-ordered permutation |
| Searcher.GroupOrderIrrelevant | src/step_pattern_searcher.py:100 | any permutation of a group sorts to the same result |
| Searcher.LoosenLetters | src/step_pattern_searcher.py:104-107 | loosening adds only characters outside the order string, so the group's letters are unchanged |
| Searcher.Loosen | src/step_pattern_searcher.py:104-107 | a group without lower-case letters is left unchanged |
| Searcher.LoosenConcat | src/step_pattern_searcher.py:104-107 | loosening two joined groups loosens each, in the same order |
| Searcher.LoosenOne | src/step_pattern_searcher.py:104-107 | a lower-case letter gains the hold suffix and any other character is kept as is |
| Searcher.Subpattern | src/step_pattern_searcher.py:91-110 | a group compiles iff it is `*` or made of order letters, and otherwise names an unknown letter; `*` gives the wildcard; any other group gives the timestamp pattern, a colon and its sorted letters, loosened unless holds are told apart |
| Searcher.SubpatternLetters | src/step_pattern_searcher.py:98-110 | a compiled group has exactly the group's letters |
| Searcher.SubpatternOrderIrrelevant | src/step_pattern_searcher.py:100 | permuting a group does not change its compiled form |
| Searcher.RegexPattern | src/step_pattern_searcher.py:88-116 | the pattern compiles iff every `-`-separated group is `*` or made of order letters |
| Searcher.RegexPatternShape | src/step_pattern_searcher.py:88-116 | a compiled pattern is the subpatterns of the groups joined by `-`, wrapped as `[...]*` when repeats are wanted |
| Searcher.RepeatWraps | src/step_pattern_searcher.py:113-114 | with repeat, the pattern is exactly the plain pattern wrapped in `[` and `]*` |
| Searcher.PatternOrderIrrelevant | src/step_pattern_searcher.py:89-112 | specs whose groups are permutations of each other compile to the same pattern |
| Searcher.PatternLetters | src/step_pattern_searcher.py:88-116 | the pattern contains exactly the spec's panel letters |
| Searcher.GroupLetters | src/step_pattern_searcher.py:89-110 | each compiled group has the letters of its group |
| Searcher.ImageInvolution | src/step_pattern_searcher.py:20-55 | both mirror maps are involutions over the order letters |
| Searcher.SinglesCentreFixed | src/step_pattern_searcher.py:20-31 | the singles mirror fixes the centre panel |
| Searcher.MirrorCharFacts | src/step_pattern_searcher.py:174-176 | mirroring keeps a character inside or outside the order string, leaves characters outside it alone and undoes itself |
| Searcher.MirrorTwice | src/step_pattern_searcher.py:174-176 | mirroring a spec twice gives the spec back |
| Searcher.SplitMirror | src/step_pattern_searcher.py:89-176 | the groups of a mirrored spec are the mirrored groups |
| Searcher.MirrorGroup | src/step_pattern_searcher.py:174-176 | a mirrored group is `*` or made of order letters iff the group is |
| Searcher.MirrorCompiles | src/step_pattern_searcher.py:170-181 | the mirrored spec compiles iff the spec does |
| Searcher.Candidates | src/step_pattern_searcher.py:170-181 | the candidates start with the matches of the spec's pattern |
| Searcher.CandidatesFail | src/step_pattern_searcher.py:170-181 | candidate collection fails iff the spec does not compile or the step type is neither S nor D |
| Searcher.SymmetricSpecSearchedOnce | src/step_pattern_searcher.py:177 | a spec equal to its mirror is searched once |
| Searcher.MirrorSearchSwaps | src/step_pattern_searcher.py:171-181 | searching the mirrored spec finds the same candidates with the two passes swapped |
| Searcher.SearchKept | src/step_pattern_searcher.py:118-213 | the reported matches are exactly the verdicts of the candidates the speed filter keeps |
| Speed.NoteTime | src/step_pattern_searcher.py:191-193 | an unreadable timestamp names the text before the first `:` |
| Speed.Filter | src/step_pattern_searcher.py:184-213 | succeeds iff every candidate's verdict can be reached without an unreadable timestamp, and keeps at most one match per candidate |
| Speed.FilterKept | src/step_pattern_searcher.py:184-213 | a reported match is the verdict of some candidate kept by the filter, and every kept candidate is reported |
| Speed.PaceKept | src/step_pattern_searcher.py:192-206 | the gap loop over parsed times keeps a match iff every gap after the first passes the pace check, and reports the last gap |
| Speed.KeptSteady | src/step_pattern_searcher.py:192-206 | the loop's verdict equals the steadiness of the list of gaps |
| Speed.VerdictSteady | src/step_pattern_searcher.py:184-211 | a match of parsed times is kept iff its gaps are steady, with its first time and last gap; a single time is kept with gap 0 |
| Speed.JudgeSteady | src/step_pattern_searcher.py:184-211 | a match whose every timestamp parses is kept iff each gap that follows a non-negative gap is within `tol` of it and within `[min - tol, max + tol]`; it reports its first time and last gap |
| Speed.BackwardStepUnchecked | src/step_pattern_searcher.py:197-201 | the times 0, -1, 5 pass whatever the limits: the gap after the backward step is never checked |
| Speed.SteadyFromIff | src/step_pattern_searcher.py:197-201 | the step-by-step check and the pairwise statement of steadiness agree |
| Text.JoinSplitOn | src/ssc_parser.py:84 | joining the pieces of a split with the separator gives the text back |
| Wrappers.Collect | src/stepchart_parser.py:184-190 | collecting results succeeds iff every result does, with their values in order, and otherwise yields the first failure |

## Left out

- File reading, the path and extension checks and the success message of `SSCFile.__init__` are left out. The document arrives as its list of lines.
- `src/ssc_crawler.py` is not part of this model: it does directory traversal, prompts and CSV export.
- The regular-expression engine is left out. `findAll` is a parameter, and the search treats its matches as the candidates. What the `*` wildcard and the `repeat` wrapper's character class match is regex semantics and is not modelled. The model proves what pattern string is built.
- `float()`, `int()` and `round(sec, 3)` are parameters (`toReal`, `toInt`, `fmt`). Beats and seconds are exact `real`s, so IEEE rounding, NaN and infinities are not modelled.
- Pandas mechanics are left out: dtypes, index alignment, `drop_duplicates`, and the column order of the final frame. Duplicate timing changes at one beat are read as the first change at that beat. The model also counts each tap and cap at that beat once. In the code, the outer merge at `src/stepchart_parser.py:379` repeats a step once per duplicate timing row, so the group sums at lines 439-441 count it that many times.
- The visual columns `speed_duration`, `speed_mode` and `scroll_factor` are carried along unread. The `scroll_rate` product column is not built.
- Timeline.BuildTimeline: returns `Err(NonFiniteSeconds)` when a filled row has no BPM or a BPM of 0. The code raises nothing there: it divides by that BPM at `src/stepchart_parser.py:525` and returns NaN or infinite seconds.
- Timeline.Durations: measures a cap against the next row of the panel-sorted table, as the code does, and not against the cap's own tail. The two agree when every panel's caps and tails alternate (`Timeline.OwnTailDurations`); nothing is promised otherwise.
- Speed.Filter: the count bound says at most one match per candidate; the order of reported matches follows the candidates.
- Searcher.Candidates: only states that the first pass's matches come first; the exact append of the mirrored pass is stated by `Searcher.MirrorSearchSwaps` and `Searcher.SymmetricSpecSearchedOnce`.
