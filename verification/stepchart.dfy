/** One chart of a document: its format, whether it is a standard chart, the note grid decoded
    into (panel, kind, beat) events, and the `beat=value=…` timing lists. Python's `int()` and
    `float()` are the parameters `toInt` and `toReal`; `None` stands for their `ValueError`. */
module Stepchart {
  import opened Wrappers
  import opened Text
  import Ssc

  datatype Format = Single | Double | Unknown

  /** The exceptions chart decoding can raise. */
  datatype ChartError =
    | MissingAttribute(key: string)   // KeyError on the attribute map
    | BadNumber(text: string)         // ValueError from int() or float()
    | NoPanel(column: nat)            // IndexError: a grid column past the tenth
    | UnknownStep(c: char)            // KeyError: a grid character with no step kind
    | ArityMismatch(kind: string)     // ValueError: the widest timing entry does not match the columns
    | NoTimingData                    // TypeError: merging an empty list of timing frames
    | MissingColumn(name: string)     // KeyError: a timing column no attribute produced
    | NonFiniteSeconds                // a row with no known or a zero bpm: its second is NaN or infinite

  datatype NoteKind = Tap | HoldCap | HoldTail | Fake | Mine | Lift

  datatype NoteEvent = NoteEvent(panel: char, kind: NoteKind, beat: real)

  /** Panel letters by grid column: `ZQSEC` on the first pad, `VRGYN` on the second. */
  const PanelMap: string := "ZQSECVRGYN"

  /** Description substrings that mark a chart as not standard. */
  const Denylist: seq<string> := ["UCS", "QUEST", "HIDDEN", "HALF", "SP", "DP", "INFINITY", "TRAIN"]

  /** The alphabet of a conforming grid line: `[0-3F]*`. */
  const NoteAlphabet: string := "0123F"

  /** The column of a panel letter. */
  function PanelIndex(c: char): nat
  {
    match c
    case 'Z' => 0 case 'Q' => 1 case 'S' => 2 case 'E' => 3 case 'C' => 4
    case 'V' => 5 case 'R' => 6 case 'G' => 7 case 'Y' => 8 case 'N' => 9
    case _ => 10
  }

  lemma PanelIndexInverse(p: nat)
    requires p < |PanelMap|
    ensures PanelIndex(PanelMap[p]) == p
  {
  }

  /** `step_type_map`: the kind a grid character stands for. */
  function StepKind(c: char): Option<NoteKind>
  {
    match c
    case '1' => Some(Tap) case '2' => Some(HoldCap) case '3' => Some(HoldTail)
    case 'F' => Some(Fake) case 'M' => Some(Mine) case 'L' => Some(Lift)
    case _ => None
  }

  /** The format a step type selects. */
  function FormatOf(stepstype: string): Format
  {
    if stepstype == "pump-single" then Single
    else if stepstype == "pump-double" then Double
    else Unknown
  }

  /** The number of panels of a format. */
  function PanelCount(f: Format): nat
  {
    match f
    case Single => 5
    case Double => 10
    case Unknown => 0
  }

  /** Some denylisted substring occurs in the description. */
  predicate Denied(description: string)
  {
    exists i :: 0 <= i < |Denylist| && Contains(description, Denylist[i])
  }

  /** `re.match('[0-3F]*$', line)` on a line without a newline. */
  predicate Conforming(line: string)
  {
    forall i :: 0 <= i < |line| ==> line[i] in NoteAlphabet
  }

  /** `line[:n]`. */
  function Truncate(line: string, n: nat): (r: string)
    ensures |r| <= n && r <= line
    ensures |line| <= n ==> r == line
    ensures |line| > n ==> |r| == n
  {
    if |line| <= n then line else line[..n]
  }

  /** A grid line passes the check: after stripping it is a `//` comment, a measure separator,
      or its first `panels` characters lie in the note alphabet. */
  predicate LineOk(line: string, panels: nat)
  {
    var t := Strip(line);
    "//" <= t || "," <= t || Conforming(Truncate(t, panels))
  }

  /** `standard_notes`: every line of the notes passes the check. */
  predicate StandardNotes(notes: string, panels: nat)
  {
    var lines := Lines(notes);
    forall i :: 0 <= i < |lines| ==> LineOk(lines[i], panels)
  }

  /** The chart attributes the timing lists are read from (absent optional ones are empty). */
  datatype TimingText = TimingText(bpms: string, stops: string, delays: string, warps: string,
                                   tickcounts: string, speeds: string, scrolls: string, fakes: string)

  datatype Chart = Chart(format: Format, panels: nat, difficulty: int, offset: real,
                         standard: bool, timing: TimingText, notes: string)

  /** `atts[key]`, or the KeyError it raises. */
  function Lookup(atts: Ssc.Attributes, key: string): (r: Result<string, ChartError>)
    ensures r.Ok? <==> key in atts
    ensures r.Ok? ==> r.value == atts[key]
    ensures r.Err? ==> r.error == MissingAttribute(key)
  {
    if key in atts then Ok(atts[key]) else Err(MissingAttribute(key))
  }

  /** `atts.get(key, '')`. */
  function LookupOr(atts: Ssc.Attributes, key: string): string
  {
    if key in atts then atts[key] else ""
  }

  /** The `Stepchart` constructor: format and panel count from the step type, meter, offset,
      the standard verdict and the timing attribute texts. */
  function NewChart(chart: Ssc.ParsedChart, toInt: string -> Option<int>, toReal: string -> Option<real>)
    : (r: Result<Chart, ChartError>)
    ensures r.Ok? ==> "STEPSTYPE" in chart.attributes && "DESCRIPTION" in chart.attributes
    ensures r.Ok? ==> r.value.panels == PanelCount(r.value.format)
    ensures r.Ok? ==> (r.value.format == Single <==> chart.attributes["STEPSTYPE"] == "pump-single")
    ensures r.Ok? ==> (r.value.format == Double <==> chart.attributes["STEPSTYPE"] == "pump-double")
    ensures r.Ok? ==> (r.value.standard <==>
                         r.value.format != Unknown
                         && !Denied(chart.attributes["DESCRIPTION"])
                         && StandardNotes(chart.notes, r.value.panels))
    ensures r.Ok? ==> r.value.notes == chart.notes
    ensures "STEPSTYPE" !in chart.attributes ==> r == Err(MissingAttribute("STEPSTYPE"))
  {
    var atts := chart.attributes;
    var stepstype :- Lookup(atts, "STEPSTYPE");
    var format := FormatOf(stepstype);
    var panels := PanelCount(format);
    var meter :- Lookup(atts, "METER");
    var difficulty :- toInt(meter).ToResultOr(BadNumber(meter));
    var offsetText :- Lookup(atts, "OFFSET");
    var offset :- toReal(offsetText).ToResultOr(BadNumber(offsetText));
    var description :- Lookup(atts, "DESCRIPTION");
    var standard := format in {Single, Double} && !Denied(description) && StandardNotes(chart.notes, panels);
    var bpms :- Lookup(atts, "BPMS");
    var tickcounts :- Lookup(atts, "TICKCOUNTS");
    var speeds :- Lookup(atts, "SPEEDS");
    var scrolls :- Lookup(atts, "SCROLLS");
    var timing := TimingText(bpms, LookupOr(atts, "STOPS"), LookupOr(atts, "DELAYS"), LookupOr(atts, "WARPS"),
                             tickcounts, speeds, scrolls, LookupOr(atts, "FAKES"));
    Ok(Chart(format, panels, difficulty, offset, standard, timing, chart.notes))
  }

  /** `parse_step`: the panel letter of a column and the kind of a grid character. */
  function ParseStep(col: nat, c: char, beat: real): (r: Result<NoteEvent, ChartError>)
    ensures r.Ok? <==> col < |PanelMap| && StepKind(c).Some?
    ensures r.Ok? ==> r.value.beat == beat && PanelIndex(r.value.panel) == col
                      && Some(r.value.kind) == StepKind(c)
  {
    if col >= |PanelMap| then Err(NoPanel(col))
    else
      match StepKind(c)
      case None => Err(UnknownStep(c))
      case Some(k) =>
        PanelIndexInverse(col);
        Ok(NoteEvent(PanelMap[col], k, beat))
  }

  /** The number of marked (non-`0`) characters of a grid row. */
  function Marks(row: string): nat
  {
    if row == [] then 0 else (if row[0] == '0' then 0 else 1) + Marks(row[1..])
  }

  /** Cell `q` of a row whose first character sits in column `col` is blank (`0`) or decodes:
      its column is a panel and its character a step kind. */
  predicate CellOk(row: string, col: nat, q: nat)
  {
    q >= |row| || row[q] == '0' || (col + q < |PanelMap| && StepKind(row[q]).Some?)
  }

  /** The exception `parse_step` raises for a marked cell that does not decode: the panel
      lookup comes first, so a column past the tenth fails before the character is read. */
  function CellError(col: nat, c: char): ChartError
  {
    if col >= |PanelMap| then NoPanel(col) else UnknownStep(c)
  }

  /** Marked cell `p` of the row decodes to event `e` at the row's beat. */
  ghost predicate RowCell(row: string, col: nat, beat: real, p: int, e: NoteEvent)
  {
    0 <= p < |row| && row[p] != '0' && col + p < |PanelMap| && StepKind(row[p]).Some?
    && e == NoteEvent(PanelMap[col + p], StepKind(row[p]).value, beat)
  }

  /** The events of one grid row whose first character sits in column `col`: one per marked
      character, left to right, all at the row's beat. */
  function RowEvents(row: string, col: nat, beat: real): (r: Result<seq<NoteEvent>, ChartError>)
    ensures r.Ok? <==> forall p :: 0 <= p < |row| ==> CellOk(row, col, p)
    ensures r.Ok? ==> |r.value| == Marks(row)
    ensures r.Ok? ==> forall e :: e in r.value ==> e.beat == beat && col <= PanelIndex(e.panel) < col + |row|
    ensures r.Ok? ==> Sorted(r.value)
    ensures r.Ok? ==> forall p :: 0 <= p < |row| && row[p] != '0' && col + p < |PanelMap| && StepKind(row[p]).Some? ==>
                        NoteEvent(PanelMap[col + p], StepKind(row[p]).value, beat) in r.value
    decreases |row|
  {
    if row == [] then Ok([])
    else
      assert forall p :: 1 <= p < |row| ==> row[p] == row[1..][p - 1];
      var next := col + 1;
      assert forall p :: 1 <= p < |row| ==> (CellOk(row, col, p) <==> CellOk(row[1..], next, p - 1));
      assert forall p :: 0 <= p < |row| - 1 ==> (CellOk(row[1..], next, p) <==> CellOk(row, col, p + 1));
      if row[0] == '0' then RowEvents(row[1..], col + 1, beat)
      else
        var step := ParseStep(col, row[0], beat);
        if step.Err? then
          assert !CellOk(row, col, 0);
          Err(step.error)
        else
        var e := step.value;
        var rest :- RowEvents(row[1..], next, beat);
        assert rest != [] ==> rest[0] in rest;
        SortedConcat([e], rest);
        Ok([e] + rest)
  }

  /** Every event of a decoded row comes from one of its marked cells. */
  lemma {:induction false} RowEventsFrom(row: string, col: nat, beat: real)
    requires RowEvents(row, col, beat).Ok?
    ensures forall e :: e in RowEvents(row, col, beat).value ==> exists p :: RowCell(row, col, beat, p, e)
    decreases |row|
  {
    if row != [] {
      RowEventsFrom(row[1..], col + 1, beat);
      var rest := RowEvents(row[1..], col + 1, beat);
      forall e | e in RowEvents(row, col, beat).value
        ensures exists p :: RowCell(row, col, beat, p, e)
      {
        if rest.Ok? && e in rest.value {
          var p :| RowCell(row[1..], col + 1, beat, p, e);
          assert row[p + 1] == row[1..][p];
          assert RowCell(row, col, beat, p + 1, e);
        } else {
          assert RowCell(row, col, beat, 0, e);
        }
      }
    }
  }

  /** A row that fails, fails at its first marked cell that does not decode. */
  lemma {:induction false} RowEventsFails(row: string, col: nat, beat: real)
    requires RowEvents(row, col, beat).Err?
    ensures exists p :: 0 <= p < |row| && !CellOk(row, col, p)
                        && RowEvents(row, col, beat).error == CellError(col + p, row[p])
                        && forall q :: 0 <= q < p ==> CellOk(row, col, q)
    decreases |row|
  {
    if !CellOk(row, col, 0) {
      RowEventsHead(row, col, beat);
    } else {
      var tail, next := row[1..], col + 1;
      RowEventsSkip(row, col, beat);
      RowEventsFails(tail, next, beat);
      var p :| 0 <= p < |tail| && !CellOk(tail, next, p)
               && RowEvents(tail, next, beat).error == CellError(next + p, tail[p])
               && forall q :: 0 <= q < p ==> CellOk(tail, next, q);
      CellsShift(row, col, tail, next, p);
      assert RowEvents(row, col, beat).error == CellError(col + (p + 1), row[p + 1]);
    }
  }

  /** The cells of a row past its first are those of the row's tail, one column on. */
  lemma CellsShift(row: string, col: nat, tail: string, next: nat, p: nat)
    requires row != [] && tail == row[1..] && next == col + 1 && CellOk(row, col, 0) && p < |tail|
    requires !CellOk(tail, next, p) && forall q :: 0 <= q < p ==> CellOk(tail, next, q)
    ensures row[p + 1] == tail[p] && next + p == col + (p + 1)
    ensures !CellOk(row, col, p + 1) && forall q :: 0 <= q < p + 1 ==> CellOk(row, col, q)
  {
    forall q | 0 < q < p + 1 ensures CellOk(row, col, q) {
      assert CellOk(tail, next, q - 1);
      assert row[q] == tail[q - 1];
    }
  }

  /** A row whose first cell does not decode fails with that cell's error. */
  lemma RowEventsHead(row: string, col: nat, beat: real)
    requires !CellOk(row, col, 0)
    ensures RowEvents(row, col, beat) == Err(CellError(col, row[0]))
  {
    assert ParseStep(col, row[0], beat) == Err(CellError(col, row[0]));
  }

  /** A row whose first cell is fine fails as the rest of the row does. */
  lemma RowEventsSkip(row: string, col: nat, beat: real)
    requires row != [] && CellOk(row, col, 0) && RowEvents(row, col, beat).Err?
    ensures RowEvents(row[1..], col + 1, beat).Err?
    ensures RowEvents(row, col, beat).error == RowEvents(row[1..], col + 1, beat).error
  {
  }

  /** The beat of row `i` of an `n`-row measure that starts at `start`. */
  function RowBeat(start: real, i: nat, n: nat): real
    requires n > 0
  {
    start + 4.0 * (i as real) / (n as real)
  }

  /** Rows lie at increasing beats inside the measure's four beats. */
  lemma RowBeatBounds(start: real, i: nat, n: nat)
    requires i < n
    ensures start <= RowBeat(start, i, n) < start + 4.0
    ensures i + 1 < n ==> RowBeat(start, i, n) < RowBeat(start, i + 1, n)
  {
    var q := 4.0 / (n as real);
    assert 4.0 * (i as real) / (n as real) == (i as real) * q;
    assert 4.0 * ((i + 1) as real) / (n as real) == (i as real) * q + q;
    assert (n as real) * q == 4.0;
    assert (i as real) * q < (n as real) * q;
  }

  /** Events in the order the decoder emits them: by beat, then by column. */
  predicate Before(a: NoteEvent, b: NoteEvent)
  {
    a.beat < b.beat || (a.beat == b.beat && PanelIndex(a.panel) < PanelIndex(b.panel))
  }

  /** Each event comes `Before` the next. */
  ghost predicate Sorted(s: seq<NoteEvent>)
  {
    forall a, b :: 0 <= a < b < |s| && b == a + 1 ==> Before(s[a], s[b])
  }

  /** Two sorted runs joined where the first ends before the second begins stay sorted. */
  lemma SortedConcat(s: seq<NoteEvent>, t: seq<NoteEvent>)
    requires Sorted(s) && Sorted(t)
    requires s != [] && t != [] ==> Before(s[|s| - 1], t[0])
    ensures Sorted(s + t)
  {
    var u := s + t;
    forall a, b | 0 <= a && a + 1 == b < |u|
      ensures Before(u[a], u[b])
    {
      if b < |s| {
        assert u[a] == s[a] && u[b] == s[b];
      } else if b == |s| {
        assert u[a] == s[|s| - 1] && u[b] == t[0];
      } else {
        assert u[a] == t[a - |s|] && u[b] == t[b - |s|];
      }
    }
  }

  /** `Before` is a strict order: sorted means every earlier event comes before every later one. */
  lemma {:induction false} SortedPairwise(s: seq<NoteEvent>)
    requires Sorted(s)
    ensures forall a, b :: 0 <= a < b < |s| ==> Before(s[a], s[b])
    decreases |s|
  {
    if |s| > 1 {
      var init := s[..|s| - 1];
      assert Sorted(init) by {
        forall a, b | 0 <= a && a + 1 == b < |init|
          ensures Before(init[a], init[b])
        {
          assert init[a] == s[a] && init[b] == s[b];
        }
      }
      SortedPairwise(init);
      forall a, b | 0 <= a < b < |s|
        ensures Before(s[a], s[b])
      {
        if b < |s| - 1 {
          assert s[a] == init[a] && s[b] == init[b];
        } else if a < b - 1 {
          assert Before(init[a], init[b - 1]);
          assert Before(s[b - 1], s[b]);
        } else {
          assert Before(s[b - 1], s[b]);
        }
      }
    }
  }

  /** Marked cell `p` of row `k` of an `|rows|`-row measure starting at beat `start` decodes
      to event `e`, at beat `start + 4k/|rows|`. */
  ghost predicate CellEvent(rows: seq<string>, start: real, k: int, p: int, e: NoteEvent)
  {
    0 <= k < |rows| && RowCell(rows[k], 0, RowBeat(start, k, |rows|), p, e)
  }

  /** Every cell of rows `i..` is blank or decodes. */
  predicate CellsDecode(rows: seq<string>, i: nat)
  {
    forall k, q :: i <= k < |rows| && 0 <= q < |rows[k]| ==> CellOk(rows[k], 0, q)
  }

  /** Cell `p` of row `k` is the first cell, reading rows `i..` in order and each row left to
      right, that does not decode. */
  ghost predicate FirstBadCell(rows: seq<string>, i: nat, k: int, p: int)
  {
    i <= k < |rows| && 0 <= p < |rows[k]| && !CellOk(rows[k], 0, p)
    && (forall k', q :: i <= k' < k && 0 <= q < |rows[k']| ==> CellOk(rows[k'], 0, q))
    && (forall q :: 0 <= q < p ==> CellOk(rows[k], 0, q))
  }

  /** The events of rows `i..` of a measure. */
  function MeasureRows(rows: seq<string>, i: nat, start: real): (r: Result<seq<NoteEvent>, ChartError>)
    requires 0 < |rows| && i <= |rows|
    ensures r.Ok? <==> CellsDecode(rows, i)
    ensures r.Ok? ==> forall e :: e in r.value ==> RowBeat(start, i, |rows|) <= e.beat < start + 4.0
    ensures r.Ok? ==> Sorted(r.value)
    decreases |rows| - i
  {
    if i == |rows| then Ok([])
    else
      var beat := RowBeat(start, i, |rows|);
      RowBeatBounds(start, i, |rows|);
      var row := RowEvents(rows[i], 0, beat);
      if row.Err? then
        assert exists q :: 0 <= q < |rows[i]| && !CellOk(rows[i], 0, q);
        Err(row.error)
      else
        var here := row.value;
        var rest :- MeasureRows(rows, i + 1, start);
        var r := here + rest;
        assert here != [] ==> here[|here| - 1] in here;
        assert rest != [] ==> rest[0] in rest;
        SortedConcat(here, rest);
        Ok(r)
  }

  /** The events of decoded rows `i..` are exactly the events their marked cells decode to. */
  lemma {:induction false} MeasureRowsEvents(rows: seq<string>, i: nat, start: real)
    requires 0 < |rows| && i <= |rows| && MeasureRows(rows, i, start).Ok?
    ensures forall e :: e in MeasureRows(rows, i, start).value <==>
                        exists k, p :: i <= k && CellEvent(rows, start, k, p, e)
    decreases |rows| - i
  {
    if i < |rows| {
      var beat := RowBeat(start, i, |rows|);
      var here := RowEvents(rows[i], 0, beat).value;
      var rest := MeasureRows(rows, i + 1, start).value;
      assert MeasureRows(rows, i, start).value == here + rest;
      MeasureRowsEvents(rows, i + 1, start);
      RowEventsFrom(rows[i], 0, beat);
      forall e | e in here + rest
        ensures exists k, p :: i <= k && CellEvent(rows, start, k, p, e)
      {
        if e in here {
          var p :| RowCell(rows[i], 0, beat, p, e);
          assert CellEvent(rows, start, i, p, e);
        }
      }
      forall e | exists k, p :: i <= k && CellEvent(rows, start, k, p, e)
        ensures e in here + rest
      {
        var k, p :| i <= k && CellEvent(rows, start, k, p, e);
        if k == i {
          assert 0 + p == p;
          assert e in here;
        } else {
          assert e in rest;
        }
      }
    }
  }

  /** Rows that fail to decode fail with the error of their first bad cell. */
  lemma {:induction false} MeasureRowsFails(rows: seq<string>, i: nat, start: real)
    requires 0 < |rows| && i <= |rows| && MeasureRows(rows, i, start).Err?
    ensures exists k, p :: FirstBadCell(rows, i, k, p)
                           && MeasureRows(rows, i, start).error == CellError(p, rows[k][p])
    decreases |rows| - i
  {
    var beat := RowBeat(start, i, |rows|);
    var row := RowEvents(rows[i], 0, beat);
    if row.Err? {
      RowEventsFails(rows[i], 0, beat);
      var p :| 0 <= p < |rows[i]| && !CellOk(rows[i], 0, p) && row.error == CellError(0 + p, rows[i][p])
               && forall q :: 0 <= q < p ==> CellOk(rows[i], 0, q);
      assert 0 + p == p;
      assert FirstBadCell(rows, i, i, p);
    } else {
      assert MeasureRows(rows, i, start).error == MeasureRows(rows, i + 1, start).error;
      MeasureRowsFails(rows, i + 1, start);
      var k, p :| FirstBadCell(rows, i + 1, k, p)
                  && MeasureRows(rows, i + 1, start).error == CellError(p, rows[k][p]);
      assert FirstBadCell(rows, i, k, p);
    }
  }

  /** `parse_measure`: the rows are the newline-separated lines of the measure text. */
  function ParseMeasure(measure: string, start: real): (r: Result<seq<NoteEvent>, ChartError>)
    ensures r.Ok? ==> forall e :: e in r.value ==> start <= e.beat < start + 4.0
    ensures r.Ok? ==> Sorted(r.value)
  {
    var rows := SplitOn(measure, "\n");
    var r := MeasureRows(rows, 0, start);
    assert RowBeat(start, 0, |rows|) == start;
    r
  }

  /** A measure decodes exactly when each of its cells is blank or decodes; a decoded measure
      holds exactly the events its marked cells decode to, and one that fails raises the error
      of its first bad cell. */
  lemma ParseMeasureDecodes(measure: string, start: real)
    ensures ParseMeasure(measure, start).Ok? <==> CellsDecode(SplitOn(measure, "\n"), 0)
    ensures ParseMeasure(measure, start).Ok? ==>
              forall e :: e in ParseMeasure(measure, start).value <==>
                          exists k, p :: 0 <= k && CellEvent(SplitOn(measure, "\n"), start, k, p, e)
    ensures ParseMeasure(measure, start).Err? ==>
              exists k, p :: FirstBadCell(SplitOn(measure, "\n"), 0, k, p)
                             && ParseMeasure(measure, start).error == CellError(p, SplitOn(measure, "\n")[k][p])
  {
    var rows := SplitOn(measure, "\n");
    assert ParseMeasure(measure, start) == MeasureRows(rows, 0, start);
    if ParseMeasure(measure, start).Ok? {
      MeasureRowsEvents(rows, 0, start);
    } else {
      MeasureRowsFails(rows, 0, start);
    }
  }

  /** The cleaning pass of `parse_steps`: a separator line becomes `,`, a `//` line is dropped,
      any other line is cut to the panel count and must conform, else the pass stops (`None`). */
  function CleanLines(lines: seq<string>, panels: nat): (r: Option<seq<string>>)
    ensures r.Some? ==> forall i :: 0 <= i < |r.value| ==>
                          r.value[i] == "," || (Conforming(r.value[i]) && |r.value[i]| <= panels)
    decreases |lines|
  {
    if lines == [] then Some([])
    else
      var t := Strip(lines[0]);
      if "," <= t then
        var rest :- CleanLines(lines[1..], panels);
        Some([","] + rest)
      else if "//" <= t then CleanLines(lines[1..], panels)
      else
        var cut := Truncate(t, panels);
        if !Conforming(cut) then None
        else
          var rest :- CleanLines(lines[1..], panels);
          Some([cut] + rest)
  }

  /** The cleaning pass stops exactly when some line fails the check. */
  lemma {:induction false} CleanLinesSome(lines: seq<string>, panels: nat)
    ensures CleanLines(lines, panels).Some? <==> forall i :: 0 <= i < |lines| ==> LineOk(lines[i], panels)
    decreases |lines|
  {
    if lines != [] {
      CleanLinesSome(lines[1..], panels);
      var restOk := forall i :: 0 <= i < |lines[1..]| ==> LineOk(lines[1..][i], panels);
      assert restOk <==> forall i :: 1 <= i < |lines| ==> LineOk(lines[i], panels) by {
        assert forall i :: 1 <= i < |lines| ==> lines[i] == lines[1..][i - 1];
      }
      var t := Strip(lines[0]);
      var r := CleanLines(lines, panels);
      if "," <= t {
        assert r.Some? <==> CleanLines(lines[1..], panels).Some?;
      } else if "//" <= t {
        assert r == CleanLines(lines[1..], panels);
      } else if Conforming(Truncate(t, panels)) {
        assert r.Some? <==> CleanLines(lines[1..], panels).Some?;
      } else {
        assert r.None?;
        assert !LineOk(lines[0], panels);
      }
    }
  }

  /** The line check of `standard_notes` and the cleaning pass of `parse_steps` agree. */
  lemma CleanLinesIffStandard(notes: string, panels: nat)
    ensures CleanLines(Lines(notes), panels).Some? <==> StandardNotes(notes, panels)
  {
    CleanLinesSome(Lines(notes), panels);
  }

  /** Measure `j` decoded from its stripped text, its first row at beat `4j`. */
  function MeasureAt(ms: seq<string>, j: nat): Result<seq<NoteEvent>, ChartError>
    requires j < |ms|
  {
    ParseMeasure(Strip(ms[j]), 4.0 * (j as real))
  }

  /** The decoded measures, one result per measure. */
  function MeasureResults(ms: seq<string>): (r: seq<Result<seq<NoteEvent>, ChartError>>)
  {
    seq(|ms|, j requires 0 <= j < |ms| => MeasureAt(ms, j))
  }

  /** The events of the measures, one after another. */
  function Flatten(blocks: seq<seq<NoteEvent>>): seq<NoteEvent>
  {
    if blocks == [] then [] else blocks[0] + Flatten(blocks[1..])
  }

  /** Every event of a block is among the flattened events. */
  lemma {:induction false} FlattenHas(blocks: seq<seq<NoteEvent>>, j: nat, e: NoteEvent)
    requires j < |blocks| && e in blocks[j]
    ensures e in Flatten(blocks)
    decreases j
  {
    if j > 0 {
      FlattenHas(blocks[1..], j - 1, e);
    }
  }

  /** Every flattened event comes from one of the blocks. */
  lemma {:induction false} FlattenFrom(blocks: seq<seq<NoteEvent>>, e: NoteEvent)
    requires e in Flatten(blocks)
    ensures exists j :: 0 <= j < |blocks| && e in blocks[j]
    decreases |blocks|
  {
    if e !in blocks[0] {
      FlattenFrom(blocks[1..], e);
      var j :| 0 <= j < |blocks[1..]| && e in blocks[1..][j];
      assert blocks[1..][j] == blocks[j + 1];
    }
  }

  /** Blocks that are sorted and each confined to its own four beats, block `j` starting at
      `4(k + j)`, flatten to a sorted sequence that starts no earlier than beat `4k`. */
  lemma {:induction false} FlattenSorted(blocks: seq<seq<NoteEvent>>, k: nat)
    requires forall j :: 0 <= j < |blocks| ==> Sorted(blocks[j])
    requires forall j, e :: 0 <= j < |blocks| && e in blocks[j] ==>
               4.0 * ((k + j) as real) <= e.beat < 4.0 * ((k + j) as real) + 4.0
    ensures Sorted(Flatten(blocks))
    ensures forall e :: e in Flatten(blocks) ==> 4.0 * (k as real) <= e.beat
    decreases |blocks|
  {
    if blocks != [] {
      var here := blocks[0];
      var tail := blocks[1..];
      assert forall j :: 0 <= j < |tail| ==> tail[j] == blocks[j + 1];
      FlattenSorted(tail, k + 1);
      var rest := Flatten(tail);
      assert here != [] ==> here[|here| - 1] in blocks[0];
      SortedConcat(here, rest);
      assert forall e :: e in here + rest ==> e in here || e in rest;
    }
  }

  /** The measures of a chart's cleaned lines: the lines joined by newlines, cut at `,`. */
  function Measures(clean: seq<string>): seq<string>
  {
    SplitOn(Join(clean, "\n"), ",")
  }

  /** `parse_steps`: no events for an unknown format or a chart that is not standard; otherwise
      the cleaned lines, joined by newlines and cut at `,`, are the measures. */
  function ParseSteps(chart: Chart): (r: Result<seq<NoteEvent>, ChartError>)
    ensures chart.panels == 0 || !chart.standard ==> r == Ok([])
    ensures !StandardNotes(chart.notes, chart.panels) ==> r == Ok([])
    ensures r.Ok? ==> forall e :: e in r.value ==> 0.0 <= e.beat
    ensures r.Ok? ==> Sorted(r.value)
  {
    CleanLinesIffStandard(chart.notes, chart.panels);
    if chart.panels == 0 then Ok([])
    else
      match CleanLines(Lines(chart.notes), chart.panels)
      case None => Ok([])
      case Some(clean) =>
        if !chart.standard then Ok([])
        else
          var ms := Measures(clean);
          var blocks :- Collect(MeasureResults(ms));
          BlocksSorted(ms, blocks);
          Ok(Flatten(blocks))
  }

  /** Marked cell `p` of row `k` of measure `j` decodes to event `e`, the measure's rows spread
      over beats `4j` to `4j + 4`. */
  ghost predicate MeasureCell(ms: seq<string>, j: int, k: int, p: int, e: NoteEvent)
  {
    0 <= j < |ms| && 0 <= k && CellEvent(SplitOn(Strip(ms[j]), "\n"), 4.0 * (j as real), k, p, e)
  }

  /** For a standard chart in a known format whose lines pass the cleaning pass: the chart
      decodes exactly when every cell of every measure is blank or decodes; its events are then
      exactly the events its marked cells decode to; and a chart that fails raises the error of
      its first measure that fails. */
  lemma ParseStepsEvents(chart: Chart)
    requires chart.panels != 0 && chart.standard && CleanLines(Lines(chart.notes), chart.panels).Some?
    ensures var ms := Measures(CleanLines(Lines(chart.notes), chart.panels).value);
      ParseSteps(chart).Ok? <==> forall j :: 0 <= j < |ms| ==> CellsDecode(SplitOn(Strip(ms[j]), "\n"), 0)
    ensures var ms := Measures(CleanLines(Lines(chart.notes), chart.panels).value);
      ParseSteps(chart).Ok? ==>
        forall e :: e in ParseSteps(chart).value <==> exists j, k, p :: MeasureCell(ms, j, k, p, e)
    ensures var ms := Measures(CleanLines(Lines(chart.notes), chart.panels).value);
      ParseSteps(chart).Err? ==>
        exists j :: 0 <= j < |ms| && MeasureAt(ms, j) == Err(ParseSteps(chart).error)
                    && forall i :: 0 <= i < j ==> MeasureAt(ms, i).Ok?
  {
    var ms := Measures(CleanLines(Lines(chart.notes), chart.panels).value);
    var rs := MeasureResults(ms);
    assert ParseSteps(chart) == if Collect(rs).Ok? then Ok(Flatten(Collect(rs).value)) else Err(Collect(rs).error);
    MeasuresDecode(ms);
  }

  /** The measures decode exactly when every cell of each does; their events are then exactly
      those of their marked cells; otherwise the first measure that fails gives the error. */
  lemma MeasuresDecode(ms: seq<string>)
    ensures var r := Collect(MeasureResults(ms));
      r.Ok? <==> forall j :: 0 <= j < |ms| ==> CellsDecode(SplitOn(Strip(ms[j]), "\n"), 0)
    ensures var r := Collect(MeasureResults(ms));
      r.Ok? ==> forall e :: e in Flatten(r.value) <==> exists j, k, p :: MeasureCell(ms, j, k, p, e)
    ensures var r := Collect(MeasureResults(ms));
      r.Err? ==> exists j :: 0 <= j < |ms| && MeasureAt(ms, j) == Err(r.error)
                             && forall i :: 0 <= i < j ==> MeasureAt(ms, i).Ok?
  {
    var rs := MeasureResults(ms);
    forall j | 0 <= j < |ms|
      ensures rs[j] == MeasureAt(ms, j)
      ensures MeasureAt(ms, j).Ok? <==> CellsDecode(SplitOn(Strip(ms[j]), "\n"), 0)
    {
      ParseMeasureDecodes(Strip(ms[j]), 4.0 * (j as real));
    }
    if Collect(rs).Ok? {
      DecodedMeasuresEvents(ms, Collect(rs).value);
    }
  }

  /** The events of one decoded measure are exactly what its marked cells decode to. */
  lemma MeasureEvents(ms: seq<string>, j: nat, block: seq<NoteEvent>)
    requires j < |ms| && MeasureAt(ms, j) == Ok(block)
    ensures forall e :: e in block <==> exists k, p :: MeasureCell(ms, j, k, p, e)
  {
    var m, start := Strip(ms[j]), 4.0 * (j as real);
    var rows := SplitOn(m, "\n");
    assert ParseMeasure(m, start) == Ok(block);
    ParseMeasureDecodes(m, start);
    forall e | e in block ensures exists k, p :: MeasureCell(ms, j, k, p, e) {
      var k, p :| 0 <= k && CellEvent(rows, start, k, p, e);
      assert MeasureCell(ms, j, k, p, e);
    }
    forall e | exists k, p :: MeasureCell(ms, j, k, p, e) ensures e in block {
      var k, p :| MeasureCell(ms, j, k, p, e);
      assert 0 <= k && CellEvent(rows, start, k, p, e);
    }
  }

  /** The flattened events of the decoded measures are exactly what their marked cells decode to. */
  lemma DecodedMeasuresEvents(ms: seq<string>, blocks: seq<seq<NoteEvent>>)
    requires Collect(MeasureResults(ms)) == Ok(blocks)
    ensures forall e :: e in Flatten(blocks) <==> exists j, k, p :: MeasureCell(ms, j, k, p, e)
  {
    forall e
      ensures e in Flatten(blocks) <==> exists j, k, p :: MeasureCell(ms, j, k, p, e)
    {
      if e in Flatten(blocks) {
        FlattenFrom(blocks, e);
        var j :| 0 <= j < |blocks| && e in blocks[j];
        assert MeasureResults(ms)[j] == MeasureAt(ms, j);
        MeasureEvents(ms, j, blocks[j]);
      }
      if exists j, k, p :: MeasureCell(ms, j, k, p, e) {
        var j, k, p :| MeasureCell(ms, j, k, p, e);
        assert MeasureResults(ms)[j] == MeasureAt(ms, j);
        MeasureEvents(ms, j, blocks[j]);
        FlattenHas(blocks, j, e);
      }
    }
  }

  /** The decoded measures meet the conditions under which flattening keeps the order. */
  lemma BlocksSorted(ms: seq<string>, blocks: seq<seq<NoteEvent>>)
    requires Collect(MeasureResults(ms)) == Ok(blocks)
    ensures Sorted(Flatten(blocks))
    ensures forall e :: e in Flatten(blocks) ==> 0.0 <= e.beat
  {
    forall j | 0 <= j < |blocks|
      ensures Sorted(blocks[j])
      ensures forall e :: e in blocks[j] ==> 4.0 * ((0 + j) as real) <= e.beat < 4.0 * ((0 + j) as real) + 4.0
    {
      assert MeasureResults(ms)[j] == MeasureAt(ms, j) == Ok(blocks[j]);
      assert 0 + j == j;
    }
    FlattenSorted(blocks, 0);
  }

  /** A timing field: a number, or the boolean the last of three or more fields becomes. */
  datatype Field = Num(x: real) | Flag(b: bool)

  /** A parsed entry: at least one field, and a flag exactly in the last place of an entry of
      three or more. */
  predicate EntryShape(e: seq<Field>)
  {
    |e| >= 1 && forall j :: 0 <= j < |e| ==> (e[j].Flag? <==> |e| > 2 && j == |e| - 1)
  }

  /** The fields of one `b=v=…` entry; the last of more than two becomes `bool(value)`. */
  function Fields(values: seq<string>, toReal: string -> Option<real>): (r: Result<seq<Field>, ChartError>)
    ensures r.Ok? <==> forall i :: 0 <= i < |values| ==> toReal(values[i]).Some?
    ensures r.Ok? ==> |r.value| == |values|
    ensures r.Ok? ==> forall i :: 0 <= i < |values| ==>
      if |values| > 2 && i == |values| - 1 then r.value[i] == Flag(toReal(values[i]).value != 0.0)
      else r.value[i] == Num(toReal(values[i]).value)
    ensures r.Err? ==> exists i :: 0 <= i < |values| && toReal(values[i]).None? && r.error == BadNumber(values[i])
                                   && forall j :: 0 <= j < i ==> toReal(values[j]).Some?
  {
    var nums :- Numbers(values, toReal);
    if |nums| > 2 then Ok(seq(|nums| - 1, i requires 0 <= i < |nums| - 1 => Num(nums[i])) + [Flag(nums[|nums| - 1] != 0.0)])
    else Ok(seq(|nums|, i requires 0 <= i < |nums| => Num(nums[i])))
  }

  /** `[float(value) for value in values]`, failing at the first text that is not a number. */
  function Numbers(values: seq<string>, toReal: string -> Option<real>): (r: Result<seq<real>, ChartError>)
    ensures r.Ok? <==> forall i :: 0 <= i < |values| ==> toReal(values[i]).Some?
    ensures r.Ok? ==> |r.value| == |values| && forall i :: 0 <= i < |values| ==> r.value[i] == toReal(values[i]).value
    ensures r.Err? ==> exists i :: 0 <= i < |values| && toReal(values[i]).None? && r.error == BadNumber(values[i])
                                   && forall j :: 0 <= j < i ==> toReal(values[j]).Some?
    decreases |values|
  {
    if values == [] then Ok([])
    else
      match toReal(values[0])
      case None => Err(BadNumber(values[0]))
      case Some(x) =>
        var rest := Numbers(values[1..], toReal);
        if rest.Err? then
          assert exists i :: 1 <= i < |values| && toReal(values[i]).None? && rest.error == BadNumber(values[i])
                             && forall j :: 0 <= j < i ==> toReal(values[j]).Some? by {
            var tail := values[1..];
            var i :| 0 <= i < |tail| && toReal(tail[i]).None? && rest.error == BadNumber(tail[i])
                     && forall j :: 0 <= j < i ==> toReal(tail[j]).Some?;
            FirstBadShift(values, tail, toReal, i);
          }
          Err(rest.error)
        else
          Ok([x] + rest.value)
  }

  /** The first text of `values[1..]` that is not a number is, one place on, the first of
      `values` when `values[0]` is a number. */
  lemma FirstBadShift(values: seq<string>, tail: seq<string>, toReal: string -> Option<real>, i: nat)
    requires values != [] && tail == values[1..] && toReal(values[0]).Some? && i < |tail|
    requires toReal(tail[i]).None? && forall j :: 0 <= j < i ==> toReal(tail[j]).Some?
    ensures values[i + 1] == tail[i] && forall j :: 0 <= j < i + 1 ==> toReal(values[j]).Some?
  {
    forall j | 0 < j < i + 1 ensures toReal(values[j]).Some? {
      assert values[j] == tail[j - 1];
    }
  }

  /** The fields of one non-empty comma field: its stripped text cut at `=`. */
  function EntryFields(change: string, toReal: string -> Option<real>): (r: Result<seq<Field>, ChartError>)
    ensures r.Ok? ==> EntryShape(r.value)
  {
    var vs := SplitOn(Strip(change), "=");
    var r := Fields(vs, toReal);
    assert r.Ok? ==> forall j :: 0 <= j < |vs| ==> (r.value[j].Flag? <==> |vs| > 2 && j == |vs| - 1);
    r
  }

  /** The non-empty comma fields of an attribute's stripped text. */
  function ChangeTexts(data: string): seq<string>
  {
    NonEmpty(SplitOn(Strip(data), ","))
  }

  /** `parse_timing_changes`: one entry per non-empty comma field of the stripped text, each the
      `=`-separated numbers of the stripped field. */
  function ParseTimingChanges(data: string, toReal: string -> Option<real>): (r: Result<seq<seq<Field>>, ChartError>)
    ensures data == "" ==> r == Ok([])
    ensures r.Ok? ==> forall i :: 0 <= i < |r.value| ==> EntryShape(r.value[i])
  {
    if data == "" then Ok([])
    else
      var es := Entries(ChangeTexts(data), toReal);
      var r := Collect(es);
      assert r.Ok? ==> forall i :: 0 <= i < |r.value| ==> es[i] == Ok(r.value[i]);
      r
  }

  /** A non-empty attribute parses exactly when each of its comma fields does; entry `i` is then
      the fields of comma field `i`, and a failure is that of the first field that fails. */
  lemma ParseTimingChangesEntries(data: string, toReal: string -> Option<real>)
    requires data != ""
    ensures var r, cs := ParseTimingChanges(data, toReal), ChangeTexts(data);
      r.Ok? <==> forall i :: 0 <= i < |cs| ==> EntryFields(cs[i], toReal).Ok?
    ensures var r, cs := ParseTimingChanges(data, toReal), ChangeTexts(data);
      r.Ok? ==> |r.value| == |cs| && forall i :: 0 <= i < |cs| ==> EntryFields(cs[i], toReal) == Ok(r.value[i])
    ensures var r, cs := ParseTimingChanges(data, toReal), ChangeTexts(data);
      r.Err? ==> exists i :: 0 <= i < |cs| && EntryFields(cs[i], toReal) == Err(r.error)
                             && forall j :: 0 <= j < i ==> EntryFields(cs[j], toReal).Ok?
  {
    var es := Entries(ChangeTexts(data), toReal);
    assert ParseTimingChanges(data, toReal) == Collect(es);
  }

  /** The entry of each non-empty comma field. */
  function Entries(changes: seq<string>, toReal: string -> Option<real>): (rs: seq<Result<seq<Field>, ChartError>>)
    ensures |rs| == |changes|
    ensures forall i :: 0 <= i < |changes| ==> rs[i] == EntryFields(changes[i], toReal)
  {
    seq(|changes|, i requires 0 <= i < |changes| => EntryFields(changes[i], toReal))
  }

  /** A `beat=value` timing change; a one-field entry leaves the value missing (`NaN`). */
  datatype Change = Change(beat: real, value: Option<real>)

  /** A `beat=speed=duration=mode` scroll speed change, each cell past the entry's end missing;
      the duration cell holds the flag of a three-field entry. */
  datatype SpeedChange = SpeedChange(beat: real, speed: Option<real>, duration: Option<Field>, mode: Option<bool>)

  /** The typed timing lists of a chart, one per timing attribute. */
  datatype TimingTable = TimingTable(bpms: seq<Change>, stops: seq<Change>, delays: seq<Change>,
                                     warps: seq<Change>, tickcounts: seq<Change>, speeds: seq<SpeedChange>,
                                     scrolls: seq<Change>, fakes: seq<Change>)

  /** Field `j` of a parsed entry, where it is a number. */
  function NumAt(e: seq<Field>, j: nat): real
    requires EntryShape(e) && j < |e| && !(|e| > 2 && j == |e| - 1)
  {
    e[j].x
  }

  /** The flag that ends a parsed entry of three or more fields. */
  function LastFlag(e: seq<Field>): bool
    requires EntryShape(e) && |e| > 2
  {
    e[|e| - 1].b
  }

  /** The widest entry: the column count a frame built from the entries has. */
  function Width(entries: seq<seq<Field>>): (w: nat)
    ensures forall i :: 0 <= i < |entries| ==> |entries[i]| <= w
    ensures entries != [] ==> exists i :: 0 <= i < |entries| && |entries[i]| == w
    ensures entries == [] ==> w == 0
    decreases |entries|
  {
    if entries == [] then 0
    else
      var rest := Width(entries[1..]);
      assert forall i :: 1 <= i < |entries| ==> entries[i] == entries[1..][i - 1];
      if |entries[0]| >= rest then |entries[0]| else rest
  }

  /** The entries of a two-column timing attribute. The frame takes its width from the widest
      entry and pads a narrower one with `NaN`, so only a widest entry other than two fails. */
  function PairChanges(kind: string, entries: seq<seq<Field>>): (r: Result<seq<Change>, ChartError>)
    requires forall i :: 0 <= i < |entries| ==> EntryShape(entries[i])
    ensures r.Ok? <==> entries == [] || ((exists i :: 0 <= i < |entries| && |entries[i]| == 2)
                                         && forall j :: 0 <= j < |entries| ==> |entries[j]| <= 2)
    ensures r.Err? ==> r.error == ArityMismatch(kind)
    ensures r.Ok? ==> |r.value| == |entries| && forall i :: 0 <= i < |entries| ==>
                        r.value[i].beat == NumAt(entries[i], 0)
                        && (|entries[i]| == 1 ==> r.value[i].value.None?)
                        && (|entries[i]| == 2 ==> r.value[i].value == Some(NumAt(entries[i], 1)))
  {
    if entries == [] then Ok([])
    else if Width(entries) != 2 then Err(ArityMismatch(kind))
    else Ok(seq(|entries|, i requires 0 <= i < |entries| =>
              Change(NumAt(entries[i], 0), if |entries[i]| == 2 then Some(NumAt(entries[i], 1)) else None)))
  }

  /** The entries of the four-column speed attribute, padded like `PairChanges`: the speed is
      missing for a one-field entry, the duration for one of at most two, the mode for one of
      at most three. */
  function SpeedChanges(entries: seq<seq<Field>>): (r: Result<seq<SpeedChange>, ChartError>)
    requires forall i :: 0 <= i < |entries| ==> EntryShape(entries[i])
    ensures r.Ok? <==> entries == [] || ((exists i :: 0 <= i < |entries| && |entries[i]| == 4)
                                         && forall j :: 0 <= j < |entries| ==> |entries[j]| <= 4)
    ensures r.Err? ==> r.error == ArityMismatch("speeds")
    ensures r.Ok? ==> |r.value| == |entries| && forall i :: 0 <= i < |entries| ==>
                        var e, s := entries[i], r.value[i];
                        s.beat == NumAt(e, 0)
                        && (s.speed.Some? <==> |e| >= 2) && (|e| >= 2 ==> s.speed.value == NumAt(e, 1))
                        && (s.duration.Some? <==> |e| >= 3) && (|e| >= 3 ==> s.duration.value == e[2])
                        && (|e| == 3 ==> s.duration.value == Flag(LastFlag(e)))
                        && (s.mode.Some? <==> |e| == 4) && (|e| == 4 ==> s.mode.value == LastFlag(e))
  {
    if entries == [] then Ok([])
    else if Width(entries) != 4 then Err(ArityMismatch("speeds"))
    else Ok(seq(|entries|, i requires 0 <= i < |entries| => SpeedRow(entries[i])))
  }

  /** One speed entry as a row of the four-column frame. */
  function SpeedRow(e: seq<Field>): (s: SpeedChange)
    requires EntryShape(e)
    ensures |e| >= 3 ==> s.duration == Some(e[2])
    ensures |e| == 3 ==> e[2] == Flag(LastFlag(e))
  {
    SpeedChange(NumAt(e, 0), if |e| >= 2 then Some(NumAt(e, 1)) else None,
                if |e| >= 3 then Some(e[2]) else None,
                if |e| == 4 then Some(LastFlag(e)) else None)
  }


  /** Attribute text `text` parses to entries that make the timing list `cs`. */
  predicate PairTable(kind: string, text: string, toReal: string -> Option<real>, cs: seq<Change>)
  {
    var p := ParseTimingChanges(text, toReal);
    p.Ok? && PairChanges(kind, p.value) == Ok(cs)
  }

  /** The speed attribute's text parses to entries that make the speed list `ss`. */
  predicate SpeedTable(text: string, toReal: string -> Option<real>, ss: seq<SpeedChange>)
  {
    var p := ParseTimingChanges(text, toReal);
    p.Ok? && SpeedChanges(p.value) == Ok(ss)
  }

  /** The per-kind part of `timing_changes_to_df`: each attribute parsed in the order
      bpms, stops, delays, warps, tickcounts, speeds, scrolls, fakes. */
  function TimingChanges(t: TimingText, toReal: string -> Option<real>): (r: Result<TimingTable, ChartError>)
    ensures r.Ok? ==> r.value.speeds != []
    ensures t.speeds == "" ==> r.Err?
    ensures r.Ok? ==> PairTable("bpms", t.bpms, toReal, r.value.bpms) && PairTable("stops", t.stops, toReal, r.value.stops)
                      && PairTable("delays", t.delays, toReal, r.value.delays)
                      && PairTable("warps", t.warps, toReal, r.value.warps)
                      && PairTable("tickcounts", t.tickcounts, toReal, r.value.tickcounts)
                      && SpeedTable(t.speeds, toReal, r.value.speeds)
                      && PairTable("scrolls", t.scrolls, toReal, r.value.scrolls)
                      && PairTable("fakes", t.fakes, toReal, r.value.fakes)
  {
    var bpms :- ParseTimingChanges(t.bpms, toReal);
    var bpms :- PairChanges("bpms", bpms);
    var stops :- ParseTimingChanges(t.stops, toReal);
    var stops :- PairChanges("stops", stops);
    var delays :- ParseTimingChanges(t.delays, toReal);
    var delays :- PairChanges("delays", delays);
    var warps :- ParseTimingChanges(t.warps, toReal);
    var warps :- PairChanges("warps", warps);
    var ticks :- ParseTimingChanges(t.tickcounts, toReal);
    var ticks :- PairChanges("tickcounts", ticks);
    var speeds :- ParseTimingChanges(t.speeds, toReal);
    var speeds :- SpeedChanges(speeds);
    var scrolls :- ParseTimingChanges(t.scrolls, toReal);
    var scrolls :- PairChanges("scrolls", scrolls);
    var fakes :- ParseTimingChanges(t.fakes, toReal);
    var fakes :- PairChanges("fakes", fakes);
    if bpms == [] && stops == [] && delays == [] && warps == [] && ticks == [] && speeds == []
       && scrolls == [] && fakes == []
    then Err(NoTimingData)
    else if speeds == [] then Err(MissingColumn("speed_mode"))
    else Ok(TimingTable(bpms, stops, delays, warps, ticks, speeds, scrolls, fakes))
  }
}
