/**
 * The timeline a chart becomes (`Stepchart.chart_to_df`): one row per distinct beat carrying
 * the tap and hold-cap counts of every panel, the beats each hold still has to run, the timing
 * changes at that beat and the second at which the row is reached.
 */
module Timeline {
  import opened Wrappers
  import opened Stepchart

  // ---------------------------------------------------------------------------------------
  // Warps and the relocation of holds that start or end inside one
  // ---------------------------------------------------------------------------------------

  /** A warp: the beats in the open interval (start, start + length) are skipped. */
  datatype Warp = Warp(start: real, length: real)

  function End(w: Warp): real { w.start + w.length }

  predicate Inside(x: real, w: Warp) { w.start < x < End(w) }

  /** A cell holding a positive number (a missing `NaN` cell compares false). */
  predicate Positive(v: Option<real>) { v.Some? && v.value > 0.0 }

  /** The positive warp changes of a timing list. */
  function WarpsOf(cs: seq<Change>): (ws: seq<Warp>)
    ensures forall w :: w in ws ==> w.length > 0.0 && Change(w.start, Some(w.length)) in cs
    ensures forall c :: c in cs && Positive(c.value) ==> Warp(c.beat, c.value.value) in ws
  {
    if cs == [] then []
    else (if Positive(cs[0].value) then [Warp(cs[0].beat, cs[0].value.value)] else []) + WarpsOf(cs[1..])
  }

  /** The latest end among the warps that strictly contain `x`, if any. */
  function LatestEnd(x: real, ws: seq<Warp>): (r: Option<real>)
    ensures r.None? <==> forall w :: w in ws ==> !Inside(x, w)
    ensures r.Some? ==> exists w :: w in ws && Inside(x, w) && r.value == End(w)
    ensures r.Some? ==> forall w :: w in ws && Inside(x, w) ==> End(w) <= r.value
  {
    if ws == [] then None
    else
      var rest := LatestEnd(x, ws[1..]);
      assert forall w :: w in ws ==> w == ws[0] || w in ws[1..];
      if !Inside(x, ws[0]) then rest
      else if rest.Some? && rest.value >= End(ws[0]) then rest
      else Some(End(ws[0]))
  }

  /** The latest start among the warps that strictly contain `x`, if any. */
  function LatestStart(x: real, ws: seq<Warp>): (r: Option<real>)
    ensures r.None? <==> forall w :: w in ws ==> !Inside(x, w)
    ensures r.Some? ==> exists w :: w in ws && Inside(x, w) && r.value == w.start
    ensures r.Some? ==> forall w :: w in ws && Inside(x, w) ==> w.start <= r.value
  {
    if ws == [] then None
    else
      var rest := LatestStart(x, ws[1..]);
      assert forall w :: w in ws ==> w == ws[0] || w in ws[1..];
      if !Inside(x, ws[0]) then rest
      else if rest.Some? && rest.value >= ws[0].start then rest
      else Some(ws[0].start)
  }

  /** A hold cap inside warps moves to the latest of their ends, which leaves every one of them;
      a tail inside warps moves to the latest of their starts. */
  function Relocate(x: real, isCap: bool, ws: seq<Warp>): (r: real)
    ensures isCap ==> forall w :: w in ws && Inside(x, w) ==> !Inside(r, w)
    ensures !isCap && r != x ==> exists w :: w in ws && Inside(x, w) && r == w.start
    ensures !isCap ==> forall w :: w in ws && Inside(x, w) ==> w.start <= r
    ensures (forall w :: w in ws ==> !Inside(x, w)) ==> r == x
    ensures isCap ==> x <= r
    ensures !isCap ==> r <= x
  {
    if isCap then
      var e := LatestEnd(x, ws);
      if e.Some? then e.value else x
    else
      var b := LatestStart(x, ws);
      if b.Some? then b.value else x
  }

  // ---------------------------------------------------------------------------------------
  // The hold table: caps and tails ordered by panel letter, then beat
  // ---------------------------------------------------------------------------------------

  /** A hold cap or tail after relocation. */
  datatype Hold = Hold(panel: char, isCap: bool, beat: real)

  /** The panel letters in the order a sort by panel name puts them. */
  const LetterOrder: string := "CEGNQRSVYZ"

  predicate IsHold(e: NoteEvent) { e.kind == HoldCap || e.kind == HoldTail }

  /** The caps and tails on one panel, in event order. */
  function PanelHolds(events: seq<NoteEvent>, letter: char): (hs: seq<Hold>)
    ensures forall h :: h in hs ==> h.panel == letter
    ensures |hs| <= |events|
  {
    if events == [] then []
    else
      var e := events[0];
      (if e.panel == letter && IsHold(e) then [HoldOf(e)] else [])
      + PanelHolds(events[1..], letter)
  }

  /** The hold-table entry of a cap or tail event. */
  function HoldOf(e: NoteEvent): Hold { Hold(e.panel, e.kind == HoldCap, e.beat) }

  /** The caps and tails of the chart, grouped by panel letter in name order. */
  function HoldsByPanel(events: seq<NoteEvent>, letters: string): (hs: seq<Hold>)
    ensures forall h :: h in hs ==> h.panel in letters
  {
    if letters == [] then [] else PanelHolds(events, letters[0]) + HoldsByPanel(events, letters[1..])
  }

  /** The place of a panel letter in `LetterOrder`; letters outside it come last. */
  function Rank(c: char): nat
  {
    match c
    case 'C' => 0 case 'E' => 1 case 'G' => 2 case 'N' => 3 case 'Q' => 4
    case 'R' => 5 case 'S' => 6 case 'V' => 7 case 'Y' => 8 case 'Z' => 9
    case _ => 10
  }

  /** The order of the sort by panel name, then beat. */
  predicate HoldBefore(a: Hold, b: Hold)
  {
    Rank(a.panel) < Rank(b.panel) || (a.panel == b.panel && a.beat < b.beat)
  }

  /** On sorted events, one panel's holds come at strictly rising beats. */
  lemma {:induction false} PanelHoldsOrdered(events: seq<NoteEvent>, letter: char)
    requires Sorted(events)
    ensures Rising(PanelHolds(events, letter))
    decreases |events|
  {
    if events != [] {
      var e, rest := events[0], events[1..];
      assert Sorted(rest) by {
        forall a, b | 0 <= a && a + 1 == b < |rest| ensures Before(rest[a], rest[b]) {
          assert rest[a] == events[a + 1] && rest[b] == events[b + 1];
        }
      }
      PanelHoldsOrdered(rest, letter);
      if e.panel == letter && IsHold(e) {
        HeadBeforePanel(events, letter);
        RisingCons(HoldOf(e), PanelHolds(rest, letter));
      }
    }
  }

  /** Beats strictly rise along the table. */
  predicate Rising(hs: seq<Hold>)
  {
    forall i, j :: 0 <= i < j < |hs| ==> hs[i].beat < hs[j].beat
  }

  lemma RisingCons(h: Hold, hs: seq<Hold>)
    requires Rising(hs) && forall x :: x in hs ==> h.beat < x.beat
    ensures Rising([h] + hs)
  {
    var t := [h] + hs;
    forall i, j | 0 <= i < j < |t| ensures t[i].beat < t[j].beat {
      assert t[j] == hs[j - 1] && hs[j - 1] in hs;
      if i > 0 { assert t[i] == hs[i - 1]; }
    }
  }

  /** A sorted chart's first event comes before every later hold on its panel. */
  lemma HeadBeforePanel(events: seq<NoteEvent>, letter: char)
    requires Sorted(events) && events != [] && events[0].panel == letter
    ensures forall h :: h in PanelHolds(events[1..], letter) ==> events[0].beat < h.beat
  {
    var rest := events[1..];
    PanelHoldsMembers(rest, letter);
    forall h | h in PanelHolds(rest, letter) ensures events[0].beat < h.beat {
      var e' :| e' in rest && IsHold(e') && e'.panel == letter && h == HoldOf(e');
      var j :| 0 <= j < |rest| && rest[j] == e';
      FirstBefore(events, j + 1);
      assert events[j + 1] == e';
    }
  }

  lemma FirstBefore(events: seq<NoteEvent>, j: nat)
    requires Sorted(events) && 0 < j < |events|
    ensures Before(events[0], events[j])
  {
    SortedPairwise(events);
  }

  /** The letters of `LetterOrder` rank in place. */
  lemma RankInOrder(c: char, k: nat)
    requires k <= |LetterOrder| && c in LetterOrder[k..]
    ensures k <= Rank(c) < |LetterOrder| && LetterOrder[Rank(c)] == c
  {
    var j :| k <= j < |LetterOrder| && LetterOrder[j] == c;
    RankAt(j);
  }

  lemma RankAt(j: nat)
    requires j < |LetterOrder|
    ensures Rank(LetterOrder[j]) == j
  {
    if j < 5 {
      assert j == 0 || j == 1 || j == 2 || j == 3 || j == 4;
    } else {
      assert j == 5 || j == 6 || j == 7 || j == 8 || j == 9;
    }
  }

  /** Every entry comes `HoldBefore` every later one. */
  predicate ByPanel(hs: seq<Hold>)
  {
    forall i, j :: 0 <= i < j < |hs| ==> HoldBefore(hs[i], hs[j])
  }

  /** The holds drawn from a tail of `LetterOrder`: sorted by panel name, then beat. */
  lemma {:induction false} HoldsFromOrdered(events: seq<NoteEvent>, k: nat)
    requires Sorted(events) && k <= |LetterOrder|
    ensures ByPanel(HoldsByPanel(events, LetterOrder[k..]))
    ensures forall h :: h in HoldsByPanel(events, LetterOrder[k..]) ==> k <= Rank(h.panel)
    decreases |LetterOrder| - k
  {
    HoldsRankFrom(events, k);
    if k < |LetterOrder| {
      var letter := LetterOrder[k];
      var ph, rest := PanelHolds(events, letter), HoldsByPanel(events, LetterOrder[k + 1..]);
      assert LetterOrder[k..][0] == letter && LetterOrder[k..][1..] == LetterOrder[k + 1..];
      assert HoldsByPanel(events, LetterOrder[k..]) == ph + rest;
      HoldsFromOrdered(events, k + 1);
      PanelHoldsOrdered(events, letter);
      RankAt(k);
      ByPanelAppend(ph, rest, letter);
    } else {
      assert LetterOrder[k..] == [];
    }
  }

  /** The holds drawn from the letters of `LetterOrder` from place `k` on rank at least `k`. */
  lemma HoldsRankFrom(events: seq<NoteEvent>, k: nat)
    requires k <= |LetterOrder|
    ensures forall h :: h in HoldsByPanel(events, LetterOrder[k..]) ==> k <= Rank(h.panel)
  {
    forall h | h in HoldsByPanel(events, LetterOrder[k..]) ensures k <= Rank(h.panel) {
      RankInOrder(h.panel, k);
    }
  }

  /** One panel's rising block followed by a table of higher-ranked panels stays `ByPanel`. */
  lemma ByPanelAppend(ph: seq<Hold>, rest: seq<Hold>, letter: char)
    requires Rising(ph) && forall h :: h in ph ==> h.panel == letter
    requires ByPanel(rest) && forall h :: h in rest ==> Rank(letter) < Rank(h.panel)
    ensures ByPanel(ph + rest)
  {
    var hs := ph + rest;
    forall i, j | 0 <= i < j < |hs| ensures HoldBefore(hs[i], hs[j]) {
      if j < |ph| {
        assert hs[i] == ph[i] && hs[j] == ph[j] && ph[i] in ph && ph[j] in ph;
      } else if i < |ph| {
        assert hs[i] == ph[i] && ph[i] in ph;
        assert hs[j] == rest[j - |ph|] && rest[j - |ph|] in rest;
      } else {
        assert hs[i] == rest[i - |ph|] && hs[j] == rest[j - |ph|];
      }
    }
  }

  /** The caps and tails on the given panels are exactly the chart's hold events on them. */
  lemma {:induction false} HoldsByPanelMembers(events: seq<NoteEvent>, letters: string)
    ensures forall h :: h in HoldsByPanel(events, letters) <==>
              exists e :: e in events && IsHold(e) && e.panel in letters && h == HoldOf(e)
  {
    if letters != [] {
      HoldsByPanelMembers(events, letters[1..]);
      PanelHoldsMembers(events, letters[0]);
      forall e | e in events && IsHold(e) && e.panel in letters
        ensures HoldOf(e) in HoldsByPanel(events, letters)
      {
        if e.panel != letters[0] { assert e.panel in letters[1..]; }
      }
    }
  }

  /** One panel's holds are exactly its cap and tail events. */
  lemma {:induction false} PanelHoldsMembers(events: seq<NoteEvent>, letter: char)
    ensures forall h :: h in PanelHolds(events, letter) <==>
              exists e :: e in events && IsHold(e) && e.panel == letter && h == HoldOf(e)
    decreases |events|
  {
    if events != [] {
      PanelHoldsMembers(events[1..], letter);
      forall e | e in events[1..] ensures e in events { }
      forall e | e in events ensures e == events[0] || e in events[1..] {
        var j :| 0 <= j < |events| && events[j] == e;
        if j > 0 { assert events[1..][j - 1] == e; }
      }
    }
  }

  /**
   * The hold table as the sort by panel name, then beat, leaves it: exactly the chart's caps and
   * tails (every parsed panel letter is in `LetterOrder`), each panel's block before the next
   * letter's, beats strictly rising within a block. No two holds share panel and beat, so the
   * sort's third key, the step kind, never decides.
   */
  lemma HoldsByPanelOrdered(events: seq<NoteEvent>)
    requires Sorted(events)
    ensures var hs := HoldsByPanel(events, LetterOrder);
            forall h :: h in hs <==> exists e :: e in events && IsHold(e) && e.panel in LetterOrder && h == HoldOf(e)
    ensures ByPanel(HoldsByPanel(events, LetterOrder))
  {
    HoldsByPanelMembers(events, LetterOrder);
    HoldsFromOrdered(events, 0);
    assert LetterOrder[0..] == LetterOrder;
  }

  /** The hold table with warped caps and tails moved out of their warps. */
  function RelocatedHolds(events: seq<NoteEvent>, ws: seq<Warp>): (hs: seq<Hold>)
    ensures |hs| == |HoldsByPanel(events, LetterOrder)|
    ensures forall i :: 0 <= i < |hs| ==>
              var h := HoldsByPanel(events, LetterOrder)[i];
              hs[i] == h.(beat := Relocate(h.beat, h.isCap, ws))
  {
    var hs := HoldsByPanel(events, LetterOrder);
    seq(|hs|, i requires 0 <= i < |hs| => hs[i].(beat := Relocate(hs[i].beat, hs[i].isCap, ws)))
  }

  /** The hold durations: a tail lasts 0 beats; a cap lasts up to the next entry of the table
      (its own tail when the panel's holds are well formed); the last entry has none. */
  function Durations(hs: seq<Hold>): (ds: seq<Option<real>>)
    ensures |ds| == |hs|
    ensures forall i :: 0 <= i < |hs| && !hs[i].isCap ==> ds[i] == Some(0.0)
    ensures forall i :: 0 <= i < |hs| - 1 && hs[i].isCap ==>
              ds[i] == Some(if hs[i].beat <= hs[i + 1].beat then hs[i + 1].beat - hs[i].beat
                            else hs[i].beat - hs[i + 1].beat)
    ensures |hs| > 0 && hs[|hs| - 1].isCap ==> ds[|hs| - 1] == None
    ensures forall i :: 0 <= i < |hs| && ds[i].Some? ==> ds[i].value >= 0.0
  {
    seq(|hs|, i requires 0 <= i < |hs| => DurationAt(hs, i))
  }

  /** A cap directly followed by a later tail on its panel lasts until that tail. */
  lemma CapMeetsOwnTail(hs: seq<Hold>, i: nat)
    requires i + 1 < |hs| && hs[i].isCap && !hs[i + 1].isCap && hs[i + 1].panel == hs[i].panel
    requires hs[i].beat <= hs[i + 1].beat
    ensures Durations(hs)[i] == Some(hs[i + 1].beat - hs[i].beat)
  {
  }

  /** A panel's holds alternate: cap, tail, cap, tail, ..., ending on a tail. */
  predicate Alternates(hs: seq<Hold>)
  {
    |hs| % 2 == 0 && forall k :: 0 <= k < |hs| ==> hs[k].isCap == (k % 2 == 0)
  }

  /** The table splits at any letter into the holds of the letters before and after it. */
  lemma {:induction false} HoldsByPanelSplit(events: seq<NoteEvent>, letters: string, m: nat)
    requires m <= |letters|
    ensures HoldsByPanel(events, letters) == HoldsByPanel(events, letters[..m]) + HoldsByPanel(events, letters[m..])
  {
    if m > 0 {
      HoldsByPanelSplit(events, letters[1..], m - 1);
      assert letters[1..][..m - 1] == letters[..m][1..];
      assert letters[1..][m - 1..] == letters[m..];
    }
  }

  /**
   * When a panel's caps and tails alternate, each of its caps lasts until its own tail, the next
   * entry of the table, measured between their relocated beats; without warps that is the tail's
   * beat minus the cap's.
   */
  lemma {:induction false} OwnTailDurations(events: seq<NoteEvent>, ws: seq<Warp>, m: nat)
    requires Sorted(events) && m < |LetterOrder| && Alternates(PanelHolds(events, LetterOrder[m]))
    ensures CapsLastToOwnTail(PanelHolds(events, LetterOrder[m]), Durations(RelocatedHolds(events, ws)),
                              |HoldsByPanel(events, LetterOrder[..m])|, ws)
  {
    var letter := LetterOrder[m];
    var ph, table := PanelHolds(events, letter), HoldsByPanel(events, LetterOrder);
    var hs := RelocatedHolds(events, ws);
    var pre := HoldsByPanel(events, LetterOrder[..m]);
    var off := |pre|;
    TableBlock(events, LetterOrder, m);
    PanelHoldsOrdered(events, letter);
    BlockDurations(table, hs, ws, pre, ph);
  }

  /** Every cap of an alternating, rising block of the table lasts until its own tail. */
  lemma BlockDurations(table: seq<Hold>, hs: seq<Hold>, ws: seq<Warp>, pre: seq<Hold>, ph: seq<Hold>)
    requires |pre| + |ph| <= |table| == |hs| && table[..|pre| + |ph|] == pre + ph
    requires forall j :: 0 <= j < |hs| ==> hs[j] == table[j].(beat := Relocate(table[j].beat, table[j].isCap, ws))
    requires Rising(ph) && Alternates(ph)
    ensures CapsLastToOwnTail(ph, Durations(hs), |pre|, ws)
  {
    forall k | 0 <= k < |ph| && ph[k].isCap
      ensures k + 1 < |ph| && !ph[k + 1].isCap
      ensures Durations(hs)[|pre| + k] == Some(Abs(Relocate(ph[k].beat, true, ws) - Relocate(ph[k + 1].beat, false, ws)))
      ensures ws == [] ==> Durations(hs)[|pre| + k] == Some(ph[k + 1].beat - ph[k].beat)
    {
      AlternatesNext(ph, k);
      BlockDuration(table, hs, ws, pre, ph, k);
    }
  }

  /**
   * The block `ph` of the table starting at entry `off` has every cap followed by a tail, and
   * `ds` gives each cap the distance to that tail, between relocated beats.
   */
  ghost predicate CapsLastToOwnTail(ph: seq<Hold>, ds: seq<Option<real>>, off: nat, ws: seq<Warp>)
  {
    off + |ph| <= |ds|
    && forall k :: 0 <= k < |ph| && ph[k].isCap ==>
         k + 1 < |ph| && !ph[k + 1].isCap
         && ds[off + k] == Some(Abs(Relocate(ph[k].beat, true, ws) - Relocate(ph[k + 1].beat, false, ws)))
         && (ws == [] ==> ds[off + k] == Some(ph[k + 1].beat - ph[k].beat))
  }

  /** The holds of letter `m` follow those of the letters before it. */
  lemma TableBlock(events: seq<NoteEvent>, letters: string, m: nat)
    requires m < |letters|
    ensures var pre, ph := HoldsByPanel(events, letters[..m]), PanelHolds(events, letters[m]);
            |pre| + |ph| <= |HoldsByPanel(events, letters)|
            && HoldsByPanel(events, letters)[..|pre| + |ph|] == pre + ph
  {
    HoldsByPanelSplit(events, letters, m);
    assert letters[m..][1..] == letters[m + 1..];
    var pre, ph := HoldsByPanel(events, letters[..m]), PanelHolds(events, letters[m]);
    assert HoldsByPanel(events, letters) == pre + ph + HoldsByPanel(events, letters[m + 1..]);
  }

  /** In an alternating run every cap has a tail right after it. */
  lemma AlternatesNext(hs: seq<Hold>, k: nat)
    requires Alternates(hs) && k < |hs| && hs[k].isCap
    ensures k + 1 < |hs| && !hs[k + 1].isCap
  {
    assert k % 2 == 0;
  }

  /** The duration of a cap of a rising block of the table, followed by its tail. */
  lemma BlockDuration(table: seq<Hold>, hs: seq<Hold>, ws: seq<Warp>, pre: seq<Hold>, ph: seq<Hold>, k: nat)
    requires |pre| + |ph| <= |table| == |hs| && table[..|pre| + |ph|] == pre + ph
    requires forall j :: 0 <= j < |hs| ==> hs[j] == table[j].(beat := Relocate(table[j].beat, table[j].isCap, ws))
    requires Rising(ph) && k + 1 < |ph| && ph[k].isCap && !ph[k + 1].isCap
    ensures Durations(hs)[|pre| + k] == Some(Abs(Relocate(ph[k].beat, true, ws) - Relocate(ph[k + 1].beat, false, ws)))
    ensures ws == [] ==> Durations(hs)[|pre| + k] == Some(ph[k + 1].beat - ph[k].beat)
  {
    var i := |pre| + k;
    assert table[i] == table[..|pre| + |ph|][i] == ph[k];
    assert table[i + 1] == table[..|pre| + |ph|][i + 1] == ph[k + 1];
    RelocatedDuration(table, hs, ws, i);
  }

  /** A cap's duration in a relocated table, in terms of the table before relocation. */
  lemma RelocatedDuration(table: seq<Hold>, hs: seq<Hold>, ws: seq<Warp>, i: nat)
    requires |hs| == |table| && i + 1 < |table| && table[i].isCap
    requires forall j :: 0 <= j < |hs| ==> hs[j] == table[j].(beat := Relocate(table[j].beat, table[j].isCap, ws))
    ensures Durations(hs)[i]
              == Some(Abs(Relocate(table[i].beat, true, ws) - Relocate(table[i + 1].beat, table[i + 1].isCap, ws)))
  {
    assert Durations(hs)[i] == DurationAt(hs, i);
  }

  /** The duration of entry `i` of the hold table. */
  function DurationAt(hs: seq<Hold>, i: nat): Option<real>
    requires i < |hs|
  {
    if !hs[i].isCap then Some(0.0)
    else if i + 1 < |hs| then Some(Abs(hs[i].beat - hs[i + 1].beat))
    else None
  }

  function Abs(x: real): (r: real)
    ensures r >= 0.0 && (r == x || r == -x)
  {
    if x < 0.0 then -x else x
  }

  // ---------------------------------------------------------------------------------------
  // Sorted distinct beats
  // ---------------------------------------------------------------------------------------

  predicate Increasing(xs: seq<real>)
  {
    forall i, j :: 0 <= i < j < |xs| ==> xs[i] < xs[j]
  }

  function Insert(x: real, xs: seq<real>): (r: seq<real>)
    requires Increasing(xs)
    ensures Increasing(r)
    ensures forall y :: y in r <==> y == x || y in xs
  {
    if xs == [] then [x]
    else if x < xs[0] then [x] + xs
    else if x == xs[0] then xs
    else
      IncreasingTail(xs);
      var rest := Insert(x, xs[1..]);
      IncreasingCons(xs[0], rest);
      [xs[0]] + rest
  }

  lemma IncreasingTail(xs: seq<real>)
    requires Increasing(xs) && xs != []
    ensures Increasing(xs[1..])
    ensures forall y :: y in xs[1..] ==> xs[0] < y
  {
    forall y | y in xs[1..] ensures xs[0] < y {
      var k :| 0 <= k < |xs[1..]| && xs[1..][k] == y;
      assert xs[k + 1] == y;
    }
  }

  lemma IncreasingCons(a: real, xs: seq<real>)
    requires Increasing(xs)
    requires forall y :: y in xs ==> a < y
    ensures Increasing([a] + xs)
  {
    forall i, j | 0 <= i < j < |[a] + xs| ensures ([a] + xs)[i] < ([a] + xs)[j] {
      assert ([a] + xs)[j] == xs[j - 1] && xs[j - 1] in xs;
      if i > 0 { assert ([a] + xs)[i] == xs[i - 1]; }
    }
  }

  /** The distinct values of `xs` in increasing order: the beats of the merged, de-duplicated
      and sorted frame. */
  function SortUnique(xs: seq<real>): (r: seq<real>)
    ensures Increasing(r)
    ensures forall y :: y in r <==> y in xs
  {
    if xs == [] then [] else Insert(xs[0], SortUnique(xs[1..]))
  }

  // ---------------------------------------------------------------------------------------
  // The merged rows
  // ---------------------------------------------------------------------------------------

  /** One row of the timeline; the per-panel columns are indexed like the panel letters. */
  datatype Row = Row(beat: real, sec: real, bpm: Option<real>,
                     taps: seq<nat>, caps: seq<nat>, durations: seq<Option<real>>,
                     tickcount: Option<real>, stop: Option<real>, delay: Option<real>, warp: Option<real>,
                     speed: Option<real>, speedDuration: Option<Field>, speedMode: Option<bool>,
                     scroll: Option<real>)

  /** The panel letters that get columns: five for singles, ten for doubles, none otherwise. */
  function Letters(panels: nat): (ls: string)
    ensures panels == 5 || panels == 10 ==> |ls| == panels
    ensures forall c :: c in ls ==> c in PanelMap
  {
    if panels == 5 then PanelMap[..5] else if panels == 10 then PanelMap else ""
  }

  /** The number of taps on panel `letter` at beat `b`. */
  function TapCount(events: seq<NoteEvent>, letter: char, b: real): (n: nat)
    ensures n == multiset(events)[NoteEvent(letter, Tap, b)]
    ensures n == 0 <==> forall e :: e in events ==> !(e.kind == Tap && e.panel == letter && e.beat == b)
  {
    if events == [] then 0
    else
      var e := events[0];
      assert events == [e] + events[1..];
      (if e.kind == Tap && e.panel == letter && e.beat == b then 1 else 0) + TapCount(events[1..], letter, b)
  }

  /** The number of (relocated) hold caps on panel `letter` at beat `b`. */
  function CapCount(hs: seq<Hold>, letter: char, b: real): (n: nat)
    ensures n == multiset(hs)[Hold(letter, true, b)]
    ensures n == 0 <==> forall h :: h in hs ==> !(h.isCap && h.panel == letter && h.beat == b)
  {
    if hs == [] then 0
    else
      assert hs == [hs[0]] + hs[1..];
      (if hs[0].isCap && hs[0].panel == letter && hs[0].beat == b then 1 else 0) + CapCount(hs[1..], letter, b)
  }

  /** The sum of the known durations of the holds on panel `letter` that sit at beat `b`. */
  function DurationSum(hs: seq<Hold>, ds: seq<Option<real>>, letter: char, b: real): (d: real)
    requires |hs| == |ds|
    requires forall i :: 0 <= i < |ds| && ds[i].Some? ==> ds[i].value >= 0.0
    ensures d >= 0.0
  {
    if hs == [] then 0.0
    else
      (if hs[0].panel == letter && hs[0].beat == b && ds[0].Some? then ds[0].value else 0.0)
      + DurationSum(hs[1..], ds[1..], letter, b)
  }

  /** Whether panel `letter` has a cap or tail at beat `b` before relocation. */
  predicate HoldBeatOf(events: seq<NoteEvent>, letter: char, b: real)
  {
    exists e :: e in events && IsHold(e) && e.panel == letter && e.beat == b
  }

  /** The value cell of the first change at beat `b`; missing when there is none. */
  function At(cs: seq<Change>, b: real): (r: Option<real>)
    ensures (forall c :: c in cs ==> c.beat != b) ==> r.None?
    ensures (exists c :: c in cs && c.beat == b) ==>
              exists i :: 0 <= i < |cs| && cs[i].beat == b && r == cs[i].value
                          && forall j :: 0 <= j < i ==> cs[j].beat != b
    ensures r.Some? ==> Change(b, r) in cs
    decreases |cs|
  {
    if cs == [] then None
    else if cs[0].beat == b then cs[0].value
    else
      var r := At(cs[1..], b);
      assert (exists c :: c in cs[1..] && c.beat == b) ==>
               exists i :: 1 <= i < |cs| && cs[i].beat == b && r == cs[i].value
                           && forall j :: 0 <= j < i ==> cs[j].beat != b by {
        var tail := cs[1..];
        if exists c :: c in tail && c.beat == b {
          var i :| 0 <= i < |tail| && tail[i].beat == b && r == tail[i].value
                   && forall j :: 0 <= j < i ==> tail[j].beat != b;
          FirstAtShift(cs, tail, b, i);
        }
      }
      r
  }

  /** The first change at beat `b` in `cs[1..]` is, one place on, the first in `cs` when
      `cs[0]` is elsewhere. */
  lemma FirstAtShift(cs: seq<Change>, tail: seq<Change>, b: real, i: nat)
    requires cs != [] && tail == cs[1..] && cs[0].beat != b && i < |tail|
    requires forall j :: 0 <= j < i ==> tail[j].beat != b
    ensures cs[i + 1] == tail[i] && forall j :: 0 <= j < i + 1 ==> cs[j].beat != b
  {
    forall j | 0 < j < i + 1 ensures cs[j].beat != b {
      assert cs[j] == tail[j - 1];
    }
  }

  /** The first speed change at beat `b`. */
  function SpeedAt(ss: seq<SpeedChange>, b: real): (r: Option<SpeedChange>)
    ensures r.None? <==> forall s :: s in ss ==> s.beat != b
    ensures r.Some? ==> r.value in ss && r.value.beat == b
  {
    if ss == [] then None else if ss[0].beat == b then Some(ss[0]) else SpeedAt(ss[1..], b)
  }

  function TapBeats(events: seq<NoteEvent>): (bs: seq<real>)
    ensures forall b :: b in bs <==> exists e :: e in events && e.kind == Tap && e.beat == b
  {
    if events == [] then []
    else (if events[0].kind == Tap then [events[0].beat] else []) + TapBeats(events[1..])
  }

  function HoldBeats(hs: seq<Hold>): (bs: seq<real>)
    ensures forall b :: b in bs <==> exists h :: h in hs && h.beat == b
  {
    if hs == [] then [] else [hs[0].beat] + HoldBeats(hs[1..])
  }

  /** The beats of the changes whose value cell is not missing (the frame keeps a timing row
      only where one of its cells is not `NaN`). */
  function ChangeBeats(cs: seq<Change>): (bs: seq<real>)
    ensures forall b :: b in bs <==> exists c :: c in cs && c.value.Some? && c.beat == b
  {
    if cs == [] then [] else (if cs[0].value.Some? then [cs[0].beat] else []) + ChangeBeats(cs[1..])
  }

  /** A speed change with at least one cell that is not missing. */
  predicate SpeedKnown(s: SpeedChange) { s.speed.Some? || s.duration.Some? || s.mode.Some? }

  /** The beats of the speed changes with a known cell. */
  function SpeedBeats(ss: seq<SpeedChange>): (bs: seq<real>)
    ensures forall b :: b in bs <==> exists s :: s in ss && SpeedKnown(s) && s.beat == b
  {
    if ss == [] then [] else (if SpeedKnown(ss[0]) then [ss[0].beat] else []) + SpeedBeats(ss[1..])
  }

  /** The beats that get a row: taps, relocated holds, and the bpm, stop, delay, warp, tickcount,
      speed and scroll changes (fake segments get none). */
  function RowBeats(events: seq<NoteEvent>, hs: seq<Hold>, t: TimingTable): seq<real>
  {
    TapBeats(events) + HoldBeats(hs) + ChangeBeats(t.bpms) + ChangeBeats(t.stops) + ChangeBeats(t.delays)
    + ChangeBeats(t.warps) + ChangeBeats(t.tickcounts) + SpeedBeats(t.speeds) + ChangeBeats(t.scrolls)
  }

  /** The row at beat `b`: a panel's duration is known only where the hold table has a row
      and the panel itself had a cap or tail before relocation. */
  function RowAt(b: real, events: seq<NoteEvent>, hs: seq<Hold>, ds: seq<Option<real>>,
                 letters: string, t: TimingTable): (row: Row)
    requires |hs| == |ds|
    requires forall i :: 0 <= i < |ds| && ds[i].Some? ==> ds[i].value >= 0.0
    ensures row.beat == b && |row.taps| == |row.caps| == |row.durations| == |letters|
    ensures forall p :: 0 <= p < |letters| ==>
              row.taps[p] == multiset(events)[NoteEvent(letters[p], Tap, b)]
              && row.caps[p] == multiset(hs)[Hold(letters[p], true, b)]
    ensures forall p :: 0 <= p < |letters| ==>
              (row.durations[p].Some? <==> b in HoldBeats(hs) && HoldBeatOf(events, letters[p], b))
              && (row.durations[p].Some? ==> row.durations[p].value == DurationSum(hs, ds, letters[p], b))
  {
    var speed := SpeedAt(t.speeds, b);
    Row(b, 0.0, At(t.bpms, b),
        seq(|letters|, p requires 0 <= p < |letters| => TapCount(events, letters[p], b)),
        seq(|letters|, p requires 0 <= p < |letters| => CapCount(hs, letters[p], b)),
        seq(|letters|, p requires 0 <= p < |letters| =>
          if b in HoldBeats(hs) && HoldBeatOf(events, letters[p], b) then Some(DurationSum(hs, ds, letters[p], b))
          else None),
        At(t.tickcounts, b), At(t.stops, b), At(t.delays, b), At(t.warps, b),
        if speed.Some? then speed.value.speed else None,
        if speed.Some? then speed.value.duration else None,
        if speed.Some? then speed.value.mode else None,
        At(t.scrolls, b))
  }

  /** The merged frame before any filling: one row per distinct beat, in increasing order. */
  function Merge(events: seq<NoteEvent>, t: TimingTable, panels: nat): (rows: seq<Row>)
    ensures Increasing(Beats(rows))
    ensures forall b :: (exists i :: 0 <= i < |rows| && rows[i].beat == b) <==>
              b in RowBeats(events, RelocatedHolds(events, WarpsOf(t.warps)), t)
    ensures forall i :: 0 <= i < |rows| ==> |rows[i].taps| == |rows[i].caps| == |rows[i].durations| == |Letters(panels)|
    ensures forall i :: 0 <= i < |rows| ==>
              rows[i].bpm == At(t.bpms, rows[i].beat) && rows[i].warp == At(t.warps, rows[i].beat)
              && rows[i].stop == At(t.stops, rows[i].beat) && rows[i].delay == At(t.delays, rows[i].beat)
  {
    var hs := RelocatedHolds(events, WarpsOf(t.warps));
    var ds := Durations(hs);
    var beats := SortUnique(RowBeats(events, hs, t));
    var rows := seq(|beats|, i requires 0 <= i < |beats| => RowAt(beats[i], events, hs, ds, Letters(panels), t));
    assert Beats(rows) == beats;
    rows
  }

  /** Every merged row counts the taps and relocated caps at its beat, panel by panel. */
  lemma MergeCounts(events: seq<NoteEvent>, t: TimingTable, panels: nat)
    ensures forall i :: 0 <= i < |Merge(events, t, panels)| ==> RowCounts(Merge(events, t, panels)[i], events, t, panels)
  {
    var hs := RelocatedHolds(events, WarpsOf(t.warps));
    var beats := SortUnique(RowBeats(events, hs, t));
    var rows := Merge(events, t, panels);
    forall i | 0 <= i < |rows| ensures RowCounts(rows[i], events, t, panels) {
      assert rows[i] == RowAt(beats[i], events, hs, Durations(hs), Letters(panels), t);
    }
  }

  /** The tap and cap columns of row `r` count the taps and the relocated caps of each panel at
      its beat. */
  ghost predicate TapCapCounts(r: Row, events: seq<NoteEvent>, t: TimingTable, panels: nat)
  {
    var letters, hs := Letters(panels), RelocatedHolds(events, WarpsOf(t.warps));
    |r.taps| == |r.caps| == |letters|
    && forall p :: 0 <= p < |letters| ==>
         r.taps[p] == multiset(events)[NoteEvent(letters[p], Tap, r.beat)]
         && r.caps[p] == multiset(hs)[Hold(letters[p], true, r.beat)]
  }

  /** A merged row counts the steps at its beat, and a known duration is the sum of those of the
      panel's holds at that beat. */
  ghost predicate RowCounts(r: Row, events: seq<NoteEvent>, t: TimingTable, panels: nat)
  {
    var letters, hs := Letters(panels), RelocatedHolds(events, WarpsOf(t.warps));
    TapCapCounts(r, events, t, panels) && |r.durations| == |letters|
    && forall p :: 0 <= p < |letters| ==>
         r.durations[p].Some? ==> r.durations[p].value == DurationSum(hs, Durations(hs), letters[p], r.beat)
  }

  function Beats(rows: seq<Row>): (bs: seq<real>)
    ensures |bs| == |rows| && forall i :: 0 <= i < |rows| ==> bs[i] == rows[i].beat
  {
    seq(|rows|, i requires 0 <= i < |rows| => rows[i].beat)
  }

  // ---------------------------------------------------------------------------------------
  // Filling a hold-duration column between a cap and its tail
  // ---------------------------------------------------------------------------------------

  /** One hold-duration column after the fill: an empty cell gets the distance to the beat where
      the last known hold ends, and a negative result (the hold is over) is emptied again.
      `tail` is the end beat carried from the rows before. */
  function Bridge(beats: seq<real>, ds: seq<Option<real>>, tail: Option<real>): (r: seq<Option<real>>)
    requires |beats| == |ds|
    ensures |r| == |ds|
    ensures forall i :: 0 <= i < |ds| && ds[i].Some? && ds[i].value >= 0.0 ==> r[i] == ds[i]
    ensures forall i :: 0 <= i < |r| && r[i].Some? ==> r[i].value >= 0.0
    decreases |ds|
  {
    if ds == [] then []
    else
      var d := if ds[0].Some? then ds[0] else if tail.Some? then Some(tail.value - beats[0]) else None;
      var t := if ds[0].Some? then Some(beats[0] + ds[0].value) else tail;
      [if d.Some? && d.value >= 0.0 then d else None] + Bridge(beats[1..], ds[1..], t)
  }

  /** Across a run of empty cells the column counts down to the carried end beat, and is empty
      once that beat has passed. */
  lemma {:induction false} BridgeCarry(beats: seq<real>, ds: seq<Option<real>>, tail: Option<real>, k: nat)
    requires |beats| == |ds| && k < |ds|
    requires forall m :: 0 <= m <= k ==> ds[m].None?
    ensures Bridge(beats, ds, tail)[k] ==
              if tail.Some? && tail.value - beats[k] >= 0.0 then Some(tail.value - beats[k]) else None
    decreases k
  {
    if k > 0 {
      BridgeCarry(beats[1..], ds[1..], tail, k - 1);
    }
  }

  /** A row strictly after a cap of duration `d` at row `i`, with no other hold entry of the panel
      in between, still has `beats[i] + d - beats[k]` beats of the hold to run, or none once the
      hold has ended. */
  lemma {:induction false} BridgeSpan(beats: seq<real>, ds: seq<Option<real>>, tail: Option<real>, i: nat, k: nat)
    requires |beats| == |ds| && i < k < |ds|
    requires ds[i].Some?
    requires forall m :: i < m <= k ==> ds[m].None?
    ensures Bridge(beats, ds, tail)[k] ==
              var left := beats[i] + ds[i].value - beats[k];
              if left >= 0.0 then Some(left) else None
    decreases i
  {
    var t := if ds[0].Some? then Some(beats[0] + ds[0].value) else tail;
    BridgeStep(beats, ds, tail, k);
    assert beats[1..][k - 1] == beats[k];
    if i == 0 {
      BridgeCarry(beats[1..], ds[1..], t, k - 1);
    } else {
      assert beats[1..][i - 1] == beats[i] && ds[1..][i - 1] == ds[i];
      BridgeSpan(beats[1..], ds[1..], t, i - 1, k - 1);
    }
  }

  /** Cell `k > 0` of the filled column is cell `k - 1` of the rest, filled from the end beat the
      first cell leaves. */
  lemma BridgeStep(beats: seq<real>, ds: seq<Option<real>>, tail: Option<real>, k: nat)
    requires |beats| == |ds| && 0 < k < |ds|
    ensures Bridge(beats, ds, tail)[k] ==
              Bridge(beats[1..], ds[1..], if ds[0].Some? then Some(beats[0] + ds[0].value) else tail)[k - 1]
  {
  }

  /** Before the first known cell of a column, with nothing carried in, the column stays empty. */
  lemma {:induction false} BridgeBeforeAny(beats: seq<real>, ds: seq<Option<real>>, k: nat)
    requires |beats| == |ds| && k < |ds|
    requires forall m :: 0 <= m <= k ==> ds[m].None?
    ensures Bridge(beats, ds, None)[k] == None
  {
    BridgeCarry(beats, ds, None, k);
  }

  /** Every hold-duration column of the rows filled by `Bridge`. */
  function BridgeRows(rows: seq<Row>, width: nat): (out: seq<Row>)
    requires forall i :: 0 <= i < |rows| ==> |rows[i].durations| == width
    ensures |out| == |rows|
    ensures forall i :: 0 <= i < |rows| ==>
              out[i] == rows[i].(durations := out[i].durations) && |out[i].durations| == width
    ensures forall p :: 0 <= p < width ==>
              Column(out, p) == Bridge(Beats(rows), Column(rows, p), None)
  {
    var cols := seq(width, p requires 0 <= p < width => Bridge(Beats(rows), Column(rows, p), None));
    var out := seq(|rows|, i requires 0 <= i < |rows| =>
                 rows[i].(durations := seq(width, p requires 0 <= p < width => cols[p][i])));
    assert forall p :: 0 <= p < width ==> Column(out, p) == cols[p];
    out
  }

  /** Column `p` of the hold durations. */
  function Column(rows: seq<Row>, p: nat): (c: seq<Option<real>>)
    requires forall i :: 0 <= i < |rows| ==> p < |rows[i].durations|
    ensures |c| == |rows| && forall i :: 0 <= i < |rows| ==> c[i] == rows[i].durations[p]
  {
    seq(|rows|, i requires 0 <= i < |rows| => rows[i].durations[p])
  }

  // ---------------------------------------------------------------------------------------
  // Warps in the merged frame
  // ---------------------------------------------------------------------------------------

  predicate WarpRow(r: Row) { r.warp.Some? && r.warp.value > 0.0 }

  /** The positive warps among the rows. */
  function RowWarps(rows: seq<Row>): (ws: seq<Warp>)
    ensures forall w :: w in ws <==> exists r :: r in rows && WarpRow(r) && w == Warp(r.beat, r.warp.value)
  {
    if rows == [] then []
    else (if WarpRow(rows[0]) then [Warp(rows[0].beat, rows[0].warp.value)] else []) + RowWarps(rows[1..])
  }

  function Zeros(n: nat): (z: seq<nat>)
    ensures |z| == n && forall i :: 0 <= i < n ==> z[i] == 0
  {
    seq(n, _ => 0)
  }

  /** A row carrying a warp loses its taps and caps. */
  function Silence(r: Row): Row
  {
    if WarpRow(r) then r.(taps := Zeros(|r.taps|), caps := Zeros(|r.caps|)) else r
  }

  predicate Warped(x: real, ws: seq<Warp>) { exists w :: w in ws && Inside(x, w) }

  /** The rows outside every warp of `ws`, silenced where they carry a warp. */
  function DropWarped(rows: seq<Row>, ws: seq<Warp>): (out: seq<Row>)
    ensures forall o :: o in out ==> !Warped(o.beat, ws)
  {
    if rows == [] then []
    else
      var rest := DropWarped(rows[1..], ws);
      if Warped(rows[0].beat, ws) then rest else [Silence(rows[0])] + rest
  }

  /** The survivors are exactly the (silenced) rows outside every warp. */
  lemma {:induction false} DropWarpedKeeps(rows: seq<Row>, ws: seq<Warp>)
    ensures forall o :: o in DropWarped(rows, ws) ==> exists r :: r in rows && o == Silence(r)
    ensures forall r :: r in rows && !Warped(r.beat, ws) ==> Silence(r) in DropWarped(rows, ws)
  {
    if rows != [] {
      DropWarpedKeeps(rows[1..], ws);
      assert forall r :: r in rows ==> r == rows[0] || r in rows[1..];
    }
  }

  lemma {:induction false} DropWarpedAbove(rows: seq<Row>, ws: seq<Warp>, x: real)
    requires forall i :: 0 <= i < |rows| ==> rows[i].beat > x
    ensures forall i :: 0 <= i < |DropWarped(rows, ws)| ==> DropWarped(rows, ws)[i].beat > x
  {
    if rows != [] {
      DropWarpedAbove(rows[1..], ws, x);
    }
  }

  /** Rows in strictly increasing beat order. */
  predicate Ascending(rows: seq<Row>)
  {
    forall i, j :: 0 <= i < j < |rows| ==> rows[i].beat < rows[j].beat
  }

  /** Dropping rows keeps the survivors in increasing beat order. */
  lemma {:induction false} DropWarpedAscending(rows: seq<Row>, ws: seq<Warp>)
    ensures Ascending(rows) ==> Ascending(DropWarped(rows, ws))
  {
    if rows != [] && Ascending(rows) {
      var tail := rows[1..];
      AscendingTail(rows, tail);
      DropWarpedAscending(tail, ws);
      DropWarpedAbove(tail, ws, rows[0].beat);
      if !Warped(rows[0].beat, ws) {
        AscendingCons(Silence(rows[0]), DropWarped(tail, ws));
      }
    }
  }

  /** The rows after the first of an ascending sequence ascend, above the first. */
  lemma AscendingTail(rows: seq<Row>, tail: seq<Row>)
    requires rows != [] && tail == rows[1..] && Ascending(rows)
    ensures Ascending(tail) && forall i :: 0 <= i < |tail| ==> tail[i].beat > rows[0].beat
  {
    assert forall i :: 0 <= i < |tail| ==> tail[i] == rows[i + 1];
  }

  /** A row below every row of an ascending sequence ascends in front of it. */
  lemma AscendingCons(x: Row, rest: seq<Row>)
    requires Ascending(rest) && forall i :: 0 <= i < |rest| ==> rest[i].beat > x.beat
    ensures Ascending([x] + rest)
  {
    var out := [x] + rest;
    forall a, b | 0 <= a < b < |out| ensures out[a].beat < out[b].beat {
      assert out[b] == rest[b - 1];
      if a > 0 {
        assert out[a] == rest[a - 1];
      }
    }
  }

  /** The warp step: the warps are read from the rows before any is dropped. */
  function Elide(rows: seq<Row>): (out: seq<Row>)
    ensures forall o :: o in out ==> forall r :: r in rows && WarpRow(r) ==>
              !Inside(o.beat, Warp(r.beat, r.warp.value))
    ensures forall o :: o in out && WarpRow(o) ==>
              (forall p :: 0 <= p < |o.taps| ==> o.taps[p] == 0) && (forall p :: 0 <= p < |o.caps| ==> o.caps[p] == 0)
    ensures forall r :: r in rows && !Warped(r.beat, RowWarps(rows)) ==> Silence(r) in out
    ensures Ascending(rows) ==> Ascending(out)
  {
    var ws := RowWarps(rows);
    var out := DropWarped(rows, ws);
    DropWarpedAscending(rows, ws);
    DropWarpedKeeps(rows, ws);
    out
  }

  // ---------------------------------------------------------------------------------------
  // Filling the timing columns
  // ---------------------------------------------------------------------------------------

  /** The last known value of `xs`, or `start` when no value is known. */
  function LastKnown(xs: seq<Option<real>>, start: Option<real>): Option<real>
  {
    if xs == [] then start
    else if xs[|xs| - 1].Some? then xs[|xs| - 1]
    else LastKnown(xs[..|xs| - 1], start)
  }

  /** Forward fill (`ffill`): every empty cell takes the value carried from the cells before. */
  function FillForward(xs: seq<Option<real>>, carry: Option<real>): (r: seq<Option<real>>)
    ensures |r| == |xs|
    ensures forall i :: 0 <= i < |xs| && xs[i].Some? ==> r[i] == xs[i]
  {
    if xs == [] then []
    else
      var v := if xs[0].Some? then xs[0] else carry;
      [v] + FillForward(xs[1..], v)
  }

  lemma {:induction false} LastKnownFirst(xs: seq<Option<real>>, start: Option<real>)
    requires |xs| > 0
    ensures LastKnown(xs, start) == LastKnown(xs[1..], if xs[0].Some? then xs[0] else start)
    decreases |xs|
  {
    if |xs| > 1 && xs[|xs| - 1].None? {
      LastKnownFirst(xs[..|xs| - 1], start);
      assert xs[..|xs| - 1][1..] == xs[1..][..|xs[1..]| - 1];
    }
  }

  /** Each filled cell holds the last value known up to and including its row. */
  lemma {:induction false} FillForwardIsLastKnown(xs: seq<Option<real>>, carry: Option<real>, i: nat)
    requires i < |xs|
    ensures FillForward(xs, carry)[i] == LastKnown(xs[..i + 1], carry)
    decreases i
  {
    var v := if xs[0].Some? then xs[0] else carry;
    LastKnownFirst(xs[..i + 1], carry);
    if i > 0 {
      FillForwardIsLastKnown(xs[1..], v, i - 1);
      assert xs[..i + 1][1..] == xs[1..][..i];
    } else {
      assert xs[..1][1..] == [];
    }
  }

  function Bpms(rows: seq<Row>): (c: seq<Option<real>>)
    ensures |c| == |rows| && forall i :: 0 <= i < |rows| ==> c[i] == rows[i].bpm
  {
    seq(|rows|, i requires 0 <= i < |rows| => rows[i].bpm)
  }

  /** The bpm is carried forward; missing stops, delays and warps become 0. */
  function FillTiming(rows: seq<Row>): (out: seq<Row>)
    ensures |out| == |rows|
    ensures forall i :: 0 <= i < |rows| ==>
              out[i].beat == rows[i].beat && out[i].bpm == LastKnown(Bpms(rows)[..i + 1], None)
              && out[i].stop == Some(rows[i].stop.GetOr(0.0)) && out[i].delay == Some(rows[i].delay.GetOr(0.0))
              && out[i].warp == Some(rows[i].warp.GetOr(0.0))
    ensures forall i :: 0 <= i < |rows| ==>
              out[i] == rows[i].(bpm := out[i].bpm, stop := out[i].stop, delay := out[i].delay, warp := out[i].warp)
  {
    var bpms := FillForward(Bpms(rows), None);
    forall i | 0 <= i < |rows| ensures bpms[i] == LastKnown(Bpms(rows)[..i + 1], None) {
      FillForwardIsLastKnown(Bpms(rows), None, i);
    }
    seq(|rows|, i requires 0 <= i < |rows| =>
      rows[i].(bpm := bpms[i], stop := Some(rows[i].stop.GetOr(0.0)), delay := Some(rows[i].delay.GetOr(0.0)),
               warp := Some(rows[i].warp.GetOr(0.0))))
  }

  // ---------------------------------------------------------------------------------------
  // Seconds
  // ---------------------------------------------------------------------------------------

  /** Running sums (`cumsum`). */
  function CumSum(xs: seq<real>): (r: seq<real>)
    ensures |r| == |xs|
    ensures |xs| > 0 ==> r[0] == xs[0]
    ensures forall i {:trigger xs[i]} :: 0 < i < |xs| ==> r[i] == r[i - 1] + xs[i]
  {
    if xs == [] then []
    else
      var p := CumSum(xs[..|xs| - 1]);
      p + [(if |p| == 0 then 0.0 else p[|p| - 1]) + xs[|xs| - 1]]
  }

  /** The filled timing columns of one row. */
  datatype Tempo = Tempo(beat: real, bpm: real, stop: real, delay: real, warp: real)

  /** The product of two reals, kept behind a name so that proofs about the columns stay linear. */
  function Mul(a: real, b: real): real
  {
    a * b
  }

  /** Seconds per beat. */
  function Spb(t: Tempo): real
    requires t.bpm != 0.0
  {
    60.0 / t.bpm
  }

  function WarpColumn(ts: seq<Tempo>): (xs: seq<real>)
    ensures |xs| == |ts| && forall i :: 0 <= i < |ts| ==> xs[i] == ts[i].warp
  {
    seq(|ts|, i requires 0 <= i < |ts| => ts[i].warp)
  }

  /** The warps of the rows before each row: `cumsum` shifted down one row, 0 at the top. */
  function WarpSums(ts: seq<Tempo>): (ws: seq<real>)
    ensures |ws| == |ts|
  {
    var c := CumSum(WarpColumn(ts));
    seq(|ts|, i requires 0 <= i < |ts| => if i == 0 then 0.0 else c[i - 1])
  }

  /** The beats from each row to the next with the warps subtracted; 0 after the last row. */
  function BeatDeltas(ts: seq<Tempo>): (ds: seq<real>)
    ensures |ds| == |ts|
  {
    var w := WarpSums(ts);
    seq(|ts|, i requires 0 <= i < |ts| =>
      if i + 1 < |ts| then Abs((ts[i].beat - w[i]) - (ts[i + 1].beat - w[i + 1])) else 0.0)
  }

  function Travel(ts: seq<Tempo>): (xs: seq<real>)
    requires forall i :: 0 <= i < |ts| ==> ts[i].bpm != 0.0
    ensures |xs| == |ts| && forall i :: 0 <= i < |ts| ==> xs[i] == Mul(BeatDeltas(ts)[i], Spb(ts[i]))
  {
    var d := BeatDeltas(ts);
    seq(|ts|, i requires 0 <= i < |ts| => Mul(d[i], Spb(ts[i])))
  }

  function Pauses(ts: seq<Tempo>): (xs: seq<real>)
    ensures |xs| == |ts| && forall i :: 0 <= i < |ts| ==> xs[i] == ts[i].stop + ts[i].delay
  {
    seq(|ts|, i requires 0 <= i < |ts| => ts[i].stop + ts[i].delay)
  }

  /** The seconds column: the running travel time plus the running pauses, less the offset,
      shifted down one row; the first row sits at `-offset`. */
  function Seconds(ts: seq<Tempo>, offset: real): (secs: seq<real>)
    requires forall i :: 0 <= i < |ts| ==> ts[i].bpm != 0.0
    ensures |secs| == |ts|
  {
    var elapsed := CumSum(Travel(ts));
    var shift := CumSum(Pauses(ts));
    seq(|ts|, i requires 0 <= i < |ts| => if i == 0 then -offset else elapsed[i - 1] + shift[i - 1] - offset)
  }

  /** The warp beats of the rows before row `i`. */
  function WarpBefore(ts: seq<Tempo>, i: nat): real
    requires i <= |ts|
  {
    if i == 0 then 0.0 else WarpBefore(ts, i - 1) + ts[i - 1].warp
  }

  lemma {:induction false} WarpSumsAreWarpBefore(ts: seq<Tempo>, i: nat)
    requires i < |ts|
    ensures WarpSums(ts)[i] == WarpBefore(ts, i)
  {
    var xs := WarpColumn(ts);
    var c := CumSum(xs);
    if i > 0 {
      WarpSumsAreWarpBefore(ts, i - 1);
      if i > 1 {
        assert c[i - 1] == c[i - 2] + xs[i - 1];
      }
    }
  }

  /** The step between consecutive rows: the beat distance with the earlier warps taken out,
      at the earlier row's seconds per beat, plus the earlier row's stop and delay. */
  lemma {:induction false} SecondsStep(ts: seq<Tempo>, offset: real, i: nat)
    requires forall j :: 0 <= j < |ts| ==> ts[j].bpm != 0.0
    requires i + 1 < |ts|
    ensures Seconds(ts, offset)[0] == -offset
    ensures Seconds(ts, offset)[i + 1] == Seconds(ts, offset)[i]
              + Mul(Abs((ts[i + 1].beat - WarpBefore(ts, i + 1)) - (ts[i].beat - WarpBefore(ts, i))), Spb(ts[i]))
              + ts[i].stop + ts[i].delay
  {
    SecondsAdvance(ts, offset, i);
    TravelIs(ts, i);
  }

  lemma {:induction false} TravelIs(ts: seq<Tempo>, i: nat)
    requires forall j :: 0 <= j < |ts| ==> ts[j].bpm != 0.0
    requires i + 1 < |ts|
    ensures Travel(ts)[i] == Mul(Abs((ts[i + 1].beat - WarpBefore(ts, i + 1)) - (ts[i].beat - WarpBefore(ts, i))), Spb(ts[i]))
  {
    BeatDeltaIs(ts, i);
  }

  lemma {:induction false} SecondsAdvance(ts: seq<Tempo>, offset: real, i: nat)
    requires forall j :: 0 <= j < |ts| ==> ts[j].bpm != 0.0
    requires i + 1 < |ts|
    ensures Seconds(ts, offset)[0] == -offset
    ensures Seconds(ts, offset)[i + 1] == Seconds(ts, offset)[i] + Travel(ts)[i] + Pauses(ts)[i]
  {
    var elapsed := CumSum(Travel(ts));
    var shift := CumSum(Pauses(ts));
    if i > 0 {
      assert elapsed[i] == elapsed[i - 1] + Travel(ts)[i];
      assert shift[i] == shift[i - 1] + Pauses(ts)[i];
    }
  }

  lemma {:induction false} BeatDeltaIs(ts: seq<Tempo>, i: nat)
    requires i + 1 < |ts|
    ensures BeatDeltas(ts)[i] == Abs((ts[i + 1].beat - WarpBefore(ts, i + 1)) - (ts[i].beat - WarpBefore(ts, i)))
  {
    var w := WarpSums(ts);
    assert BeatDeltas(ts)[i] == Abs((ts[i].beat - w[i]) - (ts[i + 1].beat - w[i + 1]));
    WarpSumsAreWarpBefore(ts, i);
    WarpSumsAreWarpBefore(ts, i + 1);
    AbsFlip(ts[i].beat - WarpBefore(ts, i), ts[i + 1].beat - WarpBefore(ts, i + 1));
  }

  lemma AbsFlip(a: real, b: real)
    ensures Abs(a - b) == Abs(b - a)
  {
  }

  lemma MulNonNegative(a: real, b: real)
    requires a >= 0.0 && b >= 0.0
    ensures Mul(a, b) >= 0.0
  {
  }

  lemma SpbPositive(t: Tempo)
    requires t.bpm > 0.0
    ensures Spb(t) > 0.0
  {
  }

  lemma {:induction false} TravelNonNegative(ts: seq<Tempo>, i: nat)
    requires forall j :: 0 <= j < |ts| ==> ts[j].bpm > 0.0
    requires i < |ts|
    ensures Travel(ts)[i] >= 0.0
  {
    SpbPositive(ts[i]);
    assert BeatDeltas(ts)[i] >= 0.0;
    MulNonNegative(BeatDeltas(ts)[i], Spb(ts[i]));
  }

  lemma {:induction false} SecondsStepUp(ts: seq<Tempo>, offset: real, i: nat)
    requires forall j :: 0 <= j < |ts| ==> ts[j].bpm > 0.0 && ts[j].stop >= 0.0 && ts[j].delay >= 0.0
    requires i + 1 < |ts|
    ensures Seconds(ts, offset)[i] <= Seconds(ts, offset)[i + 1]
  {
    SecondsAdvance(ts, offset, i);
    TravelNonNegative(ts, i);
  }

  /** A sequence that never steps down is sorted. */
  lemma {:induction false} StepsUpSorted(xs: seq<real>)
    requires forall i :: 0 <= i < |xs| - 1 ==> xs[i] <= xs[i + 1]
    ensures forall i, k :: 0 <= i <= k < |xs| ==> xs[i] <= xs[k]
  {
    forall i, k | 0 <= i <= k < |xs| ensures xs[i] <= xs[k] {
      var m := i;
      while m < k
        invariant i <= m <= k && xs[i] <= xs[m]
      {
        m := m + 1;
      }
    }
  }

  /** With positive tempos and no negative stops or delays, time never runs backwards. */
  lemma {:induction false} SecondsAscend(ts: seq<Tempo>, offset: real)
    requires forall j :: 0 <= j < |ts| ==> ts[j].bpm > 0.0 && ts[j].stop >= 0.0 && ts[j].delay >= 0.0
    ensures forall i, k :: 0 <= i <= k < |ts| ==> Seconds(ts, offset)[i] <= Seconds(ts, offset)[k]
  {
    forall i | 0 <= i < |ts| - 1 ensures Seconds(ts, offset)[i] <= Seconds(ts, offset)[i + 1] {
      SecondsStepUp(ts, offset, i);
    }
    StepsUpSorted(Seconds(ts, offset));
  }

  // ---------------------------------------------------------------------------------------
  // The whole timeline
  // ---------------------------------------------------------------------------------------

  /** A row whose bpm is known and nonzero and whose stop, delay and warp are filled. */
  predicate Timed(r: Row)
  {
    r.bpm.Some? && r.bpm.value != 0.0 && r.stop.Some? && r.delay.Some? && r.warp.Some?
  }

  function TempoOf(r: Row): (t: Tempo)
    requires Timed(r)
    ensures t.beat == r.beat && t.bpm != 0.0
  {
    Tempo(r.beat, r.bpm.value, r.stop.value, r.delay.value, r.warp.value)
  }

  function Tempos(rows: seq<Row>): (ts: seq<Tempo>)
    requires forall i :: 0 <= i < |rows| ==> Timed(rows[i])
    ensures |ts| == |rows| && forall i :: 0 <= i < |rows| ==> ts[i] == TempoOf(rows[i]) && ts[i].bpm != 0.0
  {
    seq(|rows|, i requires 0 <= i < |rows| => TempoOf(rows[i]))
  }

  function Secs(rows: seq<Row>): (xs: seq<real>)
    ensures |xs| == |rows| && forall i :: 0 <= i < |rows| ==> xs[i] == rows[i].sec
  {
    seq(|rows|, i requires 0 <= i < |rows| => rows[i].sec)
  }

  /** The seconds column. */
  function WithSeconds(rows: seq<Row>, offset: real): (out: seq<Row>)
    requires forall i :: 0 <= i < |rows| ==> Timed(rows[i])
    ensures |out| == |rows|
    ensures forall i :: 0 <= i < |rows| ==> out[i] == rows[i].(sec := out[i].sec)
    ensures Secs(out) == Seconds(Tempos(rows), offset)
  {
    var secs := Seconds(Tempos(rows), offset);
    var out := seq(|rows|, i requires 0 <= i < |rows| => rows[i].(sec := secs[i]));
    assert Secs(out) == secs;
    out
  }

  function Speeds(rows: seq<Row>): (c: seq<Option<real>>)
    ensures |c| == |rows| && forall i :: 0 <= i < |rows| ==> c[i] == rows[i].speed
  {
    seq(|rows|, i requires 0 <= i < |rows| => rows[i].speed)
  }

  function Scrolls(rows: seq<Row>): (c: seq<Option<real>>)
    ensures |c| == |rows| && forall i :: 0 <= i < |rows| ==> c[i] == rows[i].scroll
  {
    seq(|rows|, i requires 0 <= i < |rows| => rows[i].scroll)
  }

  function Ticks(rows: seq<Row>): (c: seq<Option<real>>)
    ensures |c| == |rows| && forall i :: 0 <= i < |rows| ==> c[i] == rows[i].tickcount
  {
    seq(|rows|, i requires 0 <= i < |rows| => rows[i].tickcount)
  }

  /** Speed, scroll factor and tickcount carried forward: each cell holds the last value known up
      to its row, and stays empty before the first. */
  function FillScroll(rows: seq<Row>): (out: seq<Row>)
    ensures |out| == |rows|
    ensures forall i :: 0 <= i < |rows| ==>
              out[i] == rows[i].(speed := out[i].speed, scroll := out[i].scroll, tickcount := out[i].tickcount)
    ensures forall i :: 0 <= i < |rows| ==>
              out[i].speed == LastKnown(Speeds(rows)[..i + 1], None)
              && out[i].scroll == LastKnown(Scrolls(rows)[..i + 1], None)
              && out[i].tickcount == LastKnown(Ticks(rows)[..i + 1], None)
  {
    var speeds := FillForward(Speeds(rows), None);
    var scrolls := FillForward(Scrolls(rows), None);
    var ticks := FillForward(Ticks(rows), None);
    forall i | 0 <= i < |rows|
      ensures speeds[i] == LastKnown(Speeds(rows)[..i + 1], None)
      ensures scrolls[i] == LastKnown(Scrolls(rows)[..i + 1], None)
      ensures ticks[i] == LastKnown(Ticks(rows)[..i + 1], None)
    {
      FillForwardIsLastKnown(Speeds(rows), None, i);
      FillForwardIsLastKnown(Scrolls(rows), None, i);
      FillForwardIsLastKnown(Ticks(rows), None, i);
    }
    seq(|rows|, i requires 0 <= i < |rows| => rows[i].(speed := speeds[i], scroll := scrolls[i], tickcount := ticks[i]))
  }

  /** The last steps: the seconds column, then speed, scroll factor and tickcount carried forward. */
  function Finish(rows: seq<Row>, offset: real): (out: seq<Row>)
    requires forall i :: 0 <= i < |rows| ==> Timed(rows[i])
    ensures |out| == |rows|
    ensures forall i :: 0 <= i < |rows| ==> out[i] == rows[i].(sec := out[i].sec, speed := out[i].speed,
                                                               scroll := out[i].scroll, tickcount := out[i].tickcount)
    ensures Secs(out) == Seconds(Tempos(rows), offset)
    ensures forall i :: 0 <= i < |rows| ==>
              out[i].speed == LastKnown(Speeds(rows)[..i + 1], None)
              && out[i].scroll == LastKnown(Scrolls(rows)[..i + 1], None)
              && out[i].tickcount == LastKnown(Ticks(rows)[..i + 1], None)
  {
    var timed := WithSeconds(rows, offset);
    var out := FillScroll(timed);
    SameSecs(out, timed);
    SameVisual(timed, rows);
    out
  }

  /** Rows that agree on their seconds have the same seconds column. */
  lemma SameSecs(a: seq<Row>, b: seq<Row>)
    requires |a| == |b| && forall i :: 0 <= i < |a| ==> a[i].sec == b[i].sec
    ensures Secs(a) == Secs(b)
  {
  }

  /** Rows that agree on speed, scroll factor and tickcount have the same visual columns. */
  lemma SameVisual(a: seq<Row>, b: seq<Row>)
    requires |a| == |b|
    requires forall i :: 0 <= i < |a| ==> a[i].speed == b[i].speed && a[i].scroll == b[i].scroll
                                          && a[i].tickcount == b[i].tickcount
    ensures Speeds(a) == Speeds(b) && Scrolls(a) == Scrolls(b) && Ticks(a) == Ticks(b)
  {
  }

  /** No row of `rows` lies strictly inside a positive warp of `cs` (the first one at its beat). */
  predicate OutsideWarps(rows: seq<Row>, cs: seq<Change>)
  {
    forall i, c :: 0 <= i < |rows| && c in cs && Positive(c.value) && At(cs, c.beat) == c.value ==>
      !Inside(rows[i].beat, Warp(c.beat, c.value.value))
  }

  /** `Stepchart.chart_to_df`: the steps and the timing changes merged into one row per beat. A
      missing timing column fails as the frame lookups do; a row left without a usable bpm, whose
      second would not be a finite number, is reported as `NonFiniteSeconds`. */
  function ChartTimeline(chart: Chart, toReal: string -> Option<real>): (r: Result<seq<Row>, ChartError>)
    ensures ParseSteps(chart).Err? ==> r == Err(ParseSteps(chart).error)
    ensures r.Ok? ==> TimingChanges(chart.timing, toReal).Ok?
    ensures r.Ok? ==> Ascending(r.value)
    ensures r.Ok? ==> (forall i :: 0 <= i < |r.value| ==> Timed(r.value[i]))
                      && Secs(r.value) == Seconds(Tempos(r.value), chart.offset)
    ensures r.Ok? ==> OutsideWarps(r.value, TimingChanges(chart.timing, toReal).value.warps)
    ensures r.Ok? ==> forall i :: 0 <= i < |r.value| ==>
                        StepCounts(r.value[i], ParseSteps(chart).value, TimingChanges(chart.timing, toReal).value, chart.panels)
  {
    var events :- ParseSteps(chart);
    var t :- TimingChanges(chart.timing, toReal);
    BuildTimeline(events, t, chart.panels, chart.offset)
  }

  /** The frame stages of `chart_to_df` on decoded steps and timing lists: a timing column no
      change fills is missing, and a row left without a usable bpm has no finite second. */
  function BuildTimeline(events: seq<NoteEvent>, t: TimingTable, panels: nat, offset: real)
    : (r: Result<seq<Row>, ChartError>)
    ensures r.Err? ==> r.error in {MissingColumn("tickcount"), MissingColumn("bpm"), MissingColumn("scroll_factor"),
                                    NonFiniteSeconds}
    ensures t.tickcounts == [] || t.bpms == [] || t.scrolls == [] ==> r.Err?
    ensures r.Ok? ==> Ascending(r.value)
    ensures r.Ok? ==> (forall i :: 0 <= i < |r.value| ==> Timed(r.value[i]))
                      && Secs(r.value) == Seconds(Tempos(r.value), offset)
    ensures r.Ok? ==> OutsideWarps(r.value, t.warps)
    ensures r.Ok? ==> forall i :: 0 <= i < |r.value| ==> StepCounts(r.value[i], events, t, panels)
  {
    if t.tickcounts == [] then Err(MissingColumn("tickcount"))
    else if t.bpms == [] then Err(MissingColumn("bpm"))
    else if t.scrolls == [] then Err(MissingColumn("scroll_factor"))
    else
      var merged := Merge(events, t, panels);
      var bridged := BridgeRows(merged, |Letters(panels)|);
      var elided := Elide(bridged);
      var filled := FillTiming(elided);
      if exists i :: 0 <= i < |filled| && !Timed(filled[i]) then Err(NonFiniteSeconds)
      else
        var out := Finish(filled, offset);
        TimelineFacts(events, t, panels, merged, bridged, elided, filled, out, offset);
        Ok(out)
  }

  lemma {:induction false} MergeAscending(events: seq<NoteEvent>, t: TimingTable, panels: nat)
    ensures Ascending(Merge(events, t, panels))
  {
    var merged := Merge(events, t, panels);
    forall a, b | 0 <= a < b < |merged| ensures merged[a].beat < merged[b].beat {
      assert Beats(merged)[a] < Beats(merged)[b];
    }
  }

  /** Every positive warp change of the table has a warp row in the merged frame. */
  lemma {:induction false} MergeHasWarpRow(events: seq<NoteEvent>, t: TimingTable, panels: nat, c: Change)
    requires c in t.warps && Positive(c.value) && At(t.warps, c.beat) == c.value
    ensures exists j :: 0 <= j < |Merge(events, t, panels)| && Merge(events, t, panels)[j].beat == c.beat
                        && WarpRow(Merge(events, t, panels)[j])
  {
    var merged := Merge(events, t, panels);
    assert c.beat in ChangeBeats(t.warps);
    assert c.beat in RowBeats(events, RelocatedHolds(events, WarpsOf(t.warps)), t);
    HasWarpRow(merged, t.warps, c);
  }

  /** A row at a positive warp change's beat, carrying the warp set there, is a warp row. */
  lemma HasWarpRow(rows: seq<Row>, warps: seq<Change>, c: Change)
    requires exists i :: 0 <= i < |rows| && rows[i].beat == c.beat
    requires forall i :: 0 <= i < |rows| ==> rows[i].warp == At(warps, rows[i].beat)
    requires Positive(c.value) && At(warps, c.beat) == c.value
    ensures exists j :: 0 <= j < |rows| && rows[j].beat == c.beat && WarpRow(rows[j])
  {
    var j :| 0 <= j < |rows| && rows[j].beat == c.beat;
    assert WarpRow(rows[j]);
  }

  /** The warps found in the merged frame survive the duration fill. */
  lemma {:induction false} ElideOutsideWarps(events: seq<NoteEvent>, t: TimingTable, panels: nat, elided: seq<Row>)
    requires elided == Elide(BridgeRows(Merge(events, t, panels), |Letters(panels)|))
    ensures OutsideWarps(elided, t.warps)
  {
    var merged := Merge(events, t, panels);
    var bridged := BridgeRows(merged, |Letters(panels)|);
    forall i, c | 0 <= i < |elided| && c in t.warps && Positive(c.value) && At(t.warps, c.beat) == c.value
      ensures !Inside(elided[i].beat, Warp(c.beat, c.value.value))
    {
      MergeHasWarpRow(events, t, panels, c);
      var j :| 0 <= j < |merged| && merged[j].beat == c.beat && WarpRow(merged[j]);
      assert WarpRow(bridged[j]) && bridged[j] in bridged && bridged[j].beat == c.beat;
      assert elided[i] in elided;
    }
  }

  lemma {:induction false} TimelineFacts(events: seq<NoteEvent>, t: TimingTable, panels: nat, merged: seq<Row>,
                                         bridged: seq<Row>, elided: seq<Row>, filled: seq<Row>, out: seq<Row>,
                                         offset: real)
    requires merged == Merge(events, t, panels)
    requires bridged == BridgeRows(merged, |Letters(panels)|)
    requires elided == Elide(bridged) && filled == FillTiming(elided)
    requires forall i :: 0 <= i < |filled| ==> Timed(filled[i])
    requires out == Finish(filled, offset)
    ensures Ascending(out)
    ensures (forall i :: 0 <= i < |out| ==> Timed(out[i])) && Secs(out) == Seconds(Tempos(out), offset)
    ensures OutsideWarps(out, t.warps)
    ensures forall i :: 0 <= i < |out| ==> StepCounts(out[i], events, t, panels)
  {
    MergeAscending(events, t, panels);
    assert Ascending(bridged);
    assert Ascending(elided);
    ElideOutsideWarps(events, t, panels, elided);
    FinishKeepsBeats(elided, filled, out, offset, t.warps);
    FinishTempos(filled, out, offset);
    FinalCounts(events, t, panels, elided, filled, out, offset);
  }

  /** The finished rows count the steps at their beats, warp rows silenced. */
  lemma {:induction false} FinalCounts(events: seq<NoteEvent>, t: TimingTable, panels: nat,
                                       elided: seq<Row>, filled: seq<Row>, out: seq<Row>, offset: real)
    requires elided == Elide(BridgeRows(Merge(events, t, panels), |Letters(panels)|))
    requires filled == FillTiming(elided)
    requires forall i :: 0 <= i < |filled| ==> Timed(filled[i])
    requires out == Finish(filled, offset)
    ensures forall i :: 0 <= i < |out| ==> StepCounts(out[i], events, t, panels)
  {
    ElidedCounts(events, t, panels, elided);
    FillsKeepSteps(elided, filled, out, offset);
    forall i | 0 <= i < |out| ensures StepCounts(out[i], events, t, panels) {
      StepCountsKept(elided[i], out[i], events, t, panels);
    }
  }

  lemma {:induction false} FinishKeepsBeats(elided: seq<Row>, filled: seq<Row>, out: seq<Row>, offset: real,
                                            warps: seq<Change>)
    requires filled == FillTiming(elided)
    requires forall i :: 0 <= i < |filled| ==> Timed(filled[i])
    requires out == Finish(filled, offset)
    ensures Ascending(elided) ==> Ascending(out)
    ensures OutsideWarps(elided, warps) ==> OutsideWarps(out, warps)
  {
    assert forall i :: 0 <= i < |out| ==> out[i].beat == elided[i].beat;
  }

  lemma {:induction false} FinishTempos(filled: seq<Row>, out: seq<Row>, offset: real)
    requires forall i :: 0 <= i < |filled| ==> Timed(filled[i])
    requires out == Finish(filled, offset)
    ensures (forall i :: 0 <= i < |out| ==> Timed(out[i])) && Secs(out) == Seconds(Tempos(out), offset)
  {
    assert Tempos(out) == Tempos(filled);
  }

  /** A row of the warp step counts what its merged row counted at its beat, except that a warp
      row has no taps and no caps. */
  ghost predicate StepCounts(r: Row, events: seq<NoteEvent>, t: TimingTable, panels: nat)
  {
    var letters, hs := Letters(panels), RelocatedHolds(events, WarpsOf(t.warps));
    |r.taps| == |r.caps| == |letters|
    && forall p :: 0 <= p < |letters| ==>
         r.taps[p] == (if WarpRow(r) then 0 else multiset(events)[NoteEvent(letters[p], Tap, r.beat)])
         && r.caps[p] == (if WarpRow(r) then 0 else multiset(hs)[Hold(letters[p], true, r.beat)])
  }

  /** The rows the warp step keeps count the steps at their beats, warp rows silenced. */
  lemma ElidedCounts(events: seq<NoteEvent>, t: TimingTable, panels: nat, elided: seq<Row>)
    requires elided == Elide(BridgeRows(Merge(events, t, panels), |Letters(panels)|))
    ensures forall i :: 0 <= i < |elided| ==> StepCounts(elided[i], events, t, panels)
  {
    var bridged := BridgeRows(Merge(events, t, panels), |Letters(panels)|);
    BridgedCounts(events, t, panels);
    DropWarpedKeeps(bridged, RowWarps(bridged));
    forall i | 0 <= i < |elided| ensures StepCounts(elided[i], events, t, panels) {
      assert elided[i] in elided;
      var r :| r in bridged && elided[i] == Silence(r);
      SilenceCounts(r, events, t, panels);
    }
  }

  /** Filling the hold durations leaves every row's step counts. */
  lemma BridgedCounts(events: seq<NoteEvent>, t: TimingTable, panels: nat)
    ensures forall r :: r in BridgeRows(Merge(events, t, panels), |Letters(panels)|) ==> TapCapCounts(r, events, t, panels)
  {
    var merged := Merge(events, t, panels);
    var bridged := BridgeRows(merged, |Letters(panels)|);
    MergeCounts(events, t, panels);
    forall r | r in bridged ensures TapCapCounts(r, events, t, panels) {
      var j :| 0 <= j < |bridged| && bridged[j] == r;
      assert RowCounts(merged[j], events, t, panels);
      assert r.taps == merged[j].taps && r.caps == merged[j].caps && r.beat == merged[j].beat;
    }
  }

  /** Silencing a row that counts the steps at its beat gives the step counts of the warp step. */
  lemma SilenceCounts(r: Row, events: seq<NoteEvent>, t: TimingTable, panels: nat)
    requires TapCapCounts(r, events, t, panels)
    ensures StepCounts(Silence(r), events, t, panels)
  {
    assert Silence(r).beat == r.beat && Silence(r).warp == r.warp;
  }

  /** A row with the beat, tap and cap columns and warp status of one with the step counts has them too. */
  lemma StepCountsKept(a: Row, b: Row, events: seq<NoteEvent>, t: TimingTable, panels: nat)
    requires StepCounts(a, events, t, panels)
    requires b.beat == a.beat && b.taps == a.taps && b.caps == a.caps && (WarpRow(b) <==> WarpRow(a))
    ensures StepCounts(b, events, t, panels)
  {
  }

  /** The fills after the warp step keep each row's beat, tap and cap columns, and whether it is a
      warp row. */
  lemma {:induction false} FillsKeepSteps(elided: seq<Row>, filled: seq<Row>, out: seq<Row>, offset: real)
    requires filled == FillTiming(elided)
    requires forall i :: 0 <= i < |filled| ==> Timed(filled[i])
    requires out == Finish(filled, offset)
    ensures |out| == |elided|
    ensures forall i :: 0 <= i < |out| ==>
              out[i].beat == elided[i].beat && out[i].taps == elided[i].taps && out[i].caps == elided[i].caps
              && (WarpRow(out[i]) <==> WarpRow(elided[i]))
  {
    forall i | 0 <= i < |out|
      ensures out[i].beat == elided[i].beat && out[i].taps == elided[i].taps && out[i].caps == elided[i].caps
      ensures WarpRow(out[i]) <==> WarpRow(elided[i])
    {
      assert out[i].warp == filled[i].warp && out[i].taps == filled[i].taps && out[i].caps == filled[i].caps;
      FilledWarpRow(elided, i);
      assert filled[i].warp == Some(elided[i].warp.GetOr(0.0));
    }
  }

  lemma {:induction false} FilledWarpRow(rows: seq<Row>, i: nat)
    requires i < |rows|
    ensures WarpRow(FillTiming(rows)[i]) <==> WarpRow(rows[i])
    ensures FillTiming(rows)[i].taps == rows[i].taps && FillTiming(rows)[i].caps == rows[i].caps
  {
    var f := FillTiming(rows)[i];
    assert f.warp == Some(rows[i].warp.GetOr(0.0));
    assert f == rows[i].(bpm := f.bpm, stop := f.stop, delay := f.delay, warp := f.warp);
  }
}
