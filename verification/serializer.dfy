/**
 * The step serialisation (`StepSerializer.serialize_steps`): every timeline row that starts a
 * tap, starts a hold or ends a hold becomes a token `<second>:<steps>`, and the tokens are joined
 * with hyphens. In the steps an upper-case panel letter is a tap, a lower-case letter followed
 * by `1` a hold cap, followed by `0` a hold tail, and a bare lower-case letter a hold in progress.
 */
module Serializer {
  import opened Wrappers
  import opened Text
  import opened Timeline

  /** What a code says about its panel. */
  datatype Mark = TapMark | CapMark | HoldMark | TailMark

  /** One step code: a panel letter (upper case) and a mark. */
  datatype Code = Code(panel: char, mark: Mark)

  function Lower(c: char): (l: char)
    requires IsUpper(c)
    ensures IsLower(l) && l as int == c as int + 32
  {
    (c as int + 32) as char
  }

  function Upper(c: char): (u: char)
    requires IsLower(c)
    ensures IsUpper(u) && u as int == c as int - 32
  {
    (c as int - 32) as char
  }

  predicate WellFormed(cs: seq<Code>)
  {
    forall i :: 0 <= i < |cs| ==> IsUpper(cs[i].panel)
  }

  /** The text of one code. */
  function RenderCode(c: Code): (s: string)
    requires IsUpper(c.panel)
  {
    match c.mark
    case TapMark => [c.panel]
    case CapMark => [Lower(c.panel), '1']
    case HoldMark => [Lower(c.panel)]
    case TailMark => [Lower(c.panel), '0']
  }

  function Render(cs: seq<Code>): (s: string)
    requires WellFormed(cs)
    ensures forall c :: c in s ==> IsUpper(c) || IsLower(c) || c == '0' || c == '1'
  {
    if cs == [] then [] else RenderCode(cs[0]) + Render(cs[1..])
  }

  /** Reads the steps part of a token back into codes; `None` on a character no code starts with. */
  function Decode(s: string): (r: Option<seq<Code>>)
    ensures r.Some? ==> WellFormed(r.value)
  {
    if s == [] then Some([])
    else if IsUpper(s[0]) then
      var rest :- Decode(s[1..]);
      Some([Code(s[0], TapMark)] + rest)
    else if IsLower(s[0]) then
      if |s| > 1 && s[1] == '1' then
        var rest :- Decode(s[2..]);
        Some([Code(Upper(s[0]), CapMark)] + rest)
      else if |s| > 1 && s[1] == '0' then
        var rest :- Decode(s[2..]);
        Some([Code(Upper(s[0]), TailMark)] + rest)
      else
        var rest :- Decode(s[1..]);
        Some([Code(Upper(s[0]), HoldMark)] + rest)
    else None
  }

  /** Decoding one rendered code in front of text that starts with a letter (or is empty). */
  lemma {:induction false} DecodeCons(c: Code, tail: string)
    requires IsUpper(c.panel)
    requires tail == [] || IsUpper(tail[0]) || IsLower(tail[0])
    ensures Decode(RenderCode(c) + tail) == if Decode(tail).Some? then Some([c] + Decode(tail).value) else None
  {
    var s := RenderCode(c) + tail;
    match c.mark
    case TapMark =>
      assert s[0] == c.panel && s[1..] == tail;
    case CapMark =>
      assert s[0] == Lower(c.panel) && s[1] == '1' && s[2..] == tail;
      assert Upper(s[0]) == c.panel;
    case TailMark =>
      assert s[0] == Lower(c.panel) && s[1] == '0' && s[2..] == tail;
      assert Upper(s[0]) == c.panel;
    case HoldMark =>
      assert s[0] == Lower(c.panel) && s[1..] == tail;
      assert |s| > 1 ==> s[1] == tail[0];
      assert Upper(s[0]) == c.panel;
  }

  /** Decoding undoes rendering. */
  lemma {:induction false} DecodeRender(cs: seq<Code>)
    requires WellFormed(cs)
    ensures Decode(Render(cs)) == Some(cs)
  {
    if cs != [] {
      var tail := Render(cs[1..]);
      DecodeRender(cs[1..]);
      if tail != [] {
        RenderStartsWithLetter(cs[1..]);
      }
      DecodeCons(cs[0], tail);
      assert [cs[0]] + cs[1..] == cs;
    }
  }

  lemma {:induction false} RenderStartsWithLetter(cs: seq<Code>)
    requires WellFormed(cs) && Render(cs) != []
    ensures IsUpper(Render(cs)[0]) || IsLower(Render(cs)[0])
  {
    if RenderCode(cs[0]) == [] {
      RenderStartsWithLetter(cs[1..]);
    }
  }

  // ---------------------------------------------------------------------------------------
  // The codes of one timeline row
  // ---------------------------------------------------------------------------------------

  /** The panel letters of a chart kind: `S` (singles) five, `D` (doubles) ten. */
  function KindLetters(kind: char): (r: Option<string>)
    ensures r.Some? <==> kind == 'S' || kind == 'D'
    ensures r.Some? ==> forall i :: 0 <= i < |r.value| ==> IsUpper(r.value[i])
    ensures r.Some? ==> forall i, j :: 0 <= i < j < |r.value| ==> r.value[i] != r.value[j]
  {
    if kind == 'S' then Some("ZQSEC") else if kind == 'D' then Some("ZQSECVRGYN") else None
  }

  /** A row has a column for each of the first `n` panels. */
  predicate Fits(row: Row, n: nat)
  {
    n <= |row.taps| && n <= |row.caps| && n <= |row.durations|
  }

  /** A hold runs through the row without starting on it. */
  predicate Interior(row: Row, p: nat)
    requires p < |row.durations| && p < |row.caps|
  {
    row.durations[p].Some? && row.durations[p].value > 0.0 && row.caps[p] == 0
  }

  /** A hold ends on the row. */
  predicate Ends(row: Row, p: nat)
    requires p < |row.durations|
  {
    row.durations[p] == Some(0.0)
  }

  function Repeat(c: Code, n: nat): (cs: seq<Code>)
    ensures |cs| == n && forall i :: 0 <= i < n ==> cs[i] == c
  {
    seq(n, _ => c)
  }

  /** The taps of panels `p..`: each panel letter as often as the panel is tapped. */
  function TapCodes(row: Row, letters: string, p: nat): (cs: seq<Code>)
    requires Fits(row, |letters|) && p <= |letters|
    ensures forall c :: c in cs ==> c.mark == TapMark && c.panel in letters
    decreases |letters| - p
  {
    if p == |letters| then [] else Repeat(Code(letters[p], TapMark), row.taps[p]) + TapCodes(row, letters, p + 1)
  }

  /** The hold caps of panels `p..`. */
  function CapCodes(row: Row, letters: string, p: nat): (cs: seq<Code>)
    requires Fits(row, |letters|) && p <= |letters|
    ensures forall c :: c in cs ==> c.mark == CapMark && c.panel in letters
    decreases |letters| - p
  {
    if p == |letters| then [] else Repeat(Code(letters[p], CapMark), row.caps[p]) + CapCodes(row, letters, p + 1)
  }

  /** Panel `q`'s running hold, then its ending hold, where it has them. */
  function HoldHead(row: Row, letters: string, q: nat): (cs: seq<Code>)
    requires Fits(row, |letters|) && q < |letters|
  {
    (if Interior(row, q) then [Code(letters[q], HoldMark)] else [])
    + (if Ends(row, q) then [Code(letters[q], TailMark)] else [])
  }

  /** The running and ending holds of panels `p..`. */
  function HoldCodes(row: Row, letters: string, p: nat): (cs: seq<Code>)
    requires Fits(row, |letters|) && p <= |letters|
    ensures forall c :: c in cs ==> (c.mark == HoldMark || c.mark == TailMark) && c.panel in letters
    decreases |letters| - p
  {
    if p == |letters| then [] else HoldHead(row, letters, p) + HoldCodes(row, letters, p + 1)
  }

  /** The codes of a row: taps, then caps, then running or ending holds, each in panel order. */
  function RowCodes(row: Row, letters: string): seq<Code>
    requires Fits(row, |letters|)
  {
    TapCodes(row, letters, 0) + CapCodes(row, letters, 0) + HoldCodes(row, letters, 0)
  }

  /** The rows that are written: some tap, some cap, or some hold ending. */
  predicate Selected(row: Row, n: nat)
    requires Fits(row, n)
  {
    exists p :: 0 <= p < n && (row.taps[p] > 0 || row.caps[p] > 0 || Ends(row, p))
  }

  predicate Distinct(letters: string)
  {
    forall i, j :: 0 <= i < j < |letters| ==> letters[i] != letters[j]
  }

  lemma {:induction false} RepeatCount(c: Code, n: nat, x: Code)
    ensures multiset(Repeat(c, n))[x] == if x == c then n else 0
  {
    if n > 0 {
      RepeatCount(c, n - 1, x);
      assert Repeat(c, n) == Repeat(c, n - 1) + [c];
    }
  }

  lemma {:induction false} TapCount(row: Row, letters: string, q: nat, p: nat)
    requires Fits(row, |letters|) && Distinct(letters) && q <= |letters| && p < |letters|
    ensures multiset(TapCodes(row, letters, q))[Code(letters[p], TapMark)] == if q <= p then row.taps[p] else 0
    decreases |letters| - q
  {
    var x := Code(letters[p], TapMark);
    if q < |letters| {
      TapCount(row, letters, q + 1, p);
      RepeatCount(Code(letters[q], TapMark), row.taps[q], x);
    } else {
      assert x !in TapCodes(row, letters, q);
    }
  }

  lemma {:induction false} CapCount(row: Row, letters: string, q: nat, p: nat)
    requires Fits(row, |letters|) && Distinct(letters) && q <= |letters| && p < |letters|
    ensures multiset(CapCodes(row, letters, q))[Code(letters[p], CapMark)] == if q <= p then row.caps[p] else 0
    decreases |letters| - q
  {
    var x := Code(letters[p], CapMark);
    if q < |letters| {
      CapCount(row, letters, q + 1, p);
      RepeatCount(Code(letters[q], CapMark), row.caps[q], x);
    } else {
      assert x !in CapCodes(row, letters, q);
    }
  }

  lemma HoldHeadCount(row: Row, letters: string, q: nat, p: nat, m: Mark)
    requires Fits(row, |letters|) && Distinct(letters) && q < |letters| && p < |letters|
    requires m == HoldMark || m == TailMark
    ensures multiset(HoldHead(row, letters, q))[Code(letters[p], m)] ==
              if q == p && (if m == HoldMark then Interior(row, p) else Ends(row, p)) then 1 else 0
  {
    if q != p {
      assert letters[q] != letters[p];
    }
  }

  lemma {:induction false} HoldCount(row: Row, letters: string, q: nat, p: nat, m: Mark)
    requires Fits(row, |letters|) && Distinct(letters) && q <= |letters| && p < |letters|
    requires m == HoldMark || m == TailMark
    ensures multiset(HoldCodes(row, letters, q))[Code(letters[p], m)] ==
              if q <= p && (if m == HoldMark then Interior(row, p) else Ends(row, p)) then 1 else 0
    decreases |letters| - q
  {
    if q < |letters| {
      var head, tail := HoldHead(row, letters, q), HoldCodes(row, letters, q + 1);
      HoldCount(row, letters, q + 1, p, m);
      HoldHeadCount(row, letters, q, p, m);
      assert HoldCodes(row, letters, q) == head + tail;
      assert multiset(head + tail) == multiset(head) + multiset(tail);
    } else {
      assert HoldCodes(row, letters, q) == [];
    }
  }

  lemma {:induction false} RowTapCount(row: Row, letters: string, p: nat)
    requires Fits(row, |letters|) && Distinct(letters) && p < |letters|
    ensures multiset(RowCodes(row, letters))[Code(letters[p], TapMark)] == row.taps[p]
  {
    var taps, caps, holds := TapCodes(row, letters, 0), CapCodes(row, letters, 0), HoldCodes(row, letters, 0);
    TapCount(row, letters, 0, p);
    assert Code(letters[p], TapMark) !in caps && Code(letters[p], TapMark) !in holds;
    assert multiset(RowCodes(row, letters)) == multiset(taps) + multiset(caps) + multiset(holds);
  }

  lemma {:induction false} RowCapCount(row: Row, letters: string, p: nat)
    requires Fits(row, |letters|) && Distinct(letters) && p < |letters|
    ensures multiset(RowCodes(row, letters))[Code(letters[p], CapMark)] == row.caps[p]
  {
    var taps, caps, holds := TapCodes(row, letters, 0), CapCodes(row, letters, 0), HoldCodes(row, letters, 0);
    CapCount(row, letters, 0, p);
    assert Code(letters[p], CapMark) !in taps && Code(letters[p], CapMark) !in holds;
    assert multiset(RowCodes(row, letters)) == multiset(taps) + multiset(caps) + multiset(holds);
  }

  lemma {:induction false} RowHoldCount(row: Row, letters: string, p: nat, m: Mark)
    requires Fits(row, |letters|) && Distinct(letters) && p < |letters|
    requires m == HoldMark || m == TailMark
    ensures multiset(RowCodes(row, letters))[Code(letters[p], m)] ==
              if (if m == HoldMark then Interior(row, p) else Ends(row, p)) then 1 else 0
  {
    var taps, caps, holds := TapCodes(row, letters, 0), CapCodes(row, letters, 0), HoldCodes(row, letters, 0);
    HoldCount(row, letters, 0, p, m);
    assert Code(letters[p], m) !in taps && Code(letters[p], m) !in caps;
    assert multiset(RowCodes(row, letters)) == multiset(taps) + multiset(caps) + multiset(holds);
  }

  /** The codes of a row record exactly its taps and caps per panel, and whether a hold runs
      through or ends on each panel. */
  lemma {:induction false} RowCodesCount(row: Row, letters: string, p: nat)
    requires Fits(row, |letters|) && Distinct(letters) && p < |letters|
    ensures multiset(RowCodes(row, letters))[Code(letters[p], TapMark)] == row.taps[p]
    ensures multiset(RowCodes(row, letters))[Code(letters[p], CapMark)] == row.caps[p]
    ensures multiset(RowCodes(row, letters))[Code(letters[p], HoldMark)] == if Interior(row, p) then 1 else 0
    ensures multiset(RowCodes(row, letters))[Code(letters[p], TailMark)] == if Ends(row, p) then 1 else 0
  {
    RowTapCount(row, letters, p);
    RowCapCount(row, letters, p);
    RowHoldCount(row, letters, p, HoldMark);
    RowHoldCount(row, letters, p, TailMark);
  }

  /** A row is written exactly when its codes say more than "a hold runs through here". */
  lemma {:induction false} SelectedIffCodes(row: Row, letters: string)
    requires Fits(row, |letters|) && Distinct(letters)
    ensures Selected(row, |letters|) <==> exists c :: c in RowCodes(row, letters) && c.mark != HoldMark
  {
    if Selected(row, |letters|) {
      var p :| 0 <= p < |letters| && (row.taps[p] > 0 || row.caps[p] > 0 || Ends(row, p));
      RowCodesCount(row, letters, p);
      if row.taps[p] > 0 {
        assert Code(letters[p], TapMark) in multiset(RowCodes(row, letters));
      } else if row.caps[p] > 0 {
        assert Code(letters[p], CapMark) in multiset(RowCodes(row, letters));
      } else {
        assert Code(letters[p], TailMark) in multiset(RowCodes(row, letters));
      }
    } else {
      forall c | c in RowCodes(row, letters) ensures c.mark == HoldMark {
        var taps, caps, holds := TapCodes(row, letters, 0), CapCodes(row, letters, 0), HoldCodes(row, letters, 0);
        assert c in taps || c in caps || c in holds;
        if c in taps {
          TapOrigin(row, letters, 0, c);
        } else if c in caps {
          CapOrigin(row, letters, 0, c);
        } else {
          HoldOrigin(row, letters, 0, c);
        }
      }
    }
  }

  /** Each tap code comes from a tapped panel. */
  lemma {:induction false} TapOrigin(row: Row, letters: string, p: nat, c: Code)
    requires Fits(row, |letters|) && p <= |letters| && c in TapCodes(row, letters, p)
    ensures exists j :: p <= j < |letters| && c.panel == letters[j] && row.taps[j] > 0
    decreases |letters| - p
  {
    var here := Repeat(Code(letters[p], TapMark), row.taps[p]);
    if c !in here {
      TapOrigin(row, letters, p + 1, c);
    } else {
      assert here[0] == c;
    }
  }

  /** Each cap code comes from a capped panel. */
  lemma {:induction false} CapOrigin(row: Row, letters: string, p: nat, c: Code)
    requires Fits(row, |letters|) && p <= |letters| && c in CapCodes(row, letters, p)
    ensures exists j :: p <= j < |letters| && c.panel == letters[j] && row.caps[j] > 0
    decreases |letters| - p
  {
    var here := Repeat(Code(letters[p], CapMark), row.caps[p]);
    if c !in here {
      CapOrigin(row, letters, p + 1, c);
    } else {
      assert here[0] == c;
    }
  }

  /** Each hold code comes from a panel whose hold runs through or ends on the row. */
  lemma {:induction false} HoldOrigin(row: Row, letters: string, p: nat, c: Code)
    requires Fits(row, |letters|) && p <= |letters| && c in HoldCodes(row, letters, p)
    ensures exists j :: p <= j < |letters| && c.panel == letters[j]
                        && ((c.mark == HoldMark && Interior(row, j)) || (c.mark == TailMark && Ends(row, j)))
    decreases |letters| - p
  {
    if c !in HoldHead(row, letters, p) {
      HoldOrigin(row, letters, p + 1, c);
    }
  }

  // ---------------------------------------------------------------------------------------
  // The serialisation and a reader for it
  // ---------------------------------------------------------------------------------------

  /** Distinct upper-case panel letters. */
  predicate PanelLetters(letters: string)
  {
    Distinct(letters) && forall i :: 0 <= i < |letters| ==> IsUpper(letters[i])
  }

  lemma {:induction false} RowCodesWellFormed(row: Row, letters: string)
    requires Fits(row, |letters|) && PanelLetters(letters)
    ensures WellFormed(RowCodes(row, letters))
  {
    forall c | c in RowCodes(row, letters) ensures IsUpper(c.panel) {
      assert c in TapCodes(row, letters, 0) || c in CapCodes(row, letters, 0) || c in HoldCodes(row, letters, 0);
    }
  }

  /** The steps part of a row's token. */
  function Steps(row: Row, letters: string): (s: string)
    requires Fits(row, |letters|) && PanelLetters(letters)
    ensures forall c :: c in s ==> IsUpper(c) || IsLower(c) || c == '0' || c == '1'
  {
    RowCodesWellFormed(row, letters);
    Render(RowCodes(row, letters))
  }

  /** `<second>:<steps>`, the second as the number formatter `fmt` writes it. */
  function Token(row: Row, letters: string, fmt: real -> string): string
    requires Fits(row, |letters|) && PanelLetters(letters)
  {
    fmt(row.sec) + ":" + Steps(row, letters)
  }

  /** The tokens of the written rows, in row order. */
  function Tokens(rows: seq<Row>, letters: string, fmt: real -> string): (ts: seq<string>)
    requires PanelLetters(letters) && forall i :: 0 <= i < |rows| ==> Fits(rows[i], |letters|)
  {
    if rows == [] then []
    else (if Selected(rows[0], |letters|) then [Token(rows[0], letters, fmt)] else []) + Tokens(rows[1..], letters, fmt)
  }

  /** `serialize_steps`: an unknown chart kind or a row without the kind's panel columns fails
      as the column lookup does. */
  function Serialize(kind: char, rows: seq<Row>, fmt: real -> string): (r: Option<string>)
    ensures r.Some? <==> KindLetters(kind).Some? && forall i :: 0 <= i < |rows| ==> Fits(rows[i], |KindLetters(kind).value|)
  {
    var letters :- KindLetters(kind);
    if exists i :: 0 <= i < |rows| && !Fits(rows[i], |letters|) then None
    else Some(Join(Tokens(rows, letters, fmt), "-"))
  }

  /** A token read back: the text before the first colon, and the steps after it decoded. */
  datatype Entry = Entry(time: string, codes: Option<seq<Code>>)

  function ReadToken(tok: string): Entry
  {
    var parts := SplitOn(tok, ":");
    Entry(parts[0], if |parts| == 2 then Decode(parts[1]) else None)
  }

  /** A serialisation read back token by token. */
  function Read(s: string): seq<Entry>
  {
    if s == [] then []
    else
      var toks := SplitOn(s, "-");
      seq(|toks|, i requires 0 <= i < |toks| => ReadToken(toks[i]))
  }

  /** What reading back should give: the second and the codes of each written row. */
  function Written(rows: seq<Row>, letters: string, fmt: real -> string): seq<Entry>
    requires PanelLetters(letters) && forall i :: 0 <= i < |rows| ==> Fits(rows[i], |letters|)
  {
    if rows == [] then []
    else
      (if Selected(rows[0], |letters|) then [Entry(fmt(rows[0].sec), Some(RowCodes(rows[0], letters)))] else [])
      + Written(rows[1..], letters, fmt)
  }

  lemma {:induction false} ReadTokenOf(row: Row, letters: string, fmt: real -> string)
    requires Fits(row, |letters|) && PanelLetters(letters)
    requires ':' !in fmt(row.sec)
    ensures ReadToken(Token(row, letters, fmt)) == Entry(fmt(row.sec), Some(RowCodes(row, letters)))
  {
    var body := Steps(row, letters);
    SplitOnAfter(fmt(row.sec), ":", body);
    ContainsChar(body, ':');
    assert ':' !in body;
    SplitOnAbsent(body, ":");
    RowCodesWellFormed(row, letters);
    DecodeRender(RowCodes(row, letters));
  }

  /** Tokens that split cleanly on hyphens and read back as the given entries. */
  predicate ReadsBack(toks: seq<string>, es: seq<Entry>)
  {
    |toks| == |es| && forall i :: 0 <= i < |toks| ==> '-' !in toks[i] && ':' in toks[i] && ReadToken(toks[i]) == es[i]
  }

  lemma ReadsBackCons(tok: string, e: Entry, toks: seq<string>, es: seq<Entry>)
    requires ReadsBack(toks, es) && '-' !in tok && ':' in tok && ReadToken(tok) == e
    ensures ReadsBack([tok] + toks, [e] + es)
  {
    forall i | 1 <= i < |toks| + 1 ensures ([tok] + toks)[i] == toks[i - 1] && ([e] + es)[i] == es[i - 1] { }
  }

  lemma TokenShape(row: Row, letters: string, fmt: real -> string)
    requires Fits(row, |letters|) && PanelLetters(letters) && '-' !in fmt(row.sec)
    ensures '-' !in Token(row, letters, fmt) && ':' in Token(row, letters, fmt)
  {
    assert Token(row, letters, fmt)[|fmt(row.sec)|] == ':';
  }

  lemma {:induction false} TokensRead(rows: seq<Row>, letters: string, fmt: real -> string)
    requires PanelLetters(letters) && forall i :: 0 <= i < |rows| ==> Fits(rows[i], |letters|)
    requires forall i :: 0 <= i < |rows| ==> '-' !in fmt(rows[i].sec) && ':' !in fmt(rows[i].sec)
    ensures ReadsBack(Tokens(rows, letters, fmt), Written(rows, letters, fmt))
  {
    if rows != [] {
      var row := rows[0];
      assert forall i :: 1 <= i < |rows| ==> rows[1..][i - 1] == rows[i];
      var toks, ws := Tokens(rows[1..], letters, fmt), Written(rows[1..], letters, fmt);
      TokensRead(rows[1..], letters, fmt);
      if Selected(row, |letters|) {
        var tok := Token(row, letters, fmt);
        ReadTokenOf(row, letters, fmt);
        TokenShape(row, letters, fmt);
        ReadsBackCons(tok, Entry(fmt(row.sec), Some(RowCodes(row, letters))), toks, ws);
      }
    }
  }

  /** Reading a serialisation back gives, for every written row in order, its second as
      formatted and exactly its codes, provided the formatted seconds hold no hyphen or colon. */
  lemma {:induction false} SerializeRead(kind: char, rows: seq<Row>, fmt: real -> string)
    requires Serialize(kind, rows, fmt).Some?
    requires forall i :: 0 <= i < |rows| ==> '-' !in fmt(rows[i].sec) && ':' !in fmt(rows[i].sec)
    ensures Read(Serialize(kind, rows, fmt).value) == Written(rows, KindLetters(kind).value, fmt)
  {
    var letters := KindLetters(kind).value;
    var toks := Tokens(rows, letters, fmt);
    var s := Serialize(kind, rows, fmt).value;
    assert s == Join(toks, "-");
    TokensRead(rows, letters, fmt);
    if toks != [] {
      SplitOnJoin(toks, "-");
    }
  }
}
