/** The .ssc document parser: comment removal, the split into a global header and per-chart
    sections, `#KEY:VALUE;` attribute records, the notes block of each chart and the timing
    keys a chart inherits from the global header. Reading the file is not modelled: the
    document arrives as the list of its lines, each still ending in its newline. */
module Ssc {
  import opened Wrappers
  import opened Text

  /** The exceptions the parser can raise. */
  datatype ParseError =
    | MissingTitle              // no `#TITLE` in the global header: the failing assert's message
                                //   reads the never-set `file_path` attribute (AttributeError)
    | MissingStepType           // a chart section without `#STEPSTYPE`: AttributeError, likewise
    | UnboundRecord             // a record without `:` before any record with one (UnboundLocalError)
    | EmptyKey                  // a record whose key is empty (IndexError on `key[0]`)
    | UnterminatedNotes         // a notes block without `;` (ValueError from `index`)
    | MissingGlobal(key: string) // a timing key absent from the global header (KeyError)

  type Attributes = map<string, string>

  datatype Sections = Sections(header: string, charts: seq<string>)
  datatype ParsedChart = ParsedChart(attributes: Attributes, notes: string)
  datatype Document = Document(globals: Attributes, charts: seq<ParsedChart>)

  const NoteDataDelim := "#NOTEDATA:;"
  const NotesDelim := "#NOTES:"

  /** Private stand-ins for `\:` and `\#` while records are cut apart (U+03FF and U+03FE). */
  const ColonSentinel: char := '\U{03FF}'
  const HashSentinel: char := '\U{03FE}'

  /** The timing keys a chart takes from the global header when it has none of its own. */
  const InheritedKeys: seq<string> := ["BPMS", "TICKCOUNTS", "SPEEDS", "SCROLLS", "OFFSET"]

  /** `re.match("[=<>/]", line)`: a comment line starts with one of `= < > /`. */
  predicate IsCommentLine(line: string)
  {
    |line| > 0 && line[0] in "=<>/"
  }

  /** The lines that are not comment lines, in their original order. */
  function DropComments(lines: seq<string>): (r: seq<string>)
    ensures |r| <= |lines|
    ensures forall i :: 0 <= i < |r| ==> !IsCommentLine(r[i])
    ensures forall l :: l in r <==> l in lines && !IsCommentLine(l)
  {
    if lines == [] then []
    else if IsCommentLine(lines[0]) then DropComments(lines[1..])
    else [lines[0]] + DropComments(lines[1..])
  }

  /** Every kept line keeps its multiplicity. */
  lemma {:induction false} DropCommentsCount(lines: seq<string>, l: string)
    ensures multiset(DropComments(lines))[l] == if IsCommentLine(l) then 0 else multiset(lines)[l]
    decreases |lines|
  {
    if lines != [] {
      var tail := lines[1..];
      DropCommentsCount(tail, l);
      DropCommentsStep(lines, tail);
    }
  }

  /** One step of comment removal, counted as multisets. */
  lemma DropCommentsStep(lines: seq<string>, tail: seq<string>)
    requires lines != [] && tail == lines[1..]
    ensures multiset(lines) == multiset{lines[0]} + multiset(tail)
    ensures multiset(DropComments(lines))
            == (if IsCommentLine(lines[0]) then multiset{} else multiset{lines[0]}) + multiset(DropComments(tail))
  {
    assert lines == [lines[0]] + tail;
  }

  /** Comment removal keeps the order of the lines: it works line by line and distributes over
      concatenation. */
  lemma {:induction false} DropCommentsConcat(a: seq<string>, b: seq<string>)
    ensures DropComments(a + b) == DropComments(a) + DropComments(b)
    decreases |a|
  {
    if a != [] {
      DropCommentsConcat(a[1..], b);
      var ab := a + b;
      assert ab[0] == a[0] && ab[1..] == a[1..] + b;
      if IsCommentLine(a[0]) {
        assert DropComments(ab) == DropComments(a[1..] + b);
        assert DropComments(a) == DropComments(a[1..]);
      } else {
        assert DropComments(ab) == [a[0]] + DropComments(a[1..] + b);
        assert DropComments(a) == [a[0]] + DropComments(a[1..]);
      }
    } else {
      assert a + b == b;
    }
  }

  /** A single line is kept exactly when it is not a comment. */
  lemma DropCommentsOne(l: string)
    ensures DropComments([l]) == if IsCommentLine(l) then [] else [l]
  {
    assert [l][1..] == [];
  }

  /** The document text after comment removal, as `"\n".join(lines)` builds it. */
  function DocumentText(lines: seq<string>): string
  {
    Join(DropComments(lines), "\n")
  }

  /** `parse_sections`: section 0 is the global header, the rest are the chart sections. */
  function ParseSections(lines: seq<string>): (r: Result<Sections, ParseError>)
    ensures var parts := SplitOn(DocumentText(lines), NoteDataDelim);
      && (r == Err(MissingTitle) <==> !Contains(parts[0], "#TITLE"))
      && (r == Err(MissingStepType) <==>
            Contains(parts[0], "#TITLE")
            && exists i :: 1 <= i < |parts| && !Contains(parts[i], "#STEPSTYPE"))
      && (r.Ok? ==> |r.value.charts| == |parts| - 1
                    && Join([r.value.header] + r.value.charts, NoteDataDelim) == DocumentText(lines)
                    && forall i :: 0 <= i < |r.value.charts| ==>
                         !Contains(r.value.charts[i], NoteDataDelim)
                         && Contains(r.value.charts[i], "#STEPSTYPE"))
  {
    var parts := SplitOn(DocumentText(lines), NoteDataDelim);
    JoinSplitOn(DocumentText(lines), NoteDataDelim);
    if !Contains(parts[0], "#TITLE") then Err(MissingTitle)
    else if exists i :: 1 <= i < |parts| && !Contains(parts[i], "#STEPSTYPE") then Err(MissingStepType)
    else
      assert [parts[0]] + parts[1..] == parts;
      Ok(Sections(parts[0], parts[1..]))
  }

  /** The records of a header: newlines removed, a `;` put before every `#`, doubled `;`
      collapsed, the leading character dropped, escapes protected, then a split on `;`.
      The `\#` escape can never be seen here, since every `#` was already preceded by `;`. */
  function Records(header: string): seq<string>
  {
    var h1 := Delete(header, '\n');
    var h2 := Replace(h1, "#", ";#");
    var h3 := Replace(h2, ";;", ";");
    var h4 := if h3 == [] then h3 else h3[1..];
    var h5 := Replace(h4, "\\:", [ColonSentinel]);
    var h6 := Replace(h5, "\\#", [HashSentinel]);
    SplitOn(h6, ";")
  }

  /** The sentinels turned back into the characters they protect. */
  function Restore(v: string): string
  {
    Replace(Replace(v, [ColonSentinel], ":"), [HashSentinel], "#")
  }

  /** The key and value a record splits into: the text before `//`, cut at its first two `:`. */
  function SplitRecord(rec: string): Option<(string, string)>
  {
    var kv := SplitOn(rec, "//")[0];
    if Contains(kv, ":") then
      var ps := SplitOn(kv, ":");
      Some((ps[0], ps[1]))
    else None
  }

  /** What the loop body does to its `key, val` locals: a key that starts with `#` loses
      that character and its value gets its escapes restored, in place. */
  function Settle(kv: (string, string)): (string, string)
  {
    if kv.0 != [] && kv.0[0] == '#' then (kv.0[1..], Restore(kv.1)) else kv
  }

  /** The loop's `key, val` locals after a run of records. A non-empty record with a `:`
      rebinds them, one without reuses them as the previous record left them, and either
      way the body then settles them. */
  function Locals(recs: seq<string>): Option<(string, string)>
    decreases |recs|
  {
    if recs == [] then None
    else
      var prior := Locals(recs[..|recs| - 1]);
      var last := recs[|recs| - 1];
      if last == [] then prior
      else
        var kv := if SplitRecord(last).Some? then SplitRecord(last) else prior;
        if kv.None? then None else Some(Settle(kv.value))
  }

  /** What the loop body stores for one record, given the locals it inherits. */
  function Entry(rec: string, prior: Option<(string, string)>): Result<Option<(string, string)>, ParseError>
  {
    if rec == [] then Ok(None)
    else
      var kv := if SplitRecord(rec).Some? then SplitRecord(rec) else prior;
      if kv.None? then Err(UnboundRecord)
      else if kv.value.0 == [] then Err(EmptyKey)
      else if kv.value.0[0] == '#' then Ok(Some(Settle(kv.value)))
      else Ok(None)
  }

  /** A record without a `:` right after one that stored a key: the reused key has already
      lost its `#`, so unless the stored key itself starts with `#` the record stores nothing. */
  lemma StaleRecordStoresNothing(recs: seq<string>, i: nat)
    requires i + 1 < |recs| && recs[i + 1] != [] && SplitRecord(recs[i + 1]).None?
    requires EntryAt(recs, i).Ok? && EntryAt(recs, i).value.Some?
    requires EntryAt(recs, i).value.value.0 != [] && EntryAt(recs, i).value.value.0[0] != '#'
    ensures EntryAt(recs, i + 1) == Ok(None)
  {
    assert recs[..i + 1][..i] == recs[..i];
  }

  /** The entry of record `i` of a run, with the locals the records before it leave. */
  function EntryAt(recs: seq<string>, i: nat): Result<Option<(string, string)>, ParseError>
    requires i < |recs|
  {
    Entry(recs[i], Locals(recs[..i]))
  }

  /** The entries of a run of records, one per record. */
  function Entries(recs: seq<string>): (es: seq<Result<Option<(string, string)>, ParseError>>)
    ensures |es| == |recs|
    decreases |recs|
  {
    if recs == [] then [] else Entries(recs[..|recs| - 1]) + [EntryAt(recs, |recs| - 1)]
  }

  /** The records before position `n` leave the same entries as the whole run. */
  lemma {:induction false} EntryAtPrefix(recs: seq<string>, n: nat, i: nat)
    requires i < n <= |recs|
    ensures EntryAt(recs[..n], i) == EntryAt(recs, i)
  {
    assert recs[..n][..i] == recs[..i];
  }

  /** Entry `i` is record `i` read with the locals the records before it leave. */
  lemma {:induction false} EntriesAt(recs: seq<string>, i: nat)
    requires i < |recs|
    ensures Entries(recs)[i] == EntryAt(recs, i)
    decreases |recs|
  {
    var n := |recs| - 1;
    if i < n {
      EntriesAt(recs[..n], i);
      EntryAtPrefix(recs, n, i);
    }
  }

  /** The attribute map the loop builds from its entries: each overwrites the key it stores,
      and the first failing entry fails the whole header. */
  function Store(es: seq<Result<Option<(string, string)>, ParseError>>): Result<Attributes, ParseError>
    decreases |es|
  {
    if es == [] then Ok(map[])
    else
      var n := |es| - 1;
      var atts :- Store(es[..n]);
      var e :- es[n];
      if e.Some? then Ok(atts[e.value.0 := e.value.1]) else Ok(atts)
  }

  /** `parse_attributes`. */
  function ParseAttributes(header: string): Result<Attributes, ParseError>
  {
    Store(Entries(Records(header)))
  }

  /** The entry stores `key`. */
  predicate StoresKey(e: Result<Option<(string, string)>, ParseError>, key: string)
  {
    e.Ok? && e.value.Some? && e.value.value.0 == key
  }

  /** Parsing fails exactly when some entry fails, and then with the first failure. */
  lemma {:induction false} StoreFails(es: seq<Result<Option<(string, string)>, ParseError>>)
    ensures Store(es).Ok? <==> forall i :: 0 <= i < |es| ==> es[i].Ok?
    ensures Store(es).Err? ==> exists i :: 0 <= i < |es| && es[i] == Err(Store(es).error)
                                          && forall j :: 0 <= j < i ==> es[j].Ok?
    decreases |es|
  {
    if es != [] {
      var n := |es| - 1;
      StoreFails(es[..n]);
      assert forall i :: 0 <= i < n ==> es[..n][i] == es[i];
    }
  }

  /** When a key is stored more than once the last entry that stores it wins. */
  lemma {:induction false} LaterRecordWins(es: seq<Result<Option<(string, string)>, ParseError>>, i: nat, key: string, val: string)
    requires Store(es).Ok?
    requires i < |es| && es[i] == Ok(Some((key, val)))
    requires forall j :: i < j < |es| ==> !StoresKey(es[j], key)
    ensures key in Store(es).value && Store(es).value[key] == val
    decreases |es|
  {
    var n := |es| - 1;
    if i < n {
      assert es[..n][i] == es[i];
      assert forall j :: i < j < n ==> es[..n][j] == es[j];
      LaterRecordWins(es[..n], i, key, val);
      assert !StoresKey(es[n], key);
    }
  }

  /** Every stored key was stored by some entry. */
  lemma {:induction false} StoredKeysComeFromRecords(es: seq<Result<Option<(string, string)>, ParseError>>, key: string)
    requires Store(es).Ok? && key in Store(es).value
    ensures exists i :: 0 <= i < |es| && StoresKey(es[i], key)
    decreases |es|
  {
    var n := |es| - 1;
    if !StoresKey(es[n], key) {
      StoredKeysComeFromRecords(es[..n], key);
      var i :| 0 <= i < n && StoresKey(es[..n][i], key);
      assert es[..n][i] == es[i];
    }
  }


  /** Text free of every character the attribute syntax treats specially. */
  predicate Plain(s: string)
  {
    forall c :: c in s ==> c !in "\n#;:/\\" && c != ColonSentinel && c != HashSentinel
  }

  /** A character that no piece holds is absent from the pieces joined by a separator free of it. */
  lemma {:induction false} PlainJoinAbsent(pieces: seq<string>, sep: string, c: char)
    requires forall i :: 0 <= i < |pieces| ==> Plain(pieces[i])
    requires c in "\n#;:/\\" || c == ColonSentinel || c == HashSentinel
    requires c !in sep
    ensures c !in Join(pieces, sep)
  {
    JoinAbsent(pieces, sep, c);
  }

  /** A header that is one record with no newline, `#` or `;` in its body passes the
      record-boundary rewriting unchanged. */
  lemma {:induction false} BoundaryRewriteKeeps(rest: string)
    requires '\n' !in rest && '#' !in rest && ';' !in rest
    ensures var h := "#" + rest;
      var h3 := Replace(Replace(Delete(h, '\n'), "#", ";#"), ";;", ";");
      h3 != [] && h3[1..] == h
  {
    var header := "#" + rest;
    assert Delete(header, '\n') == header;
    NotContainsFirst(rest, "#");
    SplitOnAbsent(rest, "#");
    SplitOnAfter("", "#", rest);
    assert "" + "#" + rest == header;
    var cut := SplitOn(header, "#");
    assert cut == ["", rest];
    assert cut[1..] == [rest];
    assert Join(cut, ";#") == "" + ";#" + rest;
    var h2 := Replace(header, "#", ";#");
    assert h2 == ";#" + rest;
    NotContainsFirst(rest, ";;");
    assert (";#" + rest)[1..] == "#" + rest;
    assert ("#" + rest)[1..] == rest;
    assert !Contains(";#" + rest, ";;");
    ReplaceAbsent(h2, ";;", ";");
  }

  /** Every escaped colon of a one-record header becomes the colon sentinel. */
  lemma {:induction false} ProtectEscapes(key: string, pieces: seq<string>)
    requires Plain(key)
    requires |pieces| >= 1 && forall i :: 0 <= i < |pieces| ==> Plain(pieces[i])
    ensures Replace("#" + key + ":" + Join(pieces, "\\:"), "\\:", [ColonSentinel])
            == "#" + key + ":" + Join(pieces, [ColonSentinel])
  {
    var pre := "#" + key + ":";
    forall i | 0 <= i < |pieces| ensures '\\' !in pieces[i] {
      assert Plain(pieces[i]);
    }
    ReplaceJoin(pre, pieces, "\\:", [ColonSentinel]);
    assert "#" + key + ":" + Join(pieces, "\\:") == pre + Join(pieces, "\\:");
    assert "#" + key + ":" + Join(pieces, [ColonSentinel]) == pre + Join(pieces, [ColonSentinel]);
  }

  /** The records of a one-record header with escaped colons. */
  lemma {:induction false} EscapedRecords(key: string, pieces: seq<string>)
    requires Plain(key)
    requires |pieces| >= 1 && forall i :: 0 <= i < |pieces| ==> Plain(pieces[i])
    ensures Records("#" + key + ":" + Join(pieces, "\\:"))
            == ["#" + key + ":" + Join(pieces, [ColonSentinel])]
  {
    var rest := key + ":" + Join(pieces, "\\:");
    var header := "#" + rest;
    assert header == "#" + key + ":" + Join(pieces, "\\:");
    PlainJoinAbsent(pieces, "\\:", '\n');
    PlainJoinAbsent(pieces, "\\:", '#');
    PlainJoinAbsent(pieces, "\\:", ';');
    BoundaryRewriteKeeps(rest);
    ProtectEscapes(key, pieces);
    var w := Join(pieces, [ColonSentinel]);
    var h5 := "#" + key + ":" + w;
    PlainJoinAbsent(pieces, [ColonSentinel], '\\');
    PlainJoinAbsent(pieces, [ColonSentinel], ';');
    NotContainsFirst(h5, "\\#");
    ReplaceAbsent(h5, "\\#", [HashSentinel]);
    NotContainsFirst(h5, ";");
    SplitOnAbsent(h5, ";");
  }

  /** The protected record stores its key with the sentinels turned back into colons. */
  lemma {:induction false} EscapedEntry(key: string, pieces: seq<string>)
    requires Plain(key)
    requires |pieces| >= 1 && forall i :: 0 <= i < |pieces| ==> Plain(pieces[i])
    ensures Entry("#" + key + ":" + Join(pieces, [ColonSentinel]), None)
            == Ok(Some((key, Join(pieces, ":"))))
  {
    var w := Join(pieces, [ColonSentinel]);
    var h5 := "#" + key + ":" + w;
    PlainJoinAbsent(pieces, [ColonSentinel], '/');
    PlainJoinAbsent(pieces, [ColonSentinel], ':');
    NotContainsFirst(h5, "//");
    SplitOnAbsent(h5, "//");
    SplitOnAfter("#" + key, ":", w);
    assert h5 == ("#" + key) + ":" + w;
    NotContainsFirst(w, ":");
    SplitOnAbsent(w, ":");
    assert SplitRecord(h5) == Some(("#" + key, w));
    SplitOnJoin(pieces, [ColonSentinel]);
    PlainJoinAbsent(pieces, ":", HashSentinel);
    NotContainsFirst(Join(pieces, ":"), [HashSentinel]);
    ReplaceAbsent(Join(pieces, ":"), [HashSentinel], "#");
    assert Restore(w) == Join(pieces, ":");
    assert ("#" + key)[1..] == key;
  }

  /** A single record `#KEY:VALUE` whose value holds escaped colons `\:` stores KEY with the
      escapes turned back into plain colons; with one piece it is an ordinary record. */
  lemma {:induction false} EscapedColonsRestored(key: string, pieces: seq<string>)
    requires Plain(key)
    requires |pieces| >= 1 && forall i :: 0 <= i < |pieces| ==> Plain(pieces[i])
    ensures ParseAttributes("#" + key + ":" + Join(pieces, "\\:")) == Ok(map[key := Join(pieces, ":")])
  {
    var h5 := "#" + key + ":" + Join(pieces, [ColonSentinel]);
    var header := "#" + key + ":" + Join(pieces, "\\:");
    EscapedRecords(key, pieces);
    EscapedEntry(key, pieces);
    assert [h5][..0] == [];
    assert Locals([]) == None;
    var es := Entries([h5]);
    EntriesAt([h5], 0);
    assert es[0] == EntryAt([h5], 0) == Ok(Some((key, Join(pieces, ":"))));
    assert es[..0] == [];
    assert Store(es) == Ok(map[key := Join(pieces, ":")]);
  }

  /** The timing keys copied in from the global header: a chart's own value is kept, a missing
      one is taken from the header. Python evaluates `global_attributes[key]` before it looks at
      the chart, so a key missing from the header fails even when the chart has it. */
  function Inherit(atts: Attributes, globals: Attributes, keys: seq<string>): (r: Result<Attributes, ParseError>)
    ensures r.Ok? <==> forall i :: 0 <= i < |keys| ==> keys[i] in globals
    ensures r.Ok? ==> forall k :: k in r.value <==> k in atts || k in keys
    ensures r.Ok? ==> forall k :: k in r.value ==> r.value[k] == (if k in atts then atts[k] else globals[k])
    decreases |keys|
  {
    if keys == [] then Ok(atts)
    else if keys[0] !in globals then Err(MissingGlobal(keys[0]))
    else
      var k := keys[0];
      var r := Inherit(atts[k := if k in atts then atts[k] else globals[k]], globals, keys[1..]);
      assert forall j :: 1 <= j < |keys| ==> keys[j] == keys[1..][j - 1];
      r
  }

  /** A failed inheritance names the first key the header lacks. */
  lemma {:induction false} InheritFailsAtFirst(atts: Attributes, globals: Attributes, keys: seq<string>)
    requires Inherit(atts, globals, keys).Err?
    ensures exists i :: 0 <= i < |keys| && keys[i] !in globals
                        && Inherit(atts, globals, keys).error == MissingGlobal(keys[i])
                        && forall j :: 0 <= j < i ==> keys[j] in globals
    decreases |keys|
  {
    if keys[0] in globals {
      var k := keys[0];
      var next := atts[k := if k in atts then atts[k] else globals[k]];
      InheritFailsAtFirst(next, globals, keys[1..]);
      var i :| 0 <= i < |keys[1..]| && keys[1..][i] !in globals
               && Inherit(next, globals, keys[1..]).error == MissingGlobal(keys[1..][i])
               && forall j :: 0 <= j < i ==> keys[1..][j] in globals;
      assert keys[i + 1] == keys[1..][i];
      assert forall j :: 1 <= j < i + 1 ==> keys[j] == keys[1..][j - 1];
    }
  }

  /** One chart section: `None` when it has no `#NOTES:`, otherwise its attributes (with the
      inherited timing keys) and its notes block, cut at the first `;` and stripped. */
  function ParseChart(section: string, globals: Attributes): (r: Result<Option<ParsedChart>, ParseError>)
    ensures !Contains(section, NotesDelim) ==> r == Ok(None)
    ensures Contains(section, NotesDelim) ==> r != Ok(None)
    ensures r.Ok? && r.value.Some? ==>
      var c := r.value.value;
      && (forall i :: 0 <= i < |InheritedKeys| ==> InheritedKeys[i] in c.attributes)
      && NotesBlock(SplitOn(section, NotesDelim)[1]) == Ok(c.notes)
  {
    var parts := SplitOn(section, NotesDelim);
    if |parts| < 2 then Ok(None)
    else
      var atts :- ParseAttributes(parts[0]);
      var c :- ChartBody(atts, parts[1], globals);
      Ok(Some(c))
  }

  /** A chart from its parsed attributes and the text after `#NOTES:`: the notes block is
      read first, then the timing keys are inherited. */
  function ChartBody(atts: Attributes, tail: string, globals: Attributes): (r: Result<ParsedChart, ParseError>)
    ensures r.Ok? ==> forall i :: 0 <= i < |InheritedKeys| ==> InheritedKeys[i] in r.value.attributes
    ensures r.Ok? ==> NotesBlock(tail) == Ok(r.value.notes)
    ensures r.Ok? ==> forall i :: 0 <= i < |InheritedKeys| ==> InheritedKeys[i] in globals
  {
    var notes :- NotesBlock(tail);
    var inherited :- Inherit(atts, globals, InheritedKeys);
    InheritedHasKeys(atts, globals, InheritedKeys, inherited);
    Ok(ParsedChart(inherited, notes))
  }

  /** After a successful inheritance every key is present, both in the header and the result. */
  lemma InheritedHasKeys(atts: Attributes, globals: Attributes, keys: seq<string>, inherited: Attributes)
    requires Inherit(atts, globals, keys) == Ok(inherited)
    ensures forall i :: 0 <= i < |keys| ==> keys[i] in inherited && keys[i] in globals
  {
    forall i | 0 <= i < |keys| ensures keys[i] in inherited {
      assert keys[i] in keys;
    }
  }

  /** The notes of a chart: the text before the first `;`, stripped; an error when no `;` ends it. */
  function NotesBlock(text: string): (r: Result<string, ParseError>)
    ensures r.Err? <==> ';' !in text
    ensures r.Err? ==> r.error == UnterminatedNotes
    ensures r.Ok? ==> ';' !in r.value
  {
    match IndexOf(text, ';')
    case None => Err(UnterminatedNotes)
    case Some(end) =>
      StripFacts(text[..end]);
      Ok(Strip(text[..end]))
  }

  /** The notes block is the stripped text before the first `;`, and is itself stripped. */
  lemma NotesBlockShape(text: string)
    requires NotesBlock(text).Ok?
    ensures Strip(NotesBlock(text).value) == NotesBlock(text).value
    ensures exists block :: block + ";" <= text && ';' !in block && NotesBlock(text).value == Strip(block)
  {
    var end := IndexOf(text, ';').value;
    var block := text[..end];
    assert block + ";" <= text;
    StripIdempotent(block);
  }

  /** The sections that hold a notes block, in order. */
  function WithNotes(sections: seq<string>): (r: seq<string>)
    ensures |r| <= |sections|
  {
    if sections == [] then []
    else (if Contains(sections[0], NotesDelim) then [sections[0]] else []) + WithNotes(sections[1..])
  }

  /** The sections kept are exactly those holding `#NOTES:`. */
  lemma {:induction false} WithNotesMembers(sections: seq<string>)
    ensures forall s :: s in WithNotes(sections) <==> s in sections && Contains(s, NotesDelim)
    decreases |sections|
  {
    if sections != [] {
      WithNotesMembers(sections[1..]);
      assert sections == [sections[0]] + sections[1..];
    }
  }

  /** `parse_stepcharts`: the charts of the sections that hold notes, in section order. */
  function ParseStepcharts(sections: seq<string>, globals: Attributes): (r: Result<seq<ParsedChart>, ParseError>)
    ensures r.Ok? ==> |r.value| == |WithNotes(sections)|
    ensures r.Ok? ==> forall c :: c in r.value ==>
      (forall i :: 0 <= i < |InheritedKeys| ==> InheritedKeys[i] in c.attributes) && ';' !in c.notes
    decreases |sections|
  {
    if sections == [] then Ok([])
    else
      var first :- ParseChart(sections[0], globals);
      var rest :- ParseStepcharts(sections[1..], globals);
      assert WithNotes(sections) == (if Contains(sections[0], NotesDelim) then [sections[0]] else [])
                                    + WithNotes(sections[1..]);
      match first
      case None => Ok(rest)
      case Some(c) => Ok([c] + rest)
  }

  /** The result of parsing one section: `None` for a section without notes. */
  type SectionResult = Result<Option<ParsedChart>, ParseError>

  /** The loop of `parse_stepcharts` over any per-section parser. */
  function Gather(parse: string -> SectionResult, sections: seq<string>): Result<seq<ParsedChart>, ParseError>
    decreases |sections|
  {
    if sections == [] then Ok([])
    else
      var first :- parse(sections[0]);
      var rest :- Gather(parse, sections[1..]);
      match first
      case None => Ok(rest)
      case Some(c) => Ok([c] + rest)
  }

  lemma {:induction false} GatherIsParse(sections: seq<string>, globals: Attributes)
    ensures ParseStepcharts(sections, globals) == Gather(x => ParseChart(x, globals), sections)
    decreases |sections|
  {
    if sections != [] {
      GatherIsParse(sections[1..], globals);
    }
  }

  /** The parser yields a chart exactly for the sections holding `#NOTES:`. */
  ghost predicate ChartsForNotes(parse: string -> SectionResult)
  {
    forall s :: parse(s).Ok? ==> (parse(s).value.Some? <==> Contains(s, NotesDelim))
  }

  /** Chart `k` is what the `k`-th section holding `#NOTES:` parses to. */
  ghost predicate ChartsOfNotes(parse: string -> SectionResult, sections: seq<string>, charts: seq<ParsedChart>)
  {
    var notes := WithNotes(sections);
    |charts| == |notes| && forall k :: 0 <= k < |notes| ==> parse(notes[k]) == Ok(Some(charts[k]))
  }

  lemma {:induction false} GatherOk(parse: string -> SectionResult, sections: seq<string>)
    ensures Gather(parse, sections).Ok? <==> forall i :: 0 <= i < |sections| ==> parse(sections[i]).Ok?
    decreases |sections|
  {
    if sections != [] {
      GatherOk(parse, sections[1..]);
      assert forall i :: 1 <= i < |sections| ==> sections[i] == sections[1..][i - 1];
    }
  }

  lemma {:induction false} GatherCharts(parse: string -> SectionResult, sections: seq<string>)
    requires ChartsForNotes(parse) && Gather(parse, sections).Ok?
    ensures ChartsOfNotes(parse, sections, Gather(parse, sections).value)
    decreases |sections|
  {
    if sections != [] {
      var rest := sections[1..];
      GatherCharts(parse, rest);
      var first := parse(sections[0]).value;
      var r, tail := Gather(parse, sections).value, Gather(parse, rest).value;
      var notes, later := WithNotes(sections), WithNotes(rest);
      if first.Some? {
        assert Contains(sections[0], NotesDelim);
        assert r == [first.value] + tail && notes == [sections[0]] + later;
        forall k | 0 < k < |notes| ensures parse(notes[k]) == Ok(Some(r[k])) {
          assert notes[k] == later[k - 1] && r[k] == tail[k - 1];
        }
      } else {
        assert !Contains(sections[0], NotesDelim);
        assert notes == later && r == tail;
      }
    }
  }

  lemma {:induction false} GatherFails(parse: string -> SectionResult, sections: seq<string>)
    requires Gather(parse, sections).Err?
    ensures exists i :: 0 <= i < |sections| && parse(sections[i]) == Err(Gather(parse, sections).error)
                        && forall j :: 0 <= j < i ==> parse(sections[j]).Ok?
    decreases |sections|
  {
    var rest := sections[1..];
    var e := Gather(parse, sections).error;
    if parse(sections[0]).Ok? {
      GatherFails(parse, rest);
      var i :| 0 <= i < |rest| && parse(rest[i]) == Err(e) && forall j :: 0 <= j < i ==> parse(rest[j]).Ok?;
      assert sections[i + 1] == rest[i];
      assert forall j :: 1 <= j < i + 1 ==> sections[j] == rest[j - 1];
    }
  }

  /**
   * The charts of `parse_stepcharts` are those of the sections holding `#NOTES:`, one each and
   * in order; it fails exactly when some section fails, and then with the first one's error.
   */
  lemma ParseStepchartsCharts(sections: seq<string>, globals: Attributes)
    ensures var r := ParseStepcharts(sections, globals);
            r.Ok? <==> forall i :: 0 <= i < |sections| ==> ParseChart(sections[i], globals).Ok?
    ensures var r, notes := ParseStepcharts(sections, globals), WithNotes(sections);
            r.Ok? ==> |r.value| == |notes|
                      && forall k :: 0 <= k < |notes| ==> ParseChart(notes[k], globals) == Ok(Some(r.value[k]))
    ensures var r := ParseStepcharts(sections, globals);
            r.Err? ==> exists i :: 0 <= i < |sections| && ParseChart(sections[i], globals) == Err(r.error)
                                   && forall j :: 0 <= j < i ==> ParseChart(sections[j], globals).Ok?
  {
    var parse := x => ParseChart(x, globals);
    GatherIsParse(sections, globals);
    GatherOk(parse, sections);
    if ParseStepcharts(sections, globals).Ok? {
      assert ChartsForNotes(parse) by {
        forall s | parse(s).Ok? ensures parse(s).value.Some? <==> Contains(s, NotesDelim) { }
      }
      GatherCharts(parse, sections);
    } else {
      GatherFails(parse, sections);
    }
  }

  /** The composition the file constructor performs: sections, global attributes, charts. */
  function ParseDocument(lines: seq<string>): (r: Result<Document, ParseError>)
    ensures r.Ok? ==> ParseSections(lines).Ok?
    ensures r.Ok? ==> forall c :: c in r.value.charts ==>
      forall i :: 0 <= i < |InheritedKeys| ==> InheritedKeys[i] in c.attributes && InheritedKeys[i] in r.value.globals
    ensures ParseSections(lines).Err? ==> r.Err? && r.error == ParseSections(lines).error
  {
    var sections :- ParseSections(lines);
    var globals :- ParseAttributes(sections.header);
    var charts :- ParseStepcharts(sections.charts, globals);
    assert forall c :: c in charts ==> forall i :: 0 <= i < |InheritedKeys| ==> InheritedKeys[i] in globals by {
      if charts != [] {
        InheritNeedsGlobals(sections.charts, globals);
      }
    }
    Ok(Document(globals, charts))
  }

  /** Any chart that parses proves the global header holds every inherited key. */
  lemma {:induction false} InheritNeedsGlobals(sections: seq<string>, globals: Attributes)
    requires ParseStepcharts(sections, globals).Ok? && |ParseStepcharts(sections, globals).value| > 0
    ensures forall i :: 0 <= i < |InheritedKeys| ==> InheritedKeys[i] in globals
    decreases |sections|
  {
    var first := ParseChart(sections[0], globals);
    if first.value.None? {
      InheritNeedsGlobals(sections[1..], globals);
    } else {
      var parts := SplitOn(sections[0], NotesDelim);
      assert ChartBody(ParseAttributes(parts[0]).value, parts[1], globals).Ok?;
    }
  }
}
