/** The Python string operations the chart parser is built from, on `string` (a `seq<char>`).
    `SplitOn` is `str.split` with a non-empty separator, `Replace` is `str.replace`,
    `Strip` is `str.strip()` with no argument and `Lines` is `re.split('\n+', text.strip())`. */
module Text {
  import opened Wrappers

  /** Python's `sub in s`. */
  predicate Contains(s: string, sub: string)
    decreases |s|
  {
    sub <= s || (|s| > 0 && Contains(s[1..], sub))
  }

  /** For a one-character string, `Contains` is membership. */
  lemma {:induction false} ContainsChar(s: string, c: char)
    ensures Contains(s, [c]) <==> c in s
    decreases |s|
  {
    if |s| > 0 {
      ContainsChar(s[1..], c);
      assert s == [s[0]] + s[1..];
    }
  }

  /** Python's `s.split(sep)`: cut at the leftmost occurrence of `sep`, then carry on after it. */
  function SplitOn(s: string, sep: string): (parts: seq<string>)
    requires |sep| > 0
    ensures |parts| >= 1
    ensures |parts| >= 2 <==> Contains(s, sep)
    ensures parts[0] <= s
    ensures forall i :: 0 <= i < |parts| ==> !Contains(parts[i], sep)
    decreases |s|
  {
    if sep <= s then [""] + SplitOn(s[|sep|..], sep)
    else if s == [] then [[]]
    else
      var rest := SplitOn(s[1..], sep);
      [[s[0]] + rest[0]] + rest[1..]
  }

  /** Python's `sep.join(parts)`. */
  function Join(parts: seq<string>, sep: string): string
  {
    if |parts| == 0 then ""
    else if |parts| == 1 then parts[0]
    else parts[0] + sep + Join(parts[1..], sep)
  }

  /** Python's `s.replace(pat, repl)` for a non-empty `pat`. */
  function Replace(s: string, pat: string, repl: string): string
    requires |pat| > 0
  {
    Join(SplitOn(s, pat), repl)
  }

  /** Joining the pieces of a split with the same separator gives the text back. */
  lemma {:induction false} JoinSplitOn(s: string, sep: string)
    requires |sep| > 0
    ensures Join(SplitOn(s, sep), sep) == s
    decreases |s|
  {
    if sep <= s {
      JoinSplitOn(s[|sep|..], sep);
      JoinAfterSep(s, sep);
      assert s == sep + s[|sep|..];
    } else if s != [] {
      JoinSplitOn(s[1..], sep);
      JoinAfterChar(s, sep);
      assert s == [s[0]] + s[1..];
    }
  }

  /** A text that starts with the separator joins back to the separator and what follows. */
  lemma JoinAfterSep(s: string, sep: string)
    requires |sep| > 0 && sep <= s
    ensures Join(SplitOn(s, sep), sep) == sep + Join(SplitOn(s[|sep|..], sep), sep)
  {
    var tail := SplitOn(s[|sep|..], sep);
    var parts := [""] + tail;
    assert SplitOn(s, sep) == parts;
    assert |tail| >= 1 && parts[0] == "" && parts[1..] == tail;
    assert Join(parts, sep) == parts[0] + sep + Join(tail, sep);
    assert parts[0] + sep == sep;
  }

  /** A text that does not start with the separator joins back to its first character and what follows. */
  lemma JoinAfterChar(s: string, sep: string)
    requires |sep| > 0 && !(sep <= s) && s != []
    ensures Join(SplitOn(s, sep), sep) == [s[0]] + Join(SplitOn(s[1..], sep), sep)
  {
    var rest := SplitOn(s[1..], sep);
    assert SplitOn(s, sep) == [[s[0]] + rest[0]] + rest[1..];
    JoinConsFirst(s[0], rest, sep);
  }

  /** Putting a character in front of the first piece puts it in front of the joined text. */
  lemma JoinConsFirst(c: char, parts: seq<string>, sep: string)
    requires |parts| >= 1
    ensures Join([[c] + parts[0]] + parts[1..], sep) == [c] + Join(parts, sep)
  {
    var p := [[c] + parts[0]] + parts[1..];
    if |parts| > 1 {
      assert p[1..] == parts[1..];
    }
  }

  /** A text in which the separator never occurs is one piece. */
  lemma {:induction false} SplitOnAbsent(s: string, sep: string)
    requires |sep| > 0
    requires !Contains(s, sep)
    ensures SplitOn(s, sep) == [s]
    decreases |s|
  {
    assert !(sep <= s);
    if s != [] {
      assert !Contains(s[1..], sep);
      SplitOnAbsent(s[1..], sep);
      var rest := SplitOn(s[1..], sep);
      assert rest == [s[1..]];
      assert SplitOn(s, sep) == [[s[0]] + s[1..]];
      assert s == [s[0]] + s[1..];
    }
  }

  /** `Replace` leaves a text without `pat` unchanged. */
  lemma ReplaceAbsent(s: string, pat: string, repl: string)
    requires |pat| > 0
    requires !Contains(s, pat)
    ensures Replace(s, pat, repl) == s
  {
    SplitOnAbsent(s, pat);
  }

  /** A text that contains `sub` contains its first character. */
  lemma {:induction false} ContainsFirst(s: string, sub: string)
    requires |sub| > 0 && Contains(s, sub)
    ensures sub[0] in s
    decreases |s|
  {
    if !(sub <= s) {
      ContainsFirst(s[1..], sub);
    }
  }

  /** A text none of whose characters is `sub[0]` does not contain `sub`. */
  lemma NotContainsFirst(s: string, sub: string)
    requires |sub| > 0 && sub[0] !in s
    ensures !Contains(s, sub)
  {
    if Contains(s, sub) {
      ContainsFirst(s, sub);
    }
  }

  /** Splitting cuts after a first piece in which the separator's first character is absent. */
  lemma {:induction false} SplitOnAfter(p: string, sep: string, rest: string)
    requires |sep| > 0 && sep[0] !in p
    ensures SplitOn(p + sep + rest, sep) == [p] + SplitOn(rest, sep)
    decreases |p|
  {
    var s := p + sep + rest;
    if p == [] {
      assert s == sep + rest;
      assert s[|sep|..] == rest;
    } else {
      assert s[0] == p[0] && s[0] != sep[0];
      assert !(sep <= s);
      assert s[1..] == p[1..] + sep + rest;
      SplitOnAfter(p[1..], sep, rest);
      assert [p[0]] + p[1..] == p;
    }
  }

  /** Splitting undoes joining pieces in which the separator's first character is absent. */
  lemma {:induction false} SplitOnJoin(parts: seq<string>, sep: string)
    requires |parts| >= 1 && |sep| > 0
    requires forall i :: 0 <= i < |parts| ==> sep[0] !in parts[i]
    ensures SplitOn(Join(parts, sep), sep) == parts
    decreases |parts|
  {
    if |parts| == 1 {
      NotContainsFirst(parts[0], sep);
      SplitOnAbsent(parts[0], sep);
    } else {
      SplitOnJoin(parts[1..], sep);
      SplitOnAfter(parts[0], sep, Join(parts[1..], sep));
      assert [parts[0]] + parts[1..] == parts;
    }
  }

  /** Replacing a separator in a joined text whose pieces (and a leading prefix) are free of the
      separator's first character re-joins the pieces with the replacement. */
  lemma ReplaceJoin(pre: string, parts: seq<string>, sep: string, repl: string)
    requires |parts| >= 1 && |sep| > 0
    requires sep[0] !in pre
    requires forall i :: 0 <= i < |parts| ==> sep[0] !in parts[i]
    ensures Replace(pre + Join(parts, sep), sep, repl) == pre + Join(parts, repl)
  {
    var cut := [pre + parts[0]] + parts[1..];
    JoinPrefixFirst(pre, parts, sep);
    forall i | 0 <= i < |cut| ensures sep[0] !in cut[i] {
      if i > 0 {
        assert cut[i] == parts[i];
      }
    }
    SplitOnJoin(cut, sep);
    JoinPrefixFirst(pre, parts, repl);
  }

  /** A character absent from the separator and from every piece is absent from the join. */
  lemma {:induction false} JoinAbsent(parts: seq<string>, sep: string, c: char)
    requires c !in sep
    requires forall i :: 0 <= i < |parts| ==> c !in parts[i]
    ensures c !in Join(parts, sep)
    decreases |parts|
  {
    if |parts| > 1 {
      JoinAbsent(parts[1..], sep, c);
    }
  }

  /** Putting a text in front of the first piece puts it in front of the joined text. */
  lemma JoinPrefixFirst(pre: string, parts: seq<string>, sep: string)
    requires |parts| >= 1
    ensures Join([pre + parts[0]] + parts[1..], sep) == pre + Join(parts, sep)
  {
    var p := [pre + parts[0]] + parts[1..];
    if |parts| > 1 {
      assert p[1..] == parts[1..];
    }
  }

  /** Every character of every piece of a split is a character of the text. */
  lemma {:induction false} SplitOnKeepsAbsentChar(s: string, sep: string, x: char)
    requires |sep| > 0
    requires x !in s
    ensures forall i :: 0 <= i < |SplitOn(s, sep)| ==> x !in SplitOn(s, sep)[i]
    decreases |s|
  {
    if sep <= s {
      SplitOnKeepsAbsentChar(s[|sep|..], sep, x);
    } else if s != [] {
      SplitOnKeepsAbsentChar(s[1..], sep, x);
      var rest := SplitOn(s[1..], sep);
      assert x !in rest[0];
      assert x !in [s[0]] + rest[0];
    }
  }

  /** Replacing `pat` with a sentinel character that the text never uses, and then the
      sentinel with `repl`, is the same as replacing `pat` with `repl` directly. */
  lemma ReplaceThroughSentinel(s: string, pat: string, x: char, repl: string)
    requires |pat| > 0
    requires x !in s
    ensures Replace(Replace(s, pat, [x]), [x], repl) == Replace(s, pat, repl)
  {
    SplitOnKeepsAbsentChar(s, pat, x);
    SplitOnJoin(SplitOn(s, pat), [x]);
  }

  /** No piece of a split on one character contains that character. */
  lemma SplitOnCharPieces(s: string, c: char)
    ensures forall i :: 0 <= i < |SplitOn(s, [c])| ==> c !in SplitOn(s, [c])[i]
  {
    var parts := SplitOn(s, [c]);
    forall i | 0 <= i < |parts| ensures c !in parts[i] {
      ContainsChar(parts[i], c);
    }
  }

  /** Python's `c.isupper()` and `c.islower()` for an ASCII letter. */
  predicate IsUpper(c: char) { 'A' <= c <= 'Z' }

  predicate IsLower(c: char) { 'a' <= c <= 'z' }

  /** Python's `str.isspace` for one character: the characters `str.strip()` removes. */
  predicate IsSpace(c: char)
  {
    var n := c as int;
    n == 32 || 9 <= n <= 13 || 28 <= n <= 31 || n == 0x85 || n == 0xA0 || n == 0x1680
    || 0x2000 <= n <= 0x200A || n == 0x2028 || n == 0x2029 || n == 0x202F || n == 0x205F
    || n == 0x3000
  }

  /** Python's `s.lstrip()`. */
  function StripLeft(s: string): string
    decreases |s|
  {
    if |s| > 0 && IsSpace(s[0]) then StripLeft(s[1..]) else s
  }

  /** Python's `s.rstrip()`. */
  function StripRight(s: string): string
    decreases |s|
  {
    if |s| > 0 && IsSpace(s[|s| - 1]) then StripRight(s[..|s| - 1]) else s
  }

  /** Python's `s.strip()`. */
  function Strip(s: string): string
  {
    StripRight(StripLeft(s))
  }

  /** `lstrip` removes exactly the leading run of spaces. */
  lemma {:induction false} StripLeftFacts(s: string)
    ensures var r := StripLeft(s);
      && |r| <= |s| && r == s[|s| - |r|..]
      && (forall k :: 0 <= k < |s| - |r| ==> IsSpace(s[k]))
      && (r == [] || !IsSpace(r[0]))
    decreases |s|
  {
    if |s| > 0 && IsSpace(s[0]) {
      StripLeftFacts(s[1..]);
    }
  }

  /** `rstrip` removes exactly the trailing run of spaces. */
  lemma {:induction false} StripRightFacts(s: string)
    ensures var r := StripRight(s);
      && r <= s
      && (forall k :: |r| <= k < |s| ==> IsSpace(s[k]))
      && (r == [] || !IsSpace(r[|r| - 1]))
    decreases |s|
  {
    if |s| > 0 && IsSpace(s[|s| - 1]) {
      StripRightFacts(s[..|s| - 1]);
    }
  }

  /** `strip` leaves no space at either end, is empty only for an all-space text, and keeps a
      text that already has no space at either end. */
  lemma StripFacts(s: string)
    ensures var r := Strip(s);
      && |r| <= |s|
      && (r == [] || (!IsSpace(r[0]) && !IsSpace(r[|r| - 1])))
      && (r == [] <==> forall k :: 0 <= k < |s| ==> IsSpace(s[k]))
      && ((s == [] || (!IsSpace(s[0]) && !IsSpace(s[|s| - 1]))) ==> r == s)
      && (forall c :: c !in s ==> c !in r)
  {
    var l := StripLeft(s);
    StripLeftFacts(s);
    StripRightFacts(l);
    var r := StripRight(l);
    assert forall c :: c in r ==> c in l;
    if s != [] && !IsSpace(s[0]) && !IsSpace(s[|s| - 1]) {
      assert l == s;
    }
  }

  /** Stripping twice is stripping once. */
  lemma StripIdempotent(s: string)
    ensures Strip(Strip(s)) == Strip(s)
  {
    StripFacts(s);
    StripFacts(Strip(s));
  }

  /** The text with every occurrence of `c` deleted (`re.sub(c + "+", "", s)`). */
  function Delete(s: string, c: char): (r: string)
    ensures c !in r
    ensures c !in s ==> r == s
    ensures forall d :: d != c ==> (d in r <==> d in s)
  {
    if s == [] then []
    else if s[0] == c then Delete(s[1..], c)
    else [s[0]] + Delete(s[1..], c)
  }

  /** The pieces that are not empty, in order. */
  function NonEmpty(parts: seq<string>): (r: seq<string>)
    ensures |r| <= |parts|
    ensures forall i :: 0 <= i < |r| ==> r[i] != []
    ensures forall p :: p in r <==> p in parts && p != []
  {
    if parts == [] then []
    else if parts[0] == [] then NonEmpty(parts[1..])
    else [parts[0]] + NonEmpty(parts[1..])
  }

  /** Dropping empty pieces keeps a character absent from every piece absent. */
  lemma {:induction false} NonEmptyAbsent(parts: seq<string>, c: char)
    requires forall i :: 0 <= i < |parts| ==> c !in parts[i]
    ensures forall i :: 0 <= i < |NonEmpty(parts)| ==> c !in NonEmpty(parts)[i]
    decreases |parts|
  {
    if parts != [] {
      NonEmptyAbsent(parts[1..], c);
    }
  }

  /** Python's `re.split('\n+', text.strip())`. The stripped text starts and ends with a
      non-space character, so every run of newlines lies strictly inside it and splitting on
      runs is splitting on single newlines and dropping the empty pieces; an all-space text
      gives the single empty line. */
  function Lines(text: string): (r: seq<string>)
    ensures forall i :: 0 <= i < |r| ==> '\n' !in r[i]
    ensures Strip(text) == [] ==> r == [[]]
    ensures Strip(text) != [] ==> forall i :: 0 <= i < |r| ==> r[i] != []
  {
    var t := Strip(text);
    if t == [] then [[]]
    else
      var parts := SplitOn(t, "\n");
      SplitOnCharPieces(t, '\n');
      NonEmptyAbsent(parts, '\n');
      NonEmpty(parts)
  }

  /** Python's `s.index(c)`: the first position of `c`; `None` where Python raises `ValueError`. */
  function IndexOf(s: string, c: char): (r: Option<nat>)
    ensures r.None? <==> c !in s
    ensures r.Some? ==> r.value < |s| && s[r.value] == c && c !in s[..r.value]
    decreases |s|
  {
    if s == [] then None
    else if s[0] == c then Some(0)
    else
      match IndexOf(s[1..], c)
      case None => None
      case Some(i) =>
        assert s[..i + 1] == [s[0]] + s[1..][..i];
        Some(i + 1)
  }
}
