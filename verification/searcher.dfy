/**
 * The pattern searcher (`StepPatternSearcher`): a step pattern such as `Z-S-C` is compiled into
 * regular-expression text over the serialisation, its mirror image is searched as well, and the
 * matches are kept only when their steps come at a steady pace inside the requested range. The
 * regular-expression engine (`re.findall`) and `float()` are parameters.
 */
module Searcher {
  import opened Wrappers
  import opened Text
  import Speed

  /** The text that matches a serialised timestamp. */
  const NumPattern: string := "[0-9\\.]+"

  /** The order the panel letters of one group are sorted into. */
  const Order: string := "ZQSECVRGYNzqsecvrgyn"

  /** Appended to a lower-case letter so that it also matches the cap and tail forms. */
  const HoldSuffix: string := "[0-1]{0,1}"

  /** The subpattern of the `*` group: any one note. */
  const Wildcard: string := NumPattern + ":[" + Order + "[0-1]]*"

  datatype SearchError =
    | UnknownStep(step: char)         // `order.index` raises for a letter outside the order
    | UnknownStepType(stepType: string) // the mirror table has no entry for the chart kind
    | BadTimestamp(text: string)      // `float()` rejects the text before a note's colon

  // ---------------------------------------------------------------------------------------
  // Sorting one group
  // ---------------------------------------------------------------------------------------

  // The sort is written for any key string `keys`; the searcher sorts by `Order`.

  /** Every character of `s` has a place in `keys`. */
  predicate InKeys(s: string, keys: string)
  {
    forall i :: 0 <= i < |s| ==> s[i] in keys
  }

  /** `keys.index(c)`: the sort key of a letter; different letters have different keys. */
  function Rank(keys: string, c: char): nat
    requires c in keys
    decreases |keys|
  {
    if keys[0] == c then 0
    else
      assert keys == [keys[0]] + keys[1..];
      1 + Rank(keys[1..], c)
  }

  lemma {:induction false} RankInjective(keys: string, c: char, d: char)
    requires c in keys && d in keys && Rank(keys, c) == Rank(keys, d)
    ensures c == d
    decreases |keys|
  {
    if keys[0] != c && keys[0] != d {
      assert keys == [keys[0]] + keys[1..];
      RankInjective(keys[1..], c, d);
    }
  }

  predicate RankSorted(s: string, keys: string)
    requires InKeys(s, keys)
  {
    forall a, b :: 0 <= a < b < |s| ==> Rank(keys, s[a]) <= Rank(keys, s[b])
  }

  /** Every letter of `s` ranks at least `lo`. */
  predicate RanksFrom(lo: nat, s: string, keys: string)
    requires InKeys(s, keys)
  {
    forall k :: 0 <= k < |s| ==> lo <= Rank(keys, s[k])
  }

  /** A letter placed before the first letter of larger rank. */
  function InsertByRank(c: char, s: string, keys: string): (r: string)
    requires c in keys && InKeys(s, keys) && RankSorted(s, keys)
    ensures InKeys(r, keys) && RankSorted(r, keys)
    ensures multiset(r) == multiset(s) + multiset{c}
    decreases |s|
  {
    if s == [] || Rank(keys, c) <= Rank(keys, s[0]) then
      SortedCons(c, s, keys);
      [c] + s
    else
      var rest := InsertByRank(c, s[1..], keys);
      SortedTail(s, keys);
      RanksFromBag(Rank(keys, s[0]), s[1..], rest, c, keys);
      SortedCons(s[0], rest, keys);
      assert s == [s[0]] + s[1..];
      [s[0]] + rest
  }

  /** A letter of no larger rank than every letter of a sorted string goes in front of it. */
  lemma SortedCons(c: char, s: string, keys: string)
    requires c in keys && InKeys(s, keys) && RankSorted(s, keys) && RanksFrom(Rank(keys, c), s, keys)
    ensures InKeys([c] + s, keys) && RankSorted([c] + s, keys)
  {
    var r := [c] + s;
    assert forall k :: 0 < k < |r| ==> r[k] == s[k - 1];
    forall a, b | 0 <= a < b < |r| ensures Rank(keys, r[a]) <= Rank(keys, r[b]) {
      assert r[b] == s[b - 1];
      if a > 0 {
        assert r[a] == s[a - 1];
      }
    }
  }

  /** What follows the first letter of a sorted string is sorted and ranks no lower. */
  lemma SortedTail(s: string, keys: string)
    requires InKeys(s, keys) && RankSorted(s, keys) && s != []
    ensures InKeys(s[1..], keys) && RankSorted(s[1..], keys) && RanksFrom(Rank(keys, s[0]), s[1..], keys)
  {
    assert forall k :: 0 <= k < |s[1..]| ==> s[1..][k] == s[k + 1];
  }

  /** A bound on the ranks of `t` and of `c` bounds every string with their letters. */
  lemma RanksFromBag(lo: nat, t: string, r: string, c: char, keys: string)
    requires InKeys(t, keys) && RanksFrom(lo, t, keys) && InKeys(r, keys) && c in keys
    requires lo <= Rank(keys, c) && multiset(r) == multiset(t) + multiset{c}
    ensures RanksFrom(lo, r, keys)
  {
    forall k | 0 <= k < |r| ensures lo <= Rank(keys, r[k]) {
      assert r[k] in multiset(r);
      if r[k] != c {
        assert r[k] in multiset(t);
        var j :| 0 <= j < |t| && t[j] == r[k];
      }
    }
  }
  /** `sorted(s, key=keys.index)`. */
  function SortSteps(s: string, keys: string): (r: string)
    requires InKeys(s, keys)
    ensures InKeys(r, keys) && RankSorted(r, keys)
    ensures multiset(r) == multiset(s)
    decreases |s|
  {
    if s == [] then []
    else
      assert s == [s[0]] + s[1..];
      InsertByRank(s[0], SortSteps(s[1..], keys), keys)
  }

  /** The first letter of a rank-sorted string has the least rank. */
  lemma LeastRank(s: string, keys: string, x: char)
    requires InKeys(s, keys) && RankSorted(s, keys) && x in s
    ensures x in keys && Rank(keys, s[0]) <= Rank(keys, x)
  {
    var k :| 0 <= k < |s| && s[k] == x;
  }

  /** Two rank-sorted strings with the same letters start with the same letter, and what
      follows it is again two rank-sorted strings with the same letters. */
  lemma SameHead(a: string, b: string, keys: string)
    requires InKeys(a, keys) && InKeys(b, keys) && RankSorted(a, keys) && RankSorted(b, keys)
    requires multiset(a) == multiset(b) && a != [] && b != []
    ensures a[0] == b[0]
    ensures InKeys(a[1..], keys) && InKeys(b[1..], keys) && RankSorted(a[1..], keys) && RankSorted(b[1..], keys)
    ensures multiset(a[1..]) == multiset(b[1..])
  {
    assert a[0] in multiset(b) && b[0] in multiset(a);
    LeastRank(a, keys, b[0]);
    LeastRank(b, keys, a[0]);
    RankInjective(keys, a[0], b[0]);
    SortedTail(a, keys);
    SortedTail(b, keys);
    assert a == [a[0]] + a[1..] && b == [b[0]] + b[1..];
    assert multiset(a[1..]) == multiset(a) - multiset{a[0]};
    assert multiset(b[1..]) == multiset(b) - multiset{b[0]};
  }

  /** Two rank-sorted strings with the same letters are the same string. */
  lemma {:induction false} RankSortedUnique(a: string, b: string, keys: string)
    requires InKeys(a, keys) && InKeys(b, keys) && RankSorted(a, keys) && RankSorted(b, keys)
    requires multiset(a) == multiset(b)
    ensures a == b
    decreases |a|
  {
    if a == [] || b == [] {
      assert |multiset(a)| == |a| && |multiset(b)| == |b|;
    } else {
      SameHead(a, b, keys);
      RankSortedUnique(a[1..], b[1..], keys);
      assert a == [a[0]] + a[1..] && b == [b[0]] + b[1..];
    }
  }

  /** The first letter of `s` with no place in `keys`, as `sorted` meets it, or none. */
  function FirstUnknown(s: string, keys: string): (r: Option<nat>)
    ensures r.None? <==> InKeys(s, keys)
    ensures r.Some? ==> r.value < |s| && s[r.value] !in keys && InKeys(s[..r.value], keys)
    decreases |s|
  {
    if s == [] then None
    else if s[0] !in keys then Some(0)
    else
      match FirstUnknown(s[1..], keys)
      case None => None
      case Some(i) =>
        assert s[..i + 1] == [s[0]] + s[1..][..i];
        Some(i + 1)
  }

  /** A group's letters in order, or the first letter that has no place in the order. */
  function SortGroup(group: string): (r: Result<string, SearchError>)
    ensures r.Ok? <==> InKeys(group, Order)
    ensures r.Err? ==> r.error.UnknownStep? && r.error.step in group && r.error.step !in Order
    ensures r.Ok? ==> InKeys(r.value, Order) && RankSorted(r.value, Order) && multiset(r.value) == multiset(group)
  {
    match FirstUnknown(group, Order)
    case Some(i) => Err(UnknownStep(group[i]))
    case None => Ok(SortSteps(group, Order))
  }

  /** A group compiles the same whatever order its letters are written in. */
  lemma GroupOrderIrrelevant(g: string, h: string)
    requires multiset(g) == multiset(h)
    ensures SortGroup(g).Ok? <==> SortGroup(h).Ok?
    ensures SortGroup(g).Ok? ==> SortGroup(g) == SortGroup(h)
  {
    assert forall c :: c in g <==> c in h by {
      forall c ensures c in g <==> c in h {
        assert c in g <==> c in multiset(g);
        assert c in h <==> c in multiset(h);
      }
    }
    if InKeys(g, Order) {
      assert InKeys(h, Order) by {
        forall i | 0 <= i < |h| ensures h[i] in Order {
          assert h[i] in g;
        }
      }
      RankSortedUnique(SortGroup(g).value, SortGroup(h).value, Order);
    }
  }

  // ---------------------------------------------------------------------------------------
  // Compiling a pattern
  // ---------------------------------------------------------------------------------------

  /** The characters of `s` that have a place in `keys`, in place; the others are dropped. */
  function KeyLetters(s: string, keys: string): string
    decreases |s|
  {
    if s == [] then [] else (if s[0] in keys then [s[0]] else []) + KeyLetters(s[1..], keys)
  }

  lemma {:induction false} KeyLettersConcat(s: string, t: string, keys: string)
    ensures KeyLetters(s + t, keys) == KeyLetters(s, keys) + KeyLetters(t, keys)
    decreases |s|
  {
    if s == [] {
      assert s + t == t;
    } else {
      KeyLettersConcat(s[1..], t, keys);
      var st := s + t;
      assert st[0] == s[0];
      assert st[1..] == s[1..] + t;
      assert KeyLetters(st, keys) == (if s[0] in keys then [s[0]] else []) + KeyLetters(s[1..] + t, keys);
    }
  }

  lemma {:induction false} KeyLettersKeep(s: string, keys: string)
    requires InKeys(s, keys)
    ensures KeyLetters(s, keys) == s
    decreases |s|
  {
    if s != [] {
      assert forall i :: 0 <= i < |s[1..]| ==> s[1..][i] == s[i + 1];
      KeyLettersKeep(s[1..], keys);
      assert s == [s[0]] + s[1..];
    }
  }

  lemma {:induction false} KeyLettersNone(s: string, keys: string)
    requires forall i :: 0 <= i < |s| ==> s[i] !in keys
    ensures KeyLetters(s, keys) == []
    decreases |s|
  {
    if s != [] {
      KeyLettersNone(s[1..], keys);
    }
  }

  /** Every character of the order is a letter, and the punctuation of the patterns is not. */
  lemma PunctuationOutsideOrder()
    ensures forall i :: 0 <= i < |HoldSuffix| ==> HoldSuffix[i] !in Order
    ensures forall i :: 0 <= i < |NumPattern + ":"| ==> (NumPattern + ":")[i] !in Order
  {
    assert forall c :: c in Order ==> IsUpper(c) || IsLower(c);
  }

  /** Without hold distinctions every lower-case letter gains `HoldSuffix`, so that a hold in
      progress also matches its cap and its tail. */
  function Loosen(steps: string): (r: string)
    ensures (forall i :: 0 <= i < |steps| ==> !IsLower(steps[i])) ==> r == steps
    decreases |steps|
  {
    if steps == [] then [] else Suffixed(steps[0]) + Loosen(steps[1..])
  }

  function Suffixed(c: char): string
  {
    if IsLower(c) then [c] + HoldSuffix else [c]
  }

  /** Loosening works letter by letter, and the pieces keep their order. */
  lemma {:induction false} LoosenConcat(s: string, t: string)
    ensures Loosen(s + t) == Loosen(s) + Loosen(t)
    decreases |s|
  {
    if s == [] {
      assert s + t == t;
    } else {
      var st := s + t;
      assert st[0] == s[0] && st[1..] == s[1..] + t;
      calc {
        Loosen(st);
        Suffixed(s[0]) + Loosen(s[1..] + t);
        { LoosenConcat(s[1..], t); }
        Suffixed(s[0]) + (Loosen(s[1..]) + Loosen(t));
        (Suffixed(s[0]) + Loosen(s[1..])) + Loosen(t);
        Loosen(s) + Loosen(t);
      }
    }
  }

  /** A lower-case letter gains `HoldSuffix`; any other letter stays as it is. */
  lemma LoosenOne(c: char)
    ensures Loosen([c]) == if IsLower(c) then [c] + HoldSuffix else [c]
  {
    assert [c][1..] == [];
  }

  /** The suffixes add no letters of `keys`: dropping everything else gives the steps back. */
  lemma {:induction false} LoosenLetters(steps: string, keys: string)
    requires InKeys(steps, keys)
    requires forall i :: 0 <= i < |HoldSuffix| ==> HoldSuffix[i] !in keys
    ensures KeyLetters(Loosen(steps), keys) == steps
    decreases |steps|
  {
    if steps != [] {
      var c, rest := steps[0], steps[1..];
      assert InKeys(rest, keys) by {
        assert forall i :: 0 <= i < |rest| ==> rest[i] == steps[i + 1];
      }
      LoosenLetters(rest, keys);
      LoosenHead(c, keys);
      KeyLettersConcat(Suffixed(c), Loosen(rest), keys);
      assert steps == [c] + rest;
    }
  }

  lemma LoosenHead(c: char, keys: string)
    requires c in keys
    requires forall i :: 0 <= i < |HoldSuffix| ==> HoldSuffix[i] !in keys
    ensures KeyLetters(Suffixed(c), keys) == [c]
  {
    assert KeyLetters([c], keys) == [c];
    KeyLettersConcat([c], HoldSuffix, keys);
    KeyLettersNone(HoldSuffix, keys);
  }

  /** One `-`-separated group: `*` matches any note; otherwise the letters sorted by the order,
      loosened unless holds are told apart, after a timestamp and a colon. */
  function Subpattern(group: string, holdDistinctions: bool): (r: Result<string, SearchError>)
    ensures r.Ok? <==> group == "*" || InKeys(group, Order)
    ensures r.Err? ==> r.error.UnknownStep? && r.error.step in group && r.error.step !in Order
    ensures group == "*" ==> r == Ok(Wildcard)
    ensures group != "*" && r.Ok? ==>
              var steps := SortGroup(group).value;
              r.value == NumPattern + ":" + (if holdDistinctions then steps else Loosen(steps))
  {
    if group == "*" then Ok(Wildcard)
    else
      var steps :- SortGroup(group);
      Ok(NumPattern + ":" + (if holdDistinctions then steps else Loosen(steps)))
  }

  /** The subpattern of a letter group asks for exactly the group's letters. */
  lemma SubpatternLetters(group: string, holdDistinctions: bool)
    requires group != "*" && Subpattern(group, holdDistinctions).Ok?
    ensures multiset(KeyLetters(Subpattern(group, holdDistinctions).value, Order)) == multiset(group)
  {
    var steps := SortGroup(group).value;
    var body := if holdDistinctions then steps else Loosen(steps);
    assert Subpattern(group, holdDistinctions).value == (NumPattern + ":") + body;
    PunctuationOutsideOrder();
    KeyLettersConcat(NumPattern + ":", body, Order);
    KeyLettersNone(NumPattern + ":", Order);
    if holdDistinctions {
      KeyLettersKeep(steps, Order);
    } else {
      LoosenLetters(steps, Order);
    }
  }

  /** A group's subpattern does not depend on the order its letters are written in. */
  lemma SubpatternOrderIrrelevant(g: string, h: string, holdDistinctions: bool)
    requires multiset(g) == multiset(h)
    ensures Subpattern(g, holdDistinctions).Ok? <==> Subpattern(h, holdDistinctions).Ok?
    ensures Subpattern(g, holdDistinctions).Ok? ==> Subpattern(g, holdDistinctions) == Subpattern(h, holdDistinctions)
  {
    GroupOrderIrrelevant(g, h);
    if g == "*" || h == "*" {
      assert |g| == |multiset(g)| == |multiset(h)| == |h| == 1;
      assert g[0] in multiset(h) && h[0] in multiset(g);
      assert g == [g[0]] && h == [h[0]];
    }
  }

  function Subpatterns(groups: seq<string>, holdDistinctions: bool): (rs: seq<Result<string, SearchError>>)
    ensures |rs| == |groups|
  {
    seq(|groups|, i requires 0 <= i < |groups| => Subpattern(groups[i], holdDistinctions))
  }

  /** `get_regex_pattern`: the subpatterns of the `-`-separated groups joined by `-`, wrapped as
      `[...]*` when repeats are wanted; the first unknown letter is an error. */
  function RegexPattern(spec: string, holdDistinctions: bool, repeat: bool): (r: Result<string, SearchError>)
    ensures r.Ok? <==> forall g :: g in SplitOn(spec, "-") ==> g == "*" || InKeys(g, Order)
  {
    var groups := SplitOn(spec, "-");
    var subs :- Collect(Subpatterns(groups, holdDistinctions));
    assert forall g :: g in groups ==> g == "*" || InKeys(g, Order) by {
      forall g | g in groups ensures g == "*" || InKeys(g, Order) {
        var i :| 0 <= i < |groups| && groups[i] == g;
        assert Subpatterns(groups, holdDistinctions)[i].Ok?;
      }
    }
    var p := Join(subs, "-");
    Ok(if repeat then "[" + p + "]*" else p)
  }

  /** A compiled pattern is the groups' subpatterns joined by `-`, wrapped as `[...]*` when
      repeats are wanted. */
  lemma RegexPatternShape(spec: string, holdDistinctions: bool, repeat: bool)
    requires RegexPattern(spec, holdDistinctions, repeat).Ok?
    ensures var groups := SplitOn(spec, "-");
            exists subs: seq<string> ::
              && |subs| == |groups|
              && (forall i :: 0 <= i < |groups| ==> Subpattern(groups[i], holdDistinctions) == Ok(subs[i]))
              && RegexPattern(spec, holdDistinctions, repeat).value
                   == if repeat then "[" + Join(subs, "-") + "]*" else Join(subs, "-")
  {
    var groups := SplitOn(spec, "-");
    var subs := Collect(Subpatterns(groups, holdDistinctions)).value;
    assert forall i :: 0 <= i < |groups| ==> Subpattern(groups[i], holdDistinctions) == Ok(subs[i]);
  }

  /** Asking for repeats wraps the plain pattern and changes nothing else. */
  lemma RepeatWraps(spec: string, holdDistinctions: bool)
    ensures RegexPattern(spec, holdDistinctions, true).Ok? <==> RegexPattern(spec, holdDistinctions, false).Ok?
    ensures RegexPattern(spec, holdDistinctions, false).Ok? ==>
              RegexPattern(spec, holdDistinctions, true).value == "[" + RegexPattern(spec, holdDistinctions, false).value + "]*"
  {
  }

  /** Patterns whose groups hold the same letters, group by group, compile to the same text:
      the search does not depend on the order panels are written in within a group. */
  lemma PatternOrderIrrelevant(spec: string, other: string, holdDistinctions: bool, repeat: bool)
    requires |SplitOn(spec, "-")| == |SplitOn(other, "-")|
    requires forall i :: 0 <= i < |SplitOn(spec, "-")| ==> multiset(SplitOn(spec, "-")[i]) == multiset(SplitOn(other, "-")[i])
    ensures RegexPattern(spec, holdDistinctions, repeat).Ok? <==> RegexPattern(other, holdDistinctions, repeat).Ok?
    ensures RegexPattern(spec, holdDistinctions, repeat).Ok? ==>
              RegexPattern(spec, holdDistinctions, repeat) == RegexPattern(other, holdDistinctions, repeat)
  {
    var gs, hs := SplitOn(spec, "-"), SplitOn(other, "-");
    var rs, qs := Subpatterns(gs, holdDistinctions), Subpatterns(hs, holdDistinctions);
    forall i | 0 <= i < |gs| ensures rs[i].Ok? <==> qs[i].Ok? ensures rs[i].Ok? ==> rs[i] == qs[i] {
      SubpatternOrderIrrelevant(gs[i], hs[i], holdDistinctions);
    }
    CollectAgree(rs, qs);
  }

  /** The letters of `keys` in a list of texts, counted. */
  function LetterBag(parts: seq<string>, keys: string): multiset<char>
    decreases |parts|
  {
    if parts == [] then multiset{} else multiset(KeyLetters(parts[0], keys)) + LetterBag(parts[1..], keys)
  }

  lemma {:induction false} JoinLetters(parts: seq<string>, keys: string)
    requires '-' !in keys
    ensures multiset(KeyLetters(Join(parts, "-"), keys)) == LetterBag(parts, keys)
    decreases |parts|
  {
    if |parts| == 1 {
      assert parts[1..] == [];
    } else if |parts| > 1 {
      var rest := Join(parts[1..], "-");
      assert Join(parts, "-") == parts[0] + ("-" + rest);
      KeyLettersConcat(parts[0], "-" + rest, keys);
      KeyLettersConcat("-", rest, keys);
      KeyLettersNone("-", keys);
      JoinLetters(parts[1..], keys);
    }
  }

  lemma {:induction false} LetterBagPointwise(ps: seq<string>, qs: seq<string>, keys: string)
    requires |ps| == |qs|
    requires forall i :: 0 <= i < |ps| ==> multiset(KeyLetters(ps[i], keys)) == multiset(KeyLetters(qs[i], keys))
    ensures LetterBag(ps, keys) == LetterBag(qs, keys)
    decreases |ps|
  {
    if ps != [] {
      assert forall i :: 1 <= i < |ps| ==> ps[1..][i - 1] == ps[i] && qs[1..][i - 1] == qs[i];
      LetterBagPointwise(ps[1..], qs[1..], keys);
    }
  }

  /** The separators and brackets of a pattern are not order letters. */
  lemma SeparatorsOutsideOrder()
    ensures '-' !in Order && '[' !in Order && ']' !in Order && '*' !in Order
  {
  }

  /** Without `*` groups the compiled pattern names exactly the letters of the spec, each as
      often as the spec does. */
  lemma PatternLetters(spec: string, holdDistinctions: bool, repeat: bool)
    requires RegexPattern(spec, holdDistinctions, repeat).Ok? && '*' !in spec
    ensures multiset(KeyLetters(RegexPattern(spec, holdDistinctions, repeat).value, Order)) == multiset(KeyLetters(spec, Order))
  {
    RepeatWraps(spec, holdDistinctions);
    var p := RegexPattern(spec, holdDistinctions, false).value;
    PlainPatternLetters(spec, holdDistinctions);
    if repeat {
      SeparatorsOutsideOrder();
      WrapLetters(p, Order);
    }
  }

  lemma PlainPatternLetters(spec: string, holdDistinctions: bool)
    requires RegexPattern(spec, holdDistinctions, false).Ok? && '*' !in spec
    ensures multiset(KeyLetters(RegexPattern(spec, holdDistinctions, false).value, Order)) == multiset(KeyLetters(spec, Order))
  {
    var groups := SplitOn(spec, "-");
    var subs := Collect(Subpatterns(groups, holdDistinctions)).value;
    SeparatorsOutsideOrder();
    GroupLetters(spec, holdDistinctions);
    LetterBagPointwise(subs, groups, Order);
    JoinLetters(subs, Order);
    JoinLetters(groups, Order);
    JoinSplitOn(spec, "-");
  }

  /** Each subpattern of a spec without `*` names the letters of its group. */
  lemma GroupLetters(spec: string, holdDistinctions: bool)
    requires RegexPattern(spec, holdDistinctions, false).Ok? && '*' !in spec
    ensures var groups := SplitOn(spec, "-");
            var subs := Collect(Subpatterns(groups, holdDistinctions)).value;
            |subs| == |groups|
            && forall i :: 0 <= i < |groups| ==>
                 multiset(KeyLetters(subs[i], Order)) == multiset(KeyLetters(groups[i], Order))
  {
    var groups := SplitOn(spec, "-");
    var rs := Subpatterns(groups, holdDistinctions);
    var subs := Collect(rs).value;
    SplitOnKeepsAbsentChar(spec, "-", '*');
    forall i | 0 <= i < |groups|
      ensures multiset(KeyLetters(subs[i], Order)) == multiset(KeyLetters(groups[i], Order))
    {
      assert rs[i] == Ok(subs[i]);
      assert groups[i] != "*" by {
        assert '*' !in groups[i];
      }
      SubpatternLetters(groups[i], holdDistinctions);
      KeyLettersKeep(groups[i], Order);
    }
  }

  lemma WrapLetters(p: string, keys: string)
    requires '[' !in keys && ']' !in keys && '*' !in keys
    ensures KeyLetters("[" + p + "]*", keys) == KeyLetters(p, keys)
  {
    KeyLettersConcat("[", p + "]*", keys);
    KeyLettersConcat(p, "]*", keys);
    KeyLettersNone("[", keys);
    KeyLettersNone("]*", keys);
    assert "[" + p + "]*" == "[" + (p + "]*");
  }

  // ---------------------------------------------------------------------------------------
  // Mirror images
  // ---------------------------------------------------------------------------------------

  /** The two pads the mirror table knows. */
  datatype Pad = Singles | Doubles

  /** `mirrors[step_type]`: none for a chart kind the table lacks. */
  function PadOf(stepType: string): (r: Option<Pad>)
    ensures r.Some? <==> stepType == "S" || stepType == "D"
  {
    if stepType == "S" then Some(Singles) else if stepType == "D" then Some(Doubles) else None
  }

  /** The mirror table: on singles left and right trade places and the centre stays; on doubles
      every panel trades places with its image on the other pad. Other characters have no entry. */
  function Image(pad: Pad, c: char): Option<char>
  {
    match pad
    case Singles =>
      (match c
       case 'Z' => Some('C') case 'Q' => Some('E') case 'S' => Some('S') case 'E' => Some('Q') case 'C' => Some('Z')
       case 'z' => Some('c') case 'q' => Some('e') case 's' => Some('s') case 'e' => Some('q') case 'c' => Some('z')
       case _ => None)
    case Doubles =>
      (match c
       case 'Z' => Some('N') case 'Q' => Some('Y') case 'S' => Some('G') case 'E' => Some('R') case 'C' => Some('V')
       case 'V' => Some('C') case 'R' => Some('E') case 'G' => Some('S') case 'Y' => Some('Q') case 'N' => Some('Z')
       case 'z' => Some('n') case 'q' => Some('y') case 's' => Some('g') case 'e' => Some('r') case 'c' => Some('v')
       case 'v' => Some('c') case 'r' => Some('e') case 'g' => Some('s') case 'y' => Some('q') case 'n' => Some('z')
       case _ => None)
  }

  /** Both tables undo themselves and have entries for order letters only. */
  lemma ImageInvolution(pad: Pad, c: char)
    ensures Image(pad, c).Some? ==> c in Order && Image(pad, Image(pad, c).value) == Some(c)
  {
    ImageUndoes(pad, c);
    ImageInOrder(pad, c);
  }

  lemma ImageUndoes(pad: Pad, c: char)
    ensures Image(pad, c).Some? ==> Image(pad, Image(pad, c).value) == Some(c)
  {
  }

  lemma ImageInOrder(pad: Pad, c: char)
    ensures Image(pad, c).Some? ==> c in Order
  {
  }

  /** The singles table keeps the centre panel in place. */
  lemma SinglesCentreFixed()
    ensures Image(Singles, 'S') == Some('S') && Image(Singles, 's') == Some('s')
  {
  }

  /** `mirrors[step_type].get(char, char)`. */
  function MirrorChar(pad: Pad, c: char): char
  {
    match Image(pad, c)
    case Some(d) => d
    case None => c
  }

  /** The mirrored spec, character by character. */
  function Mirror(pad: Pad, spec: string): (r: string)
    ensures |r| == |spec|
  {
    seq(|spec|, i requires 0 <= i < |spec| => MirrorChar(pad, spec[i]))
  }

  /** A mirror moves order letters to order letters and leaves every other character alone. */
  lemma MirrorCharFacts(pad: Pad, c: char)
    ensures MirrorChar(pad, c) in Order <==> c in Order
    ensures c !in Order ==> MirrorChar(pad, c) == c
    ensures MirrorChar(pad, MirrorChar(pad, c)) == c
  {
    ImageInvolution(pad, c);
    if Image(pad, c).Some? {
      ImageInvolution(pad, Image(pad, c).value);
    }
  }

  /** Mirroring twice gives the spec back. */
  lemma MirrorTwice(pad: Pad, spec: string)
    ensures Mirror(pad, Mirror(pad, spec)) == spec
  {
    forall i | 0 <= i < |spec| ensures Mirror(pad, Mirror(pad, spec))[i] == spec[i] {
      MirrorCharFacts(pad, spec[i]);
    }
  }

  function MirrorAll(pad: Pad, parts: seq<string>): (r: seq<string>)
    ensures |r| == |parts|
  {
    seq(|parts|, i requires 0 <= i < |parts| => Mirror(pad, parts[i]))
  }

  /** Python's `s.split("-")` one character at a time. */
  lemma SplitDashStep(s: string)
    requires s != []
    ensures s[0] == '-' ==> SplitOn(s, "-") == [""] + SplitOn(s[1..], "-")
    ensures s[0] != '-' ==> SplitOn(s, "-") == [[s[0]] + SplitOn(s[1..], "-")[0]] + SplitOn(s[1..], "-")[1..]
  {
    assert "-" <= s <==> s[0] == '-';
  }

  lemma MirrorStep(pad: Pad, s: string)
    requires s != []
    ensures Mirror(pad, s) == [MirrorChar(pad, s[0])] + Mirror(pad, s[1..])
  {
  }

  lemma MirrorAllCons(pad: Pad, x: string, xs: seq<string>)
    ensures MirrorAll(pad, [x] + xs) == [Mirror(pad, x)] + MirrorAll(pad, xs)
  {
  }

  /** Mirroring keeps the hyphens where they are, so it mirrors each group in place. */
  lemma {:induction false} SplitMirror(pad: Pad, s: string)
    ensures SplitOn(Mirror(pad, s), "-") == MirrorAll(pad, SplitOn(s, "-"))
    decreases |s|
  {
    if s != [] {
      var c, t := s[0], Mirror(pad, s);
      var rest := SplitOn(s[1..], "-");
      SeparatorsOutsideOrder();
      MirrorCharFacts(pad, c);
      MirrorStep(pad, s);
      SplitMirror(pad, s[1..]);
      SplitDashStep(s);
      SplitDashStep(t);
      assert t[0] == MirrorChar(pad, c) && t[1..] == Mirror(pad, s[1..]);
      if c == '-' {
        MirrorAllCons(pad, "", rest);
      } else {
        MirrorStep(pad, [c] + rest[0]);
        assert ([c] + rest[0])[1..] == rest[0];
        MirrorAllCons(pad, [c] + rest[0], rest[1..]);
        MirrorAllCons(pad, rest[0], rest[1..]);
        assert rest == [rest[0]] + rest[1..];
      }
    }
  }

  /** A spec and its mirror image compile, or fail to, together. */
  lemma MirrorCompiles(pad: Pad, spec: string, holdDistinctions: bool, repeat: bool)
    ensures RegexPattern(Mirror(pad, spec), holdDistinctions, repeat).Ok? <==> RegexPattern(spec, holdDistinctions, repeat).Ok?
  {
    var gs := SplitOn(spec, "-");
    SplitMirror(pad, spec);
    var hs := SplitOn(Mirror(pad, spec), "-");
    forall i | 0 <= i < |gs|
      ensures (hs[i] == "*" || InKeys(hs[i], Order)) <==> (gs[i] == "*" || InKeys(gs[i], Order))
    {
      MirrorGroup(pad, gs[i]);
    }
    if forall g :: g in gs ==> g == "*" || InKeys(g, Order) {
      forall h | h in hs ensures h == "*" || InKeys(h, Order) {
        var i :| 0 <= i < |hs| && hs[i] == h;
        assert gs[i] in gs;
      }
    }
    if forall h :: h in hs ==> h == "*" || InKeys(h, Order) {
      forall g | g in gs ensures g == "*" || InKeys(g, Order) {
        var i :| 0 <= i < |gs| && gs[i] == g;
        assert hs[i] in hs;
      }
    }
  }

  lemma MirrorGroup(pad: Pad, g: string)
    ensures Mirror(pad, g) == "*" <==> g == "*"
    ensures InKeys(Mirror(pad, g), Order) <==> InKeys(g, Order)
  {
    SeparatorsOutsideOrder();
    forall i | 0 <= i < |g| ensures (Mirror(pad, g)[i] in Order <==> g[i] in Order) {
      MirrorCharFacts(pad, g[i]);
    }
    if |g| == 1 {
      MirrorCharFacts(pad, g[0]);
      assert g == "*" <==> g[0] == '*';
      assert Mirror(pad, g) == "*" <==> Mirror(pad, g)[0] == '*';
    }
  }

  // ---------------------------------------------------------------------------------------
  // Candidates
  // ---------------------------------------------------------------------------------------

  /** The candidate matches: those of the pattern and then, when mirroring changes the spec,
      those of the mirrored pattern. `findAll(pattern, chart)` stands for `re.findall`. */
  function Candidates(stepType: string, chart: string, spec: string, holdDistinctions: bool, repeat: bool,
                      findAll: (string, string) -> seq<string>): (r: Result<seq<string>, SearchError>)
    ensures r.Ok? ==> RegexPattern(spec, holdDistinctions, repeat).Ok? && PadOf(stepType).Some?
    ensures r.Ok? ==> findAll(RegexPattern(spec, holdDistinctions, repeat).value, chart) <= r.value
  {
    var pattern :- RegexPattern(spec, holdDistinctions, repeat);
    var found := findAll(pattern, chart);
    var pad :- PadOf(stepType).ToResultOr(UnknownStepType(stepType));
    var mirrored := Mirror(pad, spec);
    if mirrored != spec then
      var other :- RegexPattern(mirrored, holdDistinctions, repeat);
      Ok(found + findAll(other, chart))
    else Ok(found)
  }

  /** Finding candidates fails exactly for a spec with an unknown letter or an unknown chart
      kind; the mirrored spec never fails on its own. */
  lemma CandidatesFail(stepType: string, chart: string, spec: string, holdDistinctions: bool, repeat: bool,
                       findAll: (string, string) -> seq<string>)
    ensures Candidates(stepType, chart, spec, holdDistinctions, repeat, findAll).Err? <==>
              RegexPattern(spec, holdDistinctions, repeat).Err? || PadOf(stepType).None?
  {
    if PadOf(stepType).Some? {
      MirrorCompiles(PadOf(stepType).value, spec, holdDistinctions, repeat);
    }
  }

  /** A spec its mirror leaves unchanged is searched once. */
  lemma SymmetricSpecSearchedOnce(stepType: string, chart: string, spec: string, holdDistinctions: bool, repeat: bool,
                                  findAll: (string, string) -> seq<string>)
    requires RegexPattern(spec, holdDistinctions, repeat).Ok? && PadOf(stepType).Some?
    requires Mirror(PadOf(stepType).value, spec) == spec
    ensures Candidates(stepType, chart, spec, holdDistinctions, repeat, findAll)
              == Ok(findAll(RegexPattern(spec, holdDistinctions, repeat).value, chart))
  {
  }

  /** Searching a spec or its mirror image finds the same candidates, the two halves swapped. */
  lemma MirrorSearchSwaps(stepType: string, chart: string, spec: string, holdDistinctions: bool, repeat: bool,
                          findAll: (string, string) -> seq<string>)
    requires RegexPattern(spec, holdDistinctions, repeat).Ok? && PadOf(stepType).Some?
    requires Mirror(PadOf(stepType).value, spec) != spec
    ensures var mirrored := Mirror(PadOf(stepType).value, spec);
            RegexPattern(mirrored, holdDistinctions, repeat).Ok?
            && var a := findAll(RegexPattern(spec, holdDistinctions, repeat).value, chart);
               var b := findAll(RegexPattern(mirrored, holdDistinctions, repeat).value, chart);
               Candidates(stepType, chart, spec, holdDistinctions, repeat, findAll) == Ok(a + b)
               && Candidates(stepType, chart, mirrored, holdDistinctions, repeat, findAll) == Ok(b + a)
  {
    var pad := PadOf(stepType).value;
    var mirrored := Mirror(pad, spec);
    MirrorCompiles(pad, spec, holdDistinctions, repeat);
    MirrorTwice(pad, spec);
  }

  // ---------------------------------------------------------------------------------------
  // The search
  // ---------------------------------------------------------------------------------------

  /** `search`: the candidates of the spec and of its mirror image, filtered by speed. */
  function Search(stepType: string, chart: string, spec: string, lim: Speed.Limits, holdDistinctions: bool,
                  repeat: bool, findAll: (string, string) -> seq<string>, toReal: string -> Option<real>)
    : (r: Result<seq<(real, real)>, SearchError>)
  {
    var candidates :- Candidates(stepType, chart, spec, holdDistinctions, repeat, findAll);
    match Speed.Filter(candidates, lim, toReal)
    case Ok(kept) => Ok(kept)
    case Err(e) => Err(BadTimestamp(e.text))
  }

  /** A search that succeeds reports exactly the first times and last gaps of the candidates the
      speed filter keeps. */
  lemma SearchKept(stepType: string, chart: string, spec: string, lim: Speed.Limits, holdDistinctions: bool,
                   repeat: bool, findAll: (string, string) -> seq<string>, toReal: string -> Option<real>)
    requires Search(stepType, chart, spec, lim, holdDistinctions, repeat, findAll, toReal).Ok?
    ensures Candidates(stepType, chart, spec, holdDistinctions, repeat, findAll).Ok?
    ensures var ms := Candidates(stepType, chart, spec, holdDistinctions, repeat, findAll).value;
            forall x :: x in Search(stepType, chart, spec, lim, holdDistinctions, repeat, findAll, toReal).value <==>
              exists i :: 0 <= i < |ms| && Speed.Judge(ms[i], lim, toReal) == Ok(Some(x))
  {
    var ms := Candidates(stepType, chart, spec, holdDistinctions, repeat, findAll).value;
    Speed.FilterKept(ms, lim, toReal);
  }
}
