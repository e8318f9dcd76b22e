/**
 * The speed filter of the pattern searcher: a match is kept only when its steps come at a steady
 * pace inside the requested range of gaps. `float()` is a parameter.
 */
module Speed {
  import opened Wrappers
  import opened Text

  /** `float()` rejects the text before a note's colon. */
  datatype TimeError = BadTimestamp(text: string)

  /** The speed limits of a search: steps `minDt` to `maxDt` seconds apart, give or take `tol`. */
  datatype Limits = Limits(minDt: real, maxDt: real, tol: real)

  /** The time of a note: the text before its first colon, read by `toReal` (Python's `float`). */
  function NoteTime(note: string, toReal: string -> Option<real>): (r: Result<real, TimeError>)
    ensures r.Err? ==> r.error == BadTimestamp(SplitOn(note, ":")[0])
  {
    var text := SplitOn(note, ":")[0];
    toReal(text).ToResultOr(BadTimestamp(text))
  }

  /** A gap `dt` after a gap `prev` keeps pace: it is within `tol` of `prev` and inside the range. */
  predicate KeepsPace(prev: real, dt: real, lim: Limits)
  {
    -lim.tol <= dt - prev <= lim.tol && lim.minDt - lim.tol <= dt <= lim.maxDt + lim.tol
  }

  /** The times of the notes of a candidate, each read when the loop reaches it. */
  function Times(notes: seq<string>, toReal: string -> Option<real>): (rs: seq<Result<real, TimeError>>)
    ensures |rs| == |notes|
  {
    seq(|notes|, i requires 0 <= i < |notes| => NoteTime(notes[i], toReal))
  }

  /** The loop over the notes after the first: the last gap when every note keeps pace, none as
      soon as one does not. A negative previous gap (the `-1` the loop starts from) skips the check.
      A time the loop never reaches is never read, so an unreadable one there is no error. */
  function Pace(times: seq<Result<real, TimeError>>, prev: real, delta: real, lim: Limits)
    : (r: Result<Option<real>, TimeError>)
    decreases |times|
  {
    if times == [] then Ok(Some(delta))
    else
      var time :- times[0];
      var dt := time - prev;
      if delta >= 0.0 && !KeepsPace(delta, dt, lim) then Ok(None)
      else Pace(times[1..], time, dt, lim)
  }

  /** The verdict on a candidate whose notes have the given times: its first time and last gap
      when it is kept, none when it is dropped. */
  function Verdict(times: seq<Result<real, TimeError>>, lim: Limits): (r: Result<Option<(real, real)>, TimeError>)
    requires times != []
  {
    var kept :- if |times| > 1 then
                  (var first :- times[0]; Pace(times[1..], first, -1.0, lim))
                else Ok(Some(0.0));
    match kept
    case None => Ok(None)
    case Some(delta) =>
      var stamp :- times[0];
      Ok(Some((stamp, delta)))
  }

  /** One candidate, its notes split at the dashes. */
  function Judge(m: string, lim: Limits, toReal: string -> Option<real>): (r: Result<Option<(real, real)>, TimeError>)
  {
    Verdict(Times(SplitOn(m, "-"), toReal), lim)
  }

  /** The loop over the candidates: the kept ones, in order; the first unreadable time fails. */
  function Filter(ms: seq<string>, lim: Limits, toReal: string -> Option<real>): (r: Result<seq<(real, real)>, TimeError>)
    ensures r.Ok? <==> forall i :: 0 <= i < |ms| ==> Judge(ms[i], lim, toReal).Ok?
    ensures r.Ok? ==> |r.value| <= |ms|
    decreases |ms|
  {
    if ms == [] then Ok([])
    else
      var verdict :- Judge(ms[0], lim, toReal);
      var rest :- Filter(ms[1..], lim, toReal);
      assert forall i :: 1 <= i < |ms| ==> ms[1..][i - 1] == ms[i];
      Ok((if verdict.Some? then [verdict.value] else []) + rest)
  }

  // ---------------------------------------------------------------------------------------
  // What the speed filter promises
  // ---------------------------------------------------------------------------------------

  /** The gaps between consecutive times. */
  function Gaps(ts: seq<real>): (ds: seq<real>)
    ensures |ds| == if ts == [] then 0 else |ts| - 1
  {
    if ts == [] then [] else seq(|ts| - 1, i requires 0 <= i < |ts| - 1 => ts[i + 1] - ts[i])
  }

  /** The filter's promise: every gap after the first keeps pace with the gap before it, unless
      that gap is negative. */
  ghost predicate Steady(ds: seq<real>, lim: Limits)
  {
    forall a, b :: 0 <= a < b < |ds| && b == a + 1 && ds[a] >= 0.0 ==> KeepsPace(ds[a], ds[b], lim)
  }

  /** A gap that follows a backwards step is never checked: the times 0, -1, 5 pass whatever
      the limits, although the gaps -1 and 6 are far apart. */
  lemma BackwardStepUnchecked(lim: Limits)
    ensures Steady(Gaps([0.0, -1.0, 5.0]), lim)
  {
    assert Gaps([0.0, -1.0, 5.0]) == [-1.0, 6.0];
  }

  /** The same promise told gap by gap, starting from a previous gap `delta`. */
  predicate SteadyFrom(delta: real, ds: seq<real>, lim: Limits)
    decreases |ds|
  {
    ds == [] || ((delta >= 0.0 ==> KeepsPace(delta, ds[0], lim)) && SteadyFrom(ds[0], ds[1..], lim))
  }

  lemma {:induction false} SteadyFromIff(delta: real, ds: seq<real>, lim: Limits)
    ensures SteadyFrom(delta, ds, lim) <==> (ds != [] && delta >= 0.0 ==> KeepsPace(delta, ds[0], lim)) && Steady(ds, lim)
    decreases |ds|
  {
    if ds != [] {
      var rest := ds[1..];
      SteadyFromIff(ds[0], rest, lim);
      assert forall k :: 0 <= k < |rest| ==> rest[k] == ds[k + 1];
      if Steady(ds, lim) {
        assert Steady(rest, lim) by {
          forall a, b | 0 <= a < b < |rest| && b == a + 1 && rest[a] >= 0.0 ensures KeepsPace(rest[a], rest[b], lim) {
            assert ds[a + 1] == rest[a] && ds[b + 1] == rest[b];
          }
        }
        if rest != [] && ds[0] >= 0.0 {
          assert ds[1] == rest[0];
        }
      }
      if (delta >= 0.0 ==> KeepsPace(delta, ds[0], lim)) && SteadyFrom(ds[0], rest, lim) {
        forall a, b | 0 <= a < b < |ds| && b == a + 1 && ds[a] >= 0.0 ensures KeepsPace(ds[a], ds[b], lim) {
          if a > 0 {
            assert rest[a - 1] == ds[a] && rest[b - 1] == ds[b];
          }
        }
      }
    }
  }

  /** The gap a kept match reports: the last one, or `delta` when there is none. */
  function LastGap(delta: real, ts: seq<real>): real
  {
    if |ts| <= 1 then delta else ts[|ts| - 1] - ts[|ts| - 2]
  }

  lemma ConsGaps(prev: real, ts: seq<real>)
    requires ts != []
    ensures Gaps([prev] + ts) == [ts[0] - prev] + Gaps(ts)
  {
    var xs := [prev] + ts;
    var l, r := Gaps(xs), [ts[0] - prev] + Gaps(ts);
    assert |l| == |r|;
    forall i | 0 <= i < |l| ensures l[i] == r[i] {
      if i > 0 {
        assert xs[i + 1] == ts[i] && xs[i] == ts[i - 1];
      }
    }
  }

  lemma ConsLastGap(prev: real, ts: seq<real>, delta: real)
    requires ts != []
    ensures LastGap(delta, [prev] + ts) == LastGap(ts[0] - prev, ts)
  {
    var xs := [prev] + ts;
    if |ts| > 1 {
      assert xs[|xs| - 1] == ts[|ts| - 1] && xs[|xs| - 2] == ts[|ts| - 2];
    }
  }

  /** The same turn on the reference side: the first gap is checked, the rest are the gaps of `ts`. */
  lemma SteadyStep(prev: real, ts: seq<real>, delta: real, lim: Limits)
    requires ts != []
    ensures SteadyFrom(delta, Gaps([prev] + ts), lim)
              == ((delta >= 0.0 ==> KeepsPace(delta, ts[0] - prev, lim)) && SteadyFrom(ts[0] - prev, Gaps(ts), lim))
    ensures LastGap(delta, [prev] + ts) == LastGap(ts[0] - prev, ts)
  {
    ConsGaps(prev, ts);
    ConsLastGap(prev, ts, delta);
    var g := Gaps([prev] + ts);
    assert g != [] && g[0] == ts[0] - prev && g[1..] == Gaps(ts);
  }

  /** The loop's verdict told over the times themselves: each gap after `prev` keeps pace with
      the one before it, unless that one is negative. */
  predicate KeptFrom(prev: real, delta: real, ts: seq<real>, lim: Limits)
    decreases |ts|
  {
    ts == [] || ((delta >= 0.0 ==> KeepsPace(delta, ts[0] - prev, lim)) && KeptFrom(ts[0], ts[0] - prev, ts[1..], lim))
  }

  /** The gap the loop ends on. */
  function FinalGap(prev: real, delta: real, ts: seq<real>): real
    decreases |ts|
  {
    if ts == [] then delta else FinalGap(ts[0], ts[0] - prev, ts[1..])
  }

  /** When every note's time reads, as `ts`, the loop keeps the match exactly when the times keep
      pace, and then reports the gap it ends on. */
  lemma {:induction false} PaceKept(times: seq<Result<real, TimeError>>, ts: seq<real>, prev: real, delta: real,
                                    lim: Limits)
    requires |times| == |ts|
    requires forall i :: 0 <= i < |times| ==> times[i] == Ok(ts[i])
    ensures Pace(times, prev, delta, lim)
              == Ok(if KeptFrom(prev, delta, ts, lim) then Some(FinalGap(prev, delta, ts)) else None)
    decreases |times|
  {
    if times != [] {
      assert forall i :: 0 <= i < |ts| - 1 ==> times[1..][i] == times[i + 1] && ts[1..][i] == ts[i + 1];
      PaceKept(times[1..], ts[1..], ts[0], ts[0] - prev, lim);
    }
  }

  /** Keeping pace over the times is keeping pace over their gaps, and the final gap is the last. */
  lemma {:induction false} KeptSteady(prev: real, delta: real, ts: seq<real>, lim: Limits)
    ensures KeptFrom(prev, delta, ts, lim) == SteadyFrom(delta, Gaps([prev] + ts), lim)
    ensures FinalGap(prev, delta, ts) == LastGap(delta, [prev] + ts)
    decreases |ts|
  {
    if ts == [] {
      assert Gaps([prev] + ts) == [];
    } else {
      KeptSteady(ts[0], ts[0] - prev, ts[1..], lim);
      assert [ts[0]] + ts[1..] == ts;
      SteadyStep(prev, ts, delta, lim);
    }
  }

  /** Times that all read, as `ts`, are kept exactly when their gaps keep pace; a kept candidate
      reports its first time and its last gap, or `0` for a single note. */
  lemma VerdictSteady(times: seq<Result<real, TimeError>>, ts: seq<real>, lim: Limits)
    requires times != [] && |times| == |ts|
    requires forall i :: 0 <= i < |times| ==> times[i] == Ok(ts[i])
    ensures Verdict(times, lim) == Ok(if Steady(Gaps(ts), lim) then Some((ts[0], LastGap(0.0, ts))) else None)
  {
    if |times| > 1 {
      assert forall i :: 0 <= i < |ts| - 1 ==> times[1..][i] == times[i + 1] && ts[1..][i] == ts[i + 1];
      PaceKept(times[1..], ts[1..], ts[0], -1.0, lim);
      KeptSteady(ts[0], -1.0, ts[1..], lim);
      assert [ts[0]] + ts[1..] == ts;
      SteadyFromIff(-1.0, Gaps(ts), lim);
    } else {
      assert Gaps(ts) == [];
    }
  }

  /** A candidate whose notes' times all read, as `ts`, is judged by the gaps of `ts`. */
  lemma JudgeSteady(m: string, ts: seq<real>, lim: Limits, toReal: string -> Option<real>)
    requires |ts| == |SplitOn(m, "-")|
    requires forall i :: 0 <= i < |ts| ==> NoteTime(SplitOn(m, "-")[i], toReal) == Ok(ts[i])
    ensures Judge(m, lim, toReal)
              == Ok(if Steady(Gaps(ts), lim) then Some((ts[0], LastGap(0.0, ts))) else None)
  {
    VerdictSteady(Times(SplitOn(m, "-"), toReal), ts, lim);
  }

  /** Every kept result comes from a candidate the filter judged kept, in candidate order. */
  lemma {:induction false} FilterKept(ms: seq<string>, lim: Limits, toReal: string -> Option<real>)
    requires Filter(ms, lim, toReal).Ok?
    ensures forall x :: x in Filter(ms, lim, toReal).value ==>
              exists i :: 0 <= i < |ms| && Judge(ms[i], lim, toReal) == Ok(Some(x))
    ensures forall i :: 0 <= i < |ms| && Judge(ms[i], lim, toReal).value.Some? ==>
              Judge(ms[i], lim, toReal).value.value in Filter(ms, lim, toReal).value
    decreases |ms|
  {
    if ms != [] {
      var tail := ms[1..];
      FilterCons(ms, tail, lim, toReal);
      FilterKept(tail, lim, toReal);
      var r := Filter(ms, lim, toReal).value;
      var rest := Filter(tail, lim, toReal).value;
      var head := Judge(ms[0], lim, toReal).value;
      forall x | x in r ensures exists i :: 0 <= i < |ms| && Judge(ms[i], lim, toReal) == Ok(Some(x)) {
        if x !in rest {
          assert Judge(ms[0], lim, toReal) == Ok(Some(x));
        } else {
          var j :| 0 <= j < |tail| && Judge(tail[j], lim, toReal) == Ok(Some(x));
          assert Judge(ms[j + 1], lim, toReal) == Ok(Some(x));
        }
      }
      forall i | 0 <= i < |ms| && Judge(ms[i], lim, toReal).value.Some?
        ensures Judge(ms[i], lim, toReal).value.value in r
      {
        if i > 0 {
          assert ms[i] == tail[i - 1];
          assert Judge(ms[i], lim, toReal).value.value in rest;
        }
      }
    }
  }

  /** A filter that succeeds reports the first candidate's verdict, then the rest's. */
  lemma FilterCons(ms: seq<string>, tail: seq<string>, lim: Limits, toReal: string -> Option<real>)
    requires ms != [] && tail == ms[1..] && Filter(ms, lim, toReal).Ok?
    ensures Judge(ms[0], lim, toReal).Ok? && Filter(tail, lim, toReal).Ok?
    ensures var head := Judge(ms[0], lim, toReal).value;
            Filter(ms, lim, toReal).value == (if head.Some? then [head.value] else []) + Filter(tail, lim, toReal).value
  {
  }
}
