/** The progress loop of `remux_with_progress`: each line is interpreted, the
    elapsed time becomes a percentage of the total duration capped at 100, and an
    update is emitted only when the integer part of that percentage differs from
    the one last emitted (which starts at the sentinel -1). */
module Throttle {
  import opened Common
  import opened ProgressLine

  /** Why the script stops inside the loop. */
  datatype Failure =
    | MalformedClock   // ValueError from unpacking/parsing an `out_time` clock
    | ZeroDuration     // ZeroDivisionError: the probed duration is 0

  /** The state of the loop after some lines: the updates printed so far, the
      integer percent last printed, and the failure that ended the loop, if any. */
  datatype Monitor = Monitor(updates: seq<real>, last: int, failure: Option<Failure>)

  /** Before the first line: nothing printed, sentinel -1. */
  const Initial: Monitor := Monitor([], -1, None)

  /** Python's `int(x)` on a float: truncation toward zero. */
  function Trunc(x: real): (n: int)
    ensures 0.0 <= x ==> n as real <= x < n as real + 1.0
    ensures x < 0.0 ==> n as real - 1.0 < x <= n as real
  {
    if x >= 0.0 then x.Floor else -((-x).Floor)
  }

  /** `min(done / total * 100, 100)`. */
  function Percent(done: real, total: real): (p: real)
    requires total != 0.0
    ensures p <= 100.0 && p <= done / total * 100.0
    ensures p == 100.0 || p == done / total * 100.0
  {
    if 100.0 < done / total * 100.0 then 100.0 else done / total * 100.0
  }

  /** With a positive duration and a non-negative elapsed time the percentage lies
      in [0, 100], equals the exact ratio up to the total, and is exactly 100 from
      the total on. */
  lemma PercentBounds(done: real, total: real)
    requires total > 0.0 && done >= 0.0
    ensures 0.0 <= Percent(done, total) <= 100.0
    ensures done <= total ==> Percent(done, total) == done / total * 100.0
    ensures Percent(done, total) == 100.0 <==> done >= total
  {
    var q := done / total;
    var inv := 1.0 / total;
    assert inv > 0.0;
    assert q == done * inv;
    assert total * inv == 1.0;
    if done < total {
      MulStrict(done, total, inv);
    } else {
      MulMono(total, done, inv);
    }
  }

  lemma MulStrict(a: real, b: real, c: real)
    requires a < b && c > 0.0
    ensures a * c < b * c
  {
    assert (b - a) * c > 0.0;
  }

  lemma MulMono(a: real, b: real, c: real)
    requires a <= b && c > 0.0
    ensures a * c <= b * c
  {
    assert (b - a) * c >= 0.0;
  }

  /** One iteration of the loop on an interpreted line. A finished (failed) loop
      takes no further lines. */
  function Step(m: Monitor, reading: Reading, total: real): (r: Monitor)
    ensures m.failure.Some? ==> r == m
    ensures reading.Unrelated? ==> r == m
    ensures r.updates == m.updates
         || (m.failure.None? && r.failure.None? && reading.Elapsed?
             && |r.updates| == |m.updates| + 1 && r.updates[..|m.updates|] == m.updates)
    ensures |r.updates| == |m.updates| + 1 ==>
      reading.Elapsed? && total != 0.0 && r.updates[|m.updates|] == Percent(reading.seconds, total)
    ensures |r.updates| == |m.updates| + 1 ==> r.last == Trunc(r.updates[|m.updates|]) && r.last != m.last
    ensures |r.updates| == |m.updates| ==> r.last == m.last
    ensures m.failure.None? ==> (r.failure == Some(MalformedClock) <==> reading.BadClock?)
    ensures m.failure.None? && reading.Elapsed? ==> (r.failure == Some(ZeroDuration) <==> total == 0.0)
    ensures m.failure.None? && reading.Elapsed? && total != 0.0 ==>
      (|r.updates| == |m.updates| + 1 <==> Trunc(Percent(reading.seconds, total)) != m.last)
  {
    if m.failure.Some? then m
    else
      match reading
      case Unrelated => m
      case BadClock => m.(failure := Some(MalformedClock))
      case Elapsed(done) =>
        if total == 0.0 then m.(failure := Some(ZeroDuration))
        else
          var p := Percent(done, total);
          if Trunc(p) != m.last then Monitor(m.updates + [p], Trunc(p), None) else m
  }

  /** The loop after taking the interpreted lines `rs`, in order. At most one update
      per reading, and the sentinel stays until something is printed. */
  function Scan(rs: seq<Reading>, total: real): (m: Monitor)
    ensures |m.updates| <= |rs|
    ensures |m.updates| == 0 ==> m.last == -1
  {
    if |rs| == 0 then Initial
    else Step(Scan(rs[..|rs| - 1], total), rs[|rs| - 1], total)
  }

  /** Each line of the engine's output, interpreted. */
  function Interpretations(lines: seq<string>): (rs: seq<Reading>)
    ensures |rs| == |lines|
    ensures forall i :: 0 <= i < |lines| ==> rs[i] == Interpret(lines[i])
  {
    seq(|lines|, i requires 0 <= i < |lines| => Interpret(lines[i]))
  }

  /** What the engine's lines can yield is never a negative elapsed time. */
  lemma InterpretationsNonNegative(lines: seq<string>)
    ensures NonNegative(Interpretations(lines))
  {
  }

  /** The loop after reading `lines`: at most one update per line. */
  function Run(lines: seq<string>, total: real): (m: Monitor)
    ensures |m.updates| <= |lines|
    ensures |m.updates| == 0 ==> m.last == -1
  {
    Scan(Interpretations(lines), total)
  }

  /** The percentages of the recognised lines, throttling aside. */
  function Readings(rs: seq<Reading>, total: real): seq<real>
    requires total != 0.0
  {
    if |rs| == 0 then []
    else
      Readings(rs[..|rs| - 1], total)
      + match rs[|rs| - 1]
        case Elapsed(done) => [Percent(done, total)]
        case _ => []
  }

  /** Independent statement of the throttle: keep a reading exactly when its integer
      part differs from that of the reading just before it (the first reading is
      kept when its integer part is not the sentinel -1). */
  function ChangePoints(ps: seq<real>): seq<real>
  {
    if |ps| == 0 then []
    else
      ChangePoints(ps[..|ps| - 1])
      + if (if |ps| == 1 then -1 else Trunc(ps[|ps| - 2])) != Trunc(ps[|ps| - 1]) then [ps[|ps| - 1]] else []
  }

  /** Elapsed times are never negative: neither pattern captures a sign. */
  predicate NonNegative(rs: seq<Reading>)
  {
    forall i :: 0 <= i < |rs| ==> rs[i].Elapsed? ==> rs[i].seconds >= 0.0
  }

  /** No line makes the script fail: every clock capture is well-formed. */
  predicate NoMalformed(rs: seq<Reading>)
  {
    forall i :: 0 <= i < |rs| ==> !rs[i].BadClock?
  }

  /** The properties the throttle keeps: the last emitted integer percent is the
      sentinel exactly when nothing was printed, and otherwise the integer part of
      the last update; consecutive updates differ in integer part; every update
      lies in [0, 100]. */
  ghost predicate Throttled(m: Monitor)
  {
    && (|m.updates| == 0 <==> m.last == -1)
    && (|m.updates| > 0 ==> m.last == Trunc(m.updates[|m.updates| - 1]))
    && (forall k :: 0 < k < |m.updates| ==> Trunc(m.updates[k - 1]) != Trunc(m.updates[k]))
    && (forall k :: 0 <= k < |m.updates| ==> 0.0 <= m.updates[k] <= 100.0)
  }

  /** With a positive duration, whatever readings arrive, the loop keeps `Throttled`. */
  lemma {:induction false} ScanIsThrottled(rs: seq<Reading>, total: real)
    requires total > 0.0 && NonNegative(rs)
    ensures Throttled(Scan(rs, total))
  {
    if |rs| > 0 {
      ScanIsThrottled(rs[..|rs| - 1], total);
      var r := rs[|rs| - 1];
      if r.Elapsed? {
        PercentBounds(r.seconds, total);
      }
    }
  }

  /** The same for the lines themselves: no line sequence breaks the throttle. */
  lemma RunIsThrottled(lines: seq<string>, total: real)
    requires total > 0.0
    ensures Throttled(Run(lines, total))
  {
    InterpretationsNonNegative(lines);
    ScanIsThrottled(Interpretations(lines), total);
  }

  /** Readings that carry no progress leave the loop where it was. */
  lemma {:induction false} UnrelatedChangeNothing(rs: seq<Reading>, more: seq<Reading>, total: real)
    requires forall i :: 0 <= i < |more| ==> more[i].Unrelated?
    ensures Scan(rs + more, total) == Scan(rs, total)
  {
    if |more| > 0 {
      var all := rs + more;
      assert all[..|all| - 1] == rs + more[..|more| - 1];
      assert all[|all| - 1] == more[|more| - 1];
      UnrelatedChangeNothing(rs, more[..|more| - 1], total);
    } else {
      assert rs + more == rs;
    }
  }

  /** The interpretation of lines is taken line by line. */
  lemma InterpretationsAppend(before: seq<string>, line: string)
    ensures Interpretations(before + [line]) == Interpretations(before) + [Interpret(line)]
  {
  }

  /** After readings that carry no progress, the first reading with a time always
      prints, because the sentinel -1 is never the integer part of a percentage in
      [0, 100]. */
  lemma FirstElapsedEmits(before: seq<Reading>, r: Reading, total: real)
    requires total > 0.0
    requires forall i :: 0 <= i < |before| ==> before[i].Unrelated?
    requires r.Elapsed? && r.seconds >= 0.0
    ensures Scan(before + [r], total).updates == [Percent(r.seconds, total)]
  {
    UnrelatedChangeNothing([], before, total);
    assert [] + before == before;
    assert (before + [r])[..|before|] == before;
    PercentBounds(r.seconds, total);
  }

  /** The first recognised line always prints, whatever skipped lines came before. */
  lemma FirstReadingEmits(before: seq<string>, line: string, total: real)
    requires total > 0.0
    requires forall i :: 0 <= i < |before| ==> Interpret(before[i]).Unrelated?
    requires Interpret(line).Elapsed?
    ensures Run(before + [line], total).updates == [Percent(Interpret(line).seconds, total)]
  {
    InterpretationsAppend(before, line);
    FirstElapsedEmits(Interpretations(before), Interpret(line), total);
  }

  /** The last emitted integer percent is that of the latest recognised reading: a
      recognised reading either prints or already has the last printed integer part. */
  lemma {:induction false} LastTracksLatestReading(rs: seq<Reading>, total: real)
    requires total > 0.0 && NonNegative(rs) && NoMalformed(rs)
    ensures Scan(rs, total).failure.None?
    ensures var ps := Readings(rs, total);
      Scan(rs, total).last == if |ps| == 0 then -1 else Trunc(ps[|ps| - 1])
  {
    if |rs| > 0 {
      LastTracksLatestReading(rs[..|rs| - 1], total);
      var r := rs[|rs| - 1];
      if r.Elapsed? {
        PercentBounds(r.seconds, total);
      }
    }
  }

  /** The printed updates are exactly the change points of the readings: the
      throttle compares each reading with the previous reading, never with anything
      older. */
  lemma {:induction false} UpdatesAreChangePoints(rs: seq<Reading>, total: real)
    requires total > 0.0 && NonNegative(rs) && NoMalformed(rs)
    ensures Scan(rs, total).updates == ChangePoints(Readings(rs, total))
  {
    if |rs| > 0 {
      var prefix := rs[..|rs| - 1];
      UpdatesAreChangePoints(prefix, total);
      LastTracksLatestReading(prefix, total);
      var r := rs[|rs| - 1];
      if r.Elapsed? {
        var p := Percent(r.seconds, total);
        PercentBounds(r.seconds, total);
        var ps := Readings(prefix, total);
        var qs := ps + [p];
        assert Readings(rs, total) == qs;
        assert qs[..|qs| - 1] == ps;
        assert qs[|qs| - 1] == p;
        if |ps| > 0 {
          assert qs[|qs| - 2] == ps[|ps| - 1];
        }
      } else {
        assert Readings(rs, total) == Readings(prefix, total);
      }
    }
  }

  /** Output already printed stays printed: taking more lines only appends. */
  lemma {:induction false} UpdatesOnlyGrow(rs: seq<Reading>, more: seq<Reading>, total: real)
    ensures var a, b := Scan(rs, total).updates, Scan(rs + more, total).updates;
      |a| <= |b| && b[..|a|] == a
  {
    if |more| > 0 {
      var all := rs + more;
      assert all[..|all| - 1] == rs + more[..|more| - 1];
      assert all[|all| - 1] == more[|more| - 1];
      UpdatesOnlyGrow(rs, more[..|more| - 1], total);
    } else {
      assert rs + more == rs;
    }
  }

  /** A failure ends the loop: no later line changes anything. */
  lemma {:induction false} FailureIsFinal(rs: seq<Reading>, more: seq<Reading>, total: real)
    requires Scan(rs, total).failure.Some?
    ensures Scan(rs + more, total) == Scan(rs, total)
  {
    if |more| > 0 {
      var all := rs + more;
      assert all[..|all| - 1] == rs + more[..|more| - 1];
      assert all[|all| - 1] == more[|more| - 1];
      FailureIsFinal(rs, more[..|more| - 1], total);
    } else {
      assert rs + more == rs;
    }
  }
}
