/** Progress of a transfer, reported often enough and not too often. */
module Progress {
  import opened Wrappers
  import opened ByteSeqs

  // Times are in nanoseconds.
  const MIN_INTERVAL: nat := 250_000_000

  datatype Throttle = Throttle(lastPercent: int, lastAt: Option<nat>, started: bool)

  const FRESH := Throttle(0, None, false)

  /** A whole percentage, or -1 when the total is unknown. */
  function Percent(received: nat, total: nat): (p: int)
    ensures total == 0 ==> p == -1
    ensures total > 0 ==> 0 <= p <= 100 && (p == 100 <==> received >= total)
    ensures received < total ==> p * total <= 100 * received < (p + 1) * total
  {
    if total == 0 then -1
    else
      PercentOfPart(Min(received, total), total);
      Min(received, total) * 100 / total
  }

  lemma MulGrows(x: int, y: int, n: nat)
    requires x <= y
    ensures x * n <= y * n
  {
  }

  lemma QuotientBounds(a: nat, n: nat)
    requires n > 0
    ensures a / n * n <= a < a / n * n + n
  {
  }

  /** A quotient is at least `k` exactly when the dividend reaches `k` times the divisor. */
  lemma QuotientReaches(a: nat, n: nat, k: nat)
    requires n > 0
    ensures a / n >= k <==> a >= k * n
  {
    var q := a / n;
    QuotientBounds(a, n);
    if q >= k {
      MulGrows(k, q, n);
    } else {
      MulGrows(q + 1, k, n);
      NextMultiple(q, n);
    }
  }

  lemma NextMultiple(q: nat, n: nat)
    ensures (q + 1) * n == q * n + n
  {
  }

  lemma PercentOfPart(part: nat, total: nat)
    requires part <= total && total > 0
    ensures 0 <= part * 100 / total <= 100 && (part * 100 / total == 100 <==> part == total)
    ensures var p := part * 100 / total; p * total <= 100 * part < (p + 1) * total
  {
    QuotientReaches(part * 100, total, 100);
    QuotientReaches(part * 100, total, 101);
    QuotientBetween(part * 100, total, part * 100 / total);
  }

  lemma QuotientBetween(a: nat, n: nat, q: nat)
    requires n > 0 && q == a / n
    ensures q * n <= a < (q + 1) * n
  {
    QuotientBounds(a, n);
    NextMultiple(q, n);
  }

  lemma QuotientGrows(a: nat, b: nat, n: nat)
    requires a <= b && n > 0
    ensures a / n <= b / n
  {
    QuotientReaches(a, n, a / n);
    QuotientReaches(b, n, a / n);
  }

  /** More of the same total is no smaller a percentage. */
  lemma PercentGrows(received: nat, more: nat, total: nat)
    requires received <= more
    ensures Percent(received, total) <= Percent(more, total)
  {
    if total > 0 {
      QuotientGrows(Min(received, total) * 100, Min(more, total) * 100, total);
    }
  }

  predicate ShouldEmit(t: Throttle, now: nat, received: nat, total: nat) {
    || !t.started
    || (Percent(received, total) != t.lastPercent && Percent(received, total) >= 0)
    || t.lastAt.None?
    || (now >= t.lastAt.value && now - t.lastAt.value >= MIN_INTERVAL)
  }

  /** A report is also forced at completion. */
  predicate Emits(t: Throttle, now: nat, received: nat, total: nat) {
    ShouldEmit(t, now, received, total) || (total > 0 && received >= total)
  }

  function After(t: Throttle, now: nat, received: nat, total: nat): Throttle {
    if Emits(t, now, received, total) then Throttle(Percent(received, total), Some(now), true) else t
  }

  class Sink {
    const enabled: bool
    var throttle: Throttle

    constructor (enabled: bool)
      ensures this.enabled == enabled && throttle == FRESH
    {
      this.enabled := enabled;
      throttle := FRESH;
    }

    method ResetThrottle()
      modifies this
      ensures throttle == FRESH
    {
      throttle := FRESH;
    }

    method Report(received: nat, total: nat, now: nat) returns (emitted: bool)
      modifies this
      ensures emitted == (enabled && Emits(old(throttle), now, received, total))
      ensures throttle == if enabled then After(old(throttle), now, received, total) else old(throttle)
    {
      if !enabled {
        return false;
      }
      var force := total > 0 && received >= total;
      var decision := ShouldEmit(throttle, now, received, total);
      if decision || force {
        throttle := throttle.(started := true);
        throttle := throttle.(lastPercent := Percent(received, total));
        throttle := throttle.(lastAt := Some(now));
      }
      emitted := decision || force;
    }
  }

  // ---- A whole transfer ----

  datatype Call = Call(received: nat, now: nat)

  function Run(t: Throttle, total: nat, calls: seq<Call>): Throttle
    decreases |calls|
  {
    if calls == [] then t else Run(After(t, calls[0].now, calls[0].received, total), total, calls[1..])
  }

  /** The reports of a run that came before completion. */
  function Reports(t: Throttle, total: nat, calls: seq<Call>): nat
    decreases |calls|
  {
    if calls == [] then 0
    else
      (if Emits(t, calls[0].now, calls[0].received, total) && (total == 0 || calls[0].received < total) then 1 else 0)
      + Reports(After(t, calls[0].now, calls[0].received, total), total, calls[1..])
  }

  /** Neither the clock nor the byte count goes back. */
  predicate GoesOn(calls: seq<Call>, received: nat, now: nat) {
    calls == [] || (received <= calls[0].received && now <= calls[0].now
      && GoesOn(calls[1..], calls[0].received, calls[0].now))
  }

  function LastTime(calls: seq<Call>, now: nat): nat {
    if calls == [] then now else LastTime(calls[1..], calls[0].now)
  }

  lemma {:induction false} TimeGoesOn(calls: seq<Call>, received: nat, now: nat)
    requires GoesOn(calls, received, now)
    ensures now <= LastTime(calls, now)
    decreases |calls|
  {
    if calls != [] {
      TimeGoesOn(calls[1..], calls[0].received, calls[0].now);
    }
  }

  /** With a known total, what was last reported is always the current percentage. */
  lemma {:induction false} ReportedIsCurrent(t: Throttle, total: nat, calls: seq<Call>)
    requires total > 0 && calls != []
    ensures Run(t, total, calls).lastPercent == Percent(calls[|calls| - 1].received, total)
    decreases |calls|
  {
    var next := After(t, calls[0].now, calls[0].received, total);
    if |calls| == 1 {
      assert Run(next, total, calls[1..]) == next;
    } else {
      ReportedIsCurrent(next, total, calls[1..]);
    }
  }

  /** After every call the last report is younger than the interval. */
  lemma {:induction false} ReportsAreFrequent(t: Throttle, total: nat, calls: seq<Call>, received: nat, now: nat)
    requires calls != [] && GoesOn(calls, received, now) && (t.started ==> t.lastAt.Some? && t.lastAt.value <= now)
    ensures var s := Run(t, total, calls);
            s.lastAt.Some? && s.lastAt.value <= LastTime(calls, now) < s.lastAt.value + 250_000_000
    decreases |calls|
  {
    var c := calls[0];
    var next := After(t, c.now, c.received, total);
    if |calls| == 1 {
      assert Run(next, total, calls[1..]) == next;
    } else {
      ReportsAreFrequent(next, total, calls[1..], c.received, c.now);
    }
  }

  /** Whether call `i` of a new transfer is reported. */
  predicate Reported(total: nat, calls: seq<Call>, i: nat)
    requires i < |calls|
  {
    Emits(Run(FRESH, total, calls[..i]), calls[i].now, calls[i].received, total)
  }

  lemma {:induction false} RunSnoc(t: Throttle, total: nat, calls: seq<Call>, c: Call)
    ensures Run(t, total, calls + [c]) == After(Run(t, total, calls), c.now, c.received, total)
    decreases |calls|
  {
    if calls == [] {
      var none: seq<Call> := [];
      assert calls + [c] == [c] && [c][1..] == none;
    } else {
      assert (calls + [c])[0] == calls[0] && (calls + [c])[1..] == calls[1..] + [c];
      RunSnoc(After(t, calls[0].now, calls[0].received, total), total, calls[1..], c);
    }
  }

  /** Before call `i` the throttle holds the last percentage seen and the time of the last report. */
  lemma {:induction false} LastReport(total: nat, calls: seq<Call>, i: nat) returns (j: nat)
    requires 0 < i <= |calls|
    ensures j < i && Reported(total, calls, j) && forall k :: j < k < i ==> !Reported(total, calls, k)
    ensures Run(FRESH, total, calls[..i]) == Throttle(Percent(calls[i - 1].received, total), Some(calls[j].now), true)
    decreases i
  {
    hide Percent;
    assert calls[..i] == calls[..i - 1] + [calls[i - 1]];
    RunSnoc(FRESH, total, calls[..i - 1], calls[i - 1]);
    if i == 1 {
      var none: seq<Call> := [];
      assert calls[..0] == none;
      j := 0;
    } else {
      var before := LastReport(total, calls, i - 1);
      hide Run;
      j := if Reported(total, calls, i - 1) then i - 1 else before;
      UnknownStays(calls[i - 2].received, calls[i - 1].received, total);
    }
  }

  lemma UnknownStays(received: nat, more: nat, total: nat)
    ensures Percent(more, total) < 0 ==> Percent(received, total) == Percent(more, total)
  {
  }

  lemma {:induction false} ClockOf(calls: seq<Call>, received: nat, now: nat, k: nat, j: nat)
    requires GoesOn(calls, received, now) && k <= j < |calls|
    ensures now <= calls[k].now <= calls[j].now
    decreases |calls|
  {
    if k > 0 {
      ClockOf(calls[1..], calls[0].received, calls[0].now, k - 1, j - 1);
    } else if j > 0 {
      ClockOf(calls[1..], calls[0].received, calls[0].now, j - 1, j - 1);
    }
  }

  /**
   * Which calls of a transfer are reported, in terms of the calls alone: the first, every call at completion,
   * every change of the percentage, and every call an interval or more after all reports before it.
   */
  lemma ReportedIff(total: nat, calls: seq<Call>, i: nat)
    requires i < |calls| && GoesOn(calls, calls[0].received, calls[0].now)
    ensures Reported(total, calls, i) <==>
            || i == 0
            || (total > 0 && calls[i].received >= total)
            || Percent(calls[i].received, total) != Percent(calls[i - 1].received, total)
            || forall j :: 0 <= j < i && Reported(total, calls, j) ==> calls[i].now - calls[j].now >= 250_000_000
  {
    if i == 0 {
      var none: seq<Call> := [];
      assert calls[..0] == none;
    } else {
      var j := LastReport(total, calls, i);
      UnknownStays(calls[i - 1].received, calls[i].received, total);
      forall k | 0 <= k < i && Reported(total, calls, k)
        ensures calls[k].now <= calls[j].now <= calls[i].now
      {
        assert k <= j;
        ClockOf(calls, calls[0].received, calls[0].now, k, j);
        ClockOf(calls, calls[0].received, calls[0].now, j, i);
      }
      hide Percent, Run;
    }
  }

  /** How many more percentages there are below completion. */
  function StepsLeft(percent: int): nat {
    if percent < 99 then if percent < 0 then 0 else 99 - percent else 0
  }

  lemma Intervals(a: nat, b: nat, c: nat)
    requires a <= b <= c
    ensures (c - b) / MIN_INTERVAL <= (c - a) / MIN_INTERVAL
    ensures b - a >= MIN_INTERVAL ==> 1 + (c - b) / MIN_INTERVAL <= (c - a) / MIN_INTERVAL
  {
  }

  lemma {:induction false} FurtherReports(t: Throttle, total: nat, calls: seq<Call>, received: nat, now: nat)
    requires t.started && t.lastAt.Some? && t.lastAt.value <= now && t.lastPercent == Percent(received, total)
    requires GoesOn(calls, received, now)
    ensures Reports(t, total, calls) <= StepsLeft(t.lastPercent) + (LastTime(calls,
        now) - t.lastAt.value) / MIN_INTERVAL
    decreases |calls|
  {
    TimeGoesOn(calls, received, now);
    if calls != [] {
      var c := calls[0];
      var next := After(t, c.now, c.received, total);
      PercentGrows(received, c.received, total);
      TimeGoesOn(calls[1..], c.received, c.now);
      hide Percent;
      FurtherReports(next, total, calls[1..], c.received, c.now);
      Intervals(t.lastAt.value, c.now, LastTime(calls, now));
    }
  }

  /**
   * Before completion there are never more reports than a hundred and one for every full quarter of a second;
   * with an unknown total one and those.
   */
  lemma ReportsAreBounded(total: nat, calls: seq<Call>)
    requires calls != [] && GoesOn(calls, calls[0].received, calls[0].now)
    ensures Reports(FRESH, total, calls)
            <= (if total == 0 then 1 else 100) + (LastTime(calls, calls[0].now) - calls[0].now) / 250_000_000
  {
    var c := calls[0];
    var next := After(FRESH, c.now, c.received, total);
    FurtherReports(next, total, calls[1..], c.received, c.now);
  }
}
