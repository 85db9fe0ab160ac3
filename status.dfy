/**
 The status aggregator: for each registered target, uptime over the 24-hour
 and 7-day windows, the p95 latency of the 24-hour window's successful
 samples, and the score and grade. Models the loop of `api_status` in
 main.py; the two time-window queries are given as inputs.
 */
module Status {

  import opened Wrappers
  import opened Percentiles
  import opened Scoring
  import opened Probe
  import opened Registry

  /** One entry of the status response (values unrounded). */
  datatype StatusItem = StatusItem(
    url: string,
    uptime24h: real,
    uptime7d: real,
    p95Ms24h: Option<real>,
    totalSamples24h: nat,
    grade: Grade,
    score: real)

  /** `sum(rr["ok"] for rr in window)`: the number of up samples. */
  function CountOk(window: seq<ProbeResult>): (n: nat)
    ensures n <= |window|
    ensures n == 0 <==> forall i :: 0 <= i < |window| ==> !window[i].ok
    ensures n == |window| <==> forall i :: 0 <= i < |window| ==> window[i].ok
  {
    if window == [] then
      0
    else
      var rest := CountOk(window[1..]);
      assert forall i :: 1 <= i < |window| ==> window[i] == window[1..][i - 1];
      (if window[0].ok then 1 else 0) + rest
  }

  /** Counting is sample by sample: the count splits along any split of the window. */
  lemma {:induction false} CountOkAppend(a: seq<ProbeResult>, b: seq<ProbeResult>)
    ensures CountOk(a + b) == CountOk(a) + CountOk(b)
  {
    if a != [] {
      assert (a + b)[0] == a[0];
      assert (a + b)[1..] == a[1..] + b;
      CountOkAppend(a[1..], b);
    } else {
      assert a + b == b;
    }
  }

  lemma DivNonNegative(x: real, y: real)
    requires 0.0 <= x && 0.0 < y
    ensures 0.0 <= x / y
  {
  }

  lemma MulDivCancel(x: real, t: real)
    requires t != 0.0
    ensures x * t / t == x
  {
  }

  /** For 0 <= up <= total, the percentage up / total * 100 is in [0, 100], 0 only for up = 0 and 100 only for up = total. */
  lemma Percentage(up: real, total: real)
    requires 0.0 <= up <= total && 0.0 < total
    ensures 0.0 <= up / total * 100.0 <= 100.0
    ensures up / total * 100.0 == 0.0 <==> up == 0.0
    ensures up / total * 100.0 == 100.0 <==> up == total
  {
    var q := up / total;
    DivNonNegative(up, total);
    assert q * total == up;
    assert (1.0 - q) * total == total - up;
    MulDivCancel(1.0 - q, total);
    DivNonNegative(total - up, total);
  }

  /** Uptime percentage of a window: 100 * up / total, or 0 for an empty window. */
  function Uptime(window: seq<ProbeResult>): (u: real)
    ensures 0.0 <= u <= 100.0
    ensures u == 0.0 <==> forall i :: 0 <= i < |window| ==> !window[i].ok
    ensures u == 100.0 <==> window != [] && forall i :: 0 <= i < |window| ==> window[i].ok
  {
    if window == [] then
      0.0
    else
      var up, total := CountOk(window) as real, |window| as real;
      Percentage(up, total);
      up / total * 100.0
  }

  /** A sample contributes a latency when it is up and carries one. */
  predicate HasOkLatency(r: ProbeResult) {
    r.ok && r.elapsedMs.Some?
  }

  /**
   `[rr["elapsed_ms"] for rr in window if rr["ok"] and rr["elapsed_ms"] is not None]`:
   the latencies of up samples that carry one, in window order.
   */
  function OkLatencies(window: seq<ProbeResult>): (ls: seq<real>)
    ensures |ls| <= |window|
    ensures forall x :: x in ls <==> exists i :: 0 <= i < |window| && HasOkLatency(window[i]) && window[i].elapsedMs.value == x
  {
    if window == [] then
      []
    else
      var rest := OkLatencies(window[1..]);
      assert forall i :: 1 <= i < |window| ==> window[i] == window[1..][i - 1];
      if HasOkLatency(window[0]) then [window[0].elapsedMs.value] + rest else rest
  }

  /** The latency list is taken sample by sample: it splits along any split of the window. */
  lemma {:induction false} OkLatenciesAppend(a: seq<ProbeResult>, b: seq<ProbeResult>)
    ensures OkLatencies(a + b) == OkLatencies(a) + OkLatencies(b)
  {
    if a != [] {
      var head := if HasOkLatency(a[0]) then [a[0].elapsedMs.value] else [];
      assert (a + b)[0] == a[0];
      assert (a + b)[1..] == a[1..] + b;
      assert OkLatencies(a) == head + OkLatencies(a[1..]);
      assert OkLatencies(a + b) == head + OkLatencies(a[1..] + b);
      OkLatenciesAppend(a[1..], b);
    } else {
      assert a + b == b;
    }
  }

  /** A single sample contributes its latency when it is up and has one, and nothing otherwise. */
  lemma OkLatenciesSingle(r: ProbeResult)
    ensures OkLatencies([r]) == if HasOkLatency(r) then [r.elapsedMs.value] else []
  {
  }

  /** When every sample is up with a latency, the latency list is those latencies in window order. */
  lemma {:induction false} AllUpLatencies(window: seq<ProbeResult>, ls: seq<real>)
    requires |window| == |ls|
    requires forall i :: 0 <= i < |window| ==> window[i].ok && window[i].elapsedMs == Some(ls[i])
    ensures OkLatencies(window) == ls
  {
    if window != [] {
      assert HasOkLatency(window[0]);
      AllUpLatencies(window[1..], ls[1..]);
    }
  }

  /**
   Recording one probe extends a window's up count by one exactly when the
   target answered with a 2xx or 3xx status, and its latency list by that
   response's latency in that case only.
   */
  lemma RecordProbe(window: seq<ProbeResult>, checkId: int, outcome: Outcome)
    ensures var up := outcome.Responded? && IsUpStatus(outcome.status);
      && CountOk(window + [Classify(checkId, outcome)]) == CountOk(window) + (if up then 1 else 0)
      && OkLatencies(window + [Classify(checkId, outcome)]) == OkLatencies(window) + (if up then [outcome.elapsedMs] else [])
  {
    var r := Classify(checkId, outcome);
    CountOkAppend(window, [r]);
    OkLatenciesAppend(window, [r]);
    OkLatenciesSingle(r);
  }

  /** The p95 latency of the window's up samples; None when there is none. */
  function P95(window: seq<ProbeResult>): (p: Option<real>)
    ensures p.None? <==> forall i :: 0 <= i < |window| ==> !HasOkLatency(window[i])
  {
    var ls := OkLatencies(window);
    assert ls == [] <==> forall i :: 0 <= i < |window| ==> !HasOkLatency(window[i]) by {
      if ls != [] {
        assert ls[0] in ls;
      }
      if i :| 0 <= i < |window| && HasOkLatency(window[i]) {
        assert window[i].elapsedMs.value in ls;
      }
    }
    Percentile(ls, 95.0)
  }

  /** The snapshot of one target from its 24-hour and 7-day windows. */
  function TargetStatus(url: string, window24h: seq<ProbeResult>, window7d: seq<ProbeResult>): (s: StatusItem)
    ensures s.url == url
    ensures s.totalSamples24h == |window24h|
    ensures s.uptime24h == Uptime(window24h) && s.uptime7d == Uptime(window7d)
    ensures s.p95Ms24h == P95(window24h)
    ensures 0.0 <= s.uptime24h <= 100.0 && 0.0 <= s.uptime7d <= 100.0
    ensures 0.0 <= s.score <= 100.0
    ensures s.p95Ms24h.None? <==> forall i :: 0 <= i < |window24h| ==> !HasOkLatency(window24h[i])
    ensures (s.score, s.grade) == ScoreAndGrade(s.uptime24h, s.p95Ms24h)
  {
    var up24 := Uptime(window24h);
    var up7 := Uptime(window7d);
    var p95 := P95(window24h);
    var (score, grade) := ScoreAndGrade(up24, p95);
    StatusItem(url, up24, up7, p95, |window24h|, grade, score)
  }

  /** A target with no history reports 0% uptime, no p95, no samples, score 0 and grade F. */
  lemma EmptyHistory(url: string)
    ensures TargetStatus(url, [], []) == StatusItem(url, 0.0, 0.0, None, 0, F, 0.0)
  {
  }

  /** The p95 latency lies between the fastest and the slowest up sample. */
  lemma P95Bounds(window: seq<ProbeResult>)
    requires P95(window).Some?
    ensures OkLatencies(window) != []
    ensures MinOf(OkLatencies(window)) <= P95(window).value <= MaxOf(OkLatencies(window))
  {
    PercentileBounds(OkLatencies(window), 95.0);
  }

  /** The reported p95 ignores the order in which samples were recorded. */
  lemma P95OrderFree(a: seq<ProbeResult>, b: seq<ProbeResult>)
    requires multiset(OkLatencies(a)) == multiset(OkLatencies(b))
    ensures P95(a) == P95(b)
  {
    PercentilePermutation(OkLatencies(a), OkLatencies(b), 95.0);
  }

  /**
   A worked case: a day of ten samples, eight up with latencies 100, 150,
   ..., 450 ms and two failures, gives 80% uptime and a p95 of 432.5 ms,
   hence score 0.7 * 80 + 0.3 * 100 * (3000 - 432.5) / 2700 and grade B.
   */
  lemma StatusExample(url: string, ups: seq<ProbeResult>, downs: seq<ProbeResult>)
    requires |ups| == 8 && |downs| == 2
    requires forall i :: 0 <= i < 8 ==> ups[i].ok && ups[i].elapsedMs == Some(100.0 + 50.0 * i as real)
    requires forall i :: 0 <= i < 2 ==> !downs[i].ok
    ensures var s := TargetStatus(url, ups + downs, ups + downs);
      && s.uptime24h == 80.0
      && s.p95Ms24h == Some(432.5)
      && s.totalSamples24h == 10
      && s.score == 0.7 * 80.0 + 0.3 * (100.0 * (3000.0 - 432.5) / 2700.0)
      && s.grade == B
  {
    var w := ups + downs;
    assert Uptime(w) == 80.0 by {
      CountOkAppend(ups, downs);
      assert CountOk(downs) == 0;
    }
    assert P95(w) == Some(432.5) by {
      var ls := [100.0, 150.0, 200.0, 250.0, 300.0, 350.0, 400.0, 450.0];
      AllUpLatencies(ups, ls);
      OkLatenciesAppend(ups, downs);
      NoUpNoLatencies(downs);
      assert OkLatencies(w) == ls;
      PercentileExample(ls);
    }
    ScoreExamples();
  }

  /** A window without an up sample contributes no latency. */
  lemma NoUpNoLatencies(window: seq<ProbeResult>)
    requires forall i :: 0 <= i < |window| ==> !window[i].ok
    ensures OkLatencies(window) == []
  {
  }

  /**
   `api_status`: one snapshot per registered target, in registry order.
   `fetch24h` and `fetch7d` stand for the two time-window queries of the
   result store.
   */
  method ApiStatus(registry: Registry, fetch24h: int -> seq<ProbeResult>, fetch7d: int -> seq<ProbeResult>)
      returns (out: seq<StatusItem>)
    requires registry.Valid()
    ensures |out| == |registry.rows|
    ensures forall i :: 0 <= i < |out| ==>
      out[i] == TargetStatus(registry.rows[i].url, fetch24h(registry.rows[i].id), fetch7d(registry.rows[i].id))
  {
    var rows := registry.SelectAll();
    out := [];
    for k := 0 to |rows|
      invariant |out| == k
      invariant forall i :: 0 <= i < k ==>
        out[i] == TargetStatus(rows[i].url, fetch24h(rows[i].id), fetch7d(rows[i].id))
    {
      var r := rows[k];
      var r24 := fetch24h(r.id);
      var r7 := fetch7d(r.id);
      var item := TargetStatus(r.url, r24, r7);
      ghost var prev := out;
      out := out + [item];
      assert forall i :: 0 <= i < |prev| ==> out[i] == prev[i];
    }
  }

}
