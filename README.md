# uptime-watchdog, modelled in Dafny

uptime-watchdog is a small HTTP uptime monitor. It keeps a registry of target
URLs. A background probe sends a GET to each target and records one result per
probe: up or down, the status code, the latency and the error text. A status
endpoint summarises each target:

- uptime over the last 24 hours and the last 7 days;
- the 95th-percentile latency of the day's successful probes;
- a composite score in [0, 100] and a letter grade from A+ to F.

This project models that core of `main.py` and proves properties about it.

| module (file) | models |
|---|---|
| `Wrappers` (`wrappers.dfy`) | `Option`, for Python's `None` |
| `Percentiles` (`percentiles.dfy`) | `percentile`: sorting, the real rank, floor/ceil and linear interpolation |
| `Scoring` (`scoring.dfy`) | `score_and_grade`: clamping, the latency ramp, the weighted score, the grade ladder |
| `Probe` (`probe.dfy`) | the classification in `check_once`, and the append-only results table as a class |
| `Registry` (`registry.dfy`) | `insert_check` and `select_all_checks` over an in-memory `checks` table (a class, specified by a pure `Upsert` on a table value) |
| `Status` (`status.dfy`) | the per-target aggregation of `api_status`: counting up samples, uptime, latency filtering, p95, score and grade, and the loop over all targets |

Numbers are Dafny `real`, so arithmetic is exact. Python's floats and its
`round(…, 1)` / `round(…, 2)` on the reported values are not modelled. The
status entry therefore carries the unrounded values. Its grade is a `Grade`
value, whose `Label()` is the string the endpoint reports.

The two time-window queries of the results store (samples of one target since
24 hours ago, and since 7 days ago) are parameters of `Status.ApiStatus`. They
are functions from a target id to a window of results. The clock, timestamps
and SQL filtering happen outside the model.

A response with a status outside 2xx/3xx does not produce an error record:
`check_once` (main.py:172-174) still stores its status code and latency, and
only `ok` is false. Only an exception (timeout, connection failure) yields a
record with no status, no latency and an error message. The model follows the code (`Probe.Classify`).
Such a latency never reaches the p95, because only `ok` samples contribute
(main.py:216).

## Model

| member | source | states |
|---|---|---|
| Percentiles.Sort | main.py:121 | `sorted(values)`: the result is ordered and is a permutation of the input (same length, same multiset) |
| Percentiles.SortSorted | main.py:121 | sorting an already ordered list returns it unchanged (any two ordered permutations of the same multiset are equal) |
| Percentiles.SortEnds | main.py:121 | the first element after sorting is the minimum, the last is the maximum |
| Percentiles.Floor | main.py:123 | `math.floor`: the greatest integer not above k |
| Percentiles.Ceil | main.py:124 | `math.ceil`: the least integer not below k; it equals floor(k) exactly when k is whole, and floor(k) + 1 otherwise |
| Percentiles.RankIndices | main.py:122-124 | for a non-empty sample and p in [0, 100], floor and ceil of the rank (n - 1) * p / 100 are valid indices at most one apart |
| Percentiles.Interpolate | main.py:122-129 | the floor and ceil of the rank are valid indices; when the rank k is whole the result is the sorted element at k; on a sorted sample the result lies between the elements at floor(k) and ceil(k) |
| Percentiles.InterpolateStrict | main.py:125-129 | at a fractional rank over a sorted sample whose two neighbours differ, the result lies strictly between them, so it is linear interpolation and neither nearest rank |
| Percentiles.InterpolateBounds | main.py:125-129 | the interpolated value of a sorted sample lies between its first and last element |
| Percentiles.InterpolateEnds | main.py:122-126 | at p = 0 the interpolation returns the first element, at p = 100 the last |
| Percentiles.Percentile | main.py:118-129 | `None` exactly for the empty sample, a value otherwise |
| Percentiles.PercentileBounds | main.py:118-129 | the percentile lies between the sample's minimum and maximum |
| Percentiles.PercentileExtremes | main.py:118-129 | the 0th percentile is the minimum, the 100th the maximum |
| Percentiles.PercentileIntegralRank | main.py:125-126 | when the rank is whole, the result is exactly the sorted sample at that index |
| Percentiles.PercentilePermutation | main.py:118-129 | the result depends only on the multiset of samples, not their order |
| Percentiles.PercentileOfSorted | main.py:118-129 | on an already sorted sample, the percentile is the interpolation over the sample itself |
| Percentiles.PercentileExample | main.py:118-129 | the 95th percentile of 100, 150, …, 450 is 432.5 (rank 6.65, between 400 and 450) |
| Scoring.ClampPercent | main.py:132 | the uptime score is the uptime clamped to [0, 100], and equals it inside that range |
| Scoring.LatencyScore | main.py:133-141 | the latency score is within [0, 100] |
| Scoring.Score | main.py:142 | the composite score is within [0, 100] |
| Scoring.GradeOf | main.py:143-164 | F exactly below 60; otherwise the score meets its grade's threshold and misses every better grade's threshold |
| Scoring.ScoreAndGrade | main.py:131-165 | the score is the weighted score of line 142, within [0, 100], and the grade is the one the ladder gives that score |
| Scoring.GradeMonotone | main.py:143-164 | a higher score never earns a lower grade |
| Scoring.LatencyScoreAntitone | main.py:135-141 | the latency score never rises as the p95 grows |
| Scoring.ScoreMonotoneInUptime | main.py:132-142 | the score never falls as uptime grows |
| Scoring.ScoreAntitoneInLatency | main.py:133-142 | the score never rises as the p95 grows |
| Scoring.MissingLatencyIsWorst | main.py:133-141 | a missing p95 scores no better than any latency, and exactly like a p95 of 3000 ms or more |
| Scoring.LatencyScoreIsClippedRamp | main.py:135-141 | the three latency branches are one linear ramp from (300 ms, 100) to (3000 ms, 0) applied to the clipped latency |
| Scoring.ScoreExamples | main.py:131-165 | concrete scores and grades, including that grade thresholds are inclusive (97 is A+, 96.99 is A, 60 is D, 59.99 is F) |
| Scoring.LabelsDistinct | main.py:143-164 | the eleven grades report eleven distinct labels |
| Probe.Truncate | main.py:175 | `s[:n]`: a prefix of s, of length at most n, equal to s when s is short enough |
| Probe.Classify | main.py:167-175 | the record is well formed; it is up exactly for a 2xx/3xx response; a response keeps its status and latency; an exception stores its message cut to its first 300 characters (the whole message when shorter), with no status and no latency |
| Probe.ResultLog.constructor | main.py:45-54 | the results table starts empty |
| Probe.ResultLog.CheckOnce | main.py:167-175 | each probe appends exactly one record, the classified one, and keeps every stored record well formed |
| Registry.IdOf | main.py:93 | the lookup by URL finds nothing exactly when no row holds the URL, and otherwise an id of a row holding it |
| Registry.Upsert | main.py:85-98 | a known URL returns its id and leaves the table unchanged; a new URL is appended under the next id, which is returned and then advanced; old rows are always kept, and the URL is held by a row with the returned id |
| Registry.UpsertValid | main.py:85-98 | registration keeps ids positive, increasing and below the next id, and URLs unique; it never changes existing rows; afterwards the URL is registered under the returned id |
| Registry.UniqueUrlLookup | main.py:93 | with unique URLs, the lookup returns the id of the one row holding the URL |
| Registry.UpsertIdempotent | main.py:85-98 | registering a URL twice returns the same id and leaves the table as the first call left it |
| Registry.UpsertSize | main.py:85-98 | a new URL adds exactly one row; a known URL adds none |
| Registry.Registry.constructor | main.py:38-42 | the table starts empty, with the first id 1 |
| Registry.Registry.Insert | main.py:85-98 | `insert_check`: the new table and id are those of `Upsert`; the invariant holds, old rows are kept, and the URL maps to the returned id |
| Registry.Registry.SelectAll | main.py:79-83 | all rows, in strictly ascending id order |
| Status.CountOk | main.py:214-215 | the up count is at most the window size; 0 exactly when no sample is up, the window size exactly when all are |
| Status.CountOkAppend | main.py:214-215 | the up count of a concatenation is the sum of the up counts |
| Status.Percentage | main.py:214-215 | up / total * 100 lies in [0, 100], is 0 only for no up samples and 100 only when every sample is up |
| Status.Uptime | main.py:214-215 | uptime is within [0, 100]; it is 0 exactly when no sample is up (including the empty window) and 100 exactly when the window is non-empty and every sample is up |
| Status.OkLatencies | main.py:216 | a value is in the latency list exactly when some up sample carries it; the list is no longer than the window |
| Status.OkLatenciesAppend | main.py:216 | the latency list of a concatenation is the concatenation of the latency lists |
| Status.OkLatenciesSingle | main.py:216 | one sample contributes its latency when up and carrying one, and nothing otherwise |
| Status.AllUpLatencies | main.py:216 | when every sample is up with a latency, the list is those latencies in window order |
| Status.NoUpNoLatencies | main.py:216 | a window without up samples yields an empty latency list |
| Status.RecordProbe | main.py:167-175 | recording one probe adds one to the up count and its latency to the list exactly when the target answered 2xx/3xx |
| Status.P95 | main.py:216-217 | the p95 is absent exactly when no sample is up with a latency |
| Status.P95Bounds | main.py:216-217 | a present p95 lies between the fastest and slowest up latency |
| Status.P95OrderFree | main.py:216-217 | the p95 does not depend on the order in which latencies were recorded |
| Status.TargetStatus | main.py:212-228 | one entry: the target's URL, the 24-hour uptime, 7-day uptime and p95 taken from the right windows, the 24-hour sample count, both uptimes in [0, 100], the p95 absent exactly without up latencies, and score and grade as `score_and_grade` gives them for the 24-hour uptime and p95 |
| Status.EmptyHistory | main.py:214-218 | a target without samples reports 0% uptime, no p95, 0 samples, score 0 and grade F |
| Status.StatusExample | main.py:211-228 | ten samples of which eight are up with latencies 100 … 450 ms give 80% uptime, p95 432.5 ms and grade B |
| Status.ApiStatus | main.py:204-230 | one entry per registered target, in registry order, each the target's `TargetStatus` over its two windows |

## Left out

- The SQLite layer is not modelled: connections, schema creation, commits and `insert_result` as SQL. The tables are sequences held in memory.
- Timestamps, `now_utc_iso` and the `ts >= since` filter of `fetch_results_since` are not modelled. The 24-hour and 7-day windows are inputs to `Status.ApiStatus`.
- The HTTP client, the timeout and the latency measurement are not modelled. A probe's outcome, a status with a latency or an exception message, is an input to `Probe.Classify`.
- `monitor_loop`, `asyncio.gather`, the probe interval and the startup hook are not modelled. They are concurrency and scheduling.
- Floating-point arithmetic and `round` on the reported uptime, p95 and score are not modelled; the values are exact reals.
- The FastAPI routes `/api/checks`, `/api/health` and `/`, the pydantic models, URL validation and the HTML dashboard are not modelled.
- Percentiles.Percentile: requires 0 <= p <= 100, because the source's only caller passes 95 (main.py:217). With one sample the rank is 0 whatever p is, and Python returns that sample. With two or more samples, p above 100 indexes past the end of the sorted list, and p below 0 reads wrapped negative indices or indexes out of range. Neither is modelled.
- Registry.Registry.Insert: the `raise` branch of `insert_check` is not modelled. It re-raises an integrity error when no row holds the URL, which cannot happen when the only constraint is the URL's uniqueness. `createdAt` is an input instead of the clock.
- Probe.ResultLog.CheckOnce: storage failures are not modelled. If the INSERT or commit in `insert_result` (main.py:100-107) raises, no row is stored. The `except` branch of `check_once` (main.py:174-175) then stores a failure record with the storage error's text in place of the response's record, so a probe that got a 2xx can be recorded as down. If that second insert raises too, no row is written and `asyncio.gather` swallows the exception (main.py:183). The contract's "exactly one record, the classified one" holds only on the path where storing succeeds.
