/**
 The probe executor's classification step and the result log it writes to.
 Models `check_once` in main.py: the outcome of one HTTP GET (a response or
 a raised exception) becomes exactly one result record when storing it
 succeeds. An up record always carries a latency, and a record is up exactly
 when the outcome was a 2xx/3xx response.
 */
module Probe {

  import opened Wrappers

  /** What the HTTP client call produced: a response, or an exception and its message. */
  datatype Outcome =
    | Responded(status: int, elapsedMs: real)
    | Raised(message: string)

  /** One row of the `results` table (timestamp not modelled). */
  datatype ProbeResult = ProbeResult(
    checkId: int,
    ok: bool,
    statusCode: Option<int>,
    elapsedMs: Option<real>,
    error: Option<string>)

  /** Longest error message stored. */
  const MaxErrorLength: nat := 300

  /** A response counts as up iff its status is 2xx or 3xx. */
  predicate IsUpStatus(status: int) {
    200 <= status < 400
  }

  /** Python's `s[:n]`. */
  function Truncate(s: string, n: nat): (t: string)
    ensures |t| <= n
    ensures t <= s
    ensures |s| <= n ==> t == s
    ensures |s| > n ==> |t| == n
  {
    if |s| <= n then s else s[..n]
  }

  /**
   The record shapes a probe can write: a response carries its status code and
   latency and no error, and is up iff the status is 2xx or 3xx; an exception
   carries no status code and no latency, is never up, and keeps at most 300
   characters of its message.
   */
  ghost predicate WellFormed(r: ProbeResult) {
    || (&& r.statusCode.Some? && r.elapsedMs.Some? && r.error.None?
        && (r.ok <==> IsUpStatus(r.statusCode.value)))
    || (&& r.statusCode.None? && r.elapsedMs.None? && r.error.Some?
        && !r.ok && |r.error.value| <= MaxErrorLength)
  }

  /** The record `check_once` writes for one probe of target `checkId`. */
  function Classify(checkId: int, outcome: Outcome): (r: ProbeResult)
    ensures WellFormed(r)
    ensures r.checkId == checkId
    ensures r.ok <==> outcome.Responded? && IsUpStatus(outcome.status)
    ensures r.error.Some? <==> outcome.Raised?
    ensures outcome.Responded? ==> r.statusCode == Some(outcome.status) && r.elapsedMs == Some(outcome.elapsedMs)
    ensures outcome.Raised? ==> r.error == Some(Truncate(outcome.message, MaxErrorLength))
    ensures outcome.Raised? ==> r.error.value <= outcome.message
  {
    match outcome
    case Responded(status, elapsedMs) =>
      ProbeResult(checkId, IsUpStatus(status), Some(status), Some(elapsedMs), None)
    case Raised(message) =>
      ProbeResult(checkId, false, None, None, Some(Truncate(message, MaxErrorLength)))
  }

  /** The append-only `results` table. */
  class ResultLog {
    var results: seq<ProbeResult>

    /** Every row has one of the shapes a probe writes. */
    ghost predicate Valid()
      reads this
    {
      forall i :: 0 <= i < |results| ==> WellFormed(results[i])
    }

    constructor ()
      ensures Valid() && results == []
    {
      results := [];
    }

    /**
     One probe of target `checkId`: whatever the outcome, exactly one record
     is appended and nothing else changes (storage failures are not modelled).
     */
    method CheckOnce(checkId: int, outcome: Outcome)
      requires Valid()
      modifies this
      ensures Valid()
      ensures results == old(results) + [Classify(checkId, outcome)]
    {
      var record := Classify(checkId, outcome);
      results := results + [record];
    }
  }

}
