/**
 The scorer: maps a 24-hour uptime percentage and an optional p95 latency
 (milliseconds) to a composite score in [0, 100] and a letter grade.
 Models `score_and_grade` in main.py.
 */
module Scoring {

  import opened Wrappers

  /** The letter grades, best first. */
  datatype Grade = APlus | A | AMinus | BPlus | B | BMinus | CPlus | C | CMinus | D | F
  {
    /** The label the status endpoint reports. */
    function Label(): string {
      match this
      case APlus => "A+"
      case A => "A"
      case AMinus => "A-"
      case BPlus => "B+"
      case B => "B"
      case BMinus => "B-"
      case CPlus => "C+"
      case C => "C"
      case CMinus => "C-"
      case D => "D"
      case F => "F"
    }

    /** Position on the ladder: F is 0, A+ is 10. */
    function Rank(): nat {
      match this
      case APlus => 10
      case A => 9
      case AMinus => 8
      case BPlus => 7
      case B => 6
      case BMinus => 5
      case CPlus => 4
      case C => 3
      case CMinus => 2
      case D => 1
      case F => 0
    }

    /** The least score that earns this grade; F has no threshold. */
    function Threshold(): real
      requires this != F
    {
      match this
      case APlus => 97.0
      case A => 93.0
      case AMinus => 90.0
      case BPlus => 87.0
      case B => 83.0
      case BMinus => 80.0
      case CPlus => 77.0
      case C => 73.0
      case CMinus => 70.0
      case D => 60.0
    }
  }

  /** Latency at or below which the latency score is full. */
  const FastMs: real := 300.0
  /** Latency at or above which the latency score is zero. */
  const SlowMs: real := 3000.0

  /** Uptime clamped to [0, 100]: max(0, min(100, u)). */
  function ClampPercent(u: real): (r: real)
    ensures 0.0 <= r <= 100.0
    ensures 0.0 <= u <= 100.0 ==> r == u
    ensures u < 0.0 ==> r == 0.0
    ensures 100.0 < u ==> r == 100.0
  {
    var m := if u < 100.0 then u else 100.0;
    if 0.0 < m then m else 0.0
  }

  /**
   The latency score: 0 when no latency is known, 100 at or below 300 ms,
   0 at or above 3000 ms, linear in between.
   */
  function LatencyScore(p95: Option<real>): (s: real)
    ensures 0.0 <= s <= 100.0
  {
    match p95
    case None => 0.0
    case Some(ms) =>
      if ms <= FastMs then 100.0
      else if ms >= SlowMs then 0.0
      else 100.0 * (SlowMs - ms) / (SlowMs - FastMs)
  }

  /** The composite score 0.7 * uptime score + 0.3 * latency score. */
  function Score(uptimePct: real, p95: Option<real>): (s: real)
    ensures 0.0 <= s <= 100.0
  {
    0.7 * ClampPercent(uptimePct) + 0.3 * LatencyScore(p95)
  }

  /**
   The grade ladder, evaluated from the top, first match wins. Its contract
   characterises the result without the ladder: the grade is F exactly when
   the score is below 60, otherwise the score meets the grade's threshold
   and misses the threshold of every better grade.
   */
  function GradeOf(score: real): (g: Grade)
    ensures g == F <==> score < 60.0
    ensures g != F ==> g.Threshold() <= score
    ensures forall h: Grade :: h != F && h.Rank() > g.Rank() ==> score < h.Threshold()
  {
    if score >= 97.0 then APlus
    else if score >= 93.0 then A
    else if score >= 90.0 then AMinus
    else if score >= 87.0 then BPlus
    else if score >= 83.0 then B
    else if score >= 80.0 then BMinus
    else if score >= 77.0 then CPlus
    else if score >= 73.0 then C
    else if score >= 70.0 then CMinus
    else if score >= 60.0 then D
    else F
  }

  /** `score_and_grade`: the composite score and its grade. */
  function ScoreAndGrade(uptimePct: real, p95: Option<real>): (r: (real, Grade))
    ensures r.0 == Score(uptimePct, p95)
    ensures 0.0 <= r.0 <= 100.0
    ensures r.1 == GradeOf(r.0)
  {
    var score := Score(uptimePct, p95);
    (score, GradeOf(score))
  }

  /** A higher score never earns a lower grade. */
  lemma GradeMonotone(s1: real, s2: real)
    requires s1 <= s2
    ensures GradeOf(s1).Rank() <= GradeOf(s2).Rank()
  {
  }

  /** The latency score never rises as latency grows. */
  lemma LatencyScoreAntitone(a: real, b: real)
    requires a <= b
    ensures LatencyScore(Some(b)) <= LatencyScore(Some(a))
  {
  }

  /** The score never falls as uptime grows, latency fixed. */
  lemma ScoreMonotoneInUptime(u1: real, u2: real, p95: Option<real>)
    requires u1 <= u2
    ensures Score(u1, p95) <= Score(u2, p95)
  {
  }

  /** The score never rises as p95 latency grows, uptime fixed. */
  lemma ScoreAntitoneInLatency(u: real, a: real, b: real)
    requires a <= b
    ensures Score(u, Some(b)) <= Score(u, Some(a))
  {
    LatencyScoreAntitone(a, b);
  }

  /** A missing p95 scores as badly as any latency can, exactly like p95 >= 3000 ms. */
  lemma MissingLatencyIsWorst(u: real, ms: real)
    ensures Score(u, None) <= Score(u, Some(ms))
    ensures ms >= SlowMs ==> Score(u, None) == Score(u, Some(ms))
  {
  }

  /**
   The latency score is the linear ramp from (300 ms, 100) to (3000 ms, 0)
   applied to the latency clipped to [300, 3000]: the three branches agree at
   both edges.
   */
  lemma LatencyScoreIsClippedRamp(ms: real)
    ensures var clipped := if ms < FastMs then FastMs else if ms > SlowMs then SlowMs else ms;
      LatencyScore(Some(ms)) == 100.0 * (SlowMs - clipped) / (SlowMs - FastMs)
  {
  }

  /** Concrete cases: the grade boundaries are closed at the lower edge. */
  lemma ScoreExamples()
    ensures ScoreAndGrade(100.0, Some(300.0)) == (100.0, APlus)
    ensures ScoreAndGrade(0.0, None) == (0.0, F)
    ensures ScoreAndGrade(95.0, Some(3000.0)) == (66.5, D)
    ensures ScoreAndGrade(80.0, Some(432.5)) == (0.7 * 80.0 + 0.3 * (100.0 * (3000.0 - 432.5) / 2700.0), B)
    ensures GradeOf(97.0) == APlus && GradeOf(96.99) == A
    ensures GradeOf(60.0) == D && GradeOf(59.99) == F
  {
  }

  /** The reported labels are the eleven grade names of the ladder. */
  lemma LabelsDistinct(g: Grade, h: Grade)
    requires g != h
    ensures g.Label() != h.Label()
  {
  }

}
