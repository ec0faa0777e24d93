/**
 * Per-skill gap scoring of the analysis engine: the gap between the level an
 * employee holds and the level the role requires, its priority tier and the
 * predicted training time.
 */
module GapScoring {

  datatype Priority = High | Medium | Low

  /** Hours of training predicted per proficiency level of deficit. */
  const HoursPerLevel: nat := 20

  function Abs(x: int): (r: nat)
    ensures r == x || r == -x
  {
    if x < 0 then -x else x
  }

  function Max(a: int, b: int): (r: int)
    ensures r >= a && r >= b
    ensures r == a || r == b
  {
    if a < b then b else a
  }

  /** The level an employee holds in a skill: 0 when nothing was assessed. */
  function CurrentLevel(proficiency: map<(int, int), int>, employeeId: int, skillId: int): (level: int)
    ensures (employeeId, skillId) !in proficiency ==> level == 0
    ensures (employeeId, skillId) in proficiency ==> level == proficiency[(employeeId, skillId)]
  {
    if (employeeId, skillId) in proficiency then proficiency[(employeeId, skillId)] else 0
  }

  /** Gap score: negative exactly when the employee is below the requirement. */
  function GapScore(current: int, required: int): (g: int)
    ensures g < 0 <==> current < required
    ensures g == 0 <==> current == required
    ensures required + g == current
  {
    current - required
  }

  /** Number of proficiency levels missing to reach the requirement. */
  function Deficit(gap: int): (d: nat)
    ensures d > 0 <==> gap < 0
  {
    if gap < 0 then -gap else 0
  }

  /** Priority tier; the three cases are exhaustive and mutually exclusive. */
  function Classify(gap: int): (p: Priority)
    ensures p == High <==> gap <= -2
    ensures p == Medium <==> gap == -1
    ensures p == Low <==> gap >= 0
  {
    if gap <= -2 then High
    else if gap == -1 then Medium
    else Low
  }

  /** Ordering key of a priority in the recommendation sort. */
  function Rank(p: Priority): (r: nat)
    ensures 1 <= r <= 3
  {
    match p
    case High => 3
    case Medium => 2
    case Low => 1
  }

  /** High sorts before Medium, and Medium before Low. */
  lemma RankOrder()
    ensures Rank(High) > Rank(Medium) > Rank(Low)
  {
  }

  /** Predicted training time, `max(0, abs(gap) * 20)` for a deficit and 0 otherwise. */
  function TrainingHours(gap: int): (h: nat)
    ensures h == HoursPerLevel * Deficit(gap)
    ensures h == 0 <==> Classify(gap) == Low
  {
    if gap < 0 then Max(0, Abs(gap) * HoursPerLevel) else 0
  }

  /** The freshly computed values for one (employee, skill) pair. */
  datatype Assessment = Assessment(
    employeeId: int,
    skillId: int,
    currentLevel: int,
    requiredLevel: int,
    gapScore: int,
    priority: Priority,
    trainingHours: nat)
  {
    function Key(): (int, int) { (employeeId, skillId) }
  }

  /** The derived fields of an assessment agree with its two levels. */
  predicate Consistent(a: Assessment)
  {
    && a.gapScore == GapScore(a.currentLevel, a.requiredLevel)
    && a.priority == Classify(a.gapScore)
    && a.trainingHours == TrainingHours(a.gapScore)
  }

  function Assess(employeeId: int, skillId: int, current: int, required: int): (a: Assessment)
    ensures Consistent(a)
    ensures a.Key() == (employeeId, skillId)
    ensures a.currentLevel == current && a.requiredLevel == required
  {
    var gap := GapScore(current, required);
    Assessment(employeeId, skillId, current, required, gap, Classify(gap), TrainingHours(gap))
  }

  /** A lower gap never yields a lower priority rank. */
  lemma ClassifyMonotone(g1: int, g2: int)
    requires g1 <= g2
    ensures Rank(Classify(g1)) >= Rank(Classify(g2))
  {
  }

  /** A lower gap never yields less predicted training. */
  lemma HoursMonotone(g1: int, g2: int)
    requires g1 <= g2
    ensures TrainingHours(g1) >= TrainingHours(g2)
  {
  }

  /** For a consistent assessment: a deficit, a non-Low priority and a
      positive training time are the same condition, and the time is 20
      hours per missing level. */
  lemma ConsistentDeficit(a: Assessment)
    requires Consistent(a)
    ensures a.gapScore < 0 <==> a.priority != Low
    ensures a.gapScore < 0 <==> a.trainingHours > 0
    ensures a.gapScore < 0 <==> a.currentLevel < a.requiredLevel
    ensures a.trainingHours == HoursPerLevel * Max(0, a.requiredLevel - a.currentLevel)
  {
  }

  /** Worked scenarios: a large, a one-level, a surplus gap, and a skill the
      employee has no proficiency row for, which counts as level 0. */
  lemma Scenarios()
    ensures var a := Assess(1, 1, 2, 5); a.gapScore == -3 && a.priority == High && a.trainingHours == 60
    ensures var a := Assess(1, 1, 4, 5); a.gapScore == -1 && a.priority == Medium && a.trainingHours == 20
    ensures var a := Assess(1, 1, 5, 3); a.gapScore == 2 && a.priority == Low && a.trainingHours == 0
    ensures var a := Assess(1, 1, CurrentLevel(map[], 1, 1), 3); a.gapScore == -3 && a.priority == High && a.trainingHours == 60
  {
  }
}
