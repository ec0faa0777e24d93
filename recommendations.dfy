/**
 * Training recommendations: the stored gaps with a deficit, optionally for
 * one employee and one priority tier, each with two suggestions picked by
 * gap size and a cost estimate, sorted by priority rank and gap size.
 */
module Recommendations {
  import opened Wrappers
  import opened GapScoring
  import opened GapStore
  import opened Schema
  import opened RecommendationOrder

  /** Fixed training cost per hour. */
  const CostPerHour: nat := 50

  /** `calculate_training_cost`: the cost of a number of training hours. */
  function TrainingCost(hours: int): (c: int)
    ensures hours >= 0 ==> c >= 0
    ensures hours == 0 <==> c == 0
  {
    hours * CostPerHour
  }

  /** The three kinds of suggestion pairs, by gap size. */
  datatype SuggestionTier = Intensive | Intermediate | Refresher

  function TierOf(gapSize: int): (t: SuggestionTier)
    ensures t == Intensive <==> gapSize >= 3
    ensures t == Intermediate <==> gapSize == 2
    ensures t == Refresher <==> gapSize <= 1
  {
    if gapSize >= 3 then Intensive
    else if gapSize == 2 then Intermediate
    else Refresher
  }

  /** `text` contains `word` as a contiguous part. */
  predicate Mentions(text: string, word: string)
  {
    exists i | 0 <= i <= |text| - |word| :: OccursAt(text, word, i)
  }

  predicate OccursAt(text: string, word: string, i: int)
    requires 0 <= i <= |text| - |word|
  {
    text[i..i + |word|] == word
  }

  lemma MentionsMiddle(p: string, w: string, q: string)
    ensures Mentions(p + w + q, w)
  {
    assert (p + w + q)[|p|..|p| + |w|] == w;
    assert OccursAt(p + w + q, w, |p|);
  }

  /** `generate_training_suggestions`: always two suggestions, both naming the skill. */
  function TrainingSuggestions(skillName: string, gapSize: int): (s: seq<string>)
    ensures |s| == 2
    ensures forall k | 0 <= k < 2 :: Mentions(s[k], skillName)
  {
    match TierOf(gapSize)
    case Intensive =>
      MentionsMiddle("Comprehensive ", skillName, " bootcamp or certification program");
      MentionsMiddle("1-on-1 mentoring with ", skillName, " expert");
      ["Comprehensive " + skillName + " bootcamp or certification program",
       "1-on-1 mentoring with " + skillName + " expert"]
    case Intermediate =>
      MentionsMiddle("Intermediate ", skillName, " workshop series");
      MentionsMiddle("Online ", skillName, " course with practical projects");
      ["Intermediate " + skillName + " workshop series",
       "Online " + skillName + " course with practical projects"]
    case Refresher =>
      MentionsMiddle("Targeted ", skillName, " refresher training");
      MentionsMiddle("Peer learning session on ", skillName, "");
      assert "Peer learning session on " + skillName + "" == "Peer learning session on " + skillName;
      ["Targeted " + skillName + " refresher training",
       "Peer learning session on " + skillName]
  }

  /** Two gap sizes get the same suggestions exactly when they fall in the same tier. */
  lemma SuggestionsDetermineTier(skillName: string, g1: int, g2: int)
    ensures TrainingSuggestions(skillName, g1) == TrainingSuggestions(skillName, g2) <==> TierOf(g1) == TierOf(g2)
  {
    var s1 := TrainingSuggestions(skillName, g1);
    var s2 := TrainingSuggestions(skillName, g2);
    if TierOf(g1) != TierOf(g2) {
      assert s1[0][0] != s2[0][0];
    }
  }

  /** For a consistent stored deficit, a Medium gap always gets the refresher
      pair and a High gap never does. */
  lemma TierOfPriority(g: GapRecord)
    requires Consistent(FieldsOf(g)) && g.gapScore < 0
    ensures g.priority == Medium <==> TierOf(Abs(g.gapScore)) == Refresher
    ensures g.priority == High <==> TierOf(Abs(g.gapScore)) != Refresher
  {
  }

  function PriorityName(p: Priority): string
  {
    match p
    case High => "High"
    case Medium => "Medium"
    case Low => "Low"
  }

  function UpperChar(c: char): char
  {
    if 'a' <= c <= 'z' then (c as int - 32) as char else c
  }

  function LowerChar(c: char): char
  {
    if 'A' <= c <= 'Z' then (c as int + 32) as char else c
  }

  function Lower(s: string): (r: string)
    ensures |r| == |s|
    ensures forall i | 0 <= i < |s| :: r[i] == LowerChar(s[i])
  {
    seq(|s|, i requires 0 <= i < |s| => LowerChar(s[i]))
  }

  /** `str.capitalize` on ASCII text: first character upper case, the rest lower case. */
  function Capitalize(s: string): (r: string)
    ensures |r| == |s|
    ensures |s| > 0 ==> r[0] == UpperChar(s[0])
    ensures forall i | 1 <= i < |s| :: r[i] == LowerChar(s[i])
  {
    if s == [] then [] else [UpperChar(s[0])] + Lower(s[1..])
  }

  /** A lower-case or upper-case spelling of a tier's name selects that tier. */
  lemma CapitalizeNames()
    ensures Capitalize("high") == PriorityName(High)
    ensures Capitalize("LOW") == PriorityName(Low)
  {
    assert Lower("igh") == "igh";
    assert Lower("OW") == "ow";
  }

  /** The query's conditions on a stored gap: the employee (a falsy id asks
      for everyone), the priority tier (unless "all") and a negative score. */
  predicate Selected(g: GapRecord, employeeFilter: Option<int>, priorityFilter: string): (b: bool)
    ensures b ==> g.gapScore < 0
    ensures (employeeFilter.None? || employeeFilter.value == 0) && priorityFilter == "all" ==> (b <==> g.gapScore < 0)
  {
    && (employeeFilter.None? || employeeFilter.value == 0 || g.employeeId == employeeFilter.value)
    && (priorityFilter == "all" || PriorityName(g.priority) == Capitalize(priorityFilter))
    && g.gapScore < 0
  }

  /** The stored gaps the query returns, in the order they are stored. */
  function Query(rows: seq<GapRecord>, employeeFilter: Option<int>, priorityFilter: string): (r: seq<GapRecord>)
    ensures forall i | 0 <= i < |r| :: r[i] in rows && Selected(r[i], employeeFilter, priorityFilter)
    ensures forall g | g in rows && Selected(g, employeeFilter, priorityFilter) :: g in r
  {
    if rows == [] then []
    else
      var n := |rows| - 1;
      var prev := Query(rows[..n], employeeFilter, priorityFilter);
      assert forall g | g in rows[..n] :: g in rows;
      assert forall g | g in rows :: g in rows[..n] || g == rows[n] by {
        assert rows == rows[..n] + [rows[n]];
      }
      if Selected(rows[n], employeeFilter, priorityFilter) then prev + [rows[n]] else prev
  }

  /** The query distributes over concatenation: the rows of a prefix are
      returned before those of the rest, each as often as it is stored. */
  lemma {:induction false} QueryAppend(a: seq<GapRecord>, b: seq<GapRecord>, employeeFilter: Option<int>, priorityFilter: string)
    ensures Query(a + b, employeeFilter, priorityFilter) == Query(a, employeeFilter, priorityFilter) + Query(b, employeeFilter, priorityFilter)
  {
    if b == [] {
      assert a + b == a;
    } else {
      var n := |b| - 1;
      var c := a + b;
      assert c[..|c| - 1] == a + b[..n] && c[|c| - 1] == b[n];
      QueryAppend(a, b[..n], employeeFilter, priorityFilter);
      QueryLast(c, employeeFilter, priorityFilter);
      QueryLast(b, employeeFilter, priorityFilter);
    }
  }

  lemma QueryLast(rows: seq<GapRecord>, employeeFilter: Option<int>, priorityFilter: string)
    requires rows != []
    ensures var n := |rows| - 1;
      Query(rows, employeeFilter, priorityFilter)
      == Query(rows[..n], employeeFilter, priorityFilter) + if Selected(rows[n], employeeFilter, priorityFilter) then [rows[n]] else []
  {
  }

  /** A single row is returned once when it is selected and dropped otherwise. */
  lemma QuerySingle(g: GapRecord, employeeFilter: Option<int>, priorityFilter: string)
    ensures Query([g], employeeFilter, priorityFilter) == if Selected(g, employeeFilter, priorityFilter) then [g] else []
  {
    assert [g][..0] == [];
  }

  datatype Recommendation = Recommendation(
    employeeId: int,
    employeeName: string,
    skillId: int,
    skillName: string,
    skillCategory: string,
    currentLevel: int,
    targetLevel: int,
    gapSize: nat,
    priority: Priority,
    suggestions: seq<string>,
    estimatedDuration: int,
    costEstimate: int)

  /** The recommendation built from one stored gap, or the lookup that failed
      (the employee is read before the skill). */
  function Recommend(db: Database, g: GapRecord): (r: Result<Recommendation, LookupError>)
    ensures FindEmployee(db.employees, g.employeeId).None? ==> r == Failure(EmployeeNotFound(g.employeeId))
    ensures FindEmployee(db.employees, g.employeeId).Some? && g.skillId !in db.skills ==> r == Failure(SkillNotFound(g.skillId))
    ensures r.Success? ==>
      && r.value.employeeId == g.employeeId && r.value.skillId == g.skillId
      && r.value.currentLevel == g.currentLevel && r.value.targetLevel == g.requiredLevel
      && r.value.priority == g.priority
      && r.value.gapSize == Abs(g.gapScore)
      && r.value.suggestions == TrainingSuggestions(db.skills[g.skillId].name, Abs(g.gapScore))
      && r.value.estimatedDuration == g.trainingHours
      && r.value.costEstimate == CostPerHour * r.value.estimatedDuration
    ensures r.Success? ==>
      && FindEmployee(db.employees, g.employeeId).Some? && g.skillId in db.skills
      && r.value.employeeName == FullName(FindEmployee(db.employees, g.employeeId).value)
      && r.value.skillName == db.skills[g.skillId].name
      && r.value.skillCategory == db.skills[g.skillId].category
  {
    match FindEmployee(db.employees, g.employeeId)
    case None => Failure(EmployeeNotFound(g.employeeId))
    case Some(e) =>
      if g.skillId !in db.skills then Failure(SkillNotFound(g.skillId))
      else
        var skill := db.skills[g.skillId];
        var size := Abs(g.gapScore);
        Success(Recommendation(g.employeeId, FullName(e), g.skillId, skill.name, skill.category,
                               g.currentLevel, g.requiredLevel, size, g.priority,
                               TrainingSuggestions(skill.name, size),
                               g.trainingHours, TrainingCost(g.trainingHours)))
  }

  /** The recommendations for a list of gaps in order, or the first failed lookup. */
  function RecommendAll(db: Database, gaps: seq<GapRecord>): (r: Result<seq<Recommendation>, LookupError>)
    ensures r.Success? ==> |r.value| == |gaps|
  {
    if gaps == [] then Success([])
    else
      var n := |gaps| - 1;
      match RecommendAll(db, gaps[..n])
      case Failure(e) => Failure(e)
      case Success(rs) =>
        match Recommend(db, gaps[n])
        case Failure(e) => Failure(e)
        case Success(r) => Success(rs + [r])
  }

  /** The sort key `(priority rank, gap size)`. */
  function SortKeyOf(r: Recommendation): SortKey
  {
    (Rank(r.priority), r.gapSize)
  }

  function TotalCost(rs: seq<Recommendation>): (total: int)
    ensures (forall i | 0 <= i < |rs| :: rs[i].costEstimate >= 0) ==> total >= 0
  {
    if rs == [] then 0 else TotalCost(rs[..|rs| - 1]) + rs[|rs| - 1].costEstimate
  }

  function TotalHours(rs: seq<Recommendation>): (total: int)
    ensures (forall i | 0 <= i < |rs| :: rs[i].estimatedDuration >= 0) ==> total >= 0
  {
    if rs == [] then 0 else TotalHours(rs[..|rs| - 1]) + rs[|rs| - 1].estimatedDuration
  }

  function EmployeesOf(rs: seq<Recommendation>): (ids: set<int>)
    ensures forall i | 0 <= i < |rs| :: rs[i].employeeId in ids
    ensures forall id | id in ids :: exists i | 0 <= i < |rs| :: rs[i].employeeId == id
  {
    set i | 0 <= i < |rs| :: rs[i].employeeId
  }

  datatype RecommendationReport = RecommendationReport(
    recommendations: seq<Recommendation>,
    employeesNeedingTraining: nat,
    totalEstimatedCost: int,
    totalTrainingHours: int)

  /** What the recommendation request answers for the stored gaps `rows`. */
  function RecommendationsSpec(db: Database, rows: seq<GapRecord>, employeeFilter: Option<int>, priorityFilter: string)
    : (r: Result<RecommendationReport, LookupError>)
    ensures r.Failure? <==> RecommendAll(db, Query(rows, employeeFilter, priorityFilter)).Failure?
    ensures r.Success? ==> |r.value.recommendations| == |Query(rows, employeeFilter, priorityFilter)|
  {
    match RecommendAll(db, Query(rows, employeeFilter, priorityFilter))
    case Failure(e) => Failure(e)
    case Success(rs) =>
      var sorted := SortDesc(rs, SortKeyOf);
      Success(RecommendationReport(sorted, |EmployeesOf(sorted)|, TotalCost(sorted), TotalHours(sorted)))
  }

  lemma {:induction false} RecommendAllFailurePersists(db: Database, gaps: seq<GapRecord>, i: nat)
    requires i <= |gaps|
    requires RecommendAll(db, gaps[..i]).Failure?
    ensures RecommendAll(db, gaps) == RecommendAll(db, gaps[..i])
  {
    if i < |gaps| {
      var n := |gaps| - 1;
      assert gaps[..n][..i] == gaps[..i];
      RecommendAllFailurePersists(db, gaps[..n], i);
      assert RecommendAll(db, gaps[..n]).Failure?;
      assert RecommendAll(db, gaps) == RecommendAll(db, gaps[..n]);
    } else {
      assert gaps[..i] == gaps;
    }
  }

  lemma RecommendAllSnoc(db: Database, gaps: seq<GapRecord>, i: nat)
    requires i < |gaps| && RecommendAll(db, gaps[..i]).Success?
    ensures Recommend(db, gaps[i]).Failure? ==> RecommendAll(db, gaps[..i + 1]) == Failure(Recommend(db, gaps[i]).error)
    ensures Recommend(db, gaps[i]).Success? ==>
      RecommendAll(db, gaps[..i + 1]) == Success(RecommendAll(db, gaps[..i]).value + [Recommend(db, gaps[i]).value])
  {
    assert gaps[..i + 1][..i] == gaps[..i];
    assert gaps[..i + 1][i] == gaps[i];
  }

  /** A successful build has one recommendation per gap, in order. */
  lemma {:induction false} RecommendAllShape(db: Database, gaps: seq<GapRecord>)
    requires RecommendAll(db, gaps).Success?
    ensures var rs := RecommendAll(db, gaps).value;
      && |rs| == |gaps|
      && forall i | 0 <= i < |gaps| :: Recommend(db, gaps[i]) == Success(rs[i])
  {
    if gaps != [] {
      var n := |gaps| - 1;
      RecommendAllShape(db, gaps[..n]);
      assert forall i | 0 <= i < n :: gaps[..n][i] == gaps[i];
    }
  }

  /** Total cost is 50 times the total hours when every estimate is. */
  lemma {:induction false} TotalCostOfHours(rs: seq<Recommendation>)
    requires forall i | 0 <= i < |rs| :: rs[i].costEstimate == CostPerHour * rs[i].estimatedDuration
    ensures TotalCost(rs) == CostPerHour * TotalHours(rs)
  {
    if rs != [] {
      TotalCostOfHours(rs[..|rs| - 1]);
    }
  }

  /** A successful answer is the sorted list of the selected gaps'
      recommendations, with its totals. */
  lemma ReportOf(db: Database, rows: seq<GapRecord>, employeeFilter: Option<int>, priorityFilter: string)
    requires RecommendationsSpec(db, rows, employeeFilter, priorityFilter).Success?
    ensures RecommendAll(db, Query(rows, employeeFilter, priorityFilter)).Success?
    ensures var sorted := SortDesc(RecommendAll(db, Query(rows, employeeFilter, priorityFilter)).value, SortKeyOf);
      RecommendationsSpec(db, rows, employeeFilter, priorityFilter).value
        == RecommendationReport(sorted, |EmployeesOf(sorted)|, TotalCost(sorted), TotalHours(sorted))
  {
  }

  /** Each recommendation of a built list comes from a gap of the list. */
  lemma BuiltFrom(db: Database, gaps: seq<GapRecord>, r: Recommendation)
    requires RecommendAll(db, gaps).Success?
    requires r in multiset(RecommendAll(db, gaps).value)
    ensures exists j | 0 <= j < |gaps| :: Recommend(db, gaps[j]) == Success(r)
  {
    RecommendAllShape(db, gaps);
    var built := RecommendAll(db, gaps).value;
    var j :| 0 <= j < |built| && built[j] == r;
    assert Recommend(db, gaps[j]) == Success(r);
  }

  /**
   * Every recommendation is built from a stored gap that the query selects,
   * and the list is a permutation of the recommendations of the selected gaps.
   */
  lemma RecommendationsProvenance(db: Database, rows: seq<GapRecord>, employeeFilter: Option<int>, priorityFilter: string)
    requires RecommendationsSpec(db, rows, employeeFilter, priorityFilter).Success?
    ensures var recs := RecommendationsSpec(db, rows, employeeFilter, priorityFilter).value.recommendations;
      && multiset(recs) == multiset(RecommendAll(db, Query(rows, employeeFilter, priorityFilter)).value)
      && (forall i | 0 <= i < |recs| :: exists g | g in rows ::
            Selected(g, employeeFilter, priorityFilter) && Recommend(db, g) == Success(recs[i]))
  {
    ReportOf(db, rows, employeeFilter, priorityFilter);
    var gaps := Query(rows, employeeFilter, priorityFilter);
    var built := RecommendAll(db, gaps).value;
    var recs := SortDesc(built, SortKeyOf);
    SortDescPermutation(built, SortKeyOf);
    forall i | 0 <= i < |recs|
      ensures exists g | g in rows :: Selected(g, employeeFilter, priorityFilter) && Recommend(db, g) == Success(recs[i])
    {
      assert recs[i] in multiset(built);
      BuiltFrom(db, gaps, recs[i]);
      var j :| 0 <= j < |gaps| && Recommend(db, gaps[j]) == Success(recs[i]);
      assert gaps[j] in rows && Selected(gaps[j], employeeFilter, priorityFilter);
    }
  }

  /** Every recommendation is for a real deficit, and a priority filter other
      than "all" is honoured. */
  lemma RecommendationsFiltered(db: Database, rows: seq<GapRecord>, employeeFilter: Option<int>, priorityFilter: string)
    requires RecommendationsSpec(db, rows, employeeFilter, priorityFilter).Success?
    ensures var recs := RecommendationsSpec(db, rows, employeeFilter, priorityFilter).value.recommendations;
      && (forall i | 0 <= i < |recs| :: recs[i].gapSize > 0)
      && (priorityFilter != "all" ==> forall i | 0 <= i < |recs| :: PriorityName(recs[i].priority) == Capitalize(priorityFilter))
      && (employeeFilter.Some? && employeeFilter.value != 0 ==> forall i | 0 <= i < |recs| :: recs[i].employeeId == employeeFilter.value)
  {
    RecommendationsProvenance(db, rows, employeeFilter, priorityFilter);
    var recs := RecommendationsSpec(db, rows, employeeFilter, priorityFilter).value.recommendations;
    forall i | 0 <= i < |recs|
      ensures recs[i].gapSize > 0
      ensures priorityFilter != "all" ==> PriorityName(recs[i].priority) == Capitalize(priorityFilter)
      ensures employeeFilter.Some? && employeeFilter.value != 0 ==> recs[i].employeeId == employeeFilter.value
    {
      var g :| g in rows && Selected(g, employeeFilter, priorityFilter) && Recommend(db, g) == Success(recs[i]);
      SelectedRecommendation(db, g, employeeFilter, priorityFilter);
    }
  }

  /** The recommendation built from a selected gap meets the request's filters. */
  lemma SelectedRecommendation(db: Database, g: GapRecord, employeeFilter: Option<int>, priorityFilter: string)
    requires Selected(g, employeeFilter, priorityFilter) && Recommend(db, g).Success?
    ensures var r := Recommend(db, g).value;
      && r.gapSize > 0
      && (priorityFilter != "all" ==> PriorityName(r.priority) == Capitalize(priorityFilter))
      && (employeeFilter.Some? && employeeFilter.value != 0 ==> r.employeeId == employeeFilter.value)
  {
  }

  /** The list is in non-increasing (rank, gap size) order, and recommendations
      with equal keys keep the order of their stored gaps. */
  lemma RecommendationsOrdered(db: Database, rows: seq<GapRecord>, employeeFilter: Option<int>, priorityFilter: string, k: SortKey)
    requires RecommendationsSpec(db, rows, employeeFilter, priorityFilter).Success?
    ensures var recs := RecommendationsSpec(db, rows, employeeFilter, priorityFilter).value.recommendations;
      && SortedDesc(recs, SortKeyOf)
      && WithKey(recs, SortKeyOf, k) == WithKey(RecommendAll(db, Query(rows, employeeFilter, priorityFilter)).value, SortKeyOf, k)
  {
    ReportOf(db, rows, employeeFilter, priorityFilter);
    var built := RecommendAll(db, Query(rows, employeeFilter, priorityFilter)).value;
    SortDescSorted(built, SortKeyOf);
    SortDescStable(built, SortKeyOf, k);
  }

  /** The totals: the estimated cost is 50 times the training hours. */
  lemma RecommendationTotals(db: Database, rows: seq<GapRecord>, employeeFilter: Option<int>, priorityFilter: string)
    requires RecommendationsSpec(db, rows, employeeFilter, priorityFilter).Success?
    ensures var report := RecommendationsSpec(db, rows, employeeFilter, priorityFilter).value;
      report.totalEstimatedCost == CostPerHour * report.totalTrainingHours
  {
    ReportOf(db, rows, employeeFilter, priorityFilter);
    var gaps := Query(rows, employeeFilter, priorityFilter);
    var built := RecommendAll(db, gaps).value;
    var recs := SortDesc(built, SortKeyOf);
    SortDescPermutation(built, SortKeyOf);
    forall i | 0 <= i < |recs| ensures recs[i].costEstimate == CostPerHour * recs[i].estimatedDuration {
      assert recs[i] in multiset(built);
      BuiltFrom(db, gaps, recs[i]);
    }
    TotalCostOfHours(recs);
  }

  /** Distinct employees of a list: never more than its length. */
  lemma {:induction false} EmployeesAtMost(rs: seq<Recommendation>)
    ensures |EmployeesOf(rs)| <= |rs|
  {
    if rs != [] {
      var n := |rs| - 1;
      EmployeesAtMost(rs[..n]);
      EmployeesOfSnoc(rs);
    }
  }

  lemma EmployeesOfSnoc(rs: seq<Recommendation>)
    requires rs != []
    ensures EmployeesOf(rs) == EmployeesOf(rs[..|rs| - 1]) + {rs[|rs| - 1].employeeId}
  {
    var n := |rs| - 1;
    forall x | x in EmployeesOf(rs) ensures x in EmployeesOf(rs[..n]) + {rs[n].employeeId} {
      var i :| 0 <= i < |rs| && rs[i].employeeId == x;
      if i < n { assert rs[..n][i] == rs[i]; }
    }
    forall x | x in EmployeesOf(rs[..n]) ensures x in EmployeesOf(rs) {
      var i :| 0 <= i < n && rs[..n][i].employeeId == x;
      assert rs[i] == rs[..n][i];
    }
  }

  /**
   * The count of employees needing training is at most the number of
   * recommendations, and is one when a (non-zero) employee filter is given
   * and something is recommended.
   */
  lemma RecommendationEmployees(db: Database, rows: seq<GapRecord>, employeeFilter: Option<int>, priorityFilter: string)
    requires RecommendationsSpec(db, rows, employeeFilter, priorityFilter).Success?
    ensures var report := RecommendationsSpec(db, rows, employeeFilter, priorityFilter).value;
      && report.employeesNeedingTraining <= |report.recommendations|
      && (employeeFilter.Some? && employeeFilter.value != 0 && report.recommendations != [] ==>
            report.employeesNeedingTraining == 1)
  {
    ReportOf(db, rows, employeeFilter, priorityFilter);
    var recs := RecommendationsSpec(db, rows, employeeFilter, priorityFilter).value.recommendations;
    EmployeesAtMost(recs);
    if employeeFilter.Some? && employeeFilter.value != 0 && recs != [] {
      RecommendationsFiltered(db, rows, employeeFilter, priorityFilter);
      assert recs[0].employeeId in EmployeesOf(recs);
      assert EmployeesOf(recs) == {employeeFilter.value};
    }
  }

  /** On a table written by the analysis, no recommendation is Low, and each
      one's duration is 20 hours per level of its gap. */
  lemma NoLowRecommendation(db: Database, rows: seq<GapRecord>, employeeFilter: Option<int>, priorityFilter: string)
    requires forall g | g in rows :: Consistent(FieldsOf(g))
    requires RecommendationsSpec(db, rows, employeeFilter, priorityFilter).Success?
    ensures var recs := RecommendationsSpec(db, rows, employeeFilter, priorityFilter).value.recommendations;
      forall i | 0 <= i < |recs| :: recs[i].priority != Low && recs[i].estimatedDuration == HoursPerLevel * recs[i].gapSize
  {
    RecommendationsProvenance(db, rows, employeeFilter, priorityFilter);
  }

  /** On a table written by the analysis, asking for the Low tier yields nothing. */
  lemma LowFilterSelectsNothing(rows: seq<GapRecord>, employeeFilter: Option<int>, priorityFilter: string)
    requires forall g | g in rows :: Consistent(FieldsOf(g))
    requires priorityFilter != "all" && Capitalize(priorityFilter) == "Low"
    ensures Query(rows, employeeFilter, priorityFilter) == []
  {
  }

  /** The ordering of the worked example: (High, 3), (Medium, 5), (High, 1)
      sort to (High, 3), (High, 1), (Medium, 5). */
  lemma SortExample(a: Recommendation, b: Recommendation, c: Recommendation)
    requires a.priority == High && a.gapSize == 3
    requires b.priority == Medium && b.gapSize == 5
    requires c.priority == High && c.gapSize == 1
    ensures SortDesc([a, b, c], SortKeyOf) == [a, c, b]
  {
    assert SortKeyOf(a) == (3, 3) && SortKeyOf(b) == (2, 5) && SortKeyOf(c) == (3, 1);
    assert [a, b, c][1..] == [b, c];
    assert [b, c][1..] == [c];
    assert SortDesc([c], SortKeyOf) == [c];
    assert Insert(b, [c], SortKeyOf) == [c, b];
    assert SortDesc([b, c], SortKeyOf) == [c, b];
    assert Insert(a, [c, b], SortKeyOf) == [a, c, b];
  }

  /**
   * `generate_training_recommendations`: build a recommendation for every
   * selected gap in order, then sort the list and total it.
   */
  method GenerateRecommendations(db: Database, rows: seq<GapRecord>, employeeFilter: Option<int>, priorityFilter: string)
    returns (out: Result<RecommendationReport, LookupError>)
    ensures out == RecommendationsSpec(db, rows, employeeFilter, priorityFilter)
  {
    var gaps := Query(rows, employeeFilter, priorityFilter);
    var recs: seq<Recommendation> := [];
    var i := 0;
    while i < |gaps|
      invariant 0 <= i <= |gaps|
      invariant RecommendAll(db, gaps[..i]) == Success(recs)
    {
      var r := Recommend(db, gaps[i]);
      RecommendAllSnoc(db, gaps, i);
      if r.Failure? {
        RecommendAllFailurePersists(db, gaps, i + 1);
        return Failure(r.error);
      }
      recs := recs + [r.value];
      i := i + 1;
    }
    assert gaps[..i] == gaps;
    recs := SortDesc(recs, SortKeyOf);
    out := Success(RecommendationReport(recs, |EmployeesOf(recs)|, TotalCost(recs), TotalHours(recs)));
  }
}
