/**
 * The skill-gap analysis run: for each selected employee that has a role,
 * and each skill that role requires, compute the assessment, save it in the
 * gap table and report it. A skill id that names no skill aborts the run and
 * rolls the table back.
 */
module GapAnalysis {
  import opened Wrappers
  import opened GapScoring
  import opened GapStore
  import opened Schema

  /** No two requirement rows name the same skill. */
  predicate DistinctSkills(items: seq<Requirement>)
  {
    forall p, q | 0 <= p < q < |items| :: items[p].skillId != items[q].skillId
  }

  /** Position of a skill among requirement rows. */
  function IndexOfSkill(items: seq<Requirement>, skillId: int): (r: Option<nat>)
    ensures r.Some? ==> r.value < |items| && items[r.value].skillId == skillId
    ensures r.None? ==> forall i | 0 <= i < |items| :: items[i].skillId != skillId
  {
    if items == [] then None
    else if items[0].skillId == skillId then Some(0)
    else match IndexOfSkill(items[1..], skillId)
      case Some(i) => Some(i + 1)
      case None => None
  }

  /** One dictionary store: a present skill keeps its position and takes the
      new level; an absent one is appended. */
  function DictPut(items: seq<Requirement>, row: Requirement): (r: seq<Requirement>)
    requires DistinctSkills(items)
    ensures DistinctSkills(r)
    ensures |r| == |items| || r == items + [row]
    ensures forall i | 0 <= i < |items| :: r[i] == if items[i].skillId == row.skillId then row else items[i]
    ensures exists i | 0 <= i < |r| :: r[i] == row
  {
    match IndexOfSkill(items, row.skillId)
    case Some(i) => items[i := row]
    case None =>
      assert (items + [row])[|items|] == row;
      items + [row]
  }

  /**
   * The skill -> level dictionary built from a role's requirement rows, as
   * its items in iteration order: each skill at the position of its first
   * row, with the level of its last row.
   */
  function RequiredSkills(rows: seq<Requirement>): (items: seq<Requirement>)
    ensures DistinctSkills(items)
  {
    if rows == [] then []
    else DictPut(RequiredSkills(rows[..|rows| - 1]), rows[|rows| - 1])
  }

  /** No later row names the same skill as row `j`. */
  predicate LastRowAt(rows: seq<Requirement>, j: nat)
    requires j < |rows|
  {
    forall j' | j < j' < |rows| :: rows[j'].skillId != rows[j].skillId
  }

  /** Every item of the dictionary is the last row of the role for its skill. */
  lemma {:induction false} RequiredSkillsLastWins(rows: seq<Requirement>, i: nat)
    requires i < |RequiredSkills(rows)|
    ensures exists j | 0 <= j < |rows| :: rows[j] == RequiredSkills(rows)[i] && LastRowAt(rows, j)
  {
    var n := |rows| - 1;
    var prev := RequiredSkills(rows[..n]);
    var items := RequiredSkills(rows);
    if items[i] == rows[n] {
      assert LastRowAt(rows, n);
    } else {
      assert i < |prev| && items[i] == prev[i] && prev[i].skillId != rows[n].skillId;
      RequiredSkillsLastWins(rows[..n], i);
      var j :| 0 <= j < n && rows[..n][j] == prev[i] && LastRowAt(rows[..n], j);
      assert rows[j] == rows[..n][j];
      forall j' | j < j' < |rows| ensures rows[j'].skillId != rows[j].skillId {
        if j' < n { assert rows[..n][j'] == rows[j']; }
      }
      assert LastRowAt(rows, j);
    }
  }

  /** Every skill a role's rows name appears in the dictionary. */
  lemma {:induction false} RequiredSkillsCovers(rows: seq<Requirement>, j: nat)
    requires j < |rows|
    ensures exists i | 0 <= i < |RequiredSkills(rows)| :: RequiredSkills(rows)[i].skillId == rows[j].skillId
  {
    var n := |rows| - 1;
    var prev := RequiredSkills(rows[..n]);
    var items := RequiredSkills(rows);
    if j < n {
      RequiredSkillsCovers(rows[..n], j);
      var i :| 0 <= i < |prev| && prev[i].skillId == rows[..n][j].skillId;
      assert rows[..n][j] == rows[j];
      assert items[i].skillId == rows[j].skillId;
    }
  }

  /** Rows that already name distinct skills give the dictionary in the same order. */
  lemma {:induction false} RequiredSkillsOfDistinct(rows: seq<Requirement>)
    requires DistinctSkills(rows)
    ensures RequiredSkills(rows) == rows
  {
    if rows != [] {
      var n := |rows| - 1;
      DistinctPrefix(rows, n);
      RequiredSkillsOfDistinct(rows[..n]);
      assert IndexOfSkill(rows[..n], rows[n].skillId).None?;
      assert rows == rows[..n] + [rows[n]];
    }
  }

  lemma DistinctPrefix(rows: seq<Requirement>, n: nat)
    requires n < |rows| && DistinctSkills(rows)
    ensures DistinctSkills(rows[..n])
    ensures forall i | 0 <= i < n :: rows[..n][i].skillId != rows[n].skillId
  {
    forall p, q | 0 <= p < q < n ensures rows[..n][p].skillId != rows[..n][q].skillId {
      assert rows[..n][p] == rows[p] && rows[..n][q] == rows[q];
    }
  }

  /** One (employee, required skill) pair the run visits. */
  datatype Visit = Visit(employee: Employee, req: Requirement)

  function VisitsFor(e: Employee, reqs: seq<Requirement>): (vs: seq<Visit>)
    ensures |vs| == |reqs|
    ensures forall i | 0 <= i < |reqs| :: vs[i] == Visit(e, reqs[i])
  {
    seq(|reqs|, i requires 0 <= i < |reqs| => Visit(e, reqs[i]))
  }

  /** The pairs visited for one employee: none when the employee has no role. */
  function EmployeeVisits(db: Database, e: Employee): (vs: seq<Visit>)
    ensures e.role.None? ==> vs == []
    ensures e.role.Some? ==> |vs| == |RequiredSkills(RoleRows(db, e.role.value))|
    ensures forall i | 0 <= i < |vs| :: vs[i].employee == e
  {
    match e.role
    case None => []
    case Some(r) => VisitsFor(e, RequiredSkills(RoleRows(db, r)))
  }

  /** The pairs visited for a list of employees, in loop order. */
  function Visits(db: Database, employees: seq<Employee>): (vs: seq<Visit>)
    ensures forall i | 0 <= i < |vs| :: vs[i].employee.role.Some?
  {
    if employees == [] then []
    else
      var n := |employees| - 1;
      Visits(db, employees[..n]) + EmployeeVisits(db, employees[n])
  }

  /** The assessment of one visited pair. */
  function Evaluate(db: Database, v: Visit): (a: Assessment)
    ensures Consistent(a)
    ensures a.Key() == VisitKey(v)
    ensures a.currentLevel == CurrentLevel(db.proficiency, v.employee.id, v.req.skillId)
    ensures a.requiredLevel == v.req.requiredLevel
  {
    Assess(v.employee.id, v.req.skillId, CurrentLevel(db.proficiency, v.employee.id, v.req.skillId), v.req.requiredLevel)
  }

  /** One entry of the run's `results` list. */
  datatype GapResult = GapResult(employeeName: string, skillName: string, assessment: Assessment)

  datatype AnalysisReport = AnalysisReport(analyzedEmployees: nat, totalGapsFound: nat, results: seq<GapResult>)

  /** The results for a list of visits, or the first skill id with no skill. */
  function ResultsOf(db: Database, vs: seq<Visit>): (r: Result<seq<GapResult>, LookupError>)
    ensures r.Success? ==> |r.value| == |vs|
    ensures r.Failure? ==> exists i | 0 <= i < |vs| :: r.error == SkillNotFound(vs[i].req.skillId) && vs[i].req.skillId !in db.skills
  {
    if vs == [] then Success([])
    else
      var n := |vs| - 1;
      var v := vs[n];
      match ResultsOf(db, vs[..n])
      case Failure(e) => Failure(e)
      case Success(rs) =>
        if v.req.skillId in db.skills then
          Success(rs + [GapResult(FullName(v.employee), db.skills[v.req.skillId].name, Evaluate(db, v))])
        else Failure(SkillNotFound(v.req.skillId))
  }

  function AssessmentsOf(rs: seq<GapResult>): (batch: seq<Assessment>)
    ensures |batch| == |rs|
    ensures forall i | 0 <= i < |rs| :: batch[i] == rs[i].assessment
  {
    seq(|rs|, i requires 0 <= i < |rs| => rs[i].assessment)
  }

  /** Number of results with a negative gap score. */
  function CountDeficits(rs: seq<GapResult>): (n: nat)
    ensures n <= |rs|
  {
    if rs == [] then 0
    else CountDeficits(rs[..|rs| - 1]) + (if rs[|rs| - 1].assessment.gapScore < 0 then 1 else 0)
  }

  /** The employees a run covers: the one requested (a falsy id asks for all), or all. */
  function SelectEmployees(all: seq<Employee>, requested: Option<int>): (r: Result<seq<Employee>, LookupError>)
    ensures (requested.None? || requested.value == 0) ==> r == Success(all)
    ensures requested.Some? && requested.value != 0 ==>
      match FindEmployee(all, requested.value)
      case Some(e) => r == Success([e])
      case None => r == Failure(EmployeeNotFound(requested.value))
  {
    match requested
    case None => Success(all)
    case Some(id) =>
      if id == 0 then Success(all)
      else match FindEmployee(all, id)
        case Some(e) => Success([e])
        case None => Failure(EmployeeNotFound(id))
  }

  /** What a run reports and the gap table it leaves behind. */
  function AnalyzeSpec(db: Database, requested: Option<int>, s: StoreState, now: int): (r: (Result<AnalysisReport, LookupError>, StoreState))
    requires Keyed(s)
    ensures Keyed(r.1)
    ensures r.0.Failure? ==> r.1 == s
    ensures SelectEmployees(db.employees, requested).Failure? ==> r.0 == Failure(SelectEmployees(db.employees, requested).error)
    ensures r.0.Success? ==>
      && r.0.value.analyzedEmployees == |SelectEmployees(db.employees, requested).value|
      && r.0.value.totalGapsFound <= |r.0.value.results|
  {
    match SelectEmployees(db.employees, requested)
    case Failure(e) => (Failure(e), s)
    case Success(employees) =>
      match ResultsOf(db, Visits(db, employees))
      case Failure(e) => (Failure(e), s)
      case Success(rs) =>
        (Success(AnalysisReport(|employees|, CountDeficits(rs), rs)), WithAssessments(s, AssessmentsOf(rs), now))
  }

  lemma {:induction false} VisitsAppend(db: Database, a: seq<Employee>, b: seq<Employee>)
    ensures Visits(db, a + b) == Visits(db, a) + Visits(db, b)
  {
    if b != [] {
      var n := |b| - 1;
      var c := a + b;
      assert c[..|c| - 1] == a + b[..n] && c[|c| - 1] == b[n];
      VisitsAppend(db, a, b[..n]);
      VisitsLast(db, c);
      VisitsLast(db, b);
      AppendAssoc(Visits(db, a), Visits(db, b[..n]), EmployeeVisits(db, b[n]));
    } else {
      assert a + b == a;
    }
  }

  lemma VisitsLast(db: Database, employees: seq<Employee>)
    requires employees != []
    ensures var n := |employees| - 1;
      Visits(db, employees) == Visits(db, employees[..n]) + EmployeeVisits(db, employees[n])
  {
  }

  lemma {:induction false} ResultsFailurePersists(db: Database, a: seq<Visit>, b: seq<Visit>)
    requires ResultsOf(db, a).Failure?
    ensures ResultsOf(db, a + b) == ResultsOf(db, a)
  {
    if b == [] {
      assert a + b == a;
    } else {
      var n := |b| - 1;
      assert (a + b)[..|a| + n] == a + b[..n];
      ResultsFailurePersists(db, a, b[..n]);
    }
  }

  /** A successful run has one result per visited pair, in visit order, each
      the assessment of its pair; the run fails exactly when some visited
      skill id names no skill. */
  lemma {:induction false} ResultsOfShape(db: Database, vs: seq<Visit>)
    ensures ResultsOf(db, vs).Success? <==> forall i | 0 <= i < |vs| :: vs[i].req.skillId in db.skills
    ensures ResultsOf(db, vs).Success? ==>
      var rs := ResultsOf(db, vs).value;
      && |rs| == |vs|
      && forall i | 0 <= i < |vs| ::
           && rs[i].assessment == Evaluate(db, vs[i])
           && rs[i].employeeName == FullName(vs[i].employee)
           && rs[i].skillName == db.skills[vs[i].req.skillId].name
  {
    if vs != [] {
      var n := |vs| - 1;
      ResultsOfShape(db, vs[..n]);
      assert forall i | 0 <= i < n :: vs[..n][i] == vs[i];
    }
  }

  /**
   * Each result of a successful run assesses its own (employee, skill) pair:
   * the current level is the employee's proficiency row for the skill, or 0
   * when there is none, and the required level is the one the employee's
   * role dictionary holds for that skill.
   */
  lemma ResultsCarryLevels(db: Database, employees: seq<Employee>)
    requires ResultsOf(db, Visits(db, employees)).Success?
    ensures var vs := Visits(db, employees);
      var rs := ResultsOf(db, vs).value;
      && |rs| == |vs|
      && forall i | 0 <= i < |vs| ::
           var v := vs[i];
           var a := rs[i].assessment;
           && a.Key() == (v.employee.id, v.req.skillId)
           && ((v.employee.id, v.req.skillId) in db.proficiency ==> a.currentLevel == db.proficiency[(v.employee.id, v.req.skillId)])
           && ((v.employee.id, v.req.skillId) !in db.proficiency ==> a.currentLevel == 0)
           && a.requiredLevel == v.req.requiredLevel
           && v.employee in employees
           && v.employee.role.Some?
           && v.req in RequiredSkills(RoleRows(db, v.employee.role.value))
  {
    var vs := Visits(db, employees);
    ResultsOfShape(db, vs);
    forall i | 0 <= i < |vs|
      ensures vs[i].employee in employees && vs[i].employee.role.Some?
      ensures vs[i].req in RequiredSkills(RoleRows(db, vs[i].employee.role.value))
    {
      VisitsFromRoles(db, employees, i);
    }
  }

  /** Every visited pair belongs to a listed employee that has a role, and to
      a skill that role requires. */
  lemma VisitsFromRoles(db: Database, employees: seq<Employee>, i: nat)
    requires i < |Visits(db, employees)|
    ensures var v := Visits(db, employees)[i];
      && v.employee in employees
      && v.employee.role.Some?
      && v.req in RequiredSkills(RoleRows(db, v.employee.role.value))
  {
    var v := Visits(db, employees)[i];
    VisitsFromEmployees(db, employees, i);
    var k :| 0 <= k < |EmployeeVisits(db, v.employee)| && EmployeeVisits(db, v.employee)[k] == v;
    EmployeeVisitFromRole(db, v.employee, k);
  }

  /** Every visited pair is one of the pairs of a listed employee. */
  lemma {:induction false} VisitsFromEmployees(db: Database, employees: seq<Employee>, i: nat)
    requires i < |Visits(db, employees)|
    ensures var v := Visits(db, employees)[i];
      v.employee in employees && v in EmployeeVisits(db, v.employee)
  {
    var n := |employees| - 1;
    var prev := Visits(db, employees[..n]);
    var mine := EmployeeVisits(db, employees[n]);
    assert Visits(db, employees) == prev + mine;
    if i < |prev| {
      VisitsFromEmployees(db, employees[..n], i);
      assert Visits(db, employees)[i] == prev[i];
      PrefixMember(employees, n, prev[i].employee);
    } else {
      assert Visits(db, employees)[i] == mine[i - |prev|];
      EmployeeVisitFromRole(db, employees[n], i - |prev|);
    }
  }

  lemma PrefixMember<T>(s: seq<T>, n: nat, x: T)
    requires n <= |s| && x in s[..n]
    ensures x in s
  {
    var k :| 0 <= k < n && s[..n][k] == x;
    assert s[k] == x;
  }

  lemma EmployeeVisitFromRole(db: Database, e: Employee, k: nat)
    requires k < |EmployeeVisits(db, e)|
    ensures var v := EmployeeVisits(db, e)[k];
      && v.employee == e
      && e.role.Some?
      && v.req in RequiredSkills(RoleRows(db, e.role.value))
  {
    var reqs := RequiredSkills(RoleRows(db, e.role.value));
    assert EmployeeVisits(db, e)[k] == Visit(e, reqs[k]);
  }

  /** An employee without a role adds no visit, hence no result and no write. */
  lemma RolelessEmployeeSkipped(db: Database, employees: seq<Employee>, e: Employee)
    requires e.role.None?
    ensures Visits(db, employees + [e]) == Visits(db, employees)
  {
    assert (employees + [e])[..|employees|] == employees;
  }

  function VisitKey(v: Visit): Key
  {
    (v.employee.id, v.req.skillId)
  }

  predicate DistinctIds(employees: seq<Employee>)
  {
    forall p, q | 0 <= p < q < |employees| :: employees[p].id != employees[q].id
  }

  /** The pairs visited for one employee have distinct keys, all with that employee's id. */
  lemma EmployeeVisitKeys(db: Database, e: Employee)
    ensures forall p | 0 <= p < |EmployeeVisits(db, e)| :: EmployeeVisits(db, e)[p].employee.id == e.id
    ensures DistinctVisitKeys(EmployeeVisits(db, e))
  {
  }

  predicate DistinctVisitKeys(vs: seq<Visit>)
  {
    forall p, q | 0 <= p < q < |vs| :: VisitKey(vs[p]) != VisitKey(vs[q])
  }

  lemma VisitsSnoc(db: Database, employees: seq<Employee>, i: nat)
    requires i < |employees|
    ensures Visits(db, employees[..i + 1]) == Visits(db, employees[..i]) + EmployeeVisits(db, employees[i])
  {
    assert employees[..i + 1][..i] == employees[..i];
  }

  /** Employees with distinct ids are visited at distinct (employee, skill) keys. */
  lemma {:induction false} VisitKeysDistinct(db: Database, employees: seq<Employee>)
    requires DistinctIds(employees)
    ensures DistinctVisitKeys(Visits(db, employees))
  {
    if employees != [] {
      var n := |employees| - 1;
      var e := employees[n];
      var prev := Visits(db, employees[..n]);
      assert DistinctIds(employees[..n]);
      VisitKeysDistinct(db, employees[..n]);
      EmployeeVisitKeys(db, e);
      forall p | 0 <= p < |prev| ensures prev[p].employee.id != e.id {
        VisitsFromRoles(db, employees[..n], p);
        var k :| 0 <= k < n && employees[..n][k] == prev[p].employee;
        assert employees[k] == employees[..n][k];
      }
      ConcatDistinct(prev, EmployeeVisits(db, e), e.id);
    }
  }

  /** Visits with distinct keys stay distinct when followed by visits of an
      employee id none of them has. */
  lemma ConcatDistinct(a: seq<Visit>, b: seq<Visit>, id: int)
    requires DistinctVisitKeys(a) && DistinctVisitKeys(b)
    requires forall p | 0 <= p < |a| :: a[p].employee.id != id
    requires forall q | 0 <= q < |b| :: b[q].employee.id == id
    ensures DistinctVisitKeys(a + b)
  {
    var c := a + b;
    forall p, q | 0 <= p < q < |c| ensures VisitKey(c[p]) != VisitKey(c[q]) {
      if q < |a| {
        assert c[p] == a[p] && c[q] == a[q];
      } else if p < |a| {
        assert c[p] == a[p] && c[q] == b[q - |a|];
      } else {
        assert c[p] == b[p - |a|] && c[q] == b[q - |a|];
      }
    }
  }

  /**
   * After a successful run the table has a row for the old keys and exactly
   * the visited keys; with distinct employee ids, the row of each result's
   * key holds that result's assessment stamped with the run's clock; every
   * other row is unchanged and existing rows keep their row id.
   */
  lemma AnalyzeStoreEffect(db: Database, requested: Option<int>, s: StoreState, now: int)
    requires Keyed(s)
    requires DistinctIds(db.employees)
    requires AnalyzeSpec(db, requested, s, now).0.Success?
    ensures var rs := AnalyzeSpec(db, requested, s, now).0.value.results;
      var t := AnalyzeSpec(db, requested, s, now).1;
      && t.records.Keys == s.records.Keys + KeysOf(AssessmentsOf(rs))
      && (forall i | 0 <= i < |rs| :: rs[i].assessment.Key() in t.records
                                       && Holds(t.records[rs[i].assessment.Key()], rs[i].assessment)
                                       && t.records[rs[i].assessment.Key()].analysisDate == now)
      && (forall k | k in s.records && k !in KeysOf(AssessmentsOf(rs)) :: t.records[k] == s.records[k])
      && (forall k | k in s.records :: t.records[k].id == s.records[k].id)
  {
    AnalyzeSpecSucceeded(db, requested, s, now);
    var employees := SelectEmployees(db.employees, requested).value;
    SelectedDistinctIds(db.employees, requested);
    var vs := Visits(db, employees);
    VisitKeysDistinct(db, employees);
    ResultKeysDistinct(db, vs);
    ResultsStoreEffect(s, ResultsOf(db, vs).value, now);
  }

  /** A successful run is the results of the selected employees' pairs, saved as one batch. */
  lemma AnalyzeSpecSucceeded(db: Database, requested: Option<int>, s: StoreState, now: int)
    requires Keyed(s)
    requires AnalyzeSpec(db, requested, s, now).0.Success?
    ensures SelectEmployees(db.employees, requested).Success?
    ensures var vs := Visits(db, SelectEmployees(db.employees, requested).value);
      && ResultsOf(db, vs).Success?
      && AnalyzeSpec(db, requested, s, now).0.value.results == ResultsOf(db, vs).value
      && AnalyzeSpec(db, requested, s, now).1 == WithAssessments(s, AssessmentsOf(ResultsOf(db, vs).value), now)
  {
  }

  /** Selecting from employees with distinct ids gives employees with distinct ids. */
  lemma SelectedDistinctIds(all: seq<Employee>, requested: Option<int>)
    requires DistinctIds(all)
    requires SelectEmployees(all, requested).Success?
    ensures DistinctIds(SelectEmployees(all, requested).value)
  {
  }

  /** Saving the assessments of results with distinct keys: the store effect,
      stated per result. */
  lemma ResultsStoreEffect(s: StoreState, rs: seq<GapResult>, now: int)
    requires Keyed(s)
    requires var batch := AssessmentsOf(rs);
      forall p, q | 0 <= p < q < |batch| :: batch[p].Key() != batch[q].Key()
    ensures var t := WithAssessments(s, AssessmentsOf(rs), now);
      && t.records.Keys == s.records.Keys + KeysOf(AssessmentsOf(rs))
      && (forall i | 0 <= i < |rs| :: rs[i].assessment.Key() in t.records
                                       && Holds(t.records[rs[i].assessment.Key()], rs[i].assessment)
                                       && t.records[rs[i].assessment.Key()].analysisDate == now)
      && (forall k | k in s.records && k !in KeysOf(AssessmentsOf(rs)) :: t.records[k] == s.records[k])
      && (forall k | k in s.records :: t.records[k].id == s.records[k].id)
  {
    WithAssessmentsEffect(s, AssessmentsOf(rs), now);
    WithAssessmentsDistinct(s, AssessmentsOf(rs), now);
  }

  /** Results of visits at distinct keys carry assessments with distinct keys. */
  lemma ResultKeysDistinct(db: Database, vs: seq<Visit>)
    requires DistinctVisitKeys(vs)
    requires ResultsOf(db, vs).Success?
    ensures var batch := AssessmentsOf(ResultsOf(db, vs).value);
      forall p, q | 0 <= p < q < |batch| :: batch[p].Key() != batch[q].Key()
  {
    ResultsOfShape(db, vs);
    var batch := AssessmentsOf(ResultsOf(db, vs).value);
    assert forall p | 0 <= p < |batch| :: batch[p].Key() == VisitKey(vs[p]);
  }

  /**
   * Running the analysis twice on unchanged inputs reports the same outcome
   * and leaves the table exactly as one run at the second clock reading: one
   * row per key with the same row ids and values, only the stamps differ.
   */
  lemma AnalyzeIdempotent(db: Database, requested: Option<int>, s: StoreState, t1: int, t2: int)
    requires Keyed(s)
    ensures var (out1, s1) := AnalyzeSpec(db, requested, s, t1);
      var (out2, s2) := AnalyzeSpec(db, requested, s1, t2);
      out2 == out1 && s2 == AnalyzeSpec(db, requested, s, t2).1
  {
    match SelectEmployees(db.employees, requested)
    case Failure(_) =>
    case Success(employees) =>
      match ResultsOf(db, Visits(db, employees))
      case Failure(_) =>
      case Success(rs) =>
        WithAssessmentsTwice(s, AssessmentsOf(rs), t1, t2);
  }

  /** The counts of a report: every selected employee is counted, with or
      without a role, and the gaps found are the results with a deficit. */
  lemma {:induction false} CountDeficitsCounts(rs: seq<GapResult>)
    ensures CountDeficits(rs) == |set i | 0 <= i < |rs| && rs[i].assessment.gapScore < 0|
  {
    if rs != [] {
      var n := |rs| - 1;
      CountDeficitsCounts(rs[..n]);
      var prev := set i | 0 <= i < n && rs[..n][i].assessment.gapScore < 0;
      var all := set i | 0 <= i < |rs| && rs[i].assessment.gapScore < 0;
      if rs[n].assessment.gapScore < 0 {
        assert all == prev + {n};
      } else {
        assert all == prev;
      }
    }
  }

  lemma ResultsStep(db: Database, visited: seq<Visit>, results: seq<GapResult>, v: Visit)
    requires ResultsOf(db, visited) == Success(results)
    requires v.req.skillId in db.skills
    ensures ResultsOf(db, visited + [v])
         == Success(results + [GapResult(FullName(v.employee), db.skills[v.req.skillId].name, Evaluate(db, v))])
  {
    assert (visited + [v])[..|visited|] == visited;
  }

  lemma BatchStep(s: StoreState, results: seq<GapResult>, r: GapResult, now: int)
    requires Keyed(s)
    ensures WithAssessments(s, AssessmentsOf(results + [r]), now)
         == WithAssessment(WithAssessments(s, AssessmentsOf(results), now), r.assessment, now)
  {
    var b := AssessmentsOf(results + [r]);
    assert b[..|results|] == AssessmentsOf(results);
  }

  /** When the skill of the j-th requirement of the i-th employee is unknown,
      and everything before it succeeded, the whole run fails on that skill. */
  lemma AbortedRun(db: Database, employees: seq<Employee>, i: nat, j: nat)
    requires i < |employees| && employees[i].role.Some?
    requires var reqs := RequiredSkills(RoleRows(db, employees[i].role.value));
      && j < |reqs|
      && reqs[j].skillId !in db.skills
      && ResultsOf(db, Visits(db, employees[..i]) + VisitsFor(employees[i], reqs[..j])).Success?
    ensures var reqs := RequiredSkills(RoleRows(db, employees[i].role.value));
      ResultsOf(db, Visits(db, employees)) == Failure(SkillNotFound(reqs[j].skillId))
  {
    var e := employees[i];
    var reqs := RequiredSkills(RoleRows(db, e.role.value));
    var before := Visits(db, employees[..i]);
    var done := before + VisitsFor(e, reqs[..j]);
    var v := Visit(e, reqs[j]);
    var after := VisitsFor(e, reqs[j + 1..]);
    var later := Visits(db, employees[i + 1..]);
    VisitsSplitAt(db, employees, i);
    VisitsForSplit(e, reqs, j);
    Regroup(before, VisitsFor(e, reqs[..j]), v, after, later);
    FailAt(db, done, v, after + later);
  }

  /** The visits of a list split around the i-th employee. */
  lemma VisitsSplitAt(db: Database, employees: seq<Employee>, i: nat)
    requires i < |employees|
    ensures Visits(db, employees)
         == Visits(db, employees[..i]) + EmployeeVisits(db, employees[i]) + Visits(db, employees[i + 1..])
  {
    assert employees == employees[..i + 1] + employees[i + 1..];
    VisitsAppend(db, employees[..i + 1], employees[i + 1..]);
    VisitsSnoc(db, employees, i);
  }

  lemma AppendAssoc<T>(x: seq<T>, y: seq<T>, z: seq<T>)
    ensures (x + y) + z == x + (y + z)
  {
  }

  lemma Regroup<T>(a: seq<T>, b: seq<T>, x: T, c: seq<T>, d: seq<T>)
    ensures a + (b + [x] + c) + d == (a + b + [x]) + (c + d)
  {
  }

  lemma FailAt(db: Database, done: seq<Visit>, v: Visit, rest: seq<Visit>)
    requires ResultsOf(db, done).Success?
    requires v.req.skillId !in db.skills
    ensures ResultsOf(db, (done + [v]) + rest) == Failure(SkillNotFound(v.req.skillId))
  {
    assert (done + [v])[..|done|] == done;
    ResultsFailurePersists(db, done + [v], rest);
  }

  lemma VisitsForSnoc(e: Employee, reqs: seq<Requirement>, j: nat)
    requires j < |reqs|
    ensures VisitsFor(e, reqs[..j + 1]) == VisitsFor(e, reqs[..j]) + [Visit(e, reqs[j])]
  {
    assert reqs[..j + 1] == reqs[..j] + [reqs[j]];
  }

  lemma VisitsForSplit(e: Employee, reqs: seq<Requirement>, j: nat)
    requires j < |reqs|
    ensures VisitsFor(e, reqs) == VisitsFor(e, reqs[..j]) + [Visit(e, reqs[j])] + VisitsFor(e, reqs[j + 1..])
  {
    var lhs := VisitsFor(e, reqs);
    var rhs := VisitsFor(e, reqs[..j]) + [Visit(e, reqs[j])] + VisitsFor(e, reqs[j + 1..]);
    assert |lhs| == |rhs|;
    forall k | 0 <= k < |lhs| ensures lhs[k] == rhs[k] {
      if k < j {
        assert rhs[k] == VisitsFor(e, reqs[..j])[k];
      } else if k > j {
        assert rhs[k] == VisitsFor(e, reqs[j + 1..])[k - j - 1];
      }
    }
  }

  /**
   * One (employee, required skill) pair: compute its assessment, save it in
   * the table, then look up the skill's name for the report; `None` when the
   * skill id names no skill.
   */
  method AnalyzePair(db: Database, e: Employee, req: Requirement, store: Store, now: int)
    returns (entry: Option<GapResult>)
    requires store.Valid()
    modifies store
    ensures store.Valid()
    ensures store.State() == WithAssessment(old(store.State()), Evaluate(db, Visit(e, req)), now)
    ensures entry.None? <==> req.skillId !in db.skills
    ensures entry.Some? ==>
      entry.value == GapResult(FullName(e), db.skills[req.skillId].name, Evaluate(db, Visit(e, req)))
  {
    var current := CurrentLevel(db.proficiency, e.id, req.skillId);
    var a := Assess(e.id, req.skillId, current, req.requiredLevel);
    store.Upsert(a, now);
    if req.skillId in db.skills {
      entry := Some(GapResult(FullName(e), db.skills[req.skillId].name, a));
    } else {
      entry := None;
    }
  }

  /**
   * The required skills of one employee, in order, after `before` has been
   * visited with results `results0`. Returns the extended results, or the
   * position of the first skill id that names no skill; the table then holds
   * the assessments saved so far.
   */
  method AnalyzeRequirements(db: Database, e: Employee, reqs: seq<Requirement>, store: Store, now: int,
                         ghost saved: StoreState, ghost before: seq<Visit>, results0: seq<GapResult>)
    returns (results: seq<GapResult>, failedAt: Option<nat>)
    requires store.Valid() && Keyed(saved)
    requires ResultsOf(db, before) == Success(results0)
    requires store.State() == WithAssessments(saved, AssessmentsOf(results0), now)
    modifies store
    ensures store.Valid()
    ensures failedAt.None? ==>
      && ResultsOf(db, before + VisitsFor(e, reqs)) == Success(results)
      && store.State() == WithAssessments(saved, AssessmentsOf(results), now)
    ensures failedAt.Some? ==>
      && failedAt.value < |reqs|
      && reqs[failedAt.value].skillId !in db.skills
      && ResultsOf(db, before + VisitsFor(e, reqs[..failedAt.value])).Success?
  {
    results := results0;
    ghost var visited := before;
    assert reqs[..0] == [];
    assert before + VisitsFor(e, reqs[..0]) == before;
    var j := 0;
    while j < |reqs|
      invariant 0 <= j <= |reqs|
      invariant store.Valid()
      invariant visited == before + VisitsFor(e, reqs[..j])
      invariant ResultsOf(db, visited) == Success(results)
      invariant store.State() == WithAssessments(saved, AssessmentsOf(results), now)
    {
      var req := reqs[j];
      var v := Visit(e, req);
      var entry := AnalyzePair(db, e, req, store, now);
      if entry.None? {
        return results, Some(j);
      }
      var r := entry.value;
      ResultsStep(db, visited, results, v);
      BatchStep(saved, results, r, now);
      VisitsForSnoc(e, reqs, j);
      AppendAssoc(before, VisitsFor(e, reqs[..j]), [v]);
      results := results + [r];
      visited := visited + [v];
      j := j + 1;
    }
    assert reqs[..j] == reqs;
    failedAt := None;
  }

  /**
   * The i-th selected employee: nothing when it has no role, otherwise each
   * required skill of its role in turn. A skill id that names no skill ends
   * the run with that failure.
   */
  method AnalyzeEmployee(db: Database, employees: seq<Employee>, i: nat, store: Store, now: int,
                         ghost saved: StoreState, results0: seq<GapResult>)
    returns (results: seq<GapResult>, failure: Option<LookupError>)
    requires i < |employees|
    requires store.Valid() && Keyed(saved)
    requires ResultsOf(db, Visits(db, employees[..i])) == Success(results0)
    requires store.State() == WithAssessments(saved, AssessmentsOf(results0), now)
    modifies store
    ensures store.Valid()
    ensures failure.None? ==>
      && ResultsOf(db, Visits(db, employees[..i + 1])) == Success(results)
      && store.State() == WithAssessments(saved, AssessmentsOf(results), now)
    ensures failure.Some? ==> ResultsOf(db, Visits(db, employees)) == Failure(failure.value)
  {
    var e := employees[i];
    VisitsSnoc(db, employees, i);
    if e.role.None? {
      assert Visits(db, employees[..i]) + EmployeeVisits(db, e) == Visits(db, employees[..i]);
      return results0, None;
    }
    var reqs := RequiredSkills(RoleRows(db, e.role.value));
    var failedAt;
    results, failedAt := AnalyzeRequirements(db, e, reqs, store, now, saved, Visits(db, employees[..i]), results0);
    if failedAt.Some? {
      AbortedRun(db, employees, i, failedAt.value);
      return results, Some(SkillNotFound(reqs[failedAt.value].skillId));
    }
    failure := None;
  }

  /**
   * The loop over the selected employees. Stops at the first skill id that
   * names no skill, leaving the writes made so far.
   */
  method AnalyzeEmployees(db: Database, employees: seq<Employee>, store: Store, now: int)
    returns (outcome: Result<seq<GapResult>, LookupError>)
    requires store.Valid()
    modifies store
    ensures store.Valid()
    ensures outcome == ResultsOf(db, Visits(db, employees))
    ensures outcome.Success? ==> store.State() == WithAssessments(old(store.State()), AssessmentsOf(outcome.value), now)
  {
    ghost var saved := store.State();
    var results: seq<GapResult> := [];
    var i := 0;
    while i < |employees|
      invariant 0 <= i <= |employees|
      invariant store.Valid()
      invariant ResultsOf(db, Visits(db, employees[..i])) == Success(results)
      invariant store.State() == WithAssessments(saved, AssessmentsOf(results), now)
    {
      var failure;
      results, failure := AnalyzeEmployee(db, employees, i, store, now, saved, results);
      if failure.Some? {
        return Failure(failure.value);
      }
      i := i + 1;
    }
    assert employees[..i] == employees;
    outcome := Success(results);
  }

  /**
   * One analysis run: select the employees, visit them, and commit; a skill
   * id that names no skill rolls the table back to its state before the run.
   */
  method Analyze(db: Database, requested: Option<int>, store: Store, now: int)
    returns (outcome: Result<AnalysisReport, LookupError>)
    requires store.Valid()
    modifies store
    ensures store.Valid()
    ensures (outcome, store.State()) == AnalyzeSpec(db, requested, old(store.State()), now)
  {
    var selected := SelectEmployees(db.employees, requested);
    if selected.Failure? {
      return Failure(selected.error);
    }
    var employees := selected.value;
    var saved := store.State();
    var results := AnalyzeEmployees(db, employees, store, now);
    if results.Failure? {
      store.Rollback(saved);
      return Failure(results.error);
    }
    outcome := Success(AnalysisReport(|employees|, CountDeficits(results.value), results.value));
  }
}
