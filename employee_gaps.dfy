/**
 * The stored gap rows of one employee, each joined with its skill's name
 * and category, with the number of deficits and of High-priority gaps.
 */
module EmployeeGaps {
  import opened Wrappers
  import opened GapScoring
  import opened GapStore
  import opened Schema

  /** The stored rows of one employee, in the order they are stored. */
  function RowsFor(rows: seq<GapRecord>, employeeId: int): (r: seq<GapRecord>)
    ensures forall i | 0 <= i < |r| :: r[i] in rows && r[i].employeeId == employeeId
    ensures forall g | g in rows && g.employeeId == employeeId :: g in r
  {
    if rows == [] then []
    else
      var n := |rows| - 1;
      var prev := RowsFor(rows[..n], employeeId);
      assert forall g | g in rows[..n] :: g in rows;
      assert forall g | g in rows :: g in rows[..n] || g == rows[n] by {
        assert rows == rows[..n] + [rows[n]];
      }
      if rows[n].employeeId == employeeId then prev + [rows[n]] else prev
  }

  /** Selecting an employee's rows distributes over concatenation: the rows of
      a prefix come first, each as often as it is stored. */
  lemma {:induction false} RowsForAppend(a: seq<GapRecord>, b: seq<GapRecord>, employeeId: int)
    ensures RowsFor(a + b, employeeId) == RowsFor(a, employeeId) + RowsFor(b, employeeId)
  {
    if b == [] {
      assert a + b == a;
    } else {
      var n := |b| - 1;
      var c := a + b;
      assert c[..|c| - 1] == a + b[..n] && c[|c| - 1] == b[n];
      RowsForAppend(a, b[..n], employeeId);
      RowsForLast(c, employeeId);
      RowsForLast(b, employeeId);
    }
  }

  lemma RowsForLast(rows: seq<GapRecord>, employeeId: int)
    requires rows != []
    ensures var n := |rows| - 1;
      RowsFor(rows, employeeId) == RowsFor(rows[..n], employeeId) + if rows[n].employeeId == employeeId then [rows[n]] else []
  {
  }

  /** A single row is kept once when it is the employee's and dropped otherwise. */
  lemma RowsForSingle(g: GapRecord, employeeId: int)
    ensures RowsFor([g], employeeId) == if g.employeeId == employeeId then [g] else []
  {
    assert [g][..0] == [];
  }

  /** A stored row together with its skill's name and category. */
  datatype GapView = GapView(gap: GapRecord, skillName: string, skillCategory: string)

  /** The view of one row, or the failed skill lookup. */
  function View(db: Database, g: GapRecord): (r: Result<GapView, LookupError>)
    ensures r.Failure? <==> g.skillId !in db.skills
    ensures r.Failure? ==> r.error == SkillNotFound(g.skillId)
    ensures r.Success? ==>
      && r.value.gap == g
      && r.value.skillName == db.skills[g.skillId].name
      && r.value.skillCategory == db.skills[g.skillId].category
  {
    if g.skillId in db.skills then
      Success(GapView(g, db.skills[g.skillId].name, db.skills[g.skillId].category))
    else Failure(SkillNotFound(g.skillId))
  }

  /** The views of a list of rows in order, or the first failed lookup. */
  function Views(db: Database, gs: seq<GapRecord>): (r: Result<seq<GapView>, LookupError>)
    ensures r.Success? ==> |r.value| == |gs|
  {
    if gs == [] then Success([])
    else
      var n := |gs| - 1;
      match Views(db, gs[..n])
      case Failure(e) => Failure(e)
      case Success(vs) =>
        match View(db, gs[n])
        case Failure(e) => Failure(e)
        case Success(v) => Success(vs + [v])
  }

  /** The number of views whose gap score is negative. */
  function CountBelow(vs: seq<GapView>): (n: nat)
    ensures n <= |vs|
  {
    if vs == [] then 0
    else CountBelow(vs[..|vs| - 1]) + (if vs[|vs| - 1].gap.gapScore < 0 then 1 else 0)
  }

  /** The number of views whose priority is High. */
  function CountHigh(vs: seq<GapView>): (n: nat)
    ensures n <= |vs|
  {
    if vs == [] then 0
    else CountHigh(vs[..|vs| - 1]) + (if vs[|vs| - 1].gap.priority == High then 1 else 0)
  }

  datatype EmployeeGapReport = EmployeeGapReport(
    employeeId: int,
    employeeName: string,
    skillGaps: seq<GapView>,
    totalGaps: nat,
    highPriorityGaps: nat)

  /** What the per-employee gap request answers for the stored rows `rows`. */
  function EmployeeGapsSpec(db: Database, rows: seq<GapRecord>, employeeId: int): (r: Result<EmployeeGapReport, LookupError>)
    ensures FindEmployee(db.employees, employeeId).None? ==> r == Failure(EmployeeNotFound(employeeId))
    ensures r.Success? ==>
      && r.value.employeeId == employeeId
      && |r.value.skillGaps| == |RowsFor(rows, employeeId)|
      && r.value.totalGaps <= |r.value.skillGaps|
      && r.value.highPriorityGaps <= |r.value.skillGaps|
  {
    match FindEmployee(db.employees, employeeId)
    case None => Failure(EmployeeNotFound(employeeId))
    case Some(e) =>
      match Views(db, RowsFor(rows, employeeId))
      case Failure(err) => Failure(err)
      case Success(vs) => Success(EmployeeGapReport(employeeId, FullName(e), vs, CountBelow(vs), CountHigh(vs)))
  }

  lemma {:induction false} ViewsFailurePersists(db: Database, gs: seq<GapRecord>, i: nat)
    requires i <= |gs|
    requires Views(db, gs[..i]).Failure?
    ensures Views(db, gs) == Views(db, gs[..i])
  {
    if i < |gs| {
      var n := |gs| - 1;
      assert gs[..n][..i] == gs[..i];
      ViewsFailurePersists(db, gs[..n], i);
      assert Views(db, gs[..n]).Failure?;
      assert Views(db, gs) == Views(db, gs[..n]);
    } else {
      assert gs[..i] == gs;
    }
  }

  /** The views succeed exactly when every row's skill exists, and then they
      are the rows in order. */
  lemma {:induction false} ViewsShape(db: Database, gs: seq<GapRecord>)
    ensures Views(db, gs).Success? <==> forall i | 0 <= i < |gs| :: gs[i].skillId in db.skills
    ensures Views(db, gs).Success? ==>
      && |Views(db, gs).value| == |gs|
      && forall i | 0 <= i < |gs| :: Views(db, gs).value[i].gap == gs[i]
  {
    if gs != [] {
      var n := |gs| - 1;
      ViewsShape(db, gs[..n]);
      assert forall i | 0 <= i < n :: gs[..n][i] == gs[i];
    }
  }

  /** On rows written by the analysis, every High gap is a deficit, so the
      High count never exceeds the deficit count. */
  /** `total_gaps` is the number of views whose stored gap score is negative. */
  lemma {:induction false} CountBelowCounts(vs: seq<GapView>)
    ensures CountBelow(vs) == |set i | 0 <= i < |vs| && vs[i].gap.gapScore < 0|
  {
    if vs != [] {
      var n := |vs| - 1;
      CountBelowCounts(vs[..n]);
      var prev := set i | 0 <= i < n && vs[..n][i].gap.gapScore < 0;
      var all := set i | 0 <= i < |vs| && vs[i].gap.gapScore < 0;
      if vs[n].gap.gapScore < 0 {
        assert all == prev + {n};
      } else {
        assert all == prev;
      }
    }
  }

  /** `high_priority_gaps` is the number of views whose stored priority is High. */
  lemma {:induction false} CountHighCounts(vs: seq<GapView>)
    ensures CountHigh(vs) == |set i | 0 <= i < |vs| && vs[i].gap.priority == High|
  {
    if vs != [] {
      var n := |vs| - 1;
      CountHighCounts(vs[..n]);
      var prev := set i | 0 <= i < n && vs[..n][i].gap.priority == High;
      var all := set i | 0 <= i < |vs| && vs[i].gap.priority == High;
      if vs[n].gap.priority == High {
        assert all == prev + {n};
      } else {
        assert all == prev;
      }
    }
  }

  lemma {:induction false} HighWithinTotal(vs: seq<GapView>)
    requires forall i | 0 <= i < |vs| :: Consistent(FieldsOf(vs[i].gap))
    ensures CountHigh(vs) <= CountBelow(vs)
  {
    if vs != [] {
      var n := |vs| - 1;
      assert forall i | 0 <= i < n :: vs[..n][i] == vs[i];
      HighWithinTotal(vs[..n]);
    }
  }

  /**
   * A successful answer lists exactly the employee's rows, in stored order,
   * and on rows written by the analysis its High count is at most its
   * deficit count.
   */
  lemma EmployeeGapsContents(db: Database, rows: seq<GapRecord>, employeeId: int)
    requires EmployeeGapsSpec(db, rows, employeeId).Success?
    ensures var report := EmployeeGapsSpec(db, rows, employeeId).value;
      && |report.skillGaps| == |RowsFor(rows, employeeId)|
      && (forall i | 0 <= i < |report.skillGaps| :: report.skillGaps[i].gap == RowsFor(rows, employeeId)[i])
      && (forall g | g in rows && g.employeeId == employeeId :: exists i | 0 <= i < |report.skillGaps| :: report.skillGaps[i].gap == g)
      && ((forall g | g in rows :: Consistent(FieldsOf(g))) ==> report.highPriorityGaps <= report.totalGaps)
  {
    var gs := RowsFor(rows, employeeId);
    ViewsShape(db, gs);
    var vs := Views(db, gs).value;
    forall g | g in rows && g.employeeId == employeeId
      ensures exists i | 0 <= i < |vs| :: vs[i].gap == g
    {
      var i :| 0 <= i < |gs| && gs[i] == g;
      assert vs[i].gap == g;
    }
    if forall g | g in rows :: Consistent(FieldsOf(g)) {
      HighWithinTotal(vs);
    }
  }

  /** `get_employee_skill_gaps`: look up the employee, join each of its rows
      with its skill, then count deficits and High gaps. */
  method EmployeeSkillGaps(db: Database, rows: seq<GapRecord>, employeeId: int)
    returns (out: Result<EmployeeGapReport, LookupError>)
    ensures out == EmployeeGapsSpec(db, rows, employeeId)
  {
    var employee := FindEmployee(db.employees, employeeId);
    if employee.None? {
      return Failure(EmployeeNotFound(employeeId));
    }
    var gs := RowsFor(rows, employeeId);
    var views: seq<GapView> := [];
    var i := 0;
    while i < |gs|
      invariant 0 <= i <= |gs|
      invariant Views(db, gs[..i]) == Success(views)
    {
      var v := View(db, gs[i]);
      assert gs[..i + 1][..i] == gs[..i];
      assert gs[..i + 1][i] == gs[i];
      if v.Failure? {
        ViewsFailurePersists(db, gs, i + 1);
        return Failure(v.error);
      }
      views := views + [v.value];
      i := i + 1;
    }
    assert gs[..i] == gs;
    out := Success(EmployeeGapReport(employeeId, FullName(employee.value), views, CountBelow(views), CountHigh(views)));
  }
}
