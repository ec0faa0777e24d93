/**
 * Skill development predictions for one employee: for each stored deficit,
 * the training hours, a success probability and the weeks to completion at
 * eight hours a week.
 */
module Predictions {
  import opened Wrappers
  import opened GapScoring
  import opened GapStore
  import opened Schema
  import opened EmployeeGaps

  const HoursPerWeek: nat := 8

  /** Weeks to complete `hours` of training at eight hours a week, truncated. */
  function CompletionWeeks(hours: nat): (w: nat)
    ensures HoursPerWeek * w <= hours < HoursPerWeek * w + HoursPerWeek
  {
    hours / HoursPerWeek
  }

  /** The success probability in tenths: one tenth less per level of gap,
      never below six tenths. */
  function SuccessTenths(gapScore: int): (t: nat)
    ensures 6 <= t <= 10
    ensures t == 10 <==> gapScore == 0
    ensures t == 6 <==> Abs(gapScore) >= 4
    ensures Abs(gapScore) <= 4 ==> t + Abs(gapScore) == 10
  {
    Max(6, 10 - Abs(gapScore))
  }

  /** A larger gap never has a larger success probability. */
  lemma SuccessMonotone(g1: int, g2: int)
    requires Abs(g1) <= Abs(g2)
    ensures SuccessTenths(g2) <= SuccessTenths(g1)
  {
  }

  datatype Prediction = Prediction(
    skillId: int,
    skillName: string,
    currentLevel: int,
    targetLevel: int,
    trainingHours: nat,
    successTenths: nat,
    completionWeeks: nat,
    priority: Priority)

  /** The prediction for one stored row: none when the row is not a deficit,
      otherwise the prediction or the failed skill lookup. */
  function Predict(db: Database, g: GapRecord): (r: Result<Option<Prediction>, LookupError>)
    ensures r.Failure? <==> g.gapScore < 0 && g.skillId !in db.skills
    ensures r.Failure? ==> r.error == SkillNotFound(g.skillId)
    ensures r == Success(None) <==> g.gapScore >= 0
    ensures r.Success? && r.value.Some? ==>
      && r.value.value.skillId == g.skillId
      && r.value.value.skillName == db.skills[g.skillId].name
      && r.value.value.currentLevel == g.currentLevel
      && r.value.value.targetLevel == g.requiredLevel
      && r.value.value.trainingHours == g.trainingHours
      && r.value.value.successTenths == SuccessTenths(g.gapScore)
      && HoursPerWeek * r.value.value.completionWeeks <= g.trainingHours < HoursPerWeek * (r.value.value.completionWeeks + 1)
      && r.value.value.priority == g.priority
  {
    if g.gapScore >= 0 then Success(None)
    else if g.skillId !in db.skills then Failure(SkillNotFound(g.skillId))
    else
      var hours := g.trainingHours;
      Success(Some(Prediction(g.skillId, db.skills[g.skillId].name, g.currentLevel, g.requiredLevel,
                              hours, SuccessTenths(g.gapScore), CompletionWeeks(hours), g.priority)))
  }

  /** The predictions for a list of rows in order, or the first failed lookup. */
  function PredictAll(db: Database, gs: seq<GapRecord>): (r: Result<seq<Prediction>, LookupError>)
    ensures r.Success? ==> |r.value| <= |gs|
  {
    if gs == [] then Success([])
    else
      var n := |gs| - 1;
      match PredictAll(db, gs[..n])
      case Failure(e) => Failure(e)
      case Success(ps) =>
        match Predict(db, gs[n])
        case Failure(e) => Failure(e)
        case Success(None) => Success(ps)
        case Success(Some(p)) => Success(ps + [p])
  }

  /** The rows of a list that are deficits, in order. */
  function Deficits(gs: seq<GapRecord>): (d: seq<GapRecord>)
    ensures |d| <= |gs|
  {
    if gs == [] then []
    else
      var n := |gs| - 1;
      Deficits(gs[..n]) + (if gs[n].gapScore < 0 then [gs[n]] else [])
  }

  function TotalPredictedHours(ps: seq<Prediction>): nat
  {
    if ps == [] then 0 else TotalPredictedHours(ps[..|ps| - 1]) + ps[|ps| - 1].trainingHours
  }

  function TotalStoredHours(gs: seq<GapRecord>): nat
  {
    if gs == [] then 0 else TotalStoredHours(gs[..|gs| - 1]) + gs[|gs| - 1].trainingHours
  }

  datatype PredictionReport = PredictionReport(
    employeeId: int,
    employeeName: string,
    predictions: seq<Prediction>,
    totalTrainingHours: nat)

  /** What the prediction request answers for the stored rows `rows`. */
  function PredictionsSpec(db: Database, rows: seq<GapRecord>, employeeId: int): (r: Result<PredictionReport, LookupError>)
    ensures FindEmployee(db.employees, employeeId).None? ==> r == Failure(EmployeeNotFound(employeeId))
    ensures r.Success? ==>
      && r.value.employeeId == employeeId
      && |r.value.predictions| <= |RowsFor(rows, employeeId)|
  {
    match FindEmployee(db.employees, employeeId)
    case None => Failure(EmployeeNotFound(employeeId))
    case Some(e) =>
      match PredictAll(db, RowsFor(rows, employeeId))
      case Failure(err) => Failure(err)
      case Success(ps) => Success(PredictionReport(employeeId, FullName(e), ps, TotalPredictedHours(ps)))
  }

  lemma {:induction false} PredictAllFailurePersists(db: Database, gs: seq<GapRecord>, i: nat)
    requires i <= |gs|
    requires PredictAll(db, gs[..i]).Failure?
    ensures PredictAll(db, gs) == PredictAll(db, gs[..i])
  {
    if i < |gs| {
      var n := |gs| - 1;
      assert gs[..n][..i] == gs[..i];
      PredictAllFailurePersists(db, gs[..n], i);
      assert PredictAll(db, gs[..n]).Failure?;
      assert PredictAll(db, gs) == PredictAll(db, gs[..n]);
    } else {
      assert gs[..i] == gs;
    }
  }

  lemma PredictAllSnoc(db: Database, gs: seq<GapRecord>, i: nat)
    requires i < |gs| && PredictAll(db, gs[..i]).Success?
    ensures Predict(db, gs[i]).Failure? ==> PredictAll(db, gs[..i + 1]) == Failure(Predict(db, gs[i]).error)
    ensures Predict(db, gs[i]) == Success(None) ==> PredictAll(db, gs[..i + 1]) == PredictAll(db, gs[..i])
    ensures Predict(db, gs[i]).Success? && Predict(db, gs[i]).value.Some? ==>
      PredictAll(db, gs[..i + 1]) == Success(PredictAll(db, gs[..i]).value + [Predict(db, gs[i]).value.value])
  {
    assert gs[..i + 1][..i] == gs[..i];
    assert gs[..i + 1][i] == gs[i];
  }

  /** The predictions succeed exactly when every deficit's skill exists. */
  lemma {:induction false} PredictAllSucceeds(db: Database, gs: seq<GapRecord>)
    ensures PredictAll(db, gs).Success? <==> forall g | g in gs && g.gapScore < 0 :: g.skillId in db.skills
  {
    if gs != [] {
      var n := |gs| - 1;
      assert gs == gs[..n] + [gs[n]];
      PredictAllSucceeds(db, gs[..n]);
    }
  }

  /**
   * A successful prediction list has one prediction per deficit, in order,
   * carrying that deficit's stored hours, and the total is the deficits'
   * stored hours.
   */
  lemma PredictAllShape(db: Database, gs: seq<GapRecord>)
    requires PredictAll(db, gs).Success?
    ensures var ps := PredictAll(db, gs).value;
      var ds := Deficits(gs);
      && |ps| == |ds|
      && (forall i | 0 <= i < |ds| :: Predict(db, ds[i]) == Success(Some(ps[i])))
      && TotalPredictedHours(ps) == TotalStoredHours(ds)
  {
    PredictAllMatches(db, gs);
    var ps := PredictAll(db, gs).value;
    var ds := Deficits(gs);
    assert forall i | 0 <= i < |ds| :: ps[i].trainingHours == ds[i].trainingHours;
    SameHours(ps, ds);
  }

  /** One prediction per deficit, in order. */
  lemma {:induction false} PredictAllMatches(db: Database, gs: seq<GapRecord>)
    requires PredictAll(db, gs).Success?
    ensures var ps := PredictAll(db, gs).value;
      var ds := Deficits(gs);
      && |ps| == |ds|
      && (forall i | 0 <= i < |ds| :: Predict(db, ds[i]) == Success(Some(ps[i])))
  {
    if gs != [] {
      var n := |gs| - 1;
      PredictAllMatches(db, gs[..n]);
      var prev := PredictAll(db, gs[..n]).value;
      var before := Deficits(gs[..n]);
      var p := Predict(db, gs[n]);
      if gs[n].gapScore < 0 {
        var ps := prev + [p.value.value];
        var ds := before + [gs[n]];
        assert PredictAll(db, gs).value == ps;
        assert Deficits(gs) == ds;
        forall i | 0 <= i < |ds| ensures Predict(db, ds[i]) == Success(Some(ps[i])) {
          if i < |before| {
            assert ds[i] == before[i] && ps[i] == prev[i];
          }
        }
      } else {
        assert PredictAll(db, gs).value == prev;
        assert Deficits(gs) == before;
      }
    }
  }

  /** Lists of predictions and rows with matching hours have the same total. */
  lemma {:induction false} SameHours(ps: seq<Prediction>, ds: seq<GapRecord>)
    requires |ps| == |ds|
    requires forall i | 0 <= i < |ds| :: ps[i].trainingHours == ds[i].trainingHours
    ensures TotalPredictedHours(ps) == TotalStoredHours(ds)
  {
    if ps != [] {
      var n := |ps| - 1;
      SameHours(ps[..n], ds[..n]);
    }
  }

  /** The deficits of a list are exactly its rows with a negative score. */
  lemma {:induction false} DeficitsMembers(gs: seq<GapRecord>)
    ensures forall g :: g in Deficits(gs) <==> g in gs && g.gapScore < 0
  {
    if gs != [] {
      var n := |gs| - 1;
      assert gs == gs[..n] + [gs[n]];
      DeficitsMembers(gs[..n]);
    }
  }

  /** Taking deficits distributes over concatenation: stored order is kept,
      each row as often as it is stored. */
  lemma {:induction false} DeficitsAppend(a: seq<GapRecord>, b: seq<GapRecord>)
    ensures Deficits(a + b) == Deficits(a) + Deficits(b)
  {
    if b == [] {
      assert a + b == a;
    } else {
      var n := |b| - 1;
      var c := a + b;
      assert c[..|c| - 1] == a + b[..n] && c[|c| - 1] == b[n];
      DeficitsAppend(a, b[..n]);
      DeficitsLast(c);
      DeficitsLast(b);
    }
  }

  lemma DeficitsLast(gs: seq<GapRecord>)
    requires gs != []
    ensures var n := |gs| - 1;
      Deficits(gs) == Deficits(gs[..n]) + if gs[n].gapScore < 0 then [gs[n]] else []
  {
  }

  /** A single row is a deficit once when its score is negative, otherwise dropped. */
  lemma DeficitsSingle(g: GapRecord)
    ensures Deficits([g]) == if g.gapScore < 0 then [g] else []
  {
    assert [g][..0] == [];
  }

  /** On rows written by the analysis, a deficit's stored hours are twenty per level. */
  lemma {:induction false} StoredHoursOfConsistent(gs: seq<GapRecord>)
    requires forall i | 0 <= i < |gs| :: Consistent(FieldsOf(gs[i]))
    ensures TotalStoredHours(Deficits(gs)) == TotalStoredHours(gs)
  {
    if gs != [] {
      var n := |gs| - 1;
      assert forall i | 0 <= i < n :: gs[..n][i] == gs[i];
      StoredHoursOfConsistent(gs[..n]);
      ConsistentDeficit(FieldsOf(gs[n]));
      var ds := Deficits(gs);
      if gs[n].gapScore < 0 {
        assert ds[..|ds| - 1] == Deficits(gs[..n]);
      } else {
        assert ds == Deficits(gs[..n]);
      }
    }
  }

  /**
   * A successful answer predicts every deficit of the employee and nothing
   * else; on rows written by the analysis its total is all of the
   * employee's stored training hours.
   */
  lemma PredictionsContents(db: Database, rows: seq<GapRecord>, employeeId: int)
    requires PredictionsSpec(db, rows, employeeId).Success?
    ensures var report := PredictionsSpec(db, rows, employeeId).value;
      var ds := Deficits(RowsFor(rows, employeeId));
      && |report.predictions| == |ds|
      && (forall g :: g in ds <==> g in rows && g.employeeId == employeeId && g.gapScore < 0)
      && (forall i | 0 <= i < |ds| :: Predict(db, ds[i]) == Success(Some(report.predictions[i])))
      && ((forall g | g in rows :: Consistent(FieldsOf(g))) ==>
            report.totalTrainingHours == TotalStoredHours(RowsFor(rows, employeeId)))
  {
    var gs := RowsFor(rows, employeeId);
    assert PredictAll(db, gs).Success?;
    PredictAllShape(db, gs);
    DeficitsMembers(gs);
    if forall g | g in rows :: Consistent(FieldsOf(g)) {
      StoredHoursOfConsistent(gs);
    }
  }

  /** `get_skill_predictions`: look up the employee and predict each of its
      deficit rows in stored order. */
  method SkillPredictions(db: Database, rows: seq<GapRecord>, employeeId: int)
    returns (out: Result<PredictionReport, LookupError>)
    ensures out == PredictionsSpec(db, rows, employeeId)
  {
    var employee := FindEmployee(db.employees, employeeId);
    if employee.None? {
      return Failure(EmployeeNotFound(employeeId));
    }
    var gs := RowsFor(rows, employeeId);
    var predictions: seq<Prediction> := [];
    var total: nat := 0;
    var i := 0;
    while i < |gs|
      invariant 0 <= i <= |gs|
      invariant PredictAll(db, gs[..i]) == Success(predictions)
      invariant total == TotalPredictedHours(predictions)
    {
      var p := Predict(db, gs[i]);
      PredictAllSnoc(db, gs, i);
      if p.Failure? {
        PredictAllFailurePersists(db, gs, i + 1);
        return Failure(p.error);
      }
      if p.value.Some? {
        assert (predictions + [p.value.value])[..|predictions|] == predictions;
        predictions := predictions + [p.value.value];
        total := total + p.value.value.trainingHours;
      }
      i := i + 1;
    }
    assert gs[..i] == gs;
    out := Success(PredictionReport(employeeId, FullName(employee.value), predictions, total));
  }
}
