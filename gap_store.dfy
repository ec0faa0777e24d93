/**
 * The table of skill-gap records, keyed by (employee id, skill id). An
 * analysis run overwrites the record of a pair that already has one and adds
 * a record, with a fresh row id, only for a pair that has none.
 */
module GapStore {
  import opened GapScoring

  type Key = (int, int)

  /** One stored row; `analysisDate` is the clock reading of its last write. */
  datatype GapRecord = GapRecord(
    id: nat,
    employeeId: int,
    skillId: int,
    currentLevel: int,
    requiredLevel: int,
    gapScore: int,
    priority: Priority,
    trainingHours: nat,
    analysisDate: int)

  /** The whole table: its rows by key and the next row id to hand out. */
  datatype StoreState = StoreState(records: map<Key, GapRecord>, nextId: nat)

  /** The analysis fields of a stored row. */
  function FieldsOf(r: GapRecord): Assessment
  {
    Assessment(r.employeeId, r.skillId, r.currentLevel, r.requiredLevel, r.gapScore, r.priority, r.trainingHours)
  }

  /** A row holds exactly the values of an assessment. */
  predicate Holds(r: GapRecord, a: Assessment)
  {
    FieldsOf(r) == a
  }

  /** Every row is filed under its own (employee id, skill id). */
  predicate Keyed(s: StoreState)
  {
    forall k | k in s.records :: s.records[k].employeeId == k.0 && s.records[k].skillId == k.1
  }

  /** Rows agree with their keys, their derived fields are consistent, and
      row ids are distinct and below the next id. */
  ghost predicate WellFormed(s: StoreState)
  {
    && Keyed(s)
    && (forall k | k in s.records :: Consistent(FieldsOf(s.records[k])))
    && (forall k | k in s.records :: s.records[k].id < s.nextId)
    && (forall k1, k2 | k1 in s.records && k2 in s.records && k1 != k2 :: s.records[k1].id != s.records[k2].id)
  }

  /** An existing row overwritten field by field, stamped with `now`. */
  function Overwrite(r: GapRecord, a: Assessment, now: int): GapRecord
  {
    r.(currentLevel := a.currentLevel, requiredLevel := a.requiredLevel, gapScore := a.gapScore,
       priority := a.priority, trainingHours := a.trainingHours, analysisDate := now)
  }

  /** The table after saving one assessment. */
  function WithAssessment(s: StoreState, a: Assessment, now: int): (t: StoreState)
    requires Keyed(s)
    ensures Keyed(t)
    ensures t.records.Keys == s.records.Keys + {a.Key()}
    ensures Holds(t.records[a.Key()], a) && t.records[a.Key()].analysisDate == now
    ensures a.Key() in s.records ==> t.records[a.Key()].id == s.records[a.Key()].id && t.nextId == s.nextId
    ensures a.Key() !in s.records ==> t.records[a.Key()].id == s.nextId && t.nextId == s.nextId + 1
    ensures forall k | k in s.records && k != a.Key() :: t.records[k] == s.records[k]
  {
    var k := a.Key();
    if k in s.records then
      StoreState(s.records[k := Overwrite(s.records[k], a, now)], s.nextId)
    else
      var r := GapRecord(s.nextId, a.employeeId, a.skillId, a.currentLevel, a.requiredLevel,
                         a.gapScore, a.priority, a.trainingHours, now);
      StoreState(s.records[k := r], s.nextId + 1)
  }

  /** The table after saving a batch of assessments in order. */
  function WithAssessments(s: StoreState, batch: seq<Assessment>, now: int): (t: StoreState)
    requires Keyed(s)
    ensures Keyed(t)
  {
    if batch == [] then s
    else WithAssessment(WithAssessments(s, batch[..|batch| - 1], now), batch[|batch| - 1], now)
  }

  function KeysOf(batch: seq<Assessment>): set<Key>
  {
    set i | 0 <= i < |batch| :: batch[i].Key()
  }

  /** The last assessment of the batch for a key. */
  function LastFor(batch: seq<Assessment>, k: Key): (a: Assessment)
    requires k in KeysOf(batch)
    ensures a in batch && a.Key() == k
  {
    var n := |batch| - 1;
    if batch[n].Key() == k then batch[n]
    else
      assert k in KeysOf(batch[..n]) by {
        var i :| 0 <= i < |batch| && batch[i].Key() == k;
        assert batch[..n][i] == batch[i];
      }
      LastFor(batch[..n], k)
  }

  /** Every key's row stamped with `now`, for the keys in `ks`. */
  function Restamp(s: StoreState, ks: set<Key>, now: int): (t: StoreState)
    requires Keyed(s)
    ensures Keyed(t)
  {
    StoreState(map k | k in s.records :: if k in ks then s.records[k].(analysisDate := now) else s.records[k], s.nextId)
  }

  lemma KeysOfSnoc(batch: seq<Assessment>, a: Assessment)
    ensures KeysOf(batch + [a]) == KeysOf(batch) + {a.Key()}
  {
    var b := batch + [a];
    forall k | k in KeysOf(b) ensures k in KeysOf(batch) + {a.Key()} {
      var i :| 0 <= i < |b| && b[i].Key() == k;
      if i < |batch| { assert batch[i] == b[i]; }
    }
    forall k | k in KeysOf(batch) ensures k in KeysOf(b) {
      var i :| 0 <= i < |batch| && batch[i].Key() == k;
      assert b[i] == batch[i];
    }
    assert b[|batch|] == a;
  }

  /** Saving one consistent assessment keeps the table well formed. */
  lemma WithAssessmentWellFormed(s: StoreState, a: Assessment, now: int)
    requires WellFormed(s) && Consistent(a)
    ensures WellFormed(WithAssessment(s, a, now))
  {
    var t := WithAssessment(s, a, now);
    forall k | k in t.records
      ensures Consistent(FieldsOf(t.records[k])) && t.records[k].id < t.nextId
    {
      if k != a.Key() {
        assert t.records[k] == s.records[k];
      }
    }
    forall k1, k2 | k1 in t.records && k2 in t.records && k1 != k2
      ensures t.records[k1].id != t.records[k2].id
    {
      if k1 != a.Key() && k2 != a.Key() {
        assert t.records[k1] == s.records[k1] && t.records[k2] == s.records[k2];
      } else if k1 == a.Key() {
        assert t.records[k2] == s.records[k2];
      } else {
        assert t.records[k1] == s.records[k1];
      }
    }
  }

  /** Saving a batch of consistent assessments keeps the table well formed. */
  lemma {:induction false} WithAssessmentsWellFormed(s: StoreState, batch: seq<Assessment>, now: int)
    requires WellFormed(s)
    requires forall i | 0 <= i < |batch| :: Consistent(batch[i])
    ensures WellFormed(WithAssessments(s, batch, now))
  {
    if batch != [] {
      var n := |batch| - 1;
      WithAssessmentsWellFormed(s, batch[..n], now);
      WithAssessmentWellFormed(WithAssessments(s, batch[..n], now), batch[n], now);
    }
  }

  /** Rows read out of a well-formed table have consistent derived fields, so
      the lemmas about listed rows that ask for consistency apply to them. */
  lemma StoredRowsConsistent(s: StoreState, rows: seq<GapRecord>)
    requires WellFormed(s)
    requires forall i | 0 <= i < |rows| :: rows[i] in s.records.Values
    ensures forall i | 0 <= i < |rows| :: Consistent(FieldsOf(rows[i]))
    ensures forall g | g in rows :: Consistent(FieldsOf(g))
  {
    forall i | 0 <= i < |rows| ensures Consistent(FieldsOf(rows[i])) {
      assert rows[i] in s.records.Values;
      var k :| k in s.records && s.records[k] == rows[i];
    }
  }

  /** After a batch the table has a row for exactly the old keys and the
      batch's keys; each batch key's row holds its last assessment, stamped
      with `now`; every other row is unchanged; existing rows keep their id. */
  lemma WithAssessmentsEffect(s: StoreState, batch: seq<Assessment>, now: int)
    requires Keyed(s)
    ensures var t := WithAssessments(s, batch, now);
      && t.records.Keys == s.records.Keys + KeysOf(batch)
      && t.nextId >= s.nextId
      && (forall k | k in KeysOf(batch) :: Holds(t.records[k], LastFor(batch, k)) && t.records[k].analysisDate == now)
      && (forall k | k in s.records && k !in KeysOf(batch) :: t.records[k] == s.records[k])
      && (forall k | k in s.records :: t.records[k].id == s.records[k].id)
  {
    WithAssessmentsKeys(s, batch, now);
    WithAssessmentsValues(s, batch, now);
  }

  lemma {:induction false} WithAssessmentsKeys(s: StoreState, batch: seq<Assessment>, now: int)
    requires Keyed(s)
    ensures var t := WithAssessments(s, batch, now);
      && t.records.Keys == s.records.Keys + KeysOf(batch)
      && t.nextId >= s.nextId
      && (forall k | k in s.records && k !in KeysOf(batch) :: t.records[k] == s.records[k])
      && (forall k | k in s.records :: t.records[k].id == s.records[k].id)
  {
    if batch != [] {
      var n := |batch| - 1;
      assert batch == batch[..n] + [batch[n]];
      KeysOfSnoc(batch[..n], batch[n]);
      WithAssessmentsKeys(s, batch[..n], now);
    }
  }

  lemma {:induction false} WithAssessmentsValues(s: StoreState, batch: seq<Assessment>, now: int)
    requires Keyed(s)
    ensures var t := WithAssessments(s, batch, now);
      forall k | k in KeysOf(batch) :: k in t.records && Holds(t.records[k], LastFor(batch, k)) && t.records[k].analysisDate == now
  {
    if batch != [] {
      var n := |batch| - 1;
      assert batch == batch[..n] + [batch[n]];
      KeysOfSnoc(batch[..n], batch[n]);
      WithAssessmentsValues(s, batch[..n], now);
    }
  }

  /** With pairwise distinct keys, the row of the i-th key holds the i-th
      assessment. */
  lemma LastForDistinct(batch: seq<Assessment>, i: nat)
    requires i < |batch|
    requires forall p, q | 0 <= p < q < |batch| :: batch[p].Key() != batch[q].Key()
    ensures batch[i].Key() in KeysOf(batch) && LastFor(batch, batch[i].Key()) == batch[i]
  {
    var n := |batch| - 1;
    if i < n {
      assert batch[..n][i] == batch[i];
      LastForDistinct(batch[..n], i);
    }
  }

  /** With pairwise distinct keys, each assessment of the batch ends up in
      the row of its key, stamped with `now`. */
  lemma WithAssessmentsDistinct(s: StoreState, batch: seq<Assessment>, now: int)
    requires Keyed(s)
    requires forall p, q | 0 <= p < q < |batch| :: batch[p].Key() != batch[q].Key()
    ensures var t := WithAssessments(s, batch, now);
      forall i | 0 <= i < |batch| ::
        batch[i].Key() in t.records && Holds(t.records[batch[i].Key()], batch[i]) && t.records[batch[i].Key()].analysisDate == now
  {
    WithAssessmentsEffect(s, batch, now);
    forall i | 0 <= i < |batch|
      ensures batch[i].Key() in KeysOf(batch) && LastFor(batch, batch[i].Key()) == batch[i]
    {
      LastForDistinct(batch, i);
    }
  }

  /** A batch applied under one clock reading ends like the same batch under
      another, but for the stamps of the batch's keys. */
  lemma {:induction false} WithAssessmentsStamp(s: StoreState, batch: seq<Assessment>, t1: int, t2: int)
    requires Keyed(s)
    ensures WithAssessments(s, batch, t2) == Restamp(WithAssessments(s, batch, t1), KeysOf(batch), t2)
  {
    if batch == [] {
      assert Restamp(s, {}, t2).records == s.records;
    } else {
      var n := |batch| - 1;
      var a := batch[n];
      assert batch == batch[..n] + [batch[n]];
      KeysOfSnoc(batch[..n], a);
      WithAssessmentsStamp(s, batch[..n], t1, t2);
      StampStep(WithAssessments(s, batch[..n], t1), KeysOf(batch[..n]), a, t1, t2);
    }
  }

  /** One save commutes with restamping. */
  lemma StampStep(x: StoreState, ks: set<Key>, a: Assessment, t1: int, t2: int)
    requires Keyed(x)
    ensures WithAssessment(Restamp(x, ks, t2), a, t2) == Restamp(WithAssessment(x, a, t1), ks + {a.Key()}, t2)
  {
    var lhs := WithAssessment(Restamp(x, ks, t2), a, t2);
    var rhs := Restamp(WithAssessment(x, a, t1), ks + {a.Key()}, t2);
    assert lhs.records.Keys == x.records.Keys + {a.Key()} == rhs.records.Keys;
    forall j | j in lhs.records ensures lhs.records[j] == rhs.records[j] {
      StampStepAt(x, ks, a, t1, t2, j);
    }
    assert lhs.records == rhs.records;
  }

  lemma StampStepAt(x: StoreState, ks: set<Key>, a: Assessment, t1: int, t2: int, j: Key)
    requires Keyed(x)
    requires j in x.records || j == a.Key()
    ensures WithAssessment(Restamp(x, ks, t2), a, t2).records[j]
         == Restamp(WithAssessment(x, a, t1), ks + {a.Key()}, t2).records[j]
  {
    var mid := Restamp(x, ks, t2);
    var saved := WithAssessment(x, a, t1);
    if j != a.Key() {
      assert WithAssessment(mid, a, t2).records[j] == mid.records[j];
      assert saved.records[j] == x.records[j];
    } else if j in x.records {
      assert mid.records[j].id == x.records[j].id;
      assert WithAssessment(mid, a, t2).records[j] == Overwrite(mid.records[j], a, t2);
      assert saved.records[j] == Overwrite(x.records[j], a, t1);
    } else {
      assert mid.nextId == x.nextId;
    }
  }

  /** Applying a batch whose keys are all present, where each such row already
      holds the key's last assessment, only restamps those rows. */
  lemma {:induction false} WithAssessmentsPresent(s: StoreState, batch: seq<Assessment>, now: int)
    requires Keyed(s)
    requires forall k | k in KeysOf(batch) :: k in s.records && Holds(s.records[k], LastFor(batch, k))
    ensures WithAssessments(s, batch, now) == Restamp(s, KeysOf(batch), now)
  {
    var t := WithAssessments(s, batch, now);
    WithAssessmentsEffect(s, batch, now);
    WithAssessmentsIdsNotNew(s, batch, now);
    forall k | k in KeysOf(batch) ensures t.records[k] == s.records[k].(analysisDate := now) {
      var r := s.records[k];
      var a := LastFor(batch, k);
      assert FieldsOf(t.records[k]) == a == FieldsOf(r);
    }
    assert t.records == Restamp(s, KeysOf(batch), now).records;
  }

  /** A batch whose keys are all present hands out no new row id. */
  lemma {:induction false} WithAssessmentsIdsNotNew(s: StoreState, batch: seq<Assessment>, now: int)
    requires Keyed(s)
    requires KeysOf(batch) <= s.records.Keys
    ensures WithAssessments(s, batch, now).nextId == s.nextId
  {
    if batch != [] {
      var n := |batch| - 1;
      assert batch == batch[..n] + [batch[n]];
      KeysOfSnoc(batch[..n], batch[n]);
      WithAssessmentsIdsNotNew(s, batch[..n], now);
      WithAssessmentsEffect(s, batch[..n], now);
    }
  }

  /** Saving the same batch twice leaves the table as saving it once at the
      second clock reading: no duplicate rows, no new row ids, same values. */
  lemma WithAssessmentsTwice(s: StoreState, batch: seq<Assessment>, t1: int, t2: int)
    requires Keyed(s)
    ensures WithAssessments(WithAssessments(s, batch, t1), batch, t2) == WithAssessments(s, batch, t2)
  {
    var s1 := WithAssessments(s, batch, t1);
    WithAssessmentsEffect(s, batch, t1);
    WithAssessmentsPresent(s1, batch, t2);
    WithAssessmentsStamp(s, batch, t1, t2);
  }

  /**
   * The gap table as the analysis run updates it in place.
   */
  class Store {
    var records: map<Key, GapRecord>
    var nextId: nat

    function State(): StoreState
      reads this
    {
      StoreState(records, nextId)
    }

    ghost predicate Valid()
      reads this
    {
      WellFormed(State())
    }

    /** An empty table; row ids start at 1. */
    constructor ()
      ensures Valid()
      ensures State() == StoreState(map[], 1)
    {
      records := map[];
      nextId := 1;
    }

    /** Overwrite the row of the assessment's key, or add one if it has none. */
    method Upsert(a: Assessment, now: int)
      requires Valid() && Consistent(a)
      modifies this
      ensures Valid()
      ensures State() == WithAssessment(old(State()), a, now)
    {
      var k := a.Key();
      if k in records {
        records := records[k := Overwrite(records[k], a, now)];
      } else {
        records := records[k := GapRecord(nextId, a.employeeId, a.skillId, a.currentLevel, a.requiredLevel,
                                          a.gapScore, a.priority, a.trainingHours, now)];
        nextId := nextId + 1;
      }
      WithAssessmentWellFormed(old(State()), a, now);
    }

    /** Discard the writes made since `saved` was taken. */
    method Rollback(saved: StoreState)
      requires WellFormed(saved)
      modifies this
      ensures Valid()
      ensures State() == saved
    {
      records := saved.records;
      nextId := saved.nextId;
    }
  }
}
