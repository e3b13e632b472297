/**
  What the reported range means. A cut-off `t` explains the records when
  every failed grade is below `t` and every passed grade is at least `t`
  ("passed iff grade >= t"), the reading under which the two-group range
  (best failed + 1, worst passed) and the passed-only range (0, worst
  passed) list exactly the explaining cut-offs.

  The failed-only branch reports (best failed, 100): its lower end would
  pass the best failed student. `CheckProfessorGradingCorrected` raises
  that lower end by one and is exact on the 0..100 scale in every branch.
 */
module Thresholds {
  import opened Scores
  import opened ProfessorGrading

  /** Cut-off `t` reproduces every recognised outcome: failed below `t`, passed at or above it. */
  ghost predicate Separates(records: seq<GradeRecord>, t: int)
  {
    forall i :: 0 <= i < |records| ==>
      && (records[i].status == Label(Failed) ==> records[i].grade < t)
      && (records[i].status == Label(Passed) ==> t <= records[i].grade)
  }

  /** The flag is true exactly when some single cut-off explains all the records. */
  lemma ConsistentIffSomeThresholdSeparates(records: seq<GradeRecord>)
    ensures CheckProfessorGrading(records).consistent <==> exists t :: Separates(records, t)
  {
    ConsistencyCharacterisation(records);
    var p, f := HasOutcome(records, Passed), HasOutcome(records, Failed);
    if exists t :: Separates(records, t) {
      var t :| Separates(records, t);
      assert !Overlap(records);
    } else if !Overlap(records) {
      if p && f {
        SeparatedGroupsAreConsistent(records);
        assert Separates(records, CheckProfessorGrading(records).range.value.lower);
      } else if p {
        OnlyPassedRange(records);
        assert Separates(records, CheckProfessorGrading(records).range.value.upper);
      } else if f {
        OnlyFailedRange(records);
        assert Separates(records, CheckProfessorGrading(records).range.value.lower + 1);
      } else {
        assert Separates(records, 0);
      }
    }
  }

  /** No cut-off on the 0..100 scale outside the reported range explains the records. */
  lemma SeparatingThresholdLiesInRange(records: seq<GradeRecord>, t: int)
    requires 0 <= t <= TopGrade
    requires Separates(records, t)
    requires CheckProfessorGrading(records).range.Some?
    ensures var r := CheckProfessorGrading(records).range.value;
      r.lower <= t <= r.upper
  {
    var p, f := HasOutcome(records, Passed), HasOutcome(records, Failed);
    ConsistencyCharacterisation(records);
    if p && f {
      SeparatedGroupsAreConsistent(records);
    } else if p {
      OnlyPassedRange(records);
    } else if f {
      OnlyFailedRange(records);
    }
  }

  /** When some record passed, every cut-off in the reported range explains the records. */
  lemma RangeThresholdsSeparateWhenSomePassed(records: seq<GradeRecord>, t: int)
    requires HasOutcome(records, Passed)
    requires CheckProfessorGrading(records).range.Some?
    requires var r := CheckProfessorGrading(records).range.value; r.lower <= t <= r.upper
    ensures Separates(records, t)
  {
    ConsistencyCharacterisation(records);
    if HasOutcome(records, Failed) {
      SeparatedGroupsAreConsistent(records);
    } else {
      OnlyPassedRange(records);
    }
  }

  /**
    Failed-only records as written: the reported lower end does not explain
    the records (it would pass the best failed student), while one above it does.
   */
  lemma OnlyFailedLowerBoundMisclassifies(records: seq<GradeRecord>)
    requires !HasOutcome(records, Passed) && HasOutcome(records, Failed)
    ensures var v := CheckProfessorGrading(records);
      && v.range.Some?
      && !Separates(records, v.range.value.lower)
      && Separates(records, v.range.value.lower + 1)
  {
    OnlyFailedRange(records);
    var lower := CheckProfessorGrading(records).range.value.lower;
    var i :| 0 <= i < |records| && records[i].status == Label(Failed) && records[i].grade == lower;
  }

  /** One failed student with grade 40: the range (40, 100) is reported, yet cut-off 40 would pass them. */
  lemma SingleFailedStudentExample()
    ensures var records := [GradeRecord("Student 1", 40, "Failed")];
      && CheckProfessorGrading(records) == Verdict(true, Some(Range(40, 100)))
      && !Separates(records, 40)
  {
    var records := [GradeRecord("Student 1", 40, "Failed")];
    assert FailedGrades(records) == [40];
    assert PassedGrades(records) == [];
  }

  /** The check with the failed-only lower end raised to one above the best failed grade. */
  function CheckProfessorGradingCorrected(records: seq<GradeRecord>): (v: Verdict)
    ensures !v.consistent ==> v.range == None
  {
    var passed := PassedGrades(records);
    var failed := FailedGrades(records);
    if |passed| == 0 && |failed| > 0 then
      Verdict(true, Some(Range(Max(failed) + 1, TopGrade)))
    else
      CheckProfessorGrading(records)
  }

  /** The correction changes nothing but the failed-only lower end, which moves up by one. */
  lemma CorrectionOnlyTouchesFailedOnly(records: seq<GradeRecord>)
    ensures var v, w := CheckProfessorGrading(records), CheckProfessorGradingCorrected(records);
      if !HasOutcome(records, Passed) && HasOutcome(records, Failed) then
        && v.range.Some? && w.range.Some?
        && w == Verdict(true, Some(Range(v.range.value.lower + 1, v.range.value.upper)))
      else w == v
  {
    GradesWithOutcomeNonEmpty(records, Passed);
    GradesWithOutcomeNonEmpty(records, Failed);
  }

  /**
    The corrected range is exact on the 0..100 scale: a cut-off there
    explains the records if and only if it lies in the reported range.
   */
  lemma CorrectedRangeIsExact(records: seq<GradeRecord>, t: int)
    requires 0 <= t <= TopGrade
    requires CheckProfessorGradingCorrected(records).range.Some?
    ensures var r := CheckProfessorGradingCorrected(records).range.value;
      Separates(records, t) <==> r.lower <= t <= r.upper
  {
    CorrectionOnlyTouchesFailedOnly(records);
    ConsistencyCharacterisation(records);
    var p, f := HasOutcome(records, Passed), HasOutcome(records, Failed);
    if p {
      if Separates(records, t) {
        SeparatingThresholdLiesInRange(records, t);
      }
      var r := CheckProfessorGrading(records).range.value;
      if r.lower <= t <= r.upper {
        RangeThresholdsSeparateWhenSomePassed(records, t);
      }
    } else if f {
      OnlyFailedRange(records);
      var r := CheckProfessorGrading(records).range.value;
      var i :| 0 <= i < |records| && records[i].status == Label(Failed) && records[i].grade == r.lower;
    }
  }

  /** The corrected check keeps the as-written flag, so the characterisation carries over. */
  lemma CorrectedConsistentIffSomeThresholdSeparates(records: seq<GradeRecord>)
    ensures CheckProfessorGradingCorrected(records).consistent <==> exists t :: Separates(records, t)
  {
    CorrectionOnlyTouchesFailedOnly(records);
    ConsistentIffSomeThresholdSeparates(records);
  }
}
