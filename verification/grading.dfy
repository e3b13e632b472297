/**
  The professor-grading consistency check: given (name, grade, status)
  records, decide whether a single cut-off grade separates the failed
  students from the passed ones and, if so, report the cut-off range.

  A record's status is kept as the raw string the program carries; only the
  exact strings "Passed" and "Failed" take part in the check, and every
  other status is dropped by the filter, as string comparison does.
 */
module ProfessorGrading {
  import opened Scores

  datatype Option<T> = None | Some(value: T)

  /** One student's record: a name, an integer grade and a status string. */
  datatype GradeRecord = GradeRecord(name: string, grade: int, status: string)

  /** The two statuses the check recognises. */
  datatype Outcome = Passed | Failed

  /** An inclusive range of cut-off grades, `lower - upper`. */
  datatype Range = Range(lower: int, upper: int)

  /** The check's answer: the consistency flag and, maybe, a cut-off range. */
  datatype Verdict = Verdict(consistent: bool, range: Option<Range>)

  /** Top of the grade scale, used as the upper end when nobody passed. */
  const TopGrade: int := 100

  /** The status string that marks a record with outcome `o`. */
  function Label(o: Outcome): string
  {
    match o
    case Passed => "Passed"
    case Failed => "Failed"
  }

  /**
    The grades of the records whose status is exactly `Label(o)`, in order.
    Which grades it keeps is stated by `GradesWithOutcomeMembers`.
   */
  function GradesWithOutcome(records: seq<GradeRecord>, o: Outcome): (grades: seq<int>)
    ensures |grades| <= |records|
  {
    if |records| == 0 then []
    else
      var rest := GradesWithOutcome(records[1..], o);
      if records[0].status == Label(o) then [records[0].grade] + rest else rest
  }

  function PassedGrades(records: seq<GradeRecord>): seq<int>
  {
    GradesWithOutcome(records, Passed)
  }

  function FailedGrades(records: seq<GradeRecord>): seq<int>
  {
    GradesWithOutcome(records, Failed)
  }

  /**
    The check itself. With both groups present the flag is false exactly when
    the best failed grade reaches the worst passed grade; otherwise the range
    runs from one above the best failed grade to the worst passed grade. With
    one group only, the range is (0, worst passed) or (best failed, 100); with
    neither, the check is vacuously consistent and has no range.
   */
  function CheckProfessorGrading(records: seq<GradeRecord>): (v: Verdict)
    ensures !v.consistent ==> v.range == None
    ensures v.range.Some? ==> v.range.value.upper == TopGrade || v.range.value.upper in PassedGrades(records)
  {
    var passed := PassedGrades(records);
    var failed := FailedGrades(records);
    if |passed| > 0 && |failed| > 0 then
      var maxFailed := Max(failed);
      var minPassed := Min(passed);
      if maxFailed >= minPassed then Verdict(false, None)
      else Verdict(true, Some(Range(maxFailed + 1, minPassed)))
    else if |passed| > 0 then
      Verdict(true, Some(Range(0, Min(passed))))
    else if |failed| > 0 then
      Verdict(true, Some(Range(Max(failed), TopGrade)))
    else
      Verdict(true, None)
  }

  // ---------------------------------------------------------------------
  // Reference definitions, stated directly over the records.
  // ---------------------------------------------------------------------

  /** Some record carries outcome `o`. */
  ghost predicate HasOutcome(records: seq<GradeRecord>, o: Outcome)
  {
    exists i :: 0 <= i < |records| && records[i].status == Label(o)
  }

  /** `g` is the grade of some record with outcome `o`. */
  ghost predicate IsGradeWithOutcome(records: seq<GradeRecord>, o: Outcome, g: int)
  {
    exists i :: 0 <= i < |records| && records[i].status == Label(o) && records[i].grade == g
  }

  /** `g` is the lowest grade among the records with outcome `o`. */
  ghost predicate IsLeastGrade(records: seq<GradeRecord>, o: Outcome, g: int)
  {
    && IsGradeWithOutcome(records, o, g)
    && forall i :: 0 <= i < |records| && records[i].status == Label(o) ==> g <= records[i].grade
  }

  /** `g` is the highest grade among the records with outcome `o`. */
  ghost predicate IsGreatestGrade(records: seq<GradeRecord>, o: Outcome, g: int)
  {
    && IsGradeWithOutcome(records, o, g)
    && forall i :: 0 <= i < |records| && records[i].status == Label(o) ==> records[i].grade <= g
  }

  /** Some failed student has a grade at or above some passed student's grade. */
  ghost predicate Overlap(records: seq<GradeRecord>)
  {
    exists i, j ::
      && 0 <= i < |records| && 0 <= j < |records|
      && records[i].status == Label(Failed)
      && records[j].status == Label(Passed)
      && records[j].grade <= records[i].grade
  }

  /** Every grade lies on the 0..100 scale the generator draws from. */
  ghost predicate GradesInScale(records: seq<GradeRecord>)
  {
    forall i :: 0 <= i < |records| ==> 0 <= records[i].grade <= TopGrade
  }

  // ---------------------------------------------------------------------
  // The filter against the reference definitions.
  // ---------------------------------------------------------------------

  /** A grade is kept by the filter exactly when some record with that outcome has it. */
  lemma {:induction false} GradesWithOutcomeMembers(records: seq<GradeRecord>, o: Outcome, g: int)
    ensures g in GradesWithOutcome(records, o) <==> IsGradeWithOutcome(records, o, g)
  {
    if |records| > 0 {
      var tail := records[1..];
      GradesWithOutcomeMembers(tail, o, g);
      if IsGradeWithOutcome(records, o, g) {
        var i :| 0 <= i < |records| && records[i].status == Label(o) && records[i].grade == g;
        if i > 0 {
          assert tail[i - 1] == records[i];
        }
      }
      if IsGradeWithOutcome(tail, o, g) {
        var i :| 0 <= i < |tail| && tail[i].status == Label(o) && tail[i].grade == g;
        assert records[i + 1] == tail[i];
      }
    }
  }

  /** The filtered list is non-empty exactly when the outcome occurs at all. */
  lemma GradesWithOutcomeNonEmpty(records: seq<GradeRecord>, o: Outcome)
    ensures |GradesWithOutcome(records, o)| > 0 <==> HasOutcome(records, o)
  {
    var grades := GradesWithOutcome(records, o);
    if |grades| > 0 {
      GradesWithOutcomeMembers(records, o, grades[0]);
    }
    if HasOutcome(records, o) {
      var i :| 0 <= i < |records| && records[i].status == Label(o);
      GradesWithOutcomeMembers(records, o, records[i].grade);
    }
  }

  /** Every record with outcome `o` contributes its grade to the filtered list. */
  lemma GradesWithOutcomeCoversRecords(records: seq<GradeRecord>, o: Outcome)
    ensures forall i :: 0 <= i < |records| && records[i].status == Label(o) ==>
              records[i].grade in GradesWithOutcome(records, o)
  {
    forall i | 0 <= i < |records| && records[i].status == Label(o)
      ensures records[i].grade in GradesWithOutcome(records, o)
    {
      GradesWithOutcomeMembers(records, o, records[i].grade);
    }
  }

  /** `max` of the filtered list is the highest grade with that outcome. */
  lemma MaxIsGreatestGrade(records: seq<GradeRecord>, o: Outcome)
    requires HasOutcome(records, o)
    ensures |GradesWithOutcome(records, o)| > 0
    ensures IsGreatestGrade(records, o, Max(GradesWithOutcome(records, o)))
  {
    GradesWithOutcomeNonEmpty(records, o);
    var grades := GradesWithOutcome(records, o);
    GradesWithOutcomeMembers(records, o, Max(grades));
    GradesWithOutcomeCoversRecords(records, o);
  }

  /** `min` of the filtered list is the lowest grade with that outcome. */
  lemma MinIsLeastGrade(records: seq<GradeRecord>, o: Outcome)
    requires HasOutcome(records, o)
    ensures |GradesWithOutcome(records, o)| > 0
    ensures IsLeastGrade(records, o, Min(GradesWithOutcome(records, o)))
  {
    GradesWithOutcomeNonEmpty(records, o);
    var grades := GradesWithOutcome(records, o);
    GradesWithOutcomeMembers(records, o, Min(grades));
    GradesWithOutcomeCoversRecords(records, o);
  }

  // ---------------------------------------------------------------------
  // The four branches of the check.
  // ---------------------------------------------------------------------

  /** Both groups present and a failed grade reaches a passed grade (ties included): inconsistent. */
  lemma OverlapIsInconsistent(records: seq<GradeRecord>)
    requires Overlap(records)
    ensures CheckProfessorGrading(records) == Verdict(false, None)
  {
    var i, j :| && 0 <= i < |records| && 0 <= j < |records|
                && records[i].status == Label(Failed)
                && records[j].status == Label(Passed)
                && records[j].grade <= records[i].grade;
    MaxIsGreatestGrade(records, Failed);
    MinIsLeastGrade(records, Passed);
  }

  /**
    Both groups present and strictly separated: consistent, with the range
    running from one above the best failed grade to the worst passed grade,
    so every failed grade is below the range and every passed grade at or
    above its upper end.
   */
  lemma SeparatedGroupsAreConsistent(records: seq<GradeRecord>)
    requires HasOutcome(records, Passed) && HasOutcome(records, Failed)
    requires !Overlap(records)
    ensures var v := CheckProfessorGrading(records);
      && v.consistent && v.range.Some?
      && IsGreatestGrade(records, Failed, v.range.value.lower - 1)
      && IsLeastGrade(records, Passed, v.range.value.upper)
      && v.range.value.lower <= v.range.value.upper
      && (forall i :: 0 <= i < |records| && records[i].status == Label(Failed) ==>
            records[i].grade < v.range.value.lower)
      && (forall i :: 0 <= i < |records| && records[i].status == Label(Passed) ==>
            v.range.value.upper <= records[i].grade)
  {
    MaxIsGreatestGrade(records, Failed);
    MinIsLeastGrade(records, Passed);
    var maxFailed := Max(FailedGrades(records));
    var minPassed := Min(PassedGrades(records));
    var i :| 0 <= i < |records| && records[i].status == Label(Failed) && records[i].grade == maxFailed;
    var j :| 0 <= j < |records| && records[j].status == Label(Passed) && records[j].grade == minPassed;
    assert maxFailed < minPassed;
  }

  /** Only passed records: consistent, with range (0, lowest passed grade). */
  lemma OnlyPassedRange(records: seq<GradeRecord>)
    requires HasOutcome(records, Passed) && !HasOutcome(records, Failed)
    ensures var v := CheckProfessorGrading(records);
      && v.consistent && v.range.Some?
      && v.range.value.lower == 0
      && IsLeastGrade(records, Passed, v.range.value.upper)
  {
    MinIsLeastGrade(records, Passed);
    GradesWithOutcomeNonEmpty(records, Failed);
  }

  /** Only failed records: consistent, with range (highest failed grade, 100). */
  lemma OnlyFailedRange(records: seq<GradeRecord>)
    requires !HasOutcome(records, Passed) && HasOutcome(records, Failed)
    ensures var v := CheckProfessorGrading(records);
      && v.consistent && v.range.Some?
      && IsGreatestGrade(records, Failed, v.range.value.lower)
      && v.range.value.upper == TopGrade
  {
    MaxIsGreatestGrade(records, Failed);
    GradesWithOutcomeNonEmpty(records, Passed);
  }

  /** No record is "Passed" or "Failed" (the empty list included): consistent, no range. */
  lemma NeitherGroupHasNoRange(records: seq<GradeRecord>)
    requires !HasOutcome(records, Passed) && !HasOutcome(records, Failed)
    ensures CheckProfessorGrading(records) == Verdict(true, None)
  {
    GradesWithOutcomeNonEmpty(records, Passed);
    GradesWithOutcomeNonEmpty(records, Failed);
  }

  /**
    The flag is false exactly when some failed grade is at or above some
    passed grade; a false flag never carries a range, and a true flag lacks
    one exactly when no record is "Passed" or "Failed".
   */
  lemma ConsistencyCharacterisation(records: seq<GradeRecord>)
    ensures var v := CheckProfessorGrading(records);
      && (!v.consistent <==> Overlap(records))
      && (!v.consistent ==> v.range == None)
      && (v.consistent && v.range == None <==>
            !HasOutcome(records, Passed) && !HasOutcome(records, Failed))
  {
    var p, f := HasOutcome(records, Passed), HasOutcome(records, Failed);
    if Overlap(records) {
      OverlapIsInconsistent(records);
      var i, j :| && 0 <= i < |records| && 0 <= j < |records|
                  && records[i].status == Label(Failed)
                  && records[j].status == Label(Passed)
                  && records[j].grade <= records[i].grade;
      assert p && f;
    } else if p && f {
      SeparatedGroupsAreConsistent(records);
    } else if p {
      OnlyPassedRange(records);
    } else if f {
      OnlyFailedRange(records);
    } else {
      NeitherGroupHasNoRange(records);
    }
  }

  /** On the 0..100 scale every reported range satisfies 0 <= lower <= upper <= 100. */
  lemma RangeWithinScale(records: seq<GradeRecord>)
    requires GradesInScale(records)
    ensures var v := CheckProfessorGrading(records);
      v.range.Some? ==> 0 <= v.range.value.lower <= v.range.value.upper <= TopGrade
  {
    var p, f := HasOutcome(records, Passed), HasOutcome(records, Failed);
    if p && f && Overlap(records) {
      OverlapIsInconsistent(records);
    } else if p && f {
      SeparatedGroupsAreConsistent(records);
      var v := CheckProfessorGrading(records);
      var j :| 0 <= j < |records| && records[j].status == Label(Passed) && records[j].grade == v.range.value.upper;
      var i :| 0 <= i < |records| && records[i].status == Label(Failed) && records[i].grade == v.range.value.lower - 1;
    } else if p {
      OnlyPassedRange(records);
      var v := CheckProfessorGrading(records);
      var j :| 0 <= j < |records| && records[j].status == Label(Passed) && records[j].grade == v.range.value.upper;
    } else if f {
      OnlyFailedRange(records);
      var v := CheckProfessorGrading(records);
      var i :| 0 <= i < |records| && records[i].status == Label(Failed) && records[i].grade == v.range.value.lower;
    } else {
      NeitherGroupHasNoRange(records);
    }
  }
}
