/**
  Concrete inputs and the verdicts the check gives for them, one per branch.
 */
module Scenarios {
  import opened ProfessorGrading

  function Rec(grade: int, status: string): GradeRecord
  {
    GradeRecord("s", grade, status)
  }

  /** A tie between the best failed and the worst passed grade is inconsistent. */
  lemma TieIsInconsistent()
    ensures CheckProfessorGrading([Rec(50, "Failed"), Rec(50, "Passed")]) == Verdict(false, None)
  {
    var records := [Rec(50, "Failed"), Rec(50, "Passed")];
    assert FailedGrades(records) == [50];
    assert PassedGrades(records) == [50];
  }

  /** Failed 30, 40 and passed 60, 80 give the range 41 - 60. */
  lemma MixedConsistentRange()
    ensures CheckProfessorGrading([Rec(30, "Failed"), Rec(40, "Failed"), Rec(60, "Passed"), Rec(80, "Passed")])
            == Verdict(true, Some(Range(41, 60)))
  {
    var records := [Rec(30, "Failed"), Rec(40, "Failed"), Rec(60, "Passed"), Rec(80, "Passed")];
    assert FailedGrades(records) == [30, 40];
    assert PassedGrades(records) == [60, 80];
  }

  /** Passed 70 and 90 only give the range 0 - 70. */
  lemma PassedOnlyRange()
    ensures CheckProfessorGrading([Rec(70, "Passed"), Rec(90, "Passed")]) == Verdict(true, Some(Range(0, 70)))
  {
    var records := [Rec(70, "Passed"), Rec(90, "Passed")];
    assert PassedGrades(records) == [70, 90];
    assert FailedGrades(records) == [];
  }

  /** Failed 40 and 60 only give the range 60 - 100. */
  lemma FailedOnlyRange()
    ensures CheckProfessorGrading([Rec(40, "Failed"), Rec(60, "Failed")]) == Verdict(true, Some(Range(60, 100)))
  {
    var records := [Rec(40, "Failed"), Rec(60, "Failed")];
    assert FailedGrades(records) == [40, 60];
    assert PassedGrades(records) == [];
  }

  /** A status spelled differently ("passed") is not recognised: no group, no range. */
  lemma MisspelledStatusIgnored()
    ensures CheckProfessorGrading([Rec(70, "passed")]) == Verdict(true, None)
  {
    var records := [Rec(70, "passed")];
    assert "passed" != "Passed";
    assert PassedGrades(records) == [];
    assert FailedGrades(records) == [];
  }

  /** Off the 0..100 scale the range can come out inverted: a single pass at -5 gives 0 - -5. */
  lemma NegativePassedGradeInvertsRange()
    ensures CheckProfessorGrading([Rec(-5, "Passed")]) == Verdict(true, Some(Range(0, -5)))
  {
    var records := [Rec(-5, "Passed")];
    assert PassedGrades(records) == [-5];
    assert FailedGrades(records) == [];
  }
}
