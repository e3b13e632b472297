/**
  What the grading check does not look at: student names, records whose
  status is neither "Passed" nor "Failed", and the order of the records.
 */
module GradingInvariance {
  import opened Scores
  import opened ProfessorGrading

  /** The filter distributes over concatenation of record lists. */
  lemma {:induction false} GradesWithOutcomeAppend(a: seq<GradeRecord>, b: seq<GradeRecord>, o: Outcome)
    ensures GradesWithOutcome(a + b, o) == GradesWithOutcome(a, o) + GradesWithOutcome(b, o)
  {
    if |a| > 0 {
      assert (a + b)[1..] == a[1..] + b;
      GradesWithOutcomeAppend(a[1..], b, o);
    } else {
      assert a + b == b;
    }
  }

  /** Record lists that agree on grades and statuses position by position filter alike. */
  lemma {:induction false} GradesIgnoreNames(a: seq<GradeRecord>, b: seq<GradeRecord>, o: Outcome)
    requires |a| == |b|
    requires forall i :: 0 <= i < |a| ==> a[i].grade == b[i].grade && a[i].status == b[i].status
    ensures GradesWithOutcome(a, o) == GradesWithOutcome(b, o)
  {
    if |a| > 0 {
      GradesIgnoreNames(a[1..], b[1..], o);
    }
  }

  /** Lists of the same grades with outcome `o` filter to lists with the same extremes. */
  lemma SameGradesSameExtremes(a: seq<GradeRecord>, b: seq<GradeRecord>, o: Outcome)
    requires forall g :: IsGradeWithOutcome(a, o, g) <==> IsGradeWithOutcome(b, o, g)
    ensures var ga, gb := GradesWithOutcome(a, o), GradesWithOutcome(b, o);
      && (|ga| > 0 <==> |gb| > 0)
      && (|ga| > 0 ==> Max(ga) == Max(gb) && Min(ga) == Min(gb))
  {
    var ga, gb := GradesWithOutcome(a, o), GradesWithOutcome(b, o);
    forall g
      ensures g in ga <==> g in gb
    {
      GradesWithOutcomeMembers(a, o, g);
      GradesWithOutcomeMembers(b, o, g);
    }
    if |ga| > 0 {
      assert ga[0] in gb;
      ExtremesOfSameElements(ga, gb);
    }
    if |gb| > 0 {
      assert gb[0] in ga;
    }
  }

  /** The verdict is fixed by the emptiness and the extremes of the two filtered lists. */
  lemma VerdictFromExtremes(a: seq<GradeRecord>, b: seq<GradeRecord>)
    requires var pa, pb := PassedGrades(a), PassedGrades(b);
      (|pa| > 0 <==> |pb| > 0) && (|pa| > 0 ==> Min(pa) == Min(pb))
    requires var fa, fb := FailedGrades(a), FailedGrades(b);
      (|fa| > 0 <==> |fb| > 0) && (|fa| > 0 ==> Max(fa) == Max(fb))
    ensures CheckProfessorGrading(a) == CheckProfessorGrading(b)
  {
  }

  /**
    The verdict is a function of which grades occur among the passed records
    and which among the failed ones: neither multiplicity nor position nor
    the rest of a record matters.
   */
  lemma VerdictDependsOnlyOnGradeSets(a: seq<GradeRecord>, b: seq<GradeRecord>)
    requires forall o: Outcome, g :: IsGradeWithOutcome(a, o, g) <==> IsGradeWithOutcome(b, o, g)
    ensures CheckProfessorGrading(a) == CheckProfessorGrading(b)
  {
    SameGradesSameExtremes(a, b, Passed);
    SameGradesSameExtremes(a, b, Failed);
    VerdictFromExtremes(a, b);
  }

  /** Renaming students does not change the verdict. */
  lemma NamesIgnored(a: seq<GradeRecord>, b: seq<GradeRecord>)
    requires |a| == |b|
    requires forall i :: 0 <= i < |a| ==> a[i].grade == b[i].grade && a[i].status == b[i].status
    ensures CheckProfessorGrading(a) == CheckProfessorGrading(b)
  {
    GradesIgnoreNames(a, b, Passed);
    GradesIgnoreNames(a, b, Failed);
  }

  /** A record without status `Label(o)` contributes nothing to the grades with outcome `o`. */
  lemma GradesSkipRecord(front: seq<GradeRecord>, r: GradeRecord, back: seq<GradeRecord>, o: Outcome)
    requires r.status != Label(o)
    ensures GradesWithOutcome(front + [r] + back, o) == GradesWithOutcome(front + back, o)
  {
    var single := GradesWithOutcome([r], o);
    assert single == [];
    calc {
      GradesWithOutcome(front + [r] + back, o);
    == { GradesWithOutcomeAppend(front + [r], back, o); }
      GradesWithOutcome(front + [r], o) + GradesWithOutcome(back, o);
    == { GradesWithOutcomeAppend(front, [r], o); }
      GradesWithOutcome(front, o) + single + GradesWithOutcome(back, o);
    == { GradesWithOutcomeAppend(front, back, o); }
      GradesWithOutcome(front + back, o);
    }
  }

  /** Inserting a record whose status is neither "Passed" nor "Failed" anywhere does not change the verdict. */
  lemma UnrecognisedStatusIgnored(a: seq<GradeRecord>, k: nat, r: GradeRecord)
    requires k <= |a|
    requires r.status != Label(Passed) && r.status != Label(Failed)
    ensures CheckProfessorGrading(a[..k] + [r] + a[k..]) == CheckProfessorGrading(a)
  {
    var b := a[..k] + [r] + a[k..];
    assert a[..k] + a[k..] == a;
    GradesSkipRecord(a[..k], r, a[k..], Passed);
    GradesSkipRecord(a[..k], r, a[k..], Failed);
    assert PassedGrades(b) == PassedGrades(a);
    assert FailedGrades(b) == FailedGrades(a);
  }

  /** Reordering the records (any permutation) does not change the verdict. */
  lemma PermutationInvariant(a: seq<GradeRecord>, b: seq<GradeRecord>)
    requires multiset(a) == multiset(b)
    ensures CheckProfessorGrading(a) == CheckProfessorGrading(b)
  {
    forall o: Outcome, g
      ensures IsGradeWithOutcome(a, o, g) <==> IsGradeWithOutcome(b, o, g)
    {
      SameRecordsSameGrades(a, b, o, g);
      SameRecordsSameGrades(b, a, o, g);
    }
    VerdictDependsOnlyOnGradeSets(a, b);
  }

  /** One direction of `PermutationInvariant`: a grade with outcome `o` in `a` is one in any permutation `b`. */
  lemma SameRecordsSameGrades(a: seq<GradeRecord>, b: seq<GradeRecord>, o: Outcome, g: int)
    requires multiset(a) == multiset(b)
    ensures IsGradeWithOutcome(a, o, g) ==> IsGradeWithOutcome(b, o, g)
  {
    if IsGradeWithOutcome(a, o, g) {
      var i :| 0 <= i < |a| && a[i].status == Label(o) && a[i].grade == g;
      assert a[i] in multiset(b);
      var j :| 0 <= j < |b| && b[j] == a[i];
    }
  }
}
