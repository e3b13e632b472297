# Professor grading checker: a Dafny model

This project models the grading-consistency check of the "Professor Grading
Checker" script. The check receives a list of `(name, grade, status)`
records. It keeps the grades whose status is exactly `"Passed"` and those
whose status is exactly `"Failed"`. It then decides whether one cut-off
grade separates the two groups: every failed grade must be strictly below
every passed grade. The check returns a flag and, when it can, the range of
cut-offs, using one branch per case:

- both groups present and overlapping (ties included): `(False, None)`;
- both groups present and separated: `(True, (max failed + 1, min passed))`;
- only passed grades: `(True, (0, min passed))`;
- only failed grades: `(True, (max failed, 100))`;
- no passed and no failed record, including the empty list: `(True, None)`.

Modules:

- `Scores` (scores.dfy): `max`/`min` of a non-empty grade list. Each result
  is characterised as a member of the list that bounds every element.
- `ProfessorGrading` (grading.dfy): the records, the status filter, the
  check itself, reference predicates stated directly over the records
  (`HasOutcome`, `IsLeastGrade`, `IsGreatestGrade`, `Overlap`), and one lemma
  per branch plus the characterisation of the flag.
- `GradingInvariance` (invariance.dfy): the verdict ignores names, records
  with any other status, and the order of the records.
- `Thresholds` (thresholds.dfy): what the reported range means in terms of a
  cut-off `t` with "passed iff grade >= t". It also holds the finding below
  and the corrected check.
- `Generator` (generator.dfy): the random-grade generator, with its random
  draws passed in as a parameter.
- `Scenarios` (scenarios.dfy): concrete inputs and their verdicts.

A record's status is kept as the raw string, as in the program. The
`Outcome` datatype (`Passed | Failed`) only selects a group, and `Label`
gives its exact string. Grades are unbounded integers. The program relies
on integer grades for its `+ 1`, and nothing wraps around.

A status might be expected to be one of two values, and a range to have
`lower <= upper`. The code enforces neither. Any other
status string is silently dropped, and a range can come out inverted when
grades fall outside 0..100 (`Scenarios.NegativePassedGradeInvertsRange`).
The model follows the code. `ProfessorGrading.RangeWithinScale` states the
ordering only for grades on the 0..100 scale.

## Model

| member | source | states |
|---|---|---|
| Scores.Max | script.py:16 | the maximum of a non-empty list is one of its elements and no element exceeds it |
| Scores.Min | script.py:17 | the minimum of a non-empty list is one of its elements and no element is below it |
| Scores.ExtremesOfSameElements | script.py:16-17 | two lists with the same set of values have the same maximum and the same minimum |
| ProfessorGrading.CheckProfessorGrading | script.py:4-28 | an inconsistent verdict never carries a range; a reported upper end is either 100 or one of the passed grades |
| ProfessorGrading.GradesWithOutcome | script.py:12-13 | the list comprehension that keeps, in order, the grades of the records whose status is exactly the selected string; its own contract bounds the result by the input length, which grades it keeps is stated by GradesWithOutcomeMembers and that it preserves order by GradingInvariance.GradesWithOutcomeAppend |
| ProfessorGrading.GradesWithOutcomeMembers | script.py:12-13 | a grade is in the filtered list exactly when some record with that exact status string has it |
| ProfessorGrading.GradesWithOutcomeNonEmpty | script.py:12-15 | a filtered list is non-empty exactly when some record has that status (the truthiness tests on the lists) |
| ProfessorGrading.GradesWithOutcomeCoversRecords | script.py:12-13 | every record with the status contributes its grade to the filtered list |
| ProfessorGrading.MaxIsGreatestGrade | script.py:16 | `max` of the failed list is the highest grade among the failed records |
| ProfessorGrading.MinIsLeastGrade | script.py:17 | `min` of the passed list is the lowest grade among the passed records |
| ProfessorGrading.OverlapIsInconsistent | script.py:15-20 | if some failed grade is at or above some passed grade (ties included), the result is `(false, None)` |
| ProfessorGrading.SeparatedGroupsAreConsistent | script.py:15-22 | with both groups present and separated, the result is consistent with range (highest failed + 1, lowest passed): lower <= upper, every failed grade is below lower, every passed grade is at least upper |
| ProfessorGrading.OnlyPassedRange | script.py:23-24 | with passed records only, the result is consistent with range (0, lowest passed grade) |
| ProfessorGrading.OnlyFailedRange | script.py:25-26 | with failed records only, the result is consistent with range (highest failed grade, 100) |
| ProfessorGrading.NeitherGroupHasNoRange | script.py:27-28 | with no "Passed" and no "Failed" record (the empty list included), the result is `(true, None)` |
| ProfessorGrading.ConsistencyCharacterisation | script.py:12-28 | the flag is false exactly when some failed grade is at or above some passed grade; a false flag has no range; a true flag lacks a range exactly when neither group is present |
| ProfessorGrading.RangeWithinScale | script.py:15-26 | when all grades lie in 0..100, every reported range has 0 <= lower <= upper <= 100 |
| GradingInvariance.GradesWithOutcomeAppend | script.py:12-13 | filtering a concatenation is the concatenation of the filtered parts |
| GradingInvariance.GradesIgnoreNames | script.py:12-13 | lists that agree on grades and statuses filter identically whatever the names |
| GradingInvariance.SameGradesSameExtremes | script.py:12-17 | lists with the same grades per status agree on group emptiness and on max/min |
| GradingInvariance.VerdictFromExtremes | script.py:15-28 | two inputs whose filtered lists agree on emptiness, on the passed minimum and on the failed maximum get the same verdict |
| GradingInvariance.VerdictDependsOnlyOnGradeSets | script.py:12-28 | the verdict depends only on which grades occur among the passed and among the failed records |
| GradingInvariance.NamesIgnored | script.py:12-13 | renaming students does not change the verdict |
| GradingInvariance.GradesSkipRecord | script.py:12-13 | a record without the selected status, wherever it sits, contributes nothing to that filtered list |
| GradingInvariance.UnrecognisedStatusIgnored | script.py:12-13 | inserting a record with any other status anywhere does not change the verdict |
| GradingInvariance.SameRecordsSameGrades | script.py:12-13 | lists with the same records (as multisets) have the same grades per status |
| GradingInvariance.PermutationInvariant | script.py:12-17 | permuting the input list does not change the verdict |
| Thresholds.ConsistentIffSomeThresholdSeparates | script.py:15-28 | the flag is true exactly when some cut-off t puts every failed grade below t and every passed grade at or above t |
| Thresholds.SeparatingThresholdLiesInRange | script.py:19-26 | every cut-off in 0..100 that explains the records lies inside the reported range |
| Thresholds.RangeThresholdsSeparateWhenSomePassed | script.py:19-24 | when some record passed, every cut-off in the reported range explains the records |
| Thresholds.OnlyFailedLowerBoundMisclassifies | script.py:25-26 | with failed records only, the reported lower end does not explain the records, while one above it does |
| Thresholds.SingleFailedStudentExample | script.py:25-26 | one failed student at 40 yields range (40, 100), and cut-off 40 would pass that student |
| Thresholds.CheckProfessorGradingCorrected | script.py:25-26 | the corrected check never pairs an inconsistent flag with a range |
| Thresholds.CorrectionOnlyTouchesFailedOnly | script.py:22-26 | the corrected check agrees with the written one except that the failed-only lower end is one higher |
| Thresholds.CorrectedRangeIsExact | script.py:15-28 | on 0..100, a cut-off explains the records if and only if it lies in the corrected range |
| Thresholds.CorrectedConsistentIffSomeThresholdSeparates | script.py:15-28 | the corrected flag is true exactly when some cut-off explains the records |
| Generator.DecimalString | script.py:41 | the student number is written as a non-empty string of decimal digits without a leading zero |
| Generator.DecimalRoundTrip | script.py:41 | reading the digits of the student number back gives the number |
| Generator.StudentName | script.py:41 | the name of student k is "Student " followed by the canonical decimal digits of k (digits only, no leading zero for k > 0), which read back as k, so different positions get different names |
| Generator.StudentNamesDistinct | script.py:41 | two different student numbers never produce the same name |
| Generator.GenerateGrades | script.py:31-43 | one record per draw, in order, carrying the drawn grade and status; every grade lies in 0..100, every status is exactly "Passed" or "Failed", and no two students share a name |
| Generator.GeneratedVerdict | script.py:35-43 | for generated records, every reported range lies within 0..100, and a non-empty batch with a consistent verdict always has a range |
| Scenarios.TieIsInconsistent | script.py:19-20 | failed 50 with passed 50 gives `(false, None)` |
| Scenarios.MixedConsistentRange | script.py:15-22 | failed 30, 40 with passed 60, 80 gives `(true, (41, 60))` |
| Scenarios.PassedOnlyRange | script.py:23-24 | passed 70, 90 gives `(true, (0, 70))` |
| Scenarios.FailedOnlyRange | script.py:25-26 | failed 40, 60 gives `(true, (60, 100))` |
| Scenarios.MisspelledStatusIgnored | script.py:12-13 | a record with status "passed" belongs to no group and gives `(true, None)` |
| Scenarios.NegativePassedGradeInvertsRange | script.py:23-24 | a single pass at -5 gives the inverted range (0, -5) |

## Findings

| source | as written | input that shows it | evidently intended | confidence | as-written member | corrected member |
|---|---|---|---|---|---|---|
| script.py:25-26 | with failed records only, the range is `(max(failed_scores), 100)` | `[("Student 1", 40, "Failed")]` gives `(True, (40, 100))`, but cut-off 40 would pass that student | `(max(failed_scores) + 1, 100)`, the same lower end as the two-group branch at script.py:22 | medium, not executed | Thresholds.OnlyFailedLowerBoundMisclassifies | Thresholds.CorrectedRangeIsExact |

The two-group branch (script.py:22) and the passed-only branch
(script.py:24) both report, on the 0..100 scale, exactly the cut-offs `t`
with "passed iff grade >= t". The failed-only branch alone includes one cut-off that would
pass the best failed student. The opposite reading, "passed iff grade > t",
would make the failed-only branch right and the other two wrong. So the
branches disagree with each other whichever reading is meant. The
failed-only branch is the odd one out.

`ProfessorGrading.CheckProfessorGrading` keeps the branch as written,
because that is what the program prints. All branch and invariance lemmas
are stated for it. `Thresholds.CheckProfessorGradingCorrected` raises the
failed-only lower end by one. `Thresholds.CorrectedRangeIsExact` proves that
its range is exactly the set of explaining cut-offs in 0..100, in every
branch. If the best failed grade is 100, the corrected range is
`(101, 100)`, which is empty. That is accurate: no cut-off in 0..100 fails a
student who scored 100.

## Left out

- `main` (script.py:46-86): the interactive prompt, the retry on non-numeric or non-positive input, and the console output. These are I/O and presentation.
- The randomness of `generate_random_grades` (script.py:38, 40): `random.randint` and `random.choice` become a parameter (`Generator.Draw`) that carries each drawn grade and status. The random number generator itself is not modelled.
- Non-integer grades: the `+ 1` at script.py:22 presumes integers, and grades are modelled as `int` with no floating-point semantics.
- Python's dynamic typing: records with missing fields or grades that cannot be compared would raise at run time. The model's types rule those inputs out.
- Purity and determinism (calling the check twice gives the same result): they hold by construction, because Dafny functions are deterministic. No separate lemma states them.
- "EPAM Python Module Basic.py": the data-cleaning, plotting, regression and schema-validation walkthrough is library glue and is not part of this model.
- ProfessorGrading.GradesWithOutcome: its own contract states only that the result is no longer than the input. Any quantified clause about its elements made the proofs that use it exceed the resource limit. Its membership and order properties are stated as separate lemmas: GradesWithOutcomeMembers, GradesWithOutcomeCoversRecords and GradingInvariance.GradesWithOutcomeAppend.
