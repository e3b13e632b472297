/**
  The random grade generator with its randomness passed in: each draw is
  the grade `randint(0, 100)` produced and the status `choice` picked, and
  the generator only names the students and assembles the records.
 */
module Generator {
  import opened ProfessorGrading

  /** A grade as `randint(0, 100)` returns it. */
  type Score = g: int | 0 <= g <= 100

  /** One student's random draws. */
  datatype Draw = Draw(grade: Score, outcome: Outcome)

  function Digit(d: nat): (c: char)
    requires d < 10
  {
    "0123456789"[d]
  }

  function DigitValue(c: char): int
  {
    c as int - '0' as int
  }

  /** Decimal digits of `n`, most significant first, without leading zeros. */
  function DecimalString(n: nat): (s: string)
    ensures |s| > 0
    ensures forall k :: 0 <= k < |s| ==> '0' <= s[k] <= '9'
    ensures n > 0 ==> s[0] != '0'
  {
    if n < 10 then [Digit(n)] else DecimalString(n / 10) + [Digit(n % 10)]
  }

  /** The number a string of decimal digits denotes. */
  function DecimalValue(s: string): int
  {
    if |s| == 0 then 0 else 10 * DecimalValue(s[..|s| - 1]) + DigitValue(s[|s| - 1])
  }

  /** Reading the digits back gives the number. */
  lemma {:induction false} DecimalRoundTrip(n: nat)
    ensures DecimalValue(DecimalString(n)) == n
  {
    var s := DecimalString(n);
    if n >= 10 {
      DecimalRoundTrip(n / 10);
      assert s[..|s| - 1] == DecimalString(n / 10);
    }
  }

  /**
    Student `k` (counting from 1) is called "Student k": the prefix, then the
    canonical decimal digits of `k`, which read back as `k`.
   */
  function StudentName(k: nat): (name: string)
    ensures |name| > 8 && name[..8] == "Student "
    ensures forall i :: 8 <= i < |name| ==> '0' <= name[i] <= '9'
    ensures k > 0 ==> name[8] != '0'
    ensures DecimalValue(name[8..]) == k
  {
    var digits := DecimalString(k);
    DecimalRoundTrip(k);
    assert ("Student " + digits)[8..] == digits;
    "Student " + digits
  }

  /** Different students get different names. */
  lemma StudentNamesDistinct(m: nat, n: nat)
    requires m != n
    ensures StudentName(m) != StudentName(n)
  {
    var a, b := StudentName(m), StudentName(n);
    assert DecimalValue(a[8..]) != DecimalValue(b[8..]);
  }

  /**
    The records `generate_random_grades` builds from its draws, one per draw,
    in order: each carries its draw's grade and status, every grade is on the
    0..100 scale, every status is "Passed" or "Failed", and no two students
    share a name.
   */
  function GenerateGrades(draws: seq<Draw>): (records: seq<GradeRecord>)
    ensures |records| == |draws|
    ensures forall i :: 0 <= i < |records| ==>
              records[i].grade == draws[i].grade && records[i].status == Label(draws[i].outcome)
    ensures GradesInScale(records)
    ensures forall i :: 0 <= i < |records| ==>
              records[i].status == Label(Passed) || records[i].status == Label(Failed)
    ensures forall i, j :: 0 <= i < j < |records| ==> records[i].name != records[j].name
  {
    var records := seq(|draws|, i requires 0 <= i < |draws| =>
      GradeRecord(StudentName(i + 1), draws[i].grade, Label(draws[i].outcome)));
    assert forall i, j :: 0 <= i < j < |records| ==> records[i].name != records[j].name by {
      forall i, j | 0 <= i < j < |records|
        ensures records[i].name != records[j].name
      {
        StudentNamesDistinct(i + 1, j + 1);
      }
    }
    records
  }

  /**
    Generated records stay on the 0..100 scale and all carry a recognised
    status, so every range reported for them lies within 0..100, and for a
    non-empty batch a consistent verdict always comes with a range.
   */
  lemma GeneratedVerdict(draws: seq<Draw>)
    ensures var v := CheckProfessorGrading(GenerateGrades(draws));
      && (v.range.Some? ==> 0 <= v.range.value.lower <= v.range.value.upper <= 100)
      && (|draws| > 0 && v.consistent ==> v.range.Some?)
  {
    var records := GenerateGrades(draws);
    RangeWithinScale(records);
    ConsistencyCharacterisation(records);
    if |draws| > 0 {
      var o := draws[0].outcome;
      assert records[0].status == Label(o);
      assert HasOutcome(records, o);
    }
  }
}
