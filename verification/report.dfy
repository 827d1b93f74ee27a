/**
 Menu choice 5, "Calculate Class Grade": the student's average and its letter.

 The average is NULL for a student with no grade rows, and
 `percentage_to_letter_grade` then compares `None` with 90, an uncaught
 `TypeError` (final.py:65, 145-146). The report is therefore defined only for
 a student with at least one grade row.
 */
module Report {
  import opened Schema
  import opened Store
  import opened Letters
  import GradeLaws

  datatype ClassReport = ClassReport(average: real, letter: char)

  /** The report for a student who has at least one grade row. */
  function OverallGrade(gs: seq<GradeRow>, studentId: Id): (r: ClassReport)
    requires exists i :: 0 <= i < |gs| && gs[i].studentId == studentId
    ensures ClassGrade(gs, studentId) == Some(r.average)
    ensures r.letter == LetterGrade(r.average)
    ensures (forall i :: 0 <= i < |gs| && gs[i].studentId == studentId ==> 90 <= gs[i].grade) ==> r.letter == 'A'
    ensures (forall i :: 0 <= i < |gs| && gs[i].studentId == studentId ==> gs[i].grade < 60) ==> r.letter == 'F'
  {
    var avg := ClassGrade(gs, studentId).value;
    GradeLaws.AverageAtLeast(gs, studentId, 90);
    GradeLaws.AverageAtMost(gs, studentId, 59);
    ClassReport(avg, LetterGrade(avg))
  }
}
