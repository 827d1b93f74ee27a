/** Two complete sessions against a fresh store, worked through the model. */
module Scenarios {
  import opened Schema
  import opened Store
  import opened Letters

  /**
   Add class "Algebra I", student "Ada" and assignment "Quiz 1" to class 1,
   record 85 for student 1 on assignment 1: the average is 85, a 'B', the
   listing has the one line, and adding "Algebra I" again is refused.
   */
  lemma FirstSession()
    ensures var db1 := AddClass(Empty, "Algebra I");
      var db2 := AddStudent(db1.db, "Ada", 1);
      var db3 := AddAssignment(db2, "Quiz 1", "Homework", 1);
      var db4 := db3.(grades := RecordGrade(db3.grades, 1, 1, 85));
      && db1.failure.None?
      && db1.db.classes == [ClassRow(1, "Algebra I")]
      && db4.students == [StudentRow(1, "Ada", 1)]
      && db4.assignments == [AssignmentRow(1, "Quiz 1", "Homework", 1)]
      && ClassGrade(db4.grades, 1) == Some(85.0)
      && LetterGrade(85.0) == 'B'
      && DisplayStudentInfo(db4) == [Info("Ada", "Quiz 1", 85)]
      && AddClass(db4, "Algebra I") == Outcome(db4, Some(UniqueConstraintFailed("Classes.class_name")))
  {
    var db1 := AddClass(Empty, "Algebra I");
    assert ClassNames(Empty.classes) == [];
    assert db1.db.classes == [ClassRow(1, "Algebra I")];
    var db2 := AddStudent(db1.db, "Ada", 1);
    assert StudentIds(db1.db.students) == [];
    assert db2.students == [StudentRow(1, "Ada", 1)];
    var db3 := AddAssignment(db2, "Quiz 1", "Homework", 1);
    assert AssignmentIds(db2.assignments) == [];
    assert db3.assignments == [AssignmentRow(1, "Quiz 1", "Homework", 1)];
    var db4 := db3.(grades := RecordGrade(db3.grades, 1, 1, 85));
    assert db4.grades == [GradeRow(1, 1, 85)];
    assert StudentGrades(db4.grades, 1) == [85];
    assert ClassNames(db4.classes) == ["Algebra I"];
    assert [85][1..] == [];
    assert Sum([85]) == 85;
    assert ClassGrade(db4.grades, 1) == Some(85.0);
    assert FindStudent(db4.students, 1) == Some(StudentRow(1, "Ada", 1));
    assert FindAssignment(db4.assignments, 1) == Some(AssignmentRow(1, "Quiz 1", "Homework", 1));
    assert DisplayStudentInfo(db4) == [Info("Ada", "Quiz 1", 85)];
    assert AddClass(db4, "Algebra I") == Outcome(db4, Some(UniqueConstraintFailed("Classes.class_name")));
  }

  /**
   Grades 80 and 90 recorded for the same student and assignment average 85;
   one delete of that pair removes both rows.
   */
  lemma DuplicateSession()
    ensures var gs := RecordGrade(RecordGrade([], 1, 1, 80), 1, 1, 90);
      && |gs| == 2
      && ClassGrade(gs, 1) == Some(85.0)
      && DeleteGrade(gs, 1, 1) == []
  {
    var gs := RecordGrade(RecordGrade([], 1, 1, 80), 1, 1, 90);
    assert StudentGrades(gs, 1) == [80, 90];
    assert Sum([80, 90]) == 170;
  }

  /**
   Duplicates interleaved with another pair's row, as a session records them:
   (1, 1), then (1, 2), then (1, 1) again. Deleting (1, 1) leaves only the
   (1, 2) row, and the student's average is then that row's grade.
   */
  lemma InterleavedDelete()
    ensures var gs := RecordGrade(RecordGrade(RecordGrade([], 1, 1, 80), 1, 2, 70), 1, 1, 90);
      && DeleteGrade(gs, 1, 1) == [GradeRow(1, 2, 70)]
      && ClassGrade(DeleteGrade(gs, 1, 1), 1) == Some(70.0)
  {
    var gs := RecordGrade(RecordGrade(RecordGrade([], 1, 1, 80), 1, 2, 70), 1, 1, 90);
    assert gs == [GradeRow(1, 1, 80), GradeRow(1, 2, 70), GradeRow(1, 1, 90)];
    assert DeleteGrade(gs, 1, 1) == [GradeRow(1, 2, 70)];
    assert StudentGrades([GradeRow(1, 2, 70)], 1) == [70];
    assert Sum([70]) == 70;
  }
}
