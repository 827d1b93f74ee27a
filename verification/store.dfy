/**
 The persistence operations of the gradebook, one pure function per SQL
 statement. Each statement commits on its own, so a successful call yields the
 new store and a failed one leaves the store as it was.
 */
module Store {
  import opened Schema

  /** The store-layer failure the modelled statements can raise. */
  datatype StoreError = UniqueConstraintFailed(column: string)

  /** The store after a statement, and the error it raised, if any. */
  datatype Outcome = Outcome(db: Gradebook, failure: Option<StoreError>)

  // ---------------------------------------------------------------------------
  // Classes, Students, Assignments: inserts with a store-allocated rowid
  // ---------------------------------------------------------------------------

  /**
   `INSERT INTO Classes (class_name) VALUES (?)`. The UNIQUE constraint on
   class_name rejects a name already present, and nothing is written; any other
   name gets a new row with a fresh rowid at the end of the table.
   */
  function AddClass(db: Gradebook, name: string): (r: Outcome)
    ensures r.failure.Some? <==> exists i :: 0 <= i < |db.classes| && db.classes[i].name == name
    ensures r.failure.Some? ==> r.failure.value == UniqueConstraintFailed("Classes.class_name") && r.db == db
    ensures r.failure.None? ==>
      && |r.db.classes| == |db.classes| + 1
      && r.db.classes[..|db.classes|] == db.classes
      && r.db.classes[|db.classes|].name == name
      && (forall i :: 0 <= i < |db.classes| ==> db.classes[i].id != r.db.classes[|db.classes|].id)
      && r.db.students == db.students
      && r.db.assignments == db.assignments
      && r.db.grades == db.grades
    ensures Valid(db) ==> Valid(r.db)
  {
    assert forall i :: 0 <= i < |db.classes| ==> ClassNames(db.classes)[i] == db.classes[i].name;
    assert forall i :: 0 <= i < |db.classes| ==> ClassIds(db.classes)[i] == db.classes[i].id;
    if name in ClassNames(db.classes) then
      Outcome(db, Some(UniqueConstraintFailed("Classes.class_name")))
    else
      var row := ClassRow(NextRowId(ClassIds(db.classes)), name);
      assert ClassIds(db.classes + [row]) == ClassIds(db.classes) + [row.id];
      assert ClassNames(db.classes + [row]) == ClassNames(db.classes) + [name];
      Outcome(db.(classes := db.classes + [row]), None)
  }

  /**
   `INSERT INTO Students (name, class_id) VALUES (?, ?)`. Foreign keys are not
   enforced, so any class id is accepted, including one no class has.
   */
  function AddStudent(db: Gradebook, name: string, classId: Id): (r: Gradebook)
    ensures |r.students| == |db.students| + 1
    ensures r.students[..|db.students|] == db.students
    ensures r.students[|db.students|].name == name && r.students[|db.students|].classId == classId
    ensures forall i :: 0 <= i < |db.students| ==> db.students[i].id != r.students[|db.students|].id
    ensures r.classes == db.classes && r.assignments == db.assignments && r.grades == db.grades
    ensures Valid(db) ==> Valid(r)
  {
    assert forall i :: 0 <= i < |db.students| ==> StudentIds(db.students)[i] == db.students[i].id;
    var row := StudentRow(NextRowId(StudentIds(db.students)), name, classId);
    assert StudentIds(db.students + [row]) == StudentIds(db.students) + [row.id];
    db.(students := db.students + [row])
  }

  /**
   `INSERT INTO Assignments (assignment_name, type, class_id) VALUES (?, ?, ?)`.
   The type is free text and the class id is not checked.
   */
  function AddAssignment(db: Gradebook, name: string, kind: string, classId: Id): (r: Gradebook)
    ensures |r.assignments| == |db.assignments| + 1
    ensures r.assignments[..|db.assignments|] == db.assignments
    ensures var a := r.assignments[|db.assignments|]; a.name == name && a.kind == kind && a.classId == classId
    ensures forall i :: 0 <= i < |db.assignments| ==> db.assignments[i].id != r.assignments[|db.assignments|].id
    ensures r.classes == db.classes && r.students == db.students && r.grades == db.grades
    ensures Valid(db) ==> Valid(r)
  {
    assert forall i :: 0 <= i < |db.assignments| ==> AssignmentIds(db.assignments)[i] == db.assignments[i].id;
    var row := AssignmentRow(NextRowId(AssignmentIds(db.assignments)), name, kind, classId);
    assert AssignmentIds(db.assignments + [row]) == AssignmentIds(db.assignments) + [row.id];
    db.(assignments := db.assignments + [row])
  }

  // ---------------------------------------------------------------------------
  // Grades
  // ---------------------------------------------------------------------------

  /** The WHERE clause of the delete and update statements. */
  predicate Matches(row: GradeRow, studentId: Id, assignmentId: Id)
  {
    row.studentId == studentId && row.assignmentId == assignmentId
  }

  /** How many rows a (student, assignment) pair selects. */
  function CountMatching(gs: seq<GradeRow>, studentId: Id, assignmentId: Id): (n: nat)
    ensures n <= |gs|
    ensures n == 0 <==> forall i :: 0 <= i < |gs| ==> !Matches(gs[i], studentId, assignmentId)
  {
    if |gs| == 0 then 0
    else (if Matches(gs[0], studentId, assignmentId) then 1 else 0) + CountMatching(gs[1..], studentId, assignmentId)
  }

  /**
   `INSERT INTO Grades (student_id, assignment_id, grade) VALUES (?, ?, ?)`.
   No constraint is checked: the pair may already have rows, the ids may be
   dangling and the grade may be any integer.
   */
  function RecordGrade(gs: seq<GradeRow>, studentId: Id, assignmentId: Id, grade: int): (r: seq<GradeRow>)
    ensures |r| == |gs| + 1
    ensures r[..|gs|] == gs
    ensures r[|gs|] == GradeRow(studentId, assignmentId, grade)
  {
    gs + [GradeRow(studentId, assignmentId, grade)]
  }

  /**
   `DELETE FROM Grades WHERE student_id = ? AND assignment_id = ?`: every row of
   the pair goes, however many there are, and nothing else does.
   */
  function DeleteGrade(gs: seq<GradeRow>, studentId: Id, assignmentId: Id): (r: seq<GradeRow>)
    ensures forall i :: 0 <= i < |r| ==> !Matches(r[i], studentId, assignmentId)
    ensures |r| + CountMatching(gs, studentId, assignmentId) == |gs|
  {
    if |gs| == 0 then []
    else
      if Matches(gs[0], studentId, assignmentId) then DeleteGrade(gs[1..], studentId, assignmentId)
      else [gs[0]] + DeleteGrade(gs[1..], studentId, assignmentId)
  }

  /**
   `UPDATE Grades SET grade = ? WHERE student_id = ? AND assignment_id = ?`:
   every row of the pair gets the new grade; keys, row count, order and every
   other row are unchanged.
   */
  function EditGrade(gs: seq<GradeRow>, studentId: Id, assignmentId: Id, grade: int): (r: seq<GradeRow>)
    ensures |r| == |gs|
    ensures forall i :: 0 <= i < |gs| ==>
      r[i].studentId == gs[i].studentId && r[i].assignmentId == gs[i].assignmentId
    ensures forall i :: 0 <= i < |gs| && Matches(gs[i], studentId, assignmentId) ==> r[i].grade == grade
    ensures forall i :: 0 <= i < |gs| && !Matches(gs[i], studentId, assignmentId) ==> r[i] == gs[i]
  {
    if |gs| == 0 then []
    else
      var head := if Matches(gs[0], studentId, assignmentId) then gs[0].(grade := grade) else gs[0];
      [head] + EditGrade(gs[1..], studentId, assignmentId, grade)
  }

  // ---------------------------------------------------------------------------
  // AVG(grade) ... WHERE student_id = ?
  // ---------------------------------------------------------------------------

  /** The grade column of the rows a student id selects, in table order. */
  function StudentGrades(gs: seq<GradeRow>, studentId: Id): (xs: seq<int>)
    ensures |xs| <= |gs|
    ensures |xs| == 0 <==> forall i :: 0 <= i < |gs| ==> gs[i].studentId != studentId
  {
    if |gs| == 0 then []
    else if gs[0].studentId == studentId then [gs[0].grade] + StudentGrades(gs[1..], studentId)
    else StudentGrades(gs[1..], studentId)
  }

  function Sum(xs: seq<int>): int
  {
    if |xs| == 0 then 0 else xs[0] + Sum(xs[1..])
  }

  /**
   `SELECT AVG(grade) FROM Grades WHERE student_id = ?`: NULL when the student
   has no grade rows, otherwise the exact mean of that student's grades.
   */
  function ClassGrade(gs: seq<GradeRow>, studentId: Id): (r: Option<real>)
    ensures r.None? <==> forall i :: 0 <= i < |gs| ==> gs[i].studentId != studentId
  {
    var xs := StudentGrades(gs, studentId);
    if |xs| == 0 then None else Some(Sum(xs) as real / |xs| as real)
  }

  // ---------------------------------------------------------------------------
  // Students JOIN Grades JOIN Assignments
  // ---------------------------------------------------------------------------

  /** One line of the student information listing. */
  datatype Info = Info(studentName: string, assignmentName: string, grade: int)

  /** The student with a given primary key, if any. */
  function FindStudent(ss: seq<StudentRow>, id: Id): (r: Option<StudentRow>)
    ensures r.None? <==> forall j :: 0 <= j < |ss| ==> ss[j].id != id
    ensures r.Some? ==> r.value in ss && r.value.id == id
  {
    if |ss| == 0 then None
    else if ss[0].id == id then Some(ss[0])
    else FindStudent(ss[1..], id)
  }

  /** The assignment with a given primary key, if any. */
  function FindAssignment(as_: seq<AssignmentRow>, id: Id): (r: Option<AssignmentRow>)
    ensures r.None? <==> forall k :: 0 <= k < |as_| ==> as_[k].id != id
    ensures r.Some? ==> r.value in as_ && r.value.id == id
  {
    if |as_| == 0 then None
    else if as_[0].id == id then Some(as_[0])
    else FindAssignment(as_[1..], id)
  }

  /** Some student row carries this primary key. */
  predicate HasStudent(ss: seq<StudentRow>, id: Id)
  {
    exists j :: 0 <= j < |ss| && ss[j].id == id
  }

  /** Some assignment row carries this primary key. */
  predicate HasAssignment(as_: seq<AssignmentRow>, id: Id)
  {
    exists k :: 0 <= k < |as_| && as_[k].id == id
  }

  /** How many grade rows name both an existing student and an existing assignment. */
  function CountJoinable(ss: seq<StudentRow>, as_: seq<AssignmentRow>, gs: seq<GradeRow>): nat
  {
    if |gs| == 0 then 0
    else
      var here := if HasStudent(ss, gs[0].studentId) && HasAssignment(as_, gs[0].assignmentId) then 1 else 0;
      here + CountJoinable(ss, as_, gs[1..])
  }

  /** The listing line of one grade row, or nothing when either id is dangling. */
  function JoinRow(ss: seq<StudentRow>, as_: seq<AssignmentRow>, g: GradeRow): (r: seq<Info>)
    ensures |r| <= 1
    ensures forall t :: t in r ==> t.grade == g.grade
  {
    match (FindStudent(ss, g.studentId), FindAssignment(as_, g.assignmentId))
    case (Some(st), Some(asg)) => [Info(st.name, asg.name, g.grade)]
    case _ => []
  }

  /** A grade row yields a line exactly when both of its ids exist. */
  lemma JoinRowCount(ss: seq<StudentRow>, as_: seq<AssignmentRow>, g: GradeRow)
    ensures |JoinRow(ss, as_, g)| == if HasStudent(ss, g.studentId) && HasAssignment(as_, g.assignmentId) then 1 else 0
  {
  }

  /** The inner join, one grade row at a time in table order. */
  function JoinGrades(ss: seq<StudentRow>, as_: seq<AssignmentRow>, gs: seq<GradeRow>): (r: seq<Info>)
    ensures |r| <= |gs|
  {
    if |gs| == 0 then [] else JoinRow(ss, as_, gs[0]) + JoinGrades(ss, as_, gs[1..])
  }

  /** The join yields exactly one line per grade row whose two ids both exist. */
  lemma {:induction false} JoinGradesCount(ss: seq<StudentRow>, as_: seq<AssignmentRow>, gs: seq<GradeRow>)
    ensures |JoinGrades(ss, as_, gs)| == CountJoinable(ss, as_, gs)
  {
    if |gs| > 0 {
      JoinGradesCount(ss, as_, gs[1..]);
      JoinRowCount(ss, as_, gs[0]);
    }
  }

  /**
   The rows `display_student_info` prints: student name, assignment name and
   grade for each grade row whose student and assignment both exist.
   */
  function DisplayStudentInfo(db: Gradebook): (r: seq<Info>)
    ensures |r| == CountJoinable(db.students, db.assignments, db.grades)
    ensures |r| <= |db.grades|
  {
    JoinGradesCount(db.students, db.assignments, db.grades);
    JoinGrades(db.students, db.assignments, db.grades)
  }
}
