/**
 The gradebook store: four tables held as sequences of immutable rows.

 Classes, Students and Assignments have an `INTEGER PRIMARY KEY` id that the
 store allocates; Classes.class_name is `UNIQUE`. Grades has no uniqueness
 constraint on (student_id, assignment_id), so the same pair may occur any
 number of times. Foreign keys are declared but SQLite does not enforce them
 unless asked to, and the program never asks, so no row is required to
 reference an existing parent.
 */
module Schema {

  datatype Option<T> = None | Some(value: T)

  /** A SQLite rowid. */
  type Id = int

  datatype ClassRow = ClassRow(id: Id, name: string)

  datatype StudentRow = StudentRow(id: Id, name: string, classId: Id)

  /** `kind` is the free-text `type` column ("Homework", "Test", anything else). */
  datatype AssignmentRow = AssignmentRow(id: Id, name: string, kind: string, classId: Id)

  /** Grades.id is allocated by the store but never read by any operation, so it is not kept. */
  datatype GradeRow = GradeRow(studentId: Id, assignmentId: Id, grade: int)

  datatype Gradebook = Gradebook(
    classes: seq<ClassRow>,
    students: seq<StudentRow>,
    assignments: seq<AssignmentRow>,
    grades: seq<GradeRow>)

  /** The store right after the tables have been created in a fresh file. */
  const Empty := Gradebook([], [], [], [])

  function ClassIds(cs: seq<ClassRow>): seq<Id>
  {
    seq(|cs|, i requires 0 <= i < |cs| => cs[i].id)
  }

  function StudentIds(ss: seq<StudentRow>): seq<Id>
  {
    seq(|ss|, i requires 0 <= i < |ss| => ss[i].id)
  }

  function AssignmentIds(as_: seq<AssignmentRow>): seq<Id>
  {
    seq(|as_|, i requires 0 <= i < |as_| => as_[i].id)
  }

  function ClassNames(cs: seq<ClassRow>): seq<string>
  {
    seq(|cs|, i requires 0 <= i < |cs| => cs[i].name)
  }

  predicate Distinct<T(==)>(xs: seq<T>)
  {
    forall i, j :: 0 <= i < j < |xs| ==> xs[i] != xs[j]
  }

  /** The constraints the schema makes the store enforce: unique primary keys and unique class names. */
  predicate Valid(db: Gradebook)
  {
    && Distinct(ClassIds(db.classes))
    && Distinct(ClassNames(db.classes))
    && Distinct(StudentIds(db.students))
    && Distinct(AssignmentIds(db.assignments))
  }

  /** The largest id of a non-empty table. */
  function MaxId(ids: seq<Id>): (m: Id)
    requires |ids| > 0
    ensures forall i :: 0 <= i < |ids| ==> ids[i] <= m
    ensures m in ids
  {
    if |ids| == 1 then ids[0]
    else
      var rest := MaxId(ids[1..]);
      if ids[0] >= rest then ids[0] else rest
  }

  /**
   The rowid SQLite gives a row inserted without one: one more than the
   largest rowid in the table, or 1 when the table is empty.
   */
  function NextRowId(ids: seq<Id>): (r: Id)
    ensures forall i :: 0 <= i < |ids| ==> ids[i] < r
    ensures r !in ids
    ensures |ids| == 0 ==> r == 1
    ensures |ids| > 0 ==> r - 1 in ids
  {
    if |ids| == 0 then 1 else MaxId(ids) + 1
  }
}
