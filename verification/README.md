# Gradebook store, modelled in Dafny

A model of the persistence core of a command-line student gradebook
(`final.py`). The program keeps four SQLite tables — Classes, Students,
Assignments and Grades — and runs one parameterised SQL statement per
operation. It also turns a student's average into a letter grade. Here each table is a
`seq` of immutable rows and each statement is a pure function over them:

- `schema.dfy` (`Schema`): the row types, the store, the constraints the schema
  makes SQLite enforce (`Valid`: unique primary keys, unique class names), and
  SQLite's rowid allocation rule for inserts that give no id.
- `letters.dfy` (`Letters`): `percentage_to_letter_grade`.
- `store.dfy` (`Store`): `add_class`, `add_student`, `add_assignment`,
  `record_grade`, `calculate_class_grade`, `delete_grade`, `edit_grade` and
  `display_student_info`.
- `laws.dfy` (`GradeLaws`): lemmas relating the statements to each other. They cover
  delete after insert or update, averages after insert or update, and the
  joined listing as an inner join.
- `report.dfy` (`Report`): menu choice 5, the average and its letter.
- `scenarios.dfy` (`Scenarios`): two complete sessions from a fresh store.

The Grades table has no uniqueness constraint on (student_id, assignment_id).
`delete_grade` and `edit_grade` therefore act on every row of the pair, and
`record_grade` adds a row even when the pair already has one. The model keeps
this multi-row behaviour and states it for any number of duplicates.
Foreign keys are declared but SQLite leaves them unenforced unless asked, and
the program never asks. So students, assignments and grades may name ids that
do not exist. Such grade rows are silently dropped by the join that lists grades.

Two behaviours of `final.py` that a reader of the menu might not expect:
- An invalid menu choice prints a message and shows the menu again
  (final.py:166-167). A `ValueError` from parsing a number or an
  `sqlite3.Error` from a statement ends the session instead: the `try` in
  `main` (final.py:103-176) wraps the whole loop. The `TypeError` raised by
  choice 5 for a student with no grades is not caught at all.
- Recording a grade does not always leave its line in the listing exactly
  once. Nothing is added if either id is dangling. Otherwise the listing holds
  the line once more than before, and it may already have held it: for an
  earlier identical row, or for a row whose student and assignment have the
  same names (`RecordThenDisplay`, `RecordThenListed`).

## Model

| member | source | states |
|---|---|---|
| Letters.LetterGrade | final.py:64-74 | The letter is one of A, B, C, D, F. A covers 90 and above; B, C and D cover [80,90), [70,80) and [60,70); F covers everything below 60. Each boundary value goes to the higher band. |
| Letters.LetterMonotone | final.py:64-74 | A higher percentage never earns a worse letter. |
| Schema.NextRowId | final.py:12-27 | An id the store allocates for an `INTEGER PRIMARY KEY` row is larger than every id in the table, hence fresh. It is 1 for an empty table, otherwise one more than the largest id present. |
| Store.AddClass | final.py:38-40 | A name already in Classes fails with the UNIQUE constraint error (declared at final.py:14) and leaves the whole store unchanged. Any other name gets one new row at the end, with that name and a fresh id. Earlier rows and the other tables stay as they were, and the uniqueness invariant is kept. |
| Store.AddStudent | final.py:43-45 | Appends one student with the given name and class id, whatever the class id, under a fresh id. Nothing else changes; the invariant is kept. |
| Store.AddAssignment | final.py:48-50 | Appends one assignment with the given name, free-text type and class id, whatever the class id, under a fresh id. Nothing else changes; the invariant is kept. |
| Store.RecordGrade | final.py:53-55 | Appends exactly one row (student, assignment, grade) after the unchanged existing rows, with no check on duplicates, ids or range. |
| Store.DeleteGrade | final.py:87-89 | No row of the pair remains. Exactly as many rows disappear as the pair had. |
| Store.EditGrade | final.py:93-95 | Row count and every row's keys are unchanged. Every row of the pair now has the new grade. Every other row is untouched. |
| Store.StudentGrades | final.py:59 | The grades the WHERE clause selects are empty exactly when no row has that student id. |
| Store.ClassGrade | final.py:58-61 | The average is NULL exactly when no row has that student id. |
| Store.CountMatching | final.py:87-95 | The rows the WHERE clause of the delete and update selects number at most the table's length, and none exactly when no row has both ids. |
| Store.JoinRowCount | final.py:78-81 | A grade row yields one listing line when both its student id and its assignment id exist, none otherwise. |
| Store.JoinRow | final.py:78-81 | A grade row yields at most one listing line, and that line carries the row's grade. |
| Store.JoinGrades | final.py:78-81 | The three-way join over any tables yields at most one line per grade row. Its count is stated by `Store.JoinGradesCount`, its row-by-row shape by `GradeLaws.JoinGradesConcat` and its contents by `GradeLaws.JoinGradesIsJoin`. |
| Store.JoinGradesCount | final.py:78-81 | The join yields exactly one line per grade row whose two ids both exist. |
| Store.DisplayStudentInfo | final.py:77-84 | `Store.JoinGrades` applied to the store's tables: one listed line per grade row whose student and assignment both exist. What each line holds, as an inner join, is stated by `GradeLaws.DisplayIsInnerJoin`. |
| Store.FindStudent | final.py:78-80 | Finds a student row carrying the requested primary key, and finds none exactly when no row has that id. |
| Store.FindAssignment | final.py:78-81 | Finds an assignment row carrying the requested primary key, and finds none exactly when no row has that id. |
| GradeLaws.CountMatchingConcat | final.py:87-89 | The number of rows a pair selects adds up over consecutive parts of the table. |
| GradeLaws.DeleteConcat | final.py:87-89 | Delete works on each part of the table independently, so surviving rows keep their original relative order. |
| GradeLaws.DeleteKeepsOthers | final.py:87-89 | Every row of another pair survives the delete as many times as it occurred. |
| GradeLaws.DeleteIsFilter | final.py:87-89 | For any table, with the pair's rows interleaved with others in any way: after the delete no row of the pair occurs, and every other row occurs exactly as often as before. |
| GradeLaws.DeleteKeepsUnselected | final.py:87-89 | A table with no row of the pair is left exactly as it is. |
| GradeLaws.DeleteAllDuplicates | final.py:87-89 | Take a table with any number N ≥ 0 of the pair's rows between rows of other pairs. Deleting the pair leaves exactly the other rows, in order. |
| GradeLaws.DeleteIdempotent | final.py:87-89 | Deleting the same pair twice is the same as deleting it once. |
| GradeLaws.RecordAddsOneMatch | final.py:53-55 | Recording a grade gives its pair exactly one more row, whether or not the pair already had rows. |
| GradeLaws.RecordThenDelete | final.py:87-89 | A delete of a pair removes a grade just recorded for it. The result is the same as deleting from the table before the record. |
| GradeLaws.RecordOtherThenDelete | final.py:53-55 | A grade recorded for another pair survives a delete, at the end of the table. |
| GradeLaws.EditThenDelete | final.py:93-95 | An update changes only rows that a delete of the same pair would remove. |
| GradeLaws.EditIdempotent | final.py:93-95 | Repeating an update changes nothing more. |
| GradeLaws.StudentGradesConcat | final.py:59 | The grades a student id selects add up over consecutive parts of the table. |
| GradeLaws.SumConcat | final.py:59 | The sum of grades adds up over consecutive parts. |
| GradeLaws.EditConcat | final.py:94 | Update works on each part of the table independently. |
| GradeLaws.RecordThenStudentGrades | final.py:53-59 | A recorded grade becomes the last of its student's grades. |
| GradeLaws.RecordThenAverage | final.py:58-61 | After a grade g is recorded, the student's average is (sum + g) / (count + 1) of the grades they had before. Before the record the student may have had none. |
| GradeLaws.RecordOtherStudent | final.py:58-61 | The average of one student ignores any grade recorded for another student. |
| GradeLaws.EditThenAverage | final.py:93-95 | After an update of (s, a) to g, student s has as many grades as before. Their total is the total a delete of the pair would leave plus g once for each updated row. |
| GradeLaws.EditKeepsGradeCount | final.py:93-95 | An update changes no student's number of grades. |
| GradeLaws.EditThenClassGrade | final.py:93-95 | After an update of (s, a) to g, the average `calculate_class_grade` computes for s is `UpdatedTotal` (the grades a delete of the pair would keep, plus g once per updated row) divided by s's unchanged number of grades. It stays NULL if s had no grades. |
| GradeLaws.EditOtherStudent | final.py:93-95 | An update of another student's grades leaves this student's grades and average unchanged. |
| GradeLaws.AverageAtLeast | final.py:58-61 | A floor on every grade of a student is a floor on their average. |
| GradeLaws.AverageAtMost | final.py:58-61 | A ceiling on every grade of a student is a ceiling on their average. |
| GradeLaws.AverageBounds | final.py:58-61 | The average lies within any range that contains all of the student's grades. |
| GradeLaws.JoinGradesConcat | final.py:78-81 | The join works on each part of the Grades table independently, so, in Grades-table order, the listing of a longer table extends the listing of its prefix. |
| GradeLaws.JoinRowIsJoin | final.py:78-81 | With unique primary keys, the line for one grade row is exactly the inner join of that row with Students and Assignments. |
| GradeLaws.JoinGradesIsJoin | final.py:78-81 | With unique primary keys, a line is in the join of a Grades table if and only if some grade row of it joins a student and an assignment with its two ids into that line. |
| GradeLaws.DisplayIsInnerJoin | final.py:77-84 | With unique primary keys, a line (student name, assignment name, grade) is listed if and only if some grade row, student and assignment agree on both ids. Grade rows with a dangling id contribute nothing. |
| GradeLaws.RecordThenDisplay | final.py:77-84 | Recording a grade appends that grade's own joined line to the listing, or nothing when either id is dangling. An unknown student id or an unknown assignment id leaves the listing unchanged. |
| GradeLaws.RecordThenListed | final.py:77-84 | Recording a grade for an existing student and assignment lists its line exactly once more than before. |
| GradeLaws.DeleteShrinksListing | final.py:77-89 | After a delete, every listed line was listed before, at most as often. |
| Report.OverallGrade | final.py:143-147 | For a student with at least one grade row, the report is the student's (non-NULL) average with its letter. If all the student's grades are at least 90 the letter is A; if all are below 60 it is F. |
| Scenarios.FirstSession | final.py:38-84 | From a fresh store: class "Algebra I" gets id 1, and "Ada" and "Quiz 1" get id 1 in class 1. A grade of 85 averages to 85, a B, and is listed as the one line. Adding "Algebra I" again fails and changes nothing. |
| Scenarios.InterleavedDelete | final.py:53-89 | Rows recorded for (1, 1), (1, 2), (1, 1) in that order: deleting (1, 1) leaves only the (1, 2) row, and the average becomes that row's grade. |
| Scenarios.DuplicateSession | final.py:53-89 | Grades 80 and 90 for the same pair average 85, and one delete of that pair removes both rows. |

## Left out

- The SQLite connection, cursor, commits and closing (final.py:5-8, 100, 175) are foreign-library I/O. The store is a plain value, each statement maps one store to the next, and a failed statement writes nothing.
- `create_tables` (final.py:11-35) is kept only for the constraints it declares. `Schema.Empty` is the store right after the tables are created in a fresh file. Re-running the `IF NOT EXISTS` statements on an existing file is not modelled.
- The interactive menu (final.py:99-176) is console I/O and is not modelled: prompts, `input`, `int` parsing, and every `print`, including the success messages of `delete_grade` and `edit_grade`. The loop's control flow is not modelled either: an invalid choice returns to the menu, a `ValueError` or `sqlite3.Error` ends the session (final.py:166-176), and choice 5's `TypeError` is uncaught.
- Report.OverallGrade: requires the student to have a grade row, instead of modelling the uncaught `TypeError` the program raises when it compares a NULL average with 90.
- Store.ClassGrade: the average is an exact `real`, not SQLite's floating-point `AVG`. Rounding that moves an average from one side of a letter boundary to the other, in either direction, is not modelled.
- Schema.NextRowId: does not model SQLite's fallback to a random unused rowid once the largest rowid reaches 2^63 - 1.
- Grade values and ids are unbounded integers. SQLite's 64-bit INTEGER range is not modelled, so neither is the driver's refusal of larger Python integers.
- Grades.id is not kept, because no operation reads it.
- The row order of `display_student_info` is not fixed by its SQL, which has no ORDER BY. The model lists lines in Grades-table order. Only `GradeLaws.JoinGradesConcat` and `GradeLaws.RecordThenDisplay` depend on that order; the other listing properties are stated as membership or multiplicity.
- The join is modelled by primary-key lookup. It agrees with the SQL inner join because `INTEGER PRIMARY KEY` ids are unique; `GradeLaws.DisplayIsInnerJoin` states this under `Valid`.
