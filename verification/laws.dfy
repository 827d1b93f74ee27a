/**
 Properties relating the Grades statements to each other: what a delete, an
 update or an insert does to the rows a key pair selects, to a student's
 average and to the joined listing.
 */
module GradeLaws {
  import opened Schema
  import opened Store

  // ---------------------------------------------------------------------------
  // Every statement works row by row, so it distributes over concatenation
  // ---------------------------------------------------------------------------

  lemma {:induction false} CountMatchingConcat(x: seq<GradeRow>, y: seq<GradeRow>, s: Id, a: Id)
    ensures CountMatching(x + y, s, a) == CountMatching(x, s, a) + CountMatching(y, s, a)
  {
    if |x| > 0 {
      assert (x + y)[1..] == x[1..] + y;
      CountMatchingConcat(x[1..], y, s, a);
    } else {
      assert x + y == y;
    }
  }

  /**
   A delete removes the selected rows and keeps every other row in its original
   relative order: it acts on each part of the table independently.
   */
  lemma {:induction false} DeleteConcat(x: seq<GradeRow>, y: seq<GradeRow>, s: Id, a: Id)
    ensures DeleteGrade(x + y, s, a) == DeleteGrade(x, s, a) + DeleteGrade(y, s, a)
  {
    if |x| > 0 {
      assert (x + y)[0] == x[0];
      assert (x + y)[1..] == x[1..] + y;
      DeleteConcat(x[1..], y, s, a);
    } else {
      assert x + y == y;
    }
  }

  lemma {:induction false} StudentGradesConcat(x: seq<GradeRow>, y: seq<GradeRow>, s: Id)
    ensures StudentGrades(x + y, s) == StudentGrades(x, s) + StudentGrades(y, s)
  {
    if |x| > 0 {
      assert (x + y)[0] == x[0];
      assert (x + y)[1..] == x[1..] + y;
      StudentGradesConcat(x[1..], y, s);
    } else {
      assert x + y == y;
    }
  }

  lemma {:induction false} SumConcat(x: seq<int>, y: seq<int>)
    ensures Sum(x + y) == Sum(x) + Sum(y)
  {
    if |x| > 0 {
      assert (x + y)[0] == x[0];
      assert (x + y)[1..] == x[1..] + y;
      SumConcat(x[1..], y);
    } else {
      assert x + y == y;
    }
  }

  lemma {:induction false} JoinGradesConcat(ss: seq<StudentRow>, as_: seq<AssignmentRow>, x: seq<GradeRow>, y: seq<GradeRow>)
    ensures JoinGrades(ss, as_, x + y) == JoinGrades(ss, as_, x) + JoinGrades(ss, as_, y)
  {
    if |x| > 0 {
      assert (x + y)[0] == x[0];
      assert (x + y)[1..] == x[1..] + y;
      JoinGradesConcat(ss, as_, x[1..], y);
    } else {
      assert x + y == y;
    }
  }

  // ---------------------------------------------------------------------------
  // Insert, delete and update of grade rows
  // ---------------------------------------------------------------------------

  /** Recording a grade adds one row to its key pair, whether or not the pair already had rows. */
  lemma RecordAddsOneMatch(gs: seq<GradeRow>, s: Id, a: Id, g: int)
    ensures CountMatching(RecordGrade(gs, s, a, g), s, a) == CountMatching(gs, s, a) + 1
  {
    CountMatchingConcat(gs, [GradeRow(s, a, g)], s, a);
  }

  /** Deleting a pair undoes every grade recorded for that pair. */
  lemma RecordThenDelete(gs: seq<GradeRow>, s: Id, a: Id, g: int)
    ensures DeleteGrade(RecordGrade(gs, s, a, g), s, a) == DeleteGrade(gs, s, a)
  {
    DeleteConcat(gs, [GradeRow(s, a, g)], s, a);
  }

  /** Recording a grade for another pair survives a delete unchanged, at the end of the table. */
  lemma RecordOtherThenDelete(gs: seq<GradeRow>, s: Id, a: Id, s': Id, a': Id, g: int)
    requires s' != s || a' != a
    ensures DeleteGrade(RecordGrade(gs, s', a', g), s, a) == DeleteGrade(gs, s, a) + [GradeRow(s', a', g)]
  {
    DeleteConcat(gs, [GradeRow(s', a', g)], s, a);
    assert [GradeRow(s', a', g)][1..] == [];
    assert DeleteGrade([GradeRow(s', a', g)], s, a) == [GradeRow(s', a', g)];
  }

  /** Every row of another pair survives a delete, as many times as it occurred. */
  lemma {:induction false} DeleteKeepsOthers(gs: seq<GradeRow>, s: Id, a: Id, row: GradeRow)
    requires !Matches(row, s, a)
    ensures multiset(DeleteGrade(gs, s, a))[row] == multiset(gs)[row]
  {
    if |gs| > 0 {
      DeleteKeepsOthers(gs[1..], s, a, row);
      assert gs == [gs[0]] + gs[1..];
      if !Matches(gs[0], s, a) {
        assert DeleteGrade(gs, s, a) == [gs[0]] + DeleteGrade(gs[1..], s, a);
      }
    }
  }

  /** A second delete of the same pair finds nothing left to remove. */
  lemma {:induction false} DeleteIdempotent(gs: seq<GradeRow>, s: Id, a: Id)
    ensures DeleteGrade(DeleteGrade(gs, s, a), s, a) == DeleteGrade(gs, s, a)
  {
    if |gs| > 0 {
      DeleteIdempotent(gs[1..], s, a);
    }
  }

  /**
   However many rows a pair has, a delete leaves the table with exactly the
   rows of other pairs, in the order they were recorded.
   */
  lemma DeleteAllDuplicates(before: seq<GradeRow>, dups: seq<GradeRow>, after: seq<GradeRow>, s: Id, a: Id)
    requires forall i :: 0 <= i < |dups| ==> Matches(dups[i], s, a)
    requires forall i :: 0 <= i < |before| ==> !Matches(before[i], s, a)
    requires forall i :: 0 <= i < |after| ==> !Matches(after[i], s, a)
    ensures DeleteGrade(before + dups + after, s, a) == before + after
  {
    DeleteConcat(before + dups, after, s, a);
    DeleteConcat(before, dups, s, a);
    CountAllMatching(dups, s, a);
    assert DeleteGrade(dups, s, a) == [];
    DeleteKeepsUnselected(before, s, a);
    DeleteKeepsUnselected(after, s, a);
    assert DeleteGrade(before + dups, s, a) == before;
  }

  /**
   For any table, however the pair's rows are interleaved with others: after a
   delete, a row of the pair occurs nowhere, and every other row occurs exactly
   as often as before. `DeleteConcat` fixes their order.
   */
  lemma DeleteIsFilter(gs: seq<GradeRow>, s: Id, a: Id)
    ensures forall row :: multiset(DeleteGrade(gs, s, a))[row] == if Matches(row, s, a) then 0 else multiset(gs)[row]
  {
    var d := DeleteGrade(gs, s, a);
    forall row
      ensures multiset(d)[row] == if Matches(row, s, a) then 0 else multiset(gs)[row]
    {
      if Matches(row, s, a) {
        assert forall i :: 0 <= i < |d| ==> d[i] != row;
        assert row !in d;
      } else {
        DeleteKeepsOthers(gs, s, a, row);
      }
    }
  }

  /** A table none of whose rows the pair selects is left as it is. */
  lemma {:induction false} DeleteKeepsUnselected(gs: seq<GradeRow>, s: Id, a: Id)
    requires forall i :: 0 <= i < |gs| ==> !Matches(gs[i], s, a)
    ensures DeleteGrade(gs, s, a) == gs
  {
    if |gs| > 0 {
      DeleteKeepsUnselected(gs[1..], s, a);
      assert gs == [gs[0]] + gs[1..];
    }
  }

  /** Every row of a table the pair selects throughout is counted. */
  lemma {:induction false} CountAllMatching(gs: seq<GradeRow>, s: Id, a: Id)
    requires forall i :: 0 <= i < |gs| ==> Matches(gs[i], s, a)
    ensures CountMatching(gs, s, a) == |gs|
  {
    if |gs| > 0 {
      CountAllMatching(gs[1..], s, a);
    }
  }

  /** An update touches only the rows a delete of the same pair would remove. */
  lemma {:induction false} EditThenDelete(gs: seq<GradeRow>, s: Id, a: Id, g: int)
    ensures DeleteGrade(EditGrade(gs, s, a, g), s, a) == DeleteGrade(gs, s, a)
  {
    if |gs| > 0 {
      EditThenDelete(gs[1..], s, a, g);
    }
  }

  /** Repeating an update changes nothing more. */
  lemma EditIdempotent(gs: seq<GradeRow>, s: Id, a: Id, g: int)
    ensures EditGrade(EditGrade(gs, s, a, g), s, a, g) == EditGrade(gs, s, a, g)
  {
  }

  // ---------------------------------------------------------------------------
  // The average a student's rows produce
  // ---------------------------------------------------------------------------

  /** A recorded grade joins its student's grades, at the end. */
  lemma RecordThenStudentGrades(gs: seq<GradeRow>, s: Id, a: Id, g: int)
    ensures StudentGrades(RecordGrade(gs, s, a, g), s) == StudentGrades(gs, s) + [g]
  {
    StudentGradesConcat(gs, [GradeRow(s, a, g)], s);
    assert [GradeRow(s, a, g)][1..] == [];
    assert StudentGrades([GradeRow(s, a, g)], s) == [g];
  }

  /** After a grade is recorded, the student's average counts it once more. */
  lemma RecordThenAverage(gs: seq<GradeRow>, s: Id, a: Id, g: int)
    ensures var xs := StudentGrades(gs, s);
      ClassGrade(RecordGrade(gs, s, a, g), s) == Some((Sum(xs) + g) as real / (|xs| + 1) as real)
  {
    var xs := StudentGrades(gs, s);
    var ys := StudentGrades(RecordGrade(gs, s, a, g), s);
    RecordThenStudentGrades(gs, s, a, g);
    AppendSum(xs, g);
    assert ClassGrade(RecordGrade(gs, s, a, g), s) == Some(Sum(ys) as real / |ys| as real);
    SameQuotient(Sum(ys), |ys|, Sum(xs) + g, |xs| + 1);
  }

  lemma SameQuotient(t: int, n: int, t': int, n': int)
    requires n != 0 && t == t' && n == n'
    ensures t as real / n as real == t' as real / n' as real
  {
  }

  lemma AppendSum(xs: seq<int>, g: int)
    ensures Sum(xs + [g]) == Sum(xs) + g
  {
    SumConcat(xs, [g]);
    assert [g][1..] == [];
  }

  /** The average of one student ignores every row recorded for another student. */
  lemma RecordOtherStudent(gs: seq<GradeRow>, s: Id, s': Id, a: Id, g: int)
    requires s' != s
    ensures ClassGrade(RecordGrade(gs, s', a, g), s) == ClassGrade(gs, s)
  {
    StudentGradesConcat(gs, [GradeRow(s', a, g)], s);
    assert [GradeRow(s', a, g)][1..] == [];
    assert StudentGrades([GradeRow(s', a, g)], s) == [];
    assert StudentGrades(RecordGrade(gs, s', a, g), s) == StudentGrades(gs, s) + [];
    assert StudentGrades(gs, s) + [] == StudentGrades(gs, s);
  }

  /**
   After an update, the student has as many grades as before, and their total
   is the total of the rows a delete would keep plus the new grade once per
   updated row; so the average reflects the update.
   */
  lemma EditThenAverage(gs: seq<GradeRow>, s: Id, a: Id, g: int)
    ensures |StudentGrades(EditGrade(gs, s, a, g), s)| == |StudentGrades(gs, s)|
    ensures Sum(StudentGrades(EditGrade(gs, s, a, g), s))
         == Sum(StudentGrades(DeleteGrade(gs, s, a), s)) + g * CountMatching(gs, s, a)
  {
    EditKeepsGradeCount(gs, s, a, g, s);
    EditTotal(gs, s, a, g);
    TimesIsProduct(g, CountMatching(gs, s, a));
  }

  /** `g` added `n` times; kept recursive so that the proofs below stay linear. */
  function Times(g: int, n: nat): int
  {
    if n == 0 then 0 else g + Times(g, n - 1)
  }

  lemma {:induction false} TimesIsProduct(g: int, n: nat)
    ensures Times(g, n) == g * n
  {
    if n > 0 {
      TimesIsProduct(g, n - 1);
    }
  }

  /** The grade total after an update, with the updated rows counted by `Times`. */
  lemma {:induction false} EditTotal(gs: seq<GradeRow>, s: Id, a: Id, g: int)
    ensures Sum(StudentGrades(EditGrade(gs, s, a, g), s))
         == Sum(StudentGrades(DeleteGrade(gs, s, a), s)) + Times(g, CountMatching(gs, s, a))
  {
    if |gs| > 0 {
      EditTotal(gs[1..], s, a, g);
      EditThenAverageStep(gs, s, a, g);
    }
  }

  /** An update changes no student's number of grades. */
  lemma {:induction false} EditKeepsGradeCount(gs: seq<GradeRow>, s: Id, a: Id, g: int, t: Id)
    ensures |StudentGrades(EditGrade(gs, s, a, g), t)| == |StudentGrades(gs, t)|
  {
    if |gs| > 0 {
      EditKeepsGradeCount(gs[1..], s, a, g, t);
      assert EditGrade(gs, s, a, g)[1..] == EditGrade(gs[1..], s, a, g);
    }
  }

  /**
   The grade total of student s after an update of (s, a) to g: the grades a
   delete of the pair would keep, plus g once for each updated row.
   */
  function UpdatedTotal(gs: seq<GradeRow>, s: Id, a: Id, g: int): int
  {
    Sum(StudentGrades(DeleteGrade(gs, s, a), s)) + g * CountMatching(gs, s, a)
  }

  /**
   The average after an update of (s, a) to g: the updated total over the same
   number of grades as before; still NULL when the student has no grades.
   */
  lemma EditThenClassGrade(gs: seq<GradeRow>, s: Id, a: Id, g: int)
    ensures var n := |StudentGrades(gs, s)|;
      ClassGrade(EditGrade(gs, s, a, g), s)
        == if n == 0 then None else Some(UpdatedTotal(gs, s, a, g) as real / n as real)
  {
    var xs := StudentGrades(EditGrade(gs, s, a, g), s);
    assert Sum(xs) == UpdatedTotal(gs, s, a, g) && |xs| == |StudentGrades(gs, s)| by {
      EditThenAverage(gs, s, a, g);
    }
    assert ClassGrade(EditGrade(gs, s, a, g), s) == if |xs| == 0 then None else Some(Sum(xs) as real / |xs| as real) by {
      ClassGradeMean(EditGrade(gs, s, a, g), s);
    }
    AverageOf(xs, ClassGrade(EditGrade(gs, s, a, g), s), UpdatedTotal(gs, s, a, g), |StudentGrades(gs, s)|);
  }

  /** The average as the mean of the grades a student id selects. */
  lemma ClassGradeMean(gs: seq<GradeRow>, s: Id)
    ensures var xs := StudentGrades(gs, s);
      ClassGrade(gs, s) == if |xs| == 0 then None else Some(Sum(xs) as real / |xs| as real)
  {
  }

  /** The average of grades known to total `t` over `n` values. */
  lemma AverageOf(xs: seq<int>, avg: Option<real>, t: int, n: nat)
    requires avg == if |xs| == 0 then None else Some(Sum(xs) as real / |xs| as real)
    requires Sum(xs) == t && |xs| == n
    ensures avg == if n == 0 then None else Some(t as real / n as real)
  {
  }

  /** The inductive step of `EditTotal`: from the table without its first row to the whole table. */
  lemma EditThenAverageStep(gs: seq<GradeRow>, s: Id, a: Id, g: int)
    requires |gs| > 0
    requires Sum(StudentGrades(EditGrade(gs[1..], s, a, g), s))
          == Sum(StudentGrades(DeleteGrade(gs[1..], s, a), s)) + Times(g, CountMatching(gs[1..], s, a))
    ensures Sum(StudentGrades(EditGrade(gs, s, a, g), s))
         == Sum(StudentGrades(DeleteGrade(gs, s, a), s)) + Times(g, CountMatching(gs, s, a))
  {
    EditSumCons(gs, s, a, g);
    DeleteSumCons(gs, s, a);
    TimesCountCons(gs, s, a, g);
  }

  /** Student s's grade total after an update, one row at a time. */
  lemma EditSumCons(gs: seq<GradeRow>, s: Id, a: Id, g: int)
    requires |gs| > 0
    ensures Sum(StudentGrades(EditGrade(gs, s, a, g), s))
         == (if Matches(gs[0], s, a) then g else if gs[0].studentId == s then gs[0].grade else 0)
          + Sum(StudentGrades(EditGrade(gs[1..], s, a, g), s))
  {
    EditCons(gs, s, a, g);
    SumGradesCons(if Matches(gs[0], s, a) then gs[0].(grade := g) else gs[0], EditGrade(gs[1..], s, a, g), s);
  }

  /** Student s's grade total after a delete, one row at a time. */
  lemma DeleteSumCons(gs: seq<GradeRow>, s: Id, a: Id)
    requires |gs| > 0
    ensures Sum(StudentGrades(DeleteGrade(gs, s, a), s))
         == (if Matches(gs[0], s, a) then 0 else if gs[0].studentId == s then gs[0].grade else 0)
          + Sum(StudentGrades(DeleteGrade(gs[1..], s, a), s))
  {
    DeleteCons(gs, s, a);
    if !Matches(gs[0], s, a) {
      SumGradesCons(gs[0], DeleteGrade(gs[1..], s, a), s);
    }
  }

  /** `g` once for each of the pair's rows, one row at a time. */
  lemma TimesCountCons(gs: seq<GradeRow>, s: Id, a: Id, g: int)
    requires |gs| > 0
    ensures Times(g, CountMatching(gs, s, a)) == (if Matches(gs[0], s, a) then g else 0) + Times(g, CountMatching(gs[1..], s, a))
  {
    CountCons(gs, s, a);
  }

  /** An update, one row at a time. */
  lemma EditCons(gs: seq<GradeRow>, s: Id, a: Id, g: int)
    requires |gs| > 0
    ensures EditGrade(gs, s, a, g)
         == [if Matches(gs[0], s, a) then gs[0].(grade := g) else gs[0]] + EditGrade(gs[1..], s, a, g)
  {
  }

  /** A delete, one row at a time. */
  lemma DeleteCons(gs: seq<GradeRow>, s: Id, a: Id)
    requires |gs| > 0
    ensures DeleteGrade(gs, s, a) == (if Matches(gs[0], s, a) then [] else [gs[0]]) + DeleteGrade(gs[1..], s, a)
  {
    if Matches(gs[0], s, a) {
      assert [] + DeleteGrade(gs[1..], s, a) == DeleteGrade(gs[1..], s, a);
    }
  }

  /** The pair's row count, one row at a time. */
  lemma CountCons(gs: seq<GradeRow>, s: Id, a: Id)
    requires |gs| > 0
    ensures CountMatching(gs, s, a) == (if Matches(gs[0], s, a) then 1 else 0) + CountMatching(gs[1..], s, a)
  {
  }

  /** The grade total of a student over a table with one more row in front. */
  lemma SumGradesCons(h: GradeRow, rest: seq<GradeRow>, s: Id)
    ensures Sum(StudentGrades([h] + rest, s)) == (if h.studentId == s then h.grade else 0) + Sum(StudentGrades(rest, s))
  {
    assert ([h] + rest)[0] == h;
    assert ([h] + rest)[1..] == rest;
    if h.studentId == s {
      assert StudentGrades([h] + rest, s) == [h.grade] + StudentGrades(rest, s);
      assert ([h.grade] + StudentGrades(rest, s))[1..] == StudentGrades(rest, s);
    }
  }

  lemma {:induction false} EditConcat(x: seq<GradeRow>, y: seq<GradeRow>, s: Id, a: Id, g: int)
    ensures EditGrade(x + y, s, a, g) == EditGrade(x, s, a, g) + EditGrade(y, s, a, g)
  {
    if |x| > 0 {
      assert (x + y)[0] == x[0];
      assert (x + y)[1..] == x[1..] + y;
      EditConcat(x[1..], y, s, a, g);
    } else {
      assert x + y == y;
    }
  }

  /** An update of another student's grades leaves this student's average alone. */
  lemma {:induction false} EditOtherStudent(gs: seq<GradeRow>, s: Id, s': Id, a: Id, g: int)
    requires s' != s
    ensures StudentGrades(EditGrade(gs, s', a, g), s) == StudentGrades(gs, s)
    ensures ClassGrade(EditGrade(gs, s', a, g), s) == ClassGrade(gs, s)
  {
    if |gs| > 0 {
      EditOtherStudent(gs[1..], s, s', a, g);
      var e := EditGrade(gs, s', a, g);
      assert e[1..] == EditGrade(gs[1..], s', a, g);
    }
  }

  lemma {:induction false} SumAtLeast(xs: seq<int>, lo: int)
    requires forall i :: 0 <= i < |xs| ==> lo <= xs[i]
    ensures |xs| * lo <= Sum(xs)
  {
    if |xs| > 0 {
      SumAtLeast(xs[1..], lo);
    }
  }

  lemma {:induction false} SumAtMost(xs: seq<int>, hi: int)
    requires forall i :: 0 <= i < |xs| ==> xs[i] <= hi
    ensures Sum(xs) <= |xs| * hi
  {
    if |xs| > 0 {
      SumAtMost(xs[1..], hi);
    }
  }

  /** Every grade a student id selects comes from one of that student's rows. */
  lemma {:induction false} StudentGradesFrom(gs: seq<GradeRow>, s: Id)
    ensures forall x :: x in StudentGrades(gs, s) ==> exists i :: 0 <= i < |gs| && gs[i].studentId == s && gs[i].grade == x
  {
    if |gs| > 0 {
      StudentGradesFrom(gs[1..], s);
      forall x | x in StudentGrades(gs, s)
        ensures exists i :: 0 <= i < |gs| && gs[i].studentId == s && gs[i].grade == x
      {
        if gs[0].studentId == s && x == gs[0].grade {
        } else {
          var i :| 0 <= i < |gs[1..]| && gs[1..][i].studentId == s && gs[1..][i].grade == x;
          assert gs[i + 1] == gs[1..][i];
        }
      }
    }
  }

  /** A floor on every grade of a student is a floor on their average. */
  lemma AverageAtLeast(gs: seq<GradeRow>, s: Id, lo: int)
    ensures (forall i :: 0 <= i < |gs| && gs[i].studentId == s ==> lo <= gs[i].grade) ==>
      ClassGrade(gs, s).Some? ==> lo as real <= ClassGrade(gs, s).value
  {
    var xs := StudentGrades(gs, s);
    if (forall i :: 0 <= i < |gs| && gs[i].studentId == s ==> lo <= gs[i].grade) && |xs| > 0 {
      assert forall i :: 0 <= i < |xs| ==> lo <= xs[i] by {
        StudentGradesFrom(gs, s);
        assert forall i :: 0 <= i < |xs| ==> xs[i] in xs;
      }
      SumAtLeast(xs, lo);
      DivAtLeast(Sum(xs), |xs|, lo);
    }
  }

  /** A ceiling on every grade of a student is a ceiling on their average. */
  lemma AverageAtMost(gs: seq<GradeRow>, s: Id, hi: int)
    ensures (forall i :: 0 <= i < |gs| && gs[i].studentId == s ==> gs[i].grade <= hi) ==>
      ClassGrade(gs, s).Some? ==> ClassGrade(gs, s).value <= hi as real
  {
    var xs := StudentGrades(gs, s);
    if (forall i :: 0 <= i < |gs| && gs[i].studentId == s ==> gs[i].grade <= hi) && |xs| > 0 {
      assert forall i :: 0 <= i < |xs| ==> xs[i] <= hi by {
        StudentGradesFrom(gs, s);
        assert forall i :: 0 <= i < |xs| ==> xs[i] in xs;
      }
      SumAtMost(xs, hi);
      DivAtMost(Sum(xs), |xs|, hi);
    }
  }

  lemma DivAtLeast(total: int, n: nat, lo: int)
    requires n > 0 && n * lo <= total
    ensures lo as real <= total as real / n as real
  {
    assert (n * lo) as real == n as real * lo as real;
  }

  lemma DivAtMost(total: int, n: nat, hi: int)
    requires n > 0 && total <= n * hi
    ensures total as real / n as real <= hi as real
  {
    assert (n * hi) as real == n as real * hi as real;
  }

  /** The average lies between the lowest and the highest of the student's grades. */
  lemma AverageBounds(gs: seq<GradeRow>, s: Id, lo: int, hi: int)
    requires forall i :: 0 <= i < |gs| && gs[i].studentId == s ==> lo <= gs[i].grade <= hi
    ensures ClassGrade(gs, s).Some? ==> lo as real <= ClassGrade(gs, s).value <= hi as real
  {
    assert forall i :: 0 <= i < |gs| && gs[i].studentId == s ==> lo <= gs[i].grade;
    assert forall i :: 0 <= i < |gs| && gs[i].studentId == s ==> gs[i].grade <= hi;
    AverageAtLeast(gs, s, lo);
    AverageAtMost(gs, s, hi);
  }

  // ---------------------------------------------------------------------------
  // The joined listing
  // ---------------------------------------------------------------------------

  /** Listing line `t` is the inner join of grade row `g` with some student and some assignment. */
  ghost predicate Joins(ss: seq<StudentRow>, as_: seq<AssignmentRow>, g: GradeRow, t: Info)
  {
    exists j, k :: 0 <= j < |ss| && 0 <= k < |as_|
      && ss[j].id == g.studentId && as_[k].id == g.assignmentId
      && t == Info(ss[j].name, as_[k].name, g.grade)
  }

  lemma JoinRowIsJoin(ss: seq<StudentRow>, as_: seq<AssignmentRow>, g: GradeRow, t: Info)
    requires Distinct(StudentIds(ss)) && Distinct(AssignmentIds(as_))
    ensures t in JoinRow(ss, as_, g) <==> Joins(ss, as_, g, t)
  {
    var fs := FindStudent(ss, g.studentId);
    var fa := FindAssignment(as_, g.assignmentId);
    if t in JoinRow(ss, as_, g) {
      var j :| 0 <= j < |ss| && ss[j] == fs.value;
      var k :| 0 <= k < |as_| && as_[k] == fa.value;
      assert ss[j].id == g.studentId && as_[k].id == g.assignmentId;
    }
    if Joins(ss, as_, g, t) {
      var j, k :| 0 <= j < |ss| && 0 <= k < |as_|
        && ss[j].id == g.studentId && as_[k].id == g.assignmentId
        && t == Info(ss[j].name, as_[k].name, g.grade);
      var j' :| 0 <= j' < |ss| && ss[j'] == fs.value;
      var k' :| 0 <= k' < |as_| && as_[k'] == fa.value;
      assert StudentIds(ss)[j] == StudentIds(ss)[j'];
      assert AssignmentIds(as_)[k] == AssignmentIds(as_)[k'];
    }
  }

  lemma {:induction false} JoinGradesIsJoin(ss: seq<StudentRow>, as_: seq<AssignmentRow>, gs: seq<GradeRow>, t: Info)
    requires Distinct(StudentIds(ss)) && Distinct(AssignmentIds(as_))
    ensures t in JoinGrades(ss, as_, gs) <==> exists i :: 0 <= i < |gs| && Joins(ss, as_, gs[i], t)
  {
    if |gs| > 0 {
      JoinGradesIsJoin(ss, as_, gs[1..], t);
      JoinRowIsJoin(ss, as_, gs[0], t);
      if exists i :: 0 <= i < |gs| && Joins(ss, as_, gs[i], t) {
        var i :| 0 <= i < |gs| && Joins(ss, as_, gs[i], t);
        if i > 0 {
          assert gs[1..][i - 1] == gs[i];
        }
      }
      if exists i :: 0 <= i < |gs[1..]| && Joins(ss, as_, gs[1..][i], t) {
        var i :| 0 <= i < |gs[1..]| && Joins(ss, as_, gs[1..][i], t);
        assert gs[i + 1] == gs[1..][i];
      }
    }
  }

  /**
   `display_student_info` lists exactly the inner join of Students, Grades and
   Assignments on the primary keys: a line appears if and only if some grade
   row's student id and assignment id both name existing rows; grade rows with
   a dangling id contribute nothing.
   */
  lemma DisplayIsInnerJoin(db: Gradebook, t: Info)
    requires Valid(db)
    ensures t in DisplayStudentInfo(db) <==>
      exists i :: 0 <= i < |db.grades| && Joins(db.students, db.assignments, db.grades[i], t)
  {
    JoinGradesIsJoin(db.students, db.assignments, db.grades, t);
  }

  /** A recorded grade adds its own listing line at the end, or nothing if either id is dangling. */
  lemma RecordThenDisplay(db: Gradebook, s: Id, a: Id, g: int)
    ensures DisplayStudentInfo(db.(grades := RecordGrade(db.grades, s, a, g)))
         == DisplayStudentInfo(db) + JoinRow(db.students, db.assignments, GradeRow(s, a, g))
    ensures !HasStudent(db.students, s) || !HasAssignment(db.assignments, a) ==>
      DisplayStudentInfo(db.(grades := RecordGrade(db.grades, s, a, g))) == DisplayStudentInfo(db)
  {
    JoinGradesConcat(db.students, db.assignments, db.grades, [GradeRow(s, a, g)]);
    JoinRowCount(db.students, db.assignments, GradeRow(s, a, g));
  }

  /**
   Recording a grade for an existing student and assignment lists the new
   line exactly once more than before (it may already have been listed for an
   earlier duplicate).
   */
  lemma RecordThenListed(db: Gradebook, j: nat, k: nat, g: int)
    requires Valid(db)
    requires j < |db.students| && k < |db.assignments|
    ensures var db' := db.(grades := RecordGrade(db.grades, db.students[j].id, db.assignments[k].id, g));
      var t := Info(db.students[j].name, db.assignments[k].name, g);
      multiset(DisplayStudentInfo(db'))[t] == multiset(DisplayStudentInfo(db))[t] + 1
  {
    var row := GradeRow(db.students[j].id, db.assignments[k].id, g);
    var t := Info(db.students[j].name, db.assignments[k].name, g);
    var before := DisplayStudentInfo(db);
    RecordThenDisplay(db, row.studentId, row.assignmentId, g);
    JoinRowOfKeys(db.students, db.assignments, j, k, g);
    assert DisplayStudentInfo(db.(grades := RecordGrade(db.grades, row.studentId, row.assignmentId, g))) == before + [t];
    assert multiset(before + [t]) == multiset(before) + multiset{t};
  }

  /** With unique keys, a grade row naming the j-th student and the k-th assignment lists their names. */
  lemma JoinRowOfKeys(ss: seq<StudentRow>, as_: seq<AssignmentRow>, j: nat, k: nat, g: int)
    requires Distinct(StudentIds(ss)) && Distinct(AssignmentIds(as_))
    requires j < |ss| && k < |as_|
    ensures JoinRow(ss, as_, GradeRow(ss[j].id, as_[k].id, g)) == [Info(ss[j].name, as_[k].name, g)]
  {
    var fs := FindStudent(ss, ss[j].id);
    var fa := FindAssignment(as_, as_[k].id);
    var j' :| 0 <= j' < |ss| && ss[j'] == fs.value;
    var k' :| 0 <= k' < |as_| && as_[k'] == fa.value;
    assert StudentIds(ss)[j] == StudentIds(ss)[j'];
    assert AssignmentIds(as_)[k] == AssignmentIds(as_)[k'];
  }

  /** A delete can only shorten the listing: every line left was listed before, as often or less. */
  lemma {:induction false} DeleteShrinksListing(ss: seq<StudentRow>, as_: seq<AssignmentRow>, gs: seq<GradeRow>, s: Id, a: Id)
    ensures multiset(JoinGrades(ss, as_, DeleteGrade(gs, s, a))) <= multiset(JoinGrades(ss, as_, gs))
  {
    if |gs| > 0 {
      DeleteShrinksListing(ss, as_, gs[1..], s, a);
      if !Matches(gs[0], s, a) {
        assert DeleteGrade(gs, s, a) == [gs[0]] + DeleteGrade(gs[1..], s, a);
        JoinGradesConcat(ss, as_, [gs[0]], DeleteGrade(gs[1..], s, a));
        assert JoinGrades(ss, as_, [gs[0]]) == JoinRow(ss, as_, gs[0]);
      }
    }
  }
}
