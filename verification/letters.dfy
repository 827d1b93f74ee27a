/**
 Conversion of a percentage to a letter grade (`percentage_to_letter_grade`).

 The percentage is an exact `real`: it is either a recorded integer grade or
 the average the store computes, and the thresholds are compared with `>=`,
 so each boundary value belongs to the higher band.
 */
module Letters {

  /**
   The letter for a percentage, compared from the top band down. Stated as the
   five disjoint bands, each closed below and open above.
   */
  function LetterGrade(p: real): (r: char)
    ensures r in {'A', 'B', 'C', 'D', 'F'}
    ensures r == 'A' <==> 90.0 <= p
    ensures r == 'B' <==> 80.0 <= p < 90.0
    ensures r == 'C' <==> 70.0 <= p < 80.0
    ensures r == 'D' <==> 60.0 <= p < 70.0
    ensures r == 'F' <==> p < 60.0
  {
    if p >= 90.0 then 'A'
    else if p >= 80.0 then 'B'
    else if p >= 70.0 then 'C'
    else if p >= 60.0 then 'D'
    else 'F'
  }

  /** How good a letter is: 'A' is best, 'F' worst, anything else below 'F'. */
  function Rank(c: char): int
  {
    match c
    case 'A' => 4
    case 'B' => 3
    case 'C' => 2
    case 'D' => 1
    case 'F' => 0
    case _ => -1
  }

  /** A higher percentage never earns a worse letter. */
  lemma LetterMonotone(p: real, q: real)
    requires p <= q
    ensures Rank(LetterGrade(p)) <= Rank(LetterGrade(q))
  {
  }
}
