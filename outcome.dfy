/** The outcome evaluator: the qualification threshold and the CPU-versus-CPU winner rule. */
module Outcome {
  import opened Bracket

  /** A side qualifies with strictly more than 69 % of its answers right. */
  const THRESHOLD_PERCENT: nat := 69

  /** `correct / total > 0.69`, compared exactly in integers. */
  predicate Qualifies(correct: nat, total: nat)
    requires total > 0
    ensures correct >= total ==> Qualifies(correct, total)
    ensures 10 * correct <= 6 * total ==> !Qualifies(correct, total)
  {
    100 * correct > THRESHOLD_PERCENT * total
  }

  /** The integer test is the source's `correct / total > 0.69`, read over exact rationals. */
  lemma QualifiesIsRatioAboveThreshold(correct: nat, total: nat)
    requires total > 0
    ensures Qualifies(correct, total) <==> (correct as real) / (total as real) > 0.69
  {
    var c, t := correct as real, total as real;
    var q := c / t;
    calc {
      q > 0.69;
    <==> { ScaleByPositive(q, 0.69, t); }
      q * t > 0.69 * t;
    <==> { assert q * t == c; }
      c > 0.69 * t;
    <==> { ScaleByPositive(c, 0.69 * t, 100.0); }
      c * 100.0 > 0.69 * t * 100.0;
    <==> { assert c * 100.0 == (100 * correct) as real && 0.69 * t * 100.0 == (69 * total) as real; }
      100 * correct > 69 * total;
    }
  }

  /** Two percentages over the same number of questions compare as the counts do. */
  lemma SharedDenominatorCompare(correctA: nat, correctB: nat, n: nat)
    requires n > 0
    ensures (correctA as real) / (n as real) >= (correctB as real) / (n as real) <==> correctA >= correctB
  {
    var t := n as real;
    var qa, qb := (correctA as real) / t, (correctB as real) / t;
    assert qa * t == correctA as real && qb * t == correctB as real;
    ScaleByPositive(qb, qa, t);
  }

  lemma ScaleByPositive(x: real, y: real, t: real)
    requires t > 0.0
    ensures x > y <==> x * t > y * t
  {
    assert x * t - y * t == (x - y) * t;
  }

  /** The winner of a simulated match in which side `a` got `correctA` and side `b` got
      `correctB` of `n` answers right. The four branches reduce to one comparison:
      `a` wins exactly when its percentage is at least `b`'s, so ties go to `a`. */
  function CpuWinner(a: Slot, b: Slot, correctA: nat, correctB: nat, n: nat): (w: Slot)
    requires n > 0
    ensures w == (if correctA >= correctB then a else b)
  {
    var passA, passB := Qualifies(correctA, n), Qualifies(correctB, n);
    // both percentages have the denominator n, so comparing them compares the counts
    if passA && !passB then a
    else if passB && !passA then b
    else if passA && passB then (if correctA >= correctB then a else b)
    else if correctA >= correctB then a else b
  }
}
