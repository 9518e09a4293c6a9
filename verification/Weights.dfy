/** Weights and their gradual recalculation (internal/types/weight/weight.go). */
module Weights {
  import opened Common

  const OMITTED := -1

  /** One recalculation step from the weight `prior` towards `target`. */
  function Recalculate(target: int, prior: int, coeff: nat): int {
    if target < 0 && prior < 0 then OMITTED
    else if target < 0 then prior
    else if prior < 0 then target
    else if coeff == 0 then target
    else
      var share := prior * coeff / 100;
      var step := if share == 0 then 1 else share;
      if target > prior then
        if prior + step < target then prior + step else target
      else
        if prior - step > target then prior - step else target
  }

  function Repeated(target: int, prior: int, coeff: nat, n: nat): int
    decreases n
  {
    if n == 0 then prior else Repeated(target, Recalculate(target, prior, coeff), coeff, n - 1)
  }

  /** One step stays between the old weight and the target and moves by exactly the least of what is left and
      the larger of one and the configured share of the old weight; without a coefficient it goes all the way. */
  lemma StepIsExact(target: nat, prior: nat, coeff: nat)
    ensures var w := Recalculate(target, prior, coeff);
            && (prior <= w <= target || target <= w <= prior)
            && (coeff == 0 ==> w == target)
            && (coeff > 0 ==> Distance(prior, w) == Least(Distance(prior, target), Greatest(1, prior * coeff / 100)))
  {
    assert prior * coeff >= 0;
  }

  /** A negative weight is one that was omitted: the other one is taken, and with neither it stays omitted. */
  lemma OmittedWeights(target: int, prior: int, coeff: nat)
    requires target < 0 || prior < 0
    ensures Recalculate(target, prior, coeff) == if target >= 0 then target else if prior >= 0 then prior else -1
  {
  }

  /** Repeating the step never overshoots, moves monotonically, and after as many steps as the
      initial distance sits on the target and stays there. */
  lemma {:induction false} ConvergesMonotonically(target: nat, prior: nat, coeff: nat, n: nat)
    ensures var w := Repeated(target, prior, coeff, n);
            && (prior <= w <= target || target <= w <= prior)
            && Distance(w, target) <= (if n <= Distance(prior, target) then Distance(prior, target) - n else 0)
    decreases n
  {
    if n > 0 {
      StepIsExact(target, prior, coeff);
      ConvergesMonotonically(target, Recalculate(target, prior, coeff), coeff, n - 1);
    }
  }
}
