/** Progress reporting shared by the backup job and the upload restore: a run
    of `total` steps writes `Math.floor((step / total) * 100)` to the progress
    reference after each completed step. */
module Progress {

  /** `Math.floor((step / total) * 100)` for the step counts the handlers use,
      where the floor agrees with integer division. */
  function Percent(step: nat, total: nat): nat
    requires total > 0
  {
    step * 100 / total
  }

  /** `Percent(step + 1, total), ..., Percent(step + n, total)`: the values
      written by `n` consecutive steps after `step` have completed. */
  function Ramp(step: nat, n: nat, total: nat): (ps: seq<nat>)
    requires total > 0
    ensures |ps| == n
    decreases n
  {
    if n == 0 then [] else [Percent(step + 1, total)] + Ramp(step + 1, n - 1, total)
  }

  lemma {:induction false} RampValues(step: nat, n: nat, total: nat)
    requires total > 0
    ensures forall k | 0 <= k < n :: Ramp(step, n, total)[k] == Percent(step + k + 1, total)
    decreases n
  {
    if n > 0 {
      RampValues(step + 1, n - 1, total);
      var ps := Ramp(step, n, total);
      forall k | 0 <= k < n
        ensures ps[k] == Percent(step + k + 1, total)
      {
        if k > 0 {
          assert ps[k] == Ramp(step + 1, n - 1, total)[k - 1];
        }
      }
    }
  }

  /** More completed steps never report a smaller percentage. */
  lemma PercentMonotone(a: nat, b: nat, total: nat)
    requires total > 0 && a <= b
    ensures Percent(a, total) <= Percent(b, total)
  {
    var x, y := a * 100, b * 100;
    assert x <= y;
    if x / total > y / total {
      assert x == total * (x / total) + x % total;
      assert y == total * (y / total) + y % total;
      assert total * (x / total) >= total * (y / total + 1);
    }
  }
}
