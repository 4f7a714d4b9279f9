/** Finding the step at which something first becomes true in a run. */
module Histories {

  /** If something is false at first, and whenever it is false becomes true exactly by a step of a certain
      kind, then it is true somewhere in the first `n` steps exactly when one of them is of that kind. */
  lemma {:induction false} FirstTime(holds: nat -> bool, causes: nat -> bool, n: nat)
    requires !holds(0)
    requires forall k: nat | k < n && !holds(k) :: holds(k + 1) <==> causes(k)
    ensures (exists i: nat :: i <= n && holds(i)) <==> (exists k: nat :: k < n && causes(k))
  {
    if n == 0 {
    } else {
      var k: nat := n - 1;
      FirstTime(holds, causes, k);
      if !holds(k) {
        assert holds(k + 1) == holds(n) == causes(k);
      }
    }
  }
}
