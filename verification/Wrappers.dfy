/** The usual optional value, and the steps of loops and runs. */
module Wrappers {
  datatype Option<+T> = None | Some(value: T)

  lemma HoldsSoFar<T>(holds: T -> bool, xs: seq<T>, i: nat)
    requires i < |xs| && holds(xs[i])
    requires forall j | 0 <= j < i :: holds(xs[j])
    ensures forall j | 0 <= j < i + 1 :: holds(xs[j])
  {
  }

  /** What holds at the start and is kept by n steps holds after them. */
  lemma {:induction false} StepsReach(holds: nat -> bool, n: nat)
    requires holds(0) && forall i: nat | i < n && holds(i) :: holds(i + 1)
    ensures holds(n)
  {
    if n > 0 {
      StepsReach(holds, n - 1);
    }
  }
}
