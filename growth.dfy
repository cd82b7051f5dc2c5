/** The cell array's growth policy: start at 4 slots, double whenever full. */
module Growth {

  const InitialCapacity: nat := 4

  /** Double `c` until it holds `n` cells. */
  function GrowTo(c: nat, n: nat): (r: nat)
    requires c > 0
    ensures r >= n && r >= c
    decreases if n <= c then 0 else n - c
  {
    if n <= c then c else GrowTo(2 * c, n)
  }

  /** The capacity of a store holding `n` names: the first 4 * 2^k that is at least n. */
  function CapacityFor(n: nat): (r: nat)
    ensures r >= n && r >= InitialCapacity
  {
    GrowTo(InitialCapacity, n)
  }

  lemma {:induction false} GrowToStep(c: nat, n: nat)
    requires c > 0
    ensures GrowTo(c, n + 1) == if n == GrowTo(c, n) then 2 * GrowTo(c, n) else GrowTo(c, n)
    decreases if n <= c then 0 else n - c
  {
    if n > c {
      GrowToStep(2 * c, n);
    }
  }

  /**
   * Binding one more name doubles the capacity exactly when the store is full
   * (size == capacity) and leaves it alone otherwise.
   */
  lemma CapacityStep(n: nat)
    ensures CapacityFor(n + 1) == if n == CapacityFor(n) then 2 * CapacityFor(n) else CapacityFor(n)
  {
    GrowToStep(InitialCapacity, n);
  }

  lemma {:induction false} GrowToTight(c: nat, n: nat)
    requires c > 0 && n > c
    ensures GrowTo(c, n) < 2 * n
    decreases n - c
  {
    if n > 2 * c {
      GrowToTight(2 * c, n);
    }
  }

  /** Doubling never overshoots: once grown, fewer than twice as many cells as names. */
  lemma CapacityTight(n: nat)
    ensures n > InitialCapacity ==> CapacityFor(n) < 2 * n
  {
    if n > InitialCapacity {
      GrowToTight(InitialCapacity, n);
    }
  }

  /** Four distinct names give capacity 4, five give 8, nine and ten give 16. */
  lemma CapacityExamples()
    ensures CapacityFor(4) == 4 && CapacityFor(5) == 8 && CapacityFor(8) == 8
    ensures CapacityFor(9) == 16 && CapacityFor(10) == 16
  {
  }
}
