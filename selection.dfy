/**
 * The single-selection rule of the list click handler, stated on the
 * sequence of `isSelected` flags of the full list. `prev` is the stored
 * position of the last selected row, -1 for none.
 */
module Selection {

  /**
   * The flags after the click handler runs for the row at position `k`: the
   * stored position is cleared when it is not -1 and lies inside the list,
   * then position `k` is set.
   */
  function ClickFlags(flags: seq<bool>, prev: int, k: int): (after: seq<bool>)
    requires prev >= -1
    requires 0 <= k < |flags|
    ensures |after| == |flags| && after[k]
    ensures 0 <= prev < |flags| && prev != k ==> !after[prev]
    ensures forall i :: 0 <= i < |flags| && i != k && i != prev ==> after[i] == flags[i]
    ensures prev >= |flags| ==> after == flags[k := true]
  {
    var cleared := if prev != -1 && prev < |flags| then flags[prev := false] else flags;
    cleared[k := true]
  }

  /**
   * The stored position is accurate: it is -1 and no row is selected, or it
   * lies in the list and marks the one selected row.
   */
  predicate TrackedFlags(flags: seq<bool>, prev: int)
  {
    -1 <= prev < |flags| && forall i :: 0 <= i < |flags| ==> (flags[i] <==> i == prev)
  }

  /** The number of selected rows. */
  function CountSelected(flags: seq<bool>): nat
  {
    if flags == [] then 0 else (if flags[0] then 1 else 0) + CountSelected(flags[1..])
  }

  /** A list whose only selected row (if any) is at `p` counts one selected row, or none. */
  lemma {:induction false} CountOnly(flags: seq<bool>, p: int)
    requires forall i :: 0 <= i < |flags| ==> (flags[i] <==> i == p)
    ensures CountSelected(flags) == if 0 <= p < |flags| then 1 else 0
    decreases |flags|
  {
    if flags != [] {
      CountOnly(flags[1..], p - 1);
    }
  }

  /** While the stored position is accurate, at most one row is selected, exactly one unless it is -1. */
  lemma TrackedCount(flags: seq<bool>, prev: int)
    requires TrackedFlags(flags, prev)
    ensures CountSelected(flags) == if prev == -1 then 0 else 1
  {
    CountOnly(flags, prev);
  }

  /**
   * A click keeps the stored position accurate: afterwards exactly the
   * clicked row is selected and its position is the one to store.
   */
  lemma ClickKeepsTracked(flags: seq<bool>, prev: int, k: int)
    requires TrackedFlags(flags, prev)
    requires 0 <= k < |flags|
    ensures TrackedFlags(ClickFlags(flags, prev, k), k)
    ensures CountSelected(ClickFlags(flags, prev, k)) == 1
  {
    TrackedCount(ClickFlags(flags, prev, k), k);
  }

  /** Clicking the row that was just clicked leaves the flags as they are. */
  lemma ClickAgain(flags: seq<bool>, prev: int, k: int)
    requires prev >= -1
    requires 0 <= k < |flags|
    ensures ClickFlags(ClickFlags(flags, prev, k), k, k) == ClickFlags(flags, prev, k)
  {
  }
}
