/**
 Positions of a cyclic buffer whose cells carry a cycle bit that flips on every
 lap: the k-th entry lives in cell Slot(m, k) and is valid while the bit equals
 Cyc(m, k).
 */
module CyclePositions {
  import Division

  function Slot(m: nat, k: nat): (r: nat)
    requires m > 0
    ensures r < m
  {
    if k < m then k else Slot(m, k - m)
  }

  predicate Cyc(m: nat, k: nat)
    requires m > 0
  {
    if k < m then true else !Cyc(m, k - m)
  }

  /** The cell is the position mod m, and the bit is set in every other lap. */
  lemma {:induction false} SlotIs(m: nat, k: nat)
    requires m > 0
    ensures Slot(m, k) == k % m && (Cyc(m, k) <==> k / m % 2 == 0)
  {
    if k < m {
      Division.Unique(k, m, 0, k);
    } else {
      SlotIs(m, k - m);
      var q := (k - m) / m;
      assert k == (q + 1) * m + (k - m) % m;
      Division.Unique(k, m, q + 1, (k - m) % m);
    }
  }

  lemma {:induction false} NextSlot(m: nat, k: nat)
    requires m > 0
    ensures Slot(m, k + 1) == if Slot(m, k) + 1 == m then 0 else Slot(m, k) + 1
    ensures Cyc(m, k + 1) == if Slot(m, k) + 1 == m then !Cyc(m, k) else Cyc(m, k)
  {
    if k >= m {
      NextSlot(m, k - m);
    }
  }

  /** d entries on, at most one lap: the cell wraps once or not at all, and the bit flips with it. */
  lemma {:induction false} SlotAfter(m: nat, k: nat, d: nat)
    requires 0 < m && d <= m
    ensures Slot(m, k + d) == if Slot(m, k) + d < m then Slot(m, k) + d else Slot(m, k) + d - m
    ensures Cyc(m, k + d) == if Slot(m, k) + d < m then Cyc(m, k) else !Cyc(m, k)
  {
    if d > 0 {
      SlotAfter(m, k, d - 1);
      NextSlot(m, k + d - 1);
    }
  }

  /** Entries less than a lap apart live in different cells. */
  lemma SlotsDiffer(m: nat, j: nat, k: nat)
    requires 0 < m && j < k < j + m
    ensures Slot(m, j) != Slot(m, k)
  {
    SlotAfter(m, j, k - j);
  }
}
