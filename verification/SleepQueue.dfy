/**
 The sleep queue of kernel/scheduler/scheduler.c: an array kept sorted by wake
 tick, filled by insertion and emptied from the front.
 */
module SleepQueue {
  datatype Entry = Entry(task: nat, wake: nat)

  predicate Sorted(q: seq<Entry>) { forall i, j :: 0 <= i < j < |q| ==> q[i].wake <= q[j].wake }

  /** The place of a new entry: after every entry that wakes no later. */
  function Place(q: seq<Entry>, wake: nat): (i: nat)
    ensures i <= |q|
    ensures i > 0 ==> q[i - 1].wake <= wake
    ensures forall j :: i <= j < |q| ==> q[j].wake > wake
  {
    if |q| > 0 && q[|q| - 1].wake > wake then Place(q[..|q| - 1], wake) else |q|
  }

  function Insert(q: seq<Entry>, e: Entry): seq<Entry> { q[..Place(q, e.wake)] + [e] + q[Place(q, e.wake)..] }

  /** The entries due at `now`, a prefix of a sorted queue. */
  function Due(q: seq<Entry>, now: nat): (n: nat)
    ensures n <= |q| && (forall i :: 0 <= i < n ==> q[i].wake <= now) && (n < |q| ==> q[n].wake > now)
  {
    if |q| == 0 || q[0].wake > now then 0 else
      var n := Due(q[1..], now);
      assert forall i :: 1 <= i < |q| ==> q[i] == q[1..][i - 1];
      n + 1
  }

  // ---- order and contents ---------------------------------------------------------------

  /** Where everything is after an insertion; entries with the same tick stay in arrival order. */
  lemma InsertAt(q: seq<Entry>, e: Entry)
    requires Sorted(q)
    ensures |Insert(q, e)| == |q| + 1 && Insert(q, e)[Place(q, e.wake)] == e
    ensures forall k :: 0 <= k < Place(q, e.wake) ==> Insert(q, e)[k] == q[k]
    ensures forall k :: Place(q, e.wake) < k <= |q| ==> Insert(q, e)[k] == q[k - 1]
    ensures forall k :: 0 <= k < |q| ==> (q[k].wake <= e.wake <==> k < Place(q, e.wake))
  {
    var i := Place(q, e.wake);
    forall k | 0 <= k < i
      ensures q[k].wake <= e.wake
    {
      assert k < i - 1 ==> q[k].wake <= q[i - 1].wake;
    }
  }

  /** Insertion keeps the queue sorted. */
  lemma InsertSorted(q: seq<Entry>, e: Entry)
    requires Sorted(q)
    ensures Sorted(Insert(q, e))
  {
    InsertAt(q, e);
    var i, r := Place(q, e.wake), Insert(q, e);
    hide Insert, Place;
    forall x, y | 0 <= x < y < |r|
      ensures r[x].wake <= r[y].wake
    {
      if x < i {
        if y < i { assert q[x].wake <= q[y].wake; }
        if y > i { assert q[x].wake <= q[y - 1].wake; }
      } else if x == i {
        assert q[y - 1].wake > e.wake;
      } else {
        assert q[x - 1].wake <= q[y - 1].wake;
      }
    }
  }

  /** Insertion adds exactly the entry. */
  lemma InsertContents(q: seq<Entry>, e: Entry)
    ensures multiset(Insert(q, e)) == multiset(q) + multiset{e}
  {
    var i := Place(q, e.wake);
    assert q == q[..i] + q[i..];
  }

  /** What a tick leaves are exactly the entries due later, in order. */
  lemma WakeKeeps(q: seq<Entry>, now: nat)
    requires Sorted(q)
    ensures Sorted(q[Due(q, now)..])
    ensures multiset(q) == multiset(q[..Due(q, now)]) + multiset(q[Due(q, now)..])
    ensures forall e :: e in q[..Due(q, now)] ==> e.wake <= now
    ensures forall e :: e in q[Due(q, now)..] ==> e.wake > now
  {
    var n := Due(q, now);
    assert q == q[..n] + q[n..];
    forall e | e in q[n..]
      ensures e.wake > now
    {
      var k :| 0 <= k < |q[n..]| && q[n..][k] == e;
      assert q[n].wake <= q[n + k].wake;
    }
  }

  // ---- runs --------------------------------------------------------------------------------

  datatype Op = Sleep(e: Entry) | Tick(now: nat)

  /** sleep_queue_enqueue refuses beyond 256 entries. */
  function Exec(q: seq<Entry>, op: Op): seq<Entry> {
    match op
    case Sleep(e) => if |q| >= 256 then q else Insert(q, e)
    case Tick(now) => q[Due(q, now)..]
  }

  function Run(q: seq<Entry>, ops: seq<Op>): seq<Entry>
    decreases |ops|
  {
    if |ops| == 0 then q else Run(Exec(q, ops[0]), ops[1..])
  }

  lemma ExecSorted(q: seq<Entry>, op: Op)
    requires Sorted(q)
    ensures Sorted(Exec(q, op))
  {
    match op
    case Sleep(e) => InsertSorted(q, e);
    case Tick(now) => WakeKeeps(q, now);
  }

  /** How often e is in the queue after one operation. */
  lemma ExecCount(q: seq<Entry>, op: Op, e: Entry)
    requires Sorted(q)
    ensures multiset(Exec(q, op))[e] ==
      match op
      case Sleep(f) => multiset(q)[e] + (if f == e && |q| < 256 then 1 else 0)
      case Tick(now) => if e.wake <= now then 0 else multiset(q)[e]
  {
    match op {
      case Sleep(f) => InsertContents(q, f);
      case Tick(now) =>
        WakeKeeps(q, now);
        if e.wake <= now {
          assert e !in q[Due(q, now)..];
        } else {
          assert e !in q[..Due(q, now)];
        }
    }
  }

  /** Never early: without a tick at or after its own, an entry stays, however many come and go. */
  lemma {:induction false} StaysUntilDue(q: seq<Entry>, ops: seq<Op>, e: Entry)
    requires Sorted(q)
    requires forall k :: 0 <= k < |ops| && ops[k].Tick? ==> ops[k].now < e.wake
    ensures Sorted(Run(q, ops)) && multiset(Run(q, ops))[e] >= multiset(q)[e]
    decreases |ops|
  {
    if |ops| > 0 {
      ExecSorted(q, ops[0]);
      ExecCount(q, ops[0], e);
      StaysUntilDue(Exec(q, ops[0]), ops[1..], e);
    }
  }

  /** Never late: the first tick at or after its own releases every copy of an entry still queued. */
  lemma ReleasedWhenDue(q: seq<Entry>, ops: seq<Op>, now: nat, e: Entry)
    requires Sorted(q) && e.wake <= now
    requires forall k :: 0 <= k < |ops| && ops[k].Tick? ==> ops[k].now < e.wake
    ensures var before := Run(q, ops);
      && e !in Exec(before, Tick(now))
      && multiset(before[..Due(before, now)])[e] == multiset(before)[e] >= multiset(q)[e]
  {
    StaysUntilDue(q, ops, e);
    var before := Run(q, ops);
    WakeKeeps(before, now);
    assert e !in before[Due(before, now)..];
  }

  // ---- the array ------------------------------------------------------------------------------

  class Queue {
    const entries: array<Entry>
    var len: nat

    ghost predicate Valid()
      reads this, entries
    {
      entries.Length == 256 && len <= 256 && Sorted(entries[..len])
    }

    ghost function Contents(): seq<Entry>
      requires len <= entries.Length
      reads this, entries
    {
      entries[..len]
    }

    constructor ()
      ensures Valid() && Contents() == [] && fresh(entries)
    {
      entries := new Entry[256](i => Entry(0, 0));
      len := 0;
    }

    /** sleep_queue_enqueue: later entries move up one place at a time. */
    method Enqueue(t: nat, wake: nat) returns (ok: bool)
      requires Valid()
      modifies `len, entries
      ensures Valid() && ok == (old(len) < 256)
      ensures Contents() == Exec(old(Contents()), Sleep(Entry(t, wake)))
    {
      ghost var q := Contents();
      var e := Entry(t, wake);
      if len >= 256 { return false; }
      InsertSorted(q, e);
      var i := MakeRoom(wake, q);
      entries[i] := e;
      len := len + 1;
      InsertFrom(entries[..len], q, e, i);
      return true;
    }

    method MakeRoom(wake: nat, ghost q: seq<Entry>) returns (i: nat)
      requires entries.Length == 256 && len == |q| < 256 && entries[..len] == q
      modifies entries
      ensures i <= |q| && (i > 0 ==> q[i - 1].wake <= wake)
      ensures forall k :: 0 <= k < i ==> entries[k] == q[k]
      ensures forall k :: i < k <= |q| ==> entries[k] == q[k - 1]
      ensures forall k :: i <= k < |q| ==> q[k].wake > wake
    {
      i := len;
      while i > 0 && entries[i - 1].wake > wake
        invariant 0 <= i <= |q|
        invariant forall k :: 0 <= k < i ==> entries[k] == q[k]
        invariant forall k :: i < k <= |q| ==> entries[k] == q[k - 1]
        invariant forall k :: i <= k < |q| ==> q[k].wake > wake
      {
        entries[i] := entries[i - 1];
        i := i - 1;
      }
    }

    /** sleep_queue_wake: the tasks it readies, and the rest moved to the front. */
    method Wake(now: nat) returns (woken: seq<nat>)
      requires Valid()
      modifies `len, entries
      ensures Valid() && Contents() == Exec(old(Contents()), Tick(now))
      ensures |woken| == Due(old(Contents()), now)
      ensures forall k :: 0 <= k < |woken| ==> woken[k] == old(Contents())[k].task
    {
      ghost var q := Contents();
      WakeKeeps(q, now);
      woken := CountDue(now, q);
      DueIs(q, now, |woken|);
      hide Sorted, Due;
      if |woken| > 0 { ShiftLeft(|woken|, q); }
      assert Contents() == q[|woken|..];
    }

    /** The first loop: one task_set_ready per due entry. */
    method CountDue(now: nat, ghost q: seq<Entry>) returns (woken: seq<nat>)
      requires len <= entries.Length && entries[..len] == q
      ensures |woken| <= |q| && (|woken| < |q| ==> q[|woken|].wake > now)
      ensures forall k :: 0 <= k < |woken| ==> woken[k] == q[k].task
      ensures forall k :: 0 <= k < |woken| ==> q[k].wake <= now
    {
      woken := [];
      while |woken| < len && entries[|woken|].wake <= now
        invariant |woken| <= len
        invariant forall k :: 0 <= k < |woken| ==> woken[k] == q[k].task
        invariant forall k :: 0 <= k < |woken| ==> q[k].wake <= now
      {
        woken := woken + [entries[|woken|].task];
      }
    }

    method ShiftLeft(i: nat, ghost q: seq<Entry>)
      requires entries.Length == 256 && i <= len == |q| <= 256 && entries[..len] == q
      modifies `len, entries
      ensures len == |q| - i && entries[..len] == q[i..]
    {
      len := len - i;
      for j := 0 to len
        invariant len == |q| - i
        invariant forall k :: 0 <= k < j ==> entries[k] == q[i + k]
        invariant forall k :: j <= k < |q| ==> entries[k] == q[k]
      {
        entries[j] := entries[i + j];
      }
    }
  }

  lemma InsertFrom(c: seq<Entry>, q: seq<Entry>, e: Entry, i: nat)
    requires |c| == |q| + 1 && i <= |q| && c[i] == e && (i > 0 ==> q[i - 1].wake <= e.wake)
    requires forall k :: 0 <= k < i ==> c[k] == q[k]
    requires forall k :: i < k <= |q| ==> c[k] == q[k - 1]
    requires forall k :: i <= k < |q| ==> q[k].wake > e.wake
    ensures c == Insert(q, e)
  {
    PlaceIs(q, e.wake, i);
    hide Place;
  }

  lemma PlaceIs(q: seq<Entry>, wake: nat, i: nat)
    requires i <= |q| && (i > 0 ==> q[i - 1].wake <= wake)
    requires forall k :: i <= k < |q| ==> q[k].wake > wake
    ensures Place(q, wake) == i
  {
    var p := Place(q, wake);
  }

  lemma DueIs(q: seq<Entry>, now: nat, i: nat)
    requires i <= |q| && (forall k :: 0 <= k < i ==> q[k].wake <= now) && (i < |q| ==> q[i].wake > now)
    ensures Due(q, now) == i
  {}
}
