/**
 kernel/scheduler/scheduler.c: the circular doubly linked ready ring, edited and
 walked through its links.  `order` is the ring it represents.
 */
module Scheduler {
  import opened Options
  import opened Tasks
  import opened TaskRing

  predicate Distinct(order: seq<nat>) { forall i, j :: 0 <= i < j < |order| ==> order[i] != order[j] }

  /** Task i's links name its two neighbours around the ring. */
  ghost predicate LinkIs(next: map<nat, nat>, prev: map<nat, nat>, order: seq<nat>, i: nat)
    requires i < |order|
  {
    && order[i] in next && next[order[i]] == order[Wrap(|order|, i + 1)]
    && order[i] in prev && prev[order[i]] == order[if i == 0 then |order| - 1 else i - 1]
  }

  ghost predicate Ringed(next: map<nat, nat>, prev: map<nat, nat>, order: seq<nat>) {
    Distinct(order) && forall i: nat :: i < |order| ==> LinkIs(next, prev, order, i)
  }

  // ---- the link edits, as lemmas ----------------------------------------------------------

  /** scheduler_add on a non-empty ring puts the task just before the head, that is last in scan order. */
  lemma AddRinged(next: map<nat, nat>, prev: map<nat, nat>, order: seq<nat>, t: nat)
    requires Ringed(next, prev, order) && |order| > 0 && t !in order
    ensures order[0] in prev && LinkIs(next, prev, order, |order| - 1)
    ensures var h, l := order[0], prev[order[0]];
      Ringed(next[t := h][l := t], prev[t := l][h := t], order + [t])
  {
    var n := |order|;
    assert LinkIs(next, prev, order, 0) && LinkIs(next, prev, order, n - 1);
    var h, l, order' := order[0], prev[order[0]], order + [t];
    var next', prev' := next[t := h][l := t], prev[t := l][h := t];
    forall i: nat | i < |order'|
      ensures LinkIs(next', prev', order', i)
    {
      if i < n { assert LinkIs(next, prev, order, i); }
    }
  }

  /** scheduler_remove unlinks exactly the task at position i. */
  lemma RemoveRinged(next: map<nat, nat>, prev: map<nat, nat>, order: seq<nat>, i: nat)
    requires Ringed(next, prev, order) && i < |order|
    ensures LinkIs(next, prev, order, i)
    ensures var t := order[i];
      Ringed(next[prev[t] := next[t]], prev[next[t] := prev[t]], order[..i] + order[i + 1..])
  {
    var t, rest := order[i], order[..i] + order[i + 1..];
    assert LinkIs(next, prev, order, i);
    RestDistinct(order, i);
    var next', prev' := next[prev[t] := next[t]], prev[next[t] := prev[t]];
    forall k: nat | k < |rest|
      ensures LinkIs(next', prev', rest, k)
    {
      LinkKept(next, prev, order, i, k);
    }
  }

  lemma RestDistinct(order: seq<nat>, i: nat)
    requires Distinct(order) && i < |order|
    ensures var rest := order[..i] + order[i + 1..];
      Distinct(rest) && forall k :: 0 <= k < |rest| ==> rest[k] == order[if k < i then k else k + 1]
  {}

  /** The links of the task now at position k, after the task at i is unlinked. */
  lemma LinkKept(next: map<nat, nat>, prev: map<nat, nat>, order: seq<nat>, i: nat, k: nat)
    requires Ringed(next, prev, order) && i < |order| && k < |order| - 1 && LinkIs(next, prev, order, i)
    ensures var t := order[i];
      LinkIs(next[prev[t] := next[t]], prev[next[t] := prev[t]], order[..i] + order[i + 1..], k)
  {
    RestDistinct(order, i);
    assert LinkIs(next, prev, order, if k < i then k else k + 1);
  }

  // ---- removing the head ----------------------------------------------------------------------

  function Follow(next: map<nat, nat>, t: nat, k: nat): nat
    decreases k
  {
    if k == 0 || t !in next then t else Follow(next, next[t], k - 1)
  }

  lemma {:induction false} FollowRing(next: map<nat, nat>, prev: map<nat, nat>, order: seq<nat>, i: nat, k: nat)
    requires Ringed(next, prev, order) && i < |order| && k <= |order|
    ensures Follow(next, order[i], k) == order[Wrap(|order|, i + k)]
    decreases k
  {
    if k > 0 {
      assert LinkIs(next, prev, order, i);
      if i + 1 < |order| {
        FollowRing(next, prev, order, i + 1, k - 1);
      } else {
        FollowRing(next, prev, order, 0, k - 1);
      }
    }
  }

  /** Whatever the number of steps, a walk that starts inside the ring stays inside it. */
  lemma {:induction false} FollowStays(next: map<nat, nat>, prev: map<nat, nat>, order: seq<nat>, i: nat, k: nat)
    requires Ringed(next, prev, order) && i < |order|
    ensures Follow(next, order[i], k) in order
    decreases k
  {
    if k > 0 {
      assert LinkIs(next, prev, order, i);
      FollowStays(next, prev, order, Wrap(|order|, i + 1), k - 1);
    }
  }

  /** The scan from the head stops after k steps: at a READY task, or back at the head. */
  predicate StopsAfter(next: map<nat, nat>, ready: set<nat>, head: nat, k: nat) {
    Follow(next, head, k) in ready || (k > 0 && Follow(next, head, k) == head)
  }

  /** After another task is removed the scan comes back to the head. */
  lemma OtherRemoved(next: map<nat, nat>, prev: map<nat, nat>, order: seq<nat>, i: nat, ready: set<nat>)
    requires Ringed(next, prev, order) && 0 < i < |order| && LinkIs(next, prev, order, i)
    ensures StopsAfter(next[prev[order[i]] := next[order[i]]], ready, order[0], |order| - 1)
  {
    hide Ringed, Follow;
    var t, rest := order[i], order[..i] + order[i + 1..];
    RemoveRinged(next, prev, order, i);
    assert rest[0] == order[0];
    FollowRing(next[prev[t] := next[t]], prev[next[t] := prev[t]], rest, 0, |rest|);
  }

  /** The removed head still leads to its old successor. */
  lemma HeadLeads(next: map<nat, nat>, prev: map<nat, nat>, order: seq<nat>, k: nat)
    requires Distinct(order) && |order| > 1 && LinkIs(next, prev, order, 0) && k > 0
    ensures var next' := next[prev[order[0]] := next[order[0]]];
      Follow(next', order[0], k) == Follow(next', order[1], k - 1)
  {}

  lemma HeadUnlinked(next: map<nat, nat>, prev: map<nat, nat>, order: seq<nat>)
    requires Ringed(next, prev, order) && |order| > 1 && LinkIs(next, prev, order, 0)
    ensures var t := order[0]; Ringed(next[prev[t] := next[t]], prev[next[t] := prev[t]], order[1..])
  {
    hide Ringed;
    RemoveRinged(next, prev, order, 0);
    assert order[..0] + order[0 + 1..] == order[1..];
  }

  lemma RingWalk(next: map<nat, nat>, prev: map<nat, nat>, order: seq<nat>, k: nat)
    requires Ringed(next, prev, order) && |order| > 0
    ensures Follow(next, order[0], k) in order && (k < |order| ==> Follow(next, order[0], k) == order[k])
  {
    hide Ringed, Follow;
    FollowStays(next, prev, order, 0, k);
    if k < |order| { FollowRing(next, prev, order, 0, k); }
  }

  /** After the head is removed the scan walks the rest of the ring, for ever unless it meets a READY task. */
  lemma HeadRemoved(next: map<nat, nat>, prev: map<nat, nat>, order: seq<nat>, k: nat)
    requires Ringed(next, prev, order) && |order| > 1 && LinkIs(next, prev, order, 0) && k > 0
    ensures var next' := next[prev[order[0]] := next[order[0]]];
      && Follow(next', order[0], k) in order[1..]
      && (k < |order| ==> Follow(next', order[0], k) == order[k])
  {
    hide Ringed, Follow, Distinct;
    var t := order[0];
    IsDistinct(next, prev, order);
    HeadUnlinked(next, prev, order);
    HeadLeads(next, prev, order, k);
    RingWalk(next[prev[t] := next[t]], prev[next[t] := prev[t]], order[1..], k - 1);
  }

  lemma IsDistinct(next: map<nat, nat>, prev: map<nat, nat>, order: seq<nat>)
    requires Ringed(next, prev, order)
    ensures Distinct(order)
  {}

  /** The only task of a ring is its own successor, also after its removal. */
  lemma OnlyRemoved(next: map<nat, nat>, prev: map<nat, nat>, order: seq<nat>, ready: set<nat>)
    requires Ringed(next, prev, order) && |order| == 1 && LinkIs(next, prev, order, 0)
    ensures StopsAfter(next[prev[order[0]] := next[order[0]]], ready, order[0], 1)
  {
    var t := order[0];
    assert next[prev[t] := next[t]] == next;
    assert Follow(next, t, 1) == Follow(next, next[t], 0) == t;
  }

  /**
   scheduler_remove leaves g_task_list alone.  After it has removed a task, now
   dead, the scan from the old head ends if and only if that task was alone, or
   was not the head, or some task left in the ring is READY.
   */
  lemma ScanEndsIff(next: map<nat, nat>, prev: map<nat, nat>, order: seq<nat>, i: nat, ready: set<nat>)
    requires Ringed(next, prev, order) && i < |order| && LinkIs(next, prev, order, i) && order[i] !in ready
    ensures var next' := next[prev[order[i]] := next[order[i]]];
      (exists k: nat :: StopsAfter(next', ready, order[0], k)) <==>
      |order| == 1 || i != 0 || exists j :: 0 < j < |order| && order[j] in ready
  {
    hide Ringed, LinkIs, Follow;
    if |order| == 1 {
      OnlyRemoved(next, prev, order, ready);
    } else if i != 0 {
      OtherRemoved(next, prev, order, i, ready);
    } else {
      HeadScanEndsIff(next, prev, order, ready);
    }
  }

  lemma HeadScanEndsIff(next: map<nat, nat>, prev: map<nat, nat>, order: seq<nat>, ready: set<nat>)
    requires Ringed(next, prev, order) && |order| > 1 && LinkIs(next, prev, order, 0) && order[0] !in ready
    ensures var next' := next[prev[order[0]] := next[order[0]]];
      (exists k: nat :: StopsAfter(next', ready, order[0], k)) <==> exists j :: 0 < j < |order| && order[j] in ready
  {
    hide Follow;
    IsDistinct(next, prev, order);
    var next' := next[prev[order[0]] := next[order[0]]];
    FollowNone(next', order[0]);
    if k: nat :| StopsAfter(next', ready, order[0], k) {
      if k > 0 {
        HeadRemoved(next, prev, order, k);
        var j :| 0 <= j < |order[1..]| && order[1..][j] == Follow(next', order[0], k);
        assert order[j + 1] == Follow(next', order[0], k);
      }
    }
    if j :| 0 < j < |order| && order[j] in ready {
      HeadRemoved(next, prev, order, j);
      assert StopsAfter(next', ready, order[0], j);
    }
  }

  lemma FollowNone(next: map<nat, nat>, t: nat)
    ensures Follow(next, t, 0) == t
  {}

  // ---- the scheduler -----------------------------------------------------------------------------

  class Ring {
    var next: map<nat, nat>
    var prev: map<nat, nat>
    var head: nat
    var current: Option<nat>
    var states: map<nat, TaskState>
    const idle: nat
    ghost var order: seq<nat>

    ghost predicate Valid()
      reads this
    {
      TaskRing.Valid(View()) && Ringed(next, prev, order) && head == order[0]
    }

    ghost function View(): Sched
      reads this
    {
      Sched(order, current, idle, states)
    }

    /** scheduler_init and the first scheduler_add. */
    constructor (idle: nat, first: nat)
      requires idle != first
      ensures Valid() && View() == Sched([first], None, idle, map[idle := Ready, first := Ready])
    {
      this.idle := idle;
      next, prev, head := map[first := first], map[first := first], first;
      current, states, order := None, map[idle := Ready, first := Ready], [first];
    }

    /** scheduler_add of a new task. */
    method Add(t: nat)
      requires Valid() && t !in states
      modifies `next, `prev, `states, `order
      ensures Valid() && View() == old(View()).(order := old(order) + [t], states := old(states)[t := Ready])
    {
      AddRinged(next, prev, order, t);
      states := states[t := Ready];
      var last := prev[head];
      prev := prev[t := last];
      next := next[t := head];
      next := next[last := t];
      prev := prev[head := t];
      order := order + [t];
    }

    /** scheduler_remove of a dying task.  The head is left alone, so the ring stays valid unless it is the one removed. */
    method Remove(t: nat)
      requires Valid() && t in order
      modifies `next, `prev, `states, `order
      ensures View() == KillTask(old(View()), t) && Ringed(next, prev, order)
      ensures Valid() <==> t != head
    {
      KillTaskKeeps(View(), t);
      RemoveRinged(next, prev, order, IndexOf(order, t));
      hide IndexOf, TaskRing.Valid;
      states := states[t := Dead];
      var p, n := prev[t], next[t];
      next := next[p := n];
      prev := prev[n := p];
      order := Without(order, t);
      assert t == head ==> head !in order;
    }

    /** The loops of scheduler_pick_next: the first READY task from t on, before coming back to `stop`. */
    method Scan(t: nat, stop: nat, ghost i: nat, ghost d: nat) returns (r: Option<nat>)
      requires Valid() && i < |order| && d <= 1 && stop == order[i] && t == order[Wrap(|order|, i + d)]
      requires d == 1 ==> |order| > 1
      ensures r == ScanFrom(View(), i, d)
    {
      var u := t;
      ghost var e := d;
      while true
        invariant d <= e < |order| && u == order[Wrap(|order|, i + e)]
        invariant ScanFrom(View(), i, d) == ScanFrom(View(), i, e)
        decreases |order| - e
      {
        if states[u] == Ready { return Some(u); }
        assert LinkIs(next, prev, order, Wrap(|order|, i + e));
        u := next[u];
        e := e + 1;
        if u == stop { return None; }
      }
    }

    /** scheduler_pick_next */
    method PickNext() returns (r: nat)
      requires Valid()
      ensures r == TaskRing.PickNext(View())
    {
      if current == None { return head; }
      var c: nat := current.value;
      if c == idle || states[c] == Dead {
        var hit := Scan(head, head, 0, 0);
        return if hit.Some? then hit.value else idle;
      }
      ghost var i := IndexOf(order, c);
      assert LinkIs(next, prev, order, i);
      if next[c] != c {
        var hit := Scan(next[c], c, i, 1);
        if hit.Some? { return hit.value; }
      }
      return if states[c] == Ready || states[c] == Running then c else idle;
    }

    /** The state part of schedule(). */
    method Schedule()
      requires Valid()
      modifies `current, `states
      ensures Valid() && View() == TaskRing.Schedule(old(View()))
    {
      ScheduleKeeps(View());
      var n := PickNext();
      if current == Some(n) { return; }
      if current.Some? && states[current.value] == Running {
        states := states[current.value := Ready];
      }
      current := Some(n);
      states := states[n := Running];
    }
  }
}
