/**
 The scheduler of kernel/scheduler/scheduler.c as a value: a ring of tasks in
 scan order (the first is g_task_list), the current task and the idle task.
 */
module TaskRing {
  import opened Options
  import opened Tasks

  datatype Sched = Sched(order: seq<nat>, current: Option<nat>, idle: nat, states: map<nat, TaskState>)

  /** The ring is without repetition, every task in it has a state, and idle is not in it. */
  ghost predicate Valid(s: Sched) {
    && 0 < |s.order|
    && (forall i, j :: 0 <= i < j < |s.order| ==> s.order[i] != s.order[j])
    && (forall i :: 0 <= i < |s.order| ==> s.order[i] in s.states && s.order[i] != s.idle)
    && s.idle in s.states && s.states[s.idle] != Dead
    && (s.current.Some? ==> s.current.value in s.states)
    && (s.current.Some? ==> s.current.value in s.order || s.current.value == s.idle || s.states[s.current.value] == Dead)
  }

  /** Position i + d of a ring of n, for one lap at most. */
  function Wrap(n: nat, i: nat): nat { if i < n then i else i - n }

  /** The first READY task among positions i + d, ..., i + n - 1 of the ring. */
  function ScanFrom(s: Sched, i: nat, d: nat): (r: Option<nat>)
    requires Valid(s) && i < |s.order| && d <= |s.order|
    decreases |s.order| - d
  {
    if d == |s.order| then None
    else
      var t := s.order[Wrap(|s.order|, i + d)];
      if s.states[t] == Ready then Some(t) else ScanFrom(s, i, d + 1)
  }

  function IndexOf(order: seq<nat>, t: nat): (i: nat)
    requires t in order
    ensures i < |order| && order[i] == t
  {
    if order[0] == t then 0 else
      assert order[1..] == order[1..];
      1 + IndexOf(order[1..], t)
  }

  /** scheduler_pick_next */
  function PickNext(s: Sched): nat
    requires Valid(s)
  {
    match s.current
    case None => s.order[0]
    case Some(c) =>
      if c == s.idle || s.states[c] == Dead then
        match ScanFrom(s, 0, 0) { case Some(t) => t case None => s.idle }
      else
        match ScanFrom(s, IndexOf(s.order, c), 1)
        case Some(t) => t
        case None => if s.states[c] == Ready || s.states[c] == Running then c else s.idle
  }

  /** The state part of schedule(). */
  function Schedule(s: Sched): Sched
    requires Valid(s)
  {
    var n := PickNext(s);
    if s.current == Some(n) then s else
      var st := if s.current.Some? && s.states[s.current.value] == Running then s.states[s.current.value := Ready] else s.states;
      s.(current := Some(n), states := st[n := Running])
  }

  // ---- picking -----------------------------------------------------------------------

  /** A scan stops at or before any READY task. */
  lemma {:induction false} ScanFinds(s: Sched, i: nat, d: nat, e: nat) returns (f: nat)
    requires Valid(s) && i < |s.order| && d <= e < |s.order|
    requires s.states[s.order[Wrap(|s.order|, i + e)]] == Ready
    ensures d <= f <= e && ScanFrom(s, i, d) == Some(s.order[Wrap(|s.order|, i + f)])
    decreases |s.order| - d
  {
    if s.states[s.order[Wrap(|s.order|, i + d)]] == Ready {
      f := d;
    } else {
      f := ScanFinds(s, i, d + 1, e);
    }
  }

  lemma {:induction false} ScanReady(s: Sched, i: nat, d: nat)
    requires Valid(s) && i < |s.order| && d <= |s.order|
    ensures ScanFrom(s, i, d).Some? ==> ScanFrom(s, i, d).value in s.order && s.states[ScanFrom(s, i, d).value] == Ready
    decreases |s.order| - d
  {
    if d < |s.order| {
      ScanReady(s, i, d + 1);
    }
  }

  /** Whoever is picked is READY, or already current and able to run, or idle; or it is the very first pick. */
  lemma PickIsRunnable(s: Sched)
    requires Valid(s)
    ensures var n := PickNext(s);
      && n in s.states && (n in s.order || n == s.idle)
      && (s.current.Some? ==> n == s.idle || s.states[n] == Ready || (s.current == Some(n) && s.states[n] == Running))
  {
    if s.current.Some? {
      ScanReady(s, 0, 0);
      if s.current.value in s.order { ScanReady(s, IndexOf(s.order, s.current.value), 1); }
    }
  }

  lemma ScheduleKeeps(s: Sched)
    requires Valid(s)
    ensures Valid(Schedule(s)) && Schedule(s).order == s.order && Schedule(s).idle == s.idle
  {
    PickIsRunnable(s);
  }

  /** schedule() changes two states at most: the task it leaves goes from RUNNING to READY, the one it picks runs. */
  lemma ScheduleStates(s: Sched, x: nat)
    requires Valid(s) && x in s.states
    ensures var s' := Schedule(s);
      && s'.current == Some(PickNext(s)) && s'.states.Keys == s.states.Keys
      && s'.states[x] == (if s'.current == s.current then s.states[x]
                          else if s'.current == Some(x) then Running
                          else if s.current == Some(x) && s.states[x] == Running then Ready
                          else s.states[x])
  {
    PickIsRunnable(s);
    hide PickNext;
  }

  // ---- bounded waiting ----------------------------------------------------------------

  /** How many calls x may still have to wait. */
  ghost function Distance(s: Sched, x: nat): nat
    requires Valid(s) && x in s.order
  {
    var p := IndexOf(s.order, x);
    if s.current.Some? && s.current.value in s.order then Ahead(|s.order|, IndexOf(s.order, s.current.value), p)
    else p + 1
  }

  /** How far position p lies ahead of position c on a ring of n. */
  function Ahead(n: nat, c: nat, p: nat): (e: nat)
    requires c < n && p < n
    ensures 1 <= e <= n && Wrap(n, c + e) == p
  {
    if c < p then p - c else p + n - c
  }

  lemma IndexUnique(s: Sched, i: nat)
    requires Valid(s) && i < |s.order|
    ensures IndexOf(s.order, s.order[i]) == i
  {
    var j := IndexOf(s.order, s.order[i]);
  }

  /** The pick is x or a task that x is closer ahead of. */
  lemma PickNearer(s: Sched, x: nat) returns (q: nat)
    requires Valid(s) && x in s.order && s.states[x] == Ready
    requires s.current.Some? ==> s.states[s.current.value] != Dead && s.current.value != x
    ensures q < |s.order| && PickNext(s) == s.order[q]
    ensures s.order[q] == x || Ahead(|s.order|, q, IndexOf(s.order, x)) < Distance(s, x)
  {
    var n, p := |s.order|, IndexOf(s.order, x);
    if s.current.Some? && s.current.value in s.order {
      var c := IndexOf(s.order, s.current.value);
      var f := ScanFinds(s, c, 1, Ahead(n, c, p));
      q := Wrap(n, c + f);
    } else if s.current.Some? {
      q := ScanFinds(s, 0, 0, p);
    } else {
      q := 0;
    }
  }

  /** While x is READY, a call makes x current or brings it closer. */
  lemma CloserOrCurrent(s: Sched, x: nat)
    requires Valid(s) && x in s.order && s.states[x] == Ready
    requires s.current.Some? ==> s.states[s.current.value] != Dead && s.current.value != x
    ensures Schedule(s).current == Some(x)
      || (Valid(Schedule(s)) && Distance(Schedule(s), x) < Distance(s, x)
          && Schedule(s).current.Some? && Schedule(s).current.value in s.order)
  {
    ScheduleKeeps(s);
    var q := PickNearer(s, x);
    IndexUnique(s, q);
    hide PickNext, Valid, IndexOf, Ahead;
  }

  /** What other tasks and interrupts may do between two calls: anything to other tasks' states short of killing. */
  ghost predicate Between(s: Sched, s': Sched, x: nat) {
    && Valid(s') && s'.order == s.order && s'.current == s.current && s'.idle == s.idle
    && (forall t :: t in s'.states ==> s'.states[t] != Dead)
    && x in s'.order && s'.states[x] == Ready
  }

  /** x is READY at each of these calls and none of them makes it current. */
  ghost predicate PassedOver(s: Sched, calls: seq<Sched>, x: nat)
    decreases |calls|
  {
    if |calls| == 0 then true
    else
      && Between(s, calls[0], x) && calls[0].current != Some(x)
      && Schedule(calls[0]).current != Some(x) && PassedOver(Schedule(calls[0]), calls[1..], x)
  }

  /**
   Bounded waiting: in a fixed ring of n tasks with no deaths, a READY task is
   passed over by fewer than n calls of schedule(), wherever the scan starts
   and whatever happens to the other tasks in between; the next call runs it.
   */
  lemma {:induction false} BoundedWaiting(s: Sched, calls: seq<Sched>, x: nat)
    requires Valid(s) && x in s.order && PassedOver(s, calls, x)
    ensures |calls| < Distance(s, x) <= |s.order|
    decreases |calls|
  {
    if |calls| > 0 {
      var e := calls[0];
      CloserOrCurrent(e, x);
      ScheduleKeeps(e);
      BoundedWaiting(Schedule(e), calls[1..], x);
    }
  }

  // ---- killing a task --------------------------------------------------------------------

  /** The ring after scheduler_remove. */
  function Without(order: seq<nat>, t: nat): seq<nat>
    requires t in order
  {
    order[..IndexOf(order, t)] + order[IndexOf(order, t) + 1..]
  }

  function KillTask(s: Sched, t: nat): Sched
    requires t in s.order
  {
    s.(order := Without(s.order, t), states := s.states[t := Dead])
  }

  lemma KillTaskKeeps(s: Sched, t: nat)
    requires Valid(s) && t in s.order
    ensures Valid(KillTask(s, t)) <==> |s.order| > 1
    ensures t != s.order[0] ==> |s.order| > 1 && KillTask(s, t).order[0] == s.order[0]
    ensures forall x :: x in Without(s.order, t) <==> x in s.order && x != t
  {
    WithoutIs(s.order, t);
    hide Without, IndexOf;
  }

  lemma WithoutIs(order: seq<nat>, t: nat)
    requires t in order && forall i, j :: 0 <= i < j < |order| ==> order[i] != order[j]
    ensures |Without(order, t)| == |order| - 1
    ensures forall i, j :: 0 <= i < j < |Without(order, t)| ==> Without(order, t)[i] != Without(order, t)[j]
    ensures forall x :: x in Without(order, t) <==> x in order && x != t
    ensures t != order[0] ==> |order| > 1 && Without(order, t)[0] == order[0]
  {
    var i, rest := IndexOf(order, t), Without(order, t);
    assert forall k :: 0 <= k < |rest| ==> rest[k] == order[if k < i then k else k + 1];
    hide IndexOf, Without;
    forall x | x in rest
      ensures x in order && x != t
    {
      var k :| 0 <= k < |rest| && rest[k] == x;
      assert order[if k < i then k else k + 1] == x;
    }
    forall x | x in order && x != t
      ensures x in rest
    {
      var k :| 0 <= k < |order| && order[k] == x;
      assert rest[if k < i then k else k - 1] == x;
    }
  }
}
