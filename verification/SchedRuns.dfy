/** Every interleaving of schedule, block, ready, sleep, tick, kill and add. */
module SchedRuns {
  import opened Options
  import opened Tasks
  import opened TaskRing
  import opened SleepQueue

  datatype State = State(s: Sched, queue: seq<Entry>)

  datatype Action =
    | Call | Wakeup(t: nat) | Block(t: nat) | SleepCall(t: nat, wake: nat) | TimerTick(now: nat) | Kill(t: nat) | Add(t: nat)

  /** Only the current task is RUNNING; nobody in the ring is DEAD; the sleep queue is sorted. */
  ghost predicate Inv(st: State) {
    && Valid(st.s) && Sorted(st.queue) && |st.queue| <= 256
    && (forall t :: t in st.s.states && st.s.states[t] == Running ==> st.s.current == Some(t))
    && (forall t :: t in st.s.order ==> st.s.states[t] != Dead)
    && (forall e :: e in st.queue ==> e.task != st.s.idle)
  }

  /** Nobody blocks or kills idle or kills the head of the ring; the first pick finds the head READY. */
  predicate Enabled(st: State, a: Action) {
    match a
    case Call => st.s.current == None ==> |st.s.order| > 0 && st.s.order[0] in st.s.states && st.s.states[st.s.order[0]] == Ready
    case Wakeup(t) => t in st.s.states
    case Block(t) => t in st.s.states && t != st.s.idle
    case SleepCall(t, _) => t in st.s.states && t != st.s.idle
    case TimerTick(_) => true
    case Kill(t) => |st.s.order| > 0 && t in st.s.order && t != st.s.order[0]
    case Add(t) => t !in st.s.states
  }

  function ReadyAll(states: map<nat, TaskState>, tasks: seq<Entry>): map<nat, TaskState> {
    map t | t in states :: if exists e :: e in tasks && e.task == t then SetReady(states[t]) else states[t]
  }

  function Exec(st: State, a: Action): State
    requires Valid(st.s) && Enabled(st, a)
  {
    match a
    case Call => st.(s := Schedule(st.s))
    case Wakeup(t) => st.(s := st.s.(states := st.s.states[t := SetReady(st.s.states[t])]))
    case Block(t) => st.(s := st.s.(states := st.s.states[t := SetBlocked(st.s.states[t])]))
    case SleepCall(t, wake) =>
      if |st.queue| >= 256 then st
      else State(st.s.(states := st.s.states[t := SetBlocked(st.s.states[t])]), Insert(st.queue, Entry(t, wake)))
    case TimerTick(now) =>
      State(st.s.(states := ReadyAll(st.s.states, st.queue[..Due(st.queue, now)])), st.queue[Due(st.queue, now)..])
    case Kill(t) => st.(s := KillTask(st.s, t))
    case Add(t) => st.(s := st.s.(order := st.s.order + [t], states := st.s.states[t := Ready]))
  }

  /** What one step may do to a task: DEAD is final, and only a READY task or idle starts to run. */
  ghost predicate StepOk(s: Sched, s': Sched) {
    && (forall t :: t in s.states ==> t in s'.states)
    && (forall t :: t in s.states && s.states[t] == Dead ==> s'.states[t] == Dead)
    && (forall t :: t in s'.states && s'.states[t] == Running && s'.current != s.current ==>
          t in s.states && (s.states[t] == Ready || t == s.idle))
  }

  lemma CallKeeps(st: State)
    requires Inv(st) && Enabled(st, Call)
    ensures Inv(Exec(st, Call)) && StepOk(st.s, Exec(st, Call).s)
  {
    ScheduleKeeps(st.s);
    PickIsRunnable(st.s);
  }

  lemma KillKeeps(st: State, t: nat)
    requires Inv(st) && Enabled(st, Kill(t))
    ensures Inv(Exec(st, Kill(t))) && StepOk(st.s, Exec(st, Kill(t)).s)
  {
    KillTaskKeeps(st.s, t);
    hide Without;
  }

  lemma TickKeeps(st: State, now: nat)
    requires Inv(st)
    ensures Inv(Exec(st, TimerTick(now))) && StepOk(st.s, Exec(st, TimerTick(now)).s)
  {
    hide Due;
    WakeKeeps(st.queue, now);
    var due := Due(st.queue, now);
    assert forall e :: e in st.queue[due..] || e in st.queue[..due] ==> e in st.queue;
  }

  lemma SleepKeeps(st: State, t: nat, wake: nat)
    requires Inv(st) && Enabled(st, SleepCall(t, wake))
    ensures Inv(Exec(st, SleepCall(t, wake))) && StepOk(st.s, Exec(st, SleepCall(t, wake)).s)
  {
    if |st.queue| < 256 {
      InsertSorted(st.queue, Entry(t, wake));
      InsertAt(st.queue, Entry(t, wake));
      var q := Insert(st.queue, Entry(t, wake));
      forall e | e in q
        ensures e.task != st.s.idle
      {
        var k :| 0 <= k < |q| && q[k] == e;
      }
    }
  }

  lemma ExecKeeps(st: State, a: Action)
    requires Inv(st) && Enabled(st, a)
    ensures Inv(Exec(st, a)) && StepOk(st.s, Exec(st, a).s)
  {
    match a {
      case Call => CallKeeps(st);
      case SleepCall(t, wake) => SleepKeeps(st, t, wake);
      case TimerTick(now) => TickKeeps(st, now);
      case Kill(t) => KillKeeps(st, t);
      case _ =>
    }
  }

  ghost predicate Run(st: State, actions: seq<Action>, end: State)
    requires Inv(st)
    decreases |actions|
  {
    if |actions| == 0 then end == st
    else Enabled(st, actions[0]) && (ExecKeeps(st, actions[0]); Run(Exec(st, actions[0]), actions[1..], end))
  }

  /** Over every run: at most the current task is RUNNING, the dead stay dead, and nobody in the ring is dead. */
  lemma {:induction false} RunSafe(st: State, actions: seq<Action>, end: State)
    requires Inv(st) && Run(st, actions, end)
    ensures Inv(end)
    ensures forall t :: t in st.s.states && st.s.states[t] == Dead ==> t in end.s.states && end.s.states[t] == Dead
    decreases |actions|
  {
    if |actions| > 0 {
      ExecKeeps(st, actions[0]);
      RunSafe(Exec(st, actions[0]), actions[1..], end);
    }
  }

  // ---- who changes a task's state -------------------------------------------------------------

  /** The tick releases an entry of x. */
  ghost predicate DueFor(queue: seq<Entry>, now: nat, x: nat) {
    exists e :: e in queue && e.task == x && e.wake <= now
  }

  /** After a tick exactly the BLOCKED tasks with a due entry have become READY. */
  lemma TickStates(st: State, now: nat, x: nat)
    requires Inv(st) && x in st.s.states
    ensures var st' := Exec(st, TimerTick(now));
      && x in st'.s.states && st'.s.current == st.s.current
      && st'.s.states[x] == (if st.s.states[x] == Blocked && DueFor(st.queue, now, x) then Ready else st.s.states[x])
      && !DueFor(st'.queue, now, x)
  {
    hide Due, Valid, Sorted;
    DuePart(st.queue, now, x);
  }

  /** The entries a tick takes off the queue are the due ones. */
  lemma DuePart(queue: seq<Entry>, now: nat, x: nat)
    requires Sorted(queue)
    ensures var n := Due(queue, now);
      && ((exists e :: e in queue[..n] && e.task == x) <==> DueFor(queue, now, x)) && !DueFor(queue[n..], now, x)
  {
    hide Due;
    WakeKeeps(queue, now);
    var n := Due(queue, now);
    var due, later := queue[..n], queue[n..];
    SplitsInto(queue, n);
    if e :| e in queue && e.task == x && e.wake <= now {
      assert e in due;
    }
    if e :| e in due && e.task == x {
      assert e in queue && e.wake <= now;
    }
  }

  lemma SplitsInto(queue: seq<Entry>, n: nat)
    requires n <= |queue|
    ensures forall e :: e in queue <==> e in queue[..n] || e in queue[n..]
  {
    assert queue == queue[..n] + queue[n..];
  }

  /** The action blocks x: it says so itself, or goes to sleep and the queue has room. */
  predicate Blocks(st: State, a: Action, x: nat) {
    a == Block(x) || (a.SleepCall? && a.t == x && |st.queue| < 256)
  }

  /** The action readies x: it wakes x, or is the tick x waits for. */
  ghost predicate Readies(st: State, a: Action, x: nat) {
    a == Wakeup(x) || (a.TimerTick? && DueFor(st.queue, a.now, x))
  }

  /** The state of every task after every action. */
  lemma StateAfter(st: State, a: Action, x: nat)
    requires Inv(st) && Enabled(st, a) && x in st.s.states
    ensures x in Exec(st, a).s.states
    ensures Exec(st, a).s.states[x] ==
      var b, s' := st.s.states[x], Exec(st, a).s;
      if a == Kill(x) then Dead
      else if Blocks(st, a, x) then (if b == Dead then Dead else Blocked)
      else if Readies(st, a, x) then (if b == Blocked then Ready else b)
      else if a.Call? && s'.current != st.s.current && s'.current == Some(x) then Running
      else if a.Call? && s'.current != st.s.current && b == Running then Ready
      else b
  {
    hide Due, DueFor, ReadyAll, PickNext, Schedule, Without;
    match a {
      case Call => ScheduleStates(st.s, x);
      case TimerTick(now) => TickStates(st, now, x);
      case _ =>
    }
  }

  /** A task never blocks or dies by the doing of others: only by its own Block or SleepCall, or a Kill. */
  lemma {:induction false} RunnableStays(st: State, actions: seq<Action>, end: State, x: nat)
    requires Inv(st) && Run(st, actions, end) && x in st.s.states && (st.s.states[x] == Ready || st.s.states[x] == Running)
    requires forall k :: 0 <= k < |actions| ==> !Stops(actions[k], x)
    ensures x in end.s.states && (end.s.states[x] == Ready || end.s.states[x] == Running)
    decreases |actions|
  {
    if |actions| > 0 {
      ExecKeeps(st, actions[0]);
      assert !Stops(actions[0], x);
      StateAfter(st, actions[0], x);
      hide Exec;
      RunnableStays(Exec(st, actions[0]), actions[1..], end, x);
    }
  }

  predicate Stops(a: Action, x: nat) { a == Block(x) || (a.SleepCall? && a.t == x) || a == Kill(x) }

  // ---- a preempted task runs again ----------------------------------------------------------------

  function Calls(actions: seq<Action>): nat {
    if actions == [] then 0 else (if actions[0].Call? then 1 else 0) + Calls(actions[1..])
  }

  /** No call of the run makes x current. */
  ghost predicate NeverPicks(st: State, actions: seq<Action>, x: nat)
    requires Inv(st)
    decreases |actions|
  {
    |actions| > 0 && Enabled(st, actions[0]) ==>
      (ExecKeeps(st, actions[0]);
       Exec(st, actions[0]).s.current != Some(x) && NeverPicks(Exec(st, actions[0]), actions[1..], x))
  }

  /** The ring stays as it is, and x does not stop by itself. */
  predicate Steady(a: Action, x: nat) { !a.Kill? && !a.Add? && !Stops(a, x) }

  /** Waiting for its turn: x is in the ring, able to run and not current, and the current task is alive. */
  ghost predicate Waits(st: State, x: nat) {
    && x in st.s.order && x in st.s.states && (st.s.states[x] == Ready || st.s.states[x] == Running)
    && st.s.current.Some? && st.s.current != Some(x)
    && st.s.current.value in st.s.states && st.s.states[st.s.current.value] != Dead
  }

  lemma WaitsStep(st: State, a: Action, x: nat)
    requires Inv(st) && Enabled(st, a) && Steady(a, x) && Waits(st, x) && Exec(st, a).s.current != Some(x)
    ensures Inv(Exec(st, a)) && Waits(Exec(st, a), x)
    ensures Distance(Exec(st, a).s, x) + (if a.Call? then 1 else 0) <= Distance(st.s, x)
    ensures Exec(st, a).s.order == st.s.order
  {
    hide PickNext, Schedule, ReadyAll, Due;
    ExecKeeps(st, a);
    StateAfter(st, a, x);
    if a.Call? {
      CloserOrCurrent(st.s, x);
      ScheduleKeeps(st.s);
      ScheduleStates(st.s, st.s.current.value);
      var c := Exec(st, a).s.current.value;
      ScheduleStates(st.s, c);
      hide Distance;
    } else {
      StateAfter(st, a, st.s.current.value);
    }
  }

  /** While it waits, fewer calls pass a task over than there are tasks in the ring, whatever else happens. */
  lemma {:induction false} RunsInTurn(st: State, actions: seq<Action>, end: State, x: nat)
    requires Inv(st) && Run(st, actions, end) && Waits(st, x) && NeverPicks(st, actions, x)
    requires forall k :: 0 <= k < |actions| ==> Steady(actions[k], x)
    ensures Calls(actions) < Distance(st.s, x) <= |st.s.order|
    decreases |actions|
  {
    hide Exec, Valid, Distance, Stops;
    DistanceInRing(st, x);
    if |actions| > 0 {
      assert Steady(actions[0], x);
      WaitsStep(st, actions[0], x);
      RunsInTurn(Exec(st, actions[0]), actions[1..], end, x);
    }
  }

  lemma DistanceInRing(st: State, x: nat)
    requires Inv(st) && x in st.s.order
    ensures 0 < Distance(st.s, x) <= |st.s.order|
  {}

  /** A task preempted while it runs is READY, and runs again within as many calls as the ring has tasks. */
  lemma PreemptedRunsAgain(st: State, actions: seq<Action>, end: State, x: nat)
    requires Inv(st) && st.s.current == Some(x) && x in st.s.order && st.s.states[x] == Running
    requires Enabled(st, Call) && Exec(st, Call).s.current != Some(x) && Inv(Exec(st, Call))
    requires Run(Exec(st, Call), actions, end) && NeverPicks(Exec(st, Call), actions, x)
    requires forall k :: 0 <= k < |actions| ==> Steady(actions[k], x)
    ensures Exec(st, Call).s.states[x] == Ready && Calls(actions) < |st.s.order|
  {
    hide PickNext, Schedule, Run, NeverPicks, Distance;
    ScheduleStates(st.s, x);
    ScheduleKeeps(st.s);
    PickAlive(st.s);
    ScheduleStates(st.s, Exec(st, Call).s.current.value);
    RunsInTurn(Exec(st, Call), actions, end, x);
  }

  lemma PickAlive(s: Sched)
    requires Valid(s)
    ensures PickNext(s) in s.states && Schedule(s).current.Some?
  {
    PickIsRunnable(s);
  }
}
