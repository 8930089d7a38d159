/** The server slots of kernel/ipc/channel.c, updated in place: a ring of 16 pending channels and a listener. */
module Servers {
  import opened Options
  import opened Tasks
  import opened Ipc
  import opened ChannelIpc
  import Division

  function Cell(n: nat): (r: nat)
    ensures r < 16
  {
    n % 16
  }

  /** n entries from position p on, around the ring. */
  function Ring(cells: seq<nat>, p: nat, n: nat): (r: seq<nat>)
    requires |cells| == 16
    ensures |r| == n && forall i :: 0 <= i < n ==> r[i] == cells[Cell(p + i)]
  {
    seq(n, i requires 0 <= i < n => cells[Cell(p + i)])
  }

  class Slot {
    var named: bool
    var listener: Option<nat>
    const incoming: array<nat>
    var head: nat
    var tail: nat
    var count: nat

    ghost predicate Valid()
      reads this
    {
      incoming.Length == 16 && head < 16 && count <= 16 && tail == Cell(head + count)
    }

    ghost function Pending(): (s: seq<nat>)
      requires Valid()
      reads this, incoming
      ensures |s| == count
    {
      Ring(incoming[..], head, count)
    }

    ghost function View(): Server
      requires Valid()
      reads this, incoming
    {
      Server(named, listener, Pending())
    }

    constructor ()
      ensures Valid() && fresh(incoming) && View() == Server(false, None, [])
    {
      named, listener, head, tail, count := false, None, 0, 0, 0;
      incoming := new nat[16](i => 0);
    }

    /** enqueue_incomming: the seventeenth is dropped. */
    method Enqueue(ch: nat)
      requires Valid()
      modifies `tail, `count, incoming
      ensures Valid() && Pending() == if old(count) < 16 then old(Pending()) + [ch] else old(Pending())
    {
      hide Cell, Ring;
      if count == 16 { return; }
      RingEnd(incoming[..], head, count, ch);
      CellFirst(head + count, 1);
      incoming[tail] := ch;
      tail := Cell(tail + 1);
      count := count + 1;
    }

    /** dequeue_incomming: the oldest one, if any. */
    method Dequeue() returns (ch: Option<nat>)
      requires Valid()
      modifies `head, `count
      ensures Valid()
      ensures old(Pending()) == [] ==> ch == None && Pending() == []
      ensures old(Pending()) != [] ==> ch == Some(old(Pending())[0]) && Pending() == old(Pending())[1..]
    {
      hide Cell, Ring;
      if count == 0 { return None; }
      RingTail(incoming[..], head, count);
      CellOf(head);
      CellFirst(head + 1, count - 1);
      ch := Some(incoming[head]);
      head := Cell(head + 1);
      count := count - 1;
    }

    /** ipc_server, once the slot is found: the caller becomes the listener without blocking. */
    method Serve(t: nat)
      requires Valid()
      modifies `named, `listener
      ensures Valid() && View() == Server(true, Some(t), old(Pending()))
    {
      named := true;
      listener := Some(t);
    }

    /** The part of ipc_connect on the server. */
    method Connect(ch: nat, tasks: TaskTable)
      requires Valid()
      modifies this, incoming, tasks
      ensures Valid() && View() == Queued(old(View()), ch)
      ensures Woken(old(tasks.states), old(listener), tasks.states)
    {
      Enqueue(ch);
      if listener.Some? {
        tasks.Wake(listener);
        listener := None;
      }
    }

    /** ipc_accept up to its schedule(): the oldest connection, or the caller waits, or the slot is taken. */
    method Accept(t: nat, tasks: TaskTable) returns (ch: Option<nat>, blocked: bool)
      requires Valid() && t in tasks.states
      modifies this, incoming, tasks
      ensures Valid()
      ensures old(Pending()) != [] ==>
        !blocked && ch == Some(old(Pending())[0]) && View() == old(View()).(pending := old(Pending())[1..]) && tasks.states == old(tasks.states)
      ensures old(Pending()) == [] ==> ch == None && (blocked <==> old(listener) == None)
      ensures blocked ==>
        View() == old(View()).(listener := Some(t)) && tasks.states == old(tasks.states)[t := SetBlocked(old(tasks.states)[t])]
      ensures old(Pending()) == [] && !blocked ==> View() == old(View()) && tasks.states == old(tasks.states)
    {
      blocked := false;
      ch := Dequeue();
      if ch == None {
        if listener.Some? { return None, false; }
        listener := Some(t);
        tasks.Block(t);
        blocked := true;
      }
    }
  }

  lemma CellFirst(n: nat, m: nat)
    ensures Cell(Cell(n) + m) == Cell(n + m)
  {
    Division.RemainderFirst(n, m, 16);
  }

  lemma CellOf(n: nat)
    requires n < 16
    ensures Cell(n) == n
  {}

  lemma CellsDiffer(p: nat, i: nat, n: nat)
    requires p < 16 && i < n < 16
    ensures Cell(p + i) != Cell(p + n)
  {}

  /** What is left of a ring without its first entry. */
  lemma RingTail(cells: seq<nat>, p: nat, n: nat)
    requires |cells| == 16 && 0 < n
    ensures Ring(cells, Cell(p + 1), n - 1) == Ring(cells, p, n)[1..]
  {
    hide Cell;
    forall i | 0 <= i < n - 1
      ensures Ring(cells, Cell(p + 1), n - 1)[i] == Ring(cells, p, n)[1..][i]
    {
      CellFirst(p + 1, i);
      assert p + 1 + i == p + (i + 1);
    }
  }

  /** An entry put behind the last one. */
  lemma RingEnd(cells: seq<nat>, p: nat, n: nat, x: nat)
    requires |cells| == 16 && p < 16 && n < 16
    ensures Ring(cells[Cell(p + n) := x], p, n + 1) == Ring(cells, p, n) + [x]
  {
    hide Cell;
    forall i | 0 <= i < n
      ensures Ring(cells[Cell(p + n) := x], p, n + 1)[i] == Ring(cells, p, n)[i]
    {
      CellsDiffer(p, i, n);
    }
  }
}
