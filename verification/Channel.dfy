/**
 kernel/ipc/channel.c: a channel of two pipes with its listener slots and closed
 flags, updated in place, and the blocking receive of kernel/cpu/syscall.c.
 */
module ChannelIpc {
  import opened Options
  import opened Tasks
  import opened Ipc
  import Pipe

  class TaskTable {
    var states: map<nat, TaskState>

    /** task_set_ready on a listener slot that may be empty. */
    method Wake(t: Option<nat>)
      modifies this
      ensures states == if t.Some? && t.value in old(states)
                        then old(states)[t.value := SetReady(old(states)[t.value])] else old(states)
    {
      if t.Some? && t.value in states && states[t.value] == Blocked {
        states := states[t.value := Ready];
      }
      assert states == if t.Some? && t.value in old(states)
                       then old(states)[t.value := SetReady(old(states)[t.value])] else old(states);
    }

    /** task_set_blocked */
    method Block(t: nat)
      requires t in states
      modifies this
      ensures states == old(states)[t := SetBlocked(old(states)[t])]
    {
      if states[t] != Dead { states := states[t := Blocked]; }
      assert states == old(states)[t := SetBlocked(old(states)[t])];
    }
  }

  class Channel {
    const p0: Pipe.Pipe
    const p1: Pipe.Pipe
    var pid0: nat
    var pid1: nat
    var listener0: Option<nat>
    var listener1: Option<nat>
    var closed0: bool
    var closed1: bool
    ghost var sent0: seq<bv8>
    ghost var sent1: seq<bv8>
    ghost var got0: seq<bv8>
    ghost var got1: seq<bv8>

    ghost predicate Valid()
      reads this, p0, p1
    {
      p0 != p1 && p0.buf != p1.buf && p0.Valid() && p1.Valid()
    }

    ghost function View(): Ipc.Channel
      requires Valid()
      reads this, p0, p1, p0.buf, p1.buf
    {
      Ipc.Channel(Side(pid0, p0.Contents(), listener0, closed0, sent0, got0),
                  Side(pid1, p1.Contents(), listener1, closed1, sent1, got1))
    }

    /** The channel ipc_connect makes for process pid. */
    constructor (pid: nat)
      ensures Valid() && fresh(p0) && fresh(p1) && fresh(p0.buf) && fresh(p1.buf)
      ensures View() == Ipc.Channel(Side(pid, [], None, false, [], []), Side(0, [], None, false, [], []))
    {
      p0 := new Pipe.Pipe();
      p1 := new Pipe.Pipe();
      pid0, pid1, listener0, listener1, closed0, closed1 := pid, 0, None, None, false, false;
      sent0, sent1, got0, got1 := [], [], [], [];
    }

    /** channel_send */
    method Send(pid: nat, data: seq<bv8>, tasks: TaskTable)
      requires Valid()
      modifies this, p0, p1, p0.buf, p1.buf, tasks
      ensures Valid()
      ensures match SeenBy(old(View()), pid)
              case None => View() == old(View()) && tasks.states == old(tasks.states)
              case Some(v) => View() == PutBack(old(View()), pid, SendView(v, data))
      ensures SeenBy(old(View()), pid).Some? ==>
        Woken(old(tasks.states), SeenBy(old(View()), pid).value.b.listener, tasks.states)
    {
      if pid0 == pid {
        sent0 := sent0 + Accepted(p0.count, data);
        var _ := p0.Write(data);
        tasks.Wake(listener1);
        listener1 := None;
      } else if pid1 == pid {
        sent1 := sent1 + Accepted(p1.count, data);
        var _ := p1.Write(data);
        tasks.Wake(listener0);
        listener0 := None;
      }
    }

    /** channel_recv: the code it returns and the bytes it copies. */
    method Recv(pid: nat, len: nat) returns (code: int, data: seq<bv8>)
      requires Valid()
      modifies this, p0, p1
      ensures Valid()
      ensures match SeenBy(old(View()), pid)
              case None => code == 0 && data == [] && View() == old(View())
              case Some(v) => code == RecvCode(v, len) && View() == PutBack(old(View()), pid, RecvView(v, len))
      ensures match SeenBy(old(View()), pid)
              case None => true
              case Some(v) => code == (if v.b.closed then -1 else if len <= |v.b.out| then len else |v.b.out|)
                              && data == if v.b.closed then [] else v.b.out[..code]
    {
      data := [];
      if pid0 == pid {
        if closed1 { return -1, data; }
        data := p1.Read(len);
        got1 := got1 + data;
        return |data|, data;
      } else if pid1 == pid {
        if closed0 { return -1, data; }
        data := p0.Read(len);
        got0 := got0 + data;
        return |data|, data;
      }
      return 0, data;
    }

    /** channel_set_listener */
    method SetListener(pid: nat, t: nat) returns (ok: bool)
      requires Valid()
      modifies `listener0, `listener1
      ensures match SeenBy(old(View()), pid)
              case None => !ok && View() == old(View())
              case Some(v) =>
                ok == (v.a.listener == None) &&
                View() == if ok then PutBack(old(View()), pid, v.(a := v.a.(listener := Some(t)))) else old(View())
    {
      if pid == pid0 {
        if listener0.Some? { return false; }
        listener0 := Some(t);
        return true;
      }
      if pid == pid1 {
        if listener1.Some? { return false; }
        listener1 := Some(t);
        return true;
      }
      return false;
    }

    /** channel_close */
    method Close(pid: nat, tasks: TaskTable)
      requires Valid()
      modifies this, tasks
      ensures Valid()
      ensures match SeenBy(old(View()), pid)
              case None => View() == old(View()) && tasks.states == old(tasks.states)
              case Some(v) => View() == PutBack(old(View()), pid, CloseView(v))
      ensures SeenBy(old(View()), pid).Some? ==>
        Woken(old(tasks.states), SeenBy(old(View()), pid).value.b.listener, tasks.states)
    {
      if pid0 == pid {
        closed0 := true;
        tasks.Wake(listener1);
        listener1 := None;
      } else if pid1 == pid {
        closed1 := true;
        tasks.Wake(listener0);
        listener0 := None;
      }
    }

    /**
     SYS_IPC_RECV up to schedule(): a non-zero code is returned at once;
     otherwise the task registers and blocks, unless the slot is taken.
     */
    method BlockingRecv(t: nat, pid: nat, len: nat, tasks: TaskTable) returns (code: int, blocked: bool)
      requires Valid() && t in tasks.states
      modifies this, p0, p1, tasks
      ensures Valid()
      ensures var sys := System([old(View())], [], old(tasks.states), map[t := pid], {}, {});
        var sys' := RecvStep(sys, t, 0, len);
        View() == sys'.channels[0] && tasks.states == sys'.tasks
      ensures blocked <==> MustWait(old(View()), pid, len)
      ensures match SeenBy(old(View()), pid)
              case None => code == 0
              case Some(v) => code == if v.b.closed then -1 else if len <= |v.b.out| then len else |v.b.out|
    {
      ghost var ch := View();
      var data;
      code, data := Recv(pid, len);
      if code != 0 { return code, false; }
      assert View() == ch;
      var ok := SetListener(pid, t);
      if !ok { return 0, false; }
      tasks.Block(t);
      return 0, true;
    }
  }

  /** Nothing to read yet, and the listener slot is free. */
  predicate MustWait(c: Ipc.Channel, pid: nat, len: nat) {
    match SeenBy(c, pid)
    case None => false
    case Some(v) => RecvCode(v, len) == 0 && v.a.listener == None
  }

  /** Only the released listener's state changes, as task_set_ready says. */
  predicate Woken(before: map<nat, TaskState>, t: Option<nat>, after: map<nat, TaskState>) {
    after == if t.Some? && t.value in before then before[t.value := SetReady(before[t.value])] else before
  }
}
