/**
 Servers and channels of kernel/ipc/channel.c and the blocking receive built on
 them in kernel/cpu/syscall.c, as values.  Each system call, and each half of
 one that blocks, is one step; module PipeRace takes the second half of a
 receive apart.
 */
module Ipc {
  import opened Options
  import opened Tasks

  const PIPE_SIZE: nat := 4096

  // ---- pipes as queues ---------------------------------------------------------------

  /** The bytes of data a pipe holding `held` bytes still takes. */
  function Accepted(held: nat, data: seq<bv8>): seq<bv8>
    requires held <= PIPE_SIZE
  {
    if held + |data| <= PIPE_SIZE then data else data[..PIPE_SIZE - held]
  }

  function Taken(out: seq<bv8>, len: nat): seq<bv8> { if len <= |out| then out[..len] else out }

  // ---- channels --------------------------------------------------------------------------

  /**
   One end: its process, the pipe it writes (`out`), its registered listener
   and whether it is closed.  `sent` and `got` are the bytes the pipe has ever
   accepted from it and handed to the peer.
   */
  datatype Side = Side(pid: nat, out: seq<bv8>, listener: Option<nat>, closed: bool, sent: seq<bv8>, got: seq<bv8>)

  datatype Channel = Channel(a: Side, b: Side)

  function Flip(c: Channel): Channel { Channel(c.b, c.a) }

  /** c seen from process pid: its own side first.  None is the unauthorised caller. */
  function SeenBy(c: Channel, pid: nat): Option<Channel> {
    if c.a.pid == pid then Some(c) else if c.b.pid == pid then Some(Flip(c)) else None
  }

  function PutBack(c: Channel, pid: nat, seen: Channel): Channel { if c.a.pid == pid then seen else Flip(seen) }

  function WriteOut(s: Side, data: seq<bv8>): Side
    requires |s.out| <= PIPE_SIZE
  {
    var d := Accepted(|s.out|, data);
    s.(out := s.out + d, sent := s.sent + d)
  }

  function ReadOut(s: Side, len: nat): Side {
    var d := Taken(s.out, len);
    s.(out := s.out[|d|..], got := s.got + d)
  }

  /** channel_send, from the sender's view: write, then wake and clear the peer's listener. */
  function SendView(c: Channel, data: seq<bv8>): Channel
    requires |c.a.out| <= PIPE_SIZE
  {
    Channel(WriteOut(c.a, data), c.b.(listener := None))
  }

  /** channel_close, from the closer's view. */
  function CloseView(c: Channel): Channel { Channel(c.a.(closed := true), c.b.(listener := None)) }

  /** channel_recv's return value, from the reader's view; -1 once the peer is closed. */
  function RecvCode(c: Channel, len: nat): int { if c.b.closed then -1 else |Taken(c.b.out, len)| }

  function RecvView(c: Channel, len: nat): Channel { if c.b.closed then c else c.(b := ReadOut(c.b, len)) }

  // ---- the system ---------------------------------------------------------------------------

  /** A slot of s_servers: named once ipc_server has given it an identifier. */
  datatype Server = Server(named: bool, listener: Option<nat>, pending: seq<nat>)

  /**
   `elsewhere` holds the tasks some other part of the kernel has recorded to
   wake once, `joining` those recorded as a joining_task or waiting_task, which
   no code clears.
   */
  datatype System = System(
    channels: seq<Channel>, servers: seq<Server>, tasks: map<nat, TaskState>, owner: map<nat, nat>,
    elsewhere: set<nat>, joining: set<nat>)

  datatype Op =
    | Serve(t: nat, s: nat)
    | Connect(t: nat, s: nat)
    | Accept(t: nat, s: nat)              // ipc_accept up to its schedule()
    | AcceptNb(t: nat, s: nat)            // ipc_accept_nb, and the second half of ipc_accept
    | Send(t: nat, c: nat, data: seq<bv8>)
    | Recv(t: nat, c: nat, len: nat)      // SYS_IPC_RECV up to its schedule()
    | RecvNb(t: nat, c: nat, len: nat)    // SYS_IPC_RECV_NB, and the second half of SYS_IPC_RECV
    | Close(t: nat, c: nat)
    | Dispatch(t: nat) | Preempt(t: nat) | Kill(t: nat) | BlockElsewhere(t: nat) | WakeElsewhere(t: nat)
    | Join(t: nat)                        // process_join_thread or process_wait up to its schedule()
    | WakeJoiner(t: nat)                  // the end, or a further kill, of the thread or process joined

  function Wake(sys: System, t: Option<nat>): System {
    if t.Some? && t.value in sys.tasks then sys.(tasks := sys.tasks[t.value := SetReady(sys.tasks[t.value])]) else sys
  }

  function Block(sys: System, t: nat): System
    requires t in sys.tasks
  {
    sys.(tasks := sys.tasks[t := SetBlocked(sys.tasks[t])])
  }

  function SetChannel(sys: System, c: nat, seen: Channel, pid: nat): System
    requires c < |sys.channels|
  {
    sys.(channels := sys.channels[c := PutBack(sys.channels[c], pid, seen)])
  }

  /** The blocking receive: read, or register as listener and block. */
  function RecvStep(sys: System, t: nat, c: nat, len: nat): System
    requires t in sys.tasks && t in sys.owner && c < |sys.channels|
  {
    var pid := sys.owner[t];
    match SeenBy(sys.channels[c], pid)
    case None => sys
    case Some(v) =>
      if RecvCode(v, len) != 0 then SetChannel(sys, c, RecvView(v, len), pid)
      else if v.a.listener.Some? then sys
      else Block(SetChannel(sys, c, v.(a := v.a.(listener := Some(t))), pid), t)
  }

  /** ipc_connect: a new channel, queued unless 16 are pending; the server's listener is woken and cleared. */
  function ConnectStep(sys: System, t: nat, s: nat): System
    requires t in sys.owner && s < |sys.servers|
  {
    var v := sys.servers[s];
    var ch := Channel(Side(sys.owner[t], [], None, false, [], []), Side(0, [], None, false, [], []));
    Wake(sys.(channels := sys.channels + [ch], servers := sys.servers[s := Queued(v, |sys.channels|)]), v.listener)
  }

  function Queued(v: Server, c: nat): Server {
    Server(v.named, None, if |v.pending| < 16 then v.pending + [c] else v.pending)
  }

  /** The oldest pending connection, if any, gets the caller as its second end. */
  function TakePending(sys: System, t: nat, s: nat): System
    requires t in sys.owner && s < |sys.servers|
    requires sys.servers[s].pending != [] ==> sys.servers[s].pending[0] < |sys.channels|
  {
    var v := sys.servers[s];
    if v.pending == [] then sys
    else
      var c := v.pending[0];
      sys.(channels := sys.channels[c := sys.channels[c].(b := sys.channels[c].b.(pid := sys.owner[t]))],
           servers := sys.servers[s := v.(pending := v.pending[1..])])
  }

  predicate IsRunning(sys: System, t: nat) { t in sys.tasks && t in sys.owner && sys.tasks[t] == Running }

  /** A call is made by a running task; ipc_server takes the first free slot; receives ask for some bytes. */
  predicate Enabled(sys: System, op: Op) {
    match op
    case Serve(t, s) =>
      IsRunning(sys, t) && s < |sys.servers| && !sys.servers[s].named && forall i :: 0 <= i < s ==> sys.servers[i].named
    case Connect(t, s) => IsRunning(sys, t) && s < |sys.servers| && sys.servers[s].named
    case Accept(t, s) => IsRunning(sys, t) && s < |sys.servers|
    case AcceptNb(t, s) => IsRunning(sys, t) && s < |sys.servers|
    case Send(t, c, data) => IsRunning(sys, t) && c < |sys.channels|
    case Recv(t, c, len) => IsRunning(sys, t) && c < |sys.channels| && len > 0
    case RecvNb(t, c, len) => IsRunning(sys, t) && c < |sys.channels|
    case Close(t, c) => IsRunning(sys, t) && c < |sys.channels|
    case Dispatch(t) => t in sys.tasks && sys.tasks[t] == Ready
    case Preempt(t) => t in sys.tasks && sys.tasks[t] == Running
    case Kill(t) => t in sys.tasks
    case BlockElsewhere(t) => t in sys.tasks && sys.tasks[t] == Running
    case WakeElsewhere(t) => t in sys.elsewhere
    case Join(t) => t in sys.tasks && sys.tasks[t] == Running
    case WakeJoiner(t) => t in sys.joining
  }

  function Exec(sys: System, op: Op): System
    requires Enabled(sys, op) && SidesOk(sys) && ServersOk(sys)
  {
    match op
    case Serve(t, s) => sys.(servers := sys.servers[s := Server(true, Some(t), sys.servers[s].pending)])
    case Connect(t, s) => ConnectStep(sys, t, s)
    case Accept(t, s) =>
      if sys.servers[s].pending != [] then TakePending(sys, t, s)
      else if sys.servers[s].listener.Some? then sys
      else Block(sys.(servers := sys.servers[s := sys.servers[s].(listener := Some(t))]), t)
    case AcceptNb(t, s) => TakePending(sys, t, s)
    case Send(t, c, data) =>
      (match SeenBy(sys.channels[c], sys.owner[t])
       case None => sys
       case Some(v) => Wake(SetChannel(sys, c, SendView(v, data), sys.owner[t]), v.b.listener))
    case Recv(t, c, len) => RecvStep(sys, t, c, len)
    case RecvNb(t, c, len) =>
      (match SeenBy(sys.channels[c], sys.owner[t])
       case None => sys
       case Some(v) => SetChannel(sys, c, RecvView(v, len), sys.owner[t]))
    case Close(t, c) =>
      (match SeenBy(sys.channels[c], sys.owner[t])
       case None => sys
       case Some(v) => Wake(SetChannel(sys, c, CloseView(v), sys.owner[t]), v.b.listener))
    case Dispatch(t) => sys.(tasks := sys.tasks[t := Running])
    case Preempt(t) => sys.(tasks := sys.tasks[t := Ready])
    case Kill(t) => sys.(tasks := sys.tasks[t := Dead])
    case BlockElsewhere(t) => Block(sys, t).(elsewhere := sys.elsewhere + {t})
    case WakeElsewhere(t) => Wake(sys, Some(t)).(elsewhere := sys.elsewhere - {t})
    case Join(t) => Block(sys, t).(joining := sys.joining + {t})
    case WakeJoiner(t) => Wake(sys, Some(t))
  }

  // ---- the invariant ------------------------------------------------------------------------

  predicate SideOk(s: Side) { |s.out| <= PIPE_SIZE && s.sent == s.got + s.out }

  predicate SidesOk(sys: System) {
    forall c :: 0 <= c < |sys.channels| ==> SideOk(sys.channels[c].a) && SideOk(sys.channels[c].b)
  }

  /** Pending connections are channels; a server that has a listener, or no name, has none. */
  predicate ServerOk(v: Server, channels: nat) {
    && |v.pending| <= 16 && (forall i :: 0 <= i < |v.pending| ==> v.pending[i] < channels)
    && (v.listener.Some? || !v.named ==> v.pending == [])
  }

  predicate ServersOk(sys: System) {
    forall s :: 0 <= s < |sys.servers| ==> ServerOk(sys.servers[s], |sys.channels|)
  }

  /** A task is registered at side `first` (or the other) of channel c. */
  predicate WaitsAt(sys: System, t: nat, c: nat, first: bool) {
    c < |sys.channels| && (if first then sys.channels[c].a else sys.channels[c].b).listener == Some(t)
  }

  /** A registered listener has nothing to read and an open peer. */
  ghost predicate WaitOk(sys: System, t: nat, c: nat, first: bool)
    requires c < |sys.channels|
  {
    WaitsAt(sys, t, c, first) ==>
      var v := if first then sys.channels[c] else Flip(sys.channels[c]);
      v.b.out == [] && !v.b.closed && t in sys.tasks
  }

  ghost predicate Inv(sys: System) {
    && SidesOk(sys) && ServersOk(sys)
    && (forall t: nat, c: nat, first: bool :: c < |sys.channels| ==> WaitOk(sys, t, c, first))
  }

  // ---- each step keeps it --------------------------------------------------------------------

  /** Channel v' follows from v without a new listener, and no remaining one gains data or loses its peer. */
  ghost predicate Quiet(v: Channel, v': Channel) {
    && SideOk(v'.a) && SideOk(v'.b)
    && (v'.a.listener.Some? ==> v'.a.listener == v.a.listener && (v.b.out == [] ==> v'.b.out == []) && (!v.b.closed ==> !v'.b.closed))
    && (v'.b.listener.Some? ==> v'.b.listener == v.b.listener && (v.a.out == [] ==> v'.a.out == []) && (!v.a.closed ==> !v'.a.closed))
  }

  lemma QuietFlip(v: Channel, v': Channel)
    ensures Quiet(v, v') <==> Quiet(Flip(v), Flip(v'))
  {}

  /** A quiet change of channel c keeps the invariant, whoever is woken. */
  lemma QuietKeeps(sys: System, c: nat, ch: Channel, woken: Option<nat>)
    requires Inv(sys) && c < |sys.channels| && Quiet(sys.channels[c], ch)
    ensures Inv(Wake(sys.(channels := sys.channels[c := ch]), woken))
  {
    var sys' := Wake(sys.(channels := sys.channels[c := ch]), woken);
    forall t: nat, k: nat, first: bool | k < |sys'.channels|
      ensures WaitOk(sys', t, k, first)
    {
      assert WaitOk(sys, t, k, first);
      assert k != c ==> sys'.channels[k] == sys.channels[k];
    }
  }

  lemma ReadQuiet(v: Channel, len: nat)
    requires SideOk(v.a) && SideOk(v.b)
    ensures Quiet(v, RecvView(v, len))
  {
    var d := Taken(v.b.out, len);
    assert d + v.b.out[|d|..] == v.b.out;
    assert v.b.got + d + v.b.out[|d|..] == v.b.got + v.b.out;
  }

  lemma SendQuiet(v: Channel, data: seq<bv8>)
    requires SideOk(v.a) && SideOk(v.b)
    ensures Quiet(v, SendView(v, data))
  {
    var d := Accepted(|v.a.out|, data);
    assert v.a.got + v.a.out + d == v.a.got + (v.a.out + d);
  }

  /** An operation of process pid on its channel, given as a quiet change of its own view. */
  lemma ViewKeeps(sys: System, c: nat, pid: nat, v: Channel, v': Channel, woken: Option<nat>)
    requires Inv(sys) && c < |sys.channels| && SeenBy(sys.channels[c], pid) == Some(v) && Quiet(v, v')
    ensures Inv(Wake(SetChannel(sys, c, v', pid), woken))
  {
    hide Inv;
    QuietFlip(v, v');
    QuietKeeps(sys, c, PutBack(sys.channels[c], pid, v'), woken);
  }

  /** Nothing but task states and server slots changes. */
  lemma SameChannels(sys: System, sys': System)
    requires Inv(sys) && sys'.channels == sys.channels && ServersOk(sys') && sys.tasks.Keys <= sys'.tasks.Keys
    ensures Inv(sys')
  {
    forall t: nat, k: nat, f: bool | k < |sys'.channels|
      ensures WaitOk(sys', t, k, f)
    {
      assert WaitOk(sys, t, k, f);
    }
  }

  lemma BlockKeeps(sys: System, t: nat, c: nat, len: nat)
    requires Inv(sys) && Enabled(sys, Recv(t, c, len))
    requires var v := SeenBy(sys.channels[c], sys.owner[t]); v.Some? && RecvCode(v.value, len) == 0 && v.value.a.listener == None
    ensures Inv(RecvStep(sys, t, c, len))
  {
    var sys' := RecvStep(sys, t, c, len);
    forall t': nat, k: nat, f: bool | k < |sys'.channels|
      ensures WaitOk(sys', t', k, f)
    {
      assert WaitOk(sys, t', k, f);
      assert k != c ==> sys'.channels[k] == sys.channels[k];
    }
  }

  lemma ConnectKeeps(sys: System, t: nat, s: nat)
    requires Inv(sys) && Enabled(sys, Connect(t, s))
    ensures Inv(Exec(sys, Connect(t, s)))
  {
    var sys' := Exec(sys, Connect(t, s));
    forall x: nat, k: nat, f: bool | k < |sys'.channels|
      ensures WaitOk(sys', x, k, f)
    {
      if k < |sys.channels| { assert WaitOk(sys, x, k, f); }
    }
    forall i | 0 <= i < |sys'.servers|
      ensures ServerOk(sys'.servers[i], |sys'.channels|)
    {
      assert ServerOk(sys.servers[i], |sys.channels|);
    }
  }

  lemma TakePendingKeeps(sys: System, t: nat, s: nat)
    requires Inv(sys) && Enabled(sys, AcceptNb(t, s))
    ensures Inv(TakePending(sys, t, s))
  {
    var sys' := TakePending(sys, t, s);
    assert ServerOk(sys.servers[s], |sys.channels|);
    forall x: nat, k: nat, f: bool | k < |sys'.channels|
      ensures WaitOk(sys', x, k, f)
    {
      assert WaitOk(sys, x, k, f);
    }
  }

  lemma ExecKeeps(sys: System, op: Op)
    requires Inv(sys) && Enabled(sys, op)
    ensures Inv(Exec(sys, op))
  {
    match op {
      case Serve(t, s) =>
        assert ServerOk(sys.servers[s], |sys.channels|);
        SameChannels(sys, Exec(sys, op));
      case Connect(t, s) => ConnectKeeps(sys, t, s);
      case Accept(t, s) =>
        if sys.servers[s].pending != [] { TakePendingKeeps(sys, t, s); } else { SameChannels(sys, Exec(sys, op)); }
      case AcceptNb(t, s) => TakePendingKeeps(sys, t, s);
      case Send(t, c, data) =>
        match SeenBy(sys.channels[c], sys.owner[t]) {
          case None =>
          case Some(v) =>
            SendQuiet(v, data);
            ViewKeeps(sys, c, sys.owner[t], v, SendView(v, data), v.b.listener);
        }
      case Recv(t, c, len) => RecvKeeps(sys, t, c, len);
      case RecvNb(t, c, len) =>
        match SeenBy(sys.channels[c], sys.owner[t]) {
          case None =>
          case Some(v) =>
            ReadQuiet(v, len);
            ViewKeeps(sys, c, sys.owner[t], v, RecvView(v, len), None);
        }
      case Close(t, c) =>
        match SeenBy(sys.channels[c], sys.owner[t]) {
          case None =>
          case Some(v) => ViewKeeps(sys, c, sys.owner[t], v, CloseView(v), v.b.listener);
        }
      case _ => SameChannels(sys, Exec(sys, op));
    }
  }

  lemma RecvKeeps(sys: System, t: nat, c: nat, len: nat)
    requires Inv(sys) && Enabled(sys, Recv(t, c, len))
    ensures Inv(RecvStep(sys, t, c, len))
  {
    match SeenBy(sys.channels[c], sys.owner[t]) {
      case None =>
      case Some(v) =>
        if RecvCode(v, len) != 0 {
          ReadQuiet(v, len);
          ViewKeeps(sys, c, sys.owner[t], v, RecvView(v, len), None);
        } else if v.a.listener == None {
          BlockKeeps(sys, t, c, len);
        }
    }
  }

  // ---- whole runs -------------------------------------------------------------------------------

  ghost predicate Run(sys: System, ops: seq<Op>, end: System)
    requires Inv(sys)
    decreases |ops|
  {
    if |ops| == 0 then end == sys
    else Enabled(sys, ops[0]) && (ExecKeeps(sys, ops[0]); Run(Exec(sys, ops[0]), ops[1..], end))
  }

  /** The system at boot: no channel, 32 free server slots, nobody recorded anywhere. */
  predicate Initial(sys: System) {
    && sys.channels == [] && sys.elsewhere == {} && sys.joining == {}
    && sys.servers == seq(32, i => Server(false, None, []))
  }

  lemma InitialInv(sys: System)
    requires Initial(sys)
    ensures Inv(sys)
  {}

  lemma {:induction false} RunKeeps(sys: System, ops: seq<Op>, end: System)
    requires Inv(sys) && Run(sys, ops, end)
    ensures Inv(end)
    decreases |ops|
  {
    if |ops| > 0 {
      ExecKeeps(sys, ops[0]);
      RunKeeps(Exec(sys, ops[0]), ops[1..], end);
    }
  }

  /**
   No lost wakeup.  In every reachable state a registered listener has an empty
   inbound pipe and an open peer; the next send or close by the peer's process
   clears the registration and leaves the listener READY if it was BLOCKED.
   */
  lemma NoLostWakeup(sys: System, ops: seq<Op>, end: System, w: nat, first: bool, op: Op)
    requires Initial(sys) && Inv(sys) && Run(sys, ops, end)
    requires (op.Send? || op.Close?) && WaitsAt(end, w, op.c, first) && Enabled(end, op)
    requires end.channels[op.c].a.pid != end.channels[op.c].b.pid
    requires end.owner[op.t] == (if first then end.channels[op.c].b.pid else end.channels[op.c].a.pid)
    ensures Inv(end) && w in end.tasks
    ensures var v := if first then end.channels[op.c] else Flip(end.channels[op.c]); v.b.out == [] && !v.b.closed
    ensures !WaitsAt(Exec(end, op), w, op.c, first) && Exec(end, op).tasks[w] == SetReady(end.tasks[w]) != Blocked
  {
    RunKeeps(sys, ops, end);
    assert WaitOk(end, w, op.c, first);
    PeerWakes(end, op, w, first);
  }

  lemma PeerWakes(sys: System, op: Op, w: nat, first: bool)
    requires Inv(sys) && Enabled(sys, op) && (op.Send? || op.Close?) && WaitsAt(sys, w, op.c, first) && w in sys.tasks
    requires sys.channels[op.c].a.pid != sys.channels[op.c].b.pid
    requires sys.owner[op.t] == (if first then sys.channels[op.c].b.pid else sys.channels[op.c].a.pid)
    ensures !WaitsAt(Exec(sys, op), w, op.c, first) && Exec(sys, op).tasks[w] == SetReady(sys.tasks[w]) != Blocked
  {
    var ch := sys.channels[op.c];
    assert SeenBy(ch, sys.owner[op.t]) == Some(if first then Flip(ch) else ch);
    assert (if first then Flip(ch) else ch).b.listener == Some(w);
  }

  /** Nor a lost connection: a server with a listener has none pending, and the next connect wakes it with one. */
  lemma NoLostConnection(sys: System, ops: seq<Op>, end: System, s: nat, w: nat, t: nat)
    requires Initial(sys) && Inv(sys) && Run(sys, ops, end)
    requires Enabled(end, Connect(t, s)) && end.servers[s].listener == Some(w) && w in end.tasks
    ensures Inv(end) && end.servers[s].pending == []
    ensures var after := Exec(end, Connect(t, s));
      after.servers[s] == Server(true, None, [|end.channels|]) && after.tasks[w] == SetReady(end.tasks[w])
  {
    RunKeeps(sys, ops, end);
    assert ServerOk(end.servers[s], |end.channels|);
  }

  /** Per direction, in every reachable state: what was received is a prefix of what the pipe accepted. */
  lemma ReceivedIsPrefix(sys: System, ops: seq<Op>, end: System, c: nat)
    requires Initial(sys) && Inv(sys) && Run(sys, ops, end) && c < |end.channels|
    ensures var ch := end.channels[c];
      ch.a.got <= ch.a.sent && ch.b.got <= ch.b.sent && ch.a.sent == ch.a.got + ch.a.out && ch.b.sent == ch.b.got + ch.b.out
  {
    RunKeeps(sys, ops, end);
  }

  // ---- who wakes a waiting task --------------------------------------------------------------------

  /** Where a task can be recorded to be woken. */
  datatype Place = AtChannel(c: nat, first: bool) | AtServer(s: nat) | Elsewhere | Joining

  predicate Recorded(sys: System, t: nat, p: Place) {
    match p
    case AtChannel(c, first) => WaitsAt(sys, t, c, first)
    case AtServer(s) => s < |sys.servers| && sys.servers[s].listener == Some(t)
    case Elsewhere => t in sys.elsewhere
    case Joining => t in sys.joining
  }

  /** The place an operation wakes a recorded task of. */
  function Released(sys: System, op: Op): Option<Place>
    requires Enabled(sys, op)
  {
    match op
    case Connect(t, s) => Some(AtServer(s))
    case Send(t, c, _) => PeerPlace(sys, t, c)
    case Close(t, c) => PeerPlace(sys, t, c)
    case WakeElsewhere(t) => Some(Elsewhere)
    case WakeJoiner(t) => Some(Joining)
    case _ => None
  }

  function PeerPlace(sys: System, t: nat, c: nat): Option<Place>
    requires t in sys.owner && c < |sys.channels|
  {
    var ch, pid := sys.channels[c], sys.owner[t];
    if ch.a.pid == pid then Some(AtChannel(c, false)) else if ch.b.pid == pid then Some(AtChannel(c, true)) else None
  }

  /** The task an operation records, and where; ipc_server does so without blocking it. */
  function Records(sys: System, op: Op): Option<(nat, Place)>
    requires Enabled(sys, op)
  {
    match op
    case Serve(t, s) => Some((t, AtServer(s)))
    case Accept(t, s) => if sys.servers[s].pending == [] && sys.servers[s].listener == None then Some((t, AtServer(s))) else None
    case Recv(t, c, len) =>
      (match SeenBy(sys.channels[c], sys.owner[t])
       case None => None
       case Some(v) =>
         if RecvCode(v, len) == 0 && v.a.listener == None then Some((t, AtChannel(c, sys.channels[c].a.pid == sys.owner[t]))) else None)
    case BlockElsewhere(t) => Some((t, Elsewhere))
    case Join(t) => Some((t, Joining))
    case _ => None
  }

  /** The operation wakes task t, which is recorded at p; the last two wakes are of one task each. */
  predicate Wakes(sys: System, op: Op, t: nat, p: Place)
    requires Enabled(sys, op)
  {
    Released(sys, op) == Some(p) && Recorded(sys, t, p) && (op.WakeElsewhere? || op.WakeJoiner? ==> t == op.t)
  }

  /** Whoever is woken loses the record, but for a joiner; ipc_server takes a record without waking. */
  predicate Clears(sys: System, op: Op, t: nat, p: Place)
    requires Enabled(sys, op)
  {
    (Wakes(sys, op, t, p) && p != Joining) || (op.Serve? && p == AtServer(op.s))
  }

  /** What is recorded after a step: what was and is not cleared, and what the step records. */
  lemma RecordedAfter(sys: System, op: Op, t: nat, p: Place)
    requires Inv(sys) && Enabled(sys, op)
    ensures Recorded(Exec(sys, op), t, p) <==>
      (Recorded(sys, t, p) && !Clears(sys, op, t, p)) || Records(sys, op) == Some((t, p))
  {
    hide Inv, Exec, Enabled, Recorded, Records, Clears;
    match op {
      case Serve(_, _) => SlotRecords(sys, op, t, p);
      case Connect(_, _) => SlotRecords(sys, op, t, p);
      case Accept(_, _) => AcceptRecords(sys, op, t, p);
      case AcceptNb(_, _) => AcceptRecords(sys, op, t, p);
      case Send(_, _, _) => ChannelRecords(sys, op, t, p);
      case Close(_, _) => ChannelRecords(sys, op, t, p);
      case Recv(_, _, _) => RecvRecords(sys, op, t, p);
      case RecvNb(_, _, _) => RecvRecords(sys, op, t, p);
      case _ => TaskRecords(sys, op, t, p);
    }
  }

  lemma SlotRecords(sys: System, op: Op, t: nat, p: Place)
    requires Inv(sys) && Enabled(sys, op) && (op.Serve? || op.Connect?)
    ensures Recorded(Exec(sys, op), t, p) <==>
      (Recorded(sys, t, p) && !Clears(sys, op, t, p)) || Records(sys, op) == Some((t, p))
  {
    hide WaitOk;
  }

  lemma AcceptRecords(sys: System, op: Op, t: nat, p: Place)
    requires Inv(sys) && Enabled(sys, op) && (op.Accept? || op.AcceptNb?)
    ensures Recorded(Exec(sys, op), t, p) <==>
      (Recorded(sys, t, p) && !Clears(sys, op, t, p)) || Records(sys, op) == Some((t, p))
  {
    hide WaitOk;
    assert ServerOk(sys.servers[op.s], |sys.channels|);
  }

  lemma ChannelRecords(sys: System, op: Op, t: nat, p: Place)
    requires Inv(sys) && Enabled(sys, op) && (op.Send? || op.Close?)
    ensures Recorded(Exec(sys, op), t, p) <==>
      (Recorded(sys, t, p) && !Clears(sys, op, t, p)) || Records(sys, op) == Some((t, p))
  {
    hide WaitOk;
  }

  lemma RecvRecords(sys: System, op: Op, t: nat, p: Place)
    requires Inv(sys) && Enabled(sys, op) && (op.Recv? || op.RecvNb?)
    ensures Recorded(Exec(sys, op), t, p) <==>
      (Recorded(sys, t, p) && !Clears(sys, op, t, p)) || Records(sys, op) == Some((t, p))
  {
    hide WaitOk;
  }

  lemma TaskRecords(sys: System, op: Op, t: nat, p: Place)
    requires Inv(sys) && Enabled(sys, op)
    requires op.Dispatch? || op.Preempt? || op.Kill? || op.BlockElsewhere? || op.WakeElsewhere? || op.Join? || op.WakeJoiner?
    ensures Recorded(Exec(sys, op), t, p) <==>
      (Recorded(sys, t, p) && !Clears(sys, op, t, p)) || Records(sys, op) == Some((t, p))
  {
    hide WaitOk;
  }

  /**
   A task recorded in one place only, not as a joiner, and not able to run
   while it is: whoever wakes it clears that record.
   */
  ghost predicate Clean(sys: System, w: nat) {
    && w !in sys.joining
    && (forall p :: Recorded(sys, w, p) ==> w in sys.tasks && (sys.tasks[w] == Blocked || sys.tasks[w] == Dead))
    && (forall p, q :: Recorded(sys, w, p) && Recorded(sys, w, q) ==> p == q)
  }

  /** The state of a task after a step. */
  lemma StateAfter(sys: System, op: Op, w: nat)
    requires Inv(sys) && Enabled(sys, op) && w in sys.tasks
    ensures w in Exec(sys, op).tasks
    ensures sys.tasks[w] == Dead ==> Exec(sys, op).tasks[w] == Dead
    ensures sys.tasks[w] == Blocked ==>
      Exec(sys, op).tasks[w] ==
      if op == Kill(w) then Dead
      else if exists p :: Wakes(sys, op, w, p) then Ready
      else Blocked
    ensures Records(sys, op).Some? && Records(sys, op).value.0 == w && !op.Serve? ==>
      sys.tasks[w] == Running && Exec(sys, op).tasks[w] == Blocked
  {
    match op {
      case Send(_, _, _) =>
        PeerState(sys, op, w);
        assert forall p :: PeerPlace(sys, op.t, op.c) == Some(p) && Recorded(sys, w, p) ==> Wakes(sys, op, w, p);
      case Close(_, _) =>
        PeerState(sys, op, w);
        assert forall p :: PeerPlace(sys, op.t, op.c) == Some(p) && Recorded(sys, w, p) ==> Wakes(sys, op, w, p);
      case Connect(_, s) => assert Wakes(sys, op, w, AtServer(s)) || !Recorded(sys, w, AtServer(s));
      case WakeElsewhere(t) => assert Wakes(sys, op, t, Elsewhere);
      case WakeJoiner(t) => assert Wakes(sys, op, t, Joining);
      case _ =>
    }
  }

  lemma PeerState(sys: System, op: Op, w: nat)
    requires Inv(sys) && Enabled(sys, op) && (op.Send? || op.Close?) && w in sys.tasks
    ensures Exec(sys, op).tasks == sys.tasks[w := Exec(sys, op).tasks[w]] || sys.tasks[w] == Exec(sys, op).tasks[w]
    ensures w in Exec(sys, op).tasks
    ensures var place := PeerPlace(sys, op.t, op.c);
      Exec(sys, op).tasks[w] == if place.Some? && Recorded(sys, w, place.value) then SetReady(sys.tasks[w]) else sys.tasks[w]
  {}

  lemma CleanStep(sys: System, op: Op, w: nat)
    requires Inv(sys) && Enabled(sys, op) && Clean(sys, w) && !((op.Serve? || op.Join?) && op.t == w)
    ensures Clean(Exec(sys, op), w)
  {
    var sys' := Exec(sys, op);
    forall p | Recorded(sys', w, p)
      ensures w in sys'.tasks && (sys'.tasks[w] == Blocked || sys'.tasks[w] == Dead)
      ensures forall q :: Recorded(sys', w, q) ==> q == p
    {
      RecordedAfter(sys, op, w, p);
      forall q | Recorded(sys', w, q) ensures q == p { RecordedAfter(sys, op, w, q); }
      StateAfter(sys, op, w);
    }
  }

  /** A task that never calls ipc_server and never joins stays clean: only the peer, or its own end, ends its wait. */
  lemma {:induction false} CleanRun(sys: System, ops: seq<Op>, end: System, w: nat)
    requires Inv(sys) && Clean(sys, w) && Run(sys, ops, end)
    requires forall k :: 0 <= k < |ops| ==> !((ops[k].Serve? || ops[k].Join?) && ops[k].t == w)
    ensures Inv(end) && Clean(end, w)
    decreases |ops|
  {
    if |ops| > 0 {
      ExecKeeps(sys, ops[0]);
      CleanStep(sys, ops[0], w);
      CleanRun(Exec(sys, ops[0]), ops[1..], end, w);
    }
  }

  /**
   A waiting task is woken with its registration left behind exactly when the
   step wakes it for another place it is recorded in.
   */
  lemma SpuriousWakeIff(sys: System, op: Op, w: nat, c: nat, first: bool)
    requires Inv(sys) && Enabled(sys, op) && WaitsAt(sys, w, c, first) && w in sys.tasks && sys.tasks[w] == Blocked
    ensures Exec(sys, op).tasks[w] == Ready && WaitsAt(Exec(sys, op), w, c, first) <==>
      match Released(sys, op)
      case None => false
      case Some(p) => p != AtChannel(c, first) && Wakes(sys, op, w, p)
  {
    StateAfter(sys, op, w);
    RecordedAfter(sys, op, w, AtChannel(c, first));
  }

  /** So it never happens to a clean task. */
  lemma CleanIsNotSpurious(sys: System, op: Op, w: nat, c: nat, first: bool)
    requires Inv(sys) && Enabled(sys, op) && Clean(sys, w) && WaitsAt(sys, w, c, first)
    ensures w in sys.tasks && (sys.tasks[w] == Blocked || sys.tasks[w] == Dead)
    ensures Exec(sys, op).tasks[w] == Ready ==> !WaitsAt(Exec(sys, op), w, c, first)
  {
    assert Recorded(sys, w, AtChannel(c, first));
    StateAfter(sys, op, w);
    if sys.tasks[w] == Blocked { SpuriousWakeIff(sys, op, w, c, first); }
  }

  // ---- what happens to a server that receives ---------------------------------------------------------

  /**
   A task that has called ipc_server and then waits on a channel is woken by a
   connection, with its registration left in place: its receive then returns
   nothing, and so does the next one, which finds its own slot taken.
   */
  lemma SpuriousConnect(sys: System, w: nat, t: nat, s: nat, c: nat, len: nat) returns (end: System)
    requires Inv(sys) && Enabled(sys, Serve(w, s)) && Enabled(sys, Recv(w, c, len)) && Records(sys, Recv(w, c, len)).Some?
    requires t != w && t in sys.tasks && t in sys.owner && sys.tasks[t] == Ready
    ensures Run(sys, [Serve(w, s), Recv(w, c, len), Dispatch(t), Connect(t, s)], end)
    ensures w in end.tasks && w in end.owner && end.tasks[w] == Ready
    ensures WaitsAt(end, w, c, sys.channels[c].a.pid == sys.owner[w])
    ensures var again := end.(tasks := end.tasks[w := Running]); RecvStep(again, w, c, len) == again
  {
    hide Run, Inv;
    IdleSlot(sys, s);
    var ops, at := RunNone(sys);
    ops, at := RunMore(sys, ops, at, Serve(w, s));
    ops, at := RunMore(sys, ops, at, Recv(w, c, len));
    ops, at := RunMore(sys, ops, at, Dispatch(t));
    ops, end := RunMore(sys, ops, at, Connect(t, s));
    assert ops == [Serve(w, s), Recv(w, c, len), Dispatch(t), Connect(t, s)];
  }

  /**
   The record of a joiner outlives the join: when it waits on a channel later,
   one more kill of the thread it had joined wakes it out of that wait.
   */
  lemma JoinerWokenAgain(sys: System, w: nat, c: nat, len: nat) returns (end: System)
    requires Inv(sys) && IsRunning(sys, w) && Enabled(sys, Recv(w, c, len)) && Records(sys, Recv(w, c, len)).Some?
    ensures Run(sys, [Join(w), WakeJoiner(w), Dispatch(w), Recv(w, c, len), WakeJoiner(w)], end)
    ensures w in end.tasks && end.tasks[w] == Ready && WaitsAt(end, w, c, sys.channels[c].a.pid == sys.owner[w])
  {
    hide Run, Inv;
    var ops, at := RunNone(sys);
    ops, at := RunMore(sys, ops, at, Join(w));
    ops, at := RunMore(sys, ops, at, WakeJoiner(w));
    ops, at := RunMore(sys, ops, at, Dispatch(w));
    ops, at := RunMore(sys, ops, at, Recv(w, c, len));
    ops, end := RunMore(sys, ops, at, WakeJoiner(w));
    assert ops == [Join(w), WakeJoiner(w), Dispatch(w), Recv(w, c, len), WakeJoiner(w)];
  }

  lemma RunNone(sys: System) returns (ops: seq<Op>, end: System)
    requires Inv(sys)
    ensures ops == [] && end == sys && Run(sys, ops, end)
  {
    ops, end := [], sys;
  }

  lemma {:induction false} RunMore(sys: System, ops: seq<Op>, mid: System, op: Op) returns (more: seq<Op>, end: System)
    requires Inv(sys) && Run(sys, ops, mid) && Enabled(mid, op)
    ensures Inv(mid) && Inv(end) && end == Exec(mid, op) && more == ops + [op] && Run(sys, more, end)
    decreases |ops|
  {
    RunKeeps(sys, ops, mid);
    ExecKeeps(mid, op);
    end := Exec(mid, op);
    more := ops + [op];
    if ops == [] {
      assert more[1..] == [];
    } else {
      ExecKeeps(sys, ops[0]);
      var rest, _ := RunMore(Exec(sys, ops[0]), ops[1..], mid, op);
      assert more[1..] == rest;
    }
  }

  // ---- a waiter ipc_server forgets ---------------------------------------------------------------------

  /** The task waits, and is recorded nowhere. */
  ghost predicate Forgotten(sys: System, w: nat) {
    w in sys.tasks && (sys.tasks[w] == Blocked || sys.tasks[w] == Dead) && forall p :: !Recorded(sys, w, p)
  }

  lemma ForgottenStep(sys: System, op: Op, w: nat)
    requires Inv(sys) && Enabled(sys, op) && Forgotten(sys, w)
    ensures Forgotten(Exec(sys, op), w)
  {
    StateAfter(sys, op, w);
    forall p
      ensures !Recorded(Exec(sys, op), w, p)
    {
      RecordedAfter(sys, op, w, p);
    }
  }

  /** Over every run it never gets ready again. */
  lemma {:induction false} ForgottenRun(sys: System, ops: seq<Op>, end: System, w: nat)
    requires Inv(sys) && Forgotten(sys, w) && Run(sys, ops, end)
    ensures Forgotten(end, w)
    decreases |ops|
  {
    if |ops| > 0 {
      ExecKeeps(sys, ops[0]);
      ForgottenStep(sys, ops[0], w);
      ForgottenRun(Exec(sys, ops[0]), ops[1..], end, w);
    }
  }

  /**
   ipc_accept does not ask whether its slot is in use.  A task that waits at a
   free one is forgotten by the ipc_server that takes the slot.
   */
  lemma LostWaiter(sys: System, w: nat, t: nat, s: nat, ops: seq<Op>, end: System) returns (served: System)
    requires Inv(sys) && Clean(sys, w) && Enabled(sys, Accept(w, s)) && sys.servers[s].listener == None
    requires t != w && t in sys.tasks && t in sys.owner && sys.tasks[t] == Ready
    requires !sys.servers[s].named && forall i :: 0 <= i < s ==> sys.servers[i].named
    ensures Inv(served) && Run(sys, [Accept(w, s), Dispatch(t), Serve(t, s)], served)
    ensures w in served.tasks && served.tasks[w] == Blocked
    ensures Run(served, ops, end) ==> Forgotten(end, w)
  {
    hide Run, Inv, Clean;
    IdleSlot(sys, s);
    var first, at := RunNone(sys);
    first, at := RunMore(sys, first, at, Accept(w, s));
    first, at := RunMore(sys, first, at, Dispatch(t));
    first, served := RunMore(sys, first, at, Serve(t, s));
    assert first == [Accept(w, s), Dispatch(t), Serve(t, s)];
    NowhereElse(sys, w, s, at);
    forall p
      ensures !Recorded(served, w, p)
    {
      RecordedAfter(at, Serve(t, s), w, p);
    }
    if Run(served, ops, end) { ForgottenRun(served, ops, end, w); }
  }

  lemma IdleSlot(sys: System, s: nat)
    requires Inv(sys) && s < |sys.servers| && !sys.servers[s].named
    ensures sys.servers[s].pending == []
  {
    assert ServerOk(sys.servers[s], |sys.channels|);
  }

  lemma NowhereElse(sys: System, w: nat, s: nat, waits: System)
    requires Inv(sys) && Clean(sys, w) && IsRunning(sys, w) && s < |sys.servers|
    requires waits.channels == sys.channels && waits.elsewhere == sys.elsewhere && waits.joining == sys.joining
    requires s < |waits.servers| && waits.servers == sys.servers[s := waits.servers[s]]
    ensures forall p :: Recorded(waits, w, p) ==> p == AtServer(s)
  {
    forall p | Recorded(waits, w, p)
      ensures p == AtServer(s)
    {
      assert !Recorded(sys, w, p);
    }
  }

  /** Until the first connection, ipc_accept on a new server does not wait: the slot is taken by ipc_server itself. */
  lemma FirstAcceptRefused(sys: System, w: nat, s: nat, t: nat)
    requires Inv(sys) && Enabled(sys, Serve(w, s)) && IsRunning(sys, t)
    ensures var after := Exec(sys, Serve(w, s));
      Inv(after) && Exec(after, Accept(t, s)) == after
  {
    assert ServerOk(sys.servers[s], |sys.channels|);
    ExecKeeps(sys, Serve(w, s));
  }

  // ---- closing ----------------------------------------------------------------------------------------------

  /** A closed side stays closed: what was handed over stays what it was, and what was not stays in the pipe. */
  predicate Frozen(v: Side, v': Side) { v.closed ==> v'.closed && v'.got == v.got && v.out <= v'.out }

  predicate BothFrozen(v: Channel, v': Channel) { Frozen(v.a, v'.a) && Frozen(v.b, v'.b) }

  lemma ViewsFrozen(v: Channel, data: seq<bv8>, len: nat)
    requires SideOk(v.a) && SideOk(v.b)
    ensures BothFrozen(v, SendView(v, data)) && BothFrozen(v, RecvView(v, len)) && BothFrozen(v, CloseView(v))
  {}

  lemma StaysFrozen(ch: Channel)
    ensures BothFrozen(ch, ch)
    ensures forall l: Option<nat> :: BothFrozen(ch, ch.(a := ch.a.(listener := l))) && BothFrozen(ch, ch.(b := ch.b.(listener := l)))
  {}

  lemma ViewFrozen(ch: Channel, pid: nat, v: Channel, v': Channel)
    requires SeenBy(ch, pid) == Some(v) && BothFrozen(v, v')
    ensures BothFrozen(ch, PutBack(ch, pid, v'))
  {}

  lemma ClosedStep(sys: System, op: Op, c: nat)
    requires Inv(sys) && Enabled(sys, op) && c < |sys.channels|
    ensures c < |Exec(sys, op).channels| && BothFrozen(sys.channels[c], Exec(sys, op).channels[c])
  {
    if op.Send? || op.Recv? || op.RecvNb? || op.Close? {
      ChannelClosedStep(sys, op, c);
    }
  }

  lemma ChannelClosedStep(sys: System, op: Op, c: nat)
    requires Inv(sys) && Enabled(sys, op) && c < |sys.channels| && (op.Send? || op.Recv? || op.RecvNb? || op.Close?)
    ensures c < |Exec(sys, op).channels| && BothFrozen(sys.channels[c], Exec(sys, op).channels[c])
  {
    hide SendView, RecvView, CloseView, WaitOk, BothFrozen, PutBack;
    StaysFrozen(sys.channels[c]);
    var ch, pid := sys.channels[op.c], sys.owner[op.t];
    match SeenBy(ch, pid) {
      case None =>
      case Some(v) =>
        ViewsFrozen(v, if op.Send? then op.data else [], if op.Recv? || op.RecvNb? then op.len else 0);
        match op {
          case Send(_, _, data) => ViewFrozen(ch, pid, v, SendView(v, data));
          case Recv(t, _, len) =>
            ViewFrozen(ch, pid, v, RecvView(v, len));
            StaysFrozen(v);
            ViewFrozen(ch, pid, v, v.(a := v.a.(listener := Some(t))));
          case RecvNb(_, _, len) => ViewFrozen(ch, pid, v, RecvView(v, len));
          case Close(_, _) => ViewFrozen(ch, pid, v, CloseView(v));
        }
    }
  }

  /** Over every run after a close, none of the bytes left in the pipe are handed over. */
  lemma {:induction false} ClosedNeverDelivers(sys: System, ops: seq<Op>, end: System, c: nat)
    requires Inv(sys) && Run(sys, ops, end) && c < |sys.channels|
    ensures c < |end.channels| && BothFrozen(sys.channels[c], end.channels[c])
    decreases |ops|
  {
    if |ops| > 0 {
      ExecKeeps(sys, ops[0]);
      ClosedStep(sys, ops[0], c);
      ClosedNeverDelivers(Exec(sys, ops[0]), ops[1..], end, c);
    }
  }

  /** What the reader has at the close is all it ever gets: exactly the bytes still in the pipe are lost. */
  lemma LostAtClose(sys: System, t: nat, c: nat, ops: seq<Op>, end: System)
    requires Inv(sys) && Enabled(sys, Close(t, c)) && Inv(Exec(sys, Close(t, c)))
    requires sys.channels[c].a.pid == sys.owner[t] && Run(Exec(sys, Close(t, c)), ops, end)
    ensures c < |end.channels| && end.channels[c].a.got == sys.channels[c].a.got
    ensures sys.channels[c].a.sent == end.channels[c].a.got + sys.channels[c].a.out
  {
    ClosedNeverDelivers(Exec(sys, Close(t, c)), ops, end, c);
  }

  // ---- the two conditions are needed ------------------------------------------------------------

  /** A blocking receive keeps the invariant exactly when it asks for bytes or there are none to read. */
  lemma RecvKeepsIff(sys: System, t: nat, c: nat, len: nat)
    requires Inv(sys) && IsRunning(sys, t) && c < |sys.channels|
    requires SeenBy(sys.channels[c], sys.owner[t]).Some?
    ensures var v := SeenBy(sys.channels[c], sys.owner[t]).value;
      Inv(RecvStep(sys, t, c, len)) <==> len > 0 || v.b.closed || v.b.out == [] || v.a.listener.Some?
  {
    var v := SeenBy(sys.channels[c], sys.owner[t]).value;
    var sys' := RecvStep(sys, t, c, len);
    if len > 0 {
      RecvKeeps(sys, t, c, len);
    } else if v.b.closed {
      ReadQuiet(v, len);
      ViewKeeps(sys, c, sys.owner[t], v, RecvView(v, len), None);
    } else if v.a.listener == None {
      if v.b.out == [] {
        assert RecvStep(sys, t, c, 1) == sys';
        RecvKeeps(sys, t, c, 1);
      } else {
        var first := sys.channels[c].a.pid == sys.owner[t];
        assert WaitsAt(sys', t, c, first);
        assert !WaitOk(sys', t, c, first);
      }
    }
  }

  /** On a channel from a process to itself a receiver never gets what its own process sends. */
  lemma SelfChannelDeaf(c: Channel, pid: nat, data: seq<bv8>, len: nat)
    requires c.a.pid == pid && c.b.pid == pid && |c.a.out| <= PIPE_SIZE && c.b.out == [] && !c.b.closed
    ensures SeenBy(c, pid) == Some(c)
    ensures var after := PutBack(c, pid, SendView(c, data));
      SeenBy(after, pid) == Some(after) && RecvCode(after, len) == 0 && after.a.listener == c.a.listener
  {}
}
