/**
 What passes through the channels of module Ipc, over whole runs, in terms of
 the calls alone: the bytes handed to channel_send, and the order in which
 connections are accepted.
 */
module IpcStreams {
  import opened Options
  import opened Tasks
  import opened Ipc

  // ---- bytes ------------------------------------------------------------------------------

  function SideOf(ch: Channel, first: bool): Side { if first then ch.a else ch.b }

  /** The operation is a send from side `first` (or the other) of channel c. */
  predicate SendsFrom(sys: System, op: Op, c: nat, first: bool) {
    && op.Send? && op.c == c < |sys.channels| && op.t in sys.owner
    && if first then sys.channels[c].a.pid == sys.owner[op.t]
       else sys.channels[c].a.pid != sys.owner[op.t] && sys.channels[c].b.pid == sys.owner[op.t]
  }

  /** How many of n bytes there is room for beside those held. */
  function Room(held: nat, n: nat): nat { if held >= 4096 then 0 else if n <= 4096 - held then n else 4096 - held }

  /** The bytes a send of side `first` leaves in the pipe: its first ones, as many as there is room for. */
  function KeptBy(sys: System, op: Op, c: nat, first: bool): seq<bv8> {
    if SendsFrom(sys, op, c, first) then op.data[..Room(|SideOf(sys.channels[c], first).out|, |op.data|)] else []
  }

  function HandedBy(sys: System, op: Op, c: nat, first: bool): seq<bv8> {
    if SendsFrom(sys, op, c, first) then op.data else []
  }

  /** All the bytes the sends of a run leave in that pipe, in order. */
  ghost function Kept(sys: System, ops: seq<Op>, c: nat, first: bool): seq<bv8>
    requires Inv(sys)
    decreases |ops|
  {
    if ops == [] || !Enabled(sys, ops[0]) then []
    else
      ExecKeeps(sys, ops[0]);
      KeptBy(sys, ops[0], c, first) + Kept(Exec(sys, ops[0]), ops[1..], c, first)
  }

  /** All the bytes handed to channel_send. */
  ghost function Handed(sys: System, ops: seq<Op>, c: nat, first: bool): seq<bv8>
    requires Inv(sys)
    decreases |ops|
  {
    if ops == [] || !Enabled(sys, ops[0]) then []
    else
      ExecKeeps(sys, ops[0]);
      HandedBy(sys, ops[0], c, first) + Handed(Exec(sys, ops[0]), ops[1..], c, first)
  }

  /** No send hands over more than there is room for. */
  ghost predicate AllFit(sys: System, ops: seq<Op>, c: nat, first: bool)
    requires Inv(sys)
    decreases |ops|
  {
    ops == [] || !Enabled(sys, ops[0]) ||
    ((SendsFrom(sys, ops[0], c, first) ==> |SideOf(sys.channels[c], first).out| + |ops[0].data| <= 4096)
     && (ExecKeeps(sys, ops[0]); AllFit(Exec(sys, ops[0]), ops[1..], c, first)))
  }

  /** What a step adds to what a pipe has accepted. */
  lemma SentStep(sys: System, op: Op, c: nat, first: bool)
    requires Inv(sys) && Enabled(sys, op) && c < |sys.channels|
    ensures c < |Exec(sys, op).channels|
    ensures SideOf(Exec(sys, op).channels[c], first).sent == SideOf(sys.channels[c], first).sent + KeptBy(sys, op, c, first)
  {
    hide WaitOk, Wake, Block, SetReady, SetBlocked;
    assert SideOk(sys.channels[c].a) && SideOk(sys.channels[c].b);
    if op.Send? { SendAdds(sys, op, c, first); } else { OthersAdd(sys, op, c, first); }
  }

  lemma SendAdds(sys: System, op: Op, c: nat, first: bool)
    requires Inv(sys) && Enabled(sys, op) && c < |sys.channels| && op.Send?
    ensures c < |Exec(sys, op).channels|
    ensures SideOf(Exec(sys, op).channels[c], first).sent == SideOf(sys.channels[c], first).sent + KeptBy(sys, op, c, first)
  {
    hide WaitOk;
    assert SideOk(sys.channels[op.c].a) && SideOk(sys.channels[op.c].b);
    assert op.data[..|op.data|] == op.data;
  }

  lemma OthersAdd(sys: System, op: Op, c: nat, first: bool)
    requires Inv(sys) && Enabled(sys, op) && c < |sys.channels| && !op.Send?
    ensures c < |Exec(sys, op).channels|
    ensures SideOf(Exec(sys, op).channels[c], first).sent == SideOf(sys.channels[c], first).sent
  {
    hide WaitOk, Taken;
  }

  /** A new channel starts empty. */
  lemma FreshStep(sys: System, op: Op, c: nat, first: bool)
    requires Inv(sys) && Enabled(sys, op) && |sys.channels| <= c < |Exec(sys, op).channels|
    ensures SideOf(Exec(sys, op).channels[c], first).sent == [] && KeptBy(sys, op, c, first) == []
  {
    hide WaitOk;
  }

  function SentSoFar(sys: System, c: nat, first: bool): seq<bv8> {
    if c < |sys.channels| then SideOf(sys.channels[c], first).sent else []
  }

  lemma {:induction false} SentIsKept(sys: System, ops: seq<Op>, end: System, c: nat, first: bool)
    requires Inv(sys) && Run(sys, ops, end) && c < |end.channels|
    ensures SentSoFar(end, c, first) == SentSoFar(sys, c, first) + Kept(sys, ops, c, first)
    decreases |ops|
  {
    hide WaitOk, SidesOk, ServersOk, Exec, Enabled, KeptBy, SideOf;
    if |ops| > 0 {
      ExecKeeps(sys, ops[0]);
      SentIsKept(Exec(sys, ops[0]), ops[1..], end, c, first);
      OneStep(sys, ops[0], c, first);
    }
  }

  lemma OneStep(sys: System, op: Op, c: nat, first: bool)
    requires Inv(sys) && Enabled(sys, op)
    ensures SentSoFar(Exec(sys, op), c, first) == SentSoFar(sys, c, first) + KeptBy(sys, op, c, first)
  {
    hide WaitOk, SidesOk, ServersOk, Exec, Enabled, KeptBy, SideOf;
    if c < |sys.channels| {
      SentStep(sys, op, c, first);
    } else if c < |Exec(sys, op).channels| {
      FreshStep(sys, op, c, first);
    } else {
      NoChannel(sys, op, c, first);
    }
  }

  lemma NoChannel(sys: System, op: Op, c: nat, first: bool)
    requires c >= |sys.channels|
    ensures KeptBy(sys, op, c, first) == []
  {}

  /** Of all bytes handed over, all are kept if and only if every send fits. */
  lemma {:induction false} KeptIff(sys: System, ops: seq<Op>, c: nat, first: bool)
    requires Inv(sys)
    ensures |Kept(sys, ops, c, first)| <= |Handed(sys, ops, c, first)|
    ensures Kept(sys, ops, c, first) == Handed(sys, ops, c, first) <==> AllFit(sys, ops, c, first)
    decreases |ops|
  {
    hide WaitOk, SidesOk, ServersOk, Exec, Enabled, KeptBy, HandedBy, SendsFrom;
    if ops != [] && Enabled(sys, ops[0]) {
      ExecKeeps(sys, ops[0]);
      KeptByIff(sys, ops[0], c, first);
      KeptIff(Exec(sys, ops[0]), ops[1..], c, first);
      var k, h := KeptBy(sys, ops[0], c, first), HandedBy(sys, ops[0], c, first);
      var ks, hs := Kept(Exec(sys, ops[0]), ops[1..], c, first), Handed(Exec(sys, ops[0]), ops[1..], c, first);
      SumsEqual(k, ks, h, hs);
    }
  }

  lemma SumsEqual(k: seq<bv8>, ks: seq<bv8>, h: seq<bv8>, hs: seq<bv8>)
    requires |k| <= |h| && |ks| <= |hs|
    ensures k + ks == h + hs <==> k == h && ks == hs
  {
    if k + ks == h + hs {
      assert |k| == |h|;
      assert (k + ks)[..|k|] == k && (h + hs)[..|k|] == h;
      assert (k + ks)[|k|..] == ks && (h + hs)[|k|..] == hs;
    }
  }

  lemma KeptByIff(sys: System, op: Op, c: nat, first: bool)
    requires Inv(sys)
    ensures |KeptBy(sys, op, c, first)| <= |HandedBy(sys, op, c, first)|
    ensures KeptBy(sys, op, c, first) == HandedBy(sys, op, c, first) <==>
      (SendsFrom(sys, op, c, first) ==> |SideOf(sys.channels[c], first).out| + |op.data| <= 4096)
  {
    if SendsFrom(sys, op, c, first) {
      assert SideOk(sys.channels[c].a) && SideOk(sys.channels[c].b);
      var n := Room(|SideOf(sys.channels[c], first).out|, |op.data|);
      assert n == |op.data| ==> op.data[..n] == op.data;
    }
  }

  /**
   From boot, per direction and over every run: the bytes the peer has received
   and those still in the pipe are, in order, the first bytes of each send, as
   many as there was room for.  If every send fits, they are the bytes handed
   to channel_send.
   */
  lemma ReceivedIsWhatWasSent(sys: System, ops: seq<Op>, end: System, c: nat, first: bool)
    requires Initial(sys) && Inv(sys) && Run(sys, ops, end) && c < |end.channels|
    ensures var s := SideOf(end.channels[c], first);
      && s.got + s.out == Kept(sys, ops, c, first) && s.got <= Kept(sys, ops, c, first)
      && (AllFit(sys, ops, c, first) ==> s.got <= Handed(sys, ops, c, first))
  {
    hide Kept, Handed, AllFit, Run;
    SentIsKept(sys, ops, end, c, first);
    KeptIff(sys, ops, c, first);
    RunKeeps(sys, ops, end);
    assert SideOk(end.channels[c].a) && SideOk(end.channels[c].b);
  }

  // ---- connections --------------------------------------------------------------------------

  /** The channels queued at server s, in the order of their ipc_connect; a seventeenth is not queued. */
  ghost function Arrived(sys: System, ops: seq<Op>, s: nat): seq<nat>
    requires Inv(sys)
    decreases |ops|
  {
    if ops == [] || !Enabled(sys, ops[0]) then []
    else
      ExecKeeps(sys, ops[0]);
      (if ops[0].Connect? && ops[0].s == s && |sys.servers[s].pending| < 16 then [|sys.channels|] else [])
      + Arrived(Exec(sys, ops[0]), ops[1..], s)
  }

  /** The channel an accept at server s hands to its caller: the one whose second end it sets. */
  predicate Joined(sys: System, op: Op, s: nat, c: nat) {
    (op.Accept? || op.AcceptNb?) && op.s == s && s < |sys.servers| && sys.servers[s].pending != [] && sys.servers[s].pending[0] == c
  }

  /** The channels accepted at server s, in order. */
  ghost function Joins(sys: System, ops: seq<Op>, s: nat): seq<nat>
    requires Inv(sys)
    decreases |ops|
  {
    if ops == [] || !Enabled(sys, ops[0]) then []
    else
      ExecKeeps(sys, ops[0]);
      (if s < |sys.servers| && sys.servers[s].pending != [] && Joined(sys, ops[0], s, sys.servers[s].pending[0])
       then [sys.servers[s].pending[0]] else [])
      + Joins(Exec(sys, ops[0]), ops[1..], s)
  }

  /** An accept gives the oldest pending channel its second process, and touches no other. */
  lemma AcceptJoins(sys: System, op: Op, s: nat, c: nat)
    requires Inv(sys) && Enabled(sys, op) && Joined(sys, op, s, c)
    ensures c < |sys.channels| == |Exec(sys, op).channels|
    ensures Exec(sys, op).channels[c] == Channel(sys.channels[c].a, sys.channels[c].b.(pid := sys.owner[op.t]))
    ensures forall k :: 0 <= k < |sys.channels| && k != c ==> Exec(sys, op).channels[k] == sys.channels[k]
    ensures Exec(sys, op).tasks == sys.tasks
  {
    hide WaitOk;
    assert ServerOk(sys.servers[s], |sys.channels|);
  }

  /** A connect makes the caller's process the first end of a new channel. */
  lemma ConnectMakes(sys: System, t: nat, s: nat)
    requires Inv(sys) && Enabled(sys, Connect(t, s))
    ensures var sys' := Exec(sys, Connect(t, s));
      && |sys'.channels| == |sys.channels| + 1 && sys'.channels[..|sys.channels|] == sys.channels
      && var ch := sys'.channels[|sys.channels|];
      && ch.a.pid == sys.owner[t] && ch.a.out == [] && ch.b.out == [] && !ch.a.closed && !ch.b.closed
      && ch.a.listener == None && ch.b.listener == None
  {
    hide WaitOk;
  }

  lemma PendingStep(sys: System, op: Op, s: nat)
    requires Inv(sys) && Enabled(sys, op) && s < |sys.servers|
    ensures |Exec(sys, op).servers| == |sys.servers|
    ensures sys.servers[s].pending
            + (if op.Connect? && op.s == s && |sys.servers[s].pending| < 16 then [|sys.channels|] else [])
         == (if sys.servers[s].pending != [] && Joined(sys, op, s, sys.servers[s].pending[0]) then [sys.servers[s].pending[0]] else [])
            + Exec(sys, op).servers[s].pending
  {
    hide WaitOk, SendView, CloseView, RecvView;
    assert ServerOk(sys.servers[s], |sys.channels|);
  }

  /** Connections are accepted in the order they were made, none twice and none left out. */
  lemma {:induction false} AcceptedInOrder(sys: System, ops: seq<Op>, end: System, s: nat)
    requires Inv(sys) && Run(sys, ops, end) && s < |sys.servers|
    ensures |end.servers| == |sys.servers|
    ensures sys.servers[s].pending + Arrived(sys, ops, s) == Joins(sys, ops, s) + end.servers[s].pending
    decreases |ops|
  {
    hide WaitOk, SidesOk, ServersOk, Exec, Enabled, Joined;
    if |ops| > 0 {
      ExecKeeps(sys, ops[0]);
      PendingStep(sys, ops[0], s);
      AcceptedInOrder(Exec(sys, ops[0]), ops[1..], end, s);
      var next := Exec(sys, ops[0]);
      var p, q := sys.servers[s].pending, next.servers[s].pending;
      var a := if ops[0].Connect? && ops[0].s == s && |p| < 16 then [|sys.channels|] else [];
      var j := if p != [] && Joined(sys, ops[0], s, p[0]) then [p[0]] else [];
      Regroup(p, a, Arrived(next, ops[1..], s), j, q, Joins(next, ops[1..], s), end.servers[s].pending);
    }
  }

  lemma Regroup(p: seq<nat>, a: seq<nat>, more: seq<nat>, j: seq<nat>, q: seq<nat>, js: seq<nat>, e: seq<nat>)
    requires p + a == j + q && q + more == js + e
    ensures p + (a + more) == j + js + e
  {
    assert p + (a + more) == p + a + more;
    assert j + q + more == j + (q + more);
    assert j + (js + e) == j + js + e;
  }
}
