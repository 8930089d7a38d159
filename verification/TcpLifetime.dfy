/**
 The life of a connection of kernel/net/tcp.c: how two ends come to be in step,
 and what is left of them when one or both close.
 */
module TcpLifetime {
  import opened Options
  import opened Tcp
  import opened TcpRuns
  import Division

  // ---- sequence numbers --------------------------------------------------------------------

  lemma OneStep(n: U32)
    ensures Sub(Sub(Add(n, 1), n), 1) == 0 && Add(n, 0) == n && Add(n, 1) != n
  {
    if n + 1 == 0x1_0000_0000 {
      Division.Unique(n + 1, 0x1_0000_0000, 1, 0);
    } else {
      Division.Unique(n + 1, 0x1_0000_0000, 0, n + 1);
    }
    Division.Unique(n, 0x1_0000_0000, 0, n);
  }

  // ---- opening -------------------------------------------------------------------------------

  /** An end without history. */
  function EndOf(c: Conn): End { End(c, [], [], {}, 0, 0, 0, 0) }

  /** What each side does in the three-way handshake, segment by segment. */
  ghost predicate HandshakeLeads(x: U32, y: U32, a: Conn, b: Conn) {
    var syn := Active(x);
    && |syn.sent| == 1 && Passive(syn.sent[0], y).Some?
    && var synack := Passive(syn.sent[0], y).value;
    && |synack.sent| == 1
    && var ack := OnData(syn.conn, synack.sent[0], false);
    && |ack.sent| == 1
    && var done := OnData(synack.conn, ack.sent[0], true);
    && done.sent == [] && a == ack.conn && b == done.conn
  }

  /**
   An end that sends SYN, a listening port that answers SYN+ACK, and the ACK for
   that: two ends in step, whatever their initial sequence numbers.
   */
  lemma Handshake(x: U32, y: U32) returns (a: Conn, b: Conn)
    ensures HandshakeLeads(x, y, a, b) && InStep(World(EndOf(a), EndOf(b)))
    ensures a.isn == x && b.isn == y
  {
    hide Add, Sub, Store, RingGet;
    OneStep(x);
    OneStep(y);
    var syn := Active(x);
    var synack := Passive(syn.sent[0], y).value;
    assert synack.sent[0] == Segment(SYNACK, y, Add(x, 1), []);
    a := OnData(syn.conn, synack.sent[0], false).conn;
    AnsweredSyn(syn.conn, synack.sent[0]);
    var ack := OnData(syn.conn, synack.sent[0], false);
    assert ack.sent[0] == Segment(ACK, Add(x, 1), Add(y, 1), []);
    b := OnData(synack.conn, ack.sent[0], true).conn;
    AnsweredSynAck(synack.conn, ack.sent[0]);
  }

  lemma AnsweredSyn(c: Conn, s: Segment)
    requires c.claimed && c.state == SynSent && s.flags == SYNACK && s.payload == []
    requires c.sendHead == 0 && c.sendTail == 0 && Sub(Sub(s.ackNo, c.isn), 1) == 0
    ensures OnData(c, s, false) ==
      Outcome(c.(state := Established, ack := Add(s.seqNo, 1)), [Segment(ACK, c.seqNo, Add(s.seqNo, 1), [])])
  {
    hide RingGet, Add;
    assert Sub(0, 0) == 0;
    assert [Segment(ACK, c.seqNo, Add(s.seqNo, 1), [])] + [] == [Segment(ACK, c.seqNo, Add(s.seqNo, 1), [])];
  }

  lemma AnsweredSynAck(c: Conn, s: Segment)
    requires c.claimed && c.state == SynReceived && s.flags == ACK && s.payload == [] && s.seqNo == c.ack
    requires c.sendHead == 0 && c.sendTail == 0 && Sub(Sub(s.ackNo, c.isn), 1) == 0
    ensures OnData(c, s, true) == Outcome(c.(state := Established), [])
  {
    hide RingGet, Add;
    AddNothing(c.ack);
    assert Sub(0, 0) == 0;
  }

  lemma AddNothing(n: U32)
    ensures Add(n, 0) == n
  {}

  /** So everything proved of two ends in step holds from the first SYN on. */
  lemma StreamsFromOpening(x: U32, y: U32, moves: seq<Move>, end: World) returns (a: Conn, b: Conn)
    ensures HandshakeLeads(x, y, a, b)
    ensures Run(World(EndOf(a), EndOf(b)), moves, end) ==> end.y.got <= end.x.given && end.x.got <= end.y.given
  {
    a, b := Handshake(x, y);
    if Run(World(EndOf(a), EndOf(b)), moves, end) { ReceivedIsPrefixOfSent(World(EndOf(a), EndOf(b)), moves, end); }
  }

  /** Where the sequence numbers of a segment end. */
  function EndOfSegment(s: Segment, start: U32): U32 {
    Add(start, (if s.flags.syn || s.flags.fin then 1 else 0) + |s.payload|)
  }

  /** In SYN_SENT only SYN+ACK opens the connection; a reset drops it, and everything else is reset. */
  lemma SynSentIff(c: Conn, s: Segment, listening: bool)
    requires c.claimed && c.state == SynSent
    ensures var o, ack := OnData(c, s, listening), EndOfSegment(s, s.seqNo);
      && (o.conn.state == Established <==> !s.flags.rst && s.flags.syn && s.flags.ack)
      && (s.flags.rst ==> o == Outcome(c.(state := Closed, claimed := false), []))
      && (!s.flags.rst ==> o.conn.claimed && o.conn.ack == ack && |o.sent| >= 1)
      && (o.conn.state == Established ==> o.sent[0] == Segment(ACK, c.seqNo, ack, []))
      && (!s.flags.rst && !(s.flags.syn && s.flags.ack) ==> o.conn.state == SynSent && o.sent == [Segment(RST, c.seqNo, ack, [])])
  {
    hide RingGet, Add, Sub;
  }

  /** In SYN_RECEIVED only the expected ACK opens it, while its port is listened to. */
  lemma SynReceivedIff(c: Conn, s: Segment, listening: bool)
    requires c.claimed && c.state == SynReceived
    ensures var o, ack := OnData(c, s, listening), EndOfSegment(s, c.ack);
      && (o.conn.state == Established <==> !s.flags.rst && s.seqNo == c.ack && s.flags.ack && listening)
      && (s.flags.rst ==> o == Outcome(c.(state := Closed, claimed := false), []))
      && (!s.flags.rst && s.seqNo != c.ack ==> o == Outcome(c, []))
      && (!s.flags.rst && s.seqNo == c.ack ==> o.conn.claimed && o.conn.ack == ack)
      && (!s.flags.rst && s.seqNo == c.ack && s.flags.ack && !listening ==> o.conn.state == SynReceived && o.sent == [])
      && (!s.flags.rst && s.seqNo == c.ack && !s.flags.ack ==> o.conn.state == SynReceived && o.sent == [Segment(RST, c.seqNo, ack, [])])
  {
    hide RingGet, Add, Sub;
  }

  /**
   Bytes buffered before the connection is open go out behind its ACK, from the
   one the peer's SYN+ACK acknowledges on: all of them exactly if that is the first.
   */
  lemma OpeningFlushes(c: Conn, s: Segment, n: nat, k: nat)
    requires c.claimed && c.state == SynSent && c.sendTail == 0 && c.sendHead == n && k < n < 0x1_0000_0000
    requires s.flags == SYNACK && s.payload == [] && Offset(s.ackNo, c.isn) == k
    ensures var o := OnData(c, s, false);
      && o.sent == [Segment(ACK, c.seqNo, Add(s.seqNo, 1), []), Segment(ACK, c.seqNo, Add(s.seqNo, 1), RingGet(c.sendBuf, k, n - k))]
      && o.conn.state == Established && o.conn.seqNo == Add(c.seqNo, n - k) && o.conn.sendTail == n
      && (n - k == n <==> s.ackNo == Add(c.isn, 1))
  {
    hide RingGet, Add;
    assert Sub(n, k) == n - k;
    FirstAck(s.ackNo, c.isn);
  }

  /** Until then tcp_send only buffers: what was buffered stays, and the new bytes follow it. */
  lemma BufferedBeforeOpen(c: Conn, data: seq<bv8>, n: nat)
    requires c.claimed && c.state != Established && c.sendTail == 0 && c.sendHead == n && n + |data| <= 4096
    ensures var o := Send(c, data);
      && o.sent == [] && o.conn.state == c.state && o.conn.seqNo == c.seqNo && o.conn.sendTail == 0
      && o.conn.sendHead == n + |data| && RingGet(o.conn.sendBuf, 0, n + |data|) == RingGet(c.sendBuf, 0, n) + data
  {
    hide RingGet, RingPut;
    RingAppend(c.sendBuf, 0, n, data);
    if data == [] { assert RingGet(c.sendBuf, 0, n) + data == RingGet(c.sendBuf, 0, n); }
    NoWrap(n, |data|);
  }

  lemma FirstAck(no: U32, isn: U32)
    ensures Offset(no, isn) == 0 <==> no == Add(isn, 1)
  {
    OneStep(isn);
    hide Add;
    if no != Add(isn, 1) { OffsetInjectiveAt(no, Add(isn, 1), isn); }
  }

  lemma OffsetInjectiveAt(a: U32, b: U32, isn: U32)
    requires a != b
    ensures Offset(a, isn) != Offset(b, isn)
  {}

  // ---- every segment ---------------------------------------------------------------------------

  /** Whatever is sent carries the acknowledgement the connection has reached. */
  lemma CarriesAck(c: Conn, s: Segment, listening: bool, data: seq<bv8>)
    ensures forall seg :: seg in OnData(c, s, listening).sent ==> seg.ackNo == OnData(c, s, listening).conn.ack
    ensures forall seg :: seg in Send(c, data).sent ==> seg.ackNo == c.ack
    ensures forall seg :: seg in Terminate(c).sent ==> seg.ackNo == c.ack
  {
    hide RingGet, RingPut, Add, Sub;
  }

  /** An acknowledgement only ever moves the start of what is still to be sent, and only forward. */
  lemma AckMovesTail(c: Conn, s: Segment, listening: bool)
    requires Accepts(c, s) && c.state != SynSent && c.state != SynReceived
    ensures OnData(c, s, listening).conn.sendTail == if Offset(s.ackNo, c.isn) > c.sendTail then Offset(s.ackNo, c.isn) else c.sendTail
    ensures OnData(c, s, listening).conn.sendHead == c.sendHead && OnData(c, s, listening).conn.sendBuf == c.sendBuf
  {
    hide RingGet, RingPut, Add, Sub;
  }

  // ---- closing ------------------------------------------------------------------------------------

  /** Both ends open, each expecting the other's next sequence number. */
  predicate Agreed(c: Conn, d: Conn) {
    c.claimed && d.claimed && c.state == Established && d.state == Established && d.ack == c.seqNo && c.ack == d.seqNo
  }

  predicate Gone(c: Conn) { c.state == Closed && !c.claimed }

  lemma FinConsumed(c: Conn, s: Segment)
    requires Accepts(c, s) && c.state != SynSent && s.payload == []
    ensures Acknowledge(c, s).ack == if s.flags.syn || s.flags.fin then Add(c.ack, 1) else c.ack
  {
    AddNothing(c.ack);
  }

  /** An open end that gets a FIN answers with its own and waits for the last ACK. */
  lemma FinReceived(d: Conn, f: Segment)
    requires d.claimed && d.state == Established && f.flags == FIN && f.payload == [] && f.seqNo == d.ack
    ensures var o := OnData(d, f, false);
      && o.sent == [Segment(FINACK, d.seqNo, Add(d.ack, 1), [])] && o.conn.state == LastAck && o.conn.claimed
      && o.conn.seqNo == Add(d.seqNo, 1) && o.conn.ack == Add(d.ack, 1)
  {
    hide RingGet, RingPut, Add, Sub;
    FinConsumed(d, f);
    assert [Segment(FINACK, d.seqNo, Add(d.ack, 1), [])] == [] + [Segment(FINACK, d.seqNo, Add(d.ack, 1), [])];
  }

  /** A closing end that gets the peer's FIN acknowledges it and waits. */
  lemma FinAnswered(c: Conn, g: Segment)
    requires c.claimed && (c.state == FinWait1 || c.state == FinWait2) && (g.flags == FINACK || g.flags == FIN)
    requires g.payload == [] && g.seqNo == c.ack
    ensures var o := OnData(c, g, false);
      && o.sent == [Segment(ACK, c.seqNo, Add(c.ack, 1), [])] && o.conn.state == TimeWait && o.conn.claimed
      && o.conn.seqNo == c.seqNo && o.conn.ack == Add(c.ack, 1)
  {
    hide RingGet, RingPut, Add, Sub;
    FinConsumed(c, g);
  }

  lemma LastAckReceived(c: Conn, h: Segment)
    requires c.claimed && (c.state == LastAck || c.state == TimeWait) && h.flags == ACK && h.payload == [] && h.seqNo == c.ack
    ensures Gone(OnData(c, h, false).conn) && OnData(c, h, false).sent == []
  {
    hide RingGet, RingPut, Add, Sub;
  }

  /** One end closes: the other is gone in the end, and the one that closed waits. */
  lemma OneCloses(c: Conn, d: Conn)
    requires Agreed(c, d)
    ensures var fin := Terminate(c);
      && |fin.sent| == 1
      && var finack := OnData(d, fin.sent[0], false);
      && |finack.sent| == 1
      && var ack := OnData(fin.conn, finack.sent[0], false);
      && |ack.sent| == 1
      && var last := OnData(finack.conn, ack.sent[0], false);
      && last.sent == [] && Gone(last.conn) && ack.conn.state == TimeWait && ack.conn.claimed
  {
    hide OnData, Add;
    var fin := Terminate(c);
    FinReceived(d, fin.sent[0]);
    var finack := OnData(d, fin.sent[0], false);
    FinAnswered(fin.conn, finack.sent[0]);
    var ack := OnData(fin.conn, finack.sent[0], false);
    LastAckReceived(finack.conn, ack.sent[0]);
  }

  /** Both close before either hears of it: then both are gone in the end. */
  lemma BothClose(c: Conn, d: Conn)
    requires Agreed(c, d)
    ensures var f, g := Terminate(c), Terminate(d);
      && |f.sent| == 1 && |g.sent| == 1
      && var h, k := OnData(f.conn, g.sent[0], false), OnData(g.conn, f.sent[0], false);
      && |h.sent| == 1 && |k.sent| == 1
      && var i, j := OnData(h.conn, k.sent[0], false), OnData(k.conn, h.sent[0], false);
      && i.sent == [] && j.sent == [] && Gone(i.conn) && Gone(j.conn)
  {
    hide OnData, Add;
    var f, g := Terminate(c), Terminate(d);
    FinAnswered(f.conn, g.sent[0]);
    FinAnswered(g.conn, f.sent[0]);
    var h, k := OnData(f.conn, g.sent[0], false), OnData(g.conn, f.sent[0], false);
    LastAckReceived(h.conn, k.sent[0]);
    LastAckReceived(k.conn, h.sent[0]);
  }

  /** Data on its way to an end that has closed is acknowledged, not kept, and the close goes on as before. */
  lemma LateData(c: Conn, d: Conn, data: seq<bv8>)
    requires c.claimed && d.claimed && c.state == Established && d.state == Established && d.ack == c.seqNo && 0 < |data| < 0x1_0000
    requires d.seqNo == Add(c.ack, |data|)
    ensures var fin, late := Terminate(c), Segment(ACK, c.ack, d.ack, data);
      && var o := OnData(fin.conn, late, false);
      && o.conn.state == FinWait2 && o.sent == [] && o.conn.recvHead == c.recvHead && o.conn.recvBuf == c.recvBuf
      && |fin.sent| == 1
      && var finack := OnData(d, fin.sent[0], false);
      && |finack.sent| == 1
      && var ack := OnData(o.conn, finack.sent[0], false);
      && |ack.sent| == 1 && ack.conn.state == TimeWait && ack.conn.claimed
      && Gone(OnData(finack.conn, ack.sent[0], false).conn)
  {
    var fin, late := Terminate(c), Segment(ACK, c.ack, d.ack, data);
    LateReceived(fin.conn, late);
    hide OnData, Add;
    var o := OnData(fin.conn, late, false);
    FinReceived(d, fin.sent[0]);
    var finack := OnData(d, fin.sent[0], false);
    FinAnswered(o.conn, finack.sent[0]);
    var ack := OnData(o.conn, finack.sent[0], false);
    LastAckReceived(finack.conn, ack.sent[0]);
  }

  lemma LateReceived(c: Conn, s: Segment)
    requires c.claimed && c.state == FinWait1 && s.flags == ACK && s.seqNo == c.ack
    ensures var o := OnData(c, s, false);
      && o.sent == [] && o.conn.state == FinWait2 && o.conn.claimed && o.conn.seqNo == c.seqNo
      && o.conn.ack == Add(c.ack, |s.payload|) && o.conn.recvHead == c.recvHead && o.conn.recvBuf == c.recvBuf
  {
    hide RingGet, RingPut, Add, Sub;
  }

  // ---- states never entered ------------------------------------------------------------------------------

  predicate HalfClosed(c: Conn) { c.state == CloseWait || c.state == Closing }

  lemma OnDataNotHalfClosed(c: Conn, s: Segment, data: seq<bv8>)
    requires !HalfClosed(c)
    ensures !HalfClosed(OnData(c, s, false).conn) && !HalfClosed(Send(c, data).conn) && !HalfClosed(Terminate(c).conn)
  {
    hide RingGet, RingPut, Add, Sub;
  }

  /** CLOSE_WAIT and CLOSING are never entered, over every run. */
  lemma {:induction false} NeverHalfClosed(w: World, moves: seq<Move>, end: World)
    requires Run(w, moves, end) && !HalfClosed(w.x.conn) && !HalfClosed(w.y.conn)
    ensures !HalfClosed(end.x.conn) && !HalfClosed(end.y.conn)
    decreases |moves|
  {
    hide Send, OnData, Terminate, PayloadSent, FinsSent, HalfClosed, EnabledSide;
    if |moves| > 0 {
      var m := moves[0];
      var c := if m.first then w.x.conn else w.y.conn;
      OnDataNotHalfClosed(c, if m.act.Deliver? then m.act.s else Segment(ACK, 0, 0, []), if m.act.Give? then m.act.data else []);
      ReceiveKeepsState(c, if m.act.Take? then m.act.len else 0);
      NeverHalfClosed(StepSide(w, m), moves[1..], end);
    }
  }

  lemma ReceiveKeepsState(c: Conn, len: nat)
    ensures HalfClosed(Receive(c, len)) <==> HalfClosed(c)
  {}

  // ---- an end that waits for ever ---------------------------------------------------------------------

  /** x waits in TIME_WAIT with all of y's stream behind it; y is gone, and nothing it ever sent comes next. */
  ghost predicate Stuck(w: World) {
    && Inv(w) && w.x.conn.claimed && w.x.conn.state == TimeWait && !w.y.conn.claimed
    && w.x.acc == w.y.tx + w.y.fins
    && forall seg :: seg in w.x.inbox ==> Offset(seg.seqNo, w.y.conn.isn) < w.y.tx + w.y.fins
  }

  lemma StuckStep(w: World, m: Move)
    requires Stuck(w) && EnabledSide(w, m) && !(m.first && m.act.Close?)
    ensures Stuck(StepSide(w, m))
  {
    hide Inv, RingGet, RingPut, Add, React, PayloadSent, FinsSent, Received;
    CountNone();
    InvSwaps(w);
    StepKeeps(if m.first then w else Swap(w), m.act);
    InvSwaps(Step(if m.first then w else Swap(w), m.act));
    if m.first && m.act.Deliver? {
      NotNext(w, m.act.s);
    }
    NothingEmitted(w, m);
  }

  lemma InvSwaps(w: World)
    ensures Inv(Swap(w)) <==> Inv(w)
  {}

  /** No segment y ever sent has the number x waits for. */
  lemma NotNext(w: World, s: Segment)
    requires Stuck(w) && s in w.x.inbox
    ensures !Accepts(w.x.conn, s) && OnData(w.x.conn, s, false) == Outcome(w.x.conn, [])
  {
    hide React, Sub;
    assert SegOk(s, w.y, w.x);
    assert Offset(s.seqNo, w.y.conn.isn) < Offset(w.x.conn.ack, w.y.conn.isn);
  }

  lemma NothingEmitted(w: World, m: Move)
    requires Stuck(w) && EnabledSide(w, m) && !(m.first && m.act.Close?)
    requires m.first && m.act.Deliver? ==> OnData(w.x.conn, m.act.s, false) == Outcome(w.x.conn, []) && !Accepts(w.x.conn, m.act.s)
    ensures var w' := StepSide(w, m);
      && w'.x.conn.claimed && w'.x.conn.state == TimeWait && !w'.y.conn.claimed && w'.y.conn.isn == w.y.conn.isn
      && w'.x.acc == w.x.acc && w'.y.tx == w.y.tx && w'.y.fins == w.y.fins && w'.x.inbox == w.x.inbox
  {
    hide Inv, RingGet, RingPut, Add, React, PayloadSent, FinsSent, Received, Offset;
    CountNone();
  }

  /** TIME_WAIT has no timer: over every run the slot of the end that closed stays taken, unless it closes again. */
  lemma {:induction false} TimeWaitForever(w: World, moves: seq<Move>, end: World)
    requires Stuck(w) && Run(w, moves, end)
    requires forall k :: 0 <= k < |moves| ==> !(moves[k].first && moves[k].act.Close?)
    ensures Stuck(end)
    decreases |moves|
  {
    hide Stuck, StepSide, EnabledSide;
    if |moves| > 0 {
      StuckStep(w, moves[0]);
      TimeWaitForever(StepSide(w, moves[0]), moves[1..], end);
    }
  }

  /** Both ends open, with everything sent so far delivered, and sequence numbers left for the close. */
  ghost predicate Settled(w: World) {
    && Inv(w) && w.x.conn.claimed && w.y.conn.claimed && w.x.conn.state == Established && w.y.conn.state == Established
    && w.x.acc == w.y.tx && w.y.acc == w.x.tx && w.x.tx + 3 < 0x1_0000_0000 && w.y.tx + 3 < 0x1_0000_0000
  }

  lemma SettledAgree(w: World)
    requires Settled(w)
    ensures Agreed(w.x.conn, w.y.conn) && w.x.fins == 0 && w.y.fins == 0
  {
    hide Offset, SegOk;
    OffsetInjective(w.y.conn.ack, w.x.conn.seqNo, w.x.conn.isn);
    OffsetInjective(w.x.conn.ack, w.y.conn.seqNo, w.y.conn.isn);
  }

  function FinCount(sent: seq<Segment>): nat { if sent != [] && sent[0].flags.fin then 1 else 0 }

  /** A step that emits at most one bare header. */
  lemma EmitOne(w: World, x: End, sent: seq<Segment>)
    requires |sent| <= 1 && (sent != [] ==> sent[0].payload == [])
    ensures Emit(w, x, sent) == World(x.(fins := x.fins + FinCount(sent)), w.y.(inbox := w.y.inbox + set s | s in sent))
  {
    if sent == [] { CountNone(); } else {
      assert sent == [sent[0]];
      CountOne(sent[0]);
    }
  }

  /** The delivery of a bare segment that is accepted and draws at most a bare header. */
  lemma DeliverIs(w: World, s: Segment)
    requires Accepts(w.x.conn, s) && s.payload == []
    requires var sent := OnData(w.x.conn, s, false).sent; |sent| <= 1 && (sent != [] ==> sent[0].payload == [])
    ensures var o := OnData(w.x.conn, s, false);
      Step(w, Deliver(s)) == World(w.x.(conn := o.conn, acc := w.x.acc + (if s.flags.syn || s.flags.fin then 1 else 0),
                                        fins := w.x.fins + FinCount(o.sent)),
                                   w.y.(inbox := w.y.inbox + set t | t in o.sent))
  {
    hide OnData, PayloadSent, FinsSent, FinCount;
    var o := OnData(w.x.conn, s, false);
    EmitOne(w, w.x.(conn := o.conn, acc := w.x.acc + if s.flags.syn || s.flags.fin then 1 else 0), o.sent);
  }

  lemma {:induction false} RunMore(w: World, moves: seq<Move>, mid: World, m: Move) returns (more: seq<Move>, end: World)
    requires Run(w, moves, mid) && EnabledSide(mid, m)
    ensures end == StepSide(mid, m) && Run(w, more, end)
    decreases |moves|
  {
    hide StepSide, EnabledSide;
    end := StepSide(mid, m);
    if moves == [] {
      more := [m];
      assert more[1..] == [];
    } else {
      var rest, _ := RunMore(StepSide(w, moves[0]), moves[1..], mid, m);
      more := [moves[0]] + rest;
      assert more[1..] == rest;
    }
  }

  lemma RunNone(w: World)
    ensures Run(w, [], w)
  {}

  /** The state of two ends as far as the close goes. */
  ghost predicate At(w: World, x: Conn, y: Conn, xs: (nat, nat, nat), ys: (nat, nat, nat)) {
    w.x.conn == x && w.y.conn == y && (w.x.tx, w.x.fins, w.x.acc) == xs && (w.y.tx, w.y.fins, w.y.acc) == ys
  }

  /** A close by one end, delivered: from there on it is stuck. */
  lemma CloseSticks(w: World) returns (moves: seq<Move>, end: World)
    requires Settled(w)
    ensures Run(w, moves, end) && Stuck(end) && Gone(end.y.conn)
  {
    hide Run, OnData, Add, PayloadSent, FinsSent, Inv, Step;
    SettledAgree(w);
    var c, d, tx, ty := w.x.conn, w.y.conn, w.x.tx, w.y.tx;
    var fin := Terminate(c);
    var f := fin.sent[0];
    FinReceived(d, f);
    var finack := OnData(d, f, false);
    var g := finack.sent[0];
    FinAnswered(fin.conn, g);
    var ack := OnData(fin.conn, g, false);
    var h := ack.sent[0];
    LastAckReceived(finack.conn, h);
    IsnKept(d, f);
    IsnKept(finack.conn, h);
    RunNone(w);
    SettledRoom(w);
    CloseIs(w);
    moves, end := RunMore(w, [], w, Move(true, Close));
    assert At(end, fin.conn, d, (tx, 1, ty), (ty, 0, tx)) && end.y.inbox == w.y.inbox + {f} && end.x.inbox == w.x.inbox;
    DeliverIs(Swap(end), f);
    moves, end := RunMore(w, moves, end, Move(false, Deliver(f)));
    assert At(end, fin.conn, finack.conn, (tx, 1, ty), (ty, 1, tx + 1)) && end.x.inbox == w.x.inbox + {g};
    DeliverIs(end, g);
    moves, end := RunMore(w, moves, end, Move(true, Deliver(g)));
    assert At(end, ack.conn, finack.conn, (tx, 1, ty + 1), (ty, 1, tx + 1)) && h in end.y.inbox && end.x.inbox == w.x.inbox + {g};
    DeliverIs(Swap(end), h);
    moves, end := RunMore(w, moves, end, Move(false, Deliver(h)));
    SettledInv(w);
    RunKeeps(w, moves, end);
    StrictlyBefore(w, end, g);
  }

  lemma IsnKept(c: Conn, s: Segment)
    ensures OnData(c, s, false).conn.isn == c.isn
  {
    hide RingGet, RingPut, Add, Sub;
  }

  lemma CloseIs(w: World)
    requires w.x.conn.claimed
    ensures var o := Terminate(w.x.conn);
      Step(w, Close) == World(w.x.(conn := o.conn, fins := w.x.fins + 1), w.y.(inbox := w.y.inbox + {o.sent[0]}))
  {
    hide PayloadSent, FinsSent, Add;
    var o := Terminate(w.x.conn);
    EmitOne(w, w.x.(conn := o.conn), o.sent);
    assert (set s | s in o.sent) == {o.sent[0]};
  }

  lemma SettledInv(w: World)
    requires Settled(w)
    ensures Inv(w)
  {}

  lemma SettledRoom(w: World)
    requires Settled(w)
    ensures w.y.stored - |w.y.got| <= 4096
  {
    hide SegOk;
  }

  lemma StrictlyBefore(w: World, end: World, g: Segment)
    requires Settled(w) && g.seqNo == w.y.conn.seqNo && end.y.tx == w.y.tx && end.y.fins == 1 && end.y.conn.isn == w.y.conn.isn
    requires end.x.inbox == w.x.inbox + {g}
    ensures forall seg :: seg in end.x.inbox ==> Offset(seg.seqNo, end.y.conn.isn) < end.y.tx + end.y.fins
  {
    hide Offset;
    forall seg | seg in end.x.inbox
      ensures Offset(seg.seqNo, end.y.conn.isn) < end.y.tx + end.y.fins
    {
      if seg in w.x.inbox { assert SegOk(seg, w.y, w.x); }
    }
  }

}
