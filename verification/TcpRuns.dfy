/**
 Two endpoints of kernel/net/tcp.c over a network that loses, duplicates and
 reorders segments: a segment once sent may be delivered any number of times,
 in any order, or never.
 */
module TcpRuns {
  import opened Tcp

  /**
   One endpoint and its history.  `given` and `got` are the bytes passed to
   tcp_send and returned by tcp_receive; `inbox` the segments ever sent to it;
   `tx` and `fins` count the payload bytes and FINs it has transmitted, `acc`
   and `stored` the sequence numbers accepted from the peer and the bytes kept.
   */
  datatype End = End(conn: Conn, given: seq<bv8>, got: seq<bv8>, inbox: set<Segment>,
                     tx: nat, fins: nat, acc: nat, stored: nat)

  datatype World = World(x: End, y: End)

  function Swap(w: World): World { World(w.y, w.x) }

  datatype Act = Give(data: seq<bv8>) | Take(len: nat) | Close | Deliver(s: Segment)

  function PayloadSent(segs: seq<Segment>): nat {
    if |segs| == 0 then 0 else PayloadSent(segs[..|segs| - 1]) + |segs[|segs| - 1].payload|
  }

  function FinsSent(segs: seq<Segment>): nat {
    if |segs| == 0 then 0 else FinsSent(segs[..|segs| - 1]) + if segs[|segs| - 1].flags.fin then 1 else 0
  }

  function Emit(w: World, x: End, sent: seq<Segment>): World {
    World(x.(tx := x.tx + PayloadSent(sent), fins := x.fins + FinsSent(sent)),
          w.y.(inbox := w.y.inbox + set s | s in sent))
  }

  /** An action of endpoint x.  No socket listens, so a dropped connection stays dropped. */
  function Step(w: World, act: Act): World {
    match act
    case Give(data) =>
      var o := Send(w.x.conn, data);
      Emit(w, w.x.(conn := o.conn, given := if w.x.conn.claimed then w.x.given + data else w.x.given), o.sent)
    case Take(len) =>
      World(w.x.(conn := Receive(w.x.conn, len), got := w.x.got + Received(w.x.conn, len)), w.y)
    case Close =>
      var o := Terminate(w.x.conn);
      Emit(w, w.x.(conn := o.conn), o.sent)
    case Deliver(s) =>
      var o := OnData(w.x.conn, s, false);
      var kept := if Accepts(w.x.conn, s) && w.x.conn.state == Established then |s.payload| else 0;
      var taken := if Accepts(w.x.conn, s) then (if s.flags.syn || s.flags.fin then 1 else 0) + |s.payload| else 0;
      Emit(w, w.x.(conn := o.conn, acc := w.x.acc + taken, stored := w.x.stored + kept), o.sent)
  }

  /**
   What the environment respects: lengths are 16-bit, a connected sender passes
   at most a ring's worth at a time, the receiving application drains its ring
   in time, and neither direction uses up its 2^32 sequence numbers.
   */
  predicate Enabled(w: World, act: Act) {
    match act
    case Give(data) =>
      && |data| < 0x1_0000
      && (w.x.conn.state == Established ==> |data| <= 4096 && w.x.tx + |data| + w.x.fins < 0x1_0000_0000)
    case Take(len) => len < 0x1_0000
    case Close => w.x.tx + w.x.fins + 1 < 0x1_0000_0000
    case Deliver(s) =>
      && s in w.x.inbox && w.x.tx + w.x.fins + 1 < 0x1_0000_0000
      && (w.x.conn.state == Established ==> w.x.stored - |w.x.got| + |s.payload| <= 4096)
  }

  datatype Move = Move(first: bool, act: Act)

  function StepSide(w: World, m: Move): World { if m.first then Step(w, m.act) else Swap(Step(Swap(w), m.act)) }

  predicate EnabledSide(w: World, m: Move) { Enabled(if m.first then w else Swap(w), m.act) }

  ghost predicate Run(w: World, moves: seq<Move>, end: World)
    decreases |moves|
  {
    if |moves| == 0 then end == w
    else EnabledSide(w, moves[0]) && Run(StepSide(w, moves[0]), moves[1..], end)
  }

  // ---- the invariant, one direction at a time -------------------------------------------

  /** A sequence number as an offset into the sender's stream. */
  function Offset(no: U32, isn: U32): U32 { Sub(Sub(no, isn), 1) }

  /** A segment s sent: its place in s's stream, and an ack number r's stream has reached. */
  ghost predicate SegOk(seg: Segment, s: End, r: End) {
    var o := Offset(seg.seqNo, s.conn.isn);
    && !seg.flags.syn && !seg.flags.rst
    && o <= s.tx + s.fins && s.tx <= |s.given|
    && (seg.payload != [] ==> !seg.flags.fin && o + |seg.payload| <= s.tx && seg.payload == s.given[o..o + |seg.payload|])
    && (seg.flags.fin ==> s.tx <= o < s.tx + s.fins)
    && Offset(seg.ackNo, r.conn.isn) <= r.tx + r.fins
  }

  ghost predicate SenderOk(s: End) {
    && s.conn.state !in {SynSent, SynReceived, Listen}
    && s.tx <= |s.given| && s.tx + s.fins < 0x1_0000_0000
    && Offset(s.conn.seqNo, s.conn.isn) == s.tx + s.fins
    && (s.conn.state == Established ==>
          s.fins == 0 && s.tx == |s.given| && s.conn.sendHead == s.conn.sendTail == s.tx)
  }

  ghost predicate ReceiverOk(s: End, r: End) {
    && r.acc <= s.tx + s.fins && Offset(r.conn.ack, s.conn.isn) == r.acc
    && r.stored <= s.tx <= |s.given| && (r.conn.state == Established ==> r.acc == r.stored)
    && |r.got| <= r.stored <= |r.got| + 4096 && r.stored < 0x1_0000_0000
    && r.conn.recvHead == r.stored && r.conn.recvTail == |r.got|
    && r.got == s.given[..|r.got|]
    && (forall j :: |r.got| <= j < r.stored ==> r.conn.recvBuf[j % 4096] == s.given[j])
  }

  ghost predicate Direction(s: End, r: End) {
    && SenderOk(s) && ReceiverOk(s, r)
    && (forall seg :: seg in r.inbox ==> SegOk(seg, s, r))
  }

  ghost predicate Inv(w: World) { Direction(w.x, w.y) && Direction(w.y, w.x) }

  /** Two connected endpoints in step: nothing sent yet, each ack at the peer's first byte. */
  predicate InStep(w: World) {
    && Fresh(w.x) && Fresh(w.y)
    && w.x.conn.ack == Add(w.y.conn.isn, 1) && w.y.conn.ack == Add(w.x.conn.isn, 1)
  }

  predicate Fresh(e: End) {
    && e.conn.claimed && e.conn.state == Established && e.conn.seqNo == Add(e.conn.isn, 1)
    && e.conn.recvHead == 0 && e.conn.recvTail == 0 && e.conn.sendHead == 0 && e.conn.sendTail == 0
    && e.given == [] && e.got == [] && e.inbox == {} && e.tx == 0 && e.fins == 0 && e.acc == 0 && e.stored == 0
  }

  lemma InStepInv(w: World)
    requires InStep(w)
    ensures Inv(w)
  {}

  lemma OffsetAdd(no: U32, isn: U32, n: nat)
    requires Offset(no, isn) + n < 0x1_0000_0000
    ensures Offset(Add(no, n), isn) == Offset(no, isn) + n
  {}

  lemma OffsetInjective(a: U32, b: U32, isn: U32)
    requires Offset(a, isn) == Offset(b, isn)
    ensures a == b
  {}

  /** Segments stay well placed as both ends move on. */
  lemma SegOkGrows(seg: Segment, s: End, r: End, s': End, r': End)
    requires SegOk(seg, s, r) && s.tx <= |s.given|
    requires s'.conn.isn == s.conn.isn && r'.conn.isn == r.conn.isn
    requires s.given <= s'.given && s.tx <= s'.tx && s.tx + s.fins <= s'.tx + s'.fins && r.tx + r.fins <= r'.tx + r'.fins
    requires s'.tx <= |s'.given| && (s'.tx > s.tx ==> s.fins == 0)
    ensures SegOk(seg, s', r')
  {
    if seg.payload != [] {
      var o := Offset(seg.seqNo, s.conn.isn);
      assert s'.given[..|s.given|] == s.given;
      assert s.given[o..o + |seg.payload|] == s'.given[o..o + |seg.payload|];
    }
  }

  // ---- each action keeps it -----------------------------------------------------------------

  /** The sender side may move on freely as long as the stream it already sent stays put. */
  lemma ReceiverOkGrows(s: End, r: End, s': End)
    requires ReceiverOk(s, r) && s'.conn.isn == s.conn.isn
    requires s.given <= s'.given && s.tx <= s'.tx <= |s'.given| && s.tx + s.fins <= s'.tx + s'.fins
    ensures ReceiverOk(s', r)
  {
    assert forall j :: 0 <= j < |s.given| ==> s'.given[j] == s.given[j];
    assert s'.given[..|r.got|] == s.given[..|r.got|];
  }

  /** x has moved to x' and sent `sent`: both directions hold again. */
  lemma EmitKeeps(w: World, x': End, sent: seq<Segment>)
    requires Inv(w) && x'.inbox == w.x.inbox && x'.tx == w.x.tx && x'.fins == w.x.fins
    requires x'.conn.isn == w.x.conn.isn && w.x.given <= x'.given
    requires PayloadSent(sent) > 0 ==> w.x.fins == 0
    requires var x := Emit(w, x', sent).x;
      && SenderOk(x) && ReceiverOk(w.y, x)
      && (forall seg :: seg in sent ==> SegOk(seg, x, w.y))
    ensures Inv(Emit(w, x', sent))
  {
    var w' := Emit(w, x', sent);
    ReceiverOkGrows(w.x, w.y, w'.x);
    forall seg | seg in w'.y.inbox
      ensures SegOk(seg, w'.x, w'.y)
    {
      if seg in w.y.inbox {
        SegOkGrows(seg, w.x, w.y, w'.x, w'.y);
      } else {
        assert SegOk(seg, w'.x, w.y);
      }
    }
    forall seg | seg in w'.x.inbox
      ensures SegOk(seg, w'.y, w'.x)
    {
      SegOkGrows(seg, w.y, w.x, w'.y, w'.x);
    }
  }

  lemma CountOne(seg: Segment)
    ensures PayloadSent([seg]) == |seg.payload| && FinsSent([seg]) == if seg.flags.fin then 1 else 0
  {
    assert [seg][..0] == [];
  }

  lemma CountNone()
    ensures PayloadSent([]) == 0 && FinsSent([]) == 0
  {}

  /** tcp_send on a connection in step transmits exactly the bytes given, at the end of the stream so far. */
  lemma SendTransmits(x: End, data: seq<bv8>)
    requires SenderOk(x) && x.conn.claimed && x.conn.state == Established
    requires 0 < |data| <= 4096 && x.tx + |data| < 0x1_0000_0000
    ensures var o := Send(x.conn, data);
      && o.sent == [Segment(ACK, x.conn.seqNo, x.conn.ack, data)]
      && o.conn == x.conn.(seqNo := Add(x.conn.seqNo, |data|), sendBuf := RingPut(x.conn.sendBuf, x.conn.sendHead, data),
                           sendHead := x.tx + |data|, sendTail := x.tx + |data|)
  {
    hide RingPut, RingGet, Flush, Add;
    RingFresh(x.conn.sendBuf, x.tx, data);
    NoWrap(x.tx, |data|);
    FlushesAll(x.conn.(sendBuf := RingPut(x.conn.sendBuf, x.tx, data), sendHead := x.tx + |data|), |data|);
  }

  lemma NoWrap(a: nat, b: nat)
    requires a + b < 0x1_0000_0000
    ensures Add(a, b) == a + b
  {}

  lemma FlushesAll(c: Conn, n: nat)
    requires c.state == Established && n > 0 && c.sendHead == c.sendTail + n
    ensures Flush(c) == Outcome(c.(seqNo := Add(c.seqNo, n), sendTail := c.sendHead),
                                [Segment(ACK, c.seqNo, c.ack, RingGet(c.sendBuf, c.sendTail, n))])
  {
    hide RingGet, Add;
  }

  lemma RingFresh(buf: Ring, tail: nat, data: seq<bv8>)
    requires |data| <= 4096
    ensures RingGet(RingPut(buf, tail, data), tail, |data|) == data
  {
    RingAppend(buf, tail, 0, data);
    assert RingGet(buf, tail, 0) + data == data;
  }

  lemma GiveKeeps(w: World, data: seq<bv8>)
    requires Inv(w) && Enabled(w, Give(data))
    ensures Inv(Step(w, Give(data)))
  {
    if w.x.conn.claimed && |data| > 0 && w.x.conn.state == Established {
      GiveSends(w, data);
    } else {
      GiveHolds(w, data);
    }
  }

  lemma GiveSends(w: World, data: seq<bv8>)
    requires Inv(w) && Enabled(w, Give(data)) && w.x.conn.claimed && |data| > 0 && w.x.conn.state == Established
    ensures Inv(Step(w, Give(data)))
  {
    hide Send, RingPut, Add, PayloadSent, FinsSent;
    var c := w.x.conn;
    var seg := Segment(ACK, c.seqNo, c.ack, data);
    var o, x' := Send(c, data), w.x.(conn := Send(c, data).conn, given := w.x.given + data);
    SendTransmits(w.x, data);
    CountOne(seg);
    OffsetAdd(c.seqNo, c.isn, |data|);
    assert x'.given[w.x.tx..w.x.tx + |data|] == data;
    ReceiverOkSame(w.y, w.x, Emit(w, x', o.sent).x);
    assert SegOk(seg, Emit(w, x', o.sent).x, w.y);
    EmitKeeps(w, x', o.sent);
  }

  lemma GiveHolds(w: World, data: seq<bv8>)
    requires Inv(w) && Enabled(w, Give(data)) && !(w.x.conn.claimed && |data| > 0 && w.x.conn.state == Established)
    ensures Inv(Step(w, Give(data)))
  {
    hide RingPut, RingGet, Add, PayloadSent, FinsSent, ReceiverOk;
    var c := w.x.conn;
    var o := Send(c, data);
    var x' := w.x.(conn := o.conn, given := if c.claimed then w.x.given + data else w.x.given);
    assert o.sent == [];
    CountNone();
    ReceiverOkSame(w.y, w.x, Emit(w, x', o.sent).x);
    EmitKeeps(w, x', o.sent);
  }

  /** A receiver is as good as another with the same acknowledgement and the same ring. */
  lemma ReceiverOkSame(s: End, r: End, r': End)
    requires ReceiverOk(s, r) && r'.acc == r.acc && r'.stored == r.stored && r'.got == r.got
    requires r'.conn.ack == r.conn.ack && r'.conn.recvBuf == r.conn.recvBuf
    requires r'.conn.recvHead == r.conn.recvHead && r'.conn.recvTail == r.conn.recvTail
    requires r'.conn.state == Established ==> r.conn.state == Established
    ensures ReceiverOk(s, r')
  {}

  /** The bytes taken are the next of the stream. */
  lemma TakenBytes(s: End, r: End, len: nat)
    requires ReceiverOk(s, r)
    ensures var g, n := |r.got|, Available(r.conn, len);
      g + n <= r.stored <= |s.given| && r.got + Received(r.conn, len) == s.given[..g + n]
  {
    var n, g := Available(r.conn, len), |r.got|;
    forall i | 0 <= i < n
      ensures Received(r.conn, len)[i] == s.given[g + i]
    {
      assert r.conn.recvBuf[(g + i) % 4096] == s.given[g + i];
    }
  }

  lemma TakeReceiver(s: End, r: End, len: nat)
    requires ReceiverOk(s, r)
    ensures ReceiverOk(s, r.(conn := Receive(r.conn, len), got := r.got + Received(r.conn, len)))
  {
    hide RingGet, Received, Add;
    TakenBytes(s, r, len);
    NoWrap(r.conn.recvTail, Available(r.conn, len));
    assert r.got + Received(r.conn, len) == s.given[..|r.got| + Available(r.conn, len)];
  }

  lemma TakeKeeps(w: World, len: nat)
    requires Inv(w) && Enabled(w, Take(len))
    ensures Inv(Step(w, Take(len)))
  {
    hide ReceiverOk, Received, Available, SegOk;
    TakeReceiver(w.y, w.x, len);
    var w' := Step(w, Take(len));
    SameSender(w.y, w.x, w'.x);
    SentBySame(w.x, w.y, w'.x);
  }

  /** What r does with its receive ring changes nothing for the segments sent to it. */
  lemma SameSender(s: End, r: End, r': End)
    requires Direction(s, r) && ReceiverOk(s, r') && r'.inbox == r.inbox && r'.conn.isn == r.conn.isn
    requires r'.tx == r.tx && r'.fins == r.fins
    ensures Direction(s, r')
  {
    hide ReceiverOk, SenderOk;
    forall seg | seg in r'.inbox
      ensures SegOk(seg, s, r')
    {
      assert SegOk(seg, s, r);
    }
  }

  /** Nor for those it sent. */
  lemma SentBySame(s: End, r: End, s': End)
    requires Direction(s, r) && s'.conn.isn == s.conn.isn && s'.conn.seqNo == s.conn.seqNo && s'.conn.state == s.conn.state
    requires s'.conn.sendHead == s.conn.sendHead && s'.conn.sendTail == s.conn.sendTail
    requires s'.given == s.given && s'.tx == s.tx && s'.fins == s.fins
    ensures Direction(s', r)
  {
    forall seg | seg in r.inbox
      ensures SegOk(seg, s', r)
    {
      assert SegOk(seg, s, r);
    }
  }

  lemma CloseKeeps(w: World)
    requires Inv(w) && Enabled(w, Close)
    ensures Inv(Step(w, Close))
  {
    var o := Terminate(w.x.conn);
    if w.x.conn.claimed {
      CountOne(Segment(FIN, w.x.conn.seqNo, w.x.conn.ack, []));
      OffsetAdd(w.x.conn.seqNo, w.x.conn.isn, 1);
    }
    EmitKeeps(w, w.x.(conn := o.conn), o.sent);
  }

  lemma AcknowledgeFrame(c: Conn, s: Segment)
    ensures Acknowledge(c, s) == c.(ack := Acknowledge(c, s).ack, sendTail := Acknowledge(c, s).sendTail)
  {}

  /** The acknowledged connection of an accepted segment. */
  lemma AcknowledgeKeeps(w: World, s: Segment)
    requires Inv(w) && Enabled(w, Deliver(s)) && Accepts(w.x.conn, s)
    ensures var taken := (if s.flags.fin then 1 else 0) + |s.payload|;
      && !s.flags.syn && !s.flags.rst && (s.flags.fin ==> s.payload == [])
      && w.x.acc + taken <= w.y.tx + w.y.fins
      && Offset(Acknowledge(w.x.conn, s).ack, w.y.conn.isn) == w.x.acc + taken
      && (s.payload != [] ==> w.x.acc + |s.payload| <= w.y.tx && s.payload == w.y.given[w.x.acc..w.x.acc + |s.payload|])
      && (w.x.conn.state == Established ==> Acknowledge(w.x.conn, s).sendTail == w.x.conn.sendTail)
  {
    assert SegOk(s, w.y, w.x);
    var taken := (if s.flags.fin then 1 else 0) + |s.payload|;
    OffsetAdd(w.x.conn.ack, w.y.conn.isn, taken);
  }

  lemma DeliverKeeps(w: World, s: Segment)
    requires Inv(w) && Enabled(w, Deliver(s))
    ensures Inv(Step(w, Deliver(s)))
  {
    hide Inv, Step, Accepts, Enabled;
    if !Accepts(w.x.conn, s) {
      RefusedKeeps(w, s);
    } else if w.x.conn.state == Established {
      EstablishedKeeps(w, s);
    } else {
      ClosingKeeps(w, s);
    }
  }

  lemma RefusedKeeps(w: World, s: Segment)
    requires Inv(w) && Enabled(w, Deliver(s)) && !Accepts(w.x.conn, s)
    ensures Inv(Step(w, Deliver(s)))
  {
    hide React, PayloadSent, FinsSent, Offset, ReceiverOk;
    assert SegOk(s, w.y, w.x);
    assert OnData(w.x.conn, s, false) == Outcome(w.x.conn, []);
    CountNone();
    EmitKeeps(w, w.x, []);
  }

  /** A receiver that has acknowledged more and stored nothing. */
  lemma ReceiverOkAcks(s: End, r: End, r': End)
    requires ReceiverOk(s, r) && r'.stored == r.stored && r'.got == r.got && r'.conn.recvBuf == r.conn.recvBuf
    requires r'.conn.recvHead == r.conn.recvHead && r'.conn.recvTail == r.conn.recvTail
    requires r'.acc <= s.tx + s.fins && Offset(r'.conn.ack, s.conn.isn) == r'.acc
    requires r'.conn.state == Established ==> r'.acc == r.acc && r.conn.state == Established
    ensures ReceiverOk(s, r')
  {}

  lemma BareSegOk(seg: Segment, s: End, r: End)
    requires !seg.flags.syn && !seg.flags.rst && seg.payload == [] && s.tx <= |s.given|
    requires Offset(seg.seqNo, s.conn.isn) <= s.tx + s.fins && Offset(seg.ackNo, r.conn.isn) <= r.tx + r.fins
    requires seg.flags.fin ==> s.tx <= Offset(seg.seqNo, s.conn.isn) < s.tx + s.fins
    ensures SegOk(seg, s, r)
  {}

  /** Outside ESTABLISHED a segment changes only state, ack and send tail, and draws at most a bare ACK. */
  lemma ClosingReaction(c: Conn, s: Segment)
    requires Accepts(c, s) && c.state !in {SynSent, SynReceived, Listen, Established}
    ensures var o := OnData(c, s, false);
      && o.conn == c.(state := o.conn.state, claimed := o.conn.claimed, ack := Acknowledge(c, s).ack,
                      sendTail := o.conn.sendTail)
      && o.conn.state !in {SynSent, SynReceived, Listen, Established}
      && (o.sent == [] || o.sent == [Segment(ACK, c.seqNo, Acknowledge(c, s).ack, [])])
  {}

  /** Delivery outside ESTABLISHED stores nothing and never leads back to it. */
  lemma ClosingKeeps(w: World, s: Segment)
    requires Inv(w) && Enabled(w, Deliver(s)) && Accepts(w.x.conn, s) && w.x.conn.state != Established
    ensures Inv(Step(w, Deliver(s)))
  {
    hide OnData, React, Acknowledge, Offset, PayloadSent, FinsSent, ReceiverOk, SegOk;
    AcknowledgeKeeps(w, s);
    ClosingReaction(w.x.conn, s);
    var o := OnData(w.x.conn, s, false);
    var x' := w.x.(conn := o.conn, acc := w.x.acc + (if s.flags.fin then 1 else 0) + |s.payload|);
    CountNone();
    ReceiverOkAcks(w.y, w.x, Emit(w, x', o.sent).x);
    if o.sent != [] {
      CountOne(o.sent[0]);
      BareSegOk(o.sent[0], Emit(w, x', o.sent).x, w.y);
    }
    EmitKeeps(w, x', o.sent);
  }

  lemma StoreKeeps(w: World, s: Segment, x': End)
    requires Inv(w) && Enabled(w, Deliver(s)) && Accepts(w.x.conn, s) && w.x.conn.state == Established
    requires x'.got == w.x.got && x'.stored == w.x.stored + |s.payload|
    requires x'.conn.recvHead == Store(w.x.conn, s.payload).recvHead && x'.conn.recvTail == w.x.conn.recvTail
    requires x'.conn.recvBuf == Store(w.x.conn, s.payload).recvBuf
    ensures x'.stored <= w.y.tx && x'.conn.recvHead == x'.stored
    ensures forall j :: |x'.got| <= j < x'.stored ==> x'.conn.recvBuf[j % 4096] == w.y.given[j]
  {
    hide RingPut, Add, SegOk, SenderOk, Acknowledge;
    AcknowledgeKeeps(w, s);
    NoWrap(w.x.conn.recvHead, |s.payload|);
    forall j | |x'.got| <= j < x'.stored
      ensures x'.conn.recvBuf[j % 4096] == w.y.given[j]
    {
      if j < w.x.stored {
        RingPutKeeps(w.x.conn.recvBuf, w.x.conn.recvHead, s.payload, j);
      } else {
        RingPutAt(w.x.conn.recvBuf, w.x.conn.recvHead, s.payload, j);
      }
    }
  }

  /** In ESTABLISHED a segment of the invariant's kind is stored, closes the connection, or is a bare ACK. */
  lemma EstablishedReaction(c: Conn, s: Segment)
    requires Accepts(c, s) && c.state == Established && (s.flags.fin ==> s.payload == [])
    ensures var a := Acknowledge(c, s);
      OnData(c, s, false) ==
        if |s.payload| > 0 then Outcome(Store(a, s.payload), [Segment(ACK, c.seqNo, a.ack, [])])
        else if s.flags.fin then Outcome(a.(state := LastAck, seqNo := Add(c.seqNo, 1)), [Segment(FINACK, c.seqNo, a.ack, [])])
        else Outcome(a, [])
  {
    hide RingPut, Add;
  }

  lemma EstablishedKeeps(w: World, s: Segment)
    requires Inv(w) && Enabled(w, Deliver(s)) && Accepts(w.x.conn, s) && w.x.conn.state == Established
    ensures Inv(Step(w, Deliver(s)))
  {
    if |s.payload| > 0 {
      DataKeeps(w, s);
    } else {
      EmptyKeeps(w, s);
    }
  }

  lemma DataKeeps(w: World, s: Segment)
    requires Inv(w) && Enabled(w, Deliver(s)) && Accepts(w.x.conn, s) && w.x.conn.state == Established && |s.payload| > 0
    ensures Inv(Step(w, Deliver(s)))
  {
    hide OnData, React, Acknowledge, Offset, RingPut, Add, PayloadSent, FinsSent, SegOk;
    AcknowledgeKeeps(w, s);
    AcknowledgeFrame(w.x.conn, s);
    EstablishedReaction(w.x.conn, s);
    var o := OnData(w.x.conn, s, false);
    var x' := w.x.(conn := o.conn, acc := w.x.acc + |s.payload|, stored := w.x.stored + |s.payload|);
    CountOne(o.sent[0]);
    StoreKeeps(w, s, x');
    BareSegOk(o.sent[0], Emit(w, x', o.sent).x, w.y);
    EmitKeeps(w, x', o.sent);
  }

  lemma EmptyKeeps(w: World, s: Segment)
    requires Inv(w) && Enabled(w, Deliver(s)) && Accepts(w.x.conn, s) && w.x.conn.state == Established && s.payload == []
    ensures Inv(Step(w, Deliver(s)))
  {
    hide OnData, React, Acknowledge, Offset, RingPut, Add, PayloadSent, FinsSent, SegOk, ReceiverOk;
    AcknowledgeKeeps(w, s);
    AcknowledgeFrame(w.x.conn, s);
    EstablishedReaction(w.x.conn, s);
    var o := OnData(w.x.conn, s, false);
    var x' := w.x.(conn := o.conn, acc := w.x.acc + if s.flags.fin then 1 else 0);
    CountNone();
    ReceiverOkAcks(w.y, w.x, Emit(w, x', o.sent).x);
    if s.flags.fin {
      CountOne(o.sent[0]);
      OffsetAdd(w.x.conn.seqNo, w.x.conn.isn, 1);
      BareSegOk(o.sent[0], Emit(w, x', o.sent).x, w.y);
    }
    EmitKeeps(w, x', o.sent);
  }

  lemma StepKeeps(w: World, act: Act)
    requires Inv(w) && Enabled(w, act)
    ensures Inv(Step(w, act))
  {
    match act
    case Give(data) => GiveKeeps(w, data);
    case Take(len) => TakeKeeps(w, len);
    case Close => CloseKeeps(w);
    case Deliver(s) => DeliverKeeps(w, s);
  }

  lemma {:induction false} RunKeeps(w: World, moves: seq<Move>, end: World)
    requires Inv(w) && Run(w, moves, end)
    ensures Inv(end)
    decreases |moves|
  {
    if |moves| > 0 {
      StepKeeps(if moves[0].first then w else Swap(w), moves[0].act);
      RunKeeps(StepSide(w, moves[0]), moves[1..], end);
    }
  }

  /**
   End-to-end safety: whatever the network loses, repeats or reorders, and
   whichever end closes when, the bytes each application has received are a
   prefix of the bytes the other has sent.
   */
  lemma ReceivedIsPrefixOfSent(w: World, moves: seq<Move>, end: World)
    requires InStep(w) && Run(w, moves, end)
    ensures end.y.got <= end.x.given && end.x.got <= end.y.given
  {
    InStepInv(w);
    RunKeeps(w, moves, end);
  }

  /** The segment carrying `data`, delivered and drained at once. */
  function Prompt(w: World, data: seq<bv8>): World {
    var sent := Step(w, Give(data));
    var arrived := Swap(Step(Swap(sent), Deliver(Segment(ACK, w.x.conn.seqNo, w.x.conn.ack, data))));
    Swap(Step(Swap(arrived), Take(0xFFFF)))
  }

  /** On a network that delivers, the bytes do arrive: send, deliver, receive hands over exactly them. */
  lemma PromptDelivery(w: World, data: seq<bv8>)
    requires Inv(w) && Enabled(w, Give(data)) && 0 < |data|
    requires w.x.conn.claimed && w.x.conn.state == Established && w.y.conn.claimed && w.y.conn.state == Established
    requires w.y.acc == w.x.tx && w.y.got == w.x.given && w.y.tx + w.y.fins + 1 < 0x1_0000_0000
    ensures Prompt(w, data).y.got == w.y.got + data && Prompt(w, data).x.given == w.x.given + data
  {
    var seg := Segment(ACK, w.x.conn.seqNo, w.x.conn.ack, data);
    SendTransmits(w.x, data);
    CountOne(seg);
    GiveKeeps(w, data);
    var sent := Step(w, Give(data));
    assert seg in sent.y.inbox;
    OffsetInjective(w.x.conn.seqNo, w.y.conn.ack, w.x.conn.isn);
    assert Accepts(sent.y.conn, seg);
    DeliverKeeps(Swap(sent), seg);
    var arrived := Swap(Step(Swap(sent), Deliver(seg)));
    assert arrived.y.stored == w.y.stored + |data| && arrived.y.conn.claimed;
    TakeKeeps(Swap(arrived), 0xFFFF);
    var end := Prompt(w, data);
    assert |end.y.got| == arrived.y.stored;
    assert end.x.given == w.x.given + data;
    assert end.x.given[..|end.y.got|] == end.x.given;
  }
}
