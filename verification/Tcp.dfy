/**
 The connection state machine of kernel/net/tcp.c as a value: 32-bit sequence
 arithmetic, two 4096-byte rings addressed by free-running counters, and the
 reaction to each segment.  Class Socket in TcpSocket.dfy implements it.
 */
module Tcp {
  import opened Options

  type U32 = n: nat | n < 0x1_0000_0000

  function Add(a: nat, b: nat): U32 { (a + b) % 0x1_0000_0000 }

  function Sub(a: U32, b: U32): U32 { if a >= b then a - b else a + 0x1_0000_0000 - b }

  // ---- rings --------------------------------------------------------------------

  type Ring = s: seq<bv8> | |s| == 4096 witness seq(4096, i => 0)

  /** buf[head++ % 4096] = data[i], for each byte in turn. */
  function RingPut(buf: Ring, head: nat, data: seq<bv8>): Ring {
    if |data| == 0 then buf
    else RingPut(buf, head, data[..|data| - 1])[(head + |data| - 1) % 4096 := data[|data| - 1]]
  }

  /** The n bytes from counter tail on. */
  function RingGet(buf: Ring, tail: nat, n: nat): (r: seq<bv8>)
    ensures |r| == n && forall i :: 0 <= i < n ==> r[i] == buf[(tail + i) % 4096]
  {
    seq(n, i requires 0 <= i < n => buf[(tail + i) % 4096])
  }

  lemma SameCell(x: nat, y: nat)
    requires x <= y < x + 4096 && x % 4096 == y % 4096
    ensures x == y
  {}

  /** A byte written is found at its counter as long as fewer than 4096 bytes follow it. */
  lemma {:induction false} RingPutAt(buf: Ring, head: nat, data: seq<bv8>, x: nat)
    requires head <= x < head + |data| <= x + 4096
    ensures RingPut(buf, head, data)[x % 4096] == data[x - head]
  {
    var n := |data| - 1;
    if x < head + n {
      RingPutAt(buf, head, data[..n], x);
      if x % 4096 == (head + n) % 4096 {
        SameCell(x, head + n);
      }
    }
  }

  /** A byte already in the ring survives while the span up to the new end is at most 4096. */
  lemma {:induction false} RingPutKeeps(buf: Ring, head: nat, data: seq<bv8>, x: nat)
    requires x < head && head + |data| <= x + 4096
    ensures RingPut(buf, head, data)[x % 4096] == buf[x % 4096]
  {
    if |data| > 0 {
      var n := |data| - 1;
      RingPutKeeps(buf, head, data[..n], x);
      if x % 4096 == (head + n) % 4096 {
        SameCell(x, head + n);
      }
    }
  }

  /**
   Appending n bytes to a ring that holds `held` unread ones preserves the
   stream whatever the bytes are, exactly when all of them fit in 4096.
   */
  lemma RingExact(buf: Ring, tail: nat, held: nat, n: nat)
    ensures (forall data: seq<bv8> :: |data| == n ==>
               RingGet(RingPut(buf, tail + held, data), tail, held + n) == RingGet(buf, tail, held) + data)
            <==> n == 0 || held + n <= 4096
  {
    if n == 0 || held + n <= 4096 {
      forall data: seq<bv8> | |data| == n
        ensures RingGet(RingPut(buf, tail + held, data), tail, held + n) == RingGet(buf, tail, held) + data
      {
        RingAppend(buf, tail, held, data);
      }
    } else {
      var data := RingOverflow(buf, tail, held, n);
    }
  }

  lemma RingAppend(buf: Ring, tail: nat, held: nat, data: seq<bv8>)
    requires |data| == 0 || held + |data| <= 4096
    ensures RingGet(RingPut(buf, tail + held, data), tail, held + |data|) == RingGet(buf, tail, held) + data
  {
    hide RingPut;
    var after := RingPut(buf, tail + held, data);
    if data == [] { RingPutNothing(buf, tail + held); }
    forall i | 0 <= i < held + |data|
      ensures after[(tail + i) % 4096] == (RingGet(buf, tail, held) + data)[i]
    {
      if |data| > 0 {
        if i < held {
          RingPutKeeps(buf, tail + held, data, tail + i);
        } else {
          RingPutAt(buf, tail + held, data, tail + i);
        }
      }
    }
  }

  lemma RingPutNothing(buf: Ring, head: nat)
    ensures RingPut(buf, head, []) == buf
  {}

  /** When they do not fit, some n bytes overwrite or repeat a byte of the stream. */
  lemma RingOverflow(buf: Ring, tail: nat, held: nat, n: nat) returns (data: seq<bv8>)
    requires n > 0 && held + n > 4096
    ensures |data| == n
    ensures RingGet(RingPut(buf, tail + held, data), tail, held + n) != RingGet(buf, tail, held) + data
  {
    // the last byte lands on the cell of the byte 4096 counters earlier
    var last := held + n - 1;
    var before := last - 4096;
    if before < held {
      var b: bv8 := if buf[(tail + before) % 4096] == 0 then 1 else 0;
      data := seq(n, i => b);
      assert (RingGet(buf, tail, held) + data)[before] == buf[(tail + before) % 4096];
    } else {
      data := seq(n, i => if i == n - 1 then 1 else 0);
      assert (RingGet(buf, tail, held) + data)[before] == 0;
    }
    var after := RingPut(buf, tail + held, data);
    assert after[(tail + last) % 4096] == data[n - 1];
    assert (tail + last) % 4096 == (tail + before) % 4096;
    assert RingGet(after, tail, held + n)[before] == data[n - 1];
  }

  // ---- connections and segments -----------------------------------------------------

  datatype State =
    | Closed | Listen | SynSent | SynReceived | Established | FinWait1 | FinWait2
    | CloseWait | Closing | TimeWait | LastAck

  datatype Conn = Conn(
    claimed: bool, state: State, seqNo: U32, ack: U32, isn: U32,
    recvBuf: Ring, recvHead: U32, recvTail: U32,
    sendBuf: Ring, sendHead: U32, sendTail: U32)

  datatype Flags = Flags(syn: bool, fin: bool, rst: bool, ack: bool)

  const SYN := Flags(true, false, false, false)
  const FIN := Flags(false, true, false, false)
  const RST := Flags(false, false, true, false)
  const ACK := Flags(false, false, false, true)
  const FINACK := Flags(false, true, false, true)
  const SYNACK := Flags(true, false, false, true)

  datatype Segment = Segment(flags: Flags, seqNo: U32, ackNo: U32, payload: seq<bv8>)

  /** A new connection state and the segments handed to ip_send. */
  datatype Outcome = Outcome(conn: Conn, sent: seq<Segment>)

  /** send_header: SYN and FIN take one sequence number. */
  function SendHeader(c: Conn, flags: Flags): Outcome {
    Outcome(c.(seqNo := if flags.syn || flags.fin then Add(c.seqNo, 1) else c.seqNo),
            [Segment(flags, c.seqNo, c.ack, [])])
  }

  function Zeros(): (r: Ring)
    ensures forall i :: 0 <= i < 4096 ==> r[i] == 0
  {
    seq(4096, i => 0)
  }

  /** create_active: a zeroed slot with its initial sequence number. */
  function Created(isn: U32, state: State): Conn { Conn(true, state, isn, 0, isn, Zeros(), 0, 0, Zeros(), 0, 0) }

  /** tcp_active: a connection that has sent its SYN. */
  function Active(isn: U32): Outcome { SendHeader(Created(isn, SynSent), SYN) }

  /** tcp_on_data for a listening port: a bare SYN makes a connection and is answered. */
  function Passive(s: Segment, isn: U32): Option<Outcome> {
    if s.flags != SYN then None else Some(SendHeader(Created(isn, SynReceived).(ack := Add(s.seqNo, 1)), SYNACK))
  }

  /** tcp_send_buffered_data for this socket: everything between tail and head in one segment. */
  function Flush(c: Conn): Outcome {
    var n := Sub(c.sendHead, c.sendTail);
    if c.state != Established || n == 0 then Outcome(c, [])
    else Outcome(c.(seqNo := Add(c.seqNo, n), sendTail := c.sendHead),
                 [Segment(ACK, c.seqNo, c.ack, RingGet(c.sendBuf, c.sendTail, n))])
  }

  function Then(o: Outcome, o': Outcome): Outcome { Outcome(o'.conn, o.sent + o'.sent) }

  function SendThenFlush(c: Conn, flags: Flags): Outcome {
    var o := SendHeader(c, flags);
    Then(o, Flush(o.conn))
  }

  function Drop(c: Conn): Conn { c.(state := Closed, claimed := false) }

  /** The sequence numbers a segment consumes are acknowledged before the state is looked at. */
  function Acknowledge(c: Conn, s: Segment): Conn {
    var start := if c.state == SynSent then s.seqNo else c.ack;
    var acked := Sub(Sub(s.ackNo, c.isn), 1);
    c.(ack := Add(start, (if s.flags.syn || s.flags.fin then 1 else 0) + |s.payload|),
       sendTail := if acked > c.sendTail then acked else c.sendTail)
  }

  function Store(c: Conn, payload: seq<bv8>): Conn {
    c.(recvBuf := RingPut(c.recvBuf, c.recvHead, payload), recvHead := Add(c.recvHead, |payload|))
  }

  function InEstablished(c: Conn, s: Segment): Outcome {
    var o := if |s.payload| > 0 then SendHeader(Store(c, s.payload), ACK) else Outcome(c, []);
    if s.flags.fin then Then(o, SendHeader(o.conn.(state := LastAck), FINACK)) else o
  }

  /** The switch of tcp_on_data on an acknowledged segment. */
  function React(c: Conn, s: Segment, listening: bool): Outcome {
    match c.state
    case SynSent =>
      if s.flags.syn && s.flags.ack then SendThenFlush(c.(state := Established), ACK) else SendHeader(c, RST)
    case SynReceived =>
      if !s.flags.ack then SendHeader(c, RST)
      else if !listening then Outcome(c, [])
      else Flush(c.(state := Established))
    case Established => InEstablished(c, s)
    case FinWait1 =>
      if s.flags.fin then SendHeader(c.(state := TimeWait), ACK)
      else Outcome(if s.flags.ack then c.(state := FinWait2) else c, [])
    case FinWait2 =>
      if s.flags.fin then SendHeader(c.(state := TimeWait), ACK) else Outcome(c, [])
    case CloseWait => Outcome(if s.flags.ack then Drop(c) else c, [])
    case Closing => Outcome(if s.flags.ack then Drop(c) else c, [])
    case TimeWait => Outcome(if s.flags.ack then Drop(c) else c, [])
    case LastAck => Outcome(if s.flags.ack then Drop(c) else c, [])
    case Closed => Outcome(c, [])
    case Listen => Outcome(c, [])
  }

  predicate Accepts(c: Conn, s: Segment) {
    c.claimed && !s.flags.rst && (c.state == SynSent || s.seqNo == c.ack)
  }

  /** tcp_on_data for a segment addressed to this socket. */
  function OnData(c: Conn, s: Segment, listening: bool): Outcome {
    if !c.claimed then Outcome(c, [])
    else if s.flags.rst then Outcome(Drop(c), [])
    else if c.state != SynSent && s.seqNo != c.ack then Outcome(c, [])
    else React(Acknowledge(c, s), s, listening)
  }

  function Send(c: Conn, data: seq<bv8>): Outcome {
    if |data| == 0 || !c.claimed then Outcome(c, [])
    else Flush(c.(sendBuf := RingPut(c.sendBuf, c.sendHead, data), sendHead := Add(c.sendHead, |data|)))
  }

  function Available(c: Conn, len: nat): nat {
    if !c.claimed then 0 else
      var avail := Sub(c.recvHead, c.recvTail);
      if len < avail then len else avail
  }

  function Received(c: Conn, len: nat): seq<bv8> { RingGet(c.recvBuf, c.recvTail, Available(c, len)) }

  function Receive(c: Conn, len: nat): Conn { c.(recvTail := Add(c.recvTail, Available(c, len))) }

  function Terminate(c: Conn): Outcome {
    if !c.claimed then Outcome(c, []) else SendHeader(c.(state := FinWait1), FIN)
  }

  /**
   An accepted segment's payload is put in the receive ring exactly when the
   connection was ESTABLISHED before it; in every other state the bytes are
   acknowledged (the ack number moves past them) and dropped.
   */
  lemma PayloadStoredIff(c: Conn, s: Segment, listening: bool)
    requires Accepts(c, s) && 0 < |s.payload| < 0x1_0000
    ensures var start := if c.state == SynSent then s.seqNo else c.ack;
      OnData(c, s, listening).conn.ack == Add(start, (if s.flags.syn || s.flags.fin then 1 else 0) + |s.payload|)
    ensures OnData(c, s, listening).conn.recvHead == Add(c.recvHead, |s.payload|) <==> c.state == Established
    ensures c.state != Established ==>
      OnData(c, s, listening).conn.recvBuf == c.recvBuf && OnData(c, s, listening).conn.recvHead == c.recvHead
  {
    var n := |s.payload|;
    assert Add(c.recvHead, n) != c.recvHead;
  }
}
