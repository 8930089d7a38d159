/** kernel/net/tcp.c: one active socket, updated in place, as module Tcp says. */
module TcpSocket {
  import opened Options
  import opened Tcp
  import Division

  /** A wrapping 32-bit counter still names the right cell, because 4096 divides 2^32. */
  lemma CellOfCounter(head: nat, i: nat)
    ensures Add(head, i) % 4096 == (head + i) % 4096
    ensures Add(Add(head, i), 1) == Add(head, i + 1)
  {
    CounterCell(head + i);
    AddTwice(head, i, 1);
  }

  lemma AddTwice(a: nat, b: nat, c: nat)
    ensures Add(Add(a, b), c) == Add(a, b + c)
  {
    Division.RemainderFirst(a + b, c, 0x1_0000_0000);
  }

  lemma CounterCell(n: nat)
    ensures n % 0x1_0000_0000 % 4096 == n % 4096
  {
    var q, r := n / 0x1_0000_0000, n % 0x1_0000_0000;
    Division.Unique(n, 4096, q * 0x10_0000 + r / 4096, r % 4096);
  }

  /** The copy loop of tcp_send_buffered_data counts in 16 bits: it ends if and only if fewer than 2^16 bytes wait. */
  lemma FlushEndsIff(waiting: nat)
    ensures (exists k: nat :: Counter16(k) >= waiting) <==> waiting < 0x1_0000
  {
    if waiting < 0x1_0000 { assert Counter16(waiting) == waiting; }
  }

  function Counter16(k: nat): nat { k % 0x1_0000 }

  lemma CounterStart(head: U32, to: U32)
    ensures Add(head, 0) == head && Add(head, Sub(to, head)) == to
  {
    Division.Unique(head, 0x1_0000_0000, 0, head);
    Division.Unique(head + Sub(to, head), 0x1_0000_0000, if to >= head then 0 else 1, to);
  }

  lemma RingPutStep(buf: Ring, head: nat, data: seq<bv8>, i: nat)
    requires i < |data|
    ensures RingPut(buf, head, data[..i + 1]) == RingPut(buf, head, data[..i])[(head + i) % 4096 := data[i]]
  {
    assert data[..i + 1][..i] == data[..i];
  }

  lemma RingPutNone(buf: Ring, head: nat, data: seq<bv8>)
    ensures RingPut(buf, head, data[..0]) == buf
  {}

  lemma RingGetStep(buf: Ring, tail: nat, i: nat)
    ensures RingGet(buf, tail, i + 1) == RingGet(buf, tail, i) + [buf[(tail + i) % 4096]]
  {}

  class Socket {
    var claimed: bool
    var state: State
    var seqNo: U32
    var ack: U32
    var isn: U32
    const recvBuf: array<bv8>
    var recvHead: U32
    var recvTail: U32
    const sendBuf: array<bv8>
    var sendHead: U32
    var sendTail: U32

    ghost predicate Valid() { recvBuf.Length == 4096 && sendBuf.Length == 4096 && recvBuf != sendBuf }

    ghost function View(): Conn
      requires Valid()
      reads this, recvBuf, sendBuf
    {
      Conn(claimed, state, seqNo, ack, isn, recvBuf[..], recvHead, recvTail, sendBuf[..], sendHead, sendTail)
    }

    /** create_active: a zeroed slot with a random initial sequence number. */
    constructor (random: U32, state: State)
      ensures Valid() && fresh(recvBuf) && fresh(sendBuf)
      ensures claimed && this.state == state && seqNo == random && isn == random && ack == 0
      ensures recvHead == 0 && recvTail == 0 && sendHead == 0 && sendTail == 0
      ensures View() == Created(random, state)
    {
      claimed, this.state, seqNo, isn, ack := true, state, random, random, 0;
      recvBuf := new bv8[4096](i => 0);
      sendBuf := new bv8[4096](i => 0);
      recvHead, recvTail, sendHead, sendTail := 0, 0, 0, 0;
      new;
      assert recvBuf[..] == Zeros() && sendBuf[..] == Zeros();
    }

    method SendHeader(flags: Flags) returns (out: seq<Segment>)
      requires Valid()
      modifies `seqNo
      ensures Outcome(View(), out) == Tcp.SendHeader(old(View()), flags)
    {
      out := [Segment(flags, seqNo, ack, [])];
      if flags.syn || flags.fin { seqNo := Add(seqNo, 1); }
    }

    /** tcp_send_buffered_data; its 16-bit loop counter bounds what may be buffered. */
    method Flush() returns (out: seq<Segment>)
      requires Valid() && (state == Established ==> Sub(sendHead, sendTail) < 0x1_0000)
      modifies `seqNo, `sendTail
      ensures Outcome(View(), out) == Tcp.Flush(old(View()))
    {
      hide Add, RingGet;
      CounterStart(sendTail, sendHead);
      var n := Sub(sendHead, sendTail);
      if state != Established || n == 0 { return []; }
      var data: seq<bv8> := [];
      for i := 0 to n
        invariant data == RingGet(sendBuf[..], old(sendTail), i)
        invariant sendTail == Add(old(sendTail), i) && seqNo == old(seqNo)
      {
        CellOfCounter(old(sendTail), i);
        RingGetStep(sendBuf[..], old(sendTail), i);
        data := data + [sendBuf[sendTail % 4096]];
        sendTail := Add(sendTail, 1);
      }
      out := [Segment(ACK, seqNo, ack, data)];
      seqNo := Add(seqNo, n);
    }

    method Store(payload: seq<bv8>)
      requires Valid()
      modifies recvBuf, `recvHead
      ensures View() == Tcp.Store(old(View()), payload)
    {
      hide Add, RingPut;
      CounterStart(recvHead, recvHead);
      RingPutNone(recvBuf[..], recvHead, payload);
      for i := 0 to |payload|
        invariant recvHead == Add(old(recvHead), i)
        invariant recvBuf[..] == RingPut(old(recvBuf[..]), old(recvHead), payload[..i])
      {
        CellOfCounter(old(recvHead), i);
        RingPutStep(old(recvBuf[..]), old(recvHead), payload, i);
        recvBuf[recvHead % 4096] := payload[i];
        recvHead := Add(recvHead, 1);
      }
      assert payload[..|payload|] == payload;
    }

    method InEstablished(s: Segment) returns (out: seq<Segment>)
      requires Valid() && state == Established
      modifies this, recvBuf
      ensures Outcome(View(), out) == Tcp.InEstablished(old(View()), s)
    {
      out := [];
      if |s.payload| > 0 {
        Store(s.payload);
        out := SendHeader(ACK);
      }
      if s.flags.fin {
        state := LastAck;
        var more := SendHeader(FINACK);
        out := out + more;
      }
    }

    /** tcp_on_data once the socket is found. */
    method OnData(s: Segment, listening: bool) returns (out: seq<Segment>)
      requires Valid()
      requires state in {SynSent, SynReceived} ==> Sub(sendHead, Acknowledge(View(), s).sendTail) < 0x1_0000
      modifies this, recvBuf
      ensures Outcome(View(), out) == Tcp.OnData(old(View()), s, listening)
    {
      hide Tcp.React, Add;
      AddTwice(if state == SynSent then s.seqNo else ack, 1, |s.payload|);
      out := [];
      if !claimed { return; }
      if s.flags.rst {
        state, claimed := Closed, false;
        return;
      }
      if state == SynSent {
        ack := s.seqNo;
      } else if s.seqNo != ack {
        return;
      }
      if s.flags.syn || s.flags.fin { ack := Add(ack, 1); }
      ack := Add(ack, |s.payload|);
      var acked := Sub(Sub(s.ackNo, isn), 1);
      if acked > sendTail { sendTail := acked; }
      assert View() == Acknowledge(old(View()), s);
      out := React(s, listening);
    }

    /** The switch of tcp_on_data. */
    method React(s: Segment, listening: bool) returns (out: seq<Segment>)
      requires Valid() && (state in {SynSent, SynReceived} ==> Sub(sendHead, sendTail) < 0x1_0000)
      modifies this, recvBuf
      ensures Outcome(View(), out) == Tcp.React(old(View()), s, listening)
    {
      out := [];
      match state {
        case SynSent =>
          if s.flags.syn && s.flags.ack {
            state := Established;
            out := SendHeader(ACK);
            var more := Flush();
            out := out + more;
          } else {
            out := SendHeader(RST);
          }
        case SynReceived =>
          if s.flags.ack {
            if !listening { return; }
            state := Established;
            out := Flush();
          } else {
            out := SendHeader(RST);
          }
        case Established =>
          out := InEstablished(s);
        case FinWait1 =>
          if s.flags.ack { state := FinWait2; }
          if s.flags.fin {
            state := TimeWait;
            out := SendHeader(ACK);
          }
        case FinWait2 =>
          if s.flags.fin {
            state := TimeWait;
            out := SendHeader(ACK);
          }
        case Closed =>
        case Listen =>
        case _ =>
          if s.flags.ack { state, claimed := Closed, false; }
      }
    }

    method Buffer(data: seq<bv8>)
      requires Valid()
      modifies sendBuf, `sendHead
      ensures sendHead == Add(old(sendHead), |data|)
      ensures sendBuf[..] == RingPut(old(sendBuf[..]), old(sendHead), data)
    {
      hide Add, RingPut;
      CounterStart(sendHead, sendHead);
      RingPutNone(sendBuf[..], sendHead, data);
      for i := 0 to |data|
        invariant sendHead == Add(old(sendHead), i)
        invariant sendBuf[..] == RingPut(old(sendBuf[..]), old(sendHead), data[..i])
      {
        CellOfCounter(old(sendHead), i);
        RingPutStep(old(sendBuf[..]), old(sendHead), data, i);
        sendBuf[sendHead % 4096] := data[i];
        sendHead := Add(sendHead, 1);
      }
      assert data[..|data|] == data;
    }

    /** tcp_send */
    method Send(data: seq<bv8>) returns (accepted: bool, out: seq<Segment>)
      requires Valid() && (state == Established ==> Sub(sendHead, sendTail) + |data| < 0x1_0000)
      modifies this, sendBuf
      ensures Outcome(View(), out) == Tcp.Send(old(View()), data)
      ensures accepted <==> data != [] && old(claimed)
    {
      hide RingPut;
      if |data| == 0 || !claimed { return false, []; }
      Buffer(data);
      out := Flush();
      accepted := true;
    }

    /** tcp_receive */
    method Receive(len: nat) returns (data: seq<bv8>)
      requires Valid()
      modifies `recvTail
      ensures data == Received(old(View()), len) && View() == Tcp.Receive(old(View()), len)
    {
      hide Add, RingGet;
      CounterStart(recvTail, recvHead);
      data := [];
      if !claimed { return; }
      var avail := Sub(recvHead, recvTail);
      var n := if len < avail then len else avail;
      for i := 0 to n
        invariant data == RingGet(recvBuf[..], old(recvTail), i)
        invariant recvTail == Add(old(recvTail), i)
      {
        CellOfCounter(old(recvTail), i);
        RingGetStep(recvBuf[..], old(recvTail), i);
        data := data + [recvBuf[recvTail % 4096]];
        recvTail := Add(recvTail, 1);
      }
    }

    /** tcp_terminate_connection */
    method Terminate() returns (out: seq<Segment>)
      requires Valid()
      modifies this
      ensures Outcome(View(), out) == Tcp.Terminate(old(View()))
    {
      if !claimed { return []; }
      state := FinWait1;
      out := SendHeader(FIN);
    }
  }

  /** tcp_active, once it has a slot and a port. */
  method TcpActive(random: U32) returns (s: Socket, out: seq<Segment>)
    ensures fresh(s) && s.Valid() && Outcome(s.View(), out) == Tcp.Active(random)
  {
    s := new Socket(random, SynSent);
    out := s.SendHeader(SYN);
  }

  /** tcp_on_data for a segment to a listening port, which no connection claims. */
  method TcpPassive(seg: Segment, random: U32) returns (s: Socket?, out: seq<Segment>)
    ensures s == null ==> Tcp.Passive(seg, random) == None && out == []
    ensures s != null ==> fresh(s) && s.Valid() && Tcp.Passive(seg, random) == Some(Outcome(s.View(), out))
  {
    if seg.flags != SYN { return null, []; }
    s := new Socket(random, SynReceived);
    s.ack := Add(seg.seqNo, 1);
    out := s.SendHeader(SYNACK);
  }
}
