/** kernel/ipc/pipe.c: a 4096-byte circular buffer with a read and a write position. */
module Pipe {
  import opened Options
  import opened Ipc
  import Division
  import PipeRace

  function Cell(n: nat): (r: nat)
    ensures r < 4096
  {
    n % 4096
  }

  /** n bytes from position p on, around the buffer. */
  function Around(buf: seq<bv8>, p: nat, n: nat): (r: seq<bv8>)
    requires |buf| == PIPE_SIZE
    ensures |r| == n && forall i :: 0 <= i < n ==> r[i] == buf[Cell(p + i)]
  {
    seq(n, i requires 0 <= i < n => buf[Cell(p + i)])
  }

  lemma AroundPut(buf: seq<bv8>, p: nat, n: nat, x: bv8)
    requires |buf| == PIPE_SIZE && n < PIPE_SIZE && p < PIPE_SIZE
    ensures Around(buf[Cell(p + n) := x], p, n + 1) == Around(buf, p, n) + [x]
  {
    var after := Around(buf[Cell(p + n) := x], p, n + 1);
    forall i | 0 <= i < n
      ensures after[i] == Around(buf, p, n)[i]
    {
      CellsDiffer(p, i, n);
    }
  }

  lemma CellsDiffer(p: nat, i: nat, n: nat)
    requires p < 4096 && i < n < 4096
    ensures Cell(p + i) != Cell(p + n)
  {}

  lemma AroundTake(buf: seq<bv8>, p: nat, n: nat)
    requires |buf| == PIPE_SIZE && 0 < n <= PIPE_SIZE && p < PIPE_SIZE
    ensures Around(buf, p, n) == [buf[p]] + Around(buf, Cell(p + 1), n - 1)
  {
    forall i | 0 < i < n
      ensures Around(buf, p, n)[i] == Around(buf, Cell(p + 1), n - 1)[i - 1]
    {
      NextCell(p, i);
    }
  }

  lemma NextCell(p: nat, i: nat)
    requires p < 4096 && i > 0
    ensures Cell(p + i) == Cell(Cell(p + 1) + (i - 1))
  {}

  class Pipe {
    const buf: array<bv8>
    var readPos: nat
    var writePos: nat
    var count: nat
    var listener: Option<nat>

    ghost predicate Valid()
      reads this
    {
      buf.Length == 4096 && readPos < 4096 && count <= 4096 && writePos == Cell(readPos + count)
    }

    ghost function Contents(): (s: seq<bv8>)
      requires Valid()
      reads this, buf
      ensures |s| == count
    {
      Around(buf[..], readPos, count)
    }

    /** The same fields as in r, whose positions count on without wrapping. */
    ghost predicate Matches(r: PipeRace.Racing)
      requires buf.Length == 4096
      reads this, buf
    {
      r.buf == buf[..] && r.count == count && Cell(r.passed) == readPos && Cell(|r.accepted|) == writePos
    }

    /** pipe_create */
    constructor ()
      ensures Valid() && fresh(buf) && Contents() == [] && listener == None
    {
      buf := new bv8[4096](i => 0);
      readPos, writePos, count, listener := 0, 0, 0, None;
    }

    /** One round of pipe_write's loop. */
    method WriteByte(x: bv8)
      requires Valid() && count < 4096
      modifies `writePos, `count, buf
      ensures Valid() && count == old(count) + 1 && Contents() == old(Contents()) + [x]
      ensures forall r: PipeRace.Racing :: old(Matches(r)) ==> Matches(PipeRace.Put(r, x))
    {
      AroundPut(buf[..], readPos, count, x);
      WritePosStep(readPos, count);
      hide Around;
      buf[writePos] := x;
      writePos := Cell(writePos + 1);
      count := count + 1;
      forall r: PipeRace.Racing | old(Matches(r))
        ensures Matches(PipeRace.Put(r, x))
      {
        Division.RemainderFirst(|r.accepted|, 1, 4096);
      }
    }

    /** pipe_write: bytes beyond the free space are dropped; the listener is released. */
    method Write(data: seq<bv8>) returns (woken: Option<nat>)
      requires Valid()
      modifies `writePos, `count, `listener, buf
      ensures Valid()
      ensures Contents() == old(Contents()) + data[..if |data| <= 4096 - old(count) then |data| else 4096 - old(count)]
      ensures forall r: PipeRace.Racing :: old(Matches(r)) ==> Matches(PipeRace.PutAll(r, data))
      ensures woken == old(listener) && listener == None
    {
      hide Around, Cell, PipeRace.Put, PipeRace.PutAll;
      var i := 0;
      ghost var before := Contents();
      assert before + data[..0] == before;
      PipeRace.PutAllNone(data);
      while i < |data|
        invariant 0 <= i <= |data| && Valid() && listener == old(listener)
        invariant old(count) + i == count <= 4096 && Contents() == before + data[..i]
        invariant forall r: PipeRace.Racing :: old(Matches(r)) ==> Matches(PipeRace.PutAll(r, data[..i]))
      {
        if count >= 4096 { break; }
        WriteByte(data[i]);
        assert before + data[..i] + [data[i]] == before + data[..i + 1];
        assert data[..i] + [data[i]] == data[..i + 1];
        forall r: PipeRace.Racing | old(Matches(r))
          ensures Matches(PipeRace.PutAll(r, data[..i + 1]))
        {
          PipeRace.PutAllLast(r, data[..i], data[i]);
        }
        i := i + 1;
      }
      forall r: PipeRace.Racing | old(Matches(r))
        ensures Matches(PipeRace.PutAll(r, data))
      {
        PipeRace.RestDropped(r, data, i);
      }
      woken := listener;
      listener := None;
    }

    /** One round of pipe_read's loop. */
    method ReadByte() returns (x: bv8)
      requires Valid() && count > 0
      modifies `readPos, `count
      ensures Valid() && count == old(count) - 1 && old(Contents()) == [x] + Contents()
    {
      AroundTake(buf[..], readPos, count);
      ReadPosStep(readPos, count);
      hide Around, Cell;
      x := buf[readPos];
      readPos := Cell(readPos + 1);
      count := count - 1;
    }

    /** pipe_read */
    method Read(maxLen: nat) returns (data: seq<bv8>)
      requires Valid()
      modifies `readPos, `count
      ensures Valid() && |data| == (if maxLen <= old(count) then maxLen else old(count))
      ensures old(Contents()) == data + Contents()
    {
      data := [];
      ghost var before := Contents();
      hide Contents, Cell;
      while |data| < maxLen && count > 0
        invariant Valid() && |data| <= maxLen && before == data + Contents()
        decreases count
      {
        var x := ReadByte();
        Reassociate(data, x, Contents());
        data := data + [x];
      }
    }

    /** pipe_add_listener */
    method AddListener(t: nat) returns (ok: bool)
      modifies `listener
      ensures ok <==> old(listener) == None
      ensures listener == if ok then Some(t) else old(listener)
    {
      if listener.Some? { return false; }
      listener := Some(t);
      return true;
    }
  }

  lemma Reassociate(head: seq<bv8>, x: bv8, rest: seq<bv8>)
    ensures head + ([x] + rest) == head + [x] + rest
  {}

  lemma WritePosStep(readPos: nat, count: nat)
    ensures Cell(Cell(readPos + count) + 1) == Cell(readPos + (count + 1))
  {}

  lemma ReadPosStep(readPos: nat, count: nat)
    requires 0 < count
    ensures Cell(Cell(readPos + 1) + (count - 1)) == Cell(readPos + count)
  {}
}
