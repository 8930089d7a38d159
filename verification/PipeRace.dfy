/**
 The read a blocked receiver does when it resumes.  schedule() has turned
 interrupts on again, so this pipe_read can be preempted between any two of its
 memory accesses; pipe_write runs with interrupts off and is one step.
 */
module PipeRace {
  import Division

  const SIZE: nat := 4096

  /** Where the reader is in its loop; `left` bytes are still asked for, `seen` is the count it has loaded. */
  datatype Phase = Idle | Check(left: int) | Copy(left: int) | Advance(left: int) | Load(left: int) | Store(left: int, seen: int)

  /**
   The fields of a pipe, and beside them all bytes ever accepted, the bytes
   handed over, and for each of those which accepted byte it was.
   */
  datatype Racing = Racing(buf: seq<bv8>, passed: nat, count: int, phase: Phase,
                           accepted: seq<bv8>, got: seq<bv8>, origin: seq<nat>)

  datatype Step = Start(len: nat) | Read | Write(data: seq<bv8>)

  function Cell(n: nat): (r: nat)
    ensures r < 4096
  {
    n % 4096
  }

  /** One byte of pipe_write, which stops at a full count. */
  function Put(p: Racing, x: bv8): Racing
    requires |p.buf| == SIZE
  {
    if p.count >= SIZE then p
    else p.(buf := p.buf[Cell(|p.accepted|) := x], count := p.count + 1, accepted := p.accepted + [x])
  }

  function PutAll(p: Racing, data: seq<bv8>): (r: Racing)
    requires |p.buf| == SIZE
    ensures |r.buf| == SIZE
    decreases |data|
  {
    if data == [] then p else PutAll(Put(p, data[0]), data[1..])
  }

  /** The next memory access of the reader. */
  function ReadStep(p: Racing): Racing
    requires |p.buf| == SIZE
  {
    match p.phase
    case Idle => p
    case Check(left) => p.(phase := if left > 0 && p.count > 0 then Copy(left) else Idle)
    case Copy(left) =>
      p.(phase := Advance(left), got := p.got + [p.buf[Cell(p.passed)]], origin := p.origin + [Latest(p.passed, |p.accepted|)])
    case Advance(left) => p.(phase := Load(left), passed := p.passed + 1)
    case Load(left) => p.(phase := Store(left, p.count))
    case Store(left, seen) => p.(phase := Check(left - 1), count := seen - 1)
  }

  /** The last of w accepted bytes that went to the cell of byte r. */
  function Latest(r: nat, w: nat): nat { if r < w then r + (w - 1 - r) / 4096 * 4096 else r }

  function Exec(p: Racing, s: Step): Racing
    requires |p.buf| == SIZE
  {
    match s
    case Start(len) => if p.phase == Idle then p.(phase := Check(len)) else p
    case Read => ReadStep(p)
    case Write(data) => PutAll(p, data)
  }

  // ---- the invariant ------------------------------------------------------------------------

  /** Bytes accepted and not yet passed by the read position, but no longer counted. */
  function Lag(p: Racing): int {
    |p.accepted| - p.passed -
    match p.phase
    case Load(_) => p.count - 1
    case Store(_, seen) => seen - 1
    case _ => p.count
  }

  ghost predicate Inv(p: Racing) {
    && |p.buf| == SIZE && 0 <= p.count <= SIZE && Lag(p) >= 0 && |p.got| == |p.origin|
    && |p.got| == (if p.phase.Advance? then p.passed + 1 else p.passed)
    && (p.phase.Copy? || p.phase.Advance? ==> p.count > 0) && (p.phase.Load? ==> p.count > 0)
    && (p.phase.Store? ==> 0 < p.phase.seen <= p.count)
    && (forall x :: 0 <= x < |p.accepted| && |p.accepted| <= x + SIZE ==> p.buf[Cell(x)] == p.accepted[x])
    && (forall i :: 0 <= i < |p.got| ==> p.origin[i] < |p.accepted| && p.got[i] == p.accepted[p.origin[i]])
  }

  lemma PutKeeps(p: Racing, x: bv8)
    requires Inv(p)
    ensures Inv(Put(p, x))
  {
    hide Cell;
    var q, w := Put(p, x), |p.accepted|;
    if p.count < SIZE {
      forall y | 0 <= y < |q.accepted| && |q.accepted| <= y + SIZE
        ensures q.buf[Cell(y)] == q.accepted[y]
      {
        if y < w { CellsDiffer(y, w); }
      }
    }
  }

  lemma CellsDiffer(x: nat, y: nat)
    requires x < y < x + 4096
    ensures Cell(x) != Cell(y)
  {
    assert (y - x) % 4096 == y - x;
  }

  lemma {:induction false} PutAllKeeps(p: Racing, data: seq<bv8>)
    requires Inv(p)
    ensures Inv(PutAll(p, data)) && PutAll(p, data).phase == p.phase && PutAll(p, data).passed == p.passed
    ensures PutAll(p, data).got == p.got && PutAll(p, data).origin == p.origin
    ensures PutAll(p, data).count - p.count == |PutAll(p, data).accepted| - |p.accepted| >= 0
    decreases |data|
  {
    if data != [] {
      PutKeeps(p, data[0]);
      PutAllKeeps(Put(p, data[0]), data[1..]);
    }
  }

  lemma LatestSameCell(r: nat, w: nat)
    requires r < w
    ensures r <= Latest(r, w) < w <= Latest(r, w) + 4096 && Cell(Latest(r, w)) == Cell(r)
    ensures Latest(r, w) == r <==> w - r <= 4096
  {
    var q := (w - 1 - r) / 4096;
    SameCell(r, q);
  }

  lemma SameCell(r: nat, q: nat)
    ensures Cell(r + q * 4096) == Cell(r)
  {
    Division.Unique(r + q * 4096, 4096, r / 4096 + q, r % 4096);
  }

  lemma ReadKeeps(p: Racing)
    requires Inv(p)
    ensures Inv(ReadStep(p))
  {
    if p.phase.Copy? {
      LatestSameCell(p.passed, |p.accepted|);
      hide Latest, Cell;
      assert p.buf[Cell(Latest(p.passed, |p.accepted|))] == p.accepted[Latest(p.passed, |p.accepted|)];
    }
  }

  lemma ExecKeeps(p: Racing, s: Step)
    requires Inv(p)
    ensures Inv(Exec(p, s))
  {
    match s
    case Start(_) =>
    case Read => ReadKeeps(p);
    case Write(data) => PutAllKeeps(p, data);
  }

  // ---- whole runs -------------------------------------------------------------------------------

  ghost predicate Run(p: Racing, steps: seq<Step>, end: Racing)
    requires Inv(p)
    decreases |steps|
  {
    if steps == [] then end == p else (ExecKeeps(p, steps[0]); Run(Exec(p, steps[0]), steps[1..], end))
  }

  /** Every byte handed over so far was the accepted byte of that number. */
  predicate InOrder(p: Racing) { forall i :: 0 <= i < |p.origin| ==> p.origin[i] == i }

  /** No byte is copied while more than 4096 accepted ones have not been passed. */
  ghost predicate NeverOverrun(p: Racing, steps: seq<Step>)
    requires Inv(p)
    decreases |steps|
  {
    steps == [] ||
    ((steps[0].Read? && p.phase.Copy? ==> |p.accepted| - p.passed <= SIZE)
     && (ExecKeeps(p, steps[0]); NeverOverrun(Exec(p, steps[0]), steps[1..])))
  }

  lemma OrderStep(p: Racing, s: Step)
    requires Inv(p)
    ensures p.origin <= Exec(p, s).origin
    ensures InOrder(p) ==> (InOrder(Exec(p, s)) <==> (s.Read? && p.phase.Copy? ==> |p.accepted| - p.passed <= SIZE))
  {
    if s.Write? { PutAllKeeps(p, s.data); }
    if s.Read? && p.phase.Copy? {
      LatestSameCell(p.passed, |p.accepted|);
      var q := Exec(p, s);
      assert q.origin[|p.origin|] == Latest(p.passed, |p.accepted|);
      hide Latest;
    }
  }

  lemma {:induction false} OriginsGrow(p: Racing, steps: seq<Step>, end: Racing)
    requires Inv(p) && Run(p, steps, end)
    ensures Inv(end) && p.origin <= end.origin
    decreases |steps|
  {
    if steps != [] {
      ExecKeeps(p, steps[0]);
      OrderStep(p, steps[0]);
      OriginsGrow(Exec(p, steps[0]), steps[1..], end);
    }
  }

  /**
   Each byte the reader gets is the accepted byte of that number exactly if it
   never copies from an overrun pipe; then what it got is a prefix.
   */
  lemma {:induction false} PrefixIff(p: Racing, steps: seq<Step>, end: Racing)
    requires Inv(p) && InOrder(p) && Run(p, steps, end)
    ensures InOrder(end) <==> NeverOverrun(p, steps)
    ensures InOrder(end) ==> end.got <= end.accepted
    decreases |steps|
  {
    OriginsGrow(p, steps, end);
    if steps != [] {
      var q := Exec(p, steps[0]);
      ExecKeeps(p, steps[0]);
      OrderStep(p, steps[0]);
      if InOrder(q) {
        PrefixIff(q, steps[1..], end);
      } else {
        OriginsGrow(q, steps[1..], end);
        var i :| 0 <= i < |q.origin| && q.origin[i] != i;
        assert end.origin[i] != i;
      }
    }
    assert InOrder(end) ==> |end.got| <= |end.accepted| by {
      if InOrder(end) && |end.got| > 0 { assert end.origin[|end.got| - 1] < |end.accepted|; }
    }
  }

  // ---- whole writes -----------------------------------------------------------------------------

  /** A write leaves its first bytes, as many as the count has room for. */
  lemma {:induction false} PutAllIs(p: Racing, data: seq<bv8>)
    requires Inv(p)
    ensures var n := if |data| <= 4096 - p.count then |data| else 4096 - p.count;
      PutAll(p, data).accepted == p.accepted + data[..n] && PutAll(p, data).count == p.count + n
    decreases |data|
  {
    if p.count >= SIZE {
      PutAllFull(p, data);
    } else if data != [] {
      PutKeeps(p, data[0]);
      PutAllIs(Put(p, data[0]), data[1..]);
      var n := if |data| <= 4096 - p.count then |data| else 4096 - p.count;
      assert [data[0]] + data[1..][..n - 1] == data[..n];
    }
  }

  lemma PutAllNone(data: seq<bv8>)
    ensures forall p: Racing :: |p.buf| == SIZE ==> PutAll(p, data[..0]) == p
  {}

  lemma {:induction false} PutAllLast(p: Racing, data: seq<bv8>, x: bv8)
    requires |p.buf| == SIZE
    ensures PutAll(p, data + [x]) == Put(PutAll(p, data), x)
    decreases |data|
  {
    if data == [] {
      assert data + [x] == [x];
    } else {
      assert (data + [x])[1..] == data[1..] + [x];
      PutAllLast(Put(p, data[0]), data[1..], x);
    }
  }

  lemma {:induction false} PutAllMore(p: Racing, data: seq<bv8>, more: seq<bv8>)
    requires |p.buf| == SIZE
    ensures PutAll(p, data + more) == PutAll(PutAll(p, data), more)
    decreases |data|
  {
    if data == [] {
      assert data + more == more;
    } else {
      assert (data + more)[1..] == data[1..] + more;
      PutAllMore(Put(p, data[0]), data[1..], more);
    }
  }

  lemma RestDropped(p: Racing, data: seq<bv8>, i: nat)
    requires |p.buf| == SIZE && i <= |data| && (i == |data| || PutAll(p, data[..i]).count >= SIZE)
    ensures PutAll(p, data) == PutAll(p, data[..i])
  {
    assert data == data[..i] + data[i..];
    PutAllMore(p, data[..i], data[i..]);
    if i < |data| { PutAllFull(PutAll(p, data[..i]), data[i..]); }
  }

  // ---- whatever the bytes are -------------------------------------------------------------------

  predicate SameShape(a: Step, b: Step) { if a.Write? then b.Write? && |b.data| == |a.data| else b == a }

  /** The same steps, with other bytes in the writes. */
  predicate SameSteps(a: seq<Step>, b: seq<Step>) { |a| == |b| && forall i :: 0 <= i < |a| ==> SameShape(a[i], b[i]) }

  /** Equal but for the bytes. */
  predicate Alike(p: Racing, q: Racing) {
    && p.passed == q.passed && p.count == q.count && p.phase == q.phase && p.origin == q.origin
    && |p.accepted| == |q.accepted| && |p.buf| == |q.buf| == SIZE
  }

  lemma {:induction false} PutAllAlike(p: Racing, data: seq<bv8>, q: Racing, data': seq<bv8>)
    requires Alike(p, q) && |data| == |data'|
    ensures Alike(PutAll(p, data), PutAll(q, data'))
    decreases |data|
  {
    if data != [] { PutAllAlike(Put(p, data[0]), data[1..], Put(q, data'[0]), data'[1..]); }
  }

  lemma ExecAlike(p: Racing, a: Step, q: Racing, b: Step)
    requires Alike(p, q) && SameShape(a, b)
    ensures Alike(Exec(p, a), Exec(q, b))
  {
    hide Cell, PutAll, Latest;
    if a.Write? { PutAllAlike(p, a.data, q, b.data); }
  }

  /** The bytes decide neither where the reader stands nor whether the pipe is overrun. */
  lemma {:induction false} RunsAlike(p: Racing, a: seq<Step>, end: Racing, q: Racing, b: seq<Step>, end': Racing)
    requires Inv(p) && Inv(q) && Alike(p, q) && SameSteps(a, b) && Run(p, a, end) && Run(q, b, end')
    ensures Alike(end, end') && (NeverOverrun(p, a) <==> NeverOverrun(q, b))
    decreases |a|
  {
    hide Inv, Alike;
    if a == [] {
    } else {
      ExecKeeps(p, a[0]);
      ExecKeeps(q, b[0]);
      assert SameShape(a[0], b[0]);
      SizeIs(p);
      SizeIs(q);
      ExecAlike(p, a[0], q, b[0]);
      RunsAlike(Exec(p, a[0]), a[1..], end, Exec(q, b[0]), b[1..], end');
      CopiesAlike(p, q);
    }
  }

  lemma SizeIs(p: Racing)
    requires Inv(p)
    ensures |p.buf| == SIZE
  {}

  lemma CopiesAlike(p: Racing, q: Racing)
    requires Alike(p, q)
    ensures p.phase == q.phase && |p.accepted| - p.passed == |q.accepted| - q.passed
  {}

  /** All bytes accepted are 0, but for number j. */
  predicate Marked(p: Racing, j: nat) { forall n :: 0 <= n < |p.accepted| ==> p.accepted[n] == if n == j then 1 else 0 }

  function Mark(w: nat, n: nat, j: nat): (r: seq<bv8>)
    ensures |r| == n && forall x :: 0 <= x < n ==> r[x] == if w + x == j then 1 else 0
  {
    seq(n, x => if w + x == j then 1 else 0)
  }

  lemma {:induction false} PutAllFull(p: Racing, data: seq<bv8>)
    requires |p.buf| == SIZE && p.count >= SIZE
    ensures PutAll(p, data) == p
    decreases |data|
  {
    if data != [] { PutAllFull(p, data[1..]); }
  }

  lemma {:induction false} PutAllMarked(p: Racing, n: nat, j: nat)
    requires |p.buf| == SIZE && Marked(p, j)
    ensures Marked(PutAll(p, Mark(|p.accepted|, n, j)), j)
    decreases n
  {
    var data := Mark(|p.accepted|, n, j);
    if p.count >= SIZE {
      PutAllFull(p, data);
    } else if n > 0 {
      var q := Put(p, data[0]);
      assert data[1..] == Mark(|q.accepted|, n - 1, j);
      PutAllMarked(q, n - 1, j);
    }
  }

  /** A run of the same steps that leaves byte j marked. */
  lemma {:induction false} MarkedRun(p: Racing, steps: seq<Step>, j: nat) returns (b: seq<Step>, end: Racing)
    requires Inv(p) && Marked(p, j)
    ensures SameSteps(steps, b) && Run(p, b, end) && Inv(end) && Marked(end, j)
    decreases |steps|
  {
    if steps == [] {
      b, end := [], p;
    } else {
      var s := if steps[0].Write? then Write(Mark(|p.accepted|, |steps[0].data|, j)) else steps[0];
      ExecKeeps(p, s);
      MarkedStep(p, s, j);
      var rest;
      rest, end := MarkedRun(Exec(p, s), steps[1..], j);
      b := [s] + rest;
      assert b[1..] == rest;
      assert forall i :: 0 <= i < |steps| ==> SameShape(steps[i], b[i]) by {
        forall i | 0 < i < |steps|
          ensures SameShape(steps[i], b[i])
        {
          assert SameShape(steps[1..][i - 1], rest[i - 1]);
        }
      }
    }
  }

  lemma MarkedStep(p: Racing, s: Step, j: nat)
    requires |p.buf| == SIZE && Marked(p, j) && (s.Write? ==> s.data == Mark(|p.accepted|, |s.data|, j))
    ensures Marked(Exec(p, s), j)
  {
    if s.Write? { PutAllMarked(p, |s.data|, j); }
  }

  /**
   From an empty pipe: what is handed over is a prefix of what was accepted,
   whatever bytes the writes carry, exactly if no copy meets an overrun pipe.
   */
  lemma AllContentsIff(p: Racing, steps: seq<Step>)
    requires Empty(p)
    ensures Inv(p)
    ensures (forall b, end :: SameSteps(steps, b) && Run(p, b, end) ==> end.got <= end.accepted) <==> NeverOverrun(p, steps)
  {
    hide Run, NeverOverrun, SameShape;
    EmptyInv(p);
    var plain, end0 := MarkedRun(p, steps, 0);
    if NeverOverrun(p, steps) {
      forall b, end | SameSteps(steps, b) && Run(p, b, end)
        ensures end.got <= end.accepted
      {
        OverrunSame(p, steps, b, end);
        PrefixIff(p, b, end);
      }
    } else {
      OverrunSame(p, steps, plain, end0);
      PrefixIff(p, plain, end0);
      var i :| 0 <= i < |end0.origin| && end0.origin[i] != i;
      var j := end0.origin[i];
      var b, end := MarkedRun(p, steps, j);
      SameTransitive(steps, plain, b);
      RunsAlike(p, plain, end0, p, b, end);
      NotPrefix(end, i, j);
    }
  }

  /** The byte in place i is the marked one, and not the one accepted there. */
  lemma NotPrefix(p: Racing, i: nat, j: nat)
    requires Inv(p) && Marked(p, j) && i < |p.origin| && p.origin[i] == j != i
    ensures !(p.got <= p.accepted)
  {
    assert p.got[i] == p.accepted[j] == 1;
    assert i < |p.accepted| ==> p.accepted[i] == 0;
  }

  lemma SameTransitive(a: seq<Step>, b: seq<Step>, c: seq<Step>)
    requires SameSteps(a, b) && SameSteps(a, c)
    ensures SameSteps(b, c)
  {
    forall i | 0 <= i < |b|
      ensures SameShape(b[i], c[i])
    {
      assert SameShape(a[i], b[i]) && SameShape(a[i], c[i]);
    }
  }

  lemma OverrunSame(p: Racing, a: seq<Step>, b: seq<Step>, end: Racing)
    requires Inv(p) && SameSteps(a, b) && Run(p, b, end)
    ensures NeverOverrun(p, a) <==> NeverOverrun(p, b)
  {
    var end' := RunExists(p, a);
    RunsAlike(p, a, end', p, b, end);
  }

  lemma {:induction false} RunExists(p: Racing, steps: seq<Step>) returns (end: Racing)
    requires Inv(p)
    ensures Run(p, steps, end)
    decreases |steps|
  {
    if steps == [] {
      end := p;
    } else {
      ExecKeeps(p, steps[0]);
      end := RunExists(Exec(p, steps[0]), steps[1..]);
    }
  }

  // ---- what the count misses --------------------------------------------------------------------

  /** The bytes accepted between a load of the count and the store that follows. */
  ghost function WindowBytes(p: Racing, steps: seq<Step>): int
    requires Inv(p)
    decreases |steps|
  {
    if steps == [] then 0
    else
      ExecKeeps(p, steps[0]);
      var q := Exec(p, steps[0]);
      (if steps[0].Write? && p.phase.Store? then |q.accepted| - |p.accepted| else 0) + WindowBytes(q, steps[1..])
  }

  lemma LagStep(p: Racing, s: Step)
    requires Inv(p)
    ensures Lag(Exec(p, s)) == Lag(p) + if s.Write? && p.phase.Store? then |Exec(p, s).accepted| - |p.accepted| else 0
  {
    if s.Write? { PutAllKeeps(p, s.data); }
  }

  /** Exactly those bytes are dropped from the count, and the count never finds them again. */
  lemma {:induction false} LagIsWindow(p: Racing, steps: seq<Step>, end: Racing)
    requires Inv(p) && Run(p, steps, end)
    ensures Lag(end) == Lag(p) + WindowBytes(p, steps)
    decreases |steps|
  {
    if steps != [] {
      ExecKeeps(p, steps[0]);
      LagStep(p, steps[0]);
      LagIsWindow(Exec(p, steps[0]), steps[1..], end);
    }
  }

  /** Nothing accepted in a window: then no overrun, whatever else is interleaved. */
  lemma {:induction false} QuietWindowsSafe(p: Racing, steps: seq<Step>)
    requires Inv(p) && Lag(p) == 0 && WindowBytes(p, steps) == 0
    ensures NeverOverrun(p, steps)
    decreases |steps|
  {
    if steps != [] {
      ExecKeeps(p, steps[0]);
      LagStep(p, steps[0]);
      WindowNat(Exec(p, steps[0]), steps[1..]);
      if steps[0].Write? { PutAllKeeps(p, steps[0].data); }
      QuietWindowsSafe(Exec(p, steps[0]), steps[1..]);
    }
  }

  lemma {:induction false} WindowNat(p: Racing, steps: seq<Step>)
    requires Inv(p)
    ensures WindowBytes(p, steps) >= 0
    decreases |steps|
  {
    if steps != [] {
      ExecKeeps(p, steps[0]);
      if steps[0].Write? { PutAllKeeps(p, steps[0].data); }
      WindowNat(Exec(p, steps[0]), steps[1..]);
    }
  }

  // ---- an overrun is reachable ------------------------------------------------------------------------

  predicate Empty(p: Racing) {
    |p.buf| == SIZE && p.passed == 0 && p.count == 0 && p.phase == Idle && p.accepted == [] && p.got == [] && p.origin == []
  }

  lemma {:induction false} PutAllFits(p: Racing, data: seq<bv8>)
    requires Inv(p) && p.count + |data| <= SIZE
    ensures PutAll(p, data).accepted == p.accepted + data && PutAll(p, data).count == p.count + |data|
    decreases |data|
  {
    if data == [] {
      assert p.accepted + data == p.accepted;
    } else {
      PutKeeps(p, data[0]);
      PutAllFits(Put(p, data[0]), data[1..]);
      assert p.accepted + [data[0]] + data[1..] == p.accepted + data;
    }
  }

  lemma {:induction false} RunMore(p: Racing, steps: seq<Step>, q: Racing, s: Step) returns (more: seq<Step>, r: Racing)
    requires Inv(p) && Run(p, steps, q)
    ensures |q.buf| == SIZE && r == Exec(q, s) && Inv(r) && Run(p, more, r)
    decreases |steps|
  {
    OriginsGrow(p, steps, q);
    ExecKeeps(q, s);
    r := Exec(q, s);
    more := steps + [s];
    if steps == [] {
      assert more[1..] == [];
    } else {
      ExecKeeps(p, steps[0]);
      assert more[1..] == steps[1..] + [s];
      var rest, _ := RunMore(Exec(p, steps[0]), steps[1..], q, s);
      more := [steps[0]] + rest;
      assert more[1..] == rest;
    }
  }

  /** One byte is accepted, copied and passed, and the count loaded. */
  lemma FirstByteRead(p: Racing, first: bv8) returns (steps: seq<Step>, r: Racing)
    requires Empty(p)
    ensures Inv(p) && Run(p, steps, r) && Inv(r)
    ensures r.phase == Store(2, 1) && r.count == 1 && r.passed == 1 && r.accepted == [first] && r.origin == [0]
  {
    hide Inv, Run, PutAll, Cell, Latest;
    EmptyInv(p);
    steps, r := RunMore(p, [], p, Write([first]));
    PutAllFits(p, [first]);
    PutAllKeeps(p, [first]);
    assert r.accepted == [first] && r.count == 1 && r.phase == Idle;
    steps, r := RunMore(p, steps, r, Start(2));
    steps, r := RunMore(p, steps, r, Read);
    assert r.phase == Copy(2);
    FirstLatest();
    steps, r := RunMore(p, steps, r, Read);
    assert r.phase == Advance(2) && r.origin == [0];
    steps, r := RunMore(p, steps, r, Read);
    assert r.phase == Load(2) && r.passed == 1;
    steps, r := RunMore(p, steps, r, Read);
  }

  lemma EmptyInv(p: Racing)
    requires Empty(p)
    ensures Inv(p) && Run(p, [], p)
  {}

  lemma FirstLatest()
    ensures Latest(0, 1) == 0 && Latest(1, 8192) == 4097
  {}

  /**
   One byte is read while 4095 more are accepted in the window; the count falls
   to 0, 4096 further bytes are accepted over them, and the second byte handed
   over is not the second byte sent but the one 4096 places later.
   */
  lemma OverrunReachable(p: Racing, first: bv8, mid: seq<bv8>, more: seq<bv8>) returns (steps: seq<Step>, end: Racing)
    requires Empty(p) && |mid| == 4095 && |more| == 4096
    ensures Inv(p) && Run(p, steps, end)
    ensures end.accepted == [first] + mid + more && end.origin == [0, 4097]
  {
    hide Inv, Run, PutAll, Cell, Latest;
    steps, end := FirstByteRead(p, first);
    PutAllFits(end, mid);
    PutAllKeeps(end, mid);
    steps, end := RunMore(p, steps, end, Write(mid));
    steps, end := RunMore(p, steps, end, Read);
    PutAllFits(end, more);
    PutAllKeeps(end, more);
    steps, end := RunMore(p, steps, end, Write(more));
    steps, end := RunMore(p, steps, end, Read);
    FirstLatest();
    steps, end := RunMore(p, steps, end, Read);
  }
}
