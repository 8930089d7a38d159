/** The state in which one TRB too many stalls the controller is reached on a ring of any size. */
module TrbStall {
  import opened CyclePositions
  import opened Trbs
  import opened TrbRing

  lemma {:induction false} RunMore(r: Ring, steps: seq<Step>, q: Ring, s: Step) returns (more: seq<Step>)
    requires Run(r, steps, q) && Enabled(q, s)
    ensures Run(r, more, Exec(q, s))
    decreases |steps|
  {
    if steps == [] {
      more := [s];
      assert more[1..] == [];
    } else {
      var rest := RunMore(Exec(r, steps[0]), steps[1..], q, s);
      more := [steps[0]] + rest;
      assert more[1..] == rest;
    }
  }

  /** Idle between pushes, the controller at the start of a TRB, and the rest as in q. */
  predicate Between(r: Ring, q: Ring) {
    r.pc == Idle && r.phase == Look && r.cells == q.cells && r.deq == q.deq && r.taken == q.taken
  }

  lemma {:induction false} ProduceMore(r: Ring, steps: seq<Step>, q: Ring) returns (more: seq<Step>, q': Ring)
    requires Run(r, steps, q) && Inv(q)
    ensures q' == ProduceStep(q) && Run(r, more, q') && Inv(q')
  {
    hide Inv, ProduceStep, Run;
    more := RunMore(r, steps, q, Produce);
    q' := ProduceStep(q);
    ProduceKeeps(q);
  }

  /** A whole push, the Link included where one is due. */
  lemma Push(r: Ring, steps: seq<Step>, q: Ring, t: Trb) returns (more: seq<Step>, q': Ring)
    requires Run(r, steps, q) && Inv(q) && q.pc == Idle && q.phase == Look && Pushable(t) && Outstanding(q) < q.cells - 2
    ensures Run(r, more, q') && Inv(q') && Between(q', q) && q'.pushed == q.pushed + [t]
  {
    hide Inv, Run, WithCycle, CycleBit, IsLink;
    more := RunMore(r, steps, q, Begin(t));
    q' := q.(pc := PutParam(t));
    BeginKeeps(q, t);
    more, q' := ProduceMore(r, more, q');
    more, q' := ProduceMore(r, more, q');
    more, q' := ProduceMore(r, more, q');
    assert q'.pc == Bump && q'.pushed == q.pushed + [t];
    more, q' := ProduceMore(r, more, q');
    if q'.pc == LinkParam {
      more, q' := PutLink(r, more, q');
    }
  }

  lemma PutLink(r: Ring, steps: seq<Step>, q: Ring) returns (more: seq<Step>, q': Ring)
    requires Run(r, steps, q) && Inv(q) && q.pc == LinkParam && q.phase == Look
    ensures Run(r, more, q') && Inv(q') && Between(q', q) && q'.pushed == q.pushed
  {
    hide Inv, Run, WithCycle, CycleBit, IsLink;
    more, q' := ProduceMore(r, steps, q);
    more, q' := ProduceMore(r, more, q');
    more, q' := ProduceMore(r, more, q');
    more, q' := ProduceMore(r, more, q');
  }

  lemma LookSees(q: Ring)
    requires Inv(q) && q.taken < |q.pushed| && q.phase == Look && !AtLink(q, q.cells - 1)
    ensures ConsumeStep(q) == q.(phase := SawControl(TrbAt(q, q.deq).control))
  {
    var m := q.cells - 1;
    assert CellOk(q, m, q.taken);
    assert q.pushed[q.taken] in q.pushed;
    WithCycleReads(q.pushed[q.taken].control, Cyc(m, q.taken));
    hide Slot, Cyc, CycleBit, WithCycle, IsLink;
  }

  lemma Take(r: Ring, steps: seq<Step>, q: Ring) returns (more: seq<Step>, q': Ring)
    requires Run(r, steps, q) && Inv(q) && q.taken < |q.pushed| && q.phase == Look && !AtLink(q, q.cells - 1)
    ensures Run(r, more, q') && Inv(q') && Between(q'.(pc := Idle), q.(deq := q.deq + 1, taken := q.taken + 1))
    ensures q'.pc == q.pc && q'.pushed == q.pushed
  {
    hide Inv, Run, CycleBit, IsLink;
    LookSees(q);
    ConsumeKeeps(q);
    more := RunMore(r, steps, q, Consume);
    var q1 := ConsumeStep(q);
    ConsumeKeeps(q1);
    more := RunMore(r, more, q1, Consume);
    var q2 := ConsumeStep(q1);
    ConsumeKeeps(q2);
    more := RunMore(r, more, q2, Consume);
    q' := ConsumeStep(q2);
  }

  /** A first lap read TRB by TRB, then cells - 2 pushes while the controller is still at the Link. */
  lemma StallReachable(r: Ring, t: Trb) returns (steps: seq<Step>, end: Ring)
    requires Initial(r) && Pushable(t)
    ensures Run(r, steps, end) && Inv(end) && end.cells == r.cells
    ensures end.pc == Idle && AtLink(end, end.cells - 1) && end.phase == Look && Outstanding(end) == end.cells - 2
  {
    InitialInv(r);
    hide Inv, Run, Pushable;
    steps, end := [], r;
    assert Run(r, steps, end) by { NoSteps(r); }
    while end.taken < r.cells - 1
      invariant Run(r, steps, end) && Inv(end) && end.cells == r.cells >= 3 && end.pc == Idle && end.phase == Look
      invariant |end.pushed| == end.taken == end.deq <= r.cells - 1
    {
      steps, end := Push(r, steps, end, t);
      steps, end := Take(r, steps, end);
    }
    while Outstanding(end) < end.cells - 2
      invariant Run(r, steps, end) && Inv(end) && end.cells == r.cells && end.pc == Idle && end.phase == Look
      invariant end.deq == r.cells - 1 && Outstanding(end) <= end.cells - 2
    {
      steps, end := Push(r, steps, end, t);
    }
  }

  lemma NoSteps(r: Ring)
    ensures Run(r, [], r)
  {}
}
