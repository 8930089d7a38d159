/**
 The xHCI event ring of kernel/io/xhci.c: a controller that writes events field
 by field, control word last, into a ring without Links (section 4.9.4 of the
 xHCI specification), and evt_dequeue, whose every volatile read is a step.
 */
module EventRing {
  import opened CyclePositions
  import opened Trbs

  datatype Event = Event(kind: bv32, param: nat, status: nat, ctrl: bv32)

  function KindOf(control: bv32): bv32 { (control >> 10) & 0x3f }

  datatype Pc = Idle | PutParam(t: Trb) | PutStatus(t: Trb) | PutControl(t: Trb)

  /** The next statement of evt_dequeue and what it has read so far. */
  datatype Phase =
    | Check | ReadKind | ReadParam(kind: bv32) | ReadStatus(kind: bv32, param: nat)
    | ReadCtrl(kind: bv32, param: nat, status: nat) | Publish

  datatype Events = Events(cells: nat, base: nat, trbs: seq<Trb>, pc: Pc, produced: seq<Trb>,
                           deq: nat, ccs: bool, phase: Phase, returned: seq<Event>, erdp: nat, released: nat)

  datatype Step = Post(t: Trb) | Produce | Consume

  function ProduceStep(r: Events): Events
    requires r.cells > 0 && |r.trbs| == r.cells
  {
    var i := Slot(r.cells, |r.produced|);
    match r.pc
    case Idle => r
    case PutParam(t) => r.(trbs := r.trbs[i := r.trbs[i].(param := t.param)], pc := PutStatus(t))
    case PutStatus(t) => r.(trbs := r.trbs[i := r.trbs[i].(status := t.status)], pc := PutControl(t))
    case PutControl(t) =>
      r.(trbs := r.trbs[i := r.trbs[i].(control := WithCycle(t.control, Cyc(r.cells, |r.produced|)))],
         pc := Idle, produced := r.produced + [t])
  }

  function ConsumeStep(r: Events): Events
    requires |r.trbs| == r.cells && r.deq < r.cells
  {
    var t := r.trbs[r.deq];
    match r.phase
    case Check => if CycleBit(t.control) != r.ccs then r else r.(phase := ReadKind)
    case ReadKind => r.(phase := ReadParam(KindOf(t.control)))
    case ReadParam(kind) => r.(phase := ReadStatus(kind, t.param))
    case ReadStatus(kind, param) => r.(phase := ReadCtrl(kind, param, t.status))
    case ReadCtrl(kind, param, status) =>
      var wraps := r.deq + 1 >= r.cells;
      r.(phase := Publish, returned := r.returned + [Event(kind, param, status, t.control)],
         deq := if wraps then 0 else r.deq + 1, ccs := if wraps then !r.ccs else r.ccs)
    case Publish => r.(phase := Check, erdp := r.base + r.deq * 16 + 8, released := |r.returned|)
  }

  /** The controller posts one event at a time and never overruns the cell ERDP has released. */
  predicate Enabled(r: Events, s: Step) {
    match s
    case Post(t) => r.pc == Idle && !CycleBit(t.control) && |r.produced| < r.released + r.cells
    case Produce => true
    case Consume => true
  }

  ghost function Exec(r: Events, s: Step): Events
    requires Inv(r)
  {
    match s
    case Post(t) => r.(pc := PutParam(t))
    case Produce => ProduceStep(r)
    case Consume => ConsumeStep(r)
  }

  /** The event a TRB is read as. */
  function EventOf(t: Trb): Event { Event(KindOf(t.control), t.param, t.status, t.control) }

  ghost predicate CellOk(r: Events, k: nat)
    requires r.cells > 0 && |r.trbs| == r.cells
  {
    var t := r.trbs[Slot(r.cells, k)];
    if k < |r.produced| then t == Wire(r.cells, r.produced[k], k) else CycleBit(t.control) == !Cyc(r.cells, k)
  }

  ghost predicate ConsumerOk(r: Events)
    requires r.cells > 0 && |r.trbs| == r.cells
  {
    var c := |r.returned|;
    && c <= |r.produced| && r.released <= c
    && (r.phase == Publish || r.released == c)
    && r.deq == Slot(r.cells, c) && r.ccs == Cyc(r.cells, c)
    && (forall i :: 0 <= i < c ==> r.returned[i] == EventOf(Wire(r.cells, r.produced[i], i)))
    && var t := r.trbs[r.deq];
    match r.phase
    case Check => true
    case Publish => true
    case ReadKind => c < |r.produced|
    case ReadParam(k) => c < |r.produced| && k == KindOf(t.control)
    case ReadStatus(k, p) => c < |r.produced| && k == KindOf(t.control) && p == t.param
    case ReadCtrl(k, p, s) => c < |r.produced| && k == KindOf(t.control) && p == t.param && s == t.status
  }

  ghost predicate ProducerOk(r: Events)
    requires r.cells > 0 && |r.trbs| == r.cells
  {
    var i := Slot(r.cells, |r.produced|);
    match r.pc
    case Idle => true
    case PutParam(t) => !CycleBit(t.control)
    case PutStatus(t) => !CycleBit(t.control) && r.trbs[i].param == t.param
    case PutControl(t) => !CycleBit(t.control) && r.trbs[i].param == t.param && r.trbs[i].status == t.status
  }

  ghost predicate CellsOk(r: Events)
    requires r.cells > 0 && |r.trbs| == r.cells
  {
    forall k: nat {:trigger CellOk(r, k)} :: |r.returned| <= k < |r.returned| + r.cells ==> CellOk(r, k)
  }

  ghost predicate Inv(r: Events) {
    && r.cells > 0 && |r.trbs| == r.cells && ConsumerOk(r) && ProducerOk(r) && CellsOk(r)
    && |r.produced| <= r.released + r.cells && (r.pc != Idle ==> |r.produced| < r.released + r.cells)
    && (forall t :: t in r.produced ==> !CycleBit(t.control))
    && (r.erdp == r.base + Slot(r.cells, r.released) * 16 + 8)
  }

  predicate Initial(r: Events) {
    && r.cells > 0 && r.trbs == seq(r.cells, i => Trb(0, 0, 0)) && r.pc == Idle && r.produced == []
    && r.deq == 0 && r.ccs && r.phase == Check && r.returned == [] && r.erdp == r.base + 8 && r.released == 0
  }

  lemma InitialInv(r: Events)
    requires Initial(r)
    ensures Inv(r)
  {}

  lemma CellsUntouched(r: Events, r': Events)
    requires r.cells > 0 && |r.trbs| == r.cells && CellsOk(r)
    requires r'.cells == r.cells && r'.trbs == r.trbs && r'.produced == r.produced && |r'.returned| == |r.returned|
    ensures CellsOk(r')
  {
    hide Slot, Cyc;
    forall k: nat | |r'.returned| <= k < |r'.returned| + r'.cells
      ensures CellOk(r', k)
    {
      assert CellOk(r, k);
    }
  }

  /** The controller writes only the cell of the event it is posting, which evt_dequeue is not reading. */
  lemma ProduceKeeps(r: Events)
    requires Inv(r)
    ensures Inv(ProduceStep(r))
  {
    var m, p, c := r.cells, |r.produced|, |r.returned|;
    var r' := ProduceStep(r);
    if !r.pc.Idle? {
      if c < p { SlotsDiffer(m, c, p); }
      if r.pc.PutControl? { WithCycleReads(r.pc.t.control, Cyc(m, p)); }
      hide Slot, Cyc, CycleBit, WithCycle;
      forall k: nat | c <= k < c + m
        ensures CellOk(r', k)
      {
        assert CellOk(r, k);
        if k < p { SlotsDiffer(m, k, p); } else if p < k { SlotsDiffer(m, p, k); }
      }
    }
  }

  lemma CheckKeeps(r: Events)
    requires Inv(r) && r.phase == Check
    ensures Inv(ConsumeStep(r))
    ensures ConsumeStep(r).phase == ReadKind <==> |r.returned| < |r.produced|
  {
    var c := |r.returned|;
    assert CellOk(r, c);
    hide Slot, Cyc;
    if c < |r.produced| {
      assert r.produced[c] in r.produced;
      WithCycleReads(r.produced[c].control, Cyc(r.cells, c));
    }
    hide CycleBit, WithCycle;
    CellsUntouched(r, ConsumeStep(r));
    hide CellsOk;
  }

  lemma ReadKeeps(r: Events)
    requires Inv(r) && (r.phase == ReadKind || r.phase.ReadParam? || r.phase.ReadStatus? || r.phase == Publish)
    ensures Inv(ConsumeStep(r))
  {
    hide Slot, Cyc, CycleBit, WithCycle, KindOf;
    CellsUntouched(r, ConsumeStep(r));
    hide CellsOk;
  }

  lemma ReturnKeeps(r: Events)
    requires Inv(r) && r.phase.ReadCtrl?
    ensures Inv(ConsumeStep(r))
  {
    var r', c, m := ConsumeStep(r), |r.returned|, r.cells;
    assert CellOk(r, c);
    assert r.produced[c] in r.produced;
    NextSlot(m, c);
    SlotAfter(m, c, m);
    hide Slot, Cyc;
    WithCycleReads(r.produced[c].control, Cyc(m, c));
    hide CycleBit, WithCycle, KindOf;
    forall k: nat | c + 1 <= k < c + 1 + m
      ensures CellOk(r', k)
    {
      if k < c + m { assert CellOk(r, k); }
    }
  }

  lemma ConsumeKeeps(r: Events)
    requires Inv(r)
    ensures Inv(ConsumeStep(r))
  {
    match r.phase {
      case Check => CheckKeeps(r);
      case ReadCtrl(_, _, _) => ReturnKeeps(r);
      case _ => ReadKeeps(r);
    }
  }

  lemma PostKeeps(r: Events, t: Trb)
    requires Inv(r) && Enabled(r, Post(t))
    ensures Inv(r.(pc := PutParam(t)))
  {
    CellsUntouched(r, r.(pc := PutParam(t)));
  }

  ghost predicate Run(r: Events, steps: seq<Step>, end: Events)
    requires Inv(r)
    decreases |steps|
  {
    if |steps| == 0 then end == r
    else Enabled(r, steps[0]) && (ExecKeeps(r, steps[0]); Run(Exec(r, steps[0]), steps[1..], end))
  }

  lemma ExecKeeps(r: Events, s: Step)
    requires Inv(r) && Enabled(r, s)
    ensures Inv(Exec(r, s)) && Exec(r, s).cells == r.cells
  {
    match s
    case Post(t) => PostKeeps(r, t);
    case Produce => ProduceKeeps(r);
    case Consume => ConsumeKeeps(r);
  }

  /** The events the controller was given to post. */
  function Posted(steps: seq<Step>): seq<Trb> {
    if steps == [] then []
    else if steps[0].Post? then [steps[0].t] + Posted(steps[1..]) else Posted(steps[1..])
  }

  /** The event whose control word is still to be written. */
  function InHand(r: Events): seq<Trb> { if r.pc.Idle? then [] else [r.pc.t] }

  /** Event e is TRB t: its type, parameter, status and control word, whose bit 0 is the cycle. */
  predicate Tells(e: Event, t: Trb, cycle: bool) {
    && e.kind == (t.control >> 10) & 0x3f && e.param == t.param && e.status == t.status
    && e.ctrl & 0xFFFF_FFFE == t.control && (e.ctrl & 1 == 1 <==> cycle)
  }

  lemma WireTells(m: nat, t: Trb, k: nat)
    requires m > 0 && !CycleBit(t.control)
    ensures Tells(EventOf(Wire(m, t, k)), t, k / m % 2 == 0)
  {
    hide Cyc, WithCycle, Tells, CycleBit, EventOf;
    TellsWithCycle(t, Cyc(m, k));
    SlotIs(m, k);
  }

  lemma TellsWithCycle(t: Trb, cycle: bool)
    requires !CycleBit(t.control)
    ensures Tells(EventOf(t.(control := WithCycle(t.control, cycle))), t, cycle)
  {}

  lemma PostedStep(r: Events, s: Step)
    requires Inv(r) && Enabled(r, s)
    ensures Exec(r, s).produced + InHand(Exec(r, s)) == r.produced + InHand(r) + if s.Post? then [s.t] else []
  {
    hide WithCycle, CycleBit, KindOf, Slot, Cyc, CellOk;
  }

  lemma {:induction false} ProducedArePosted(r: Events, steps: seq<Step>, end: Events)
    requires Inv(r) && Run(r, steps, end)
    ensures Inv(end) && end.cells == r.cells
    ensures end.produced + InHand(end) == r.produced + InHand(r) + Posted(steps)
    decreases |steps|
  {
    hide Inv, Exec, Enabled, InHand;
    if |steps| > 0 {
      ExecKeeps(r, steps[0]);
      PostedStep(r, steps[0]);
      ProducedArePosted(Exec(r, steps[0]), steps[1..], end);
    }
  }

  /**
   Every event the controller posts is returned by evt_dequeue exactly once, in
   order and whole, over any interleaving and any number of cycle flips.
   */
  lemma EventsInOrder(r: Events, steps: seq<Step>, end: Events)
    requires Inv(r) && Run(r, steps, end)
    ensures var posted := r.produced + InHand(r) + Posted(steps);
      && end.cells == r.cells > 0 && |end.returned| <= |end.produced| && end.produced <= posted
      && forall i :: 0 <= i < |end.returned| ==> Tells(end.returned[i], posted[i], i / r.cells % 2 == 0)
    ensures Initial(r) ==> r.produced + InHand(r) + Posted(steps) == Posted(steps)
  {
    hide Inv, Tells, Run, Posted;
    ProducedArePosted(r, steps, end);
    assert forall i :: 0 <= i < |end.produced| ==> end.produced[i] == (end.produced + InHand(end))[i];
    FinalReturned(end);
    if Initial(r) { assert r.produced + InHand(r) + Posted(steps) == Posted(steps); }
  }

  lemma FinalReturned(r: Events)
    requires Inv(r)
    ensures r.cells > 0 && |r.returned| <= |r.produced|
    ensures forall i :: 0 <= i < |r.returned| ==> Tells(r.returned[i], r.produced[i], i / r.cells % 2 == 0)
  {
    hide Tells, WithCycle, Cyc, Slot, EventOf;
    forall i | 0 <= i < |r.returned|
      ensures Tells(r.returned[i], r.produced[i], i / r.cells % 2 == 0)
    {
      assert r.produced[i] in r.produced;
      WireTells(r.cells, r.produced[i], i);
    }
  }

  function ConsumeTimes(r: Events, n: nat): Events
    requires |r.trbs| == r.cells && r.deq < r.cells
    decreases n
  {
    if n == 0 then r else ConsumeTimes(ConsumeStep(r), n - 1)
  }

  /** The reads up to the last: every field of the event, from one and the same TRB. */
  lemma DequeueReads(r: Events)
    requires Inv(r) && r.phase == Check && |r.returned| < |r.produced|
    ensures ConsumeTimes(r, 4) == var t := r.trbs[r.deq]; r.(phase := ReadCtrl(KindOf(t.control), t.param, t.status))
    ensures Inv(ConsumeTimes(r, 4))
    ensures r.trbs[r.deq] == Wire(r.cells, r.produced[|r.returned|], |r.returned|)
    ensures CycleBit(r.trbs[r.deq].control) == r.ccs
  {
    CheckKeeps(r);
    assert CellOk(r, |r.returned|);
    hide Inv, Slot, Cyc, KindOf, WithCycle;
    var r1 := ConsumeStep(r);
    ConsumeKeeps(r1);
    var r2 := ConsumeStep(r1);
    ConsumeKeeps(r2);
    var r3 := ConsumeStep(r2);
    ConsumeKeeps(r3);
    var r4 := ConsumeStep(r3);
    assert ConsumeTimes(r2, 2) == r4;
    assert ConsumeTimes(r1, 3) == r4;
    assert ConsumeTimes(r, 4) == r4;
  }

  lemma NextTells(r: Events)
    requires Inv(r) && |r.returned| < |r.produced|
    ensures Tells(EventOf(r.trbs[r.deq]), r.produced[|r.returned|], r.ccs)
  {
    hide Tells, WithCycle, Cyc, Slot, EventOf, CycleBit;
    var k := |r.returned|;
    assert CellOk(r, k) && r.produced[k] in r.produced;
    WireTells(r.cells, r.produced[k], k);
    SlotIs(r.cells, k);
  }

  /** The six read steps of a successful evt_dequeue, with no controller step between them. */
  lemma DequeueWhole(r: Events)
    requires Inv(r) && r.phase == Check && |r.returned| < |r.produced|
    ensures var r' := ConsumeTimes(r, 6);
      var wraps := r.deq + 1 >= r.cells;
      && Inv(r') && r'.phase == Check && r'.trbs == r.trbs && r'.produced == r.produced
      && r'.cells == r.cells && r'.base == r.base
      && r'.returned == r.returned + [EventOf(r.trbs[r.deq])]
      && r'.deq == (if wraps then 0 else r.deq + 1) && r'.ccs == (if wraps then !r.ccs else r.ccs)
      && r'.erdp == r'.base + r'.deq * 16 + 8
    ensures Tells(EventOf(r.trbs[r.deq]), r.produced[|r.returned|], r.ccs)
    ensures CycleBit(r.trbs[r.deq].control) == r.ccs
  {
    DequeueReads(r);
    NextTells(r);
    var r4 := ConsumeTimes(r, 4);
    ConsumeKeeps(r4);
    var r5 := ConsumeStep(r4);
    ConsumeKeeps(r5);
    ConsumeMore(r, 4, 2);
    hide Inv, Slot, Cyc, KindOf, WithCycle;
    assert ConsumeTimes(r5, 1) == ConsumeStep(r5);
    assert ConsumeTimes(r4, 2) == ConsumeStep(r5);
  }

  lemma {:induction false} ConsumeMore(r: Events, i: nat, j: nat)
    requires |r.trbs| == r.cells && r.deq < r.cells
    ensures |ConsumeTimes(r, i).trbs| == ConsumeTimes(r, i).cells && ConsumeTimes(r, i).deq < ConsumeTimes(r, i).cells
    ensures ConsumeTimes(r, i + j) == ConsumeTimes(ConsumeTimes(r, i), j)
    decreases i
  {
    if i > 0 {
      ConsumeMore(ConsumeStep(r), i - 1, j);
    }
  }

  // ---- evt_dequeue on the ring in memory -------------------------------------------------

  class Consumer {
    const cells: nat
    const base: nat
    const trbs: array<Trb>
    var deq: nat
    var ccs: bool
    var erdp: nat

    ghost predicate Matches(r: Events)
      reads this, trbs
    {
      && r.cells == cells == trbs.Length && r.base == base && r.trbs == trbs[..]
      && r.deq == deq < cells && r.ccs == ccs && r.erdp == erdp && r.phase == Check
    }

    constructor (base: nat, ring: array<Trb>)
      requires ring.Length > 0 && base % 16 == 0
      ensures trbs == ring && cells == ring.Length && this.base == base && deq == 0 && ccs && erdp == base + 8
    {
      this.cells, this.base, trbs, deq, ccs, erdp := ring.Length, base, ring, 0, true, base + 8;
    }

    /**
     evt_dequeue: an event is there exactly when the controller is ahead, and
     it is the next one posted; the state reached is that of its read steps.
     */
    method Dequeue(ghost r: Events) returns (found: bool, e: Event, ghost r': Events)
      requires Inv(r) && Matches(r)
      modifies `deq, `ccs, `erdp
      ensures Inv(r') && Matches(r') && r'.produced == r.produced
      ensures found <==> |r.returned| < |r.produced|
      ensures !found ==> r' == r
      ensures found ==> r'.returned == r.returned + [e]
      ensures found ==> Tells(e, r.produced[|r.returned|], r.ccs)
    {
      hide Inv, ConsumeTimes;
      CheckKeeps(r);
      if |r.returned| < |r.produced| { DequeueWhole(r); }
      var t := trbs[deq];
      e := Event((t.control >> 10) & 0x3f, t.param, t.status, t.control);
      if (t.control & 1 == 1) != ccs { return false, e, r; }
      r' := ConsumeTimes(r, 6);
      deq := deq + 1;
      if deq >= cells {
        deq := 0;
        ccs := !ccs;
      }
      erdp := base + deq * 16 + 8;
      found := true;
    }
  }
}
