/**
 The xHCI producer rings (command, EP0, keyboard, bulk) of kernel/io/xhci.c as
 a protocol of single-field writes, against the consumer of sections 4.9.2 and
 4.9.3 of the xHCI specification: a TRB belongs to the consumer once its cycle
 bit equals the consumer cycle state, and a Link TRB leads back to cell 0.
 */
module TrbRing {
  import opened CyclePositions
  import opened Trbs

  /** What callers push: a control word without a cycle bit, and never a Link. */
  predicate Pushable(t: Trb) { !CycleBit(t.control) && !IsLink(t.control) }

  // ---- states ---------------------------------------------------------------------

  /** The next statement of a push. */
  datatype Pc =
    | Idle | PutParam(t: Trb) | PutStatus(t: Trb) | PutControl(t: Trb) | Bump
    | LinkParam | LinkStatus | LinkControl | Flip

  /** What the consumer has read of the TRB it is at. */
  datatype Phase = Look | SawLink(control: bv32) | SawControl(control: bv32) | SawParam(control: bv32, param: nat)

  /**
   `cells` TRBs, the last of them for the Link.  `pushed` holds the TRBs whose
   control word is written; `taken` counts the consumer's position among them,
   `since` where it was last reset to, and `consumed` what it has read from there.
   */
  datatype Ring = Ring(cells: nat, base: nat, trbs: seq<Trb>, enq: nat, pcs: bool, pc: Pc,
                       deq: nat, ccs: bool, phase: Phase,
                       pushed: seq<Trb>, since: nat, taken: nat, consumed: seq<Trb>, linkedAt: nat)

  datatype Step = Begin(t: Trb) | Produce | Consume | Reset

  function SetTrb(r: Ring, i: nat, t: Trb): Ring {
    if i < |r.trbs| then r.(trbs := r.trbs[i := t]) else r
  }

  function TrbAt(r: Ring, i: nat): Trb { if i < |r.trbs| then r.trbs[i] else Trb(0, 0, 0) }

  /** One statement of cmd_push, ep0_push, kbd_push_one, bulk_out_push or bulk_in_push. */
  function ProduceStep(r: Ring): Ring {
    var last := if r.cells > 0 then r.cells - 1 else 0;
    match r.pc
    case Idle => r
    case PutParam(t) => SetTrb(r, r.enq, TrbAt(r, r.enq).(param := t.param)).(pc := PutStatus(t))
    case PutStatus(t) => SetTrb(r, r.enq, TrbAt(r, r.enq).(status := t.status)).(pc := PutControl(t))
    case PutControl(t) =>
      SetTrb(r, r.enq, TrbAt(r, r.enq).(control := WithCycle(t.control, r.pcs))).(pc := Bump, pushed := r.pushed + [t])
    case Bump => r.(enq := r.enq + 1, pc := if r.enq + 1 >= last then LinkParam else Idle)
    case LinkParam => SetTrb(r, last, TrbAt(r, last).(param := r.base)).(pc := LinkStatus)
    case LinkStatus => SetTrb(r, last, TrbAt(r, last).(status := 0)).(pc := LinkControl)
    case LinkControl =>
      SetTrb(r, last, TrbAt(r, last).(control := WithCycle(LINK, r.pcs))).(pc := Flip, linkedAt := |r.pushed|)
    case Flip => r.(enq := 0, pcs := !r.pcs, pc := Idle)
  }

  /** One read of the consumer; it waits while the cycle bit differs. */
  function ConsumeStep(r: Ring): Ring {
    var t := TrbAt(r, r.deq);
    match r.phase
    case Look =>
      if CycleBit(t.control) != r.ccs then r
      else if IsLink(t.control) then r.(phase := SawLink(t.control))
      else r.(phase := SawControl(t.control))
    case SawLink(control) =>
      if t.param != r.base then r
      else r.(phase := Look, deq := 0, ccs := if Toggles(control) then !r.ccs else r.ccs)
    case SawControl(control) => r.(phase := SawParam(control, t.param))
    case SawParam(control, param) =>
      r.(phase := Look, deq := r.deq + 1, taken := r.taken + 1,
         consumed := r.consumed + [Trb(param, t.status, control)])
  }

  /** address_device: the consumer is set to the producer's position and cycle. */
  function ResetStep(r: Ring): Ring {
    r.(deq := r.enq, ccs := r.pcs, phase := Look, since := |r.pushed|, taken := |r.pushed|, consumed := [])
  }

  function Exec(r: Ring, s: Step): Ring {
    match s
    case Begin(t) => r.(pc := PutParam(t))
    case Produce => ProduceStep(r)
    case Consume => ConsumeStep(r)
    case Reset => ResetStep(r)
  }

  function Outstanding(r: Ring): int { |r.pushed| - r.taken }

  /** Pushes do not overlap, leave at most cells - 2 TRBs outstanding, and resets happen between them. */
  predicate Enabled(r: Ring, s: Step) {
    match s
    case Begin(t) => r.pc == Idle && Pushable(t) && Outstanding(r) < r.cells - 2
    case Produce => true
    case Consume => true
    case Reset => r.pc == Idle
  }

  ghost predicate Run(r: Ring, steps: seq<Step>, end: Ring)
    decreases |steps|
  {
    if |steps| == 0 then end == r else Enabled(r, steps[0]) && Run(Exec(r, steps[0]), steps[1..], end)
  }

  /** A zeroed ring, producer and consumer at cell 0 with cycle 1. */
  predicate Initial(r: Ring) {
    && r.cells >= 3 && r.trbs == seq(r.cells, i => Trb(0, 0, 0))
    && r.enq == 0 && r.pcs && r.pc == Idle && r.deq == 0 && r.ccs && r.phase == Look
    && r.pushed == [] && r.since == 0 && r.taken == 0 && r.consumed == [] && r.linkedAt == 0
  }

  // ---- the invariant ---------------------------------------------------------------------

  ghost predicate ProducerOk(r: Ring, m: nat)
    requires m > 0
  {
    var p := |r.pushed|;
    match r.pc
    case Idle => r.enq == Slot(m, p) && r.pcs == Cyc(m, p) && r.linkedAt == p - Slot(m, p)
    case PutParam(t) => Pushable(t) && r.enq == Slot(m, p) && r.pcs == Cyc(m, p) && r.linkedAt == p - Slot(m, p)
    case PutStatus(t) =>
      && Pushable(t) && r.enq == Slot(m, p) && r.pcs == Cyc(m, p) && r.linkedAt == p - Slot(m, p)
      && TrbAt(r, r.enq).param == t.param
    case PutControl(t) =>
      && Pushable(t) && r.enq == Slot(m, p) && r.pcs == Cyc(m, p) && r.linkedAt == p - Slot(m, p)
      && TrbAt(r, r.enq).param == t.param && TrbAt(r, r.enq).status == t.status
    case Bump => p > 0 && r.enq == Slot(m, p - 1) && r.pcs == Cyc(m, p - 1) && r.linkedAt == p - 1 - Slot(m, p - 1)
    case Flip => p > 0 && Slot(m, p) == 0 && r.enq == m && r.pcs == Cyc(m, p - 1) && r.linkedAt == p
    case LinkParam => p > 0 && Slot(m, p) == 0 && r.enq == m && r.pcs == Cyc(m, p - 1) && r.linkedAt == p - m
    case _ =>
      && p > 0 && Slot(m, p) == 0 && r.enq == m && r.pcs == Cyc(m, p - 1) && r.linkedAt == p - m
      && TrbAt(r, m).param == r.base
  }

  predicate AtLink(r: Ring, m: nat) { r.deq == m }

  ghost predicate ConsumerOk(r: Ring, m: nat)
    requires m > 0
  {
    && r.since <= r.taken <= |r.pushed| && |r.consumed| == r.taken - r.since
    && (forall i :: 0 <= i < |r.consumed| ==> r.consumed[i] == Wire(m, r.pushed[r.since + i], r.since + i))
    && (if AtLink(r, m) then r.taken > 0 && Slot(m, r.taken) == 0 && r.ccs == !Cyc(m, r.taken) && r.taken - m <= r.linkedAt
        else r.deq == Slot(m, r.taken) && r.ccs == Cyc(m, r.taken) && r.taken - Slot(m, r.taken) <= r.linkedAt)
    && match r.phase
       case Look => true
       case SawLink(c) => AtLink(r, m) && c == WithCycle(LINK, r.ccs) && r.linkedAt == r.taken
       case SawControl(c) => !AtLink(r, m) && r.taken < |r.pushed| && c == TrbAt(r, r.deq).control
       case SawParam(c, p) =>
         !AtLink(r, m) && r.taken < |r.pushed| && c == TrbAt(r, r.deq).control && p == TrbAt(r, r.deq).param
  }

  ghost predicate CellOk(r: Ring, m: nat, k: nat)
    requires m > 0
  {
    if k < |r.pushed| then TrbAt(r, Slot(m, k)) == Wire(m, r.pushed[k], k)
    else CycleBit(TrbAt(r, Slot(m, k)).control) == !Cyc(m, k)
  }

  /** The lap that starts at the consumer: whole TRBs up to the producer, stale cycle bits after it. */
  ghost predicate CellsOk(r: Ring, m: nat)
    requires m > 0
  {
    forall k: nat {:trigger CellOk(r, m, k)} :: r.taken <= k < r.taken + m ==> CellOk(r, m, k)
  }

  ghost predicate LinkOk(r: Ring, m: nat)
    requires m > 0
  {
    && r.linkedAt <= |r.pushed| && Slot(m, r.linkedAt) == 0
    && CycleBit(TrbAt(r, m).control) == !Cyc(m, r.linkedAt)
    && (r.linkedAt > 0 ==> TrbAt(r, m).control == WithCycle(LINK, !Cyc(m, r.linkedAt)) && TrbAt(r, m).param == r.base)
  }

  ghost predicate Inv(r: Ring) {
    && r.cells >= 3 && |r.trbs| == r.cells
    && var m := r.cells - 1;
    && ProducerOk(r, m) && ConsumerOk(r, m) && LinkOk(r, m)
    && Outstanding(r) <= m - 1 && (r.pc.PutParam? || r.pc.PutStatus? || r.pc.PutControl? ==> Outstanding(r) < m - 1)
    && (forall t :: t in r.pushed ==> Pushable(t))
    && CellsOk(r, m)
  }

  lemma InitialInv(r: Ring)
    requires Initial(r)
    ensures Inv(r)
  {}

  // ---- each step keeps it -------------------------------------------------------------------

  /** Within a lap from the consumer, only entry p lives in p's cell. */
  lemma OtherCells(m: nat, from: nat, p: nat, k: nat)
    requires 0 < m && from <= p < from + m && from <= k < from + m && k != p
    ensures Slot(m, k) != Slot(m, p)
  {
    if k < p { SlotsDiffer(m, k, p); } else { SlotsDiffer(m, p, k); }
  }

  lemma CellsUntouched(r: Ring, r': Ring, m: nat)
    requires m > 0 && CellsOk(r, m) && r'.pushed == r.pushed && r'.taken == r.taken
    requires forall i: nat :: i < m ==> TrbAt(r', i) == TrbAt(r, i)
    ensures CellsOk(r', m)
  {
    hide Slot, Cyc;
    forall k: nat | r'.taken <= k < r'.taken + m
      ensures CellOk(r', m, k)
    {
      assert CellOk(r, m, k);
    }
  }

  lemma BeginKeeps(r: Ring, t: Trb)
    requires Inv(r) && Enabled(r, Begin(t))
    ensures Inv(Exec(r, Begin(t)))
  {
    hide Slot, Cyc, CycleBit, WithCycle, IsLink;
    var r', m := Exec(r, Begin(t)), r.cells - 1;
    CellsUntouched(r, r', m);
    hide CellsOk;
  }

  /** A write to the cell being filled that leaves its cycle bit alone changes no entry. */
  lemma FillingCells(r: Ring, r': Ring, m: nat)
    requires Inv(r) && m == r.cells - 1 && Outstanding(r) < m - 1
    requires r'.pushed == r.pushed && r'.taken == r.taken && |r'.trbs| == |r.trbs|
    requires forall i: nat :: i < |r.trbs| && i != Slot(m, |r.pushed|) ==> TrbAt(r', i) == TrbAt(r, i)
    requires TrbAt(r', Slot(m, |r.pushed|)).control == TrbAt(r, Slot(m, |r.pushed|)).control
    ensures CellsOk(r', m)
    ensures r.taken < |r.pushed| ==> Slot(m, r.taken) != Slot(m, |r.pushed|)
  {
    hide Slot, Cyc, CycleBit, WithCycle, IsLink;
    var p := |r.pushed|;
    forall k: nat | r'.taken <= k < r'.taken + m
      ensures CellOk(r', m, k)
    {
      assert CellOk(r, m, k);
      if k != p { OtherCells(m, r.taken, p, k); }
    }
    if r.taken < p { OtherCells(m, r.taken, p, r.taken); }
  }

  /** param and status go to a cell the consumer does not own yet, and leave its cycle bit alone. */
  lemma PutParamKeeps(r: Ring)
    requires Inv(r) && r.pc.PutParam?
    ensures Inv(ProduceStep(r))
  {
    hide Slot, Cyc, CycleBit, WithCycle, IsLink, CellsOk;
    FillingCells(r, ProduceStep(r), r.cells - 1);
  }

  lemma PutStatusKeeps(r: Ring)
    requires Inv(r) && r.pc.PutStatus?
    ensures Inv(ProduceStep(r))
  {
    hide Slot, Cyc, CycleBit, WithCycle, IsLink, CellsOk;
    FillingCells(r, ProduceStep(r), r.cells - 1);
  }

  /** The control word is written last, and hands the whole TRB over. */
  lemma PutControlKeeps(r: Ring)
    requires Inv(r) && r.pc.PutControl?
    ensures Inv(ProduceStep(r))
  {
    hide Slot, Cyc, CycleBit, WithCycle, IsLink, CellsOk;
    var m, p := r.cells - 1, |r.pushed|;
    HandedOver(r);
    if r.taken < p { OtherCells(m, r.taken, p, r.taken); }
  }

  lemma HandedOver(r: Ring)
    requires Inv(r) && r.pc.PutControl?
    ensures CellsOk(ProduceStep(r), r.cells - 1)
    ensures r.taken == |r.pushed| ==> CycleBit(TrbAt(r, r.enq).control) == !r.pcs
  {
    hide Slot, Cyc, CycleBit, WithCycle, IsLink, LinkOk;
    var r', m, p := ProduceStep(r), r.cells - 1, |r.pushed|;
    forall k: nat | r'.taken <= k < r'.taken + m
      ensures CellOk(r', m, k)
    {
      assert CellOk(r, m, k);
      if k != p { OtherCells(m, r.taken, p, k); }
    }
    assert CellOk(r, m, r.taken);
  }

  lemma BumpKeeps(r: Ring)
    requires Inv(r) && (r.pc == Bump || r.pc == Flip)
    ensures Inv(ProduceStep(r))
  {
    hide Slot, Cyc, CycleBit, WithCycle, IsLink;
    var r', m, p := ProduceStep(r), r.cells - 1, |r.pushed|;
    NextSlot(m, p - 1);
    CellsUntouched(r, r', m);
    hide CellsOk;
  }

  /** Two lap starts less than a lap apart are the same. */
  lemma LapStarts(m: nat, a: nat, b: nat)
    requires 0 < m && Slot(m, a) == 0 && Slot(m, b) == 0 && a <= b < a + m
    ensures a == b
  {
    if a < b { SlotsDiffer(m, a, b); }
  }

  /** When a Link is about to be rewritten the consumer has left the last one. */
  lemma LinkIsFree(r: Ring)
    requires Inv(r) && (r.pc == LinkParam || r.pc == LinkStatus || r.pc == LinkControl)
    ensures !r.phase.SawLink? && |r.pushed| == r.linkedAt + (r.cells - 1)
    ensures AtLink(r, r.cells - 1) ==> r.taken == |r.pushed|
  {
    hide Slot, Cyc, CycleBit, WithCycle, IsLink;
    var m := r.cells - 1;
    if AtLink(r, m) {
      LapStarts(m, r.taken, |r.pushed|);
    }
  }

  lemma LinkFieldKeeps(r: Ring)
    requires Inv(r) && (r.pc == LinkParam || r.pc == LinkStatus)
    ensures Inv(ProduceStep(r))
  {
    hide Slot, Cyc, CycleBit, WithCycle, IsLink, CellsOk;
    LinkIsFree(r);
    CellsUntouched(r, ProduceStep(r), r.cells - 1);
  }

  lemma LinkControlKeeps(r: Ring)
    requires Inv(r) && r.pc == LinkControl
    ensures Inv(ProduceStep(r))
  {
    hide Slot, Cyc;
    LinkIsFree(r);
    var r', m, p := ProduceStep(r), r.cells - 1, |r.pushed|;
    NextSlot(m, p - 1);
    LinkReads();
    WithCycleReads(LINK, r.pcs);
    hide CycleBit, WithCycle, IsLink;
    CellsUntouched(r, r', m);
    hide CellsOk;
  }

  lemma ProduceKeeps(r: Ring)
    requires Inv(r)
    ensures Inv(ProduceStep(r))
  {
    hide Inv;
    match r.pc {
      case Idle =>
      case PutParam(_) => PutParamKeeps(r);
      case PutStatus(_) => PutStatusKeeps(r);
      case PutControl(_) => PutControlKeeps(r);
      case LinkParam => LinkFieldKeeps(r);
      case LinkStatus => LinkFieldKeeps(r);
      case LinkControl => LinkControlKeeps(r);
      case _ => BumpKeeps(r);
    }
  }

  /** A Link with the consumer's cycle was written for the very lap end the consumer is at. */
  lemma LinkSeen(r: Ring)
    requires Inv(r) && AtLink(r, r.cells - 1)
    ensures CycleBit(TrbAt(r, r.deq).control) == r.ccs <==> r.linkedAt == r.taken
    ensures r.linkedAt == r.taken || r.linkedAt == r.taken - (r.cells - 1)
  {
    hide CycleBit, WithCycle, IsLink;
    var m := r.cells - 1;
    if r.linkedAt >= r.taken {
      LapStarts(m, r.taken, r.linkedAt);
    } else {
      assert r.taken >= m;
      hide Slot, Cyc;
      SlotAfter(m, r.taken - m, m);
      LapStarts(m, r.taken - m, r.linkedAt);
    }
  }

  /** What a look finds: a written Link at a lap end, the next TRB if it is pushed, and nothing otherwise. */
  lemma LookFinds(r: Ring)
    requires Inv(r) && r.phase == Look
    ensures ConsumeStep(r) ==
      if AtLink(r, r.cells - 1) then
        if r.linkedAt == r.taken then r.(phase := SawLink(WithCycle(LINK, r.ccs))) else r
      else if r.taken < |r.pushed| then r.(phase := SawControl(TrbAt(r, r.deq).control)) else r
  {
    var m := r.cells - 1;
    if AtLink(r, m) {
      LinkSeen(r);
      LinkReads();
      WithCycleReads(LINK, r.ccs);
      hide CycleBit, WithCycle, IsLink;
    } else {
      assert CellOk(r, m, r.taken);
      hide Slot, Cyc;
      if r.taken < |r.pushed| {
        assert r.pushed[r.taken] in r.pushed;
        WithCycleReads(r.pushed[r.taken].control, Cyc(m, r.taken));
      }
      hide CycleBit, WithCycle, IsLink;
    }
  }

  /** Moving on to a phase that fits what lies in memory keeps everything else. */
  lemma PhaseFits(r: Ring, phase: Phase)
    requires Inv(r)
    requires match phase
             case SawLink(c) => AtLink(r, r.cells - 1) && c == WithCycle(LINK, r.ccs) && r.linkedAt == r.taken
             case SawControl(c) => !AtLink(r, r.cells - 1) && r.taken < |r.pushed| && c == TrbAt(r, r.deq).control
             case _ => false
    ensures Inv(r.(phase := phase))
  {
    hide Slot, Cyc, CycleBit, WithCycle, IsLink;
    CellsUntouched(r, r.(phase := phase), r.cells - 1);
    hide CellsOk;
  }

  lemma LookKeeps(r: Ring)
    requires Inv(r) && r.phase == Look
    ensures Inv(ConsumeStep(r))
  {
    LookFinds(r);
    if AtLink(r, r.cells - 1) && r.linkedAt == r.taken {
      PhaseFits(r, SawLink(WithCycle(LINK, r.ccs)));
    } else if !AtLink(r, r.cells - 1) && r.taken < |r.pushed| {
      PhaseFits(r, SawControl(TrbAt(r, r.deq).control));
    }
    hide ConsumeStep, Inv;
  }

  lemma FollowKeeps(r: Ring)
    requires Inv(r) && (r.phase.SawLink? || r.phase.SawControl?)
    ensures Inv(ConsumeStep(r))
  {
    hide Slot, Cyc, CycleBit, WithCycle, IsLink, Toggles, CellsOk;
    LinkReads();
    WithCycleReads(LINK, r.ccs);
    CellsUntouched(r, ConsumeStep(r), r.cells - 1);
  }

  /** The TRB taken is exactly the one pushed at this position. */
  lemma TakeKeeps(r: Ring)
    requires Inv(r) && r.phase.SawParam?
    ensures Inv(ConsumeStep(r))
  {
    hide Slot, Cyc;
    var r', m := ConsumeStep(r), r.cells - 1;
    var k0 := r.taken;
    assert CellOk(r, m, k0);
    assert r.pushed[k0] in r.pushed;
    WithCycleReads(r.pushed[k0].control, Cyc(m, k0));
    NextSlot(m, k0);
    SlotAfter(m, k0, m);
    hide CycleBit, WithCycle, IsLink;
    forall k: nat | r'.taken <= k < r'.taken + m
      ensures CellOk(r', m, k)
    {
      if k < k0 + m { assert CellOk(r, m, k); }
    }
  }

  lemma ConsumeKeeps(r: Ring)
    requires Inv(r)
    ensures Inv(ConsumeStep(r))
  {
    hide Inv;
    match r.phase {
      case Look => LookKeeps(r);
      case SawParam(_, _) => TakeKeeps(r);
      case _ => FollowKeeps(r);
    }
  }

  lemma ResetKeeps(r: Ring)
    requires Inv(r) && r.pc == Idle
    ensures Inv(ResetStep(r))
  {
    hide Slot, Cyc;
    var r', m, p := ResetStep(r), r.cells - 1, |r.pushed|;
    forall k: nat | p <= k < p + m
      ensures CellOk(r', m, k)
    {
      if k < r.taken + m {
        assert CellOk(r, m, k);
      } else {
        assert CellOk(r, m, k - m);
        SlotAfter(m, k - m, m);
        assert r.pushed[k - m] in r.pushed;
        WithCycleReads(r.pushed[k - m].control, Cyc(m, k - m));
      }
    }
  }

  lemma {:induction false} RunKeeps(r: Ring, steps: seq<Step>, end: Ring)
    requires Inv(r) && Run(r, steps, end)
    ensures Inv(end)
    decreases |steps|
  {
    hide Inv;
    if |steps| > 0 {
      match steps[0] {
        case Begin(t) => BeginKeeps(r, t);
        case Produce => ProduceKeeps(r);
        case Consume => ConsumeKeeps(r);
        case Reset => ResetKeeps(r);
      }
      RunKeeps(Exec(r, steps[0]), steps[1..], end);
    }
  }

  /** The TRBs the pushes of a run were given. */
  function Begun(steps: seq<Step>): seq<Trb> {
    if steps == [] then []
    else if steps[0].Begin? then [steps[0].t] + Begun(steps[1..]) else Begun(steps[1..])
  }

  /** The TRB of a push whose control word is still to be written. */
  function InHand(r: Ring): seq<Trb> {
    if r.pc.PutParam? || r.pc.PutStatus? || r.pc.PutControl? then [r.pc.t] else []
  }

  lemma PushedStep(r: Ring, s: Step)
    requires Enabled(r, s)
    ensures Exec(r, s).pushed + InHand(Exec(r, s)) == r.pushed + InHand(r) + if s.Begin? then [s.t] else []
  {
    hide WithCycle, CycleBit, IsLink, Toggles, TrbAt;
  }

  lemma {:induction false} PushedAreBegun(r: Ring, steps: seq<Step>, end: Ring)
    requires Run(r, steps, end)
    ensures end.pushed + InHand(end) == r.pushed + InHand(r) + Begun(steps)
    decreases |steps|
  {
    hide Exec, Enabled, InHand;
    if |steps| > 0 {
      PushedStep(r, steps[0]);
      PushedAreBegun(Exec(r, steps[0]), steps[1..], end);
    }
  }

  lemma ConsumedCarries(r: Ring)
    requires Inv(r)
    ensures r.cells > 1 && r.since + |r.consumed| == r.taken <= |r.pushed|
    ensures forall i :: 0 <= i < |r.consumed| ==>
      Carries(r.consumed[i], r.pushed[r.since + i], (r.since + i) / (r.cells - 1) % 2 == 0)
  {
    hide Carries, WithCycle, Cyc, Slot;
    forall i | 0 <= i < |r.consumed|
      ensures Carries(r.consumed[i], r.pushed[r.since + i], (r.since + i) / (r.cells - 1) % 2 == 0)
    {
      assert Pushable(r.pushed[r.since + i]);
      WireCarries(r.cells - 1, r.pushed[r.since + i], r.since + i);
    }
  }

  /**
   Under every interleaving of single-field writes and reads, over any number
   of laps, the consumer has read since its last reset exactly the TRBs the
   driver was given to push from there on, in order, complete, none skipped and
   none twice: parameter, status and every bit of the control word but bit 0,
   which tells the lap.
   */
  lemma RingIsFifo(r: Ring, steps: seq<Step>, end: Ring)
    requires Initial(r) && Run(r, steps, end)
    ensures end.since + |end.consumed| == end.taken <= |end.pushed| <= |Begun(steps)| && end.cells == r.cells > 1
    ensures end.pushed <= Begun(steps)
    ensures forall i :: 0 <= i < |end.consumed| ==>
      Carries(end.consumed[i], Begun(steps)[end.since + i], (end.since + i) / (r.cells - 1) % 2 == 0)
  {
    hide Inv, Carries, Run, Begun, InHand;
    InitialInv(r);
    RunKeeps(r, steps, end);
    CellsFixed(r, steps, end);
    ConsumedCarries(end);
    PushedAreBegun(r, steps, end);
    NothingInHand(r);
    assert end.pushed + InHand(end) == Begun(steps);
    assert forall i :: 0 <= i < |end.pushed| ==> end.pushed[i] == (end.pushed + InHand(end))[i];
  }

  lemma NothingInHand(r: Ring)
    requires Initial(r)
    ensures r.pushed == [] && InHand(r) == []
  {}

  lemma {:induction false} CellsFixed(r: Ring, steps: seq<Step>, end: Ring)
    requires Run(r, steps, end)
    ensures end.cells == r.cells
    decreases |steps|
  {
    if |steps| > 0 {
      CellsFixed(Exec(r, steps[0]), steps[1..], end);
    }
  }

  // ---- progress, and why cells - 2 is the limit --------------------------------------------------

  function ConsumeTimes(r: Ring, n: nat): Ring
    decreases n
  {
    if n == 0 then r else ConsumeTimes(ConsumeStep(r), n - 1)
  }

  function ProduceTimes(r: Ring, n: nat): Ring
    decreases n
  {
    if n == 0 then r else ProduceTimes(ProduceStep(r), n - 1)
  }

  /** A consumer with a TRB outstanding reads one within five reads, the Link included. */
  lemma ConsumerProgress(r: Ring) returns (n: nat)
    requires Inv(r) && r.taken < |r.pushed|
    ensures 0 < n <= 5 && ConsumeTimes(r, n).taken == r.taken + 1
  {
    match r.phase {
      case SawParam(_, _) =>
        n := 1;
      case SawControl(_) =>
        n := 2;
        assert ConsumeTimes(ConsumeStep(r), 1).taken == r.taken + 1;
      case SawLink(_) =>
        FollowKeeps(r);
        assert ConsumeStep(r).phase == Look;
        LookProgress(ConsumeStep(r));
        n := 4;
      case Look =>
        if AtLink(r, r.cells - 1) {
          AtLinkWithMore(r);
          LinkReads();
          assert TrbAt(r, r.deq).control == WithCycle(LINK, !Cyc(r.cells - 1, r.linkedAt));
          WithCycleReads(LINK, !Cyc(r.cells - 1, r.linkedAt));
          var r1 := ConsumeStep(r);
          assert r1.phase.SawLink?;
          LookKeeps(r);
          FollowKeeps(r1);
          assert ConsumeStep(r1).phase == Look;
          LookProgress(ConsumeStep(r1));
          assert ConsumeTimes(r1, 4).taken == r.taken + 1;
          n := 5;
        } else {
          LookProgress(r);
          n := 3;
        }
    }
  }

  /** Past the end of a lap there is a written Link. */
  lemma AtLinkWithMore(r: Ring)
    requires Inv(r) && AtLink(r, r.cells - 1) && r.taken < |r.pushed|
    ensures r.linkedAt == r.taken && CycleBit(TrbAt(r, r.deq).control) == r.ccs
  {
    LinkSeen(r);
    var m, p := r.cells - 1, |r.pushed|;
    hide CycleBit, WithCycle, IsLink, Slot, Cyc;
    SlotAfter(m, r.taken, p - r.taken);
    SlotAfter(m, r.taken, p - 1 - r.taken);
  }

  lemma LookProgress(r: Ring)
    requires Inv(r) && r.taken < |r.pushed| && r.phase == Look && !AtLink(r, r.cells - 1)
    ensures ConsumeTimes(r, 3).taken == r.taken + 1
  {
    var m := r.cells - 1;
    assert CellOk(r, m, r.taken);
    assert r.pushed[r.taken] in r.pushed;
    WithCycleReads(r.pushed[r.taken].control, Cyc(m, r.taken));
    hide Slot, Cyc, CycleBit, WithCycle, IsLink;
    var r1 := ConsumeStep(r);
    assert r1.phase.SawControl?;
    var r2 := ConsumeStep(r1);
    assert ConsumeTimes(r2, 1) == ConsumeStep(r2);
    assert ConsumeTimes(r1, 2) == ConsumeTimes(r2, 1);
  }

  /**
   One TRB more than cells - 2 is too many: pushed while the consumer has not
   yet followed the last Link, it rewrites that Link with the next lap's cycle,
   and the consumer cannot move although cells - 1 TRBs are outstanding.
   */
  lemma OneMoreStalls(r: Ring, t: Trb)
    requires Inv(r) && r.pc == Idle && AtLink(r, r.cells - 1) && r.phase == Look
    requires Outstanding(r) == r.cells - 2 && Pushable(t)
    ensures var r' := ProduceTimes(r.(pc := PutParam(t)), 8);
      r'.pc == Idle && Outstanding(r') == r.cells - 1 && ConsumeStep(r') == r'
  {
    var m, p := r.cells - 1, |r.pushed|;
    SlotAfter(m, r.taken, p - r.taken);
    assert r.enq == m - 1 && r.pcs == !r.ccs;
    LinkReads();
    WithCycleReads(LINK, r.pcs);
    hide Slot, Cyc, WithCycle;
    var r1 := ProduceStep(r.(pc := PutParam(t)));
    var r2 := ProduceStep(r1);
    var r3 := ProduceStep(r2);
    var r4 := ProduceStep(r3);
    assert r4.pc == LinkParam && r4.enq == m && r4.pushed == r.pushed + [t];
    var r5 := ProduceStep(r4);
    var r6 := ProduceStep(r5);
    var r7 := ProduceStep(r6);
    var r8 := ProduceStep(r7);
    assert TrbAt(r8, m).control == WithCycle(LINK, r.pcs) && r8.ccs == r.ccs && r8.deq == m;
    assert ProduceTimes(r4, 4) == r8 by {
      assert ProduceTimes(r7, 1) == r8;
      assert ProduceTimes(r6, 2) == r8;
      assert ProduceTimes(r5, 3) == r8;
    }
    assert ProduceTimes(r.(pc := PutParam(t)), 8) == r8 by {
      assert ProduceTimes(r3, 5) == r8;
      assert ProduceTimes(r2, 6) == r8;
      assert ProduceTimes(r1, 7) == r8;
    }
  }
}
