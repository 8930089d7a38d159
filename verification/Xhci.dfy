/**
 kernel/io/xhci.c: the push routines and the EP0 dequeue-pointer setup, on the
 ring in memory.  A push is the sequence of protocol steps of module TrbRing.
 */
module Xhci {
  import opened Trbs
  import opened TrbRing
  import Division

  class ProducerRing {
    const cells: nat
    const base: nat
    const trbs: array<Trb>
    var enq: nat
    var pcs: bool

    /** The ring in memory is the producer's part of protocol state r, between two pushes. */
    ghost predicate Matches(r: Ring)
      reads this, trbs
    {
      && r.cells == cells && r.base == base && r.trbs == trbs[..] && r.enq == enq && r.pcs == pcs
      && r.pc == Idle && 3 <= cells == trbs.Length && enq < cells - 1
    }

    /** A zeroed ring, cycle state 1. */
    constructor (cells: nat, base: nat)
      requires cells >= 3
      ensures fresh(trbs) && forall r :: Initial(r) && r.cells == cells && r.base == base ==> Matches(r)
    {
      this.cells := cells;
      this.base := base;
      trbs := new Trb[cells](i => Trb(0, 0, 0));
      enq := 0;
      pcs := true;
      new;
      assert trbs[..] == seq(cells, i => Trb(0, 0, 0));
    }

    ghost predicate Mirrors(r: Ring)
      reads this, trbs
    {
      && r.cells == cells && r.base == base && r.trbs == trbs[..] && r.enq == enq && r.pcs == pcs
      && 3 <= cells == trbs.Length
    }

    /** The four statements that write a TRB. */
    method PutTrb(t: Trb, ghost r: Ring) returns (ghost r': Ring)
      requires Mirrors(r) && r.pc == PutParam(t) && enq < cells - 1
      modifies `enq, trbs
      ensures Mirrors(r') && r' == ProduceTimes(r, 4) && enq == old(enq) + 1
      ensures r'.pc == if enq >= cells - 1 then LinkParam else Idle
      ensures trbs[old(enq)] == t.(control := WithCycle(t.control, old(pcs)))
    {
      hide ProduceTimes, WithCycle;
      ProduceFour(r);
      trbs[enq] := trbs[enq].(param := t.param);
      ghost var r1 := ProduceStep(r);
      assert Mirrors(r1) && r1.pc == PutStatus(t);
      trbs[enq] := trbs[enq].(status := t.status);
      ghost var r2 := ProduceStep(r1);
      assert Mirrors(r2) && r2.pc == PutControl(t);
      trbs[enq] := trbs[enq].(control := WithCycle(t.control, pcs));
      ghost var r3 := ProduceStep(r2);
      assert Mirrors(r3) && r3.pc == Bump;
      enq := enq + 1;
      r' := ProduceStep(r3);
    }

    /** The four statements that write the Link and start the next lap. */
    method PutLink(ghost r: Ring) returns (ghost r': Ring)
      requires Mirrors(r) && r.pc == LinkParam
      modifies `enq, `pcs, trbs
      ensures Mirrors(r') && r' == ProduceTimes(r, 4) && r'.pc == Idle && enq == 0
      ensures r'.pushed == r.pushed && forall i :: 0 <= i < cells - 1 ==> trbs[i] == old(trbs[i])
    {
      hide ProduceTimes, WithCycle;
      ProduceFour(r);
      trbs[cells - 1] := trbs[cells - 1].(param := base);
      ghost var r1 := ProduceStep(r);
      assert Mirrors(r1) && r1.pc == LinkStatus;
      trbs[cells - 1] := trbs[cells - 1].(status := 0);
      ghost var r2 := ProduceStep(r1);
      assert Mirrors(r2) && r2.pc == LinkControl;
      trbs[cells - 1] := trbs[cells - 1].(control := WithCycle(LINK, pcs));
      ghost var r3 := ProduceStep(r2);
      assert Mirrors(r3) && r3.pc == Flip;
      enq := 0;
      pcs := !pcs;
      r' := ProduceStep(r3);
    }

    /** cmd_push, ep0_push, kbd_push_one, bulk_out_push and bulk_in_push; r' is the state the protocol reaches. */
    method Push(t: Trb, ghost r: Ring) returns (ghost r': Ring)
      requires Matches(r)
      modifies `enq, `pcs, trbs
      ensures Matches(r')
      ensures r' == ProduceTimes(r.(pc := PutParam(t)), if r.enq + 1 < r.cells - 1 then 4 else 8)
      ensures r'.pushed == r.pushed + [t]
      ensures !CycleBit(t.control) ==> Carries(trbs[old(enq)], t, old(pcs))
    {
      hide ProduceStep, ProduceTimes, WithCycle, Carries, CycleBit;
      if !CycleBit(t.control) { CarriesWithCycle(t, pcs); }
      PushedByFour(r.(pc := PutParam(t)), t);
      r' := PutTrb(t, r.(pc := PutParam(t)));
      if enq >= cells - 1 {
        r' := PutLink(r');
        ProduceMore(r.(pc := PutParam(t)), 4, 4);
      }
    }
  }

  lemma PushedByFour(r: Ring, t: Trb)
    requires r.pc == PutParam(t)
    ensures ProduceTimes(r, 4).pushed == r.pushed + [t]
  {
    hide ProduceStep, ProduceTimes, WithCycle;
    ProduceFour(r);
    var r1 := ProduceStep(r);
    NextPc(r);
    NextPc(r1);
    NextPc(ProduceStep(r1));
    ProduceAppends(r);
    ProduceAppends(r1);
    ProduceAppends(ProduceStep(r1));
    ProduceAppends(ProduceStep(ProduceStep(r1)));
  }

  lemma NextPc(r: Ring)
    ensures match r.pc
      case PutParam(t) => ProduceStep(r).pc == PutStatus(t)
      case PutStatus(t) => ProduceStep(r).pc == PutControl(t)
      case PutControl(t) => ProduceStep(r).pc == Bump
      case _ => true
  {
    hide WithCycle, TrbAt;
  }

  lemma ProduceFour(r: Ring)
    ensures ProduceTimes(r, 4) == ProduceStep(ProduceStep(ProduceStep(ProduceStep(r))))
  {
    hide ProduceStep;
    assert ProduceTimes(ProduceStep(r), 3) == ProduceTimes(ProduceStep(ProduceStep(r)), 2);
  }

  lemma {:induction false} ProduceMore(r: Ring, i: nat, j: nat)
    ensures ProduceTimes(r, i + j) == ProduceTimes(ProduceTimes(r, i), j)
    decreases i
  {
    if i > 0 {
      ProduceMore(ProduceStep(r), i - 1, j);
    }
  }

  // ---- the EP0 dequeue pointer of address_device ---------------------------------------

  /** Endpoint context words 2 and 3: the pointer's halves, with the cycle state in bit 0. */
  function PackLow(base: nat, enq: nat, pcs: bool): nat {
    (base + enq * 16) % 0x1_0000_0000 + if pcs then 1 else 0
  }

  function PackHigh(base: nat, enq: nat): nat { (base + enq * 16) / 0x1_0000_0000 }

  /** How the controller reads them back (section 6.2.3 of the xHCI specification). */
  function UnpackPointer(low: nat, high: nat): nat { (high * 0x1_0000_0000 + low) / 16 * 16 }

  predicate UnpackCycle(low: nat) { low % 2 == 1 }

  /** The consumer address_device programs is the one ResetStep describes: the producer's cell and cycle. */
  lemma DequeuePointerRoundTrip(r: Ring)
    requires r.base % 16 == 0
    ensures var low, high := PackLow(r.base, r.enq, r.pcs), PackHigh(r.base, r.enq);
      && UnpackPointer(low, high) == r.base + ResetStep(r).deq * 16
      && UnpackCycle(low) == ResetStep(r).ccs
  {
    var q := r.base / 16 + r.enq;
    assert r.base + r.enq * 16 == 16 * q;
    SplitPointer(q, if r.pcs then 1 else 0);
  }

  lemma SplitPointer(q: nat, c: nat)
    requires c < 2
    ensures UnpackPointer(16 * q % 0x1_0000_0000 + c, 16 * q / 0x1_0000_0000) == 16 * q
    ensures UnpackCycle(16 * q % 0x1_0000_0000 + c) <==> c == 1
  {
    var h, s := q / 0x1000_0000, q % 0x1000_0000;
    assert 16 * q == h * 0x1_0000_0000 + 16 * s;
    Division.Unique(16 * q, 0x1_0000_0000, h, 16 * s);
    Division.Unique(16 * s + c, 2, 8 * s, c);
    Division.Unique(16 * q + c, 16, q, c);
  }

  lemma Appended(pushed: seq<Trb>, hand: seq<Trb>, before: seq<Trb>, more: seq<Trb>)
    requires pushed + hand == before + [] + more && |before| <= |pushed|
    ensures |pushed| <= |before| + |more|
    ensures forall i :: 0 <= i < |pushed| - |before| ==> more[i] == pushed[|before| + i]
  {
    forall i | 0 <= i < |pushed| - |before|
      ensures more[i] == pushed[|before| + i]
    {
      assert (pushed + hand)[|before| + i] == (before + [] + more)[|before| + i];
    }
  }

  /** After the reset no TRB pushed before is read again: the next one read is the next one pushed. */
  lemma ResetForgets(r: Ring, steps: seq<Step>, end: Ring)
    requires Inv(r) && r.pc == Idle && Run(ResetStep(r), steps, end)
    requires forall k :: 0 <= k < |steps| ==> steps[k] != Reset
    ensures end.since == |r.pushed| && r.pushed <= end.pushed && |end.consumed| <= |end.pushed| - |r.pushed|
    ensures |end.pushed| <= |r.pushed| + |Begun(steps)| && end.cells > 1
    ensures forall i :: 0 <= i < |end.consumed| ==>
      Carries(end.consumed[i], Begun(steps)[i], (|r.pushed| + i) / (end.cells - 1) % 2 == 0)
  {
    hide ConsumeStep, ProduceStep, Carries, Inv, Begun, Run;
    ResetKeeps(r);
    RunKeeps(ResetStep(r), steps, end);
    SinceFixed(ResetStep(r), steps, end);
    ConsumedCarries(end);
    PushedAreBegun(ResetStep(r), steps, end);
    Appended(end.pushed, InHand(end), r.pushed, Begun(steps));
  }

  lemma {:induction false} SinceFixed(r: Ring, steps: seq<Step>, end: Ring)
    requires Run(r, steps, end) && forall k :: 0 <= k < |steps| ==> steps[k] != Reset
    ensures end.since == r.since && r.pushed <= end.pushed
    decreases |steps|
  {
    hide Exec, Enabled;
    if |steps| > 0 {
      SinceStep(r, steps[0]);
      SinceFixed(Exec(r, steps[0]), steps[1..], end);
    }
  }

  lemma SinceStep(r: Ring, s: Step)
    requires s != Reset
    ensures Exec(r, s).since == r.since && r.pushed <= Exec(r, s).pushed
  {
    hide ProduceStep, ConsumeStep;
    ProduceAppends(r);
    ConsumeAppends(r);
    assert forall t :: r.pushed <= r.pushed + [t];
  }

  lemma SetTrbFrame(r: Ring, i: nat, t: Trb)
    ensures SetTrb(r, i, t) == r.(trbs := SetTrb(r, i, t).trbs)
  {}

  lemma ProduceAppends(r: Ring)
    ensures ProduceStep(r).since == r.since
    ensures ProduceStep(r).pushed == if r.pc.PutControl? then r.pushed + [r.pc.t] else r.pushed
  {
    hide WithCycle, TrbAt, SetTrb;
    match r.pc
    case PutParam(t) => SetTrbFrame(r, r.enq, TrbAt(r, r.enq).(param := t.param));
    case PutStatus(t) => SetTrbFrame(r, r.enq, TrbAt(r, r.enq).(status := t.status));
    case PutControl(t) => SetTrbFrame(r, r.enq, TrbAt(r, r.enq).(control := WithCycle(t.control, r.pcs)));
    case _ =>
      var last := if r.cells > 0 then r.cells - 1 else 0;
      SetTrbFrame(r, last, TrbAt(r, last).(param := r.base));
      SetTrbFrame(r, last, TrbAt(r, last).(status := 0));
      SetTrbFrame(r, last, TrbAt(r, last).(control := WithCycle(LINK, r.pcs)));
  }

  lemma ConsumeAppends(r: Ring)
    ensures ConsumeStep(r).since == r.since && ConsumeStep(r).pushed == r.pushed
  {
    hide CycleBit, IsLink, Toggles;
  }
}
