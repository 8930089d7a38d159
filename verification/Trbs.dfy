/** Transfer request blocks of kernel/io/xhci.c and the bits of their control word. */
module Trbs {
  import opened CyclePositions

  datatype Trb = Trb(param: nat, status: nat, control: bv32)

  const LINK: bv32 := 0x1802 // TRB_TYPE(TT_LINK) | TRB_TC

  predicate CycleBit(control: bv32) { control & 1 == 1 }
  predicate IsLink(control: bv32) { (control >> 10) & 0x3f == 6 }
  predicate Toggles(control: bv32) { control & 2 == 2 }

  function WithCycle(control: bv32, cycle: bool): bv32 { if cycle then control | 1 else control }

  /** Without its bit 0 the word stored is the word given. */
  lemma WithCycleReads(control: bv32, cycle: bool)
    requires !CycleBit(control)
    ensures WithCycle(control, cycle) & 0xFFFF_FFFE == control
    ensures CycleBit(WithCycle(control, cycle)) == cycle
    ensures IsLink(WithCycle(control, cycle)) == IsLink(control)
    ensures Toggles(WithCycle(control, cycle)) == Toggles(control)
    ensures (WithCycle(control, cycle) >> 10) & 0x3f == (control >> 10) & 0x3f
  {}

  /** TRB u is TRB t but for bit 0 of its control word, which is the cycle. */
  predicate Carries(u: Trb, t: Trb, cycle: bool) {
    u.param == t.param && u.status == t.status && u.control & 0xFFFF_FFFE == t.control && (u.control & 1 == 1 <==> cycle)
  }

  lemma WireCarries(m: nat, t: Trb, k: nat)
    requires m > 0 && !CycleBit(t.control)
    ensures Carries(Wire(m, t, k), t, k / m % 2 == 0)
  {
    hide Cyc, WithCycle, Carries, CycleBit;
    CarriesWithCycle(t, Cyc(m, k));
    SlotIs(m, k);
  }

  lemma CarriesWithCycle(t: Trb, cycle: bool)
    requires !CycleBit(t.control)
    ensures Carries(t.(control := WithCycle(t.control, cycle)), t, cycle)
  {}

  lemma LinkReads()
    ensures !CycleBit(LINK) && IsLink(LINK) && Toggles(LINK)
  {}

  /** The TRB as it lies in memory: the k-th written, with its lap's cycle bit. */
  function Wire(m: nat, t: Trb, k: nat): Trb
    requires m > 0
  {
    t.(control := WithCycle(t.control, Cyc(m, k)))
  }
}
