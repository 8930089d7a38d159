/**
 The four-level page tables of kernel/memory/vmm.c as values.  Physical memory
 is a sequence of frames of 512 words; a table is named by its frame number.
 Shifts and masks of the source are the corresponding divisions and remainders.
 `tables` is bookkeeping for the proofs: which frames hold tables, at which
 depth (0 is the PML4), and the slot each was created for.
 */
module Paging {
  import opened Options
  import opened PhysicalFrames
  import Division

  // ---- words, pages, indices ------------------------------------------------

  predicate Present(w: nat) { w % 2 == 1 }

  /** (w & PAGE_ADDR_MASK) >> 12: bits 12 to 51. */
  function FrameOf(w: nat): nat { w / 0x1000 % 0x100_0000_0000 }

  /** A flag word without a bit inside PAGE_ADDR_MASK. */
  predicate FlagsOk(flags: nat) {
    flags < 0x1_0000_0000_0000_0000 && flags % 0x10_0000_0000_0000 < 0x1000
  }

  /** (phys & PAGE_ADDR_MASK) | flags | PAGE_PRESENT */
  function LeafWord(frame: nat, flags: nat): nat {
    frame * 0x1000 + flags + if flags % 2 == 1 then 0 else 1
  }

  /** (phys & PAGE_ADDR_MASK) | PAGE_PRESENT | PAGE_WRITABLE | (flags & PAGE_USER) */
  function TableWord(frame: nat, flags: nat): nat {
    frame * 0x1000 + 3 + flags / 4 % 2 * 4
  }

  lemma FieldsOf(high: nat, frame: nat, low: nat)
    requires frame < 0x100_0000_0000 && low < 0x1000
    ensures FrameOf((high * 0x100_0000_0000 + frame) * 0x1000 + low) == frame
    ensures Present((high * 0x100_0000_0000 + frame) * 0x1000 + low) <==> low % 2 == 1
  {
    var k := high * 0x100_0000_0000 + frame;
    Division.Unique(k * 0x1000 + low, 0x1000, k, low);
    Division.Unique(k, 0x100_0000_0000, high, frame);
    Division.Unique(k * 0x1000 + low, 2, k * 0x800 + low / 2, low % 2);
  }

  lemma LeafWordReads(frame: nat, flags: nat)
    requires frame < 0x100_0000_0000 && FlagsOk(flags)
    ensures Present(LeafWord(frame, flags)) && FrameOf(LeafWord(frame, flags)) == frame
  {
    hide FrameOf, Present;
    var low, high := flags % 0x10_0000_0000_0000, flags / 0x10_0000_0000_0000;
    Division.Unique(flags, 2, high * 0x8_0000_0000_0000 + low / 2, low % 2);
    FieldsOf(high, frame, if low % 2 == 1 then low else low + 1);
  }

  lemma TableWordReads(frame: nat, flags: nat)
    requires frame < 0x100_0000_0000
    ensures Present(TableWord(frame, flags)) && FrameOf(TableWord(frame, flags)) == frame
  {
    FieldsOf(0, frame, 3 + flags / 4 % 2 * 4);
  }

  /** Virtual page numbers are the 36 bits the walk looks at. */
  type Page = p: nat | p < 0x10_0000_0000

  function Index(page: Page, depth: nat): (r: nat)
    ensures r < 512
  {
    if depth == 0 then page / 0x800_0000
    else if depth == 1 then page / 0x4_0000 % 512
    else if depth == 2 then page / 512 % 512
    else page % 512
  }

  lemma IndexInjective(p: Page, q: Page)
    requires Index(p, 0) == Index(q, 0) && Index(p, 1) == Index(q, 1)
    requires Index(p, 2) == Index(q, 2) && Index(p, 3) == Index(q, 3)
    ensures p == q
  {
    assert p / 0x4_0000 == p / 0x4_0000 / 512 * 512 + p / 0x4_0000 % 512;
    assert p / 0x4_0000 / 512 == p / 0x800_0000 && q / 0x4_0000 / 512 == q / 0x800_0000;
    assert p / 512 / 512 == p / 0x4_0000 && q / 512 / 512 == q / 0x4_0000;
  }

  predicate LowerHalf(page: Page) { Index(page, 0) < 256 }

  /** The page i pages after p, around the 48-bit space. */
  function PageAt(p: Page, i: nat): Page
    requires i <= 0x10_0000_0000
  {
    if p + i < 0x10_0000_0000 then p + i else p + i - 0x10_0000_0000
  }

  /** How far q lies after p, around the 48-bit space. */
  function Distance(p: Page, q: Page): (r: Page)
    ensures PageAt(p, r) == q
  {
    if q >= p then q - p else q + 0x10_0000_0000 - p
  }

  // ---- memory and tables ------------------------------------------------------

  datatype Kind = Kind(depth: nat, parent: nat, index: nat)

  datatype Vm = Vm(ram: seq<seq<nat>>, frames: Frames, tables: map<nat, Kind>)

  function Word(ram: seq<seq<nat>>, t: nat, i: nat): nat {
    if t < |ram| && i < |ram[t]| then ram[t][i] else 0
  }

  function Zeros(): (r: seq<nat>)
    ensures |r| == 512 && forall i :: 0 <= i < 512 ==> r[i] == 0
  {
    seq(512, i => 0)
  }

  predicate TableOk(vm: Vm, t: nat) {
    t in vm.tables ==> t < |vm.frames.bits| && vm.frames.bits[t] && vm.tables[t].depth <= 3
  }

  /**
   A present word of a table above the last level points to a table one level
   down that was created for this very slot; only the upper half of a PML4 may
   point to a table created through another PML4.
   */
  predicate LinkOk(vm: Vm, t: nat, i: nat) {
    t in vm.tables && vm.tables[t].depth < 3 && Present(Word(vm.ram, t, i)) ==>
      var c := FrameOf(Word(vm.ram, t, i));
      c in vm.tables && vm.tables[c].depth == vm.tables[t].depth + 1 && vm.tables[c].index == i
      && (vm.tables[c].parent == t || (vm.tables[t].depth == 0 && i >= 256))
  }

  ghost predicate WellFormed(vm: Vm) {
    && vm.frames.last <= |vm.frames.bits| == |vm.ram| <= 0x100_0000_0000
    && (forall f :: 0 <= f < |vm.ram| ==> |vm.ram[f]| == 512)
    && (forall t: nat {:trigger TableOk(vm, t)} :: TableOk(vm, t))
    && (forall t: nat, i: nat {:trigger LinkOk(vm, t, i)} :: LinkOk(vm, t, i))
  }

  predicate IsTable(vm: Vm, t: nat, depth: nat) { t in vm.tables && vm.tables[t].depth == depth }

  /** vmm_virt_to_phys below table t: the frame a page is mapped to. */
  function WalkFrom(ram: seq<seq<nat>>, t: nat, page: Page, d: nat): Option<nat>
    requires d <= 3
    decreases 3 - d
  {
    var w := Word(ram, t, Index(page, d));
    if !Present(w) then None
    else if d == 3 then Some(FrameOf(w))
    else WalkFrom(ram, FrameOf(w), page, d + 1)
  }

  function Lookup(vm: Vm, root: nat, page: Page): Option<nat> { WalkFrom(vm.ram, root, page, 0) }

  /** The last-level table a walk arrives at. */
  function LeafTable(ram: seq<seq<nat>>, t: nat, page: Page, d: nat): Option<nat>
    requires d <= 3
    decreases 3 - d
  {
    if d == 3 then Some(t) else
      var w := Word(ram, t, Index(page, d));
      if !Present(w) then None else LeafTable(ram, FrameOf(w), page, d + 1)
  }

  // ---- get_or_create --------------------------------------------------------------

  datatype Step = Step(vm: Vm, table: nat)

  function AddTable(vm: Vm, t: nat, i: nat, g: Grant, flags: nat): Vm
    requires t < |vm.ram| && i < |vm.ram[t]| && g.page < |vm.ram| && t in vm.tables && t != g.page
  {
    Vm(vm.ram[g.page := Zeros()][t := vm.ram[t][i := TableWord(g.page, flags)]], g.frames,
       vm.tables[g.page := Kind(vm.tables[t].depth + 1, t, i)])
  }

  /** get_or_create; None is the panic for want of a frame (or on being handed frame 0). */
  function GetOrCreate(vm: Vm, t: nat, i: nat, flags: nat): (r: Option<Step>)
    requires WellFormed(vm) && t in vm.tables && i < 512
  {
    assert TableOk(vm, t);
    if Present(Word(vm.ram, t, i)) then Some(Step(vm, FrameOf(Word(vm.ram, t, i))))
    else match AllocPage(vm.frames)
      case None => None
      case Some(g) => if g.page == 0 then None else Some(Step(AddTable(vm, t, i, g, flags), g.page))
  }

  lemma GetOrCreateKeeps(vm: Vm, t: nat, i: nat, flags: nat)
    requires WellFormed(vm) && t in vm.tables && vm.tables[t].depth < 3 && i < 512
    ensures GetOrCreate(vm, t, i, flags).Some? ==>
      var s := GetOrCreate(vm, t, i, flags).value;
      && WellFormed(s.vm) && IsTable(s.vm, s.table, vm.tables[t].depth + 1)
      && Present(Word(s.vm.ram, t, i)) && FrameOf(Word(s.vm.ram, t, i)) == s.table
  {
    assert TableOk(vm, t);
    if Present(Word(vm.ram, t, i)) {
      assert LinkOk(vm, t, i);
    } else {
      match AllocPage(vm.frames) {
        case None =>
        case Some(g) =>
          if g.page != 0 {
            AddTableKeeps(vm, t, i, g, flags);
          }
      }
    }
  }

  lemma AddTableKeeps(vm: Vm, t: nat, i: nat, g: Grant, flags: nat)
    requires WellFormed(vm) && t in vm.tables && vm.tables[t].depth < 3 && i < 512
    requires AllocPage(vm.frames) == Some(g)
    ensures t < |vm.ram| && g.page < |vm.ram| && t != g.page && g.page !in vm.tables
    ensures WellFormed(AddTable(vm, t, i, g, flags))
    ensures Present(TableWord(g.page, flags)) && FrameOf(TableWord(g.page, flags)) == g.page
  {
    assert TableOk(vm, t) && TableOk(vm, g.page);
    TableWordReads(g.page, flags);
    var vm' := AddTable(vm, t, i, g, flags);
    forall x: nat
      ensures TableOk(vm', x)
    {
      assert TableOk(vm, x);
    }
    forall x: nat, k: nat
      ensures LinkOk(vm', x, k)
    {
      assert LinkOk(vm, x, k);
      assert x == t && k == i ==> Word(vm'.ram, x, k) == TableWord(g.page, flags);
      assert x in vm.tables && !(x == t && k == i) ==> Word(vm'.ram, x, k) == Word(vm.ram, x, k);
    }
  }

  /** What building tables keeps: the old tables, their present words, and every translation. */
  ghost predicate Grows(vm: Vm, vm': Vm) {
    && |vm'.ram| == |vm.ram|
    && (forall x :: x in vm.tables ==> x in vm'.tables && vm'.tables[x] == vm.tables[x])
    && (forall x: nat, k: nat {:trigger Word(vm'.ram, x, k)} ::
          x in vm.tables && Present(Word(vm.ram, x, k)) ==> Word(vm'.ram, x, k) == Word(vm.ram, x, k))
    && (forall x: nat, q: Page {:trigger WalkFrom(vm'.ram, x, q, vm.tables[x].depth)} ::
          x in vm.tables && vm.tables[x].depth <= 3 ==>
          WalkFrom(vm'.ram, x, q, vm.tables[x].depth) == WalkFrom(vm.ram, x, q, vm.tables[x].depth))
  }

  lemma {:induction false} AddTableWalk(vm: Vm, t: nat, i: nat, g: Grant, flags: nat, x: nat, q: Page)
    requires WellFormed(vm) && t in vm.tables && vm.tables[t].depth < 3 && i < 512
    requires AllocPage(vm.frames) == Some(g) && !Present(Word(vm.ram, t, i))
    requires t < |vm.ram| && g.page < |vm.ram| && t != g.page && g.page !in vm.tables
    requires x in vm.tables && vm.tables[x].depth <= 3
    ensures WalkFrom(AddTable(vm, t, i, g, flags).ram, x, q, vm.tables[x].depth) == WalkFrom(vm.ram, x, q, vm.tables[x].depth)
    decreases 3 - vm.tables[x].depth
  {
    var ram' := AddTable(vm, t, i, g, flags).ram;
    var d := vm.tables[x].depth;
    var k := Index(q, d);
    assert TableOk(vm, x) && LinkOk(vm, x, k);
    AddTableKeeps(vm, t, i, g, flags);
    if x == t && k == i {
      assert Word(ram', g.page, Index(q, d + 1)) == 0;
      assert WalkFrom(ram', g.page, q, d + 1) == None;
    } else {
      assert Word(ram', x, k) == Word(vm.ram, x, k);
      if Present(Word(vm.ram, x, k)) && d < 3 {
        AddTableWalk(vm, t, i, g, flags, FrameOf(Word(vm.ram, x, k)), q);
      }
    }
  }

  lemma GetOrCreateGrows(vm: Vm, t: nat, i: nat, flags: nat)
    requires WellFormed(vm) && t in vm.tables && vm.tables[t].depth < 3 && i < 512
    ensures GetOrCreate(vm, t, i, flags).Some? ==> Grows(vm, GetOrCreate(vm, t, i, flags).value.vm)
  {
    if !Present(Word(vm.ram, t, i)) {
      match AllocPage(vm.frames) {
        case None =>
        case Some(g) =>
          if g.page != 0 {
            AddTableKeeps(vm, t, i, g, flags);
            forall x: nat, q: Page | x in vm.tables && vm.tables[x].depth <= 3
              ensures WalkFrom(AddTable(vm, t, i, g, flags).ram, x, q, vm.tables[x].depth)
                   == WalkFrom(vm.ram, x, q, vm.tables[x].depth)
            {
              AddTableWalk(vm, t, i, g, flags, x, q);
            }
          }
      }
    }
  }

  lemma GrowsTransitive(a: Vm, b: Vm, c: Vm)
    requires Grows(a, b) && Grows(b, c)
    ensures Grows(a, c)
  {
    forall x: nat, q: Page | x in a.tables && a.tables[x].depth <= 3
      ensures WalkFrom(c.ram, x, q, a.tables[x].depth) == WalkFrom(a.ram, x, q, a.tables[x].depth)
    {
      assert b.tables[x] == a.tables[x];
      assert WalkFrom(c.ram, x, q, b.tables[x].depth) == WalkFrom(b.ram, x, q, b.tables[x].depth);
      assert WalkFrom(b.ram, x, q, a.tables[x].depth) == WalkFrom(a.ram, x, q, a.tables[x].depth);
    }
    forall x: nat, k: nat | x in a.tables && Present(Word(a.ram, x, k))
      ensures Word(c.ram, x, k) == Word(a.ram, x, k)
    {
      assert Word(b.ram, x, k) == Word(a.ram, x, k);
    }
  }

  // ---- vmm_map_pages ----------------------------------------------------------------

  /** The get_or_create calls from depth d down to the last-level table. */
  function Descend(vm: Vm, t: nat, page: Page, d: nat, flags: nat): (r: Option<Step>)
    requires WellFormed(vm) && d <= 3 && IsTable(vm, t, d)
    ensures r.Some? ==> WellFormed(r.value.vm) && IsTable(r.value.vm, r.value.table, 3)
    decreases 3 - d
  {
    if d == 3 then Some(Step(vm, t)) else
      GetOrCreateKeeps(vm, t, Index(page, d), flags);
      match GetOrCreate(vm, t, Index(page, d), flags)
      case None => None
      case Some(s) => Descend(s.vm, s.table, page, d + 1, flags)
  }

  lemma {:induction false} DescendGrows(vm: Vm, t: nat, page: Page, d: nat, flags: nat)
    requires WellFormed(vm) && d <= 3 && IsTable(vm, t, d)
    ensures Descend(vm, t, page, d, flags).Some? ==>
      var s := Descend(vm, t, page, d, flags).value;
      Grows(vm, s.vm) && LeafTable(s.vm.ram, t, page, d) == Some(s.table)
    decreases 3 - d
  {
    if d < 3 {
      var i := Index(page, d);
      GetOrCreateKeeps(vm, t, i, flags);
      GetOrCreateGrows(vm, t, i, flags);
      match GetOrCreate(vm, t, i, flags) {
        case None =>
        case Some(s) =>
          DescendGrows(s.vm, s.table, page, d + 1, flags);
          match Descend(s.vm, s.table, page, d + 1, flags) {
            case None =>
            case Some(s') =>
              GrowsTransitive(vm, s.vm, s'.vm);
              assert Word(s'.vm.ram, t, i) == Word(s.vm.ram, t, i);
          }
      }
    }
  }

  function SetLeaf(vm: Vm, pt: nat, j: nat, w: nat): Vm
    requires pt < |vm.ram| && j < |vm.ram[pt]|
  {
    var table: seq<nat> := vm.ram[pt][j := w];
    Vm(vm.ram[pt := table], vm.frames, vm.tables)
  }

  lemma SetLeafKeeps(vm: Vm, pt: nat, j: nat, w: nat)
    requires WellFormed(vm) && IsTable(vm, pt, 3) && j < 512
    ensures pt < |vm.ram| && WellFormed(SetLeaf(vm, pt, j, w))
  {
    assert TableOk(vm, pt);
    var vm' := SetLeaf(vm, pt, j, w);
    forall x: nat
      ensures TableOk(vm', x)
    {
      assert TableOk(vm, x);
    }
    forall x: nat, k: nat
      ensures LinkOk(vm', x, k)
    {
      assert LinkOk(vm, x, k);
      assert x != pt ==> Word(vm'.ram, x, k) == Word(vm.ram, x, k);
    }
  }

  /** Writing one leaf changes exactly the walks that end in it. */
  lemma {:induction false} SetLeafWalk(vm: Vm, pt: nat, j: nat, w: nat, x: nat, q: Page, d: nat)
    requires WellFormed(vm) && IsTable(vm, pt, 3) && j < 512 && pt < |vm.ram|
    requires d <= 3 && IsTable(vm, x, d)
    ensures WalkFrom(SetLeaf(vm, pt, j, w).ram, x, q, d) ==
      if LeafTable(vm.ram, x, q, d) == Some(pt) && Index(q, 3) == j
      then (if Present(w) then Some(FrameOf(w)) else None)
      else WalkFrom(vm.ram, x, q, d)
    ensures LeafTable(SetLeaf(vm, pt, j, w).ram, x, q, d) == LeafTable(vm.ram, x, q, d)
    decreases 3 - d
  {
    var ram' := SetLeaf(vm, pt, j, w).ram;
    var k := Index(q, d);
    assert TableOk(vm, x) && LinkOk(vm, x, k);
    if d < 3 {
      assert Word(ram', x, k) == Word(vm.ram, x, k);
      if Present(Word(vm.ram, x, k)) {
        SetLeafWalk(vm, pt, j, w, FrameOf(Word(vm.ram, x, k)), q, d + 1);
      }
    }
  }

  /** No two slots lead to one last-level table, except through a shared upper half. */
  lemma LeafUnique(vm: Vm, r: nat, p: Page, r': nat, p': Page)
    requires WellFormed(vm) && IsTable(vm, r, 0) && IsTable(vm, r', 0)
    requires LeafTable(vm.ram, r, p, 0).Some? && LeafTable(vm.ram, r, p, 0) == LeafTable(vm.ram, r', p', 0)
    ensures Index(p, 0) == Index(p', 0) && Index(p, 1) == Index(p', 1) && Index(p, 2) == Index(p', 2)
    ensures r == r' || !LowerHalf(p)
  {
    var a1, b1 := FrameOf(Word(vm.ram, r, Index(p, 0))), FrameOf(Word(vm.ram, r', Index(p', 0)));
    assert LinkOk(vm, r, Index(p, 0)) && LinkOk(vm, r', Index(p', 0));
    assert LeafTable(vm.ram, a1, p, 1) == LeafTable(vm.ram, b1, p', 1);
    var a2, b2 := FrameOf(Word(vm.ram, a1, Index(p, 1))), FrameOf(Word(vm.ram, b1, Index(p', 1)));
    assert LinkOk(vm, a1, Index(p, 1)) && LinkOk(vm, b1, Index(p', 1));
    assert LeafTable(vm.ram, a2, p, 2) == LeafTable(vm.ram, b2, p', 2);
    assert LinkOk(vm, a2, Index(p, 2)) && LinkOk(vm, b2, Index(p', 2));
    assert a2 == b2 && a1 == b1;
  }

  /** One round of the loop in vmm_map_pages. */
  function MapPage(vm: Vm, root: nat, page: Page, frame: nat, flags: nat): (r: Option<Vm>)
    requires WellFormed(vm) && IsTable(vm, root, 0)
    ensures r.Some? ==> WellFormed(r.value) && IsTable(r.value, root, 0)
  {
    DescendGrows(vm, root, page, 0, flags);
    match Descend(vm, root, page, 0, flags)
    case None => None
    case Some(s) =>
      SetLeafKeeps(s.vm, s.table, Index(page, 3), LeafWord(frame, flags));
      Some(SetLeaf(s.vm, s.table, Index(page, 3), LeafWord(frame, flags)))
  }

  /** Mapping one page changes that page's translation and no other, except in spaces that share it. */
  lemma MapPageLookup(vm: Vm, root: nat, page: Page, frame: nat, flags: nat, r: nat, q: Page)
    requires WellFormed(vm) && IsTable(vm, root, 0) && IsTable(vm, r, 0)
    requires frame < 0x100_0000_0000 && FlagsOk(flags)
    ensures MapPage(vm, root, page, frame, flags).Some? ==>
      var vm' := MapPage(vm, root, page, frame, flags).value;
      && (r == root ==> Lookup(vm', r, q) == if q == page then Some(frame) else Lookup(vm, r, q))
      && (r != root && LowerHalf(page) ==> Lookup(vm', r, q) == Lookup(vm, r, q))
      && (q != page ==> Lookup(vm', r, q) == Lookup(vm, r, q))
  {
    DescendGrows(vm, root, page, 0, flags);
    match Descend(vm, root, page, 0, flags) {
      case None =>
      case Some(s) =>
        LeafWordReads(frame, flags);
        SetLeafKeeps(s.vm, s.table, Index(page, 3), LeafWord(frame, flags));
        SetLeafWalk(s.vm, s.table, Index(page, 3), LeafWord(frame, flags), r, q, 0);
        assert WalkFrom(s.vm.ram, r, q, vm.tables[r].depth) == WalkFrom(vm.ram, r, q, vm.tables[r].depth);
        if LeafTable(s.vm.ram, r, q, 0) == Some(s.table) {
          LeafUnique(s.vm, root, page, r, q);
          if Index(q, 3) == Index(page, 3) {
            IndexInjective(q, page);
          }
        }
    }
  }
}
