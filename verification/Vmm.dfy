/**
 kernel/memory/vmm.c: page tables in physical memory, built and walked in
 place.  Tables are named by frame number (the HHDM is direct access), and each
 method is tied to the value-level functions of Paging and AddressSpaces.
 */
module Vmm {
  import opened Options
  import opened PhysicalFrames
  import opened Paging
  import opened AddressSpaces
  import Division
  import Pmm

  // ---- byte addresses --------------------------------------------------------------

  type Addr = a: nat | a < 0x1_0000_0000_0000_0000

  function PageOf(virt: Addr): Page { virt / 0x1000 % 0x10_0000_0000 }

  /** What vmm_virt_to_phys returns; 0 also stands for "not mapped". */
  function Translate(vm: Vm, root: nat, virt: Addr): nat {
    match Lookup(vm, root, PageOf(virt))
    case None => 0
    case Some(frame) => frame * 0x1000 + virt % 0x1000
  }

  /** The i-th page of a range, with the 64-bit wrap of virtual_addr + i * PAGE_SIZE. */
  function VirtAt(virt: Addr, i: nat): Addr { (virt + i * 0x1000) % 0x1_0000_0000_0000_0000 }

  /** 64-bit address addition. */
  function Plus(virt: Addr, d: nat): Addr { (virt + d) % 0x1_0000_0000_0000_0000 }

  lemma PageAtWraps(p: nat, i: nat)
    requires i < 0x10_0000_0000
    ensures (p + i) % 0x10_0000_0000 == PageAt(p % 0x10_0000_0000, i)
  {
    var h, q := p / 0x10_0000_0000, p % 0x10_0000_0000;
    Division.Unique(p + i, 0x10_0000_0000, if q + i < 0x10_0000_0000 then h else h + 1, PageAt(q, i));
  }

  lemma PageOfVirtAt(virt: Addr, i: nat)
    requires i < 0x10_0000_0000
    ensures PageOf(VirtAt(virt, i)) == PageAt(PageOf(virt), i)
  {
    var p, a := virt / 0x1000, virt + i * 0x1000;
    assert a / 0x1000 == p + i;
    PageAtWraps(p, i);
    if a >= 0x1_0000_0000_0000_0000 {
      assert VirtAt(virt, i) == a - 0x1_0000_0000_0000_0000;
      assert VirtAt(virt, i) / 0x1000 == p + i - 0x10_0000_0000_0000;
      PageAtWraps(p + i - 0x10_0000_0000_0000, 0);
      assert (p + i) % 0x10_0000_0000 == (p + i - 0x10_0000_0000_0000) % 0x10_0000_0000;
    }
  }

  lemma FieldShifts(virt: Addr)
    ensures virt / 0x80_0000_0000 == virt / 0x1000 / 0x800_0000
    ensures virt / 0x4000_0000 == virt / 0x1000 / 0x4_0000
    ensures virt / 0x20_0000 == virt / 0x1000 / 512
  {
    var p, o := virt / 0x1000, virt % 0x1000;
    Division.Unique(virt, 0x80_0000_0000, p / 0x800_0000, p % 0x800_0000 * 0x1000 + o);
    Division.Unique(virt, 0x4000_0000, p / 0x4_0000, p % 0x4_0000 * 0x1000 + o);
    Division.Unique(virt, 0x20_0000, p / 512, p % 512 * 0x1000 + o);
  }

  lemma FieldTop(h: nat, q: Page)
    ensures (h * 0x10_0000_0000 + q) / 0x800_0000 % 512 == Index(q, 0)
  {
    Division.Unique(h * 0x10_0000_0000 + q, 0x800_0000, h * 512 + q / 0x800_0000, q % 0x800_0000);
    Division.Unique(h * 512 + q / 0x800_0000, 512, h, q / 0x800_0000);
  }

  lemma FieldSecond(h: nat, q: Page)
    ensures (h * 0x10_0000_0000 + q) / 0x4_0000 % 512 == Index(q, 1)
  {
    var m := q / 0x4_0000;
    Division.Unique(h * 0x10_0000_0000 + q, 0x4_0000, h * 0x4_0000 + m, q % 0x4_0000);
    Division.Unique(h * 0x4_0000 + m, 512, h * 512 + m / 512, m % 512);
  }

  lemma FieldThird(h: nat, q: Page)
    ensures (h * 0x10_0000_0000 + q) / 512 % 512 == Index(q, 2)
    ensures (h * 0x10_0000_0000 + q) % 512 == Index(q, 3)
  {
    var m := q / 512;
    Division.Unique(h * 0x10_0000_0000 + q, 512, h * 0x800_0000 + m, q % 512);
    Division.Unique(h * 0x800_0000 + m, 512, h * 0x4_0000 + m / 512, m % 512);
  }

  /** The four 9-bit fields of an address are the indices of its page. */
  lemma AddressFields(virt: Addr)
    ensures virt / 0x80_0000_0000 % 512 == Index(PageOf(virt), 0)
    ensures virt / 0x4000_0000 % 512 == Index(PageOf(virt), 1)
    ensures virt / 0x20_0000 % 512 == Index(PageOf(virt), 2)
    ensures virt / 0x1000 % 512 == Index(PageOf(virt), 3)
  {
    hide Index;
    var p := virt / 0x1000;
    var h, q := p / 0x10_0000_0000, p % 0x10_0000_0000;
    assert p == h * 0x10_0000_0000 + q;
    FieldShifts(virt);
    FieldTop(h, q);
    FieldSecond(h, q);
    FieldThird(h, q);
  }

  /**
   vmm_map_pages as a flat map on byte addresses: for an aligned range,
   virt_to_phys(va + d) == pa + d for every offset d in it, and every address
   whose page lies outside translates as before.
   */
  lemma FlatMap(vm: Vm, root: nat, va: Addr, pa: nat, n: nat, flags: nat)
    requires WellFormed(vm) && IsTable(vm, root, 0) && RangeOk(pa / 0x1000, n) && FlagsOk(flags)
    requires va % 0x1000 == 0 && pa % 0x1000 == 0
    requires MapPages(vm, root, PageOf(va), pa / 0x1000, n, flags).Some?
    ensures var vm' := MapPages(vm, root, PageOf(va), pa / 0x1000, n, flags).value;
      && (forall d: nat :: d < n * 0x1000 ==> Translate(vm', root, Plus(va, d)) == pa + d)
      && (forall x: Addr :: !InRange(PageOf(va), n, PageOf(x)) ==> Translate(vm', root, x) == Translate(vm, root, x))
  {
    hide MapPages, Lookup;
    var vm' := MapPages(vm, root, PageOf(va), pa / 0x1000, n, flags).value;
    forall d: nat | d < n * 0x1000
      ensures Translate(vm', root, Plus(va, d)) == pa + d
    {
      FlatMapAt(vm, root, va, pa, n, flags, d);
    }
    forall x: Addr | !InRange(PageOf(va), n, PageOf(x))
      ensures Translate(vm', root, x) == Translate(vm, root, x)
    {
      MapPagesLookup(vm, root, PageOf(va), pa / 0x1000, n, flags, root, PageOf(x));
    }
  }

  lemma FlatMapAt(vm: Vm, root: nat, va: Addr, pa: nat, n: nat, flags: nat, d: nat)
    requires WellFormed(vm) && IsTable(vm, root, 0) && RangeOk(pa / 0x1000, n) && FlagsOk(flags)
    requires va % 0x1000 == 0 && pa % 0x1000 == 0 && d < n * 0x1000
    requires MapPages(vm, root, PageOf(va), pa / 0x1000, n, flags).Some?
    ensures Translate(MapPages(vm, root, PageOf(va), pa / 0x1000, n, flags).value, root,
                      Plus(va, d)) == pa + d
  {
    hide MapPages, Lookup;
    var i, o := d / 0x1000, d % 0x1000;
    var x := Plus(va, d);
    OffsetPage(va, i, o);
    assert PageOf(x) == PageAt(PageOf(va), i) && x % 0x1000 == o;
    assert Distance(PageOf(va), PageOf(x)) == i;
    MapPagesLookup(vm, root, PageOf(va), pa / 0x1000, n, flags, root, PageOf(x));
  }

  lemma OffsetPage(va: Addr, i: nat, o: nat)
    requires va % 0x1000 == 0 && i < 0x10_0000_0000 && o < 0x1000
    ensures var x := Plus(va, i * 0x1000 + o);
      PageOf(x) == PageAt(PageOf(va), i) && x % 0x1000 == o
  {
    var k := va / 0x1000 + i;
    var k' := if k < 0x10_0000_0000_0000 then k else k - 0x10_0000_0000_0000;
    assert va + i * 0x1000 == k * 0x1000;
    assert VirtAt(va, i) == k' * 0x1000;
    assert Plus(va, i * 0x1000 + o) == k' * 0x1000 + o;
    assert (k' * 0x1000 + o) / 0x1000 == k' == (k' * 0x1000) / 0x1000;
    PageOfVirtAt(va, i);
  }

  // ---- the tables in memory ------------------------------------------------------------

  class Memory {
    const pmm: Pmm.Allocator
    var ram: seq<seq<nat>>
    ghost var tables: map<nat, Kind>

    ghost predicate Valid()
      reads this, pmm, pmm.bitmap
    {
      pmm.Valid() && WellFormed(View())
    }

    ghost function View(): Vm
      requires pmm.Valid()
      reads this, pmm, pmm.bitmap
    {
      Vm(ram, pmm.View(), tables)
    }

    /** Memory before vmm_init: an allocator and no tables yet. */
    constructor (pmm: Pmm.Allocator, ram: seq<seq<nat>>)
      requires pmm.Valid() && |ram| == pmm.pageCount <= 0x100_0000_0000
      requires forall f :: 0 <= f < |ram| ==> |ram[f]| == 512
      ensures Valid() && this.pmm == pmm && this.ram == ram && tables == map[]
    {
      this.pmm := pmm;
      this.ram := ram;
      this.tables := map[];
      new;
      assert forall t: nat :: TableOk(View(), t);
      assert forall t: nat, i: nat :: LinkOk(View(), t, i);
    }

    /** get_table */
    method GetTable(t: nat, index: nat) returns (r: Option<nat>)
      requires Valid() && t < |ram| && index < 512
      ensures r == if Present(Word(ram, t, index)) then Some(FrameOf(Word(ram, t, index))) else None
    {
      var entry := ram[t][index];
      if entry % 2 == 1 { return Some(entry / 0x1000 % 0x100_0000_0000); }
      return None;
    }

    /** get_or_create, with alloc_table inside it. */
    method GetOrCreate(t: nat, index: nat, flags: nat) returns (r: Option<nat>)
      requires Valid() && t in tables && tables[t].depth < 3 && index < 512
      modifies this, pmm, pmm.bitmap
      ensures pmm.bitmap == old(pmm.bitmap)
      ensures r == None <==> Paging.GetOrCreate(old(View()), t, index, flags) == None
      ensures r.Some? ==> Valid() && Paging.GetOrCreate(old(View()), t, index, flags) == Some(Step(View(), r.value))
    {
      hide LinkOk, TableWord, FirstClear;
      GetOrCreateKeeps(View(), t, index, flags);
      assert TableOk(View(), t);
      var entry := ram[t][index];
      if entry % 2 == 1 { return Some(entry / 0x1000 % 0x100_0000_0000); }

      var phys := pmm.AllocPage();
      if phys == None || phys.value == 0 { return None; }
      var next := phys.value / 0x1000;
      var table: seq<nat> := ram[t][index := TableWord(next, flags)];
      ram := ram[next := Zeros()][t := table];
      tables := tables[next := Kind(tables[t].depth + 1, t, index)];
      return Some(next);
    }
 
    /** vmm_virt_to_phys */
    method VirtToPhys(root: nat, virt: Addr) returns (phys: nat)
      requires Valid() && IsTable(View(), root, 0)
      ensures phys == Translate(View(), root, virt)
    {
      AddressFields(virt);
      WalkTables(View(), root, PageOf(virt));
      var pdpt := GetTable(root, virt / 0x80_0000_0000 % 512);
      if pdpt == None { return 0; }
      var pd := GetTable(pdpt.value, virt / 0x4000_0000 % 512);
      if pd == None { return 0; }
      var pt := GetTable(pd.value, virt / 0x20_0000 % 512);
      if pt == None { return 0; }
      var entry := ram[pt.value][virt / 0x1000 % 512];
      if entry % 2 != 1 { return 0; }
      return entry / 0x1000 % 0x100_0000_0000 * 0x1000 + virt % 0x1000;
    }

    /** The three get_or_create calls of vmm_map_pages. */
    method DescendTo(root: nat, virt: Addr, flags: nat) returns (r: Option<nat>)
      requires Valid() && IsTable(View(), root, 0)
      modifies this, pmm, pmm.bitmap
      ensures pmm.bitmap == old(pmm.bitmap)
      ensures r == None <==> Descend(old(View()), root, PageOf(virt), 0, flags) == None
      ensures r.Some? ==> Valid() && Descend(old(View()), root, PageOf(virt), 0, flags) == Some(Step(View(), r.value))
    {
      hide Paging.GetOrCreate, WellFormed;
      AddressFields(virt);
      ghost var page := PageOf(virt);
      ghost var vm := View();
      GetOrCreateKeeps(View(), root, Index(page, 0), flags);
      var pdpt := GetOrCreate(root, virt / 0x80_0000_0000 % 512, flags);
      if pdpt == None { return None; }
      assert Descend(vm, root, page, 0, flags) == Descend(View(), pdpt.value, page, 1, flags);
      GetOrCreateKeeps(View(), pdpt.value, Index(page, 1), flags);
      var pd := GetOrCreate(pdpt.value, virt / 0x4000_0000 % 512, flags);
      if pd == None { return None; }
      assert Descend(vm, root, page, 0, flags) == Descend(View(), pd.value, page, 2, flags);
      GetOrCreateKeeps(View(), pd.value, Index(page, 2), flags);
      r := GetOrCreate(pd.value, virt / 0x20_0000 % 512, flags);
      if r == None { return None; }
      assert Descend(vm, root, page, 0, flags) == Descend(View(), r.value, page, 3, flags);
    }

    /** The body of the loop in vmm_map_pages. */
    method MapOne(root: nat, virt: Addr, phys: nat, flags: nat) returns (ok: bool)
      requires Valid() && IsTable(View(), root, 0) && phys < 0x10_0000_0000_0000 && FlagsOk(flags)
      modifies this, pmm, pmm.bitmap
      ensures pmm.bitmap == old(pmm.bitmap)
      ensures ok ==> Valid() && MapPage(old(View()), root, PageOf(virt), phys / 0x1000, flags) == Some(View())
      ensures !ok ==> MapPage(old(View()), root, PageOf(virt), phys / 0x1000, flags) == None
    {
      hide Descend;
      AddressFields(virt);
      var pt := DescendTo(root, virt, flags);
      if pt == None { return false; }
      SetLeafKeeps(View(), pt.value, Index(PageOf(virt), 3), LeafWord(phys / 0x1000, flags));
      var table: seq<nat> := ram[pt.value][virt / 0x1000 % 512 := LeafWord(phys / 0x1000 % 0x100_0000_0000, flags)];
      ram := ram[pt.value := table];
      return true;
    }

    /** vmm_map_pages; false is the panic for want of a table frame. */
    method MapPages(root: nat, virt: Addr, phys: nat, n: nat, flags: nat) returns (ok: bool)
      requires Valid() && IsTable(View(), root, 0) && RangeOk(phys / 0x1000, n) && FlagsOk(flags)
      modifies this, pmm, pmm.bitmap
      ensures pmm.bitmap == old(pmm.bitmap)
      ensures ok ==> Valid() && AddressSpaces.MapPages(old(View()), root, PageOf(virt), phys / 0x1000, n, flags) == Some(View())
      ensures !ok ==> AddressSpaces.MapPages(old(View()), root, PageOf(virt), phys / 0x1000, n, flags) == None
    {
      hide MapPage;
      for i := 0 to n
        invariant pmm.bitmap == old(pmm.bitmap) && Valid()
        invariant AddressSpaces.MapPages(old(View()), root, PageOf(virt), phys / 0x1000, i, flags) == Some(View())
      {
        PageOfVirtAt(virt, i);
        assert (phys + i * 0x1000) / 0x1000 == phys / 0x1000 + i;
        ok := MapOne(root, VirtAt(virt, i), phys + i * 0x1000, flags);
        if !ok {
          MapPagesStops(old(View()), root, PageOf(virt), phys / 0x1000, i + 1, n, flags);
          return;
        }
      }
      ok := true;
    }

    /** The body of the loop in vmm_unmap_and_free_pages; false is a panic of pmm_free_page. */
    method UnmapOne(root: nat, virt: Addr) returns (ok: bool)
      requires Valid() && IsTable(View(), root, 0)
      modifies this, pmm, pmm.bitmap
      ensures pmm.bitmap == old(pmm.bitmap) && pmm.Valid()
      ensures ok ==> UnmapPage(old(View()), root, PageOf(virt)) == Some(View())
      ensures !ok ==> UnmapPage(old(View()), root, PageOf(virt)) == None
    {
      AddressFields(virt);
      WalkTables(View(), root, PageOf(virt));
      var pdpt := GetTable(root, virt / 0x80_0000_0000 % 512);
      if pdpt == None { return true; }
      var pd := GetTable(pdpt.value, virt / 0x4000_0000 % 512);
      if pd == None { return true; }
      var pt := GetTable(pd.value, virt / 0x20_0000 % 512);
      if pt == None { return true; }
      ok := pmm.FreePage(ram[pt.value][virt / 0x1000 % 512] / 0x1000 % 0x100_0000_0000 * 0x1000);
      if !ok { return; }
      var table: seq<nat> := ram[pt.value][virt / 0x1000 % 512 := 0];
      ram := ram[pt.value := table];
    }

    /** vmm_unmap_and_free_pages */
    method UnmapAndFreePages(root: nat, virt: Addr, n: nat) returns (ok: bool)
      requires Valid() && IsTable(View(), root, 0) && n <= 0x10_0000_0000
      requires forall i: nat :: i < n ==> FreesNoTable(View(), root, PageAt(PageOf(virt), i))
      modifies this, pmm, pmm.bitmap
      ensures pmm.bitmap == old(pmm.bitmap)
      ensures ok ==> Valid() && UnmapPages(old(View()), root, PageOf(virt), n) == Some(View())
      ensures !ok ==> UnmapPages(old(View()), root, PageOf(virt), n) == None
    {
      hide UnmapPage;
      ghost var vm := View();
      for i := 0 to n
        invariant pmm.bitmap == old(pmm.bitmap) && Valid()
        invariant UnmapPages(vm, root, PageOf(virt), i) == Some(View()) && IsTable(View(), root, 0)
      {
        ghost var p := PageAt(PageOf(virt), i);
        PageOfVirtAt(virt, i);
        UnmapPagesKeeps(vm, root, PageOf(virt), i, root, p);
        assert Distance(PageOf(virt), p) == i;
        assert FreesNoTable(vm, root, p);
        UnmapPageKeeps(View(), root, p);
        ok := UnmapOne(root, VirtAt(virt, i));
        if !ok {
          UnmapPagesStops(vm, root, PageOf(virt), i + 1, n);
          return;
        }
      }
      ok := true;
    }

    /** vmm_create_address_space: the frame of the new PML4. */
    method CreateAddressSpace(kernel: nat) returns (r: Option<nat>)
      requires Valid() && IsTable(View(), kernel, 0)
      modifies this, pmm, pmm.bitmap
      ensures pmm.bitmap == old(pmm.bitmap)
      ensures r == None <==> CreateSpace(old(View()), kernel) == None
      ensures r.Some? ==> Valid() && CreateSpace(old(View()), kernel) == Some(Step(View(), r.value))
    {
      CreateSpaceKeeps(View(), kernel);
      assert TableOk(View(), kernel);
      var phys := pmm.AllocPage();
      if phys == None { return None; }
      var pml4 := phys.value / 0x1000;
      var table: seq<nat> := Zeros();
      for i := 256 to 512
        invariant |table| == 512 && table[..i] == Zeros()[..256] + ram[kernel][256..i]
        invariant forall k :: i <= k < 512 ==> table[k] == 0
      {
        var word: nat := ram[kernel][i];
        table := table[i := word];
      }
      assert table[..512] == table && ram[kernel][256..512] == ram[kernel][256..];
      ram := ram[pml4 := table];
      tables := tables[pml4 := Kind(0, pml4, 0)];
      return Some(pml4);
    }
  }

  // ---- unfoldings used by the methods ---------------------------------------------------

  /** Every table a walk passes through lies in memory. */
  lemma WalkTables(vm: Vm, root: nat, page: Page)
    requires WellFormed(vm) && IsTable(vm, root, 0)
    ensures root < |vm.ram|
    ensures var w0 := Word(vm.ram, root, Index(page, 0));
            var w1 := Word(vm.ram, FrameOf(w0), Index(page, 1));
            var w2 := Word(vm.ram, FrameOf(w1), Index(page, 2));
            && (Present(w0) ==> FrameOf(w0) < |vm.ram|)
            && (Present(w0) && Present(w1) ==> FrameOf(w1) < |vm.ram|)
            && (Present(w0) && Present(w1) && Present(w2) ==> FrameOf(w2) < |vm.ram|)
            && LeafTable(vm.ram, root, page, 0) ==
               if Present(w0) && Present(w1) && Present(w2) then Some(FrameOf(w2)) else None
  {
    assert TableOk(vm, root);
    var t0 := root;
    assert LinkOk(vm, t0, Index(page, 0));
    if Present(Word(vm.ram, t0, Index(page, 0))) {
      var t1 := FrameOf(Word(vm.ram, t0, Index(page, 0)));
      assert TableOk(vm, t1) && LinkOk(vm, t1, Index(page, 1));
      if Present(Word(vm.ram, t1, Index(page, 1))) {
        var t2 := FrameOf(Word(vm.ram, t1, Index(page, 1)));
        assert TableOk(vm, t2) && LinkOk(vm, t2, Index(page, 2));
        if Present(Word(vm.ram, t2, Index(page, 2))) {
          var t3 := FrameOf(Word(vm.ram, t2, Index(page, 2)));
          assert TableOk(vm, t3);
        }
      }
    }
  }

  lemma {:induction false} MapPagesStops(vm: Vm, root: nat, page: Page, frame: nat, i: nat, n: nat, flags: nat)
    requires WellFormed(vm) && IsTable(vm, root, 0) && RangeOk(frame, n) && i <= n
    requires AddressSpaces.MapPages(vm, root, page, frame, i, flags) == None
    ensures AddressSpaces.MapPages(vm, root, page, frame, n, flags) == None
    decreases n - i
  {
    hide MapPage;
    if i < n {
      MapPagesStops(vm, root, page, frame, i + 1, n, flags);
    }
  }

  lemma {:induction false} UnmapPagesStops(vm: Vm, root: nat, page: Page, i: nat, n: nat)
    requires i <= n <= 0x10_0000_0000 && UnmapPages(vm, root, page, i) == None
    ensures UnmapPages(vm, root, page, n) == None
    decreases n - i
  {
    hide UnmapPage;
    if i < n {
      UnmapPagesStops(vm, root, page, i + 1, n);
    }
  }
}
