/**
 Ranges, address spaces and whole runs over the tables of module Paging:
 vmm_map_pages, vmm_unmap_and_free_pages and vmm_create_address_space.
 */
module AddressSpaces {
  import opened Options
  import opened PhysicalFrames
  import opened Paging

  // ---- mapping a range ------------------------------------------------------------

  predicate RangeOk(frame: nat, n: nat) { n <= 0x10_0000_0000 && frame + n <= 0x100_0000_0000 }

  function MapPages(vm: Vm, root: nat, page: Page, frame: nat, n: nat, flags: nat): (r: Option<Vm>)
    requires WellFormed(vm) && IsTable(vm, root, 0) && RangeOk(frame, n)
    ensures r.Some? ==> WellFormed(r.value) && IsTable(r.value, root, 0)
  {
    if n == 0 then Some(vm) else
      match MapPages(vm, root, page, frame, n - 1, flags)
      case None => None
      case Some(v) => MapPage(v, root, PageAt(page, n - 1), frame + n - 1, flags)
  }

  predicate InRange(page: Page, n: nat, q: Page) { Distance(page, q) < n }

  predicate RangeLower(page: Page, n: nat)
    requires n <= 0x10_0000_0000
  {
    forall i :: 0 <= i < n ==> LowerHalf(PageAt(page, i))
  }

  /** PML4s stay, and a PML4 slot once present never changes. */
  ghost predicate RootsKept(vm: Vm, vm': Vm) {
    && (forall x: nat :: IsTable(vm, x, 0) ==> IsTable(vm', x, 0))
    && (forall x: nat, k: nat {:trigger Word(vm'.ram, x, k)} ::
          IsTable(vm, x, 0) && Present(Word(vm.ram, x, k)) ==> Word(vm'.ram, x, k) == Word(vm.ram, x, k))
  }

  lemma MapPageRoots(vm: Vm, root: nat, page: Page, frame: nat, flags: nat)
    requires WellFormed(vm) && IsTable(vm, root, 0)
    ensures MapPage(vm, root, page, frame, flags).Some? ==> RootsKept(vm, MapPage(vm, root, page, frame, flags).value)
  {
    DescendGrows(vm, root, page, 0, flags);
    match Descend(vm, root, page, 0, flags) {
      case None =>
      case Some(s) =>
        var vm' := MapPage(vm, root, page, frame, flags).value;
        forall x: nat, k: nat | IsTable(vm, x, 0) && Present(Word(vm.ram, x, k))
          ensures Word(vm'.ram, x, k) == Word(vm.ram, x, k)
        {
          assert Word(s.vm.ram, x, k) == Word(vm.ram, x, k);
        }
    }
  }

  lemma {:induction false} MapPagesRoots(vm: Vm, root: nat, page: Page, frame: nat, n: nat, flags: nat)
    requires WellFormed(vm) && IsTable(vm, root, 0) && RangeOk(frame, n)
    ensures MapPages(vm, root, page, frame, n, flags).Some? ==>
      RootsKept(vm, MapPages(vm, root, page, frame, n, flags).value)
  {
    hide MapPage;
    if n > 0 {
      MapPagesRoots(vm, root, page, frame, n - 1, flags);
      match MapPages(vm, root, page, frame, n - 1, flags) {
        case None =>
        case Some(v) =>
          MapPageRoots(v, root, PageAt(page, n - 1), frame + n - 1, flags);
          match MapPages(vm, root, page, frame, n, flags) {
            case None =>
            case Some(v') => RootsKeptTransitive(vm, v, v');
          }
      }
    }
  }

  lemma RootsKeptTransitive(a: Vm, b: Vm, c: Vm)
    requires RootsKept(a, b) && RootsKept(b, c)
    ensures RootsKept(a, c)
  {
    forall x: nat, k: nat | IsTable(a, x, 0) && Present(Word(a.ram, x, k))
      ensures Word(c.ram, x, k) == Word(a.ram, x, k)
    {
      assert Word(b.ram, x, k) == Word(a.ram, x, k);
    }
  }

  /**
   vmm_map_pages acts on the space as on a flat map from pages to frames: the
   range goes to consecutive frames and every other page keeps its translation.
   A range in the lower half changes no other space at all.
   */
  lemma {:induction false} MapPagesLookup(vm: Vm, root: nat, page: Page, frame: nat, n: nat, flags: nat, r: nat, q: Page)
    requires WellFormed(vm) && IsTable(vm, root, 0) && IsTable(vm, r, 0) && RangeOk(frame, n) && FlagsOk(flags)
    ensures MapPages(vm, root, page, frame, n, flags).Some? ==>
      var vm' := MapPages(vm, root, page, frame, n, flags).value;
      && IsTable(vm', r, 0)
      && (r == root && InRange(page, n, q) ==> Lookup(vm', r, q) == Some(frame + Distance(page, q)))
      && (r != root && RangeLower(page, n) ==> Lookup(vm', r, q) == Lookup(vm, r, q))
      && (!InRange(page, n, q) ==> Lookup(vm', r, q) == Lookup(vm, r, q))
  {
    hide MapPage;
    MapPagesRoots(vm, root, page, frame, n, flags);
    if n > 0 {
      MapPagesLookup(vm, root, page, frame, n - 1, flags, r, q);
      match MapPages(vm, root, page, frame, n - 1, flags) {
        case None =>
        case Some(v) =>
          MapPageLookup(v, root, PageAt(page, n - 1), frame + n - 1, flags, r, q);
          assert q == PageAt(page, n - 1) <==> Distance(page, q) == n - 1;
      }
    }
  }

  // ---- frames taken while mapping ---------------------------------------------------

  /** The only frames taken are those of new tables, and the byte count follows. */
  ghost predicate FramesFollow(vm: Vm, vm': Vm) {
    && |vm'.frames.bits| == |vm.frames.bits| && Accounted(vm'.frames)
    && vm.tables.Keys <= vm'.tables.Keys
    && vm'.frames.used - vm.frames.used == PAGE_SIZE * (|vm'.tables| - |vm.tables|)
    && (forall f: nat :: f in vm'.tables && f !in vm.tables ==> f < |vm.frames.bits| && !vm.frames.bits[f])
    && forall f :: 0 <= f < |vm.frames.bits| ==>
         (vm'.frames.bits[f] <==> vm.frames.bits[f] || (f in vm'.tables && f !in vm.tables))
  }

  lemma FramesFollowTransitive(a: Vm, b: Vm, c: Vm)
    requires FramesFollow(a, b) && FramesFollow(b, c)
    ensures FramesFollow(a, c)
  {}

  lemma GetOrCreateFrames(vm: Vm, t: nat, i: nat, flags: nat)
    requires WellFormed(vm) && t in vm.tables && vm.tables[t].depth < 3 && i < 512 && Accounted(vm.frames)
    ensures GetOrCreate(vm, t, i, flags).Some? ==> FramesFollow(vm, GetOrCreate(vm, t, i, flags).value.vm)
  {
    AllocPageKeeps(vm.frames);
    if !Present(Word(vm.ram, t, i)) {
      match AllocPage(vm.frames) {
        case None =>
        case Some(g) =>
          if g.page != 0 {
            AddTableKeeps(vm, t, i, g, flags);
            var vm' := AddTable(vm, t, i, g, flags);
            assert vm'.tables.Keys == vm.tables.Keys + {g.page};
          }
      }
    }
  }

  lemma {:induction false} DescendFrames(vm: Vm, t: nat, page: Page, d: nat, flags: nat)
    requires WellFormed(vm) && d <= 3 && IsTable(vm, t, d) && Accounted(vm.frames)
    ensures Descend(vm, t, page, d, flags).Some? ==> FramesFollow(vm, Descend(vm, t, page, d, flags).value.vm)
    decreases 3 - d
  {
    if d < 3 {
      GetOrCreateKeeps(vm, t, Index(page, d), flags);
      GetOrCreateFrames(vm, t, Index(page, d), flags);
      match GetOrCreate(vm, t, Index(page, d), flags) {
        case None =>
        case Some(s) =>
          DescendFrames(s.vm, s.table, page, d + 1, flags);
          match Descend(s.vm, s.table, page, d + 1, flags) {
            case None =>
            case Some(s') => FramesFollowTransitive(vm, s.vm, s'.vm);
          }
      }
    }
  }

  lemma MapPageFrames(vm: Vm, root: nat, page: Page, frame: nat, flags: nat)
    requires WellFormed(vm) && IsTable(vm, root, 0) && Accounted(vm.frames)
    ensures MapPage(vm, root, page, frame, flags).Some? ==> FramesFollow(vm, MapPage(vm, root, page, frame, flags).value)
  {
    DescendFrames(vm, root, page, 0, flags);
  }

  lemma {:induction false} MapPagesFrames(vm: Vm, root: nat, page: Page, frame: nat, n: nat, flags: nat)
    requires WellFormed(vm) && IsTable(vm, root, 0) && RangeOk(frame, n) && Accounted(vm.frames)
    ensures MapPages(vm, root, page, frame, n, flags).Some? ==>
      FramesFollow(vm, MapPages(vm, root, page, frame, n, flags).value)
  {
    hide MapPage;
    if n > 0 {
      MapPagesFrames(vm, root, page, frame, n - 1, flags);
      match MapPages(vm, root, page, frame, n - 1, flags) {
        case None =>
        case Some(v) =>
          MapPageFrames(v, root, PageAt(page, n - 1), frame + n - 1, flags);
          match MapPages(vm, root, page, frame, n, flags) {
            case None =>
            case Some(v') => FramesFollowTransitive(vm, v, v');
          }
      }
    }
  }

  // ---- unmapping ----------------------------------------------------------------------

  /** The word at the end of a walk, present or not; None when a table is missing. */
  function LeafSlot(vm: Vm, root: nat, page: Page): Option<nat> {
    match LeafTable(vm.ram, root, page, 0)
    case None => None
    case Some(pt) => Some(Word(vm.ram, pt, Index(page, 3)))
  }

  function ClearLeaf(vm: Vm, pt: nat, j: nat, frames: Frames): Vm {
    if pt < |vm.ram| && j < |vm.ram[pt]| then Vm(SetLeaf(vm, pt, j, 0).ram, frames, vm.tables)
    else Vm(vm.ram, frames, vm.tables)
  }

  /** One round of vmm_unmap_and_free_pages: it frees whatever frame the word names, present or not. */
  function UnmapPage(vm: Vm, root: nat, page: Page): Option<Vm> {
    match LeafTable(vm.ram, root, page, 0)
    case None => Some(vm)
    case Some(pt) =>
      match FreePage(vm.frames, FrameOf(Word(vm.ram, pt, Index(page, 3))) * PAGE_SIZE)
      case None => None
      case Some(frames) => Some(ClearLeaf(vm, pt, Index(page, 3), frames))
  }

  function UnmapPages(vm: Vm, root: nat, page: Page, n: nat): Option<Vm>
    requires n <= 0x10_0000_0000
  {
    if n == 0 then Some(vm) else
      match UnmapPages(vm, root, page, n - 1)
      case None => None
      case Some(v) => UnmapPage(v, root, PageAt(page, n - 1))
  }

  /** The frame a round would free holds no table. */
  predicate FreesNoTable(vm: Vm, root: nat, page: Page) {
    LeafSlot(vm, root, page).Some? ==> FrameOf(LeafSlot(vm, root, page).value) !in vm.tables
  }

  lemma UnmapPageKeeps(vm: Vm, root: nat, page: Page)
    requires WellFormed(vm) && IsTable(vm, root, 0) && FreesNoTable(vm, root, page)
    ensures UnmapPage(vm, root, page).Some? ==>
      var vm' := UnmapPage(vm, root, page).value;
      WellFormed(vm') && vm'.tables == vm.tables && RootsKept(vm, vm')
  {
    match LeafTable(vm.ram, root, page, 0) {
      case None =>
      case Some(pt) =>
        LeafTableDepth(vm, root, page, 0);
        var j := Index(page, 3);
        SetLeafKeeps(vm, pt, j, 0);
        match FreePage(vm.frames, FrameOf(Word(vm.ram, pt, j)) * PAGE_SIZE) {
          case None =>
          case Some(frames) =>
            assert FrameOf(Word(vm.ram, pt, j)) * PAGE_SIZE / PAGE_SIZE == FrameOf(Word(vm.ram, pt, j));
            FreeKeeps(SetLeaf(vm, pt, j, 0), FrameOf(Word(vm.ram, pt, j)), frames);
        }
    }
  }

  lemma {:induction false} LeafTableDepth(vm: Vm, t: nat, page: Page, d: nat)
    requires WellFormed(vm) && d <= 3 && IsTable(vm, t, d)
    ensures LeafTable(vm.ram, t, page, d).Some? ==> IsTable(vm, LeafTable(vm.ram, t, page, d).value, 3)
    decreases 3 - d
  {
    if d < 3 {
      assert LinkOk(vm, t, Index(page, d));
      if Present(Word(vm.ram, t, Index(page, d))) {
        LeafTableDepth(vm, FrameOf(Word(vm.ram, t, Index(page, d))), page, d + 1);
      }
    }
  }

  /** Frames that hold no table may be taken, freed and written at will; nothing else changes. */
  ghost predicate DataOnly(vm: Vm, vm': Vm) {
    && vm'.tables == vm.tables && |vm'.ram| == |vm.ram| == |vm'.frames.bits| && vm'.frames.last <= |vm'.frames.bits|
    && (forall f :: 0 <= f < |vm'.ram| ==> |vm'.ram[f]| == 512)
    && (forall t :: t in vm.tables && t < |vm.ram| ==> vm'.ram[t] == vm.ram[t] && vm'.frames.bits[t])
  }

  /** Then the tables stay what they were, ... */
  lemma DataOnlyKeeps(vm: Vm, vm': Vm)
    requires WellFormed(vm) && DataOnly(vm, vm')
    ensures WellFormed(vm') && RootsKept(vm, vm')
  {
    forall x: nat
      ensures TableOk(vm', x)
      ensures x in vm.tables ==> x < |vm.ram| && vm'.ram[x] == vm.ram[x]
    {
      assert TableOk(vm, x);
    }
    forall x: nat, k: nat
      ensures LinkOk(vm', x, k)
    {
      assert LinkOk(vm, x, k);
    }
  }

  /** ... and so does every translation. */
  lemma {:induction false} DataOnlyWalk(vm: Vm, vm': Vm, t: nat, q: Page, d: nat)
    requires WellFormed(vm) && DataOnly(vm, vm') && d <= 3 && IsTable(vm, t, d)
    ensures WalkFrom(vm'.ram, t, q, d) == WalkFrom(vm.ram, t, q, d)
    decreases 3 - d
  {
    assert TableOk(vm, t) && LinkOk(vm, t, Index(q, d));
    if d < 3 && Present(Word(vm.ram, t, Index(q, d))) {
      DataOnlyWalk(vm, vm', FrameOf(Word(vm.ram, t, Index(q, d))), q, d + 1);
    }
  }

  lemma FreeKeeps(vm: Vm, page: nat, frames: Frames)
    requires WellFormed(vm) && page !in vm.tables && page < |vm.frames.bits|
    requires frames.bits == vm.frames.bits[page := false] && frames.last <= |frames.bits|
    ensures WellFormed(Vm(vm.ram, frames, vm.tables))
  {
    forall t: nat | t in vm.tables
      ensures t < |vm.frames.bits| && vm.frames.bits[t]
    {
      assert TableOk(vm, t);
    }
    DataOnlyKeeps(vm, Vm(vm.ram, frames, vm.tables));
  }

  /** A round clears exactly this page's translation, and leaves the other leaf words alone. */
  lemma UnmapPageLookup(vm: Vm, root: nat, page: Page, r: nat, q: Page)
    requires WellFormed(vm) && IsTable(vm, root, 0) && IsTable(vm, r, 0)
    ensures UnmapPage(vm, root, page).Some? ==>
      var vm' := UnmapPage(vm, root, page).value;
      && (r == root ==> Lookup(vm', r, q) == if q == page then None else Lookup(vm, r, q))
      && (r != root && LowerHalf(page) ==> Lookup(vm', r, q) == Lookup(vm, r, q))
      && (q != page ==> Lookup(vm', r, q) == Lookup(vm, r, q) && LeafSlot(vm', r, q) == LeafSlot(vm, r, q))
  {
    match LeafTable(vm.ram, root, page, 0) {
      case None =>
        LookupNeedsLeaf(vm.ram, root, page, 0);
      case Some(pt) =>
        var j := Index(page, 3);
        LeafTableDepth(vm, root, page, 0);
        SetLeafKeeps(vm, pt, j, 0);
        SetLeafWalk(vm, pt, j, 0, r, q, 0);
        if LeafTable(vm.ram, r, q, 0) == Some(pt) {
          LeafUnique(vm, root, page, r, q);
          if Index(q, 3) == j {
            IndexInjective(q, page);
          }
        }
    }
  }

  lemma {:induction false} LookupNeedsLeaf(ram: seq<seq<nat>>, t: nat, page: Page, d: nat)
    requires d <= 3
    ensures WalkFrom(ram, t, page, d).Some? ==> LeafTable(ram, t, page, d).Some?
    ensures LeafTable(ram, t, page, d).Some? ==>
      var w := Word(ram, LeafTable(ram, t, page, d).value, Index(page, 3));
      WalkFrom(ram, t, page, d) == if Present(w) then Some(FrameOf(w)) else None
    decreases 3 - d
  {
    if d < 3 {
      LookupNeedsLeaf(ram, FrameOf(Word(ram, t, Index(page, d))), page, d + 1);
    }
  }

  lemma {:induction false} UnmapPagesKeeps(vm: Vm, root: nat, page: Page, n: nat, r: nat, q: Page)
    requires WellFormed(vm) && IsTable(vm, root, 0) && IsTable(vm, r, 0) && n <= 0x10_0000_0000
    requires forall i: nat :: i < n ==> FreesNoTable(vm, root, PageAt(page, i))
    ensures UnmapPages(vm, root, page, n).Some? ==>
      var vm' := UnmapPages(vm, root, page, n).value;
      && WellFormed(vm') && vm'.tables == vm.tables && RootsKept(vm, vm')
      && (r == root && InRange(page, n, q) ==> Lookup(vm', r, q) == None)
      && (r != root && RangeLower(page, n) ==> Lookup(vm', r, q) == Lookup(vm, r, q))
      && (!InRange(page, n, q) ==> Lookup(vm', r, q) == Lookup(vm, r, q) && LeafSlot(vm', r, q) == LeafSlot(vm, r, q))
  {
    hide UnmapPage;
    if n > 0 {
      var p := PageAt(page, n - 1);
      UnmapPagesKeeps(vm, root, page, n - 1, r, q);
      UnmapPagesKeeps(vm, root, page, n - 1, root, p);
      match UnmapPages(vm, root, page, n - 1) {
        case None =>
        case Some(v) =>
          assert Distance(page, p) == n - 1;
          assert FreesNoTable(vm, root, p);
          UnmapPageKeeps(v, root, p);
          UnmapPageLookup(v, root, p, r, q);
          assert q == p <==> Distance(page, q) == n - 1;
          match UnmapPages(vm, root, page, n) {
            case None =>
            case Some(v') => RootsKeptTransitive(vm, v, v');
          }
      }
    }
  }

  /**
   A round frees the mapped frame (or nothing for an unmapped page) exactly
   unless the last-level table exists and its word is not present; then it
   frees the frame that word names, frame 0 for a cleared one.
   */
  lemma UnmapFreesMapped(vm: Vm, root: nat, page: Page)
    requires WellFormed(vm) && IsTable(vm, root, 0) && UnmapPage(vm, root, page).Some?
    ensures var after := UnmapPage(vm, root, page).value.frames.bits;
      && ((after == match Lookup(vm, root, page)
                    case None => vm.frames.bits
                    case Some(f) => if f < |vm.frames.bits| then vm.frames.bits[f := false] else vm.frames.bits)
          <==> (LeafSlot(vm, root, page).Some? ==> Present(LeafSlot(vm, root, page).value)))
      && (LeafSlot(vm, root, page) == Some(0) ==> |after| > 0 && after == vm.frames.bits[0 := false] && vm.frames.bits[0])
  {
    LookupNeedsLeaf(vm.ram, root, page, 0);
    match LeafTable(vm.ram, root, page, 0) {
      case None =>
      case Some(pt) =>
        var f := FrameOf(Word(vm.ram, pt, Index(page, 3)));
        assert f * PAGE_SIZE / PAGE_SIZE == f;
        assert vm.frames.bits[f] && !vm.frames.bits[f := false][f];
    }
  }

  /**
   Such words are what unmapping leaves: a page unmapped twice has its own frame
   freed the first time and frame 0 the second.
   */
  lemma SecondUnmapFreesZero(vm: Vm, root: nat, page: Page)
    requires WellFormed(vm) && IsTable(vm, root, 0) && FreesNoTable(vm, root, page)
    requires Lookup(vm, root, page).Some? && UnmapPage(vm, root, page).Some?
    ensures var once := UnmapPage(vm, root, page).value;
      && WellFormed(once) && IsTable(once, root, 0) && LeafSlot(once, root, page) == Some(0)
      && (UnmapPage(once, root, page).Some? <==> |once.frames.bits| > 0 && once.frames.bits[0])
      && (UnmapPage(once, root, page).Some? ==> UnmapPage(once, root, page).value.frames.bits == once.frames.bits[0 := false])
  {
    hide WalkFrom, Index;
    LookupNeedsLeaf(vm.ram, root, page, 0);
    LeafTableDepth(vm, root, page, 0);
    UnmapPageKeeps(vm, root, page);
    var pt := LeafTable(vm.ram, root, page, 0).value;
    assert TableOk(vm, pt);
    SetLeafWalk(vm, pt, Index(page, 3), 0, root, page, 0);
    var once := UnmapPage(vm, root, page).value;
    assert Word(once.ram, pt, Index(page, 3)) == 0;
    if UnmapPage(once, root, page).Some? { UnmapFreesMapped(once, root, page); }
  }

  function ClearRunOf(bits: seq<bool>, first: nat, n: nat): (r: seq<bool>)
    requires first + n <= |bits|
    ensures |r| == |bits|
    ensures forall i :: 0 <= i < |bits| ==> r[i] == (bits[i] && !(first <= i < first + n))
  {
    seq(|bits|, i requires 0 <= i < |bits| => bits[i] && !(first <= i < first + n))
  }

  predicate MappedAt(vm: Vm, root: nat, page: Page, frame: nat, i: nat)
    requires i < 0x10_0000_0000 && frame + i < |vm.frames.bits|
  {
    Lookup(vm, root, PageAt(page, i)) == Some(frame + i) && vm.frames.bits[frame + i] && frame + i !in vm.tables
  }

  /** The pages of the range are mapped, in order, to n allocated frames that hold no table. */
  ghost predicate MappedRun(vm: Vm, root: nat, page: Page, frame: nat, n: nat) {
    && n <= 0x10_0000_0000 && frame + n <= |vm.frames.bits|
    && forall i: nat :: i < n ==> MappedAt(vm, root, page, frame, i)
  }

  lemma MappedRunFreesNoTable(vm: Vm, root: nat, page: Page, frame: nat, n: nat)
    requires MappedRun(vm, root, page, frame, n)
    ensures forall i: nat :: i < n ==> FreesNoTable(vm, root, PageAt(page, i))
  {
    forall i: nat | i < n
      ensures FreesNoTable(vm, root, PageAt(page, i))
    {
      assert MappedAt(vm, root, page, frame, i);
      LookupNeedsLeaf(vm.ram, root, PageAt(page, i), 0);
    }
  }

  /** Unmapping such a range succeeds, frees exactly its frames and lowers the byte count by its size. */
  lemma {:induction false} UnmapRun(vm: Vm, root: nat, page: Page, frame: nat, n: nat)
    requires WellFormed(vm) && IsTable(vm, root, 0) && Accounted(vm.frames) && MappedRun(vm, root, page, frame, n)
    ensures forall i: nat :: i < n ==> FreesNoTable(vm, root, PageAt(page, i))
    ensures UnmapPages(vm, root, page, n).Some?
    ensures var vm' := UnmapPages(vm, root, page, n).value;
      && WellFormed(vm') && vm'.tables == vm.tables
      && vm'.frames.bits == ClearRunOf(vm.frames.bits, frame, n)
      && Accounted(vm'.frames) && vm'.frames.used == vm.frames.used - n * PAGE_SIZE
  {
    hide UnmapPage, Lookup, WellFormed, LeafSlot, FreesNoTable;
    MappedRunFreesNoTable(vm, root, page, frame, n);
    if n == 0 {
      assert ClearRunOf(vm.frames.bits, frame, 0) == vm.frames.bits;
    } else {
      var p := PageAt(page, n - 1);
      assert MappedAt(vm, root, page, frame, n - 1);
      UnmapRun(vm, root, page, frame, n - 1);
      UnmapPagesKeeps(vm, root, page, n - 1, root, p);
      var v := UnmapPages(vm, root, page, n - 1).value;
      assert Distance(page, p) == n - 1;
      UnmapOne(v, root, p, frame + n - 1);
      var v' := UnmapPages(vm, root, page, n).value;
      UnmapPageKeeps(v, root, p);
      assert v'.frames.bits == ClearRunOf(vm.frames.bits, frame, n);
    }
  }

  lemma UnmapOne(vm: Vm, root: nat, page: Page, frame: nat)
    requires WellFormed(vm) && IsTable(vm, root, 0) && Accounted(vm.frames)
    requires Lookup(vm, root, page) == Some(frame) && frame < |vm.frames.bits| && vm.frames.bits[frame]
    requires frame !in vm.tables
    ensures FreesNoTable(vm, root, page) && UnmapPage(vm, root, page).Some?
    ensures var vm' := UnmapPage(vm, root, page).value;
      && vm'.frames.bits == vm.frames.bits[frame := false]
      && Accounted(vm'.frames) && vm'.frames.used == vm.frames.used - PAGE_SIZE
  {
    LookupNeedsLeaf(vm.ram, root, page, 0);
    FreePageKeeps(vm.frames, frame);
  }

  /** pmm_alloc_pages for n frames, then vmm_map_pages of them: the middle states of a round trip. */
  ghost predicate AllocatedAndMapped(vm: Vm, root: nat, page: Page, n: nat, flags: nat, g: Grant, mapped: Vm)
    requires WellFormed(vm) && IsTable(vm, root, 0)
  {
    && Accounted(vm.frames) && 0 < n < 0x10_0000 && FlagsOk(flags)
    && AllocPages(vm.frames, n) == Some(g) && RangeOk(g.page, n)
    && WellFormed(Vm(vm.ram, g.frames, vm.tables))
    && MapPages(Vm(vm.ram, g.frames, vm.tables), root, page, g.page, n, flags) == Some(mapped)
  }

  lemma FreshRunMapped(vm: Vm, root: nat, page: Page, n: nat, flags: nat, g: Grant, mapped: Vm)
    requires WellFormed(vm) && IsTable(vm, root, 0) && AllocatedAndMapped(vm, root, page, n, flags, g, mapped)
    ensures WellFormed(mapped) && Accounted(mapped.frames) && MappedRun(mapped, root, page, g.page, n)
    ensures FramesFollow(Vm(vm.ram, g.frames, vm.tables), mapped)
  {
    hide MapPages, WalkFrom, AllocPages;
    AllocPagesKeeps(vm.frames, n);
    var given := Vm(vm.ram, g.frames, vm.tables);
    MapPagesFrames(given, root, page, g.page, n, flags);
    assert g.page + n <= |mapped.frames.bits|;
    forall i: nat | i < n
      ensures MappedAt(mapped, root, page, g.page, i)
    {
      MapPagesLookup(given, root, page, g.page, n, flags, root, PageAt(page, i));
      assert Distance(page, PageAt(page, i)) == i;
      assert TableOk(vm, g.page + i) && TableOk(mapped, g.page + i);
    }
  }

  lemma RoundTripLookup(vm: Vm, root: nat, page: Page, n: nat, flags: nat, g: Grant, mapped: Vm, q: Page)
    requires WellFormed(vm) && IsTable(vm, root, 0) && AllocatedAndMapped(vm, root, page, n, flags, g, mapped)
    ensures UnmapPages(mapped, root, page, n).Some?
    ensures Lookup(UnmapPages(mapped, root, page, n).value, root, q) ==
      if InRange(page, n, q) then None else Lookup(vm, root, q)
  {
    hide MapPages, UnmapPages, WalkFrom;
    FreshRunMapped(vm, root, page, n, flags, g, mapped);
    UnmapRun(mapped, root, page, g.page, n);
    UnmapPagesKeeps(mapped, root, page, n, root, q);
    MapPagesLookup(Vm(vm.ram, g.frames, vm.tables), root, page, g.page, n, flags, root, q);
  }

  /** Frame by frame: exactly the n frames are free again, and the tables built on the way stay allocated. */
  lemma RoundTripFrames(vm: Vm, root: nat, page: Page, n: nat, flags: nat, g: Grant, mapped: Vm)
    requires WellFormed(vm) && IsTable(vm, root, 0) && AllocatedAndMapped(vm, root, page, n, flags, g, mapped)
    ensures UnmapPages(mapped, root, page, n).Some?
    ensures var end := UnmapPages(mapped, root, page, n).value;
      && WellFormed(end) && end.tables == mapped.tables && Accounted(end.frames)
      && |end.frames.bits| == |vm.frames.bits|
      && (forall f :: 0 <= f < |vm.frames.bits| ==>
            (end.frames.bits[f] <==> vm.frames.bits[f] || (f in mapped.tables && f !in vm.tables)))
      && end.frames.used == mapped.frames.used - n * PAGE_SIZE
      && end.frames.used == vm.frames.used + PAGE_SIZE * (|mapped.tables| - |vm.tables|)
  {
    hide MapPages, UnmapPages, WalkFrom, AllocPages;
    FreshRunMapped(vm, root, page, n, flags, g, mapped);
    UnmapRun(mapped, root, page, g.page, n);
    GrantedRun(vm.frames, n, g);
    forall f: nat | f < |vm.frames.bits| && g.page <= f < g.page + n
      ensures f !in mapped.tables && !vm.frames.bits[f]
    {
      assert MappedAt(mapped, root, page, g.page, f - g.page);
    }
  }

  lemma GrantedRun(frames: Frames, n: nat, g: Grant)
    requires Accounted(frames) && 0 < n < 0x10_0000 && AllocPages(frames, n) == Some(g)
    ensures ClearRun(frames.bits, g.page, n) && g.frames.bits == SetRun(frames.bits, g.page, n)
    ensures g.frames.used == frames.used + n * PAGE_SIZE
  {
    AllocPagesKeeps(frames, n);
    CountRun(frames.bits, g.page, n);
  }

  /**
   Allocate n frames, map them, unmap them: every translation is back exactly
   when the range was unmapped before.
   */
  lemma RoundTrip(vm: Vm, root: nat, page: Page, n: nat, flags: nat, g: Grant, mapped: Vm)
    requires WellFormed(vm) && IsTable(vm, root, 0) && AllocatedAndMapped(vm, root, page, n, flags, g, mapped)
    ensures UnmapPages(mapped, root, page, n).Some?
    ensures (forall q: Page :: Lookup(UnmapPages(mapped, root, page, n).value, root, q) == Lookup(vm, root, q))
       <==> (forall q: Page :: InRange(page, n, q) ==> Lookup(vm, root, q) == None)
  {
    assert n < 0x10_0000;
    hide MapPages, UnmapPages, WalkFrom, AllocatedAndMapped;
    RoundTripLookup(vm, root, page, n, flags, g, mapped, page);
    var end := UnmapPages(mapped, root, page, n).value;
    forall q: Page
      ensures Lookup(end, root, q) == if InRange(page, n, q) then None else Lookup(vm, root, q)
    {
      RoundTripLookup(vm, root, page, n, flags, g, mapped, q);
    }
  }

  // ---- vmm_create_address_space -------------------------------------------------------

  /** A new PML4: an empty lower half and a copy of the kernel's upper half. */
  function CreateSpace(vm: Vm, kernel: nat): (r: Option<Step>)
    requires WellFormed(vm) && IsTable(vm, kernel, 0)
  {
    assert TableOk(vm, kernel);
    match AllocPage(vm.frames)
    case None => None
    case Some(g) =>
      var table: seq<nat> := Zeros()[..256] + vm.ram[kernel][256..];
      Some(Step(Vm(vm.ram[g.page := table], g.frames, vm.tables[g.page := Kind(0, g.page, 0)]), g.page))
  }

  lemma CreateSpaceKeeps(vm: Vm, kernel: nat)
    requires WellFormed(vm) && IsTable(vm, kernel, 0)
    ensures CreateSpace(vm, kernel).Some? ==>
      var s := CreateSpace(vm, kernel).value;
      && WellFormed(s.vm) && s.table !in vm.tables && IsTable(s.vm, s.table, 0)
      && (forall x: nat, k: nat {:trigger Word(s.vm.ram, x, k)} ::
            x in vm.tables ==> x in s.vm.tables && s.vm.tables[x] == vm.tables[x] && Word(s.vm.ram, x, k) == Word(vm.ram, x, k))
      && (forall k: nat {:trigger Word(s.vm.ram, s.table, k)} ::
            Word(s.vm.ram, s.table, k) == if k < 256 then 0 else Word(vm.ram, kernel, k))
  {
    match AllocPage(vm.frames) {
      case None =>
      case Some(g) =>
        var vm' := CreateSpace(vm, kernel).value.vm;
        assert TableOk(vm, kernel) && TableOk(vm, g.page);
        forall x: nat
          ensures TableOk(vm', x)
        {
          assert TableOk(vm, x);
        }
        forall x: nat, k: nat
          ensures LinkOk(vm', x, k)
        {
          assert LinkOk(vm, x, k) && LinkOk(vm, kernel, k);
          assert x != g.page ==> Word(vm'.ram, x, k) == Word(vm.ram, x, k);
          assert x == g.page && k >= 256 ==> Word(vm'.ram, x, k) == Word(vm.ram, kernel, k);
        }
    }
  }

  /** A walk reads table words only: it is the same in two memories that agree on them. */
  lemma {:induction false} WalkAgrees(vm: Vm, vm': Vm, x: nat, q: Page, d: nat)
    requires WellFormed(vm) && d <= 3 && IsTable(vm, x, d)
    requires forall y: nat, k: nat {:trigger Word(vm'.ram, y, k)} ::
      y in vm.tables ==> Word(vm'.ram, y, k) == Word(vm.ram, y, k)
    ensures WalkFrom(vm'.ram, x, q, d) == WalkFrom(vm.ram, x, q, d)
    decreases 3 - d
  {
    assert Word(vm'.ram, x, Index(q, d)) == Word(vm.ram, x, Index(q, d));
    assert LinkOk(vm, x, Index(q, d));
    if d < 3 && Present(Word(vm.ram, x, Index(q, d))) {
      WalkAgrees(vm, vm', FrameOf(Word(vm.ram, x, Index(q, d))), q, d + 1);
    }
  }

  /** A new space maps nothing below and, above, exactly what the kernel space maps; no other space changes. */
  lemma CreateSpaceLookup(vm: Vm, kernel: nat, r: nat, q: Page)
    requires WellFormed(vm) && IsTable(vm, kernel, 0) && IsTable(vm, r, 0)
    ensures CreateSpace(vm, kernel).Some? ==>
      var s := CreateSpace(vm, kernel).value;
      && Lookup(s.vm, r, q) == Lookup(vm, r, q)
      && Lookup(s.vm, s.table, q) == if LowerHalf(q) then None else Lookup(vm, kernel, q)
  {
    CreateSpaceKeeps(vm, kernel);
    if CreateSpace(vm, kernel).Some? {
      var s := CreateSpace(vm, kernel).value;
      WalkAgrees(vm, s.vm, r, q, 0);
      WalkAgrees(vm, s.vm, kernel, q, 0);
      assert Word(s.vm.ram, s.table, Index(q, 0)) == if LowerHalf(q) then 0 else Word(vm.ram, kernel, Index(q, 0));
      assert Word(s.vm.ram, kernel, Index(q, 0)) == Word(vm.ram, kernel, Index(q, 0));
    }
  }
}
