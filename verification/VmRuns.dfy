/**
 Every run of the paging operations over a kernel space and any number of
 process spaces, with the rest of the kernel taking, freeing and writing frames
 in between: what stays private, and what stays shared.
 */
module VmRuns {
  import opened Options
  import opened PhysicalFrames
  import opened Paging
  import opened AddressSpaces

  /** spaces[0] is the kernel space; inherited[s] holds the PML4 slots the kernel had when s was created. */
  datatype System = System(vm: Vm, spaces: seq<nat>, inherited: seq<set<nat>>)

  datatype Op =
    | Create
    | Map(space: nat, page: Page, frame: nat, count: nat, flags: nat)
    | Unmap(space: nat, page: Page, count: nat)
    | TakePage                                  // pmm_alloc_page by another caller
    | TakePages(count: nat)                     // pmm_alloc_pages
    | Release(addr: nat)                        // pmm_free_page
    | Write(frame: nat, words: seq<nat>)        // any stores to a frame

  ghost predicate SpaceOk(sys: System, s: nat)
    requires s < |sys.spaces| == |sys.inherited|
  {
    IsTable(sys.vm, sys.spaces[s], 0)
    && forall i :: i in sys.inherited[s] ==>
         256 <= i < 512 && Present(Word(sys.vm.ram, sys.spaces[0], i))
         && Word(sys.vm.ram, sys.spaces[s], i) == Word(sys.vm.ram, sys.spaces[0], i)
  }

  ghost predicate Inv(sys: System) {
    && WellFormed(sys.vm) && 0 < |sys.spaces| == |sys.inherited|
    && (forall s, t :: 0 <= s < t < |sys.spaces| ==> sys.spaces[s] != sys.spaces[t])
    && (forall s: nat :: s < |sys.spaces| ==> SpaceOk(sys, s))
  }

  /** What callers keep to: an existing space, a range that fits, and no freeing or writing of a table's own frame. */
  ghost predicate Enabled(sys: System, op: Op) {
    match op
    case Create => true
    case Map(s, page, frame, count, flags) => s < |sys.spaces| && RangeOk(frame, count) && FlagsOk(flags)
    case Unmap(s, page, count) =>
      s < |sys.spaces| && count <= 0x10_0000_0000
      && forall i: nat :: i < count ==> FreesNoTable(sys.vm, sys.spaces[s], PageAt(page, i))
    case TakePage => true
    case TakePages(count) => count < UINT32
    case Release(addr) => addr / PAGE_SIZE !in sys.vm.tables
    case Write(frame, words) => frame < |sys.vm.ram| && frame !in sys.vm.tables && |words| == 512
  }

  /** The operations that touch no page table. */
  predicate IsData(op: Op) { op.TakePage? || op.TakePages? || op.Release? || op.Write? }

  /** What they leave of memory; None is a panic. */
  ghost function DataStep(vm: Vm, op: Op): Option<Vm>
    requires IsData(op) && vm.frames.last <= |vm.frames.bits|
    requires op.TakePages? ==> op.count < UINT32
    requires op.Write? ==> op.frame < |vm.ram|
  {
    match op
    case TakePage =>
      (match AllocPage(vm.frames)
       case None => None
       case Some(g) => Some(vm.(frames := g.frames)))
    case TakePages(count) =>
      (match AllocPages(vm.frames, count)
       case None => None
       case Some(g) => Some(vm.(frames := g.frames)))
    case Release(addr) =>
      (match FreePage(vm.frames, addr)
       case None => None
       case Some(frames) => Some(vm.(frames := frames)))
    case Write(frame, words) => Some(vm.(ram := vm.ram[frame := words]))
  }

  function KernelSlots(vm: Vm, kernel: nat): set<nat> {
    set i | 256 <= i < 512 && Present(Word(vm.ram, kernel, i))
  }

  /** None is a kernel panic. */
  ghost function Exec(sys: System, op: Op): Option<System>
    requires Inv(sys) && Enabled(sys, op)
  {
    assert forall s: nat :: s < |sys.spaces| ==> SpaceOk(sys, s);
    match op
    case Create =>
      assert SpaceOk(sys, 0);
      (match CreateSpace(sys.vm, sys.spaces[0])
       case None => None
       case Some(s) => Some(System(s.vm, sys.spaces + [s.table],
                                   sys.inherited + [KernelSlots(sys.vm, sys.spaces[0])])))
    case Map(s, page, frame, count, flags) =>
      assert SpaceOk(sys, s);
      (match MapPages(sys.vm, sys.spaces[s], page, frame, count, flags)
       case None => None
       case Some(vm) => Some(System(vm, sys.spaces, sys.inherited)))
    case Unmap(s, page, count) =>
      (match UnmapPages(sys.vm, sys.spaces[s], page, count)
       case None => None
       case Some(vm) => Some(System(vm, sys.spaces, sys.inherited)))
    case _ =>
      (match DataStep(sys.vm, op)
       case None => None
       case Some(vm) => Some(System(vm, sys.spaces, sys.inherited)))
  }

  lemma DataStepIsDataOnly(sys: System, op: Op)
    requires Inv(sys) && Enabled(sys, op) && IsData(op) && DataStep(sys.vm, op).Some?
    ensures DataOnly(sys.vm, DataStep(sys.vm, op).value)
  {
    hide AllocPages, FirstClear;
    forall t: nat | t in sys.vm.tables
      ensures t < |sys.vm.frames.bits| && sys.vm.frames.bits[t]
    {
      assert TableOk(sys.vm, t);
    }
    if op.TakePages? { RunOnlySets(sys.vm.frames, op.count); }
  }

  lemma RunOnlySets(f: Frames, count: nat)
    requires f.last <= |f.bits| && count < UINT32 && AllocPages(f, count).Some?
    ensures var f' := AllocPages(f, count).value.frames;
      && |f'.bits| == |f.bits| && f'.last <= |f'.bits|
      && forall i :: 0 <= i < |f.bits| && f.bits[i] ==> f'.bits[i]
  {
    hide FirstRun;
    FirstRunLeast(f.bits, f.last, |f.bits|, RunNeeded(count));
    FirstRunLeast(f.bits, 0, f.last, RunNeeded(count));
  }

  lemma SameSpacesKeep(sys: System, vm: Vm)
    requires Inv(sys) && WellFormed(vm) && RootsKept(sys.vm, vm)
    ensures Inv(System(vm, sys.spaces, sys.inherited))
  {
    var sys' := System(vm, sys.spaces, sys.inherited);
    assert SpaceOk(sys, 0);
    forall s: nat | s < |sys.spaces|
      ensures SpaceOk(sys', s)
    {
      assert SpaceOk(sys, s);
      forall i | i in sys.inherited[s]
        ensures 256 <= i < 512 && Present(Word(vm.ram, sys.spaces[0], i))
        ensures Word(vm.ram, sys.spaces[s], i) == Word(vm.ram, sys.spaces[0], i)
      {
        assert Word(vm.ram, sys.spaces[0], i) == Word(sys.vm.ram, sys.spaces[0], i);
      }
    }
  }

  lemma CreateKeeps(sys: System)
    requires Inv(sys) && Exec(sys, Create).Some?
    ensures Inv(Exec(sys, Create).value)
  {
    assert SpaceOk(sys, 0);
    CreateSpaceKeeps(sys.vm, sys.spaces[0]);
    var st := CreateSpace(sys.vm, sys.spaces[0]).value;
    var sys' := Exec(sys, Create).value;
    forall s: nat | s < |sys'.spaces|
      ensures SpaceOk(sys', s)
      ensures s < |sys.spaces| ==> sys'.spaces[s] != st.table
    {
      if s < |sys.spaces| {
        assert SpaceOk(sys, s);
        assert forall i :: Word(st.vm.ram, sys.spaces[s], i) == Word(sys.vm.ram, sys.spaces[s], i);
      }
    }
  }

  lemma ExecKeeps(sys: System, op: Op)
    requires Inv(sys) && Enabled(sys, op) && Exec(sys, op).Some?
    ensures Inv(Exec(sys, op).value)
    ensures sys.spaces <= Exec(sys, op).value.spaces && sys.inherited <= Exec(sys, op).value.inherited
  {
    match op {
      case Create => CreateKeeps(sys);
      case Map(s, page, frame, count, flags) =>
        assert SpaceOk(sys, s);
        MapPagesRoots(sys.vm, sys.spaces[s], page, frame, count, flags);
        SameSpacesKeep(sys, MapPages(sys.vm, sys.spaces[s], page, frame, count, flags).value);
      case Unmap(s, page, count) =>
        assert SpaceOk(sys, s);
        UnmapPagesKeeps(sys.vm, sys.spaces[s], page, count, sys.spaces[s], page);
        SameSpacesKeep(sys, UnmapPages(sys.vm, sys.spaces[s], page, count).value);
      case _ =>
        DataStepIsDataOnly(sys, op);
        DataOnlyKeeps(sys.vm, DataStep(sys.vm, op).value);
        SameSpacesKeep(sys, DataStep(sys.vm, op).value);
    }
  }

  // ---- runs -----------------------------------------------------------------------------

  ghost predicate Run(sys: System, ops: seq<Op>, end: System)
    requires Inv(sys)
    decreases |ops|
  {
    if |ops| == 0 then end == sys
    else Enabled(sys, ops[0]) && Exec(sys, ops[0]).Some?
         && (ExecKeeps(sys, ops[0]); Run(Exec(sys, ops[0]).value, ops[1..], end))
  }

  /** The machine vmm_init starts from: one empty kernel PML4 in an allocated frame. */
  ghost predicate Initial(sys: System) {
    && sys.vm.frames.last <= |sys.vm.frames.bits| == |sys.vm.ram| <= 0x100_0000_0000
    && (forall f :: 0 <= f < |sys.vm.ram| ==> |sys.vm.ram[f]| == 512)
    && |sys.spaces| == 1 && sys.inherited == [{}]
    && sys.spaces[0] < |sys.vm.ram| && sys.vm.frames.bits[sys.spaces[0]]
    && sys.vm.ram[sys.spaces[0]] == Zeros()
    && sys.vm.tables == map[sys.spaces[0] := Kind(0, sys.spaces[0], 0)]
  }

  lemma InitialInv(sys: System)
    requires Initial(sys)
    ensures Inv(sys)
  {
    assert forall t: nat :: TableOk(sys.vm, t);
    assert forall t: nat, i: nat :: LinkOk(sys.vm, t, i);
    assert SpaceOk(sys, 0);
  }

  lemma {:induction false} RunKeeps(sys: System, ops: seq<Op>, end: System)
    requires Inv(sys) && Run(sys, ops, end)
    ensures Inv(end) && sys.spaces <= end.spaces && sys.inherited <= end.inherited
    decreases |ops|
  {
    if |ops| > 0 {
      ExecKeeps(sys, ops[0]);
      RunKeeps(Exec(sys, ops[0]).value, ops[1..], end);
    }
  }

  /**
   In every state of every run, an upper-half page whose PML4 slot existed when
   the space was created translates exactly as in the kernel space.
   */
  lemma KernelHalfShared(sys: System, ops: seq<Op>, end: System, s: nat, q: Page)
    requires Initial(sys) && Inv(sys) && Run(sys, ops, end) && s < |end.spaces|
    ensures |end.inherited| == |end.spaces| > 0
    ensures Index(q, 0) in end.inherited[s] ==> Lookup(end.vm, end.spaces[s], q) == Lookup(end.vm, end.spaces[0], q)
  {
    RunKeeps(sys, ops, end);
    assert SpaceOk(end, s);
  }

  /** The operation does not touch space s, and page ranges it touches lie in the lower half if `lower`. */
  predicate Elsewhere(op: Op, s: nat, lower: bool) {
    match op
    case Create => true
    case Map(t, page, _, count, _) => t != s && count <= 0x10_0000_0000 && (lower ==> RangeLower(page, count))
    case Unmap(t, page, count) => t != s && count <= 0x10_0000_0000 && (lower ==> RangeLower(page, count))
    case _ => true
  }

  lemma ExecIsolated(sys: System, op: Op, s: nat, q: Page)
    requires Inv(sys) && Enabled(sys, op) && Exec(sys, op).Some? && s < |sys.spaces|
    requires Elsewhere(op, s, !LowerHalf(q))
    ensures Exec(sys, op).value.spaces[s] == sys.spaces[s]
    ensures Lookup(Exec(sys, op).value.vm, sys.spaces[s], q) == Lookup(sys.vm, sys.spaces[s], q)
  {
    assert SpaceOk(sys, s);
    match op {
      case Create =>
        assert SpaceOk(sys, 0);
        CreateSpaceLookup(sys.vm, sys.spaces[0], sys.spaces[s], q);
      case Map(t, page, frame, count, flags) =>
        assert SpaceOk(sys, t);
        MapPagesPrivate(sys.vm, sys.spaces[t], page, frame, count, flags, sys.spaces[s], q);
      case Unmap(t, page, count) =>
        assert SpaceOk(sys, t);
        UnmapPagesPrivate(sys.vm, sys.spaces[t], page, count, sys.spaces[s], q);
      case _ =>
        DataStepIsDataOnly(sys, op);
        DataOnlyWalk(sys.vm, DataStep(sys.vm, op).value, sys.spaces[s], q, 0);
    }
  }

  lemma {:induction false} MapPagesPrivate(vm: Vm, root: nat, page: Page, frame: nat, n: nat, flags: nat, r: nat, q: Page)
    requires WellFormed(vm) && IsTable(vm, root, 0) && IsTable(vm, r, 0) && r != root
    requires RangeOk(frame, n) && FlagsOk(flags) && (LowerHalf(q) || RangeLower(page, n))
    ensures MapPages(vm, root, page, frame, n, flags).Some? ==>
      Lookup(MapPages(vm, root, page, frame, n, flags).value, r, q) == Lookup(vm, r, q)
  {
    hide MapPage, WalkFrom;
    MapPagesRoots(vm, root, page, frame, n, flags);
    if n > 0 {
      MapPagesPrivate(vm, root, page, frame, n - 1, flags, r, q);
      MapPagesRoots(vm, root, page, frame, n - 1, flags);
      match MapPages(vm, root, page, frame, n - 1, flags) {
        case None =>
        case Some(v) => MapPageLookup(v, root, PageAt(page, n - 1), frame + n - 1, flags, r, q);
      }
    }
  }

  lemma {:induction false} UnmapPagesPrivate(vm: Vm, root: nat, page: Page, n: nat, r: nat, q: Page)
    requires WellFormed(vm) && IsTable(vm, root, 0) && IsTable(vm, r, 0) && r != root
    requires n <= 0x10_0000_0000 && (LowerHalf(q) || RangeLower(page, n))
    requires forall i: nat :: i < n ==> FreesNoTable(vm, root, PageAt(page, i))
    ensures UnmapPages(vm, root, page, n).Some? ==>
      Lookup(UnmapPages(vm, root, page, n).value, r, q) == Lookup(vm, r, q)
  {
    hide UnmapPage, WalkFrom;
    if n > 0 {
      UnmapPagesPrivate(vm, root, page, n - 1, r, q);
      UnmapPagesKeeps(vm, root, page, n - 1, r, q);
      match UnmapPages(vm, root, page, n - 1) {
        case None =>
        case Some(v) => UnmapPageLookup(v, root, PageAt(page, n - 1), r, q);
      }
    }
  }

  /**
   Isolation over whole runs: operations on other spaces never change a
   lower-half translation of s, and none at all when they stay in their own
   lower halves.
   */
  lemma {:induction false} RunIsolated(sys: System, ops: seq<Op>, end: System, s: nat, q: Page)
    requires Inv(sys) && Run(sys, ops, end) && s < |sys.spaces|
    requires forall k :: 0 <= k < |ops| ==> Elsewhere(ops[k], s, !LowerHalf(q))
    ensures s < |end.spaces| && end.spaces[s] == sys.spaces[s]
    ensures Lookup(end.vm, sys.spaces[s], q) == Lookup(sys.vm, sys.spaces[s], q)
    decreases |ops|
  {
    if |ops| > 0 {
      ExecKeeps(sys, ops[0]);
      ExecIsolated(sys, ops[0], s, q);
      RunIsolated(Exec(sys, ops[0]).value, ops[1..], end, s, q);
    }
  }
}
