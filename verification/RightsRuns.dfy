/** The rights of pages over whole runs of module VmRuns. */
module RightsRuns {
  import opened Options
  import opened Paging
  import opened AddressSpaces
  import opened VmRuns
  import opened PageRights

  // ---- steps that touch no word of a table there is ----------------------------------------------

  ghost predicate SameWords(vm: Vm, vm': Vm) {
    forall x: nat, k: nat {:trigger Word(vm'.ram, x, k)} :: x in vm.tables ==> Word(vm'.ram, x, k) == Word(vm.ram, x, k)
  }

  lemma {:induction false} SameWordsSameRights(vm: Vm, vm': Vm, x: nat, q: Page, d: nat)
    requires WellFormed(vm) && SameWords(vm, vm') && d <= 3 && IsTable(vm, x, d)
    ensures RightsFrom(vm'.ram, x, q, d) == RightsFrom(vm.ram, x, q, d)
    ensures Allowed(vm'.ram, x, q, d) == Allowed(vm.ram, x, q, d)
    decreases 3 - d
  {
    hide Grants;
    var k := Index(q, d);
    assert LinkOk(vm, x, k) && Word(vm'.ram, x, k) == Word(vm.ram, x, k);
    if d < 3 && Present(Word(vm.ram, x, k)) {
      SameWordsSameRights(vm, vm', FrameOf(Word(vm.ram, x, k)), q, d + 1);
    }
  }

  lemma DataOnlySameWords(vm: Vm, vm': Vm)
    requires WellFormed(vm) && DataOnly(vm, vm')
    ensures SameWords(vm, vm')
  {
    forall x: nat, k: nat | x in vm.tables
      ensures Word(vm'.ram, x, k) == Word(vm.ram, x, k)
    {
      assert TableOk(vm, x);
    }
  }

  // ---- unmapping ----------------------------------------------------------------------------------

  lemma UnmapPageRights(vm: Vm, root: nat, page: Page, r: nat, q: Page)
    requires WellFormed(vm) && IsTable(vm, root, 0) && IsTable(vm, r, 0)
    ensures UnmapPage(vm, root, page).Some? ==>
      var vm' := UnmapPage(vm, root, page).value;
      && Allowed(vm'.ram, r, q, 0) == Allowed(vm.ram, r, q, 0)
      && (r != root && LowerHalf(page) ==> RightsOf(vm', r, q) == RightsOf(vm, r, q))
      && (q != page ==> RightsOf(vm', r, q) == RightsOf(vm, r, q))
  {
    hide Grants, Allowed, RightsFrom, LinkOk, WalkFrom, Present, FrameOf;
    match LeafTable(vm.ram, root, page, 0) {
      case None =>
      case Some(pt) =>
        LeafTableDepth(vm, root, page, 0);
        var j := Index(page, 3);
        SetLeafKeeps(vm, pt, j, 0);
        SetLeafAllows(vm, pt, j, 0, r, q, 0);
        SetLeafRights(vm, pt, j, 0, r, q);
        if LeafTable(vm.ram, r, q, 0) == Some(pt) {
          LeafUnique(vm, root, page, r, q);
          if Index(q, 3) == j { IndexInjective(q, page); }
        }
    }
  }

  lemma {:induction false} UnmapPagesRights(vm: Vm, root: nat, page: Page, n: nat, r: nat, q: Page)
    requires WellFormed(vm) && IsTable(vm, root, 0) && IsTable(vm, r, 0) && n <= 0x10_0000_0000
    requires forall i: nat :: i < n ==> FreesNoTable(vm, root, PageAt(page, i))
    ensures UnmapPages(vm, root, page, n).Some? ==>
      var vm' := UnmapPages(vm, root, page, n).value;
      && Allowed(vm'.ram, r, q, 0) == Allowed(vm.ram, r, q, 0)
      && (r != root && (LowerHalf(q) || RangeLower(page, n)) ==> RightsOf(vm', r, q) == RightsOf(vm, r, q))
      && (!InRange(page, n, q) ==> RightsOf(vm', r, q) == RightsOf(vm, r, q))
  {
    hide UnmapPage, Allowed, RightsFrom, WalkFrom, LinkOk, TableOk;
    if n > 0 {
      UnmapPagesRights(vm, root, page, n - 1, r, q);
      UnmapPagesKeeps(vm, root, page, n - 1, r, q);
      match UnmapPages(vm, root, page, n - 1) {
        case None =>
        case Some(v) =>
          UnmapPageRights(v, root, PageAt(page, n - 1), r, q);
          assert q == PageAt(page, n - 1) <==> Distance(page, q) == n - 1;
      }
    }
  }

  // ---- other spaces ---------------------------------------------------------------------------------

  lemma ExecRights(sys: System, op: Op, s: nat, q: Page)
    requires Inv(sys) && Enabled(sys, op) && Exec(sys, op).Some? && s < |sys.spaces|
    ensures var a, a' := Allowed(sys.vm.ram, sys.spaces[s], q, 0), Allowed(Exec(sys, op).value.vm.ram, sys.spaces[s], q, 0);
      a'.write == a.write && a'.exec == a.exec
    ensures Elsewhere(op, s, !LowerHalf(q)) ==>
      RightsOf(Exec(sys, op).value.vm, sys.spaces[s], q) == RightsOf(sys.vm, sys.spaces[s], q)
  {
    hide Allowed, RightsFrom, MapPages, UnmapPages, WalkFrom, LinkOk, TableOk;
    assert SpaceOk(sys, s);
    match op {
      case Create =>
        assert SpaceOk(sys, 0);
        CreateSpaceKeeps(sys.vm, sys.spaces[0]);
        SameWordsSameRights(sys.vm, Exec(sys, op).value.vm, sys.spaces[s], q, 0);
      case Map(t, page, frame, count, flags) =>
        assert SpaceOk(sys, t);
        MapRights(sys, op, s, q);
      case Unmap(t, page, count) =>
        assert SpaceOk(sys, t);
        UnmapPagesRights(sys.vm, sys.spaces[t], page, count, sys.spaces[s], q);
        assert t != s ==> sys.spaces[t] != sys.spaces[s];
      case _ =>
        DataStepIsDataOnly(sys, op);
        DataOnlySameWords(sys.vm, DataStep(sys.vm, op).value);
        SameWordsSameRights(sys.vm, DataStep(sys.vm, op).value, sys.spaces[s], q, 0);
    }
  }

  lemma MapRights(sys: System, op: Op, s: nat, q: Page)
    requires Inv(sys) && Enabled(sys, op) && op.Map? && Exec(sys, op).Some? && s < |sys.spaces|
    ensures var a, a' := Allowed(sys.vm.ram, sys.spaces[s], q, 0), Allowed(Exec(sys, op).value.vm.ram, sys.spaces[s], q, 0);
      a'.write == a.write && a'.exec == a.exec
    ensures Elsewhere(op, s, !LowerHalf(q)) ==>
      RightsOf(Exec(sys, op).value.vm, sys.spaces[s], q) == RightsOf(sys.vm, sys.spaces[s], q)
  {
    hide Allowed, RightsFrom, MapPages, WalkFrom, LinkOk, TableOk, Builds, LinksKept;
    assert SpaceOk(sys, s) && SpaceOk(sys, op.space);
    var root, r := sys.spaces[op.space], sys.spaces[s];
    MapPagesBuilds(sys.vm, root, op.page, op.frame, op.count, op.flags);
    var vm' := MapPages(sys.vm, root, op.page, op.frame, op.count, op.flags).value;
    BuildsAt(sys.vm, vm', op.flags, r, q);
    if op.space != s {
      assert root != r;
      MapPagesOthers(sys.vm, root, op.page, op.frame, op.count, op.flags, r, q);
    }
  }

  lemma {:induction false} MapPagesOthers(vm: Vm, root: nat, page: Page, frame: nat, n: nat, flags: nat, r: nat, q: Page)
    requires WellFormed(vm) && IsTable(vm, root, 0) && IsTable(vm, r, 0) && r != root && RangeOk(frame, n) && FlagsOk(flags)
    ensures MapPages(vm, root, page, frame, n, flags).Some? && (LowerHalf(q) || RangeLower(page, n)) ==>
      RightsOf(MapPages(vm, root, page, frame, n, flags).value, r, q) == RightsOf(vm, r, q)
  {
    hide MapPage, WalkFrom, Allowed, RightsFrom, Grants, And, LinkOk, TableOk;
    if n > 0 {
      MapPagesOthers(vm, root, page, frame, n - 1, flags, r, q);
      MapPagesRoots(vm, root, page, frame, n - 1, flags);
      match MapPages(vm, root, page, frame, n - 1, flags) {
        case None =>
        case Some(v) => MapPageRights(v, root, PageAt(page, n - 1), frame + n - 1, flags, r, q);
      }
    }
  }

  /** Isolation of rights: operations on other spaces and frames never change what a lower-half page of s allows. */
  lemma {:induction false} RunRightsIsolated(sys: System, ops: seq<Op>, end: System, s: nat, q: Page)
    requires Inv(sys) && Run(sys, ops, end) && s < |sys.spaces|
    requires forall k :: 0 <= k < |ops| ==> Elsewhere(ops[k], s, !LowerHalf(q))
    ensures RightsOf(end.vm, sys.spaces[s], q) == RightsOf(sys.vm, sys.spaces[s], q)
    decreases |ops|
  {
    hide RightsFrom, Exec, Enabled, WellFormed, Elsewhere;
    if |ops| > 0 {
      ExecKeeps(sys, ops[0]);
      ExecRights(sys, ops[0], s, q);
      RunRightsIsolated(Exec(sys, ops[0]).value, ops[1..], end, s, q);
    }
  }

  // ---- no table denies writing or execution -------------------------------------------------------------

  ghost predicate Open(sys: System) {
    forall s: nat, q: Page {:trigger Allowed(sys.vm.ram, sys.spaces[s], q, 0)} :: s < |sys.spaces| ==>
      var a := Allowed(sys.vm.ram, sys.spaces[s], q, 0); a.write && a.exec
  }

  lemma NewSpaceOpen(sys: System, q: Page)
    requires Inv(sys) && Exec(sys, Create).Some? && Open(sys)
    ensures var sys' := Exec(sys, Create).value;
      var a := Allowed(sys'.vm.ram, sys'.spaces[|sys.spaces|], q, 0); a.write && a.exec
  {
    hide Grants;
    assert SpaceOk(sys, 0);
    var kernel, sys' := sys.spaces[0], Exec(sys, Create).value;
    var root, k := sys'.spaces[|sys.spaces|], Index(q, 0);
    CreateSpaceKeeps(sys.vm, kernel);
    var a := Allowed(sys.vm.ram, sys.spaces[0], q, 0);
    assert a.write && a.exec;
    assert TableOk(sys.vm, kernel);
    assert Word(sys'.vm.ram, root, k) == if k < 256 then 0 else Word(sys.vm.ram, kernel, k);
    if k >= 256 && Present(Word(sys.vm.ram, kernel, k)) {
      assert LinkOk(sys.vm, kernel, k);
      SameWordsSameRights(sys.vm, sys'.vm, FrameOf(Word(sys.vm.ram, kernel, k)), q, 1);
    }
  }

  lemma OpenStep(sys: System, op: Op)
    requires Inv(sys) && Enabled(sys, op) && Exec(sys, op).Some? && Open(sys)
    ensures Open(Exec(sys, op).value)
  {
    hide Allowed, MapPages, UnmapPages, WellFormed, CreateSpace;
    ExecKeeps(sys, op);
    var sys' := Exec(sys, op).value;
    forall s: nat, q: Page | s < |sys'.spaces|
      ensures var a := Allowed(sys'.vm.ram, sys'.spaces[s], q, 0); a.write && a.exec
    {
      if s < |sys.spaces| {
        var a := Allowed(sys.vm.ram, sys.spaces[s], q, 0);
        assert a.write && a.exec;
        ExecRights(sys, op, s, q);
        assert sys'.spaces[s] == sys.spaces[s];
      } else {
        NewSpaceOpen(sys, q);
      }
    }
  }

  lemma {:induction false} RunOpen(sys: System, ops: seq<Op>, end: System)
    requires Inv(sys) && Open(sys) && Run(sys, ops, end)
    ensures Open(end)
    decreases |ops|
  {
    hide Open, Exec, Enabled, WellFormed;
    if |ops| > 0 {
      ExecKeeps(sys, ops[0]);
      OpenStep(sys, ops[0]);
      RunOpen(Exec(sys, ops[0]).value, ops[1..], end);
    }
  }

  /**
   In every state of every run a mapped page is writable and executable exactly
   as its own last word says; for user access its tables have to agree as well.
   */
  lemma RunRights(sys: System, ops: seq<Op>, end: System, s: nat, q: Page)
    requires Initial(sys) && Inv(sys) && Run(sys, ops, end) && s < |end.spaces|
    ensures RightsOf(end.vm, end.spaces[s], q).Some? ==>
      && LeafSlot(end.vm, end.spaces[s], q).Some?
      && var w := LeafSlot(end.vm, end.spaces[s], q).value;
      RightsOf(end.vm, end.spaces[s], q).value ==
        Rights(Writable(w), Allowed(end.vm.ram, end.spaces[s], q, 0).user && User(w), !NoExec(w))
  {
    hide Allowed, RightsFrom, Run, Inv, WalkFrom;
    InitialOpen(sys);
    RunOpen(sys, ops, end);
    RightsSplit(end.vm.ram, end.spaces[s], q, 0);
    var a := Allowed(end.vm.ram, end.spaces[s], q, 0);
    assert a.write && a.exec;
  }

  lemma InitialOpen(sys: System)
    requires Initial(sys)
    ensures Open(sys)
  {
    forall s: nat, q: Page | s < |sys.spaces|
      ensures Allowed(sys.vm.ram, sys.spaces[s], q, 0) == ALL
    {
      assert Word(sys.vm.ram, sys.spaces[s], Index(q, 0)) == 0;
    }
  }
}
