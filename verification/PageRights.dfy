/**
 What becomes of the flags of vmm_map_pages: the bits of the words it writes,
 and the rights the processor makes of them, which are those that all four
 words of a walk grant (section 4.6 of volume 3A of the Intel manual).
 */
module PageRights {
  import opened Options
  import opened PhysicalFrames
  import opened Paging
  import opened AddressSpaces
  import Division

  predicate Writable(w: nat) { w / 2 % 2 == 1 }

  predicate User(w: nat) { w / 4 % 2 == 1 }

  predicate NoExec(w: nat) { w / 0x8000_0000_0000_0000 % 2 == 1 }

  datatype Rights = Rights(write: bool, user: bool, exec: bool)

  function And(a: Rights, b: Rights): Rights { Rights(a.write && b.write, a.user && b.user, a.exec && b.exec) }

  const ALL := Rights(true, true, true)

  /** What one word grants. */
  function Grants(w: nat): Rights { Rights(Writable(w), User(w), !NoExec(w)) }

  // ---- the words --------------------------------------------------------------------------

  /** Bits 0 to 11 and 52 to 63 are those of the flags, with PAGE_PRESENT set; between them is the frame. */
  predicate LeafFor(w: nat, frame: nat, flags: nat) {
    && w % 0x1000 == flags % 0x1000 + (if flags % 2 == 1 then 0 else 1)
    && w / 0x10_0000_0000_0000 == flags / 0x10_0000_0000_0000
    && w / 0x1000 % 0x100_0000_0000 == frame
  }

  /** PAGE_PRESENT and PAGE_WRITABLE, PAGE_USER if the flags have it, and the frame of the table. */
  predicate LinkFor(w: nat, table: nat, flags: nat) {
    && w % 0x1000 == 3 + (if flags / 4 % 2 == 1 then 4 else 0)
    && w / 0x10_0000_0000_0000 == 0
    && w / 0x1000 % 0x100_0000_0000 == table
  }

  lemma LeafWordBits(frame: nat, flags: nat)
    requires frame < 0x100_0000_0000 && FlagsOk(flags)
    ensures LeafFor(LeafWord(frame, flags), frame, flags)
    ensures Grants(LeafWord(frame, flags)) == Grants(flags)
  {
    var low, high := flags % 0x10_0000_0000_0000, flags / 0x10_0000_0000_0000;
    var low' := if low % 2 == 1 then low else low + 1;
    Division.Unique(flags, 2, high * 0x8_0000_0000_0000 + low / 2, low % 2);
    Division.Unique(flags, 0x1000, high * 0x100_0000_0000, low);
    WordFields(high, frame, low');
    WordGrants(high, frame, low');
    WordGrants(high, 0, low);
    SameGrants(high, low, low');
  }

  lemma TableWordBits(table: nat, flags: nat)
    requires table < 0x100_0000_0000
    ensures LinkFor(TableWord(table, flags), table, flags)
    ensures Grants(TableWord(table, flags)) == Rights(true, User(flags), true)
  {
    var low := 3 + flags / 4 % 2 * 4;
    WordFields(0, table, low);
    WordGrants(0, table, low);
  }

  /** The three fields of a word put together from them. */
  lemma WordFields(high: nat, frame: nat, low: nat)
    requires frame < 0x100_0000_0000 && low < 0x1000
    ensures var w := (high * 0x100_0000_0000 + frame) * 0x1000 + low;
      w % 0x1000 == low && w / 0x1000 % 0x100_0000_0000 == frame && w / 0x10_0000_0000_0000 == high
  {
    var k := high * 0x100_0000_0000 + frame;
    Division.Unique(k * 0x1000 + low, 0x1000, k, low);
    Division.Unique(k, 0x100_0000_0000, high, frame);
    Division.Unique(k * 0x1000 + low, 0x10_0000_0000_0000, high, frame * 0x1000 + low);
  }

  /** The frame does not matter to the rights. */
  lemma WordGrants(high: nat, frame: nat, low: nat)
    requires frame < 0x100_0000_0000 && low < 0x1000
    ensures Grants((high * 0x100_0000_0000 + frame) * 0x1000 + low) ==
      Rights(low / 2 % 2 == 1, low / 4 % 2 == 1, high / 0x800 % 2 != 1)
  {
    var k := high * 0x100_0000_0000 + frame;
    var w := k * 0x1000 + low;
    Division.Unique(w, 2, k * 0x800 + low / 2, low % 2);
    Division.Unique(k * 0x800 + low / 2, 2, k * 0x400 + low / 2 / 2, low / 2 % 2);
    Division.Unique(w, 4, k * 0x400 + low / 4, low % 4);
    Division.Unique(k * 0x400 + low / 4, 2, k * 0x200 + low / 4 / 2, low / 4 % 2);
    Division.Unique(w, 0x8000_0000_0000_0000, high / 0x800, high % 0x800 * 0x10_0000_0000_0000 + frame * 0x1000 + low);
  }

  lemma SameGrants(high: nat, low: nat, low': nat)
    requires low < 0x1000 && low' == if low % 2 == 1 then low else low + 1
    ensures low' < 0x1000 && low' / 2 == low / 2 && low' / 4 == low / 4
  {}

  // ---- rights along a walk ----------------------------------------------------------------------

  /** What the tables above the last level grant, as far as there are any. */
  function Allowed(ram: seq<seq<nat>>, t: nat, page: Page, d: nat): Rights
    requires d <= 3
    decreases 3 - d
  {
    if d == 3 then ALL
    else
      var w := Word(ram, t, Index(page, d));
      if !Present(w) then ALL else And(Grants(w), Allowed(ram, FrameOf(w), page, d + 1))
  }

  /** The rights of a mapped page. */
  function RightsFrom(ram: seq<seq<nat>>, t: nat, page: Page, d: nat): Option<Rights>
    requires d <= 3
    decreases 3 - d
  {
    var w := Word(ram, t, Index(page, d));
    if !Present(w) then None
    else if d == 3 then Some(Grants(w))
    else
      match RightsFrom(ram, FrameOf(w), page, d + 1)
      case None => None
      case Some(r) => Some(And(Grants(w), r))
  }

  function RightsOf(vm: Vm, root: nat, page: Page): Option<Rights> { RightsFrom(vm.ram, root, page, 0) }

  /** The rights of a page are what its tables and its last word grant together. */
  lemma {:induction false} RightsSplit(ram: seq<seq<nat>>, t: nat, page: Page, d: nat)
    requires d <= 3
    ensures RightsFrom(ram, t, page, d) ==
      match LeafTable(ram, t, page, d)
      case None => None
      case Some(pt) =>
        var w := Word(ram, pt, Index(page, 3));
        if Present(w) then Some(And(Allowed(ram, t, page, d), Grants(w))) else None
    ensures RightsFrom(ram, t, page, d).Some? <==> WalkFrom(ram, t, page, d).Some?
    decreases 3 - d
  {
    hide Grants, Present, FrameOf;
    if d < 3 {
      var w := Word(ram, t, Index(page, d));
      if Present(w) { RightsSplit(ram, FrameOf(w), page, d + 1); }
    }
  }

  // ---- building tables ----------------------------------------------------------------------------

  /** a' is a, but for user access that the flags deny. */
  predicate Narrowed(a: Rights, a': Rights, flags: nat) {
    a'.write == a.write && a'.exec == a.exec && (a'.user ==> a.user) && (User(flags) ==> a'.user == a.user)
  }

  /** Table x hangs from a word for these flags. */
  predicate Hangs(vm: Vm, x: nat, flags: nat)
    requires x in vm.tables
  {
    var k := vm.tables[x];
    k.parent in vm.tables && vm.tables[k.parent].depth < 3 && LinkFor(Word(vm.ram, k.parent, k.index), x, flags)
  }

  /** Tables stay tables of their kind, and above the last level their present words stay. */
  ghost predicate LinksKept(vm: Vm, vm': Vm) {
    && (forall x :: x in vm.tables ==> x in vm'.tables && vm'.tables[x] == vm.tables[x])
    && (forall x: nat, k: nat {:trigger Word(vm'.ram, x, k)} ::
          x in vm.tables && vm.tables[x].depth < 3 && Present(Word(vm.ram, x, k)) ==> Word(vm'.ram, x, k) == Word(vm.ram, x, k))
  }

  /** The tables of vm' that vm lacks hang from words for these flags, and deny at most user access. */
  ghost predicate Builds(vm: Vm, vm': Vm, flags: nat) {
    && (forall x :: x in vm'.tables && x !in vm.tables ==> Hangs(vm', x, flags))
    && (forall x: nat, q: Page {:trigger Allowed(vm'.ram, x, q, vm.tables[x].depth)} ::
          x in vm.tables && vm.tables[x].depth <= 3 ==>
          Narrowed(Allowed(vm.ram, x, q, vm.tables[x].depth), Allowed(vm'.ram, x, q, vm.tables[x].depth), flags))
  }

  lemma {:induction false} AddTableAllows(vm: Vm, t: nat, i: nat, g: Grant, flags: nat, x: nat, q: Page)
    requires WellFormed(vm) && t in vm.tables && vm.tables[t].depth < 3 && i < 512
    requires AllocPage(vm.frames) == Some(g) && !Present(Word(vm.ram, t, i))
    requires t < |vm.ram| && g.page < |vm.ram| && t != g.page && g.page !in vm.tables
    requires x in vm.tables && vm.tables[x].depth <= 3
    ensures var ram', d := AddTable(vm, t, i, g, flags).ram, vm.tables[x].depth;
      Narrowed(Allowed(vm.ram, x, q, d), Allowed(ram', x, q, d), flags)
    decreases 3 - vm.tables[x].depth
  {
    hide LinkOk, TableOk, Grants, FrameOf, TableWord, Present, AllocPage;
    var ram', d := AddTable(vm, t, i, g, flags).ram, vm.tables[x].depth;
    if d < 3 {
      var k := Index(q, d);
      AddTableWord(vm, t, i, g, flags, x, k);
      if x == t && k == i {
        NewTableAllows(vm, t, i, g, flags, q, d + 1);
        TableWordGrants(g.page, flags);
      } else if Present(Word(vm.ram, x, k)) {
        AddTableAllows(vm, t, i, g, flags, FrameOf(Word(vm.ram, x, k)), q);
      }
    }
  }

  lemma AddTableWord(vm: Vm, t: nat, i: nat, g: Grant, flags: nat, x: nat, k: nat)
    requires WellFormed(vm) && t in vm.tables && vm.tables[t].depth < 3 && i < 512 && k < 512
    requires AllocPage(vm.frames) == Some(g) && !Present(Word(vm.ram, t, i))
    requires t < |vm.ram| && g.page < |vm.ram| && t != g.page && g.page !in vm.tables
    requires x in vm.tables && vm.tables[x].depth < 3
    ensures Word(AddTable(vm, t, i, g, flags).ram, x, k) ==
      if x == t && k == i then TableWord(g.page, flags) else Word(vm.ram, x, k)
    ensures Present(TableWord(g.page, flags)) && FrameOf(TableWord(g.page, flags)) == g.page
    ensures Present(Word(vm.ram, x, k)) ==>
      var c := FrameOf(Word(vm.ram, x, k)); c in vm.tables && vm.tables[c].depth == vm.tables[x].depth + 1
  {
    AddTableKeeps(vm, t, i, g, flags);
    assert TableOk(vm, x) && LinkOk(vm, x, k);
  }

  lemma NewTableAllows(vm: Vm, t: nat, i: nat, g: Grant, flags: nat, q: Page, d: nat)
    requires t < |vm.ram| && i < |vm.ram[t]| && g.page < |vm.ram| && t in vm.tables && t != g.page && d <= 3
    ensures Allowed(AddTable(vm, t, i, g, flags).ram, g.page, q, d) == ALL
  {
    if d < 3 {
      assert Word(AddTable(vm, t, i, g, flags).ram, g.page, Index(q, d)) == 0;
    }
  }

  lemma TableWordGrants(table: nat, flags: nat)
    requires FrameOf(TableWord(table, flags)) == table
    ensures Grants(TableWord(table, flags)) == Rights(true, User(flags), true)
  {
    FrameInRange(TableWord(table, flags));
    TableWordBits(table, flags);
  }

  lemma FrameInRange(w: nat)
    ensures FrameOf(w) < 0x100_0000_0000
  {}

  lemma GetOrCreateBuilds(vm: Vm, t: nat, i: nat, flags: nat)
    requires WellFormed(vm) && t in vm.tables && vm.tables[t].depth < 3 && i < 512
    ensures GetOrCreate(vm, t, i, flags).Some? ==> Builds(vm, GetOrCreate(vm, t, i, flags).value.vm, flags)
  {
    hide Grants, TableWord, LinkFor;
    if !Present(Word(vm.ram, t, i)) {
      match AllocPage(vm.frames) {
        case None =>
        case Some(g) =>
          if g.page != 0 {
            AddTableKeeps(vm, t, i, g, flags);
            FrameInRange(TableWord(g.page, flags));
            TableWordBits(g.page, flags);
            var vm' := AddTable(vm, t, i, g, flags);
            assert Word(vm'.ram, t, i) == TableWord(g.page, flags);
            forall x: nat, q: Page | x in vm.tables && vm.tables[x].depth <= 3
              ensures Narrowed(Allowed(vm.ram, x, q, vm.tables[x].depth), Allowed(vm'.ram, x, q, vm.tables[x].depth), flags)
            {
              AddTableAllows(vm, t, i, g, flags, x, q);
            }
          }
      }
    }
  }

  lemma LinksKeptTransitive(a: Vm, b: Vm, c: Vm)
    requires LinksKept(a, b) && LinksKept(b, c)
    ensures LinksKept(a, c)
  {
    forall x: nat, k: nat | x in a.tables && a.tables[x].depth < 3 && Present(Word(a.ram, x, k))
      ensures Word(c.ram, x, k) == Word(a.ram, x, k)
    {
      assert Word(b.ram, x, k) == Word(a.ram, x, k);
    }
  }

  lemma BuildsTransitive(a: Vm, b: Vm, c: Vm, flags: nat)
    requires Builds(a, b, flags) && Builds(b, c, flags) && LinksKept(a, b) && LinksKept(b, c)
    ensures Builds(a, c, flags)
  {
    hide Grants, LinkFor, Present;
    forall x | x in c.tables && x !in a.tables
      ensures Hangs(c, x, flags)
    {
      if x in b.tables {
        var k := b.tables[x];
        LinkIsPresent(Word(b.ram, k.parent, k.index), x, flags);
        assert Word(c.ram, k.parent, k.index) == Word(b.ram, k.parent, k.index);
      }
    }
    forall x: nat, q: Page | x in a.tables && a.tables[x].depth <= 3
      ensures Narrowed(Allowed(a.ram, x, q, a.tables[x].depth), Allowed(c.ram, x, q, a.tables[x].depth), flags)
    {
      assert b.tables[x] == a.tables[x];
      assert Narrowed(Allowed(b.ram, x, q, b.tables[x].depth), Allowed(c.ram, x, q, b.tables[x].depth), flags);
      assert Narrowed(Allowed(a.ram, x, q, a.tables[x].depth), Allowed(b.ram, x, q, a.tables[x].depth), flags);
    }
  }

  lemma LinkIsPresent(w: nat, table: nat, flags: nat)
    requires LinkFor(w, table, flags)
    ensures Present(w)
  {
    Division.Unique(w, 2, w / 0x1000 * 0x800 + w % 0x1000 / 2, 1);
  }

  lemma GrowsKeepsLinks(vm: Vm, vm': Vm)
    requires Grows(vm, vm')
    ensures LinksKept(vm, vm')
  {
    hide WalkFrom;
  }

  lemma BuildsAt(vm: Vm, vm': Vm, flags: nat, root: nat, q: Page)
    requires Builds(vm, vm', flags) && IsTable(vm, root, 0)
    ensures Narrowed(Allowed(vm.ram, root, q, 0), Allowed(vm'.ram, root, q, 0), flags)
  {
    hide Allowed, Narrowed, Hangs;
    assert Narrowed(Allowed(vm.ram, root, q, vm.tables[root].depth), Allowed(vm'.ram, root, q, vm.tables[root].depth), flags);
  }

  lemma {:induction false} DescendBuilds(vm: Vm, t: nat, page: Page, d: nat, flags: nat)
    requires WellFormed(vm) && d <= 3 && IsTable(vm, t, d)
    ensures Descend(vm, t, page, d, flags).Some? ==>
      var v := Descend(vm, t, page, d, flags).value.vm; Builds(vm, v, flags) && LinksKept(vm, v)
    decreases 3 - d
  {
    hide GetOrCreate, LinkOk, TableOk, Builds, LinksKept, Grows;
    if d == 3 {
      NothingBuilt(vm, flags);
    } else {
      var i := Index(page, d);
      GetOrCreateKeeps(vm, t, i, flags);
      GetOrCreateBuilds(vm, t, i, flags);
      GetOrCreateGrows(vm, t, i, flags);
      match GetOrCreate(vm, t, i, flags) {
        case None =>
        case Some(s) =>
          GrowsKeepsLinks(vm, s.vm);
          DescendBuilds(s.vm, s.table, page, d + 1, flags);
          match Descend(s.vm, s.table, page, d + 1, flags) {
            case None =>
            case Some(s') =>
              BuildsTransitive(vm, s.vm, s'.vm, flags);
              LinksKeptTransitive(vm, s.vm, s'.vm);
          }
      }
    }
  }

  // ---- one page ---------------------------------------------------------------------------------------

  /** A last-level word does not matter to what the tables above it grant. */
  lemma {:induction false} SetLeafAllows(vm: Vm, pt: nat, j: nat, w: nat, x: nat, q: Page, d: nat)
    requires WellFormed(vm) && IsTable(vm, pt, 3) && j < 512 && pt < |vm.ram|
    requires d <= 3 && IsTable(vm, x, d)
    ensures Allowed(SetLeaf(vm, pt, j, w).ram, x, q, d) == Allowed(vm.ram, x, q, d)
    decreases 3 - d
  {
    hide Grants;
    if d < 3 {
      var k := Index(q, d);
      assert LinkOk(vm, x, k);
      assert Word(SetLeaf(vm, pt, j, w).ram, x, k) == Word(vm.ram, x, k);
      if Present(Word(vm.ram, x, k)) {
        SetLeafAllows(vm, pt, j, w, FrameOf(Word(vm.ram, x, k)), q, d + 1);
      }
    }
  }

  lemma SetLeafBuilds(vm: Vm, v: Vm, pt: nat, j: nat, w: nat, flags: nat)
    requires WellFormed(v) && IsTable(v, pt, 3) && j < 512 && pt < |v.ram| && Builds(vm, v, flags) && LinksKept(vm, v)
    requires forall x :: x in vm.tables ==> vm.tables[x].depth <= 3
    ensures Builds(vm, SetLeaf(v, pt, j, w), flags) && LinksKept(vm, SetLeaf(v, pt, j, w))
  {
    hide Grants, LinkFor, LinkOk, TableOk, SetLeaf, Allowed, Narrowed, Word;
    var v' := SetLeaf(v, pt, j, w);
    SetLeafWord(v, pt, j, w);
    forall x: nat, k: nat | x in vm.tables && vm.tables[x].depth < 3 && Present(Word(vm.ram, x, k))
      ensures Word(v'.ram, x, k) == Word(vm.ram, x, k)
    {
      assert Word(v.ram, x, k) == Word(vm.ram, x, k);
    }
    forall x | x in v'.tables && x !in vm.tables
      ensures Hangs(v', x, flags)
    {
      assert Hangs(v, x, flags);
    }
    forall x: nat, q: Page | x in vm.tables && vm.tables[x].depth <= 3
      ensures Narrowed(Allowed(vm.ram, x, q, vm.tables[x].depth), Allowed(v'.ram, x, q, vm.tables[x].depth), flags)
    {
      SetLeafAllows(v, pt, j, w, x, q, vm.tables[x].depth);
      assert Narrowed(Allowed(vm.ram, x, q, vm.tables[x].depth), Allowed(v.ram, x, q, vm.tables[x].depth), flags);
    }
  }

  lemma MapPageBuilds(vm: Vm, root: nat, page: Page, frame: nat, flags: nat)
    requires WellFormed(vm) && IsTable(vm, root, 0)
    ensures MapPage(vm, root, page, frame, flags).Some? ==>
      var vm' := MapPage(vm, root, page, frame, flags).value; Builds(vm, vm', flags) && LinksKept(vm, vm')
  {
    hide Grants, LinkFor, Descend, LeafWord, Allowed, LinkOk;
    DescendBuilds(vm, root, page, 0, flags);
    match Descend(vm, root, page, 0, flags) {
      case None =>
      case Some(s) =>
        forall x | x in vm.tables ensures vm.tables[x].depth <= 3 { assert TableOk(vm, x); }
        SetLeafKeeps(s.vm, s.table, Index(page, 3), LeafWord(frame, flags));
        SetLeafBuilds(vm, s.vm, s.table, Index(page, 3), LeafWord(frame, flags), flags);
    }
  }

  /** While tables are only added, the rights of every page stay. */
  lemma {:induction false} GrowsRights(vm: Vm, vm': Vm, x: nat, q: Page, d: nat)
    requires WellFormed(vm) && Grows(vm, vm') && d <= 3 && IsTable(vm, x, d)
    ensures RightsFrom(vm'.ram, x, q, d) == RightsFrom(vm.ram, x, q, d)
    decreases 3 - d
  {
    hide Grants;
    var k := Index(q, d);
    assert LinkOk(vm, x, k);
    RightsSplit(vm.ram, x, q, d);
    RightsSplit(vm'.ram, x, q, d);
    assert WalkFrom(vm'.ram, x, q, vm.tables[x].depth) == WalkFrom(vm.ram, x, q, vm.tables[x].depth);
    if Present(Word(vm.ram, x, k)) {
      assert Word(vm'.ram, x, k) == Word(vm.ram, x, k);
      if d < 3 { GrowsRights(vm, vm', FrameOf(Word(vm.ram, x, k)), q, d + 1); }
    }
  }

  /** Writing one leaf changes exactly the rights of the walks that end in it. */
  lemma SetLeafRights(vm: Vm, pt: nat, j: nat, w: nat, x: nat, q: Page)
    requires WellFormed(vm) && IsTable(vm, pt, 3) && j < 512 && pt < |vm.ram| && IsTable(vm, x, 0)
    ensures RightsOf(SetLeaf(vm, pt, j, w), x, q) ==
      if LeafTable(vm.ram, x, q, 0) == Some(pt) && Index(q, 3) == j
      then (if Present(w) then Some(And(Allowed(vm.ram, x, q, 0), Grants(w))) else None)
      else RightsOf(vm, x, q)
  {
    hide Grants, WalkFrom, Allowed, RightsFrom, Present, LinkOk, TableOk;
    SetLeafWalk(vm, pt, j, w, x, q, 0);
    SetLeafAllows(vm, pt, j, w, x, q, 0);
    RightsSplit(vm.ram, x, q, 0);
    RightsSplit(SetLeaf(vm, pt, j, w).ram, x, q, 0);
  }

  /** Where the flags themselves apply, what they deny makes no difference. */
  lemma NarrowedSame(a: Rights, a': Rights, flags: nat)
    requires Narrowed(a, a', flags)
    ensures And(a', Grants(flags)) == And(a, Grants(flags))
  {}

  lemma MapPageRights(vm: Vm, root: nat, page: Page, frame: nat, flags: nat, r: nat, q: Page)
    requires WellFormed(vm) && IsTable(vm, root, 0) && IsTable(vm, r, 0)
    requires frame < 0x100_0000_0000 && FlagsOk(flags)
    ensures MapPage(vm, root, page, frame, flags).Some? ==>
      var vm' := MapPage(vm, root, page, frame, flags).value;
      && (r == root ==> RightsOf(vm', r, q) == if q == page then Some(And(Allowed(vm.ram, root, page, 0), Grants(flags))) else RightsOf(vm, r, q))
      && (r != root && LowerHalf(page) ==> RightsOf(vm', r, q) == RightsOf(vm, r, q))
      && (q != page ==> RightsOf(vm', r, q) == RightsOf(vm, r, q))
  {
    hide Grants, Descend, LeafWord, Allowed, LinkOk, Present, RightsFrom, And, FrameOf, Builds, LinksKept;
    DescendGrows(vm, root, page, 0, flags);
    DescendBuilds(vm, root, page, 0, flags);
    match Descend(vm, root, page, 0, flags) {
      case None =>
      case Some(s) =>
        LeafWordBits(frame, flags);
        LeafWordReads(frame, flags);
        SetLeafKeeps(s.vm, s.table, Index(page, 3), LeafWord(frame, flags));
        SetLeafRights(s.vm, s.table, Index(page, 3), LeafWord(frame, flags), r, q);
        GrowsRights(vm, s.vm, r, q, 0);
        BuildsAt(vm, s.vm, flags, root, page);
        NarrowedSame(Allowed(vm.ram, root, page, 0), Allowed(s.vm.ram, root, page, 0), flags);
        if LeafTable(s.vm.ram, r, q, 0) == Some(s.table) {
          LeafUnique(s.vm, root, page, r, q);
          if Index(q, 3) == Index(page, 3) {
            IndexInjective(q, page);
          }
        }
    }
  }

  // ---- the last words -----------------------------------------------------------------------------------

  lemma {:induction false} GrowsLeafTable(vm: Vm, vm': Vm, x: nat, q: Page, d: nat)
    requires WellFormed(vm) && Grows(vm, vm') && d <= 3 && IsTable(vm, x, d) && LeafTable(vm.ram, x, q, d).Some?
    ensures LeafTable(vm'.ram, x, q, d) == LeafTable(vm.ram, x, q, d) && LeafTable(vm.ram, x, q, d).value in vm.tables
    decreases 3 - d
  {
    if d < 3 {
      var k := Index(q, d);
      assert LinkOk(vm, x, k);
      assert Word(vm'.ram, x, k) == Word(vm.ram, x, k);
      GrowsLeafTable(vm, vm', FrameOf(Word(vm.ram, x, k)), q, d + 1);
    }
  }

  /** The word of the page mapped, and that no word of another mapped page changes. */
  lemma MapPageLeaf(vm: Vm, root: nat, page: Page, frame: nat, flags: nat, q: Page)
    requires WellFormed(vm) && IsTable(vm, root, 0) && frame < 0x100_0000_0000 && FlagsOk(flags)
    ensures MapPage(vm, root, page, frame, flags).Some? ==>
      var vm' := MapPage(vm, root, page, frame, flags).value;
      && LeafSlot(vm', root, page).Some? && LeafFor(LeafSlot(vm', root, page).value, frame, flags)
      && (q != page && LeafSlot(vm, root, q).Some? && Present(LeafSlot(vm, root, q).value) ==>
            LeafSlot(vm', root, q) == LeafSlot(vm, root, q))
  {
    hide Descend, LeafWord, LinkOk, TableOk, Present, LeafFor, WalkFrom, LeafTable, Grants, LeafSlot;
    DescendGrows(vm, root, page, 0, flags);
    match Descend(vm, root, page, 0, flags) {
      case None =>
      case Some(s) =>
        var w, j := LeafWord(frame, flags), Index(page, 3);
        LeafWordBits(frame, flags);
        SetLeafKeeps(s.vm, s.table, j, w);
        SetLeafSlot(s.vm, s.table, j, w, root, page);
        SetLeafSlot(s.vm, s.table, j, w, root, q);
        if q != page {
          NotItsLeaf(s.vm, root, page, q, s.table);
          GrowsSlot(vm, s.vm, root, q);
        }
    }
  }

  lemma SetLeafSlot(vm: Vm, pt: nat, j: nat, w: nat, root: nat, q: Page)
    requires WellFormed(vm) && IsTable(vm, pt, 3) && j < 512 && pt < |vm.ram| && IsTable(vm, root, 0)
    ensures LeafSlot(SetLeaf(vm, pt, j, w), root, q) ==
      if LeafTable(vm.ram, root, q, 0) == Some(pt) && Index(q, 3) == j then Some(w) else LeafSlot(vm, root, q)
  {
    hide LeafTable, WalkFrom, LinkOk, TableOk, Present, FrameOf;
    SetLeafWalk(vm, pt, j, w, root, q, 0);
    SetLeafWord(vm, pt, j, w);
  }

  lemma SetLeafWord(vm: Vm, pt: nat, j: nat, w: nat)
    requires pt < |vm.ram| && j < |vm.ram[pt]|
    ensures forall x: nat, k: nat :: Word(SetLeaf(vm, pt, j, w).ram, x, k) == if x == pt && k == j then w else Word(vm.ram, x, k)
    ensures SetLeaf(vm, pt, j, w).tables == vm.tables
  {}

  lemma GrowsSlot(vm: Vm, vm': Vm, root: nat, q: Page)
    requires WellFormed(vm) && IsTable(vm, root, 0) && Grows(vm, vm')
    ensures LeafSlot(vm, root, q).Some? && Present(LeafSlot(vm, root, q).value) ==> LeafSlot(vm', root, q) == LeafSlot(vm, root, q)
  {
    hide LeafTable, WalkFrom, LinkOk, TableOk, Present, FrameOf;
    if LeafSlot(vm, root, q).Some? {
      GrowsLeafTable(vm, vm', root, q, 0);
      var pt := LeafTable(vm.ram, root, q, 0).value;
      assert Present(Word(vm.ram, pt, Index(q, 3))) ==> Word(vm'.ram, pt, Index(q, 3)) == Word(vm.ram, pt, Index(q, 3));
    }
  }

  lemma NotItsLeaf(vm: Vm, root: nat, page: Page, q: Page, pt: nat)
    requires WellFormed(vm) && IsTable(vm, root, 0) && q != page && LeafTable(vm.ram, root, page, 0) == Some(pt)
    ensures LeafTable(vm.ram, root, q, 0) == Some(pt) ==> Index(q, 3) != Index(page, 3)
  {
    if LeafTable(vm.ram, root, q, 0) == Some(pt) {
      LeafUnique(vm, root, page, root, q);
      if Index(q, 3) == Index(page, 3) { IndexInjective(q, page); }
    }
  }

  lemma LeafIsPresent(w: nat, frame: nat, flags: nat)
    requires LeafFor(w, frame, flags)
    ensures Present(w)
  {
    var low := w % 0x1000;
    Division.Unique(flags, 2, flags / 0x1000 * 0x800 + flags % 0x1000 / 2, flags % 0x1000 % 2);
    Division.Unique(w, 2, w / 0x1000 * 0x800 + low / 2, low % 2);
  }

  // ---- the range ------------------------------------------------------------------------------------------

  /** Every table built on the way hangs from a word that is present, writable, and user exactly as the flags say. */
  lemma {:induction false} MapPagesBuilds(vm: Vm, root: nat, page: Page, frame: nat, n: nat, flags: nat)
    requires WellFormed(vm) && IsTable(vm, root, 0) && RangeOk(frame, n)
    ensures MapPages(vm, root, page, frame, n, flags).Some? ==>
      var vm' := MapPages(vm, root, page, frame, n, flags).value; Builds(vm, vm', flags) && LinksKept(vm, vm')
  {
    hide MapPage, Builds, LinksKept, LinkOk, TableOk;
    if n == 0 {
      NothingBuilt(vm, flags);
    } else {
      MapPagesBuilds(vm, root, page, frame, n - 1, flags);
      match MapPages(vm, root, page, frame, n - 1, flags) {
        case None =>
        case Some(v) =>
          MapPageBuilds(v, root, PageAt(page, n - 1), frame + n - 1, flags);
          match MapPages(vm, root, page, frame, n, flags) {
            case None =>
            case Some(v') =>
              BuildsTransitive(vm, v, v', flags);
              LinksKeptTransitive(vm, v, v');
          }
      }
    }
  }

  lemma NothingBuilt(vm: Vm, flags: nat)
    ensures Builds(vm, vm, flags) && LinksKept(vm, vm)
  {}

  /** Bits 0 to 11 and 52 to 63 of every last-level word of the range are those of the flags, and present. */
  lemma {:induction false} MapPagesWords(vm: Vm, root: nat, page: Page, frame: nat, n: nat, flags: nat, q: Page)
    requires WellFormed(vm) && IsTable(vm, root, 0) && RangeOk(frame, n) && FlagsOk(flags) && InRange(page, n, q)
    ensures MapPages(vm, root, page, frame, n, flags).Some? ==>
      var slot := LeafSlot(MapPages(vm, root, page, frame, n, flags).value, root, q);
      slot.Some? && LeafFor(slot.value, frame + Distance(page, q), flags)
  {
    hide MapPage, LeafFor, LeafSlot;
    match MapPages(vm, root, page, frame, n - 1, flags) {
      case None =>
      case Some(v) =>
        var p := PageAt(page, n - 1);
        assert q == p <==> Distance(page, q) == n - 1;
        MapPageLeaf(v, root, p, frame + n - 1, flags, q);
        if q != p {
          MapPagesWords(vm, root, page, frame, n - 1, flags, q);
          LeafIsPresent(LeafSlot(v, root, q).value, frame + Distance(page, q), flags);
        }
    }
  }

  /**
   The rights after vmm_map_pages.  A page of the range has what the flags
   grant, less what the tables that were there before deny; every other page has
   the rights it had.
   */
  lemma {:induction false} MapPagesRights(vm: Vm, root: nat, page: Page, frame: nat, n: nat, flags: nat, r: nat, q: Page)
    requires WellFormed(vm) && IsTable(vm, root, 0) && IsTable(vm, r, 0) && RangeOk(frame, n) && FlagsOk(flags)
    ensures MapPages(vm, root, page, frame, n, flags).Some? ==>
      var vm' := MapPages(vm, root, page, frame, n, flags).value;
      && (r == root && InRange(page, n, q) ==> RightsOf(vm', r, q) == Some(And(Allowed(vm.ram, r, q, 0), Grants(flags))))
      && (r != root && RangeLower(page, n) ==> RightsOf(vm', r, q) == RightsOf(vm, r, q))
      && (!InRange(page, n, q) ==> RightsOf(vm', r, q) == RightsOf(vm, r, q))
  {
    hide MapPage, Allowed, Grants, RightsFrom, And, Builds, LinksKept, Narrowed, LinkOk, TableOk;
    if n > 0 {
      MapPagesRights(vm, root, page, frame, n - 1, flags, r, q);
      MapPagesBuilds(vm, root, page, frame, n - 1, flags);
      MapPagesRoots(vm, root, page, frame, n - 1, flags);
      match MapPages(vm, root, page, frame, n - 1, flags) {
        case None =>
        case Some(v) =>
          MapPageRights(v, root, PageAt(page, n - 1), frame + n - 1, flags, r, q);
          assert q == PageAt(page, n - 1) <==> Distance(page, q) == n - 1;
          BuildsAt(vm, v, flags, r, q);
          NarrowedSame(Allowed(vm.ram, r, q, 0), Allowed(v.ram, r, q, 0), flags);
      }
    }
  }

  // ---- a table built for the kernel -------------------------------------------------------------------------

  /** Once a table of p's walk was missing, mapping p without PAGE_USER denies user access to all pages beside it. */
  lemma {:induction false} MissingTableDenies(vm: Vm, t: nat, p: Page, q: Page, d: nat, flags: nat)
    requires WellFormed(vm) && d <= 3 && IsTable(vm, t, d) && LeafTable(vm.ram, t, p, d) == None && !User(flags)
    requires forall k: nat :: d <= k < 3 ==> Index(p, k) == Index(q, k)
    ensures Descend(vm, t, p, d, flags).Some? ==> !Allowed(Descend(vm, t, p, d, flags).value.vm.ram, t, q, d).user
    decreases 3 - d
  {
    hide Grants, LinkOk, TableOk, AllocPage, TableWord;
    var i := Index(p, d);
    assert Index(q, d) == i;
    GetOrCreateKeeps(vm, t, i, flags);
    match GetOrCreate(vm, t, i, flags) {
      case None =>
      case Some(s) =>
        DescendGrows(s.vm, s.table, p, d + 1, flags);
        match Descend(s.vm, s.table, p, d + 1, flags) {
          case None =>
          case Some(s') =>
            assert Word(s'.vm.ram, t, i) == Word(s.vm.ram, t, i);
            if Present(Word(vm.ram, t, i)) {
              MissingTableDenies(vm, s.table, p, q, d + 1, flags);
            } else {
              NewWordDenies(vm, t, i, flags);
            }
        }
    }
  }

  lemma NewWordDenies(vm: Vm, t: nat, i: nat, flags: nat)
    requires WellFormed(vm) && t in vm.tables && vm.tables[t].depth < 3 && i < 512 && !User(flags)
    requires !Present(Word(vm.ram, t, i)) && GetOrCreate(vm, t, i, flags).Some?
    ensures !Grants(Word(GetOrCreate(vm, t, i, flags).value.vm.ram, t, i)).user
  {
    hide LinkOk;
    match AllocPage(vm.frames)
    case Some(g) =>
      AddTableKeeps(vm, t, i, g, flags);
      FrameInRange(TableWord(g.page, flags));
      TableWordBits(g.page, flags);
      assert Word(AddTable(vm, t, i, g, flags).ram, t, i) == TableWord(g.page, flags);
  }

  /**
   So the same call does not always give the same rights: where a page mapped
   without PAGE_USER had to have a table built, no page beside it can be mapped
   for user access any more.
   */
  lemma KernelTableHidesUser(vm: Vm, root: nat, p: Page, frame: nat, flags: nat, q: Page, frame': nat, flags': nat)
    requires WellFormed(vm) && IsTable(vm, root, 0) && frame < 0x100_0000_0000 && frame' < 0x100_0000_0000
    requires FlagsOk(flags) && FlagsOk(flags') && !User(flags) && User(flags')
    requires LeafTable(vm.ram, root, p, 0) == None && forall k: nat :: k < 3 ==> Index(p, k) == Index(q, k)
    requires MapPage(vm, root, p, frame, flags).Some?
    ensures var v := MapPage(vm, root, p, frame, flags).value;
      MapPage(v, root, q, frame', flags').Some? ==>
        RightsOf(MapPage(v, root, q, frame', flags').value, root, q).Some?
        && !RightsOf(MapPage(v, root, q, frame', flags').value, root, q).value.user
  {
    hide Grants, Descend, Allowed, RightsFrom, LeafWord, LinkOk, TableOk, LeafTable;
    var v := MapPage(vm, root, p, frame, flags).value;
    var s := Descend(vm, root, p, 0, flags).value;
    MissingTableDenies(vm, root, p, q, 0, flags);
    DescendGrows(vm, root, p, 0, flags);
    SetLeafKeeps(s.vm, s.table, Index(p, 3), LeafWord(frame, flags));
    SetLeafAllows(s.vm, s.table, Index(p, 3), LeafWord(frame, flags), root, q, 0);
    MapPageRights(v, root, q, frame', flags', root, q);
  }
}
