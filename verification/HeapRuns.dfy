/** What kmalloc and kfree promise their callers, call by call and over whole runs. */
module HeapRuns {
  import opened Options
  import opened HeapBlocks

  // ---- the set of live payloads ---------------------------------------------------------

  ghost predicate UsedIndex(start: nat, blocks: seq<Block>, k: nat, addr: nat, size: nat) {
    k < |blocks| && !blocks[k].free && Addr(start, blocks, k) + HEADER == addr && blocks[k].size == size
  }

  /** A live payload of `size` bytes starts at addr. */
  ghost predicate Used(start: nat, blocks: seq<Block>, addr: nat, size: nat) {
    exists k: nat :: UsedIndex(start, blocks, k, addr, size)
  }

  ghost predicate UsedBut(start: nat, blocks: seq<Block>, k: nat, addr: nat, size: nat) {
    exists j: nat :: j != k && UsedIndex(start, blocks, j, addr, size)
  }

  /** Replacing block k by blocks filling its space replaces its payload by theirs, and nothing else. */
  lemma UsedReplace(start: nat, blocks: seq<Block>, k: nat, mid: seq<Block>, addr: nat, size: nat)
    requires k < |blocks| && Addr(0, mid, |mid|) == HEADER + blocks[k].size
    ensures Used(start, Replace(blocks, k, mid), addr, size) <==>
      UsedBut(start, blocks, k, addr, size) || Used(Addr(start, blocks, k), mid, addr, size)
  {
    if Used(start, Replace(blocks, k, mid), addr, size) { UsedFrom(start, blocks, k, mid, addr, size); }
    if UsedBut(start, blocks, k, addr, size) || Used(Addr(start, blocks, k), mid, addr, size) {
      UsedInto(start, blocks, k, mid, addr, size);
    }
  }

  lemma UsedFrom(start: nat, blocks: seq<Block>, k: nat, mid: seq<Block>, addr: nat, size: nat)
    requires k < |blocks| && Addr(0, mid, |mid|) == HEADER + blocks[k].size
    requires Used(start, Replace(blocks, k, mid), addr, size)
    ensures UsedBut(start, blocks, k, addr, size) || Used(Addr(start, blocks, k), mid, addr, size)
  {
    hide Addr, Replace;
    ReplaceKeepsAddresses(start, blocks, k, mid);
    SplitAt(blocks, k, mid);
    var i: nat :| UsedIndex(start, Replace(blocks, k, mid), i, addr, size);
    ReplaceAt(blocks, k, mid, i);
    if i < k {
      assert UsedIndex(start, blocks, i, addr, size);
    } else if i < k + |mid| {
      MidAddress(start, blocks, k, mid, i - k);
      assert UsedIndex(Addr(start, blocks, k), mid, i - k, addr, size);
    } else {
      assert UsedIndex(start, blocks, i - |mid| + 1, addr, size);
    }
  }

  lemma UsedInto(start: nat, blocks: seq<Block>, k: nat, mid: seq<Block>, addr: nat, size: nat)
    requires k < |blocks| && Addr(0, mid, |mid|) == HEADER + blocks[k].size
    requires UsedBut(start, blocks, k, addr, size) || Used(Addr(start, blocks, k), mid, addr, size)
    ensures Used(start, Replace(blocks, k, mid), addr, size)
  {
    hide Addr, Replace;
    var r := Replace(blocks, k, mid);
    ReplaceKeepsAddresses(start, blocks, k, mid);
    SplitAt(blocks, k, mid);
    if UsedBut(start, blocks, k, addr, size) {
      var j: nat :| j != k && UsedIndex(start, blocks, j, addr, size);
      var i := if j < k then j else j + |mid| - 1;
      ReplaceAt(blocks, k, mid, i);
      assert UsedIndex(start, r, i, addr, size);
    } else {
      var i: nat :| UsedIndex(Addr(start, blocks, k), mid, i, addr, size);
      ReplaceAt(blocks, k, mid, k + i);
      MidAddress(start, blocks, k, mid, i);
      assert UsedIndex(start, r, k + i, addr, size);
    }
  }

  lemma MidAddress(start: nat, blocks: seq<Block>, k: nat, mid: seq<Block>, i: nat)
    requires k < |blocks| && i <= |mid|
    ensures Addr(start, Replace(blocks, k, mid), k + i) == Addr(Addr(start, blocks, k), mid, i)
  {
    hide Addr, Replace;
    var a, b := blocks[..k], blocks[k + 1..];
    SplitAt(blocks, k, mid);
    AddrConcat(start, a, mid + b, i);
    AddrPrefix(Addr(start, a, k), mid, b, i);
    AddrPrefix(start, a, blocks[k..], k);
  }

  lemma UsedButIs(start: nat, blocks: seq<Block>, k: nat, addr: nat, size: nat)
    requires k < |blocks| && SizesOk(blocks)
    ensures blocks[k].free ==> (UsedBut(start, blocks, k, addr, size) <==> Used(start, blocks, addr, size))
    ensures !blocks[k].free ==> (UsedBut(start, blocks, k, addr, size) <==>
      Used(start, blocks, addr, size) && addr != Addr(start, blocks, k) + HEADER)
  {
    if Used(start, blocks, addr, size) {
      var j: nat :| UsedIndex(start, blocks, j, addr, size);
      if j != k {
        assert UsedBut(start, blocks, k, addr, size);
      }
    }
    if UsedBut(start, blocks, k, addr, size) {
      var j: nat :| j != k && UsedIndex(start, blocks, j, addr, size);
      assert Used(start, blocks, addr, size);
      if j < k { BlocksDisjoint(start, blocks, j, k); } else { BlocksDisjoint(start, blocks, k, j); }
    }
  }

  /** Taking a free block adds exactly its payload to the live ones. */
  lemma TakeUsed(h: Heap, k: nat, need: nat, addr: nat, size: nat)
    requires WellFormed(h) && k < |h.blocks| && h.blocks[k].free && need <= h.blocks[k].size
    ensures var h' := TakeBlock(h, k, need);
      Used(h'.start, h'.blocks, addr, size) <==>
        Used(h.start, h.blocks, addr, size)
        || (addr == Addr(h.start, h.blocks, k) + HEADER && size == Carve(h.blocks[k], need)[0].size)
  {
    var mid := Carve(h.blocks[k], need);
    CarveFills(h.blocks[k], need);
    UsedReplace(h.start, h.blocks, k, mid, addr, size);
    UsedButIs(h.start, h.blocks, k, addr, size);
    var s := Addr(h.start, h.blocks, k);
    assert Used(s, mid, addr, size) <==> addr == s + HEADER && size == mid[0].size by {
      if addr == s + HEADER && size == mid[0].size {
        assert UsedIndex(s, mid, 0, addr, size);
      }
    }
  }

  /** Making two free neighbours one changes no live payload. */
  lemma MergedUsed(start: nat, blocks: seq<Block>, k: nat, addr: nat, size: nat)
    requires k + 1 < |blocks| && blocks[k].free && blocks[k + 1].free && SizesOk(blocks)
    ensures Used(start, Merged(blocks, k), addr, size) <==> Used(start, blocks, addr, size)
  {
    var m, mid := Merged(blocks, k), [blocks[k], blocks[k + 1]];
    MergedBlocks(blocks, k);
    MergedSizes(blocks, k);
    assert Addr(0, mid, 1) == HEADER + blocks[k].size;
    assert Addr(0, mid, 2) == HEADER + m[k].size;
    assert Replace(m, k, mid) == blocks;
    UsedReplace(start, m, k, mid, addr, size);
    UsedButIs(start, m, k, addr, size);
    assert !Used(Addr(start, m, k), mid, addr, size);
  }

  /** Freeing block k removes exactly its payload from the live ones. */
  lemma FreeUsed(h: Heap, k: nat, addr: nat, size: nat)
    requires WellFormed(h) && k < |h.blocks| && !h.blocks[k].free
    ensures Used(h.start, Kfree(h, k).blocks, addr, size) <==>
      Used(h.start, h.blocks, addr, size) && addr != Addr(h.start, h.blocks, k) + HEADER
  {
    var b0 := h.blocks[k := Block(h.blocks[k].size, true)];
    assert b0 == Replace(h.blocks, k, [b0[k]]);
    SingleFills(b0[k]);
    UsedReplace(h.start, h.blocks, k, [b0[k]], addr, size);
    UsedButIs(h.start, h.blocks, k, addr, size);
    assert !Used(Addr(h.start, h.blocks, k), [b0[k]], addr, size);
    FreeSteps(h.start, b0, k, addr, size);
  }

  lemma FreeSteps(start: nat, b0: seq<Block>, k: nat, addr: nat, size: nat)
    requires SizesOk(b0) && k < |b0| && b0[k].free
    ensures Used(start, MergePrev(MergeNext(b0, k), k), addr, size) <==> Used(start, b0, addr, size)
  {
    hide Used, SizeOk;
    var b1 := MergeNext(b0, k);
    if k + 1 < |b0| && b0[k + 1].free {
      MergedBlocks(b0, k);
      MergedSizes(b0, k);
      MergedUsed(start, b0, k, addr, size);
    }
    if k > 0 && b1[k - 1].free {
      MergedUsed(start, b1, k - 1, addr, size);
    }
  }

  lemma ExpandUsed(h: Heap, pages: nat, addr: nat, size: nat)
    requires WellFormed(h) && 0 < pages
    ensures var e := Expand(h, pages);
      Used(e.start, e.blocks, addr, size) <==> Used(h.start, h.blocks, addr, size)
  {
    var e, n := Expand(h, pages), |h.blocks| - 1;
    forall j: nat | j <= n
      ensures Addr(e.start, e.blocks, j) == Addr(h.start, h.blocks, j)
    {
      if h.blocks[n].free {
        assert h.blocks == h.blocks[..n] + [h.blocks[n]];
        AddrPrefix(h.start, h.blocks[..n], [h.blocks[n]], j);
        AddrPrefix(h.start, h.blocks[..n], [e.blocks[n]], j);
      } else {
        AddrPrefix(h.start, h.blocks, [e.blocks[n + 1]], j);
      }
    }
    if Used(e.start, e.blocks, addr, size) {
      var j: nat :| UsedIndex(e.start, e.blocks, j, addr, size);
      assert UsedIndex(h.start, h.blocks, j, addr, size);
    }
    if Used(h.start, h.blocks, addr, size) {
      var j: nat :| UsedIndex(h.start, h.blocks, j, addr, size);
      assert UsedIndex(e.start, e.blocks, j, addr, size);
    }
  }

  // ---- kmalloc -------------------------------------------------------------------------------

  /** The frame allocator never grants more than the heap window holds. */
  predicate GrantOk(h: Heap, size: nat, granted: bool) {
    size < 0x1_0000_0000_0000_0000 && (granted ==> h.end + PagesFor(AlignUp(size)) * 4096 <= TOP)
  }

  lemma PagesForFits(need: nat)
    requires need < 0x1_0000_0000_0000_0000 - 4127
    ensures PagesFor(need) >= 1 && PagesFor(need) * 4096 >= HEADER + need
  {
    assert (HEADER + need) % 0x1_0000_0000_0000_0000 == HEADER + need;
    assert (HEADER + need + 4095) % 0x1_0000_0000_0000_0000 == HEADER + need + 4095;
  }

  lemma PagesForWraps(need: nat)
    requires 0x1_0000_0000_0000_0000 - 4127 <= need < 0x1_0000_0000_0000_0000 && need % 16 == 0
    ensures PagesFor(need) == 1
  {
    if HEADER + need >= 0x1_0000_0000_0000_0000 {
      assert (HEADER + need) % 0x1_0000_0000_0000_0000 == HEADER + need - 0x1_0000_0000_0000_0000;
    } else {
      assert (HEADER + need) % 0x1_0000_0000_0000_0000 == HEADER + need;
      assert (HEADER + need + 4095) % 0x1_0000_0000_0000_0000 == HEADER + need + 4095 - 0x1_0000_0000_0000_0000;
    }
  }

  /** A block is smaller than the heap window. */
  lemma BlockBound(h: Heap, k: nat)
    requires WellFormed(h) && k < |h.blocks|
    ensures h.blocks[k].size < 0x1000_0000_0000
  {
    hide SizeOk, Addr;
    AddrStep(h.start, h.blocks, k);
    AddrGrows(h.start, h.blocks, 0, k);
    AddrGrows(h.start, h.blocks, k + 1, |h.blocks|);
  }

  /**
   Any request up to 2^64 - 16 bytes that returns, returns a fresh payload at
   least that large; the heap stays well formed and every other live payload
   keeps its place and size.
   */
  lemma KmallocServes(h: Heap, size: nat, granted: bool) returns (got: nat)
    requires WellFormed(h) && GrantOk(h, size, granted) && size <= 0x1_0000_0000_0000_0000 - 16
    requires Kmalloc(h, size, granted).Ptr?
    ensures var p := Kmalloc(h, size, granted);
      && WellFormed(p.heap) && size <= got < size + 63
      && (forall s: nat :: !Used(h.start, h.blocks, p.addr, s))
      && forall a: nat, s: nat :: Used(p.heap.start, p.heap.blocks, a, s) <==>
           Used(h.start, h.blocks, a, s) || (a == p.addr && s == got)
  {
    var need := AlignUp(size);
    AlignUpFits(size);
    var k := FirstFit(h.blocks, need);
    if k < |h.blocks| {
      got := TakeServes(h, k, need, Kmalloc(h, size, granted).addr);
    } else {
      var e := Expand(h, PagesFor(need));
      ExpandKeeps(h, PagesFor(need));
      var addr := Kmalloc(h, size, granted).addr;
      got := TakeServes(e, |e.blocks| - 1, need, addr);
      hide Used;
      forall a: nat, s: nat
        ensures Used(e.start, e.blocks, a, s) <==> Used(h.start, h.blocks, a, s)
      {
        ExpandUsed(h, PagesFor(need), a, s);
      }
      forall s: nat
        ensures !Used(h.start, h.blocks, addr, s)
      {
        assert !Used(e.start, e.blocks, addr, s);
      }
    }
  }

  /**
   Where a request is served: in the lowest free block that holds it, without
   growing the heap; if there is none the heap grows, by as few pages as hold
   the request and a header.
   */
  lemma KmallocPlaces(h: Heap, size: nat, granted: bool, j: nat)
    requires WellFormed(h) && GrantOk(h, size, granted) && 0 < size <= 0x1_0000_0000_0000_0000 - 16
    requires Kmalloc(h, size, granted).Ptr?
    ensures var p, need := Kmalloc(h, size, granted), AlignUp(size);
      && (j < |h.blocks| && h.blocks[j].free && h.blocks[j].size >= need ==>
            p.heap.end == h.end && p.addr <= Addr(h.start, h.blocks, j) + HEADER)
      && (p.heap.end != h.end ==>
            var grown := p.heap.end - h.end;
            grown % 4096 == 0 && need + HEADER <= grown < need + HEADER + 4096)
  {
    var need := AlignUp(size);
    AlignUpFits(size);
    var k := FirstFit(h.blocks, need);
    if k < |h.blocks| {
      if j < |h.blocks| && h.blocks[j].free && h.blocks[j].size >= need {
        AddrGrows(h.start, h.blocks, k, j);
      }
    } else {
      PagesEnough(need);
      GrownBy(h, PagesFor(need));
    }
  }

  lemma GrownBy(h: Heap, pages: nat)
    requires 0 < |h.blocks| && 0 < pages
    ensures Expand(h, pages).end == h.end + pages * 4096 && pages * 4096 % 4096 == 0
  {}

  lemma PagesEnough(need: nat)
    requires 0 < need && need + HEADER + 4095 < 0x1_0000_0000_0000_0000
    ensures need + HEADER <= PagesFor(need) * 4096 < need + HEADER + 4096
  {}

  lemma TakeServes(h: Heap, k: nat, need: nat, addr: nat) returns (got: nat)
    requires WellFormed(h) && k < |h.blocks| && h.blocks[k].free && need <= h.blocks[k].size && SizeOk(need)
    requires addr == Addr(h.start, h.blocks, k) + HEADER
    ensures var h' := TakeBlock(h, k, need);
      && WellFormed(h') && need <= got < need + 48
      && (forall s: nat :: !Used(h.start, h.blocks, addr, s))
      && forall a: nat, s: nat :: Used(h'.start, h'.blocks, a, s) <==>
           Used(h.start, h.blocks, a, s) || (a == addr && s == got)
  {
    TakeKeeps(h, k, need);
    got := Carve(h.blocks[k], need)[0].size;
    forall a: nat, s: nat
      ensures Used(h.start, TakeBlock(h, k, need).blocks, a, s) <==>
        Used(h.start, h.blocks, a, s) || (a == addr && s == got)
    {
      TakeUsed(h, k, need, a, s);
    }
    forall s: nat
      ensures !Used(h.start, h.blocks, addr, s)
    {
      FreeIsNotUsed(h, k, s);
    }
  }

  lemma FreeIsNotUsed(h: Heap, k: nat, s: nat)
    requires WellFormed(h) && k < |h.blocks| && h.blocks[k].free
    ensures !Used(h.start, h.blocks, Addr(h.start, h.blocks, k) + HEADER, s)
  {
    if Used(h.start, h.blocks, Addr(h.start, h.blocks, k) + HEADER, s) {
      var j: nat :| UsedIndex(h.start, h.blocks, j, Addr(h.start, h.blocks, k) + HEADER, s);
      if j < k { BlocksDisjoint(h.start, h.blocks, j, k); } else { BlocksDisjoint(h.start, h.blocks, k, j); }
    }
  }

  /**
   A call that returns serves its caller exactly when the size is at most
   2^64 - 16: above that, align_up wraps to 0 and the payload is too small.
   */
  lemma ServesIff(h: Heap, size: nat, granted: bool)
    requires WellFormed(h) && GrantOk(h, size, granted) && Kmalloc(h, size, granted).Ptr?
    ensures var p := Kmalloc(h, size, granted);
      (WellFormed(p.heap) && exists s: nat :: s >= size && Used(p.heap.start, p.heap.blocks, p.addr, s))
      <==> size <= 0x1_0000_0000_0000_0000 - 16
  {
    var p := Kmalloc(h, size, granted);
    if size <= 0x1_0000_0000_0000_0000 - 16 {
      var got := KmallocServes(h, size, granted);
      assert Used(p.heap.start, p.heap.blocks, p.addr, got);
    } else if WellFormed(p.heap) {
      forall s: nat | Used(p.heap.start, p.heap.blocks, p.addr, s)
        ensures s < size
      {
        var k: nat :| UsedIndex(p.heap.start, p.heap.blocks, k, p.addr, s);
        BlockBound(p.heap, k);
      }
    }
  }

  /**
   How kmalloc ends: with a null pointer for size 0 alone, and out of memory
   exactly when no free block holds the request and the pages are refused.
   */
  lemma KmallocEnds(h: Heap, size: nat, granted: bool)
    requires 0 < |h.blocks|
    ensures Kmalloc(h, size, granted) == Null <==> size == 0
    ensures Kmalloc(h, size, granted) == OutOfMemory <==>
      && size > 0 && !granted
      && forall k :: 0 <= k < |h.blocks| && h.blocks[k].free ==> h.blocks[k].size < AlignUp(size)
  {
    hide AlignUp, PagesFor, Expand, TakeBlock, Addr;
    var k := FirstFit(h.blocks, AlignUp(size));
    if k < |h.blocks| { assert h.blocks[k].free; }
  }

  /** The second ASSERT of kmalloc fires exactly for the sizes whose page count wraps, when nothing fits. */
  lemma AssertFailsIff(h: Heap, size: nat, granted: bool)
    requires WellFormed(h) && GrantOk(h, size, granted) && size > 0
    ensures Kmalloc(h, size, granted) == AssertFails <==>
      && granted && FirstFit(h.blocks, AlignUp(size)) == |h.blocks|
      && 0x1_0000_0000_0000_0000 - 4128 < size <= 0x1_0000_0000_0000_0000 - 16
  {
    var need, n := AlignUp(size), |h.blocks| - 1;
    BlockBound(h, n);
    if size <= 0x1_0000_0000_0000_0000 - 16 {
      AlignUpFits(size);
      NeedBound(size);
      if size <= 0x1_0000_0000_0000_0000 - 4128 {
        PagesForFits(need);
      } else {
        PagesForWraps(need);
      }
    } else {
      AlignUpWraps(size);
      PagesForFits(0);
    }
  }

  lemma NeedBound(size: nat)
    requires 0 < size <= 0x1_0000_0000_0000_0000 - 16
    ensures AlignUp(size) < 0x1_0000_0000_0000_0000 - 4127 <==> size <= 0x1_0000_0000_0000_0000 - 4128
  {
    AlignUpFits(size);
  }

  // ---- round trip ------------------------------------------------------------------------------

  /** kfree of a block just taken gives back the very same list. */
  lemma TakeThenFree(h: Heap, k: nat, need: nat)
    requires WellFormed(h) && k < |h.blocks| && h.blocks[k].free && need <= h.blocks[k].size
    ensures k < |TakeBlock(h, k, need).blocks| && Kfree(TakeBlock(h, k, need), k) == h
  {
    var blocks := TakeBlock(h, k, need).blocks;
    var mid := Carve(h.blocks[k], need);
    var b0 := blocks[k := Block(blocks[k].size, true)];
    if k > 0 {
      ReplaceAt(h.blocks, k, mid, k - 1);
      assert !h.blocks[k - 1].free;
    }
    ReplaceAt(h.blocks, k, mid, k);
    if |mid| == 2 {
      ReplaceAt(h.blocks, k, mid, k + 1);
      assert MergeNext(b0, k) == h.blocks;
    } else {
      if k + 1 < |h.blocks| {
        ReplaceAt(h.blocks, k, mid, k + 1);
        assert !h.blocks[k + 1].free;
      }
      assert b0 == h.blocks;
    }
  }

  /**
   kmalloc then kfree restores the block list exactly when no expansion was
   needed; otherwise it leaves the old list with whole free pages at its end.
   */
  lemma MallocThenFree(h: Heap, size: nat, granted: bool) returns (k: nat)
    requires WellFormed(h) && GrantOk(h, size, granted) && Kmalloc(h, size, granted).Ptr?
    ensures var p := Kmalloc(h, size, granted);
      && k < |p.heap.blocks| && Addr(p.heap.start, p.heap.blocks, k) + HEADER == p.addr && !p.heap.blocks[k].free
      && Kfree(p.heap, k) ==
         if FirstFit(h.blocks, AlignUp(size)) < |h.blocks| then h else Expand(h, PagesFor(AlignUp(size)))
  {
    var need := AlignUp(size);
    k := FirstFit(h.blocks, need);
    var e := h;
    if k == |h.blocks| {
      e := Expand(h, PagesFor(need));
      ExpandKeeps(h, PagesFor(need));
      k := |e.blocks| - 1;
    }
    TakeThenFree(e, k, need);
    var mid := Carve(e.blocks[k], need);
    CarveFills(e.blocks[k], need);
    ReplaceKeepsAddresses(e.start, e.blocks, k, mid);
    ReplaceAt(e.blocks, k, mid, k);
  }

  // ---- runs ----------------------------------------------------------------------------------------

  /** The heap and what callers hold: requested sizes by payload address. */
  datatype State = State(heap: Heap, live: map<nat, nat>)

  datatype Op = Malloc(size: nat, granted: bool) | Free(addr: nat)

  ghost predicate Inv(st: State) {
    && WellFormed(st.heap)
    && (forall a: nat, s: nat :: Used(st.heap.start, st.heap.blocks, a, s) ==> a in st.live)
    && (forall a :: a in st.live ==> exists s: nat :: s >= st.live[a] && Used(st.heap.start, st.heap.blocks, a, s))
  }

  predicate Enabled(st: State, op: Op) {
    match op
    case Malloc(size, granted) => GrantOk(st.heap, size, granted) && size <= 0x1_0000_0000_0000_0000 - 16
    case Free(addr) => addr in st.live
  }

  ghost function BlockAt(h: Heap, addr: nat): (k: nat)
    requires exists s: nat :: Used(h.start, h.blocks, addr, s)
    ensures k < |h.blocks| && UsedIndex(h.start, h.blocks, k, addr, h.blocks[k].size)
  {
    var s: nat :| Used(h.start, h.blocks, addr, s);
    var k: nat :| UsedIndex(h.start, h.blocks, k, addr, s);
    k
  }

  /** None is a panic. */
  ghost function Exec(st: State, op: Op): Option<State>
    requires Inv(st) && Enabled(st, op)
  {
    match op
    case Malloc(size, granted) =>
      (match Kmalloc(st.heap, size, granted)
       case Null => Some(st)
       case Ptr(addr, heap) => Some(State(heap, st.live[addr := size]))
       case _ => None)
    case Free(addr) => Some(State(Kfree(st.heap, BlockAt(st.heap, addr)), st.live - {addr}))
  }

  lemma ExecKeeps(st: State, op: Op)
    requires Inv(st) && Enabled(st, op) && Exec(st, op).Some?
    ensures Inv(Exec(st, op).value)
  {
    var h, st' := st.heap, Exec(st, op).value;
    match op {
      case Malloc(size, granted) =>
        if Kmalloc(h, size, granted).Ptr? {
          var got := KmallocServes(h, size, granted);
          MallocLive(st, st', Kmalloc(h, size, granted).addr, size, got);
        }
      case Free(addr) =>
        var k := BlockAt(h, addr);
        KfreeKeeps(h, k);
        forall a: nat, s: nat
          ensures Used(h.start, st'.heap.blocks, a, s) <==> Used(h.start, h.blocks, a, s) && a != addr
        {
          FreeUsed(h, k, a, s);
        }
        FreeLive(st, st', addr);
    }
  }

  lemma MallocLive(st: State, st': State, addr: nat, size: nat, got: nat)
    requires Inv(st) && WellFormed(st'.heap) && got >= size && st'.live == st.live[addr := size]
    requires forall s: nat :: !Used(st.heap.start, st.heap.blocks, addr, s)
    requires forall a: nat, s: nat :: Used(st'.heap.start, st'.heap.blocks, a, s) <==>
      Used(st.heap.start, st.heap.blocks, a, s) || (a == addr && s == got)
    ensures Inv(st')
  {
    hide Used, WellFormed;
    forall a | a in st'.live
      ensures exists s: nat :: s >= st'.live[a] && Used(st'.heap.start, st'.heap.blocks, a, s)
    {
      if a == addr {
        assert Used(st'.heap.start, st'.heap.blocks, a, got);
      } else {
        var s: nat :| s >= st.live[a] && Used(st.heap.start, st.heap.blocks, a, s);
        assert Used(st'.heap.start, st'.heap.blocks, a, s);
      }
    }
  }

  lemma FreeLive(st: State, st': State, addr: nat)
    requires Inv(st) && WellFormed(st'.heap) && st'.live == st.live - {addr} && st'.heap.start == st.heap.start
    requires forall a: nat, s: nat :: Used(st.heap.start, st'.heap.blocks, a, s) <==>
      Used(st.heap.start, st.heap.blocks, a, s) && a != addr
    ensures Inv(st')
  {
    hide Used, WellFormed;
    forall a | a in st'.live
      ensures exists s: nat :: s >= st'.live[a] && Used(st'.heap.start, st'.heap.blocks, a, s)
    {
      var s: nat :| s >= st.live[a] && Used(st.heap.start, st.heap.blocks, a, s);
      assert Used(st'.heap.start, st'.heap.blocks, a, s);
    }
  }

  ghost predicate Run(st: State, ops: seq<Op>, end: State)
    requires Inv(st)
    decreases |ops|
  {
    if |ops| == 0 then end == st
    else Enabled(st, ops[0]) && Exec(st, ops[0]).Some?
         && (ExecKeeps(st, ops[0]); Run(Exec(st, ops[0]).value, ops[1..], end))
  }

  /** heap_init: four pages, one free block. */
  predicate Initial(st: State) {
    && st.live == map[] && st.heap.start == 0xFFFF_A000_0000_0000 && st.heap.end == st.heap.start + 4 * 4096
    && st.heap.blocks == [Block(4 * 4096 - HEADER, true)]
  }

  lemma InitialInv(st: State)
    requires Initial(st)
    ensures Inv(st)
  {
    assert Addr(st.heap.start, st.heap.blocks, 1) == st.heap.end;
  }

  /**
   After every sequence of kmalloc and kfree calls the live payloads are
   pairwise disjoint with a header between them, inside the heap, 16-aligned,
   and each at least as large as was asked for.
   */
  lemma {:induction false} LivePayloadsDisjoint(st: State, ops: seq<Op>, end: State, a: nat, b: nat)
    requires Inv(st) && Run(st, ops, end) && a in end.live && b in end.live && a != b
    ensures a % 16 == 0 && b % 16 == 0
    ensures end.heap.start + HEADER <= a && a + end.live[a] <= end.heap.end
    ensures a + end.live[a] + HEADER <= b || b + end.live[b] + HEADER <= a
    decreases |ops|
  {
    if |ops| > 0 {
      ExecKeeps(st, ops[0]);
      LivePayloadsDisjoint(Exec(st, ops[0]).value, ops[1..], end, a, b);
    } else {
      LiveApart(st, a, b);
    }
  }

  lemma LiveApart(st: State, a: nat, b: nat)
    requires Inv(st) && a in st.live && b in st.live && a != b
    ensures a % 16 == 0 && b % 16 == 0
    ensures st.heap.start + HEADER <= a && a + st.live[a] <= st.heap.end
    ensures a + st.live[a] + HEADER <= b || b + st.live[b] + HEADER <= a
  {
    var h := st.heap;
    var i := BlockAt(h, a);
    var j := BlockAt(h, b);
    LiveSize(st, a, i);
    LiveSize(st, b, j);
    hide Addr, Used, SizesOk, Coalesced;
    if i < j { PayloadsDisjoint(h, i, j); } else { PayloadsDisjoint(h, j, i); }
    HeaderAligned(Addr(h.start, h.blocks, i));
    HeaderAligned(Addr(h.start, h.blocks, j));
  }

  lemma HeaderAligned(n: nat)
    requires n % 16 == 0
    ensures (n + HEADER) % 16 == 0
  {}

  /** The block found at a live address is at least the size asked for. */
  lemma LiveSize(st: State, a: nat, k: nat)
    requires Inv(st) && a in st.live && k < |st.heap.blocks|
    requires UsedIndex(st.heap.start, st.heap.blocks, k, a, st.heap.blocks[k].size)
    ensures st.heap.blocks[k].size >= st.live[a]
  {
    var h := st.heap;
    var s: nat :| s >= st.live[a] && Used(h.start, h.blocks, a, s);
    var j: nat :| UsedIndex(h.start, h.blocks, j, a, s);
    if j < k { BlocksDisjoint(h.start, h.blocks, j, k); } else if k < j { BlocksDisjoint(h.start, h.blocks, k, j); }
  }
}
