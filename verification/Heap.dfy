/**
 kernel/memory/heap.c: block headers in memory, doubly linked by address and
 edited in place.  `blocks` is the list they represent; every method says what
 it does to that list in the terms of module HeapBlocks.
 */
module Heap {
  import opened HeapBlocks

  /** heap_block; 0 stands for a null link. */
  datatype Header = Header(payload: nat, next: nat, prev: nat, free: bool)

  type Memory = map<nat, Header>

  /** Block k's header lies at its address and its links name its neighbours. */
  ghost predicate HeaderIs(mem: Memory, start: nat, blocks: seq<Block>, k: nat)
    requires k < |blocks|
  {
    var a := Addr(start, blocks, k);
    a in mem && mem[a] == Header(blocks[k].size,
                                 if k + 1 < |blocks| then Addr(start, blocks, k + 1) else 0,
                                 if k > 0 then Addr(start, blocks, k - 1) else 0,
                                 blocks[k].free)
  }

  ghost predicate Linked(mem: Memory, start: nat, blocks: seq<Block>) {
    forall k: nat :: k < |blocks| ==> HeaderIs(mem, start, blocks, k)
  }

  lemma {:induction false} AddrDistinct(start: nat, blocks: seq<Block>, i: nat, j: nat)
    requires i < |blocks| && j < |blocks|
    ensures i < j ==> Addr(start, blocks, i) < Addr(start, blocks, j)
    ensures i > j ==> Addr(start, blocks, i) > Addr(start, blocks, j)
    ensures start <= Addr(start, blocks, i)
    decreases i + j
  {
    if i > 0 && i >= j { AddrDistinct(start, blocks, i - 1, j); }
    if j > 0 && j > i { AddrDistinct(start, blocks, i, j - 1); }
  }

  // ---- the edits, as lemmas about memory ----------------------------------------------

  function Relink(mem: Memory, at: nat, prev: nat): Memory {
    if at != 0 && at in mem then mem[at := mem[at].(prev := prev)] else mem
  }

  /** split_block's writes. */
  function SplitWrites(mem: Memory, a: nat, need: nat): Memory
    requires a in mem && mem[a].payload >= need + HEADER
  {
    var h, n := mem[a], a + HEADER + need;
    var mem1 := Relink(mem, h.next, n);
    mem1[n := Header(h.payload - need - HEADER, h.next, a, true)][a := h.(payload := need, next := n)]
  }

  lemma SplitAddresses(start: nat, blocks: seq<Block>, k: nat, need: nat)
    requires k < |blocks| && need + HEADER <= blocks[k].size
    ensures var new_ := Replace(blocks, k, [Block(need, true), Block(blocks[k].size - need - HEADER, true)]);
      && (forall j: nat :: j <= k ==> Addr(start, new_, j) == Addr(start, blocks, j))
      && Addr(start, new_, k + 1) == Addr(start, blocks, k) + HEADER + need
      && (forall j: nat :: k < j <= |blocks| ==> Addr(start, new_, j + 1) == Addr(start, blocks, j))
  {
    var mid := [Block(need, true), Block(blocks[k].size - need - HEADER, true)];
    assert Addr(0, mid, 1) == HEADER + need;
    assert Addr(0, mid, 2) == HEADER + blocks[k].size;
    ReplaceKeepsAddresses(start, blocks, k, mid);
    ReplaceAt(blocks, k, mid, k);
    AddrStep(start, Replace(blocks, k, mid), k);
  }

  lemma SplitWritesAt(mem: Memory, a: nat, need: nat, x: nat)
    requires a in mem && mem[a].payload >= need + HEADER
    requires mem[a].next == 0 || (mem[a].next in mem && mem[a].next > a + HEADER + need)
    ensures var w, h, n := SplitWrites(mem, a, need), mem[a], a + HEADER + need;
      && (x == a ==> x in w && w[x] == h.(payload := need, next := n))
      && (x == n ==> x in w && w[x] == Header(h.payload - need - HEADER, h.next, a, true))
      && (x == h.next && x != 0 ==> x in w && w[x] == mem[x].(prev := n))
      && (x in mem && x != a && x != n && x != h.next ==> x in w && w[x] == mem[x])
  {}

  lemma SplitHeader(mem: Memory, start: nat, blocks: seq<Block>, k: nat, need: nat, i: nat)
    requires Linked(mem, start, blocks) && start > 0
    requires k < |blocks| && blocks[k].free && need + MIN_SPLIT <= blocks[k].size && i < |blocks| + 1
    requires HeaderIs(mem, start, blocks, k)
    ensures var mid := [Block(need, true), Block(blocks[k].size - need - HEADER, true)];
      HeaderIs(SplitWrites(mem, Addr(start, blocks, k), need), start, Replace(blocks, k, mid), i)
  {
    hide Addr, SplitWrites;
    var mid := [Block(need, true), Block(blocks[k].size - need - HEADER, true)];
    var new_ := Replace(blocks, k, mid);
    SplitAddresses(start, blocks, k, need);
    ReplaceAt(blocks, k, mid, i);
    if k + 1 < |blocks| {
      assert HeaderIs(mem, start, blocks, k + 1);
      AddrDistinct(start, new_, k + 2, k + 1);
      AddrDistinct(start, new_, i, k + 2);
    }
    AddrDistinct(start, new_, k + 1, k);
    AddrDistinct(start, new_, i, k);
    AddrDistinct(start, new_, i, k + 1);
    SplitWritesAt(mem, Addr(start, blocks, k), need, Addr(start, new_, i));
    if i < k {
      assert HeaderIs(mem, start, blocks, i);
    } else if i > k + 1 {
      assert HeaderIs(mem, start, blocks, i - 1);
    }
    hide Replace, Linked;
  }

  /** After split_block the headers represent the list with block k cut in two. */
  lemma SplitLinked(mem: Memory, start: nat, blocks: seq<Block>, k: nat, need: nat)
    requires Linked(mem, start, blocks) && start > 0
    requires k < |blocks| && blocks[k].free && need + MIN_SPLIT <= blocks[k].size
    ensures HeaderIs(mem, start, blocks, k)
    ensures var mid := [Block(need, true), Block(blocks[k].size - need - HEADER, true)];
      Linked(SplitWrites(mem, Addr(start, blocks, k), need), start, Replace(blocks, k, mid))
  {
    assert HeaderIs(mem, start, blocks, k);
    var mid := [Block(need, true), Block(blocks[k].size - need - HEADER, true)];
    var mem' := SplitWrites(mem, Addr(start, blocks, k), need);
    var new_ := Replace(blocks, k, mid);
    forall i: nat | i < |new_|
      ensures HeaderIs(mem', start, new_, i)
    {
      SplitHeader(mem, start, blocks, k, need, i);
    }
  }

  /** The writes that make the blocks at a and at its next neighbour one. */
  function MergeWrites(mem: Memory, a: nat, n: nat): Memory
    requires a in mem && n in mem
  {
    var mem1 := mem[a := mem[a].(payload := mem[a].payload + HEADER + mem[n].payload, next := mem[n].next)];
    Relink(mem1, mem[n].next, a)
  }

  lemma MergeAddresses(start: nat, blocks: seq<Block>, k: nat)
    requires k + 1 < |blocks|
    ensures forall j: nat :: j <= k ==> Addr(start, Merged(blocks, k), j) == Addr(start, blocks, j)
    ensures forall j: nat :: k < j < |blocks| ==> Addr(start, Merged(blocks, k), j) == Addr(start, blocks, j + 1)
  {
    var m, mid := Merged(blocks, k), [blocks[k], blocks[k + 1]];
    MergedBlocks(blocks, k);
    assert Addr(0, mid, 1) == HEADER + blocks[k].size;
    assert Addr(0, mid, 2) == HEADER + m[k].size;
    assert Replace(m, k, mid) == blocks;
    ReplaceKeepsAddresses(start, m, k, mid);
  }

  lemma MergeLinked(mem: Memory, start: nat, blocks: seq<Block>, k: nat)
    requires Linked(mem, start, blocks) && start > 0
    requires k + 1 < |blocks| && blocks[k].free && blocks[k + 1].free
    ensures HeaderIs(mem, start, blocks, k) && HeaderIs(mem, start, blocks, k + 1)
    ensures Linked(MergeWrites(mem, Addr(start, blocks, k), Addr(start, blocks, k + 1)), start, Merged(blocks, k))
  {
    assert HeaderIs(mem, start, blocks, k) && HeaderIs(mem, start, blocks, k + 1);
    var m := Merged(blocks, k);
    var mem' := MergeWrites(mem, Addr(start, blocks, k), Addr(start, blocks, k + 1));
    MergedBlocks(blocks, k);
    MergeAddresses(start, blocks, k);
    hide Addr, Merged;
    forall i: nat | i < |m|
      ensures HeaderIs(mem', start, m, i)
    {
      AddrDistinct(start, m, i, k);
      if k + 1 < |m| {
        AddrDistinct(start, m, i, k + 1);
        assert HeaderIs(mem, start, blocks, k + 2);
      }
      assert HeaderIs(mem, start, blocks, if i <= k then i else i + 1);
    }
  }

  lemma FlagAddresses(start: nat, blocks: seq<Block>, k: nat, free: bool)
    requires k < |blocks|
    ensures forall j: nat :: j <= |blocks| ==>
      Addr(start, blocks[k := Block(blocks[k].size, free)], j) == Addr(start, blocks, j)
  {
    var b := blocks[k := Block(blocks[k].size, free)];
    assert b == Replace(blocks, k, [b[k]]);
    SingleFills(b[k]);
    ReplaceKeepsAddresses(start, blocks, k, [b[k]]);
  }

  /** Writing a free flag changes that flag in the list. */
  lemma FlagLinked(mem: Memory, start: nat, blocks: seq<Block>, k: nat, free: bool)
    requires Linked(mem, start, blocks) && k < |blocks|
    ensures HeaderIs(mem, start, blocks, k)
    ensures var a := Addr(start, blocks, k);
      Linked(mem[a := mem[a].(free := free)], start, blocks[k := Block(blocks[k].size, free)])
  {
    assert HeaderIs(mem, start, blocks, k);
    var a := Addr(start, blocks, k);
    var b, mem' := blocks[k := Block(blocks[k].size, free)], mem[a := mem[a].(free := free)];
    FlagAddresses(start, blocks, k, free);
    hide Addr, SizeOk;
    forall i: nat | i < |b|
      ensures HeaderIs(mem', start, b, i)
    {
      AddrDistinct(start, blocks, i, k);
      assert HeaderIs(mem, start, blocks, i);
    }
  }

  /** The writes of expand_heap. */
  function ExpandWrites(mem: Memory, a: nat, bytes: nat): Memory
    requires a in mem && bytes >= HEADER
  {
    if mem[a].free then mem[a := mem[a].(payload := mem[a].payload + bytes)]
    else
      var n := a + HEADER + mem[a].payload;
      mem[n := Header(bytes - HEADER, 0, a, true)][a := mem[a].(next := n)]
  }

  lemma ExpandLinked(mem: Memory, h: HeapBlocks.Heap, pages: nat)
    requires Linked(mem, h.start, h.blocks) && WellFormed(h) && pages > 0
    ensures HeaderIs(mem, h.start, h.blocks, |h.blocks| - 1)
    ensures Linked(ExpandWrites(mem, Addr(h.start, h.blocks, |h.blocks| - 1), pages * 4096), h.start, Expand(h, pages).blocks)
  {
    var n, e := |h.blocks| - 1, Expand(h, pages);
    assert HeaderIs(mem, h.start, h.blocks, n);
    var a := Addr(h.start, h.blocks, n);
    var mem' := ExpandWrites(mem, a, pages * 4096);
    ExpandAddresses(h, pages);
    hide Addr, SizeOk;
    forall i: nat | i < |e.blocks|
      ensures HeaderIs(mem', h.start, e.blocks, i)
    {
      if i <= n {
        AddrDistinct(h.start, h.blocks, i, n);
        assert HeaderIs(mem, h.start, h.blocks, i);
      }
    }
  }

  lemma ExpandAddresses(h: HeapBlocks.Heap, pages: nat)
    requires WellFormed(h) && pages > 0
    ensures forall j: nat :: j < |h.blocks| ==> Addr(h.start, Expand(h, pages).blocks, j) == Addr(h.start, h.blocks, j)
    ensures var n := |h.blocks| - 1;
      !h.blocks[n].free ==>
        Addr(h.start, Expand(h, pages).blocks, n + 1) == Addr(h.start, h.blocks, n) + HEADER + h.blocks[n].size
  {
    var e, n := Expand(h, pages), |h.blocks| - 1;
    forall j: nat | j < |h.blocks|
      ensures Addr(h.start, e.blocks, j) == Addr(h.start, h.blocks, j)
    {
      if h.blocks[n].free {
        assert h.blocks == h.blocks[..n] + [h.blocks[n]];
        AddrPrefix(h.start, h.blocks[..n], [h.blocks[n]], j);
        AddrPrefix(h.start, h.blocks[..n], [e.blocks[n]], j);
      } else {
        AddrPrefix(h.start, h.blocks, [e.blocks[n + 1]], j);
      }
    }
    AddrStep(h.start, h.blocks, n);
    if !h.blocks[n].free { AddrStep(h.start, e.blocks, n); }
  }

  datatype Result = NullPointer | NoMemory | AssertionFailed | Payload(addr: nat)

  // ---- the heap ------------------------------------------------------------------------------

  class KernelHeap {
    var start: nat
    var end: nat
    var mem: Memory
    ghost var blocks: seq<Block>

    ghost predicate Valid()
      reads this
    {
      WellFormed(View()) && Linked(mem, start, blocks)
    }

    ghost function View(): HeapBlocks.Heap
      reads this
    {
      HeapBlocks.Heap(start, end, blocks)
    }

    /** heap_init, once four pages are mapped at KERNEL_HEAP. */
    constructor ()
      ensures Valid() && View() == HeapBlocks.Heap(0xFFFF_A000_0000_0000, 0xFFFF_A000_0000_4000, [Block(0x4000 - HEADER, true)])
    {
      start, end := 0xFFFF_A000_0000_0000, 0xFFFF_A000_0000_4000;
      mem := map[0xFFFF_A000_0000_0000 := Header(0x4000 - HEADER, 0, 0, true)];
      blocks := [Block(0x4000 - HEADER, true)];
      new;
      assert Addr(start, blocks, 0) == start;
      assert Addr(start, blocks, 1) == end;
    }

    /** find_free_block: the address of the first free block that fits, 0 if none. */
    method FindFreeBlock(minSize: nat) returns (a: nat, ghost k: nat)
      requires Valid()
      ensures k == FirstFit(blocks, minSize)
      ensures a == if k < |blocks| then Addr(start, blocks, k) else 0
    {
      hide FirstFit;
      a, k := start, 0;
      AddrDistinct(start, blocks, 0, 0);
      while a != 0
        invariant k <= |blocks| && a == if k < |blocks| then Addr(start, blocks, k) else 0
        invariant forall j :: 0 <= j < k ==> !(blocks[j].free && blocks[j].size >= minSize)
        decreases |blocks| - k
      {
        assert HeaderIs(mem, start, blocks, k);
        if mem[a].free && mem[a].payload >= minSize {
          FirstFitIs(blocks, minSize, k);
          return;
        }
        if k + 1 < |blocks| { AddrDistinct(start, blocks, k + 1, k + 1); }
        a, k := mem[a].next, k + 1;
      }
      if k < |blocks| { AddrDistinct(start, blocks, k, k); }
      FirstFitIs(blocks, minSize, k);
    }

    /** find_last_block */
    method FindLastBlock() returns (a: nat)
      requires Valid()
      ensures a == Addr(start, blocks, |blocks| - 1)
    {
      a := start;
      ghost var k := 0;
      assert HeaderIs(mem, start, blocks, 0);
      while mem[a].next != 0
        invariant k < |blocks| && a == Addr(start, blocks, k) && HeaderIs(mem, start, blocks, k)
        decreases |blocks| - k
      {
        assert HeaderIs(mem, start, blocks, k + 1);
        a, k := mem[a].next, k + 1;
      }
    }

    /** split_block: block k keeps `need` bytes, the rest becomes a free block after it. */
    method SplitBlock(a: nat, need: nat, ghost k: nat)
      requires Linked(mem, start, blocks) && start > 0
      requires k < |blocks| && a == Addr(start, blocks, k) && blocks[k].free && need + MIN_SPLIT <= blocks[k].size
      modifies `mem, `blocks
      ensures Linked(mem, start, blocks)
      ensures blocks == Replace(old(blocks), k, [Block(need, true), Block(old(blocks)[k].size - need - HEADER, true)])
    {
      SplitLinked(mem, start, blocks, k, need);
      ghost var writes := SplitWrites(mem, a, need);
      AddrStep(start, blocks, k);
      AddrDistinct(start, blocks, k, k);
      if k + 1 < |blocks| { assert HeaderIs(mem, start, blocks, k + 1); }
      hide Addr;
      var oldSize := mem[a].payload;
      mem := mem[a := mem[a].(payload := need)];
      var n := a + HEADER + need;
      var next := mem[a].next;
      if next != 0 { mem := mem[next := mem[next].(prev := n)]; }
      mem := mem[n := Header(oldSize - need - HEADER, next, a, true)];
      mem := mem[a := mem[a].(next := n)];
      assert mem == writes;
      blocks := Replace(blocks, k, [Block(need, true), Block(blocks[k].size - need - HEADER, true)]);
    }

    /** expand_heap, once the frame allocator has granted the pages. */
    method ExpandHeap(minSize: nat, ghost need: nat) returns (a: nat)
      requires Valid() && minSize == (HEADER + need) % 0x1_0000_0000_0000_0000
      requires end + PagesFor(need) * 4096 <= TOP
      modifies this
      ensures Valid() && View() == Expand(old(View()), PagesFor(need))
      ensures a == Addr(start, blocks, |blocks| - 1)
    {
      ghost var h, pages := View(), PagesFor(need);
      ExpandKeeps(h, pages);
      ExpandLinked(mem, h, pages);
      ExpandAddresses(h, pages);
      AddrStep(start, blocks, |blocks| - 1);
      hide Addr, WellFormed, Expand, PagesFor;
      var last := FindLastBlock();
      assert last + HEADER + mem[last].payload == end; // the ASSERT of the source
      var pageCount := CountPages(minSize, need);
      end := end + pageCount * 4096;
      if mem[last].free {
        mem := mem[last := mem[last].(payload := mem[last].payload + pageCount * 4096)];
        a := last;
      } else {
        a := last + HEADER + mem[last].payload;
        mem := mem[a := Header(pageCount * 4096 - HEADER, 0, last, true)];
        mem := mem[last := mem[last].(next := a)];
      }
      blocks := Expand(h, pages).blocks;
    }

    /** The end of kmalloc: cut the block if it is large enough, and mark it used. */
    method TakeAt(a: nat, need: nat, ghost k: nat)
      requires Linked(mem, start, blocks) && start > 0
      requires k < |blocks| && a == Addr(start, blocks, k) && blocks[k].free && need <= blocks[k].size
      modifies `mem, `blocks
      ensures Linked(mem, start, blocks) && blocks == Replace(old(blocks), k, Carve(old(blocks)[k], need))
    {
      ghost var before := blocks;
      CutThenMark(blocks, k, need);
      assert HeaderIs(mem, start, blocks, k);
      if mem[a].payload >= need + MIN_SPLIT {
        SplitAddresses(start, blocks, k, need);
        SplitBlock(a, need, k);
      }
      assert a == Addr(start, blocks, k);
      FlagLinked(mem, start, blocks, k, false);
      mem := mem[a := mem[a].(free := false)];
      blocks := blocks[k := Block(blocks[k].size, false)];
    }

    /**
     kmalloc.  `granted` says whether the frame allocator has the pages an
     expansion asks for; the result tells a null pointer and the two panics apart.
     */
    method Kmalloc(size: nat, granted: bool) returns (r: Result)
      requires Valid() && size < 0x1_0000_0000_0000_0000
      requires granted ==> end + PagesFor(AlignUp(size)) * 4096 <= TOP
      modifies this
      ensures match HeapBlocks.Kmalloc(old(View()), size, granted)
              case Null => r == NullPointer && View() == old(View())
              case OutOfMemory => r == NoMemory
              case AssertFails => r == AssertionFailed
              case Ptr(addr, heap) => r == Payload(addr) && View() == heap && Linked(mem, start, blocks)
      ensures r.NullPointer? || (r.Payload? && size <= 0x1_0000_0000_0000_0000 - 16) ==> Valid()
    {
      if size == 0 { return NullPointer; }
      var need := (size + 15) % 0x1_0000_0000_0000_0000 / 16 * 16;
      assert need == AlignUp(size);
      hide AlignUp, PagesFor, Addr;
      var a; ghost var k;
      a, k := FindOrExpand(need, granted);
      if a == 0 { return NoMemory; }
      assert HeaderIs(mem, start, blocks, k);
      if mem[a].payload < need { return AssertionFailed; }
      if size <= 0x1_0000_0000_0000_0000 - 16 {
        AlignUpFits(size);
        TakeKeeps(View(), k, need);
      }
      hide WellFormed;
      TakeAt(a, need, k);
      return Payload(a + HEADER);
    }

    /** A free block at a: the first that fits, or the last one after an expansion; 0 when that is refused. */
    method FindOrExpand(need: nat, granted: bool) returns (a: nat, ghost k: nat)
      requires Valid()
      requires granted ==> end + PagesFor(need) * 4096 <= TOP
      modifies this
      ensures Valid()
      ensures var fit := FirstFit(old(blocks), need);
        if fit < |old(blocks)| then View() == old(View()) && k == fit
        else if granted then View() == Expand(old(View()), PagesFor(need)) && k == |blocks| - 1
        else a == 0
      ensures a != 0 ==> k < |blocks| && a == Addr(start, blocks, k) && blocks[k].free
      ensures a == 0 ==> !granted && FirstFit(old(blocks), need) == |old(blocks)|
    {
      hide PagesFor, Addr;
      ghost var h := View();
      a, k := FindFreeBlock(need);
      if k < |blocks| { AddrDistinct(start, blocks, k, k); }
      if a == 0 && granted {
        ExpandKeeps(h, PagesFor(need));
        a := ExpandHeap((HEADER + need) % 0x1_0000_0000_0000_0000, need);
        k := |blocks| - 1;
        AddrDistinct(start, blocks, k, k);
      }
    }

    /** kfree of a live payload: the block is freed and merged with free neighbours. */
    method Kfree(addr: nat, ghost k: nat)
      requires Valid() && k < |blocks| && !blocks[k].free && addr == Addr(start, blocks, k) + HEADER
      modifies this
      ensures Valid() && View() == HeapBlocks.Kfree(old(View()), k)
    {
      ghost var h := View();
      KfreeKeeps(h, k);
      var a := addr - HEADER;
      FlagLinked(mem, start, blocks, k, true);
      FlagAddresses(start, blocks, k, true);
      mem := mem[a := mem[a].(free := true)];
      blocks := blocks[k := Block(blocks[k].size, true)];
      CoalesceNext(a, k);
      CoalescePrev(a, k);
    }

    method CoalesceNext(a: nat, ghost k: nat)
      requires Linked(mem, start, blocks) && start > 0
      requires k < |blocks| && a == Addr(start, blocks, k) && blocks[k].free
      modifies `mem, `blocks
      ensures Linked(mem, start, blocks) && blocks == MergeNext(old(blocks), k)
      ensures k < |blocks| && a == Addr(start, blocks, k) && blocks[k].free
    {
      assert HeaderIs(mem, start, blocks, k);
      if k + 1 < |blocks| {
        AddrDistinct(start, blocks, k + 1, k);
        assert HeaderIs(mem, start, blocks, k + 1);
        if k + 2 < |blocks| { AddrDistinct(start, blocks, k + 2, k); assert HeaderIs(mem, start, blocks, k + 2); }
      }
      hide Addr;
      var n := mem[a].next;
      if n != 0 && mem[n].free {
        MergeLinked(mem, start, blocks, k);
        MergeAddresses(start, blocks, k);
        MergedBlocks(blocks, k);
        ghost var writes := MergeWrites(mem, a, n);
        mem := mem[a := mem[a].(payload := mem[a].payload + HEADER + mem[n].payload)];
        mem := mem[a := mem[a].(next := mem[n].next)];
        if mem[a].next != 0 { mem := mem[mem[a].next := mem[mem[a].next].(prev := a)]; }
        assert mem == writes;
        blocks := Merged(blocks, k);
      }
    }

    method CoalescePrev(a: nat, ghost k: nat)
      requires Linked(mem, start, blocks) && start > 0
      requires k < |blocks| && a == Addr(start, blocks, k) && blocks[k].free
      modifies `mem, `blocks
      ensures Linked(mem, start, blocks) && blocks == MergePrev(old(blocks), k)
    {
      assert HeaderIs(mem, start, blocks, k);
      if k > 0 {
        AddrDistinct(start, blocks, k - 1, k);
        assert HeaderIs(mem, start, blocks, k - 1);
        if k + 1 < |blocks| { AddrDistinct(start, blocks, k + 1, k); assert HeaderIs(mem, start, blocks, k + 1); }
      }
      hide Addr;
      var p := mem[a].prev;
      if p != 0 && mem[p].free {
        MergeLinked(mem, start, blocks, k - 1);
        ghost var writes := MergeWrites(mem, p, a);
        mem := mem[p := mem[p].(payload := mem[p].payload + HEADER + mem[a].payload)];
        mem := mem[p := mem[p].(next := mem[a].next)];
        if mem[a].next != 0 { mem := mem[mem[a].next := mem[mem[a].next].(prev := mem[a].prev)]; }
        assert mem == writes;
        blocks := Merged(blocks, k - 1);
      }
    }

    method CountPages(minSize: nat, ghost need: nat) returns (pageCount: nat)
      requires minSize == (HEADER + need) % 0x1_0000_0000_0000_0000
      ensures pageCount == PagesFor(need)
    {
      var minPages := (minSize + 4095) % 0x1_0000_0000_0000_0000 / 4096;
      pageCount := if 1 > minPages then 1 else minPages;
    }
  }

  /** Cutting a free block and then marking its first part used is what Carve describes. */
  lemma CutThenMark(blocks: seq<Block>, k: nat, need: nat)
    requires k < |blocks| && need <= blocks[k].size
    ensures var cut := if blocks[k].size >= need + MIN_SPLIT
                       then Replace(blocks, k, [Block(need, true), Block(blocks[k].size - need - HEADER, true)])
                       else blocks;
      k < |cut| && cut[k := Block(cut[k].size, false)] == Replace(blocks, k, Carve(blocks[k], need))
  {
    if blocks[k].size >= need + MIN_SPLIT {
      var mid := [Block(need, true), Block(blocks[k].size - need - HEADER, true)];
      var cut := Replace(blocks, k, mid);
      assert cut[k] == Block(need, true);
      assert cut[k := Block(need, false)] == Replace(blocks, k, Carve(blocks[k], need));
    } else {
      assert blocks[k := Block(blocks[k].size, false)] == Replace(blocks, k, [Block(blocks[k].size, false)]);
    }
  }

  lemma FirstFitIs(blocks: seq<Block>, need: nat, k: nat)
    requires k <= |blocks| && (k < |blocks| ==> blocks[k].free && blocks[k].size >= need)
    requires forall j :: 0 <= j < k ==> !(blocks[j].free && blocks[j].size >= need)
    ensures FirstFit(blocks, need) == k
  {}
}
