/**
 The kernel heap of kernel/memory/heap.c as a list of blocks that tile an
 address range: first fit, split, expand and two-sided coalescing.  KernelHeap
 in Heap.dfy keeps the same list as linked headers in memory.
 */
module HeapBlocks {
  datatype Block = Block(size: nat, free: bool)

  datatype Heap = Heap(start: nat, end: nat, blocks: seq<Block>)

  const HEADER: nat := 32             // sizeof(heap_block)
  const MIN_SPLIT: nat := 48          // align_up(sizeof(heap_block) + 1)
  const TOP: nat := 0xFFFF_B000_0000_0000 // the heap window ends where the kernel stack window starts

  /** The address of block k's header. */
  function Addr(start: nat, blocks: seq<Block>, k: nat): nat
    requires k <= |blocks|
  {
    if k == 0 then start else Addr(start, blocks, k - 1) + HEADER + blocks[k - 1].size
  }

  predicate SizeOk(n: nat) { n > 0 && n % 16 == 0 }

  lemma SizeOkSums(a: nat, b: nat, pages: nat)
    requires SizeOk(a)
    ensures a >= 16 && SizeOk(a + pages * 4096) && (pages > 0 ==> SizeOk(pages * 4096 - HEADER))
    ensures SizeOk(b) ==> SizeOk(a + HEADER + b)
    ensures SizeOk(b) && b >= a + MIN_SPLIT ==> SizeOk(b - a - HEADER)
  {}

  ghost predicate SizesOk(blocks: seq<Block>) {
    forall k :: 0 <= k < |blocks| ==> SizeOk(blocks[k].size)
  }

  ghost predicate Coalesced(blocks: seq<Block>) {
    forall k :: 0 <= k < |blocks| - 1 ==> !(blocks[k].free && blocks[k + 1].free)
  }

  /** Blocks tile [start, end), payloads are positive multiples of 16, no two neighbours are free. */
  ghost predicate WellFormed(h: Heap) {
    && 0 < |h.blocks| && 0 < h.start && h.start % 4096 == 0 && h.end % 4096 == 0 && h.end <= TOP
    && TOP - h.start <= 0x1000_0000_0000
    && Addr(h.start, h.blocks, |h.blocks|) == h.end
    && SizesOk(h.blocks) && Coalesced(h.blocks)
  }

  // ---- addresses -------------------------------------------------------------------

  lemma {:induction false} AddrConcat(start: nat, a: seq<Block>, b: seq<Block>, k: nat)
    requires k <= |b|
    ensures Addr(start, a + b, |a| + k) == Addr(Addr(start, a, |a|), b, k)
  {
    if k == 0 {
      AddrPrefix(start, a, b, |a|);
    } else {
      AddrConcat(start, a, b, k - 1);
      assert (a + b)[|a| + k - 1] == b[k - 1];
    }
  }

  lemma {:induction false} AddrPrefix(start: nat, a: seq<Block>, b: seq<Block>, k: nat)
    requires k <= |a|
    ensures Addr(start, a + b, k) == Addr(start, a, k)
  {
    if k > 0 {
      AddrPrefix(start, a, b, k - 1);
    }
  }

  /** Addresses grow by at least a header and 16 bytes per block. */
  lemma {:induction false} AddrGrows(start: nat, blocks: seq<Block>, i: nat, k: nat)
    requires i <= k <= |blocks| && SizesOk(blocks)
    ensures Addr(start, blocks, i) + (k - i) * 48 <= Addr(start, blocks, k)
  {
    if i < k {
      AddrGrows(start, blocks, i, k - 1);
      SizeOkSums(blocks[k - 1].size, 0, 0);
      hide SizeOk;
    }
  }

  lemma {:induction false} AddrAligned(start: nat, blocks: seq<Block>, k: nat)
    requires k <= |blocks| && SizesOk(blocks) && start % 16 == 0
    ensures Addr(start, blocks, k) % 16 == 0
  {
    if k > 0 {
      AddrAligned(start, blocks, k - 1);
    }
  }

  lemma PageIsAligned(n: nat)
    requires n % 4096 == 0
    ensures n % 16 == 0
  {
    var q := n / 4096;
    assert n == 4096 * q;
    MultipleIsAligned(256 * q);
  }

  lemma MultipleIsAligned(z: nat)
    ensures (16 * z) % 16 == 0
  {}

  lemma AddrStep(start: nat, blocks: seq<Block>, k: nat)
    requires k < |blocks|
    ensures Addr(start, blocks, k + 1) == Addr(start, blocks, k) + HEADER + blocks[k].size
    ensures Addr(start, blocks, 0) == start
  {}

  lemma BlocksDisjoint(start: nat, blocks: seq<Block>, i: nat, k: nat)
    requires SizesOk(blocks) && i < k < |blocks|
    ensures start <= Addr(start, blocks, i)
    ensures Addr(start, blocks, i) + HEADER + blocks[i].size <= Addr(start, blocks, k)
    ensures Addr(start, blocks, k) + HEADER + blocks[k].size <= Addr(start, blocks, |blocks|)
  {
    hide SizeOk, Addr;
    AddrStep(start, blocks, i);
    AddrStep(start, blocks, k);
    AddrGrows(start, blocks, 0, i);
    AddrGrows(start, blocks, i + 1, k);
    AddrGrows(start, blocks, k + 1, |blocks|);
  }

  /** Payloads of different blocks are disjoint, in the range, and 16-aligned. */
  lemma PayloadsDisjoint(h: Heap, i: nat, k: nat)
    requires WellFormed(h) && i < k < |h.blocks|
    ensures h.start <= Addr(h.start, h.blocks, i)
    ensures Addr(h.start, h.blocks, i) + HEADER + h.blocks[i].size <= Addr(h.start, h.blocks, k)
    ensures Addr(h.start, h.blocks, k) + HEADER + h.blocks[k].size <= h.end
    ensures Addr(h.start, h.blocks, i) % 16 == 0 && Addr(h.start, h.blocks, k) % 16 == 0
  {
    BlocksDisjoint(h.start, h.blocks, i, k);
    PageIsAligned(h.start);
    AddrAligned(h.start, h.blocks, i);
    AddrAligned(h.start, h.blocks, k);
    hide Addr, SizesOk, Coalesced;
  }

  // ---- kmalloc -------------------------------------------------------------------------

  /** align_up on 64-bit values: it wraps to 0 above 2^64 - 16. */
  function AlignUp(size: nat): nat { (size + 15) % 0x1_0000_0000_0000_0000 / 16 * 16 }

  /** find_free_block: the first free block that fits, or |blocks|. */
  function FirstFit(blocks: seq<Block>, need: nat): (k: nat)
    ensures k <= |blocks|
    ensures k < |blocks| ==> blocks[k].free && blocks[k].size >= need
    ensures forall j :: 0 <= j < k ==> !(blocks[j].free && blocks[j].size >= need)
  {
    if |blocks| == 0 then 0
    else if blocks[0].free && blocks[0].size >= need then 0
    else
      var k := FirstFit(blocks[1..], need);
      assert forall j :: 1 <= j < |blocks| ==> blocks[j] == blocks[1..][j - 1];
      k + 1
  }

  /** What a found block becomes: split when a header and 16 bytes are left over. */
  function Carve(b: Block, need: nat): seq<Block>
    requires need <= b.size
  {
    if b.size >= need + MIN_SPLIT then [Block(need, false), Block(b.size - need - HEADER, true)]
    else [Block(b.size, false)]
  }

  function Replace(blocks: seq<Block>, k: nat, mid: seq<Block>): seq<Block>
    requires k < |blocks|
  {
    blocks[..k] + mid + blocks[k + 1..]
  }

  function TakeBlock(h: Heap, k: nat, need: nat): Heap
    requires k < |h.blocks| && need <= h.blocks[k].size
  {
    Heap(h.start, h.end, Replace(h.blocks, k, Carve(h.blocks[k], need)))
  }

  /** The pages expand_heap asks for, in 64-bit arithmetic; at least HEAP_EXPAND_PAGES. */
  function PagesFor(need: nat): (pages: nat)
    ensures pages >= 1
  {
    var minSize := (HEADER + need) % 0x1_0000_0000_0000_0000;
    var pages := (minSize + 4095) % 0x1_0000_0000_0000_0000 / 4096;
    if 1 > pages then 1 else pages
  }

  function Expand(h: Heap, pages: nat): Heap
    requires 0 < |h.blocks| && 0 < pages
  {
    var n := |h.blocks| - 1;
    Heap(h.start, h.end + pages * 4096,
         if h.blocks[n].free then h.blocks[..n] + [Block(h.blocks[n].size + pages * 4096, true)]
         else h.blocks + [Block(pages * 4096 - HEADER, true)])
  }

  /** Null for size 0; the two panics; or a payload pointer and the new heap. */
  datatype Outcome = Null | OutOfMemory | AssertFails | Ptr(addr: nat, heap: Heap)

  /** kmalloc; `granted` says whether the frame allocator has the pages expand_heap asks for. */
  function Kmalloc(h: Heap, size: nat, granted: bool): Outcome
    requires 0 < |h.blocks|
  {
    if size == 0 then Null else
      var need := AlignUp(size);
      var k := FirstFit(h.blocks, need);
      if k < |h.blocks| then Ptr(Addr(h.start, h.blocks, k) + HEADER, TakeBlock(h, k, need))
      else if !granted then OutOfMemory
      else
        var e := Expand(h, PagesFor(need));
        var n := |e.blocks| - 1;
        if e.blocks[n].size < need then AssertFails
        else Ptr(Addr(e.start, e.blocks, n) + HEADER, TakeBlock(e, n, need))
  }

  // ---- kfree ------------------------------------------------------------------------------

  /** Blocks k and k + 1 made one, free. */
  function Merged(blocks: seq<Block>, k: nat): seq<Block>
    requires k + 1 < |blocks|
  {
    blocks[..k] + [Block(blocks[k].size + HEADER + blocks[k + 1].size, true)] + blocks[k + 2..]
  }

  function MergeNext(blocks: seq<Block>, k: nat): seq<Block>
    requires k < |blocks|
  {
    if k + 1 < |blocks| && blocks[k + 1].free then Merged(blocks, k) else blocks
  }

  function MergePrev(blocks: seq<Block>, k: nat): seq<Block>
    requires k < |blocks|
  {
    if k > 0 && blocks[k - 1].free then Merged(blocks, k - 1) else blocks
  }

  function FreeBlock(blocks: seq<Block>, k: nat): seq<Block>
    requires k < |blocks|
  {
    MergePrev(MergeNext(blocks[k := Block(blocks[k].size, true)], k), k)
  }

  function Kfree(h: Heap, k: nat): Heap
    requires k < |h.blocks|
  {
    Heap(h.start, h.end, FreeBlock(h.blocks, k))
  }

  // ---- what they keep ------------------------------------------------------------------------

  lemma AlignUpFits(size: nat)
    requires 0 < size <= 0x1_0000_0000_0000_0000 - 16
    ensures size <= AlignUp(size) < size + 16 && AlignUp(size) % 16 == 0 && AlignUp(size) > 0
  {}

  lemma AlignUpWraps(size: nat)
    requires 0x1_0000_0000_0000_0000 - 16 < size < 0x1_0000_0000_0000_0000
    ensures AlignUp(size) == 0
  {
    assert (size + 15) % 0x1_0000_0000_0000_0000 == size + 15 - 0x1_0000_0000_0000_0000;
  }

  /** Replacing block k by blocks that fill the same space moves no other block. */
  lemma ReplaceKeepsAddresses(start: nat, blocks: seq<Block>, k: nat, mid: seq<Block>)
    requires k < |blocks| && Addr(0, mid, |mid|) == HEADER + blocks[k].size
    ensures forall j: nat :: j <= k ==> Addr(start, Replace(blocks, k, mid), j) == Addr(start, blocks, j)
    ensures forall j: nat :: k < j <= |blocks| ==>
      Addr(start, Replace(blocks, k, mid), j + |mid| - 1) == Addr(start, blocks, j)
  {
    var r := Replace(blocks, k, mid);
    forall j: nat | j <= k
      ensures Addr(start, r, j) == Addr(start, blocks, j)
    {
      assert r == blocks[..k] + (mid + blocks[k + 1..]) && blocks == blocks[..k] + blocks[k..];
      AddrPrefix(start, blocks[..k], mid + blocks[k + 1..], j);
      AddrPrefix(start, blocks[..k], blocks[k..], j);
    }
    forall j: nat | k < j <= |blocks|
      ensures Addr(start, r, j + |mid| - 1) == Addr(start, blocks, j)
    {
      AddrAfterReplace(start, blocks, k, mid, j);
    }
  }

  lemma SplitAt(blocks: seq<Block>, k: nat, mid: seq<Block>)
    requires k < |blocks|
    ensures Replace(blocks, k, mid) == blocks[..k] + (mid + blocks[k + 1..])
    ensures blocks == blocks[..k] + blocks[k..] && blocks == blocks[..k] + ([blocks[k]] + blocks[k + 1..])
  {}

  lemma AddrAfterReplace(start: nat, blocks: seq<Block>, k: nat, mid: seq<Block>, j: nat)
    requires k < j <= |blocks| && Addr(0, mid, |mid|) == HEADER + blocks[k].size
    ensures Addr(start, Replace(blocks, k, mid), j + |mid| - 1) == Addr(start, blocks, j)
  {
    hide Addr, Replace;
    var a, x, b := blocks[..k], [blocks[k]], blocks[k + 1..];
    SplitAt(blocks, k, mid);
    var s, i := Addr(start, a, k), j - k - 1;
    SingleFills(blocks[k]);
    AddrShift(0, s, mid, |mid|);
    AddrShift(0, s, x, 1);
    AddrConcat(start, a, mid + b, |mid| + i);
    AddrConcat(start, a, x + b, 1 + i);
    AddrConcat(s, mid, b, i);
    AddrConcat(s, x, b, i);
  }

  lemma {:induction false} AddrShift(s: nat, d: nat, blocks: seq<Block>, k: nat)
    requires k <= |blocks|
    ensures Addr(s + d, blocks, k) == Addr(s, blocks, k) + d
  {
    if k > 0 {
      AddrShift(s, d, blocks, k - 1);
    }
  }

  lemma CarveFills(b: Block, need: nat)
    requires need <= b.size
    ensures Addr(0, Carve(b, need), |Carve(b, need)|) == HEADER + b.size
  {
    var c := Carve(b, need);
    assert Addr(0, c, 1) == HEADER + c[0].size;
  }

  lemma ReplaceAt(blocks: seq<Block>, k: nat, mid: seq<Block>, i: nat)
    requires k < |blocks| && i < |Replace(blocks, k, mid)|
    ensures Replace(blocks, k, mid)[i] ==
      if i < k then blocks[i] else if i < k + |mid| then mid[i - k] else blocks[i - |mid| + 1]
  {}

  /** Taking a fitting free block keeps the tiling, and no other block moves or shrinks. */
  lemma TakeKeeps(h: Heap, k: nat, need: nat)
    requires WellFormed(h) && k < |h.blocks| && h.blocks[k].free && need <= h.blocks[k].size
    requires SizeOk(need)
    ensures WellFormed(TakeBlock(h, k, need))
  {
    SizeOkSums(need, h.blocks[k].size, 0);
    hide SizeOk;
    var mid := Carve(h.blocks[k], need);
    var new_ := Replace(h.blocks, k, mid);
    CarveFills(h.blocks[k], need);
    ReplaceKeepsAddresses(h.start, h.blocks, k, mid);
    assert |new_| == |h.blocks| + |mid| - 1;
    forall i | 0 <= i < |new_|
      ensures SizeOk(new_[i].size)
      ensures i < |new_| - 1 ==> !(new_[i].free && new_[i + 1].free)
    {
      ReplaceAt(h.blocks, k, mid, i);
      if i < |new_| - 1 { ReplaceAt(h.blocks, k, mid, i + 1); }
    }
  }

  /** Expanding keeps the tiling; the last block is then free and no other block changes. */
  lemma ExpandKeeps(h: Heap, pages: nat)
    requires WellFormed(h) && 0 < pages && h.end + pages * 4096 <= TOP
    ensures WellFormed(Expand(h, pages))
    ensures var e := Expand(h, pages); e.blocks[|e.blocks| - 1].free
  {
    var n := |h.blocks| - 1;
    var a := h.blocks[..n];
    SizeOkSums(h.blocks[n].size, 0, pages);
    hide SizeOk;
    assert h.blocks == a + [h.blocks[n]];
    var e := Expand(h, pages);
    if h.blocks[n].free {
      AddrPrefix(h.start, a, [h.blocks[n]], n);
      AddrPrefix(h.start, a, [e.blocks[n]], n);
    } else {
      AddrPrefix(h.start, h.blocks, [e.blocks[n + 1]], n + 1);
    }
    forall i | 0 <= i < |e.blocks|
      ensures SizeOk(e.blocks[i].size)
      ensures i < |e.blocks| - 1 ==> !(e.blocks[i].free && e.blocks[i + 1].free)
    {
      if i < n - 1 { assert e.blocks[i] == h.blocks[i] && e.blocks[i + 1] == h.blocks[i + 1]; }
      if i == n - 1 { assert e.blocks[i] == h.blocks[i]; }
    }
  }

  lemma MergedBlocks(blocks: seq<Block>, k: nat)
    requires k + 1 < |blocks|
    ensures |Merged(blocks, k)| == |blocks| - 1
    ensures forall i :: 0 <= i < k ==> Merged(blocks, k)[i] == blocks[i]
    ensures Merged(blocks, k)[k] == Block(blocks[k].size + HEADER + blocks[k + 1].size, true)
    ensures forall i :: k < i < |blocks| - 1 ==> Merged(blocks, k)[i] == blocks[i + 1]
  {}

  lemma MergedSizes(blocks: seq<Block>, k: nat)
    requires k + 1 < |blocks| && SizesOk(blocks)
    ensures SizesOk(Merged(blocks, k))
  {
    MergedBlocks(blocks, k);
    SizeOkSums(blocks[k].size, blocks[k + 1].size, 0);
    hide Merged, SizeOk;
  }

  lemma MergedEnd(start: nat, blocks: seq<Block>, k: nat)
    requires k + 1 < |blocks|
    ensures Addr(start, Merged(blocks, k), |Merged(blocks, k)|) == Addr(start, blocks, |blocks|)
  {
    hide Addr, Merged;
    var a, x, y, b := blocks[..k], blocks[k], blocks[k + 1], blocks[k + 2..];
    var m := Block(x.size + HEADER + y.size, true);
    var s := Addr(start, a, k);
    MergedParts(blocks, k);
    AddrConcat(start, a, [m] + b, 1 + |b|);
    AddrConcat(start, a, [x, y] + b, 2 + |b|);
    AddrConcat(s, [m], b, |b|);
    AddrConcat(s, [x, y], b, |b|);
    AddrStep(s, [m], 0);
    AddrStep(s, [x, y], 0);
    AddrStep(s, [x, y], 1);
  }

  lemma MergedParts(blocks: seq<Block>, k: nat)
    requires k + 1 < |blocks|
    ensures Merged(blocks, k) == blocks[..k] + ([Block(blocks[k].size + HEADER + blocks[k + 1].size, true)] + blocks[k + 2..])
    ensures blocks == blocks[..k] + ([blocks[k], blocks[k + 1]] + blocks[k + 2..])
  {}

  /** Free neighbours are allowed on the given sides of block k only. */
  ghost predicate CoalescedExcept(blocks: seq<Block>, left: bool, right: bool, k: nat) {
    forall i :: 0 <= i < |blocks| - 1 && blocks[i].free && blocks[i + 1].free ==> (left && i + 1 == k) || (right && i == k)
  }

  lemma MergedCoalesced(blocks: seq<Block>, k: nat, left: bool)
    requires k + 1 < |blocks| && blocks[k].free && blocks[k + 1].free && CoalescedExcept(blocks, left, true, k)
    ensures CoalescedExcept(Merged(blocks, k), left, false, k)
  {
    MergedBlocks(blocks, k);
    var r := Merged(blocks, k);
    hide Merged;
    forall i | 0 <= i < |r| - 1 && r[i].free && r[i + 1].free
      ensures left && i + 1 == k
    {
      var j := if i < k then i else i + 1;
      assert blocks[j].free && blocks[j + 1].free;
    }
  }

  /** Frees and merges: the space tiled and the absence of free neighbours are kept. */
  lemma FreeBlockKeeps(start: nat, blocks: seq<Block>, k: nat)
    requires SizesOk(blocks) && Coalesced(blocks) && k < |blocks| && !blocks[k].free
    ensures var r := FreeBlock(blocks, k);
      |r| > 0 && SizesOk(r) && Coalesced(r) && Addr(start, r, |r|) == Addr(start, blocks, |blocks|)
  {
    var b0 := blocks[k := Block(blocks[k].size, true)];
    FreedEnd(start, blocks, k);
    hide SizeOk, Addr, Merged;
    assert SizesOk(b0);
    assert CoalescedExcept(b0, true, true, k);
    NextMerged(start, b0, k);
    PrevMerged(start, MergeNext(b0, k), k);
  }

  lemma NextMerged(start: nat, blocks: seq<Block>, k: nat)
    requires k < |blocks| && blocks[k].free && SizesOk(blocks) && CoalescedExcept(blocks, true, true, k)
    ensures var r := MergeNext(blocks, k);
      && k < |r| && r[k].free && SizesOk(r) && CoalescedExcept(r, true, false, k)
      && Addr(start, r, |r|) == Addr(start, blocks, |blocks|)
  {
    hide Addr, SizeOk;
    if k + 1 < |blocks| && blocks[k + 1].free {
      MergedBlocks(blocks, k);
      MergedSizes(blocks, k);
      MergedEnd(start, blocks, k);
      MergedCoalesced(blocks, k, true);
      hide SizesOk, CoalescedExcept;
    }
    hide Merged;
  }

  lemma PrevMerged(start: nat, blocks: seq<Block>, k: nat)
    requires k < |blocks| && blocks[k].free && SizesOk(blocks) && CoalescedExcept(blocks, true, false, k)
    ensures var r := MergePrev(blocks, k);
      |r| > 0 && SizesOk(r) && Coalesced(r) && Addr(start, r, |r|) == Addr(start, blocks, |blocks|)
  {
    hide Addr, SizeOk;
    if k > 0 && blocks[k - 1].free {
      MergedBlocks(blocks, k - 1);
      MergedSizes(blocks, k - 1);
      MergedEnd(start, blocks, k - 1);
      assert CoalescedExcept(blocks, false, true, k - 1);
      MergedCoalesced(blocks, k - 1, false);
      hide SizesOk;
    }
    hide Merged;
  }

  lemma KfreeKeeps(h: Heap, k: nat)
    requires WellFormed(h) && k < |h.blocks| && !h.blocks[k].free
    ensures WellFormed(Kfree(h, k))
  {
    FreeBlockKeeps(h.start, h.blocks, k);
    hide FreeBlock, Addr, SizesOk, Coalesced;
  }

  lemma FreedEnd(start: nat, blocks: seq<Block>, k: nat)
    requires k < |blocks|
    ensures var b0 := blocks[k := Block(blocks[k].size, true)];
      Addr(start, b0, |b0|) == Addr(start, blocks, |blocks|)
  {
    var b0 := blocks[k := Block(blocks[k].size, true)];
    assert b0 == Replace(blocks, k, [b0[k]]);
    SingleFills(b0[k]);
    ReplaceKeepsAddresses(start, blocks, k, [b0[k]]);
  }

  lemma SingleFills(b: Block)
    ensures Addr(0, [b], 1) == HEADER + b.size
  {
    assert Addr(0, [b], 0) == 0;
  }
}
