/**
 kernel/memory/pmm.c: the frame allocator on a byte bitmap.  Every method is
 tied to the value-level allocator of module PhysicalFrames through `View`.
 */
module Pmm {
  import opened Options
  import opened PhysicalFrames
  import Division

  predicate Bit(b: bv8, k: nat)
    requires k < 8
  {
    (b >> k) & 1 == 1
  }

  function WithBit(b: bv8, k: nat): bv8
    requires k < 8
  {
    b | ((1 as bv8) << k)
  }

  function WithoutBit(b: bv8, k: nat): bv8
    requires k < 8
  {
    b & !((1 as bv8) << k)
  }

  function Mask(k: nat): bv8
    requires k < 8
  {
    [1, 2, 4, 8, 16, 32, 64, 128][k]
  }

  lemma ShiftIsMask(k: nat)
    requires k < 8
    ensures (1 as bv8) << k == Mask(k)
  {}

  lemma BitIsMask(b: bv8, j: nat)
    requires j < 8
    ensures Bit(b, j) <==> b & Mask(j) != 0
  {}

  lemma SetBit(b: bv8, k: nat, j: nat)
    requires k < 8 && j < 8
    ensures Bit(WithBit(b, k), j) <==> (j == k || Bit(b, j))
  {
    hide Bit;
    ShiftIsMask(k);
    BitIsMask(b, j);
    BitIsMask(WithBit(b, k), j);
  }

  lemma ClearBit(b: bv8, k: nat, j: nat)
    requires k < 8 && j < 8
    ensures Bit(WithoutBit(b, k), j) <==> (j != k && Bit(b, j))
  {
    hide Bit;
    ShiftIsMask(k);
    BitIsMask(b, j);
    BitIsMask(WithoutBit(b, k), j);
  }

  lemma AllOnes(j: nat)
    requires j < 8
    ensures Bit(0xFF, j)
  {}

  /** The first n bits of a byte string, least significant bit first. */
  function BitsOf(bytes: seq<bv8>, n: nat): (s: seq<bool>)
    requires n <= 8 * |bytes|
    ensures |s| == n
    ensures forall i :: 0 <= i < n ==> s[i] == Bit(bytes[i / 8], i % 8)
  {
    seq(n, i requires 0 <= i < n => Bit(bytes[i / 8], i % 8))
  }

  /** A byte that differs from the one before in one bit changes that bit of the string. */
  lemma BitsOfUpdate(bytes: seq<bv8>, n: nat, bit: nat, value: bv8, on: bool)
    requires bit < n <= 8 * |bytes|
    requires forall j :: 0 <= j < 8 ==> Bit(value, j) == if j == bit % 8 then on else Bit(bytes[bit / 8], j)
    ensures BitsOf(bytes[bit / 8 := value], n) == BitsOf(bytes, n)[bit := on]
  {
    hide Bit;
    var after := bytes[bit / 8 := value];
    forall i | 0 <= i < n
      ensures BitsOf(after, n)[i] == BitsOf(bytes, n)[bit := on][i]
    {
      assert i / 8 == bit / 8 && i % 8 == bit % 8 ==> i == bit;
    }
  }

  lemma BitsOfSet(bytes: seq<bv8>, n: nat, bit: nat)
    requires bit < n <= 8 * |bytes|
    ensures BitsOf(bytes[bit / 8 := WithBit(bytes[bit / 8], bit % 8)], n) == BitsOf(bytes, n)[bit := true]
  {
    hide Bit, BitsOf, WithBit, WithoutBit;
    var k := bit % 8;
    forall j | 0 <= j < 8
      ensures Bit(WithBit(bytes[bit / 8], k), j) == if j == k then true else Bit(bytes[bit / 8], j)
    {
      SetBit(bytes[bit / 8], k, j);
    }
    BitsOfUpdate(bytes, n, bit, WithBit(bytes[bit / 8], k), true);
  }

  lemma BitsOfClear(bytes: seq<bv8>, n: nat, bit: nat)
    requires bit < n <= 8 * |bytes|
    ensures BitsOf(bytes[bit / 8 := WithoutBit(bytes[bit / 8], bit % 8)], n) == BitsOf(bytes, n)[bit := false]
  {
    hide Bit, BitsOf, WithBit, WithoutBit;
    var k := bit % 8;
    forall j | 0 <= j < 8
      ensures Bit(WithoutBit(bytes[bit / 8], k), j) == if j == k then false else Bit(bytes[bit / 8], j)
    {
      ClearBit(bytes[bit / 8], k, j);
    }
    BitsOfUpdate(bytes, n, bit, WithoutBit(bytes[bit / 8], k), false);
  }

  lemma PageAddress(i: nat)
    ensures i * PAGE_SIZE / PAGE_SIZE == i && i * PAGE_SIZE % PAGE_SIZE == 0
  {
    Division.Unique(i * PAGE_SIZE, PAGE_SIZE, i, 0);
  }

  /** An entry of the firmware memory map; kind 7 is conventional memory. */
  datatype Descriptor = Descriptor(kind: nat, start: nat, pages: nat)

  predicate Covers(d: Descriptor, page: nat) {
    d.kind == 7 && d.start / PAGE_SIZE <= page < d.start / PAGE_SIZE + d.pages
  }

  predicate Conventional(memoryMap: seq<Descriptor>, page: nat) {
    exists k :: 0 <= k < |memoryMap| && Covers(memoryMap[k], page)
  }

  lemma ConventionalStep(memoryMap: seq<Descriptor>, k: nat, page: nat)
    requires k < |memoryMap|
    ensures Conventional(memoryMap[..k + 1], page) <==>
      Conventional(memoryMap[..k], page) || Covers(memoryMap[k], page)
  {
    assert forall j :: 0 <= j < k ==> memoryMap[..k + 1][j] == memoryMap[..k][j] == memoryMap[j];
    assert memoryMap[..k + 1][k] == memoryMap[k];
    if Conventional(memoryMap[..k], page) {
      var j :| 0 <= j < k && Covers(memoryMap[..k][j], page);
      assert Covers(memoryMap[..k + 1][j], page);
    }
  }

  /** No clear run of n frames lies inside [lo, i). */
  ghost predicate NoRun(bits: seq<bool>, lo: nat, i: nat, n: nat) {
    forall s: nat :: lo <= s && s + n <= i ==> !ClearRun(bits, s, n)
  }

  /** bits[i - current .. i) is the longest clear stretch that ends at i. */
  ghost predicate Stretch(bits: seq<bool>, lo: nat, i: nat, current: nat) {
    && lo + current <= i <= |bits|
    && (forall j :: i - current <= j < i ==> !bits[j])
    && (lo + current < i ==> bits[i - current - 1])
  }

  lemma NoRunStep(bits: seq<bool>, lo: nat, i: nat, current: nat, n: nat)
    requires NoRun(bits, lo, i, n) && Stretch(bits, lo, i, current) && i < |bits| && 0 < n
    requires bits[i] || current + 1 < n
    ensures NoRun(bits, lo, i + 1, n)
  {
    forall s: nat | lo <= s && s + n == i + 1
      ensures !ClearRun(bits, s, n)
    {
      if bits[i] {
        assert s <= i < s + n;
      } else {
        assert s <= i - current - 1 < s + n;
      }
    }
  }

  lemma StretchStep(bits: seq<bool>, lo: nat, i: nat, current: nat)
    requires Stretch(bits, lo, i, current) && i < |bits|
    ensures Stretch(bits, lo, i + 1, if bits[i] then 0 else current + 1)
  {}

  /** The 32-bit counter equals count exactly when the stretch has the length looked for. */
  lemma CounterMeets(current: nat, count: nat)
    requires count < UINT32 && current < RunNeeded(count)
    ensures Wrap32(current + 1) == count <==> current + 1 == RunNeeded(count)
    ensures Wrap32(current + 1) != count ==> Wrap32(current + 1) == current + 1
  {}

  lemma FirstRunFound(bits: seq<bool>, lo: nat, hi: nat, n: nat, first: nat)
    requires lo <= first && first + n <= hi <= |bits| && 0 < n
    requires ClearRun(bits, first, n) && NoRun(bits, lo, first + n - 1, n)
    ensures FirstRun(bits, lo, hi, n) == Some(first)
  {
    var r := FirstRun(bits, lo, hi, n);
    FirstRunLeast(bits, lo, hi, n);
    assert r.Some? && r.value <= first;
    assert ClearRun(bits, r.value, n);
  }

  lemma FirstRunAbsent(bits: seq<bool>, lo: nat, hi: nat, n: nat)
    requires lo <= hi <= |bits| && NoRun(bits, lo, hi, n)
    ensures FirstRun(bits, lo, hi, n) == None
  {
    var r := FirstRun(bits, lo, hi, n);
    FirstRunLeast(bits, lo, hi, n);
  }

  predicate InRegion(addr: nat, size: nat, page: nat) {
    addr / PAGE_SIZE <= page < (addr + size + PAGE_SIZE - 1) / PAGE_SIZE
  }

  /** The int a size becomes as an argument of pmm_reserve_region. */
  function AsInt(size: nat): int { size - (size + 0x8000_0000) / 0x1_0000_0000 * 0x1_0000_0000 }

  /** n mod 2^64, for n no further than 2^64 below 0. */
  function AsUlong(n: int): int { if n < 0 then n + 0x1_0000_0000_0000_0000 else n }

  /** How many pages its loop visits, in the source's arithmetic. */
  function RegionPages(addr: nat, size: nat): int {
    var end := AsUlong(addr + AsInt(size) + PAGE_SIZE - 1) / PAGE_SIZE * PAGE_SIZE;
    AsUlong(end - addr / PAGE_SIZE * PAGE_SIZE) / PAGE_SIZE
  }

  /** They are the pages of the region if and only if its size is an int. */
  lemma RegionPagesIff(addr: nat, size: nat)
    requires addr + size + PAGE_SIZE < 0x8000_0000_0000_0000
    ensures RegionPages(addr, size) == (addr + size + PAGE_SIZE - 1) / PAGE_SIZE - addr / PAGE_SIZE <==> size < 0x8000_0000
  {
    var k := (size + 0x8000_0000) / 0x1_0000_0000;
    var top := (addr + size + PAGE_SIZE - 1) / PAGE_SIZE;
    assert k == 0 <==> size < 0x8000_0000;
    ShiftedPage(addr + size + PAGE_SIZE - 1, k);
    var low := addr + AsInt(size) + PAGE_SIZE - 1;
    var end := AsUlong(low) / PAGE_SIZE;
    assert end == if low < 0 then top - k * 0x10_0000 + 0x10_0000_0000_0000 else top - k * 0x10_0000;
    PagesBetween(end, addr / PAGE_SIZE);
  }

  lemma ShiftedPage(n: int, k: int)
    ensures (n - k * 0x1_0000_0000) / PAGE_SIZE == n / PAGE_SIZE - k * 0x10_0000
    ensures (n - k * 0x1_0000_0000 + 0x1_0000_0000_0000_0000) / PAGE_SIZE == n / PAGE_SIZE - k * 0x10_0000 + 0x10_0000_0000_0000
  {
    MovedPage(n, -k * 0x10_0000);
    MovedPage(n, -k * 0x10_0000 + 0x10_0000_0000_0000);
  }

  lemma MovedPage(n: int, m: int)
    ensures (n + m * 4096) / 4096 == n / 4096 + m
  {
    Division.Unique(n + m * 4096, 4096, n / 4096 + m, n % 4096);
  }

  lemma PagesBetween(end: int, start: int)
    ensures AsUlong(end * PAGE_SIZE - start * PAGE_SIZE) / PAGE_SIZE == if end < start then end - start + 0x10_0000_0000_0000 else end - start
  {
    MovedPage(0, end - start);
    MovedPage(0, end - start + 0x10_0000_0000_0000);
  }

  function LastPage(d: Descriptor): nat {
    if d.kind == 7 && d.pages > 0 then (d.start + (d.pages - 1) * PAGE_SIZE) / PAGE_SIZE else 0
  }

  function MaxPage(memoryMap: seq<Descriptor>): (r: nat)
    ensures forall k :: 0 <= k < |memoryMap| ==> LastPage(memoryMap[k]) <= r
    ensures r == 0 || exists k :: 0 <= k < |memoryMap| && LastPage(memoryMap[k]) == r
  {
    if |memoryMap| == 0 then 0 else
      var n := |memoryMap| - 1;
      var rest := MaxPage(memoryMap[..n]);
      assert forall k :: 0 <= k < n ==> memoryMap[..n][k] == memoryMap[k];
      if LastPage(memoryMap[n]) > rest then LastPage(memoryMap[n]) else rest
  }

  predicate HoldsBitmap(d: Descriptor, size: nat) {
    d.kind == 7 && d.start != 0 && d.pages * PAGE_SIZE >= size
  }

  method FindMaxPage(memoryMap: seq<Descriptor>) returns (maxPage: nat)
    ensures maxPage == MaxPage(memoryMap)
  {
    maxPage := 0;
    for k := 0 to |memoryMap|
      invariant maxPage == MaxPage(memoryMap[..k])
    {
      assert memoryMap[..k + 1][..k] == memoryMap[..k];
      var d := memoryMap[k];
      if d.kind == 7 && d.pages > 0 {
        var lastPage := (d.start + (d.pages - 1) * PAGE_SIZE) / PAGE_SIZE;
        if lastPage > maxPage { maxPage := lastPage; }
      }
    }
    assert memoryMap[..|memoryMap|] == memoryMap;
  }

  method FindBitmapPlace(memoryMap: seq<Descriptor>, size: nat) returns (k: nat)
    ensures k <= |memoryMap|
    ensures k < |memoryMap| ==> HoldsBitmap(memoryMap[k], size)
    ensures forall j :: 0 <= j < k ==> !HoldsBitmap(memoryMap[j], size)
  {
    k := 0;
    while k < |memoryMap|
      invariant k <= |memoryMap|
      invariant forall j :: 0 <= j < k ==> !HoldsBitmap(memoryMap[j], size)
    {
      var d := memoryMap[k];
      if d.kind == 7 && d.start != 0 && d.pages * PAGE_SIZE >= size { return; }
      k := k + 1;
    }
  }

  class Allocator {
    var bitmap: array<bv8>
    var bitmapAddr: nat
    var pageCount: nat
    var used: int
    var last: nat

    constructor ()
      ensures Valid() && fresh(bitmap)
    {
      bitmap := new bv8[0];
      bitmapAddr, pageCount, used, last := 0, 0, 0, 0;
    }

    ghost predicate Valid()
      reads this
    {
      pageCount <= 8 * bitmap.Length && last <= pageCount
    }

    ghost function Bits(): (s: seq<bool>)
      requires Valid()
      reads this, bitmap
      ensures |s| == pageCount
    {
      BitsOf(bitmap[..], pageCount)
    }

    ghost function View(): Frames
      requires Valid()
      reads this, bitmap
    {
      Frames(Bits(), used, last)
    }

    method BitmapTest(bit: nat) returns (r: bool)
      requires Valid() && bit < pageCount
      ensures r == Bits()[bit]
    {
      r := (bitmap[bit / 8] >> (bit % 8)) & 1 == 1;
    }

    method BitmapSet(bit: nat)
      requires Valid() && bit < pageCount
      modifies bitmap
      ensures Bits() == old(Bits())[bit := true]
    {
      BitsOfSet(bitmap[..], pageCount, bit);
      bitmap[bit / 8] := WithBit(bitmap[bit / 8], bit % 8);
    }

    method BitmapClear(bit: nat)
      requires Valid() && bit < pageCount
      modifies bitmap
      ensures Bits() == old(Bits())[bit := false]
    {
      BitsOfClear(bitmap[..], pageCount, bit);
      bitmap[bit / 8] := WithoutBit(bitmap[bit / 8], bit % 8);
    }

    /** The scan shared by the two loops of pmm_alloc_page. */
    method ScanClear(lo: nat, hi: nat) returns (r: nat)
      requires Valid() && lo <= hi <= pageCount
      ensures r == FirstClear(Bits(), lo, hi)
    {
      hide BitsOf;
      r := lo;
      while r < hi
        invariant lo <= r <= hi
        invariant forall i :: lo <= i < r ==> Bits()[i]
      {
        var taken := BitmapTest(r);
        if !taken { return; }
        r := r + 1;
      }
    }

    /** pmm_alloc_page; the result is the byte address of the frame, None the panic. */
    method AllocPage() returns (r: Option<nat>)
      requires Valid()
      modifies `used, `last, bitmap
      ensures Valid()
      ensures r == None ==> PhysicalFrames.AllocPage(old(View())) == None && View() == old(View())
      ensures r.Some? ==> r.value % PAGE_SIZE == 0
      ensures r.Some? ==>
        PhysicalFrames.AllocPage(old(View())) == Some(Grant(View(), r.value / PAGE_SIZE))
    {
      hide BitsOf, FirstClear;
      var i := ScanClear(last, pageCount);
      if i == pageCount {
        i := ScanClear(0, last);
        if i == last { return None; }
      }
      BitmapSet(i);
      used := used + PAGE_SIZE;
      last := i + 1;
      PageAddress(i);
      return Some(i * PAGE_SIZE);
    }

    /** The scan shared by the two loops of pmm_alloc_pages, with its 32-bit run counter. */
    method ScanRun(lo: nat, hi: nat, count: nat) returns (r: Option<nat>)
      requires Valid() && lo <= hi <= pageCount && count < UINT32
      ensures r == FirstRun(Bits(), lo, hi, RunNeeded(count))
    {
      hide BitsOf;
      ghost var bits, n := Bits(), RunNeeded(count);
      var i: nat, current: nat, first: nat := lo, 0, 0;
      while i < hi
        invariant lo <= i <= hi
        invariant current < n && Stretch(bits, lo, i, current)
        invariant current > 0 ==> first == i - current
        invariant NoRun(bits, lo, i, n)
      {
        var taken := BitmapTest(i);
        StretchStep(bits, lo, i, current);
        CounterMeets(current, count);
        if taken {
          NoRunStep(bits, lo, i, current, n);
          current := 0;
        } else {
          if current == 0 { first := i; }
          if current + 1 < n { NoRunStep(bits, lo, i, current, n); }
          current := Wrap32(current + 1);
          if current == count {
            assert first == i + 1 - n;
            assert ClearRun(bits, first, n);
            FirstRunFound(bits, lo, hi, n, first);
            return Some(first);
          }
        }
        i := i + 1;
      }
      FirstRunAbsent(bits, lo, hi, n);
      return None;
    }

    /** pmm_alloc_pages; `used` grows by the 32-bit product count * 4096. */
    method AllocPages(count: nat) returns (r: Option<nat>)
      requires Valid() && count < UINT32
      modifies `used, `last, bitmap
      ensures Valid()
      ensures r == None ==> PhysicalFrames.AllocPages(old(View()), count) == None && View() == old(View())
      ensures r.Some? ==> r.value % PAGE_SIZE == 0
      ensures r.Some? ==>
        PhysicalFrames.AllocPages(old(View()), count) == Some(Grant(View(), r.value / PAGE_SIZE))
    {
      hide BitsOf, FirstRun;
      ghost var f := View();
      var hit := ScanRun(last, pageCount, count);
      if hit == None {
        hit := ScanRun(0, last, count);
        if hit == None { return None; }
      }
      var first := hit.value;
      FirstRunLeast(Bits(), last, pageCount, RunNeeded(count));
      FirstRunLeast(Bits(), 0, last, RunNeeded(count));
      for i := 0 to count
        invariant Valid() && used == old(used)
        invariant Bits() == SetRun(old(Bits()), first, i)
      {
        BitmapSet(first + i);
      }
      used := used + Wrap32(count * 4096);
      last := first + count;
      PageAddress(first);
      assert View() == TakeRun(f, first, count);
      return Some(first * PAGE_SIZE);
    }

    /** pmm_free_page; false is one of its three panics. */
    method FreePage(addr: nat) returns (ok: bool)
      requires Valid()
      modifies `used, `last, bitmap
      ensures Valid()
      ensures ok ==> PhysicalFrames.FreePage(old(View()), addr) == Some(View())
      ensures !ok ==> PhysicalFrames.FreePage(old(View()), addr) == None && View() == old(View())
    {
      hide BitsOf;
      var page := addr / PAGE_SIZE;
      if addr % PAGE_SIZE != 0 || page >= pageCount { return false; }
      var taken := BitmapTest(page);
      if !taken { return false; }
      BitmapClear(page);
      used := used - PAGE_SIZE;
      if page < last { last := page; }
      return true;
    }

    /** pmm_get_stats, as (total, used, free) in bytes. */
    method GetStats() returns (total: int, inUse: int, available: int)
      requires Valid() && Accounted(View())
      ensures inUse == PAGE_SIZE * CountSet(Bits())
      ensures total == inUse + available && 0 <= available
      ensures available == 0 <==> PhysicalFrames.AllocPage(View()) == None
    {
      hide BitsOf;
      total := pageCount * PAGE_SIZE;
      inUse := used;
      available := total - inUse;
      CountAll(Bits());
      AllocPageKeeps(View());
    }

    method ReservePage(addr: nat)
      requires Valid() && addr / PAGE_SIZE < pageCount && Accounted(View())
      modifies `used, bitmap
      ensures Accounted(View()) && Bits() == old(Bits())[addr / PAGE_SIZE := true]
    {
      hide BitsOf;
      var page := addr / PAGE_SIZE;
      var taken := BitmapTest(page);
      CountUpdate(Bits(), page, true);
      if !taken {
        BitmapSet(page);
        used := used + PAGE_SIZE;
      } else {
        assert Bits() == Bits()[page := true];
      }
    }

    method UnreservePage(addr: nat)
      requires Valid() && addr / PAGE_SIZE < pageCount && Accounted(View())
      modifies `used, bitmap
      ensures Accounted(View()) && Bits() == old(Bits())[addr / PAGE_SIZE := false]
    {
      hide BitsOf;
      var page := addr / PAGE_SIZE;
      var taken := BitmapTest(page);
      CountUpdate(Bits(), page, false);
      if taken {
        BitmapClear(page);
        used := used - PAGE_SIZE;
      } else {
        assert Bits() == Bits()[page := false];
      }
    }

    /** pmm_reserve_region; its size is an int. */
    method ReserveRegion(addr: nat, size: nat)
      requires Valid() && (addr + size + PAGE_SIZE - 1) / PAGE_SIZE <= pageCount && Accounted(View())
      requires size < 0x8000_0000 && addr + size + PAGE_SIZE < 0x8000_0000_0000_0000
      modifies `used, bitmap
      ensures Accounted(View())
      ensures forall p :: 0 <= p < pageCount ==> Bits()[p] == (old(Bits())[p] || InRegion(addr, size, p))
    {
      hide BitsOf, RegionPages;
      var start := addr / PAGE_SIZE * PAGE_SIZE;
      var pages := RegionPages(addr, size);
      RegionPagesIff(addr, size);
      for i := 0 to pages
        invariant Valid() && Accounted(View())
        invariant forall p :: 0 <= p < pageCount ==>
          Bits()[p] == (old(Bits())[p] || addr / PAGE_SIZE <= p < addr / PAGE_SIZE + i)
      {
        MovedPage(start, i);
        PageAddress(addr / PAGE_SIZE);
        ReservePage(start + i * PAGE_SIZE);
      }
    }

    /** memset of the whole bitmap: every frame starts reserved, and is accounted for. */
    method FillBitmap()
      requires Valid() && used == pageCount * PAGE_SIZE
      modifies bitmap
      ensures forall p :: 0 <= p < pageCount ==> Bits()[p]
      ensures Accounted(View())
    {
      for i := 0 to bitmap.Length
        invariant forall j :: 0 <= j < i ==> bitmap[j] == 0xFF
      {
        bitmap[i] := 0xFF;
      }
      forall p | 0 <= p < pageCount
        ensures Bits()[p]
      {
        AllOnes(p % 8);
      }
      CountAll(Bits());
    }

    /** One conventional descriptor: every frame of it is released. */
    method UnreserveRange(d: Descriptor)
      requires Valid() && Accounted(View()) && d.kind == 7 && d.start / PAGE_SIZE + d.pages <= pageCount
      modifies `used, bitmap
      ensures Accounted(View())
      ensures forall p :: 0 <= p < pageCount ==> Bits()[p] == (old(Bits())[p] && !Covers(d, p))
    {
      hide BitsOf;
      for i := 0 to d.pages
        invariant Valid() && Accounted(View())
        invariant forall p :: 0 <= p < pageCount ==>
          Bits()[p] == (old(Bits())[p] && !(d.start / PAGE_SIZE <= p < d.start / PAGE_SIZE + i))
      {
        assert (d.start + i * PAGE_SIZE) / PAGE_SIZE == d.start / PAGE_SIZE + i;
        UnreservePage(d.start + i * PAGE_SIZE);
      }
    }

    method UnreserveConventional(memoryMap: seq<Descriptor>)
      requires Valid() && Accounted(View()) && pageCount == MaxPage(memoryMap) + 1
      requires forall p :: 0 <= p < pageCount ==> Bits()[p]
      modifies `used, bitmap
      ensures Accounted(View())
      ensures forall p :: 0 <= p < pageCount ==> Bits()[p] == !Conventional(memoryMap, p)
    {
      hide BitsOf;
      for k := 0 to |memoryMap|
        invariant Valid() && Accounted(View())
        invariant forall p :: 0 <= p < pageCount ==> Bits()[p] == !Conventional(memoryMap[..k], p)
      {
        ghost var before := Bits();
        var d := memoryMap[k];
        if d.kind == 7 && d.pages > 0 {
          assert LastPage(d) == d.start / PAGE_SIZE + d.pages - 1 <= MaxPage(memoryMap);
          UnreserveRange(d);
        }
        forall p | 0 <= p < pageCount
          ensures Bits()[p] == !Conventional(memoryMap[..k + 1], p)
        {
          ConventionalStep(memoryMap, k, p);
          assert Bits()[p] == (before[p] && !Covers(d, p));
        }
      }
      assert memoryMap[..|memoryMap|] == memoryMap;
    }

    /** The part of pmm_init after the bitmap has its place. */
    method Populate(memoryMap: seq<Descriptor>, bitmapSize: nat, kernelStart: nat, kernelEnd: nat)
      requires Valid() && pageCount == MaxPage(memoryMap) + 1 && used == pageCount * PAGE_SIZE
      requires (bitmapAddr + bitmapSize + PAGE_SIZE - 1) / PAGE_SIZE <= pageCount
      requires kernelStart <= kernelEnd <= pageCount * PAGE_SIZE && kernelEnd - kernelStart < 0x8000_0000
      requires bitmapSize < 0x8000_0000 && bitmapAddr < 0x4000_0000_0000_0000 && kernelEnd < 0x4000_0000_0000_0000
      modifies `used, bitmap
      ensures Accounted(View())
      ensures forall p :: 0 <= p < pageCount ==>
        (!Bits()[p] <==> Conventional(memoryMap, p) && p != 0 && !InRegion(bitmapAddr, bitmapSize, p)
                         && !InRegion(kernelStart, kernelEnd - kernelStart, p))
    {
      hide BitsOf;
      FillBitmap();
      UnreserveConventional(memoryMap);
      ReservePage(0);
      ReserveRegion(bitmapAddr, bitmapSize);
      ReserveRegion(kernelStart, kernelEnd - kernelStart);
    }

    /**
     pmm_init.  Afterwards a frame is free exactly when the firmware calls it
     conventional and it is neither frame 0, nor the bitmap, nor the kernel
     image, and `used` counts the rest.  False is the panic for want of a place.
     */
    method Init(memoryMap: seq<Descriptor>, kernelStart: nat, kernelEnd: nat) returns (ok: bool)
      requires forall k :: 0 <= k < |memoryMap| ==> memoryMap[k].start % PAGE_SIZE == 0
      requires kernelStart <= kernelEnd <= (MaxPage(memoryMap) + 1) * PAGE_SIZE && kernelEnd - kernelStart < 0x8000_0000
      requires MaxPage(memoryMap) < 0x3_FFFF_FFF8
      modifies this
      ensures ok ==> Valid() && fresh(bitmap) && Accounted(View())
      ensures ok ==> pageCount == MaxPage(memoryMap) + 1 && bitmapAddr != 0 && last == 0
      ensures ok ==> forall p :: 0 <= p < pageCount ==>
        (!Bits()[p] <==> Conventional(memoryMap, p) && p != 0
                         && !InRegion(bitmapAddr, (pageCount + 7) / 8, p)
                         && !InRegion(kernelStart, kernelEnd - kernelStart, p))
      ensures !ok <==> forall k :: 0 <= k < |memoryMap| ==> !HoldsBitmap(memoryMap[k], (MaxPage(memoryMap) + 8) / 8)
    {
      var maxPage := FindMaxPage(memoryMap);
      pageCount := maxPage + 1;
      var bitmapSize := (pageCount + 7) / 8;
      used := pageCount * PAGE_SIZE;
      last := 0;
      var k := FindBitmapPlace(memoryMap, bitmapSize);
      if k == |memoryMap| { return false; }
      bitmapAddr := memoryMap[k].start;
      bitmap := new bv8[bitmapSize];
      assert memoryMap[k].start / PAGE_SIZE + memoryMap[k].pages - 1 == LastPage(memoryMap[k]) <= maxPage;
      Populate(memoryMap, bitmapSize, kernelStart, kernelEnd);
      return true;
    }
  }
}
