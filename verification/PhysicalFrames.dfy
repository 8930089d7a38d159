/**
 The physical frame allocator as a value: one bit a frame, the byte count
 `used` and the search hint `last`.  The class in Pmm.dfy implements it on a
 byte bitmap; Paging.dfy builds page tables from it.
 */
module PhysicalFrames {
  import opened Options

  const PAGE_SIZE: nat := 4096
  const UINT32: nat := 0x1_0000_0000

  /** Truncation to 32 bits. */
  function Wrap32(n: nat): nat { n % 0x1_0000_0000 }

  datatype Frames = Frames(bits: seq<bool>, used: int, last: nat)

  function CountSet(bits: seq<bool>): nat {
    if |bits| == 0 then 0
    else CountSet(bits[..|bits| - 1]) + if bits[|bits| - 1] then 1 else 0
  }

  /** `used` is exactly the number of bytes in frames whose bit is set. */
  predicate Accounted(f: Frames) {
    f.used == PAGE_SIZE * CountSet(f.bits) && f.last <= |f.bits|
  }

  predicate ClearRun(bits: seq<bool>, first: nat, n: nat) {
    first + n <= |bits| && forall i :: first <= i < first + n ==> !bits[i]
  }

  function SetRun(bits: seq<bool>, first: nat, n: nat): (r: seq<bool>)
    requires first + n <= |bits|
    ensures |r| == |bits|
    ensures forall i :: 0 <= i < |bits| ==> r[i] == (bits[i] || first <= i < first + n)
  {
    seq(|bits|, i requires 0 <= i < |bits| => bits[i] || first <= i < first + n)
  }

  /** The first clear bit of [lo, hi), or hi. */
  function FirstClear(bits: seq<bool>, lo: nat, hi: nat): (r: nat)
    requires lo <= hi <= |bits|
    ensures lo <= r <= hi
    ensures forall i :: lo <= i < r ==> bits[i]
    ensures r < hi ==> !bits[r]
    decreases hi - lo
  {
    if lo == hi || !bits[lo] then lo else FirstClear(bits, lo + 1, hi)
  }

  /** The start of the first clear run of n frames inside [lo, hi). */
  function FirstRun(bits: seq<bool>, lo: nat, hi: nat, n: nat): Option<nat>
    requires lo <= hi <= |bits|
    decreases hi - lo
  {
    if lo + n > hi then None
    else if ClearRun(bits, lo, n) then Some(lo)
    else if lo == hi then None
    else FirstRun(bits, lo + 1, hi, n)
  }

  lemma {:induction false} FirstRunLeast(bits: seq<bool>, lo: nat, hi: nat, n: nat)
    requires lo <= hi <= |bits|
    ensures var r := FirstRun(bits, lo, hi, n);
      && (r.Some? ==> lo <= r.value && r.value + n <= hi && ClearRun(bits, r.value, n))
      && forall s: nat :: lo <= s && s + n <= hi && ClearRun(bits, s, n) ==> r.Some? && r.value <= s
    decreases hi - lo
  {
    if lo < hi {
      FirstRunLeast(bits, lo + 1, hi, n);
    }
  }

  datatype Grant = Grant(frames: Frames, page: nat)

  function Take(f: Frames, page: nat): Frames
    requires page < |f.bits|
  {
    Frames(f.bits[page := true], f.used + PAGE_SIZE, page + 1)
  }

  /** pmm_alloc_page: search from the hint, then from the start; None is the panic. */
  function AllocPage(f: Frames): (r: Option<Grant>)
    requires f.last <= |f.bits|
  {
    var i := FirstClear(f.bits, f.last, |f.bits|);
    if i < |f.bits| then Some(Grant(Take(f, i), i)) else
      var j := FirstClear(f.bits, 0, f.last);
      if j < f.last then Some(Grant(Take(f, j), j)) else None
  }

  /** The run length pmm_alloc_pages really looks for: its 32-bit counter meets 0 only after wrapping. */
  function RunNeeded(count: nat): nat { if count == 0 then UINT32 else count }

  function TakeRun(f: Frames, first: nat, count: nat): Frames
    requires first + count <= |f.bits|
  {
    Frames(SetRun(f.bits, first, count), f.used + Wrap32(count * 4096), first + count)
  }

  function AllocPages(f: Frames, count: nat): (r: Option<Grant>)
    requires f.last <= |f.bits| && count < UINT32
  {
    var hit := FirstRun(f.bits, f.last, |f.bits|, RunNeeded(count));
    var hit' := if hit.Some? then hit else FirstRun(f.bits, 0, f.last, RunNeeded(count));
    FirstRunLeast(f.bits, f.last, |f.bits|, RunNeeded(count));
    FirstRunLeast(f.bits, 0, f.last, RunNeeded(count));
    if hit'.Some? then Some(Grant(TakeRun(f, hit'.value, count), hit'.value)) else None
  }

  /** pmm_free_page on the frame at byte address addr; None is one of its three panics. */
  function FreePage(f: Frames, addr: nat): (r: Option<Frames>) {
    var page := addr / PAGE_SIZE;
    if addr % PAGE_SIZE != 0 || page >= |f.bits| || !f.bits[page] then None
    else Some(Frames(f.bits[page := false], f.used - PAGE_SIZE, if page < f.last then page else f.last))
  }

  // ---- counting -------------------------------------------------------------

  lemma {:induction false} CountUpdate(bits: seq<bool>, i: nat, b: bool)
    requires i < |bits|
    ensures CountSet(bits[i := b]) + (if bits[i] then 1 else 0) == CountSet(bits) + if b then 1 else 0
  {
    var n := |bits| - 1;
    if i == n {
      assert bits[i := b][..n] == bits[..n];
    } else {
      assert bits[i := b][..n] == bits[..n][i := b];
      CountUpdate(bits[..n], i, b);
    }
  }

  lemma {:induction false} CountRun(bits: seq<bool>, first: nat, n: nat)
    requires ClearRun(bits, first, n)
    ensures CountSet(SetRun(bits, first, n)) == CountSet(bits) + n
  {
    if n == 0 {
      assert SetRun(bits, first, 0) == bits;
    } else {
      CountRun(bits, first, n - 1);
      var s := SetRun(bits, first, n - 1);
      assert SetRun(bits, first, n) == s[first + n - 1 := true];
      CountUpdate(s, first + n - 1, true);
    }
  }

  lemma {:induction false} CountAll(bits: seq<bool>)
    ensures CountSet(bits) <= |bits|
    ensures CountSet(bits) == |bits| <==> forall i :: 0 <= i < |bits| ==> bits[i]
  {
    if |bits| > 0 {
      var n := |bits| - 1;
      CountAll(bits[..n]);
      assert forall i :: 0 <= i < n ==> bits[..n][i] == bits[i];
    }
  }

  // ---- what the allocator keeps -----------------------------------------------

  /** pmm_alloc_page hands out a clear frame, keeps the accounting, and fails only when every bit is set. */
  lemma AllocPageKeeps(f: Frames)
    requires Accounted(f)
    ensures AllocPage(f) == None <==> CountSet(f.bits) == |f.bits|
    ensures AllocPage(f).Some? ==>
      var g := AllocPage(f).value;
      g.page < |f.bits| && !f.bits[g.page] && g.frames.bits == f.bits[g.page := true] && Accounted(g.frames)
  {
    CountAll(f.bits);
    match AllocPage(f) {
      case None =>
        assert forall i :: 0 <= i < |f.bits| ==> f.bits[i];
      case Some(g) =>
        CountUpdate(f.bits, g.page, true);
        assert !f.bits[g.page];
    }
  }

  /** The frame granted is the first clear one from the hint on, or else the first of all. */
  lemma AllocPageIsNext(f: Frames)
    requires f.last <= |f.bits| && AllocPage(f).Some?
    ensures var g := AllocPage(f).value;
      && g.page < |f.bits| && !f.bits[g.page] && g.frames.last == g.page + 1
      && (forall i :: f.last <= i < |f.bits| && !f.bits[i] ==> f.last <= g.page <= i)
      && (g.page < f.last ==> (forall i :: 0 <= i < g.page ==> f.bits[i]) && forall i :: f.last <= i < |f.bits| ==> f.bits[i])
  {}

  /** A search goes on behind what the last one granted, for as long as there is anything clear there. */
  lemma NextFit(f: Frames, i: nat)
    requires f.last <= |f.bits| && AllocPage(f).Some?
    ensures var g := AllocPage(f).value;
      g.page < i < |f.bits| && !f.bits[i] ==>
        AllocPage(g.frames).Some? && g.page < AllocPage(g.frames).value.page <= i
  {
    var g := AllocPage(f).value;
    if g.page < i < |f.bits| && !f.bits[i] {
      assert !g.frames.bits[i];
      assert FirstClear(g.frames.bits, g.frames.last, |g.frames.bits|) <= i;
      AllocPageIsNext(g.frames);
    }
  }

  /** A frame freed below the hint is the next one granted; above it the hint stays. */
  lemma FreedIsNext(f: Frames, page: nat)
    requires f.last <= |f.bits| && page < |f.bits| && f.bits[page]
    ensures FreePage(f, page * PAGE_SIZE).Some?
    ensures var f' := FreePage(f, page * PAGE_SIZE).value;
      && f'.last <= |f'.bits|
      && (page < f.last ==> AllocPage(f').Some? && AllocPage(f').value.page == page && AllocPage(f').value.frames.bits == f.bits)
      && (page >= f.last ==> f'.last == f.last)
  {
    assert page * PAGE_SIZE / PAGE_SIZE == page && page * PAGE_SIZE % PAGE_SIZE == 0;
    var f' := FreePage(f, page * PAGE_SIZE).value;
    if page < f.last {
      assert FirstClear(f'.bits, page, |f'.bits|) == page;
      assert f'.bits[page := true] == f.bits;
    }
  }

  /** A run granted is the first one from the hint on, or else the first that ends before it. */
  lemma AllocPagesIsNext(f: Frames, count: nat, s: nat)
    requires f.last <= |f.bits| && count < UINT32 && AllocPages(f, count).Some?
    requires ClearRun(f.bits, s, RunNeeded(count))
    ensures var g := AllocPages(f, count).value;
      && g.frames.last == g.page + count
      && (f.last <= s ==> f.last <= g.page <= s)
      && (g.page < f.last && s + RunNeeded(count) <= f.last ==> g.page <= s)
  {
    hide FirstRun, Wrap32, SetRun;
    FirstRunLeast(f.bits, f.last, |f.bits|, RunNeeded(count));
    FirstRunLeast(f.bits, 0, f.last, RunNeeded(count));
  }

  /** And a run of frames moves the hint behind it as well. */
  lemma NextFitAfterRun(f: Frames, count: nat, i: nat)
    requires f.last <= |f.bits| && count < UINT32 && AllocPages(f, count).Some?
    ensures var g := AllocPages(f, count).value;
      && g.page + count <= |f.bits|
      && (g.page + count <= i < |f.bits| && !f.bits[i] ==>
            AllocPage(g.frames).Some? && g.page + count <= AllocPage(g.frames).value.page <= i)
  {
    hide FirstRun, Wrap32;
    FirstRunLeast(f.bits, f.last, |f.bits|, RunNeeded(count));
    FirstRunLeast(f.bits, 0, f.last, RunNeeded(count));
    var g := AllocPages(f, count).value;
    if g.page + count <= i < |f.bits| && !f.bits[i] {
      assert !g.frames.bits[i];
      assert FirstClear(g.frames.bits, g.frames.last, |g.frames.bits|) <= i;
      AllocPageIsNext(g.frames);
    }
  }

  /**
   pmm_alloc_pages succeeds exactly when one of the two ranges it scans holds a
   clear run; it then sets exactly that run, and the byte count stays right
   exactly when the 32-bit product count * 4096 does not wrap.
   */
  lemma AllocPagesKeeps(f: Frames, count: nat)
    requires Accounted(f) && count < UINT32
    ensures AllocPages(f, count).Some? <==>
      exists s: nat :: ClearRun(f.bits, s, RunNeeded(count)) && (f.last <= s || s + RunNeeded(count) <= f.last)
    ensures AllocPages(f, count).Some? ==>
      var g := AllocPages(f, count).value;
      && ClearRun(f.bits, g.page, count)
      && g.frames.bits == SetRun(f.bits, g.page, count)
      && (Accounted(g.frames) <==> count < 0x10_0000)
  {
    hide FirstRun, Wrap32, CountSet;
    FirstRunLeast(f.bits, f.last, |f.bits|, RunNeeded(count));
    FirstRunLeast(f.bits, 0, f.last, RunNeeded(count));
    match AllocPages(f, count) {
      case None =>
      case Some(g) =>
        assert ClearRun(f.bits, g.page, RunNeeded(count));
        CountRun(f.bits, g.page, count);
        BytesFit(count);
    }
  }

  /** The 32-bit byte count of a run is right up to 2^20 - 1 frames. */
  lemma BytesFit(count: nat)
    ensures Wrap32(count * 4096) == count * 4096 <==> count < 0x10_0000
  {
  }

  /** A run that straddles the hint is missed: the call fails although two free frames are adjacent. */
  lemma StraddlingRunMissed()
    ensures var f := Frames([true, false, false], PAGE_SIZE, 2);
            Accounted(f) && ClearRun(f.bits, 1, 2) && AllocPages(f, 2) == None
  {
    var f := Frames([true, false, false], PAGE_SIZE, 2);
    assert f.bits[..2] == [true, false] && f.bits[..2][..1] == [true] && f.bits[..2][..1][..0] == [];
    assert CountSet([true]) == 1;
    assert CountSet([true, false]) == 1;
    assert CountSet(f.bits) == 1;
    assert f.bits[0];
    FirstRunLeast(f.bits, 2, 3, 2);
    FirstRunLeast(f.bits, 0, 2, 2);
  }

  /** pmm_free_page undoes an allocation of that frame, and keeps the accounting. */
  lemma FreePageKeeps(f: Frames, page: nat)
    requires Accounted(f) && page < |f.bits|
    ensures FreePage(f, page * PAGE_SIZE).Some? <==> f.bits[page]
    ensures f.bits[page] ==>
      var g := FreePage(f, page * PAGE_SIZE).value;
      Accounted(g) && g.bits == f.bits[page := false] && g.used == f.used - PAGE_SIZE
  {
    assert page * PAGE_SIZE / PAGE_SIZE == page;
    if f.bits[page] {
      CountUpdate(f.bits, page, false);
    }
  }
}
