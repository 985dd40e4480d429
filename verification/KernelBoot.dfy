/** The memory part of the kernel's start-up: from the EFI memory map to a working heap. */
module KernelBoot {
  import opened Words
  import opened Bitmaps
  import opened FramePool
  import opened MemoryMap
  import opened Paging
  import opened PageTree
  import opened PageFrameAllocators
  import opened PageTableManagers
  import opened KernelMemory
  import opened KernelHeap
  import S = Segments

  const HEAP_START := 0x1000_0000_0000
  const HEAP_PAGES := 0x10

  /** The new tables needed to map `n` pages from `vp` on to frames that exist already. */
  function TablesNeeded(tables: set<Place>, vp: nat, n: nat): nat
    decreases n
  {
    if n == 0 then 0 else Missing(tables, vp) + TablesNeeded(tables + Path(vp), vp + 1, n - 1)
  }

  /** How many pages a loop that steps by a page from `from` up to `to` maps. */
  function Steps(from: nat, to: nat): nat { if from < to then (to - from + PAGE - 1) / PAGE else 0 }

  /** Pages `vp` to `vp + n - 1` translate to themselves. */
  ghost predicate IdentityMapped(mem: seq<U64>, root: nat, vp: nat, n: nat)
  {
    forall wp: nat | vp <= wp < vp + n :: Translate(mem, root, wp) == Some(Mapping(wp, true))
  }

  /** `MapMemory(t, t)` for an address on page `vp`. */
  method MapOnto(ptm: PageTableManager, t: U64, ghost vp: nat)
    requires ptm.Valid() && t / PAGE == vp < VIRTUAL_PAGES && FreeCount(ptm.pfa.pool) >= Missing(ptm.at.Keys, vp)
    modifies ptm`at, ptm.phys, ptm.pfa`freeMemory, ptm.pfa`usedMemory, ptm.pfa`pageBitmapIndex, ptm.pfa`pool,
        ptm.pfa.PageBitmap.Buffer
    ensures ptm.Valid() && Translate(ptm.phys[..], ptm.PML4, vp) == Some(Mapping(vp, true))
    ensures forall wp: nat | wp < VIRTUAL_PAGES && wp != vp ::
      Translate(ptm.phys[..], ptm.PML4, wp) == Translate(old(ptm.phys[..]), ptm.PML4, wp)
    ensures ptm.at.Keys == old(ptm.at.Keys) + Path(vp) && TakesMore(old(ptm.pfa.pool), ptm.pfa.pool)
    ensures FreeCount(ptm.pfa.pool) == FreeCount(old(ptm.pfa.pool)) - Missing(old(ptm.at.Keys), vp)
  {
    hide Translate, TreeOk, TablesTaken, FreeCount, Missing, Path, SameFrame, Low;
    LowOfPage(vp);
    ptm.MapMemory(t, t);
  }

  /** The mapping loops of `_start`: `from`, `from + 0x1000`, ... below `to`, each onto itself. */
  method MapIdentity(ptm: PageTableManager, from: U64, to: U64)
    requires ptm.Valid() && to <= ADDRESS_LIMIT
    requires FreeCount(ptm.pfa.pool) >= TablesNeeded(ptm.at.Keys, from / PAGE, Steps(from, to))
    modifies ptm`at, ptm.phys, ptm.pfa`freeMemory, ptm.pfa`usedMemory, ptm.pfa`pageBitmapIndex, ptm.pfa`pool,
        ptm.pfa.PageBitmap.Buffer
    ensures ptm.Valid()
    ensures IdentityMapped(ptm.phys[..], ptm.PML4, from / PAGE, Steps(from, to))
    ensures forall wp: nat | wp < VIRTUAL_PAGES && !(from / PAGE <= wp < from / PAGE + Steps(from, to)) ::
      Translate(ptm.phys[..], ptm.PML4, wp) == Translate(old(ptm.phys[..]), ptm.PML4, wp)
    ensures ptm.at.Keys == TablesAfter(old(ptm.at.Keys), from / PAGE, Steps(from, to))
    ensures FreeCount(ptm.pfa.pool)
         == FreeCount(old(ptm.pfa.pool)) - TablesNeeded(old(ptm.at.Keys), from / PAGE, Steps(from, to))
    ensures TakesMore(old(ptm.pfa.pool), ptm.pfa.pool)
  {
    hide Translate, TreeOk, TablesTaken, FreeCount, Missing, Path, SameFrame, Steps, IdentityMapped;
    hide TablesNeeded, TablesAfter;
    var t := from;
    ghost var n := 0;
    NothingMapped(ptm.phys[..], ptm.PML4, from / PAGE);
    ghost var vp, total := from / PAGE, Steps(from, to);
    while t < to
      invariant n <= total && t == from + PAGE * n && ptm.Valid() && TakesMore(old(ptm.pfa.pool), ptm.pfa.pool)
      invariant IdentityMapped(ptm.phys[..], ptm.PML4, vp, n)
      invariant forall wp: nat | wp < VIRTUAL_PAGES && !(vp <= wp < vp + n) ::
        Translate(ptm.phys[..], ptm.PML4, wp) == Translate(old(ptm.phys[..]), ptm.PML4, wp)
      invariant TablesAfter(ptm.at.Keys, vp + n, total - n) == TablesAfter(old(ptm.at.Keys), vp, total)
      invariant FreeCount(ptm.pfa.pool) - TablesNeeded(ptm.at.Keys, vp + n, total - n)
             == FreeCount(old(ptm.pfa.pool)) - TablesNeeded(old(ptm.at.Keys), vp, total)
      decreases total - n
    {
      StepsLeft(from, to, n);
      ghost var mem := ptm.phys[..];
      TablesStep(ptm.at.Keys, vp + n, total - n);
      MapOnto(ptm, t, vp + n);
      IdentityGrows(mem, ptm.phys[..], ptm.PML4, vp, n);
      t := t + 0x1000;
      n := n + 1;
    }
    StepsDone(from, to, n);
    TablesDone(ptm.at.Keys, vp + n);
  }

  lemma NothingMapped(mem: seq<U64>, root: nat, vp: nat)
    ensures IdentityMapped(mem, root, vp, 0)
  {
  }

  lemma TablesStep(tables: set<Place>, vp: nat, n: nat)
    requires n > 0
    ensures TablesNeeded(tables, vp, n) == Missing(tables, vp) + TablesNeeded(tables + Path(vp), vp + 1, n - 1)
    ensures TablesAfter(tables, vp, n) == TablesAfter(tables + Path(vp), vp + 1, n - 1)
  {
  }

  lemma TablesDone(tables: set<Place>, vp: nat)
    ensures TablesNeeded(tables, vp, 0) == 0 && TablesAfter(tables, vp, 0) == tables
  {
  }

  lemma StepsLeft(from: nat, to: nat, n: nat)
    requires from + PAGE * n < to <= ADDRESS_LIMIT && n <= Steps(from, to)
    ensures n < Steps(from, to) && (from + PAGE * n) / PAGE == from / PAGE + n < VIRTUAL_PAGES
  {
  }

  lemma StepsDone(from: nat, to: nat, n: nat)
    requires from + PAGE * n >= to && n <= Steps(from, to)
    ensures n == Steps(from, to)
  {
  }

  lemma IdentityGrows(mem: seq<U64>, mem': seq<U64>, root: nat, vp: nat, n: nat)
    requires IdentityMapped(mem, root, vp, n) && vp + n < VIRTUAL_PAGES
    requires Translate(mem', root, vp + n) == Some(Mapping(vp + n, true))
    requires forall wp: nat | wp < VIRTUAL_PAGES
      && wp != vp + n :: Translate(mem', root, wp) == Translate(mem, root, wp)
    ensures IdentityMapped(mem', root, vp, n + 1)
  {
    hide Translate;
  }

  lemma LowOfPage(vp: nat)
    requires vp < VIRTUAL_PAGES
    ensures Low(vp, 40) == vp
  {
    Powers();
    LowOfSmall(vp, 40);
  }

  /** The frames of the bitmap that a range of addresses visits. */
  function LockCost(limit: int, address: U64, n: nat): nat
    decreases n, limit
  {
    if n == 0 then 0 else LockCost(limit, address, n - 1) + (if RangeFrame(address, n - 1) < limit then 1 else 0)
  }

  /** Locking a range takes no more frames than it visits, and gives none back. */
  lemma {:induction false} LockRange(p: Pool, address: U64, n: nat)
    requires p.Valid()
    ensures ApplyRange(Lock, p, address, n).Valid() && ApplyRange(Lock, p, address, n).Limit() == p.Limit()
    ensures FreeCount(ApplyRange(Lock, p, address, n)) >= FreeCount(p) - LockCost(p.Limit(), address, n)
    ensures forall k | 0 <= k < |p.bits| && p.bits[k] :: ApplyRange(Lock, p, address, n).bits[k]
    decreases n
  {
    hide FreeCount;
    if n > 0 {
      LockRange(p, address, n - 1);
      var q := ApplyRange(Lock, p, address, n - 1);
      ApplyKeepsValid(Lock, q, RangeFrame(address, n - 1));
      LockOne(q, RangeFrame(address, n - 1));
    }
  }

  lemma LockOne(p: Pool, k: nat)
    requires p.Valid()
    ensures FreeCount(Apply(Lock, p, k)) >= FreeCount(p) - (if k < p.Limit() then 1 else 0)
  {
    var n := p.Limit();
    if k < n {
      CountUpdate(p.bits[..n], k, true);
      assert p.bits[k := true][..n] == p.bits[..n][k := true];
    } else if k == n {
      assert p.bits[k := true][..n] == p.bits[..n];
    }
  }

  /** The pages of the framebuffer, with the extra page that `_start` maps beyond it. */
  function FbEnd(fbBase: U64, fbBufferSize: U64): nat { fbBase + fbBufferSize + 0x1000 }

  function FbPages(fbBufferSize: U64): nat { (fbBufferSize + 0x1000) / PAGE + 1 }

  /** The frames that start-up takes once the kernel's own pages are locked. */
  function BootFrames(size: U64, limit: int, fbBase: U64, fbBufferSize: U64): nat
  {
    var memory := Steps(0, size);
    var fb := Steps(fbBase, FbEnd(fbBase, fbBufferSize));
    var tables := TablesAfter({ROOT}, 0, memory);
    1 + TablesNeeded({ROOT}, 0, memory) + LockCost(limit, fbBase, FbPages(fbBufferSize))
      + TablesNeeded(tables, fbBase / PAGE, fb)
      + FramesNeeded(TablesAfter(tables, fbBase / PAGE, fb), HEAP_START / PAGE, HEAP_PAGES)
  }

  /** Page 0 of a booted machine is never free. */
  lemma PageZeroTaken(mMap: seq<Descriptor>, buffer: U64, stray: bool)
    ensures BootPool(mMap, buffer, stray).bits[0]
  {
    BootExact(mMap, buffer, stray, 0);
    assert !BootPool(mMap, buffer, stray).IsFree(0);
  }

  /**
   The tables part of `_start`: a fresh PML4, all of memory and then the framebuffer mapped onto
   themselves.
   */
  method MapMachine(ptm: PageTableManager, size: U64, fbBase: U64, fbBufferSize: U64)
    requires ptm.pfa.Valid() && ptm.phys as object != ptm.pfa.PageBitmap.Buffer
    requires ptm.phys.Length == ptm.pfa.pool.Limit() * ENTRIES && ptm.pfa.pool.bits[0]
    requires 0 < size <= HEAP_START && FbEnd(fbBase, fbBufferSize) <= HEAP_START && FbPages(fbBufferSize) < TWO_31
    requires FreeCount(ptm.pfa.pool) >= BootFrames(size, ptm.pfa.pool.Limit(), fbBase, fbBufferSize)
    modifies ptm`PML4, ptm`at, ptm.phys, ptm.pfa`freeMemory, ptm.pfa`usedMemory, ptm.pfa`pageBitmapIndex,
        ptm.pfa`pool, ptm.pfa.PageBitmap.Buffer
    ensures ptm.Valid()
    ensures IdentityMapped(ptm.phys[..], ptm.PML4, 0, Steps(0, size))
    ensures IdentityMapped(ptm.phys[..], ptm.PML4, fbBase / PAGE, Steps(fbBase, FbEnd(fbBase, fbBufferSize)))
    ensures forall a: nat | a < size :: Translate(ptm.phys[..], ptm.PML4, a / 4096) == Some(Mapping(a / 4096, true))
    ensures forall a: nat | fbBase <= a < fbBase + fbBufferSize + (if fbBase % 4096 == 0 then 0x1000 else 0) ::
      Translate(ptm.phys[..], ptm.PML4, a / 4096) == Some(Mapping(a / 4096, true))
    ensures TakesMore(old(ptm.pfa.pool), ptm.pfa.pool)
    ensures forall k: nat | k < ptm.pfa.pool.Limit() && k < fbBase / 4096 + 0x8_0000
      && fbBase / 4096 <= k <= fbBase / 4096 + (fbBufferSize + 0x1000) / 4096 :: ptm.pfa.pool.bits[k]
    ensures FreeCount(ptm.pfa.pool) >= FramesNeeded(ptm.at.Keys, HEAP_START / PAGE, HEAP_PAGES)
  {
    hide Translate, TreeOk, TablesTaken, FreeCount, Missing, Path, Steps, IdentityMapped, TablesNeeded, TablesAfter;
    hide FramesNeeded, LockCost;
    ptm.CreateRoot();
    MapIdentity(ptm, 0, size);
    ghost var mem := ptm.phys[..];
    var fbSize := fbBufferSize + 0x1000;
    LockFrames(ptm, fbBase, fbSize / 0x1000 + 1);
    MapIdentity(ptm, fbBase, fbBase + fbSize);
    FewSteps(size);
    StillIdentity(mem, ptm.phys[..], ptm.PML4, Steps(0, size), fbBase / PAGE,
                  Steps(fbBase, FbEnd(fbBase, fbBufferSize)));
    IdentityCovers(ptm.phys[..], ptm.PML4, 0, size);
    IdentityCovers(ptm.phys[..], ptm.PML4, fbBase, fbBase + fbSize);
  }

  /** Every address from `from` up to `to` translates to itself, and may be written. */
  ghost predicate OntoItself(mem: seq<U64>, root: nat, from: nat, to: nat)
  {
    forall a: nat | from <= a < to :: Translate(mem, root, a / 4096) == Some(Mapping(a / 4096, true))
  }

  /**
   The loop maps every page of the range when it starts on a page; in any case it maps all but the last
   4096 bytes.
   */
  lemma IdentityCovers(mem: seq<U64>, root: nat, from: nat, to: nat)
    requires IdentityMapped(mem, root, from / PAGE, Steps(from, to))
    ensures from % 4096 == 0 ==> OntoItself(mem, root, from, to)
    ensures to >= 4096 ==> OntoItself(mem, root, from, to - 4096)
  {
    hide Translate;
    forall a: nat | from <= a < to && (from % 4096 == 0 || a < to - 4096)
      ensures Translate(mem, root, a / 4096) == Some(Mapping(a / 4096, true))
    {
      StepsCover(from, to, a);
    }
  }

  lemma StepsCover(from: nat, to: nat, a: nat)
    requires from <= a < to && (from % 4096 == 0 || a < to - 4096)
    ensures from / PAGE <= a / 4096 < from / PAGE + Steps(from, to)
  {
  }

  /**
   Which ranges the mapping loop covers: it steps from `from`, not from the page of `from`, and so misses
   the last page of some ranges that do not start on a page, such as the 4096 bytes from address 1 on.
   */
  lemma StepsExact(from: nat, to: nat)
    requires from < to
    ensures (forall a: nat | from <= a < to :: a / 4096 < from / 4096 + Steps(from, to))
       <==> from % 4096 + (to - from - 1) % 4096 < 4096
    ensures !(forall a: nat | 1 <= a < 4097 :: a / 4096 < 1 / 4096 + Steps(1, 4097))
  {
    var (b, r, q, m) := (from / 4096, from % 4096, (to - from - 1) / 4096, (to - from - 1) % 4096);
    assert Steps(from, to) == q + 1;
    assert to - 1 == 4096 * (b + q) + (r + m);
    assert (to - 1) / 4096 == b + q + (if r + m < 4096 then 0 else 1);
    forall a: nat | from <= a < to ensures a / 4096 <= (to - 1) / 4096 {
    }
    assert 4096 / 4096 == 1 && Steps(1, 4097) == 1;
  }

  lemma FewSteps(size: nat)
    requires size <= HEAP_START
    ensures Steps(0, size) <= VIRTUAL_PAGES
  {
  }

  /** `LockPages` while page tables are in use. */
  method LockFrames(ptm: PageTableManager, address: U64, pageCount: U64)
    requires ptm.Valid() && pageCount < TWO_31
    modifies ptm.pfa`freeMemory, ptm.pfa`usedMemory, ptm.pfa`pool, ptm.pfa.PageBitmap.Buffer
    ensures ptm.Valid() && ptm.phys[..] == old(ptm.phys[..]) && TakesMore(old(ptm.pfa.pool), ptm.pfa.pool)
    ensures forall k: nat | k < ptm.pfa.pool.Limit() && address / 4096 <= k < address / 4096 + pageCount
      && k < address / 4096 + 0x8_0000 :: ptm.pfa.pool.bits[k]
    ensures FreeCount(ptm.pfa.pool)
         >= FreeCount(old(ptm.pfa.pool)) - LockCost(old(ptm.pfa.pool.Limit()), address, pageCount)
  {
    hide Translate, TreeOk, FreeCount, LockCost, ApplyRange;
    ghost var pool := ptm.pfa.pool;
    LockRange(pool, address, pageCount);
    LockTakes(pool, address, pageCount);
    ptm.pfa.LockPages(address, pageCount);
    StillTaken(pool, ptm.pfa.pool, ptm.at);
  }

  lemma StillTaken(p: Pool, p': Pool, at: Tree)
    requires p.Valid() && p'.Valid() && p'.Limit() == p.Limit() && TablesTaken(p, at)
    requires forall k | 0 <= k < |p.bits| && p.bits[k] :: p'.bits[k]
    ensures TablesTaken(p', at)
  {
  }

  lemma StillIdentity(mem: seq<U64>, mem': seq<U64>, root: nat, n: nat, vp: nat, m: nat)
    requires IdentityMapped(mem, root, 0, n) && n <= VIRTUAL_PAGES
    requires IdentityMapped(mem', root, vp, m)
    requires forall wp: nat | wp < VIRTUAL_PAGES
      && !(vp <= wp < vp + m) :: Translate(mem', root, wp) == Translate(mem, root, wp)
    ensures IdentityMapped(mem', root, 0, n)
  {
    hide Translate;
  }

  /** The allocator part of `_start`: the boot pool, with the kernel's own pages locked. */
  method StartAllocator(mMap: seq<Descriptor>, bitmapMemory: array<bv8>, kernelStart: U64, kernelSize: U64,
      ghost stray: bool)
    returns (pfa: PageFrameAllocator)
    requires |mMap| < TWO_31 && MemorySize(mMap) / PAGE + 1 < TWO_31 && kernelSize / 4096 + 1 < TWO_31
    requires forall d | d in mMap && d.kind == CONVENTIONAL :: d.numPages < TWO_31
    requires BitmapSize(MemorySize(mMap)) < bitmapMemory.Length
    requires stray == AllBits(bitmapMemory[..])[BitmapSize(MemorySize(mMap)) * 8]
    modifies bitmapMemory
    ensures fresh(pfa) && fresh(pfa.PageBitmap) && pfa.PageBitmap.Buffer == bitmapMemory && pfa.Valid()
    ensures pfa.memorySizeBytes == MemorySize(mMap) && pfa.pool.Limit() == BitmapSize(MemorySize(mMap)) * 8
    ensures pfa.pool == KernelLocked(mMap, kernelStart, kernelSize, stray) && pfa.pool.bits[0]
    ensures TakesMore(BootPool(mMap, LargestFree(mMap).0, stray), pfa.pool)
    ensures pfa.reservedMemory == BootPool(mMap, LargestFree(mMap).0, stray).reserved
    ensures forall k: nat | k < pfa.pool.Limit() && k < kernelStart / 4096 + 0x8_0000
      && kernelStart / 4096 <= k <= kernelStart / 4096 + kernelSize / 4096 :: pfa.pool.bits[k]
  {
    hide BootPool, LargestFree, AllBits, ApplyRange, KernelLocked, TakesMore;
    var bitmap := new Bitmap(0, bitmapMemory);
    pfa := new PageFrameAllocator(bitmap);
    ghost var read := pfa.ReadEFIMemoryMap(mMap, bitmapMemory);
    LockedKernel(mMap, kernelStart, kernelSize, stray);
    pfa.LockPages(kernelStart, kernelSize / 4096 + 1);
  }

  lemma LockedKernel(mMap: seq<Descriptor>, kernelStart: U64, kernelSize: U64, stray: bool)
    requires MemorySize(mMap) / PAGE + 1 < TWO_31
    ensures var p := BootPool(mMap, LargestFree(mMap).0, stray);
      var q := KernelLocked(mMap, kernelStart, kernelSize, stray);
      && q == ApplyRange(Lock, p, kernelStart, kernelSize / 4096 + 1) && TakesMore(p, q) && q.bits[0]
      && q.reserved == p.reserved
      && forall k: nat | k < q.Limit() && k < kernelStart / 4096 + 0x8_0000
           && kernelStart / 4096 <= k <= kernelStart / 4096 + kernelSize / 4096 :: q.bits[k]
  {
    hide BootPool, LargestFree, ApplyRange;
    var p := BootPool(mMap, LargestFree(mMap).0, stray);
    BootKeeps(mMap, LargestFree(mMap).0, stray);
    PageZeroTaken(mMap, LargestFree(mMap).0, stray);
    LockRange(p, kernelStart, kernelSize / 4096 + 1);
    LockTakes(p, kernelStart, kernelSize / 4096 + 1);
    RangeCounter(Lock, p, kernelStart, kernelSize / 4096 + 1);
  }

  /** The pool once `_start` has locked the kernel. */
  ghost function KernelLocked(mMap: seq<Descriptor>, kernelStart: U64, kernelSize: U64, stray: bool): (p: Pool)
    ensures |p.bits| == BitmapSize(MemorySize(mMap)) * 8 + 1
  {
    ApplyRange(Lock, BootPool(mMap, LargestFree(mMap).0, stray), kernelStart, kernelSize / 4096 + 1)
  }

  /** The pages that start-up maps onto themselves. */
  ghost function IdentityPages(size: U64, fbBase: U64, fbBufferSize: U64): set<nat>
  {
    Span(0, Steps(0, size)) + Span(fbBase / PAGE, Steps(fbBase, FbEnd(fbBase, fbBufferSize)))
  }

  function Span(vp: nat, n: nat): (r: set<nat>)
    ensures forall wp :: wp in r <==> vp <= wp < vp + n
  {
    if n == 0 then {} else Span(vp, n - 1) + {vp + n - 1}
  }

  lemma IdentityIsMapped(mem: seq<U64>, root: nat, size: U64, fbBase: U64, fbBufferSize: U64)
    requires 0 < size <= HEAP_START && FbEnd(fbBase, fbBufferSize) <= HEAP_START
    requires IdentityMapped(mem, root, 0, Steps(0, size))
    requires IdentityMapped(mem, root, fbBase / PAGE, Steps(fbBase, FbEnd(fbBase, fbBufferSize)))
    ensures Mapped(mem, root, HEAP_START, [], IdentityPages(size, fbBase, fbBufferSize))
  {
    hide Translate;
    var fixed := IdentityPages(size, fbBase, fbBufferSize);
    forall wp | wp in fixed ensures wp < HEAP_START / PAGE && Translate(mem, root, wp) == Some(Mapping(wp, true)) {
      if wp < Steps(0, size) {
        assert wp * PAGE < size;
      } else {
        assert wp * PAGE < FbEnd(fbBase, fbBufferSize);
      }
    }
  }

  /**
   The memory sequence of `_start`. Given frames enough for the tables and the heap's first pages, it
   ends with memory and framebuffer mapped onto themselves, for good, and the heap one free segment on
   pages of its own.
   */
  method BootMemory(mMap: seq<Descriptor>, bitmapMemory: array<bv8>, phys: array<U64>, kernelStart: U64,
                    kernelSize: U64, fbBase: U64, fbBufferSize: U64, ghost stray: bool)
    returns (heap: KernelHeap)
    requires |mMap| < TWO_31 && 0 < MemorySize(mMap) && MemorySize(mMap) / PAGE + 1 < TWO_31
    requires forall d | d in mMap && d.kind == CONVENTIONAL :: d.numPages < TWO_31
    requires BitmapSize(MemorySize(mMap)) < bitmapMemory.Length
    requires stray == AllBits(bitmapMemory[..])[BitmapSize(MemorySize(mMap)) * 8]
    requires phys as object != bitmapMemory && phys.Length == BitmapSize(MemorySize(mMap)) * 8 * ENTRIES
    requires kernelSize / 4096 + 1 < TWO_31 && FbEnd(fbBase, fbBufferSize) <= HEAP_START
      && FbPages(fbBufferSize) < TWO_31
    requires FreeCount(KernelLocked(mMap, kernelStart, kernelSize, stray))
          >= BootFrames(MemorySize(mMap), BitmapSize(MemorySize(mMap)) * 8, fbBase, fbBufferSize)
    modifies phys, bitmapMemory
    ensures fresh(heap) && heap.Valid() && heap.space.ptm.phys == phys
    ensures heap.h == S.Heap(0x1000_0000_0000, 0x1000_0001_0000, [S.Seg(0x1000_0000_0000, 0xFFE0, true)])
    ensures forall a: nat | a < MemorySize(mMap) ::
      Translate(phys[..], heap.space.ptm.PML4, a / 4096) == Some(Mapping(a / 4096, true))
    ensures forall a: nat | fbBase <= a < fbBase + fbBufferSize + (if fbBase % 4096 == 0 then 0x1000 else 0) ::
      Translate(phys[..], heap.space.ptm.PML4, a / 4096) == Some(Mapping(a / 4096, true))
    ensures heap.space.ptm.pfa.Valid() && TakesMore(BootPool(mMap, LargestFree(mMap).0, stray), heap.space.ptm.pfa.pool)
    ensures forall k: nat | k < heap.space.ptm.pfa.pool.Limit() && k < kernelStart / 4096 + 0x8_0000
      && kernelStart / 4096 <= k <= kernelStart / 4096 + kernelSize / 4096 :: heap.space.ptm.pfa.pool.bits[k]
    ensures forall k: nat | k < heap.space.ptm.pfa.pool.Limit() && k < fbBase / 4096 + 0x8_0000
      && fbBase / 4096 <= k <= fbBase / 4096 + (fbBufferSize + 0x1000) / 4096 :: heap.space.ptm.pfa.pool.bits[k]
    ensures heap.space.fixed == IdentityPages(MemorySize(mMap), fbBase, fbBufferSize)
    ensures Mapped(phys[..], heap.space.ptm.PML4, HEAP_START, heap.space.pages, heap.space.fixed)
  {
    hide BootFrames, FreeCount, IdentityPages, Translate, AllBits, KernelLocked, MemorySize, FramesNeeded, Mapped;
    hide AddressSpace.Valid, TakesMore, BootPool, LargestFree;
    var space := StartSpace(mMap, bitmapMemory, phys, kernelStart, kernelSize, fbBase, fbBufferSize, stray);
    ghost var started := space.ptm.pfa.pool;
    heap := new KernelHeap(space);
    heap.InitializeHeap(HEAP_START, HEAP_PAGES);
    space.MappingHolds();
    FixedReads(phys[..], space.ptm.PML4, space.pages, MemorySize(mMap), fbBase, fbBufferSize);
    TakesOn(BootPool(mMap, LargestFree(mMap).0, stray), started, space.ptm.pfa.pool);
  }

  lemma TakesOn(p0: Pool, p1: Pool, p2: Pool)
    requires TakesMore(p0, p1) && TakesMore(p1, p2)
    ensures TakesMore(p0, p2) && |p2.bits| == |p1.bits|
    ensures forall k | 0 <= k < |p1.bits| && p1.bits[k] :: p2.bits[k]
  {
  }

  /** What the pages set aside at start-up say about addresses. */
  lemma FixedReads(mem: seq<U64>, root: nat, pages: seq<nat>, size: U64, fbBase: U64, fbBufferSize: U64)
    requires Mapped(mem, root, HEAP_START, pages, IdentityPages(size, fbBase, fbBufferSize))
    ensures OntoItself(mem, root, 0, size)
    ensures OntoItself(mem, root, fbBase, fbBase + fbBufferSize + (if fbBase % 4096 == 0 then 0x1000 else 0))
  {
    hide Translate;
    var fixed := IdentityPages(size, fbBase, fbBufferSize);
    forall a: nat | a < size ensures Translate(mem, root, a / 4096) == Some(Mapping(a / 4096, true)) {
      StepsCover(0, size, a);
      assert a / 4096 in fixed;
    }
    forall a: nat | fbBase <= a < fbBase + fbBufferSize + (if fbBase % 4096 == 0 then 0x1000 else 0)
      ensures Translate(mem, root, a / 4096) == Some(Mapping(a / 4096, true))
    {
      StepsCover(fbBase, fbBase + fbBufferSize + 0x1000, a);
      assert a / 4096 in fixed;
    }
  }

  /** The frames from `first` to `first + more` are taken, up to 2 GiB. */
  ghost predicate Taken(p: Pool, first: nat, more: nat)
  {
    forall k: nat | first <= k <= first + more && k < first + 0x8_0000 && k < |p.bits| - 1 :: p.bits[k]
  }

  /** `_start` up to the switch to the new page tables. */
  method StartSpace(mMap: seq<Descriptor>, bitmapMemory: array<bv8>, phys: array<U64>, kernelStart: U64,
                    kernelSize: U64, fbBase: U64, fbBufferSize: U64, ghost stray: bool)
    returns (space: AddressSpace)
    requires |mMap| < TWO_31 && 0 < MemorySize(mMap) && MemorySize(mMap) / PAGE + 1 < TWO_31
    requires forall d | d in mMap && d.kind == CONVENTIONAL :: d.numPages < TWO_31
    requires BitmapSize(MemorySize(mMap)) < bitmapMemory.Length
    requires stray == AllBits(bitmapMemory[..])[BitmapSize(MemorySize(mMap)) * 8]
    requires phys as object != bitmapMemory && phys.Length == BitmapSize(MemorySize(mMap)) * 8 * ENTRIES
    requires kernelSize / 4096 + 1 < TWO_31 && FbEnd(fbBase, fbBufferSize) <= HEAP_START
      && FbPages(fbBufferSize) < TWO_31
    requires FreeCount(KernelLocked(mMap, kernelStart, kernelSize, stray))
          >= BootFrames(MemorySize(mMap), BitmapSize(MemorySize(mMap)) * 8, fbBase, fbBufferSize)
    modifies phys, bitmapMemory
    ensures fresh(space) && fresh(space.ptm) && fresh(space.ptm.pfa) && space.ptm.pfa.PageBitmap.Buffer == bitmapMemory
    ensures space.Valid() && space.ptm.phys == phys && space.base == HEAP_START && space.pages == []
    ensures forall a: nat | a < MemorySize(mMap) ::
      Translate(phys[..], space.ptm.PML4, a / 4096) == Some(Mapping(a / 4096, true))
    ensures forall a: nat | fbBase <= a < fbBase + fbBufferSize + (if fbBase % 4096 == 0 then 0x1000 else 0) ::
      Translate(phys[..], space.ptm.PML4, a / 4096) == Some(Mapping(a / 4096, true))
    ensures space.ptm.pfa.Valid() && TakesMore(BootPool(mMap, LargestFree(mMap).0, stray), space.ptm.pfa.pool)
    ensures Taken(space.ptm.pfa.pool, kernelStart / 4096, kernelSize / 4096)
    ensures Taken(space.ptm.pfa.pool, fbBase / 4096, (fbBufferSize + 0x1000) / 4096)
    ensures space.fixed == IdentityPages(MemorySize(mMap), fbBase, fbBufferSize)
    ensures FreeCount(space.ptm.pfa.pool) >= FramesNeeded(space.ptm.at.Keys, HEAP_START / PAGE, HEAP_PAGES)
  {
    hide BootFrames, FreeCount, IdentityPages, Translate, AllBits, KernelLocked, MemorySize, FramesNeeded, Mapped;
    hide IdentityMapped, TakesMore, BootPool, LargestFree, TreeOk, TablesTaken;
    var pfa := StartAllocator(mMap, bitmapMemory, kernelStart, kernelSize, stray);
    var size := pfa.memorySizeBytes;
    var ptm := new PageTableManager(pfa, phys);
    ghost var locked := pfa.pool;
    MapMachine(ptm, size, fbBase, fbBufferSize);
    TakesOn(BootPool(mMap, LargestFree(mMap).0, stray), locked, pfa.pool);
    IdentityIsMapped(phys[..], ptm.PML4, size, fbBase, fbBufferSize);
    space := new AddressSpace(ptm, HEAP_START, IdentityPages(size, fbBase, fbBufferSize));
  }
}
