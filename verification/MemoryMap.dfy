/** What the EFI memory map makes of the frame pool at boot, for every memory map. */
module MemoryMap {
  import opened Words
  import opened FramePool

  const CONVENTIONAL := 7

  datatype Descriptor = Descriptor(kind: nat, physAddr: U64, numPages: U64)

  function Bytes(d: Descriptor): U64 { d.numPages * PAGE % TWO_64 }

  /** The sum of all descriptor sizes, in 64-bit arithmetic. */
  function MemorySize(mMap: seq<Descriptor>): U64
  {
    if mMap == [] then 0 else Add64(MemorySize(mMap[..|mMap| - 1]), Bytes(mMap[|mMap| - 1]))
  }

  /** Address and size of the first largest conventional region; zeros when there is none. */
  function LargestFree(mMap: seq<Descriptor>): (U64, U64)
  {
    if mMap == [] then (0, 0)
    else
      var r := LargestFree(mMap[..|mMap| - 1]);
      var d := mMap[|mMap| - 1];
      if d.kind == CONVENTIONAL && Bytes(d) > r.1 then (d.physAddr, Bytes(d)) else r
  }

  lemma {:induction false} LargestIsMaximum(mMap: seq<Descriptor>)
    ensures forall d | d in mMap && d.kind == 7 :: Bytes(d) <= LargestFree(mMap).1
    ensures LargestFree(mMap).1 > 0 ==>
      exists i :: 0 <= i < |mMap| && mMap[i].kind == 7 && LargestFree(mMap) == (mMap[i].physAddr, Bytes(mMap[i]))
        && forall j | 0 <= j < i && mMap[j].kind == 7 :: Bytes(mMap[j]) < Bytes(mMap[i])
    ensures LargestFree(mMap).1 == 0 ==> LargestFree(mMap).0 == 0
  {
    if mMap != [] {
      var n := |mMap| - 1;
      LargestIsMaximum(mMap[..n]);
      assert mMap == mMap[..n] + [mMap[n]];
      if LargestFree(mMap) == LargestFree(mMap[..n]) && LargestFree(mMap).1 > 0 {
        var i :| 0 <= i < n && mMap[..n][i].kind == 7 && LargestFree(mMap) == (mMap[i].physAddr, Bytes(mMap[i]))
          && forall j | 0 <= j < i && mMap[..n][j].kind == 7 :: Bytes(mMap[..n][j]) < Bytes(mMap[i]);
        forall j | 0 <= j < i && mMap[j].kind == 7 ensures Bytes(mMap[j]) < Bytes(mMap[i]) {
          assert mMap[..n][j] == mMap[j];
        }
      } else if LargestFree(mMap).1 > 0 {
        forall j | 0 <= j < n && mMap[j].kind == 7 ensures Bytes(mMap[j]) < Bytes(mMap[n]) {
          assert mMap[..n][j] == mMap[j];
        }
      }
    }
  }

  /** The pages of all regions, without wrap-around. */
  function AllPages(mMap: seq<Descriptor>): nat
  {
    if mMap == [] then 0 else AllPages(mMap[..|mMap| - 1]) + mMap[|mMap| - 1].numPages
  }

  /** The memory size is that of all regions, modulo 2^64. */
  lemma {:induction false} MemorySizeIs(mMap: seq<Descriptor>)
    ensures MemorySize(mMap) == 4096 * AllPages(mMap) % TWO_64
  {
    if mMap != [] {
      var front, d := mMap[..|mMap| - 1], mMap[|mMap| - 1];
      MemorySizeIs(front);
      ModAdd(4096 * AllPages(front), Bytes(d));
      ModAdd(d.numPages * 4096, 4096 * AllPages(front));
    }
  }

  /**
   The bitmap has a bit for every frame up to the last, and at most eight more; the pages locked for it
   hold its bytes, and at most one page more.
   */
  lemma BitmapFits(size: U64)
    ensures size / 4096 < 8 * BitmapSize(size) <= size / 4096 + 8
    ensures BitmapSize(size) < 4096 * BitmapPages(size) <= BitmapSize(size) + 4096
  {
  }

  function BitmapSize(memorySize: U64): nat { memorySize / PAGE / 8 + 1 }

  /** The number of pages locked for a bitmap of that many bytes of memory. */
  function BitmapPages(memorySize: U64): nat { BitmapSize(memorySize) / PAGE + 1 }

  /** The flags just after `InitBitmap`; `stray` is the foreign bit after the bitmap. */
  function EmptyBits(bitmapSize: nat, stray: bool): seq<bool>
  {
    seq(bitmapSize * 8, _ => false) + [stray]
  }

  function EmptyPool(memorySize: U64, stray: bool): Pool
  {
    Pool(EmptyBits(BitmapSize(memorySize), stray), 0, memorySize, 0, 0)
  }

  /** Unreserving every conventional region, in order. */
  function UnreserveAll(p: Pool, mMap: seq<Descriptor>): Pool
    requires |p.bits| > 0
    ensures |UnreserveAll(p, mMap).bits| == |p.bits|
  {
    if mMap == [] then p
    else
      var q := UnreserveAll(p, mMap[..|mMap| - 1]);
      var d := mMap[|mMap| - 1];
      if d.kind == CONVENTIONAL then ApplyRange(Unreserve, q, d.physAddr, d.numPages) else q
  }

  /** All frames reserved, the conventional regions given back, low memory and the bitmap taken again. */
  function FilledPool(p: Pool, mMap: seq<Descriptor>, pages: nat, buffer: U64, bitmapPages: nat): (q: Pool)
    requires |p.bits| > 0
    ensures |q.bits| == |p.bits|
  {
    var p2 := UnreserveAll(ApplyRange(Reserve, p, 0, pages), mMap);
    ApplyRange(Lock, ApplyRange(Reserve, p2, 0, 0x100), buffer, bitmapPages)
  }

  /** The pool that `ReadEFIMemoryMap` builds, with the bitmap placed at `buffer`. */
  function BootPool(mMap: seq<Descriptor>, buffer: U64, stray: bool): (p: Pool)
    ensures |p.bits| == BitmapSize(MemorySize(mMap)) * 8 + 1
  {
    var size := MemorySize(mMap);
    FilledPool(EmptyPool(size, stray), mMap, size / PAGE + 1, buffer, BitmapPages(size))
  }

  lemma {:induction false} UnreserveKeeps(p: Pool, mMap: seq<Descriptor>)
    requires p.Valid()
    ensures UnreserveAll(p, mMap).Valid()
    ensures TakenBalance(UnreserveAll(p, mMap)) == TakenBalance(p)
    ensures FreeBalance(UnreserveAll(p, mMap)) == FreeBalance(p)
  {
    if mMap != [] {
      var d := mMap[|mMap| - 1];
      UnreserveKeeps(p, mMap[..|mMap| - 1]);
      RangeKeeps(Unreserve, UnreserveAll(p, mMap[..|mMap| - 1]), d.physAddr, d.numPages);
    }
  }

  lemma {:induction false} CountClear(bits: seq<bool>)
    requires forall k | 0 <= k < |bits| :: !bits[k]
    ensures Count(bits) == 0
  {
    if bits != [] { CountClear(bits[..|bits| - 1]); }
  }

  lemma EmptyIsAccounted(size: U64, stray: bool)
    requires size / PAGE + 1 < TWO_31
    ensures EmptyPool(size, stray).Valid() && Accounted(EmptyPool(size, stray), size)
  {
    var p := EmptyPool(size, stray);
    CountClear(p.bits[..p.Limit()]);
  }

  /**
   The bit behind the bitmap once boot is done, from its first value and the memory map: only a
   conventional region clears it, and the low reservation or the bitmap's own pages set it.
   */
  ghost predicate StrayAfterBoot(mMap: seq<Descriptor>, buffer: U64, stray: bool)
  {
    var size := MemorySize(mMap);
    var k := BitmapSize(size) * 8;
    k < 0x100 || Reaches(buffer, BitmapPages(size), k) || (stray && !ConventionalReaches(mMap, k))
  }

  lemma BootStray(mMap: seq<Descriptor>, buffer: U64, stray: bool)
    requires MemorySize(mMap) / PAGE + 1 < TWO_31
    ensures var p := BootPool(mMap, buffer, stray);
      p.bits[p.Limit()] == StrayAfterBoot(mMap, buffer, stray)
  {
    hide Reaches, ConventionalReaches, MemorySize, FilledPool;
    var size := MemorySize(mMap);
    var k := BitmapSize(size) * 8;
    FilledBits(EmptyPool(size, stray), mMap, size / PAGE + 1, buffer, BitmapPages(size), k);
    ReservedBelow2GiB(size / PAGE + 1, k);
  }

  /**
   After boot the cursor invariant holds, and the counters agree with the bitmap exactly when boot
   leaves the bit behind it as it was. A set bit stays unless a conventional region reaches it and
   nothing takes it again; a clear one stays unless the low reservation or the bitmap's pages reach it.
   */
  lemma BootKeeps(mMap: seq<Descriptor>, buffer: U64, stray: bool)
    requires MemorySize(mMap) / PAGE + 1 < TWO_31
    ensures BootPool(mMap, buffer, stray).Valid()
    ensures Accounted(BootPool(mMap, buffer, stray), MemorySize(mMap)) <==>
      (stray <==> StrayAfterBoot(mMap, buffer, stray))
  {
    var size := MemorySize(mMap);
    var p0 := EmptyPool(size, stray);
    EmptyIsAccounted(size, stray);
    FillKeeps(p0, mMap, size / PAGE + 1, buffer, BitmapPages(size));
    BootBalanced(BootPool(mMap, buffer, stray), p0, size, stray);
    BootStray(mMap, buffer, stray);
  }

  lemma {:induction false} UnreserveCounter(p: Pool, mMap: seq<Descriptor>)
    requires |p.bits| > 0
    ensures UnreserveAll(p, mMap).used == p.used
  {
    if mMap != [] {
      var d := mMap[|mMap| - 1];
      UnreserveCounter(p, mMap[..|mMap| - 1]);
      RangeCounter(Unreserve, UnreserveAll(p, mMap[..|mMap| - 1]), d.physAddr, d.numPages);
    }
  }

  /**
   Which of the two counters boot puts a frame in: what is set before the bitmap is locked is reserved,
   and what locking the bitmap adds is used.
   */
  lemma BootCounters(mMap: seq<Descriptor>, buffer: U64, stray: bool)
    requires MemorySize(mMap) / PAGE + 1 < TWO_31
    ensures var (size, p) := (MemorySize(mMap), BootPool(mMap, buffer, stray));
      var q := FilledPool(EmptyPool(size, stray), mMap, size / PAGE + 1, buffer, 0);
      && q.used == 0 && p.reserved == q.reserved
      && q.reserved == (4096 * Count(q.bits) - (if stray then 4096 else 0)) % TWO_64
      && p.used == 4096 * (Count(p.bits) - Count(q.bits)) % TWO_64
  {
    var size := MemorySize(mMap);
    var p0 := EmptyPool(size, stray);
    var p, q := BootPool(mMap, buffer, stray), FilledPool(p0, mMap, size / PAGE + 1, buffer, 0);
    assert p == FilledPool(p0, mMap, size / PAGE + 1, buffer, BitmapPages(size)) && p0.used == 0;
    hide FilledPool, BootPool, Count, EmptyPool, MemorySize, TakenBalance;
    FilledBalance(size, mMap, buffer, BitmapPages(size), stray);
    FilledBalance(size, mMap, buffer, 0, stray);
    FillCounters(p0, mMap, size / PAGE + 1, buffer, BitmapPages(size));
    CountersOf(p, q, if stray then 4096 else 0);
  }

  lemma FilledBalance(size: U64, mMap: seq<Descriptor>, buffer: U64, bitmapPages: nat, stray: bool)
    requires size / PAGE + 1 < TWO_31
    ensures TakenBalance(FilledPool(EmptyPool(size, stray), mMap, size / PAGE + 1, buffer, bitmapPages))
         == (-(if stray then 4096 else 0)) % TWO_64
  {
    var p0 := EmptyPool(size, stray);
    EmptyIsAccounted(size, stray);
    assert p0.bits[p0.Limit()] == stray;
    hide FilledPool, EmptyPool, Count, Accounted, TakenBalance;
    BalanceOfAccounted(p0, size);
    FillKeeps(p0, mMap, size / PAGE + 1, buffer, bitmapPages);
  }

  lemma CountersOf(p: Pool, q: Pool, b: int)
    requires TakenBalance(p) == -b % TWO_64 && TakenBalance(q) == -b % TWO_64
    requires q.used == 0 && p.reserved == q.reserved
    ensures q.reserved == (4096 * Count(q.bits) - b) % TWO_64
    ensures p.used == 4096 * (Count(p.bits) - Count(q.bits)) % TWO_64
  {
    hide Count;
    var x, y := 4096 * Count(p.bits), 4096 * Count(q.bits);
    CountersApart(p.used, q.reserved, x, y, b);
    assert 4096 * (Count(p.bits) - Count(q.bits)) == x - y;
  }

  lemma CountersApart(used: U64, reserved: U64, p: int, q: int, b: int)
    requires (used + reserved - p) % TWO_64 == -b % TWO_64 && (reserved - q) % TWO_64 == -b % TWO_64
    ensures reserved == (q - b) % TWO_64 && used == (p - q) % TWO_64
  {
    Congruent(used + reserved - p, -b);
    Congruent(reserved - q, -b);
    Congruent(reserved, q - b);
    ModAdd(used + reserved - p + b, -(reserved - q + b));
    Congruent(used, p - q);
  }

  /** Only the last of boot's loops uses memory; the others reserve it. */
  lemma FillCounters(p: Pool, mMap: seq<Descriptor>, pages: nat, buffer: U64, bitmapPages: nat)
    requires |p.bits| > 0
    ensures FilledPool(p, mMap, pages, buffer, bitmapPages).reserved == FilledPool(p, mMap, pages, buffer, 0).reserved
    ensures FilledPool(p, mMap, pages, buffer, 0).used == p.used
  {
    var p1 := ApplyRange(Reserve, p, 0, pages);
    var p2 := UnreserveAll(p1, mMap);
    var p3 := ApplyRange(Reserve, p2, 0, 0x100);
    RangeCounter(Reserve, p, 0, pages);
    UnreserveCounter(p1, mMap);
    RangeCounter(Reserve, p2, 0, 0x100);
    RangeCounter(Lock, p3, buffer, bitmapPages);
    RangeNone(Lock, p3, buffer);
    hide ApplyRange, UnreserveAll;
  }

  /**
   A machine with 16 MiB of memory from 1 MiB on: the region reaches past the bitmap's last flag, and
   if the bit there was set, the counters are wrong straight after boot.
   */
  lemma BootMiscounts()
    ensures var mMap := [Descriptor(7, 0x10_0000, 0x1000)];
      !Accounted(BootPool(mMap, LargestFree(mMap).0, true), MemorySize(mMap))
  {
    var d := Descriptor(CONVENTIONAL, 0x10_0000, 0x1000);
    var mMap := [d];
    assert mMap[..0] == [] && mMap[0] == d && d in mMap;
    assert MemorySize(mMap) == 0x100_0000 && LargestFree(mMap) == (0x10_0000, 0x100_0000);
    assert Reaches(d.physAddr, d.numPages, 0x1008);
    hide BootPool, Accounted, MemorySize, LargestFree;
    BootKeeps(mMap, 0x10_0000, true);
  }

  lemma BootBalanced(p: Pool, p0: Pool, size: U64, stray: bool)
    requires p0.Valid() && Accounted(p0, size) && p0.bits[p0.Limit()] == stray
    requires p.Valid() && TakenBalance(p) == TakenBalance(p0) && FreeBalance(p) == FreeBalance(p0)
    ensures Accounted(p, size) <==> p.bits[p.Limit()] == stray
  {
    BalanceOfAccounted(p0, size);
    AccountedByBalance(p, size, stray);
  }

  lemma FillKeeps(p: Pool, mMap: seq<Descriptor>, pages: nat, buffer: U64, bitmapPages: nat)
    requires p.Valid()
    ensures var q := FilledPool(p, mMap, pages, buffer, bitmapPages);
      q.Valid() && TakenBalance(q) == TakenBalance(p) && FreeBalance(q) == FreeBalance(p)
  {
    var p1 := ApplyRange(Reserve, p, 0, pages);
    var p2 := UnreserveAll(p1, mMap);
    RangeKeeps(Reserve, p, 0, pages);
    UnreserveKeeps(p1, mMap);
    RangeKeeps(Reserve, p2, 0, 0x100);
    RangeKeeps(Lock, ApplyRange(Reserve, p2, 0, 0x100), buffer, bitmapPages);
  }

  /** Some conventional region's loop operates on frame `k`. */
  ghost predicate ConventionalReaches(mMap: seq<Descriptor>, k: nat)
  {
    exists d :: d in mMap && d.kind == CONVENTIONAL && Reaches(d.physAddr, d.numPages, k)
  }

  lemma {:induction false} UnreserveBits(p: Pool, mMap: seq<Descriptor>, k: nat)
    requires k < |p.bits|
    ensures UnreserveAll(p, mMap).bits[k] == (p.bits[k] && !ConventionalReaches(mMap, k))
  {
    hide Reaches;
    if mMap != [] {
      var n := |mMap| - 1;
      var d := mMap[n];
      UnreserveBits(p, mMap[..n], k);
      assert mMap == mMap[..n] + [d];
      assert d in mMap;
      if d.kind == CONVENTIONAL {
        RangeBits(Unreserve, UnreserveAll(p, mMap[..n]), d.physAddr, d.numPages);
      }
      if ConventionalReaches(mMap[..n], k) {
        var e :| e in mMap[..n] && e.kind == CONVENTIONAL && Reaches(e.physAddr, e.numPages, k);
        assert e in mMap;
      }
    }
  }

  lemma FilledBits(p: Pool, mMap: seq<Descriptor>, pages: nat, buffer: U64, bitmapPages: nat, k: nat)
    requires k < |p.bits|
    ensures !FilledPool(p, mMap, pages, buffer, bitmapPages).bits[k] <==>
      && k >= 0x100 && !Reaches(buffer, bitmapPages, k)
      && (Reaches(0, pages, k) || p.bits[k] ==> ConventionalReaches(mMap, k))
  {
    LowReserved(k);
    hide Reaches;
    var p1 := ApplyRange(Reserve, p, 0, pages);
    var p2 := UnreserveAll(p1, mMap);
    RangeBits(Reserve, p, 0, pages);
    UnreserveBits(p1, mMap, k);
    RangeBits(Reserve, p2, 0, 0x100);
    RangeBits(Lock, ApplyRange(Reserve, p2, 0, 0x100), buffer, bitmapPages);
  }

  lemma LowReserved(k: nat)
    ensures Reaches(0, 0x100, k) <==> k < 0x100
  {
  }

  /** The loop that reserves all of memory reaches only the frames below 2 GiB. */
  lemma ReservedBelow2GiB(n: nat, k: nat)
    requires k < ALL_FRAMES - WINDOW
    ensures Reaches(0, n, k) <==> k < n && k < WINDOW
  {
  }

  /** Which frames are free after boot, for every memory map and with every wrap of the loops. */
  lemma BootExact(mMap: seq<Descriptor>, buffer: U64, stray: bool, k: nat)
    requires k < BitmapSize(MemorySize(mMap)) * 8 && k < ALL_FRAMES - WINDOW
    ensures BootPool(mMap, buffer, stray).IsFree(k) <==>
      && k >= 0x100 && !Reaches(buffer, BitmapPages(MemorySize(mMap)), k)
      && (k <= MemorySize(mMap) / PAGE && k < WINDOW ==> ConventionalReaches(mMap, k))
  {
    var size := MemorySize(mMap);
    FilledBits(EmptyPool(size, stray), mMap, size / PAGE + 1, buffer, BitmapPages(size), k);
    ReservedBelow2GiB(size / PAGE + 1, k);
  }

  /** The up to eight frames past the end of memory that share its last bitmap byte are left free. */
  lemma BootTail(mMap: seq<Descriptor>, buffer: U64, stray: bool, k: nat)
    requires MemorySize(mMap) / PAGE < k < BitmapSize(MemorySize(mMap)) * 8 && k < ALL_FRAMES - WINDOW
    ensures BootPool(mMap, buffer, stray).IsFree(k) <==>
      k >= 0x100 && !Reaches(buffer, BitmapPages(MemorySize(mMap)), k)
  {
    hide Reaches;
    BootExact(mMap, buffer, stray, k);
  }

  /** Frame `k` lies in some conventional region. */
  ghost predicate IsConventional(mMap: seq<Descriptor>, k: nat)
  {
    exists d :: d in mMap && d.kind == 7 && InRange(d.physAddr, d.numPages, k)
  }

  /** What boot is meant to do with frame `k`. */
  ghost predicate ShouldBeFree(mMap: seq<Descriptor>, buffer: U64, k: nat)
  {
    k >= 0x100 && IsConventional(mMap, k) && !InRange(buffer, BitmapPages(MemorySize(mMap)), k)
  }

  /**
   The frames below 2 GiB that the loop over a region reaches: its own; for a region longer than
   2 GiB, as many from 2 GiB before its address on as it is longer; and for one that runs off the
   address space, the first frames.
   */
  lemma ReachesBelow2GiB(address: U64, n: nat, k: nat)
    requires k < WINDOW
    ensures var a := address / PAGE;
      Reaches(address, n, k) <==>
        || InRange(address, n, k)
        || (a - WINDOW <= k < a && k < a - 2 * WINDOW + n)
        || (k + ALL_FRAMES < a + n && k + ALL_FRAMES < a + WINDOW)
  {
  }

  lemma ConventionalIsReached(mMap: seq<Descriptor>, k: nat)
    requires k < WINDOW && IsConventional(mMap, k)
    ensures ConventionalReaches(mMap, k)
  {
    var d :| d in mMap && d.kind == CONVENTIONAL && InRange(d.physAddr, d.numPages, k);
    ReachesBelow2GiB(d.physAddr, d.numPages, k);
  }

  /**
   Boot does right by frame `k`: a conventional frame is taken only for the bitmap; any other is kept
   by the bitmap's loop, or reserved to begin with and reached by no region's loop.
   */
  ghost predicate BootRight(mMap: seq<Descriptor>, buffer: U64, k: nat)
  {
    var pages := BitmapPages(MemorySize(mMap));
    if IsConventional(mMap, k) then Reaches(buffer, pages, k) <==> InRange(buffer, pages, k)
    else Reaches(buffer, pages, k) || (k < WINDOW && !ConventionalReaches(mMap, k))
  }

  /** Frame by frame, for every memory map: boot leaves the frame free when it should, and only then. */
  lemma BootFrame(mMap: seq<Descriptor>, buffer: U64, stray: bool, k: nat)
    requires k <= MemorySize(mMap) / PAGE && k < ALL_FRAMES - WINDOW
    ensures (BootPool(mMap, buffer, stray).IsFree(k) <==> ShouldBeFree(mMap, buffer, k))
      <==> k < 0x100 || BootRight(mMap, buffer, k)
  {
    hide Reaches, BootPool;
    BootExact(mMap, buffer, stray, k);
    if k < WINDOW && IsConventional(mMap, k) { ConventionalIsReached(mMap, k); }
  }

  /** The boot property over all of memory, for every memory map and wherever the bitmap is. */
  lemma BootRightFrames(mMap: seq<Descriptor>, buffer: U64, stray: bool)
    requires MemorySize(mMap) / PAGE < ALL_FRAMES - WINDOW
    ensures var last := MemorySize(mMap) / PAGE;
      (forall k: nat | k <= last :: BootPool(mMap, buffer, stray).IsFree(k) <==> ShouldBeFree(mMap, buffer, k))
      <==> (forall k: nat | 0x100 <= k <= last :: BootRight(mMap, buffer, k))
  {
    hide BootPool, ShouldBeFree, BootRight;
    forall k: nat | k <= MemorySize(mMap) / PAGE
      ensures (BootPool(mMap, buffer, stray).IsFree(k) <==> ShouldBeFree(mMap, buffer, k))
        <==> k < 0x100 || BootRight(mMap, buffer, k)
    {
      BootFrame(mMap, buffer, stray, k);
    }
  }

  /** Frame `k` is neither conventional nor the bitmap's, and boot leaves it free all the same. */
  ghost predicate Escapes(mMap: seq<Descriptor>, buffer: U64, k: nat)
  {
    && k >= 0x100 && !IsConventional(mMap, k) && !InRange(buffer, BitmapPages(MemorySize(mMap)), k)
    && (k >= WINDOW || ConventionalReaches(mMap, k))
  }

  /**
   With the bitmap inside the address space: every frame of memory is free exactly when it should be,
   if and only if none escapes. A frame escapes when the loop that reserves all of memory does not
   reach it, past 2 GiB, or the loop over a region longer than 2 GiB comes by it, below 2 GiB.
   */
  lemma BootFreesTheRightFrames(mMap: seq<Descriptor>, buffer: U64, stray: bool)
    requires MemorySize(mMap) / PAGE + 1 < TWO_31
    requires buffer + BitmapPages(MemorySize(mMap)) * PAGE <= TWO_64
    ensures var last := MemorySize(mMap) / PAGE;
      (forall k: nat | k <= last :: BootPool(mMap, buffer, stray).IsFree(k) <==> ShouldBeFree(mMap, buffer, k))
      <==> (forall k: nat | k <= last :: !Escapes(mMap, buffer, k))
  {
    hide BootPool, ShouldBeFree, Reaches, IsConventional, ConventionalReaches;
    var last := MemorySize(mMap) / PAGE;
    BootRightFrames(mMap, buffer, stray);
    FewBitmapPages(MemorySize(mMap));
    RangeComplete(buffer, BitmapPages(MemorySize(mMap)));
    forall k: nat | 0x100 <= k <= last ensures BootRight(mMap, buffer, k) <==> !Escapes(mMap, buffer, k) {
    }
  }

  lemma FewBitmapPages(size: U64)
    requires size / PAGE + 1 < TWO_31
    ensures BitmapPages(size) <= WINDOW
  {
  }

  /** Regions of at most 2 GiB inside the address space let nothing below 2 GiB escape. */
  lemma ShortRegionsBelow2GiB(mMap: seq<Descriptor>, buffer: U64, k: nat)
    requires k < WINDOW
    requires forall d | d in mMap && d.kind == CONVENTIONAL ::
      d.numPages <= WINDOW && d.physAddr + d.numPages * PAGE <= TWO_64
    ensures !Escapes(mMap, buffer, k)
  {
    hide Reaches;
    if ConventionalReaches(mMap, k) {
      var d :| d in mMap && d.kind == CONVENTIONAL && Reaches(d.physAddr, d.numPages, k);
      RangeComplete(d.physAddr, d.numPages);
    }
  }

  /** A machine with 2 GiB of ordinary memory and one reserved page above it: that page is handed out. */
  lemma ReservedPageIsFree()
    ensures var mMap := [Descriptor(7, 0, 0x8_0000), Descriptor(0, 0x8000_0000, 1)];
      BootPool(mMap, LargestFree(mMap).0, false).IsFree(0x8_0000)
      && !ShouldBeFree(mMap, LargestFree(mMap).0, 0x8_0000)
  {
    TwoRegionsEscape(Descriptor(7, 0, 0x8_0000), Descriptor(0, 0x8000_0000, 1), 0x8_0000);
  }

  /**
   A machine with 2 GiB of reserved memory and 3 GiB of ordinary memory from 3 GiB on: the loop over
   the region comes by the reserved page at 1 GiB, and that page is handed out.
   */
  lemma ReservedGigabyteIsFree()
    ensures var mMap := [Descriptor(7, 0xC000_0000, 0xC_0000), Descriptor(0, 0, 0x8_0000)];
      BootPool(mMap, LargestFree(mMap).0, false).IsFree(0x4_0000)
      && !ShouldBeFree(mMap, LargestFree(mMap).0, 0x4_0000)
  {
    ReachesBelow2GiB(0xC000_0000, 0xC_0000, 0x4_0000);
    TwoRegionsEscape(Descriptor(7, 0xC000_0000, 0xC_0000), Descriptor(0, 0, 0x8_0000), 0x4_0000);
  }

  /** With the bitmap at the front of the only ordinary region, a frame outside that region escapes. */
  lemma TwoRegionsEscape(d: Descriptor, e: Descriptor, k: nat)
    requires d.kind == 7 && e.kind != 7 && Bytes(d) > 0 && 0x100 <= k <= WINDOW
    requires k >= WINDOW || Reaches(d.physAddr, d.numPages, k)
    requires k < BitmapSize(Add64(Bytes(d), Bytes(e))) * 8 && BitmapPages(Add64(Bytes(d), Bytes(e))) <= d.numPages
    requires d.physAddr + d.numPages * PAGE <= TWO_64 && !InRange(d.physAddr, d.numPages, k)
    requires BitmapPages(Add64(Bytes(d), Bytes(e))) <= WINDOW
    ensures BootPool([d, e], LargestFree([d, e]).0, false).IsFree(k)
    ensures !ShouldBeFree([d, e], LargestFree([d, e]).0, k)
  {
    var mMap := [d, e];
    TwoRegions(d, e);
    RangeComplete(d.physAddr, BitmapPages(MemorySize(mMap)));
    hide BootPool, MemorySize, LargestFree, Reaches, Bytes;
    BootExact(mMap, d.physAddr, false, k);
    assert d in mMap;
  }

  lemma TwoRegions(d: Descriptor, e: Descriptor)
    requires d.kind == 7 && e.kind != 7 && Bytes(d) > 0
    ensures MemorySize([d, e]) == Add64(Bytes(d), Bytes(e)) && LargestFree([d, e]) == (d.physAddr, Bytes(d))
  {
    hide Bytes;
    var mMap := [d, e];
    assert mMap[..1] == [d] && [d][..0] == [];
    assert MemorySize([d]) == Bytes(d) && LargestFree([d]) == (d.physAddr, Bytes(d));
  }
}
