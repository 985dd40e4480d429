/** The page frame allocator in place, refining FramePool, and its set-up from the EFI memory map. */
module PageFrameAllocators {
  import opened Words
  import opened Bitmaps
  import opened FramePool
  import opened MemoryMap

  class PageFrameAllocator {
    const PageBitmap: Bitmap
    var BufferAddress: U64
    var freeMemory: U64
    var reservedMemory: U64
    var usedMemory: U64
    var pageBitmapIndex: nat
    var Initialized: bool
    var memorySizeBytes: U64
    /** The abstract state that the fields and the bitmap represent. */
    ghost var pool: Pool

    /** The zero-initialised globals around a caller's bitmap structure. */
    constructor (bitmap: Bitmap)
      ensures PageBitmap == bitmap && !Initialized
      ensures freeMemory == reservedMemory == usedMemory == pageBitmapIndex == memorySizeBytes == 0
    {
      PageBitmap := bitmap;
      BufferAddress, freeMemory, reservedMemory, usedMemory := 0, 0, 0, 0;
      pageBitmapIndex, memorySizeBytes, Initialized := 0, 0, false;
      pool := Pool([], 0, 0, 0, 0);
    }

    ghost predicate Valid()
      reads this, PageBitmap, PageBitmap.Buffer
    {
      && PageBitmap.Valid()
      && pool == Pool(AllBits(PageBitmap.Buffer[..])[..PageBitmap.Size * 8 + 1], pageBitmapIndex,
                      freeMemory, usedMemory, reservedMemory)
      && pool.Valid()
    }

    /** Moves the cursor over taken frames. */
    method SkipTaken()
      requires Valid()
      modifies `pageBitmapIndex
      ensures pool.cursor <= pageBitmapIndex <= pool.Limit() && PageBitmap.Size * 8 == pool.Limit()
      ensures forall j | pool.cursor <= j < pageBitmapIndex :: pool.bits[j]
      ensures pageBitmapIndex < pool.Limit() ==> !pool.bits[pageBitmapIndex]
    {
      while pageBitmapIndex < PageBitmap.Size * 8 && PageBitmap.GetBitmap(pageBitmapIndex)
        invariant pool.cursor <= pageBitmapIndex <= PageBitmap.Size * 8
        invariant forall j | pool.cursor <= j < pageBitmapIndex :: pool.bits[j]
        decreases PageBitmap.Size * 8 - pageBitmapIndex
      {
        pageBitmapIndex := pageBitmapIndex + 1;
      }
    }

    method RequestPage() returns (address: nat)
      requires Valid()
      modifies `freeMemory, `usedMemory, `pageBitmapIndex, `pool, PageBitmap.Buffer
      ensures Valid() && pool == Request(old(pool)).0
      ensures match Request(old(pool)).1
        case Some(k) => address == k * PAGE && address / PAGE == k
        case None => address == 0
      ensures var (k, p) := (address / 4096, old(pool));
        if forall j: nat | j < p.Limit() :: p.bits[j] then address == 0 && pool.bits == p.bits
        else
          && address % 4096 == 0 && k < p.Limit() && !p.bits[k] && (forall j: nat | j < k :: p.bits[j])
          && pool.bits == p.bits[k := true] && reservedMemory == p.reserved
          && freeMemory == Sub64(p.free, 4096) && usedMemory == Add64(p.used, 4096)
    {
      hide Apply, Request, NextClear, AllBits, Add64, Sub64;
      SkipTaken();
      RequestAt(pool, pageBitmapIndex);
      pool := pool.(cursor := pageBitmapIndex);
      if pageBitmapIndex == PageBitmap.Size * 8 { return 0; }
      address := pageBitmapIndex * 4096;
      LockPage(address);
    }

    /** The bit write of the page operations. */
    method WriteBit(index: U64, value: bool) returns (ok: bool)
      requires Valid()
      modifies PageBitmap.Buffer
      ensures ok == (index <= pool.Limit())
      ensures AllBits(PageBitmap.Buffer[..])[..PageBitmap.Size * 8 + 1]
           == if ok then pool.bits[index := value] else pool.bits
    {
      ghost var n := PageBitmap.Size * 8 + 1;
      ghost var all := AllBits(PageBitmap.Buffer[..]);
      ok := PageBitmap.SetBitmap(index, value);
      if ok { assert all[index := value][..n] == all[..n][index := value]; }
    }

    method FreePage(address: U64)
      requires Valid()
      modifies `freeMemory, `usedMemory, `pageBitmapIndex, `pool, PageBitmap.Buffer
      ensures Valid() && pool == Apply(Free, old(pool), address / PAGE)
      ensures var (k, p) := (address / 4096, old(pool));
        if k < |p.bits| && p.bits[k] then
          && pool.bits == p.bits[k := false] && pageBitmapIndex == (if k < p.cursor then k else p.cursor)
          && freeMemory == Add64(p.free, 4096) && usedMemory == Sub64(p.used, 4096)
          && reservedMemory == p.reserved
        else pool == p
    {
      var index := address / 4096;
      ApplyKeepsValid(Free, pool, index);
      ApplyIs(Free, pool, index);
      hide Apply, AllBits, Add64, Sub64;
      if !PageBitmap.GetBitmap(index) { return; }
      var ok := WriteBit(index, false);
      if ok {
        freeMemory := Add64(freeMemory, 4096);
        usedMemory := Sub64(usedMemory, 4096);
        if pageBitmapIndex > index { pageBitmapIndex := index; }
      }
      pool := Apply(Free, pool, index);
    }

    method LockPage(address: U64)
      requires Valid()
      modifies `freeMemory, `usedMemory, `pool, PageBitmap.Buffer
      ensures Valid() && pool == Apply(Lock, old(pool), address / PAGE)
      ensures var (k, p) := (address / 4096, old(pool));
        if k < |p.bits| && !p.bits[k] then
          && pool.bits == p.bits[k := true] && pageBitmapIndex == p.cursor
          && freeMemory == Sub64(p.free, 4096) && usedMemory == Add64(p.used, 4096)
          && reservedMemory == p.reserved
        else pool == p
    {
      var index := address / 4096;
      ApplyKeepsValid(Lock, pool, index);
      ApplyIs(Lock, pool, index);
      hide Apply, AllBits, Add64, Sub64;
      if PageBitmap.GetBitmap(index) { return; }
      var ok := WriteBit(index, true);
      if ok {
        freeMemory := Sub64(freeMemory, 4096);
        usedMemory := Add64(usedMemory, 4096);
      }
      pool := Apply(Lock, pool, index);
    }

    method UnreservePage(address: U64)
      requires Valid()
      modifies `freeMemory, `reservedMemory, `pageBitmapIndex, `pool, PageBitmap.Buffer
      ensures Valid() && pool == Apply(Unreserve, old(pool), address / PAGE)
      ensures var (k, p) := (address / 4096, old(pool));
        if k < |p.bits| && p.bits[k] then
          && pool.bits == p.bits[k := false] && pageBitmapIndex == (if k < p.cursor then k else p.cursor)
          && freeMemory == Add64(p.free, 4096) && reservedMemory == Sub64(p.reserved, 4096)
          && usedMemory == p.used
        else pool == p
    {
      var index := address / 4096;
      ApplyKeepsValid(Unreserve, pool, index);
      ApplyIs(Unreserve, pool, index);
      hide Apply, AllBits, Add64, Sub64;
      if !PageBitmap.GetBitmap(index) { return; }
      var ok := WriteBit(index, false);
      if ok {
        freeMemory := Add64(freeMemory, 4096);
        reservedMemory := Sub64(reservedMemory, 4096);
        if pageBitmapIndex > index { pageBitmapIndex := index; }
      }
      pool := Apply(Unreserve, pool, index);
    }

    method ReservePage(address: U64)
      requires Valid()
      modifies `freeMemory, `reservedMemory, `pool, PageBitmap.Buffer
      ensures Valid() && pool == Apply(Reserve, old(pool), address / PAGE)
      ensures var (k, p) := (address / 4096, old(pool));
        if k < |p.bits| && !p.bits[k] then
          && pool.bits == p.bits[k := true] && pageBitmapIndex == p.cursor
          && freeMemory == Sub64(p.free, 4096) && reservedMemory == Add64(p.reserved, 4096)
          && usedMemory == p.used
        else pool == p
    {
      var index := address / 4096;
      ApplyKeepsValid(Reserve, pool, index);
      ApplyIs(Reserve, pool, index);
      hide Apply, AllBits, Add64, Sub64;
      if PageBitmap.GetBitmap(index) { return; }
      var ok := WriteBit(index, true);
      if ok {
        freeMemory := Sub64(freeMemory, 4096);
        reservedMemory := Add64(reservedMemory, 4096);
      }
      pool := Apply(Reserve, pool, index);
    }

    method FreePages(address: U64, pageCount: U64)
      requires Valid() && pageCount < TWO_31
      modifies `freeMemory, `usedMemory, `pageBitmapIndex, `pool, PageBitmap.Buffer
      ensures Valid() && pool == ApplyRange(Free, old(pool), address, pageCount)
    {
      hide ApplyRange, Apply, PageOffset, Add64;
      RangeNone(Free, pool, address);
      var i := 0;
      while i < pageCount
        invariant 0 <= i <= pageCount && Valid() && pool == ApplyRange(Free, old(pool), address, i)
      {
        RangeNext(Free, old(pool), address, i);
        FreePage(Add64(address, PageOffset(i)));
        i := i + 1;
      }
    }

    method LockPages(address: U64, pageCount: U64)
      requires Valid() && pageCount < TWO_31
      modifies `freeMemory, `usedMemory, `pool, PageBitmap.Buffer
      ensures Valid() && pool == ApplyRange(Lock, old(pool), address, pageCount)
    {
      hide ApplyRange, Apply, PageOffset, Add64;
      RangeNone(Lock, pool, address);
      var i := 0;
      while i < pageCount
        invariant 0 <= i <= pageCount && Valid() && pool == ApplyRange(Lock, old(pool), address, i)
      {
        RangeNext(Lock, old(pool), address, i);
        LockPage(Add64(address, PageOffset(i)));
        i := i + 1;
      }
    }

    method UnreservePages(address: U64, pageCount: U64)
      requires Valid() && pageCount < TWO_31
      modifies `freeMemory, `reservedMemory, `pageBitmapIndex, `pool, PageBitmap.Buffer
      ensures Valid() && pool == ApplyRange(Unreserve, old(pool), address, pageCount)
    {
      hide ApplyRange, Apply, PageOffset, Add64;
      RangeNone(Unreserve, pool, address);
      var i := 0;
      while i < pageCount
        invariant 0 <= i <= pageCount && Valid() && pool == ApplyRange(Unreserve, old(pool), address, i)
      {
        RangeNext(Unreserve, old(pool), address, i);
        UnreservePage(Add64(address, PageOffset(i)));
        i := i + 1;
      }
    }

    method ReservePages(address: U64, pageCount: U64)
      requires Valid() && pageCount < TWO_31
      modifies `freeMemory, `reservedMemory, `pool, PageBitmap.Buffer
      ensures Valid() && pool == ApplyRange(Reserve, old(pool), address, pageCount)
    {
      hide ApplyRange, Apply, PageOffset, Add64;
      RangeNone(Reserve, pool, address);
      var i := 0;
      while i < pageCount
        invariant 0 <= i <= pageCount && Valid() && pool == ApplyRange(Reserve, old(pool), address, i)
      {
        RangeNext(Reserve, old(pool), address, i);
        ReservePage(Add64(address, PageOffset(i)));
        i := i + 1;
      }
    }

    /** `GetMemorySize`, with its static accumulator: a later call returns the first answer. */
    method GetMemorySize(mMap: seq<Descriptor>) returns (size: U64)
      requires |mMap| < TWO_31
      modifies `memorySizeBytes
      ensures size == memorySizeBytes
      ensures size == if old(memorySizeBytes) > 0 then old(memorySizeBytes) else MemorySize(mMap)
    {
      if memorySizeBytes > 0 { return memorySizeBytes; }
      var i := 0;
      while i < |mMap|
        invariant 0 <= i <= |mMap| && memorySizeBytes == MemorySize(mMap[..i])
      {
        assert mMap[..i + 1][..i] == mMap[..i];
        memorySizeBytes := Add64(memorySizeBytes, mMap[i].numPages * 4096 % TWO_64);
        i := i + 1;
      }
      assert mMap[..i] == mMap;
      return memorySizeBytes;
    }

    /** `memory` is the machine's memory from `bufferAddress` on. */
    method InitBitmap(bitmapSize: nat, bufferAddress: U64, memory: array<bv8>)
      requires bitmapSize < memory.Length && bitmapSize < TWO_31 / 4 && pageBitmapIndex == 0
      modifies `BufferAddress, `pool, PageBitmap, memory
      ensures PageBitmap.Size == bitmapSize && PageBitmap.Buffer == memory && BufferAddress == bufferAddress
      ensures Valid()
      ensures pool == Pool(EmptyBits(bitmapSize, old(AllBits(memory[..]))[bitmapSize * 8]),
        0, freeMemory, usedMemory, reservedMemory)
    {
      PageBitmap.Size := bitmapSize;
      PageBitmap.Buffer := memory;
      BufferAddress := bufferAddress;
      var i := 0;
      while i < bitmapSize
        invariant 0 <= i <= bitmapSize
        invariant PageBitmap.Size == bitmapSize && PageBitmap.Buffer == memory && BufferAddress == bufferAddress
        invariant forall j | 0 <= j < i :: memory[j] == 0
        invariant forall j | i <= j < memory.Length :: memory[j] == old(memory[j])
      {
        PageBitmap.Buffer[i] := 0;
        i := i + 1;
      }
      var zero := 0 as bv8;
      assert forall j: nat | j < 8 :: !TestBit(zero, j);
      assert AllBits(memory[..])[bitmapSize * 8] == old(AllBits(memory[..]))[bitmapSize * 8];
      pool := Pool(AllBits(memory[..])[..bitmapSize * 8 + 1], 0, freeMemory, usedMemory, reservedMemory);
      assert pool.bits == EmptyBits(bitmapSize, old(AllBits(memory[..]))[bitmapSize * 8]);
    }

    /** The first loop over the memory map: the largest conventional region. */
    method FindLargest(mMap: seq<Descriptor>) returns (largestFreeMemSeg: U64)
      requires |mMap| < TWO_31
      ensures largestFreeMemSeg == LargestFree(mMap).0
    {
      var largestFreeMemSize: U64 := 0;
      largestFreeMemSeg := 0;
      var i := 0;
      while i < |mMap|
        invariant 0 <= i <= |mMap| && (largestFreeMemSeg, largestFreeMemSize) == LargestFree(mMap[..i])
      {
        assert mMap[..i + 1][..i] == mMap[..i];
        if mMap[i].kind == CONVENTIONAL && Bytes(mMap[i]) > largestFreeMemSize {
          largestFreeMemSeg, largestFreeMemSize := mMap[i].physAddr, Bytes(mMap[i]);
        }
        i := i + 1;
      }
      assert mMap[..i] == mMap;
    }

    /** The second loop over the memory map. */
    method UnreserveConventional(mMap: seq<Descriptor>)
      requires Valid() && |mMap| < TWO_31
      requires forall d | d in mMap && d.kind == CONVENTIONAL :: d.numPages < TWO_31
      modifies `freeMemory, `reservedMemory, `pageBitmapIndex, `pool, PageBitmap.Buffer
      ensures Valid() && pool == UnreserveAll(old(pool), mMap)
    {
      var i := 0;
      while i < |mMap|
        invariant 0 <= i <= |mMap| && Valid() && pool == UnreserveAll(old(pool), mMap[..i])
      {
        assert mMap[..i + 1][..i] == mMap[..i];
        assert mMap[i] in mMap;
        if mMap[i].kind == CONVENTIONAL {
          UnreservePages(mMap[i].physAddr, mMap[i].numPages);
        }
        i := i + 1;
      }
      assert mMap[..i] == mMap;
    }

    /**
     The first call fills the allocator from the memory map; later calls do nothing. `memory` is the
     machine's memory from the chosen bitmap address on.
     */
    method ReadEFIMemoryMap(mMap: seq<Descriptor>, memory: array<bv8>) returns (ghost stray: bool)
      requires Initialized ==> Valid()
      requires !Initialized ==> memorySizeBytes == pageBitmapIndex == usedMemory == reservedMemory == 0
      requires |mMap| < TWO_31 && MemorySize(mMap) / PAGE + 1 < TWO_31
      requires BitmapSize(MemorySize(mMap)) < memory.Length
      requires forall d | d in mMap && d.kind == CONVENTIONAL :: d.numPages < TWO_31
      modifies this, PageBitmap, memory
      ensures Initialized && Valid()
      ensures old(Initialized) ==> pool == old(pool) && PageBitmap.Buffer == old(PageBitmap.Buffer)
      ensures stray == old(AllBits(memory[..]))[BitmapSize(MemorySize(mMap)) * 8]
      ensures !old(Initialized) ==>
        && PageBitmap.Buffer == memory && memorySizeBytes == MemorySize(mMap)
        && BufferAddress == LargestFree(mMap).0
        && pool == BootPool(mMap, BufferAddress, stray)
    {
      hide FilledPool, EmptyPool, LargestFree, MemorySize;
      stray := AllBits(memory[..])[BitmapSize(MemorySize(mMap)) * 8];
      if Initialized { return; }
      Initialized := true;
      var largestFreeMemSeg := FindLargest(mMap);
      var memorySize := PlaceBitmap(mMap, largestFreeMemSeg, memory, stray);
      FillPool(mMap, memorySize / 4096 + 1, EmptyPool(MemorySize(mMap), stray), BitmapPages(MemorySize(mMap)));
    }

    /** The size computation and `InitBitmap` call in the middle of `ReadEFIMemoryMap`. */
    method PlaceBitmap(mMap: seq<Descriptor>, largestFreeMemSeg: U64, memory: array<bv8>, ghost stray: bool)
      returns (memorySize: U64)
      requires memorySizeBytes == pageBitmapIndex == usedMemory == reservedMemory == 0
      requires |mMap| < TWO_31 && MemorySize(mMap) / PAGE + 1 < TWO_31
      requires BitmapSize(MemorySize(mMap)) < memory.Length
      requires stray == AllBits(memory[..])[BitmapSize(MemorySize(mMap)) * 8]
      modifies this, PageBitmap, memory
      ensures Valid() && Initialized == old(Initialized)
      ensures PageBitmap.Buffer == memory && PageBitmap.Size == BitmapSize(MemorySize(mMap))
      ensures BufferAddress == largestFreeMemSeg && memorySize == memorySizeBytes == MemorySize(mMap)
      ensures pool == EmptyPool(MemorySize(mMap), stray)
    {
      memorySize := GetMemorySize(mMap);
      freeMemory := memorySize;
      var bitmapSize := memorySize / 4096 / 8 + 1;
      InitBitmap(bitmapSize, largestFreeMemSeg, memory);
    }

    /** The calls that turn the empty bitmap into the boot pool. */
    method FillPool(mMap: seq<Descriptor>, pages: nat, ghost start: Pool, ghost bitmapPages: nat)
      requires Valid() && |mMap| < TWO_31 && pages < TWO_31
      requires pool == start && bitmapPages == PageBitmap.Size / PAGE + 1 < TWO_31
      requires forall d | d in mMap && d.kind == CONVENTIONAL :: d.numPages < TWO_31
      modifies `freeMemory, `usedMemory, `reservedMemory, `pageBitmapIndex, `pool, PageBitmap.Buffer
      ensures Valid()
      ensures pool == FilledPool(start, mMap, pages, BufferAddress, bitmapPages)
    {
      hide Valid, ApplyRange, UnreserveAll, AllBits;
      ReservePages(0, pages);
      UnreserveConventional(mMap);
      ReservePages(0, 0x100);
      LockPages(BufferAddress, PageBitmap.Size / 4096 + 1);
    }
  }
}
