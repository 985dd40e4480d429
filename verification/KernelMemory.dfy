/**
 The kernel's memory as the heap sees it: a range of virtual pages, each on a frame of its own, in an
 address space whose tables and frames are kept apart by ownership.
 */
module KernelMemory {
  import opened Words
  import opened FramePool
  import opened Paging
  import opened PageTree
  import opened PageFrameAllocators
  import opened PageTableManagers

  const WORD := 8
  /** The canonical lower half of the address space ends here. */
  const ADDRESS_LIMIT := 0x8000_0000_0000

  /** The frames needed to map `n` pages from `vp` on, each on a frame of its own: pages and new tables. */
  function FramesNeeded(tables: set<Place>, vp: nat, n: nat): nat
    decreases n
  {
    if n == 0 then 0 else 1 + Missing(tables, vp) + FramesNeeded(tables + Path(vp), vp + 1, n - 1)
  }

  ghost predicate Distinct(pages: seq<nat>)
  {
    forall i, j | 0 <= i < j < |pages| :: pages[i] != pages[j]
  }

  /** Every taken frame has exactly one owner: a page table, a heap page, a client, or the boot reservation. */
  ghost predicate Owned(p: Pool, at: Tree, pages: seq<nat>, held: set<nat>, reserved: set<nat>)
    requires p.Valid()
  {
    && Distinct(pages) && 0 in reserved
    && (forall k | k in at.Values :: k !in pages && k !in held && k !in reserved)
    && (forall k | k in pages :: k !in held && k !in reserved)
    && (forall k | k in held :: k !in reserved)
    && (forall k: nat :: (k < p.Limit() && p.bits[k]) <==> k in at.Values || k in pages || k in held || k in reserved)
  }

  /**
   Page `i` of the heap translates to `pages[i]`; the `fixed` pages, which lie below the heap and
   include page 0, translate to themselves. All of them may be written.
   */
  ghost predicate Mapped(mem: seq<U64>, root: nat, base: nat, pages: seq<nat>, fixed: set<nat>)
  {
    && 0 in fixed
    && (forall wp | wp in fixed :: wp < base / PAGE && Translate(mem, root, wp) == Some(Mapping(wp, true)))
    && forall i | 0 <= i < |pages| :: Translate(mem, root, base / PAGE + i) == Some(Mapping(pages[i], true))
  }

  /** The heap page that address `a` lies in, and the word within the page. */
  function PageIndex(a: nat, base: nat): nat
    requires base <= a
  {
    (a - base) / PAGE
  }

  function WordIndex(a: nat): (i: nat)
    ensures i < ENTRIES
  {
    a % PAGE / WORD
  }

  lemma AddressParts(a: nat, base: nat)
    requires base <= a && base % PAGE == 0 && a % WORD == 0
    ensures a == base + PAGE * PageIndex(a, base) + WORD * WordIndex(a)
    ensures a / PAGE == base / PAGE + PageIndex(a, base)
  {
    var d := a - base;
    assert d == PAGE * (d / PAGE) + d % PAGE;
    assert a == PAGE * (base / PAGE + d / PAGE) + d % PAGE;
    assert a % PAGE == d % PAGE;
    assert a % PAGE % WORD == 0;
  }

  /** The words between two addresses. */
  ghost predicate Covers(view: map<nat, nat>, start: nat, end: nat)
  {
    forall a: nat :: a in view <==> start <= a < end && a % WORD == 0
  }

  /** `view` holds the words of the heap's pages, by virtual address. */
  ghost predicate Shows(mem: seq<U64>, base: nat, pages: seq<nat>, view: map<nat, nat>)
  {
    && Covers(view, base, base + PAGE * |pages|)
    && forall a: nat | a in view :: view[a] == Entry(mem, pages[PageIndex(a, base)], WordIndex(a))
  }

  class AddressSpace {
    const ptm: PageTableManager
    ghost var base: nat
    ghost var pages: seq<nat>
    ghost var held: set<nat>
    ghost const reserved: set<nat>
    ghost const fixed: set<nat>
    ghost var view: map<nat, nat>

    ghost predicate Valid()
      reads this, ptm, ptm.phys, ptm.pfa, ptm.pfa.PageBitmap, ptm.pfa.PageBitmap.Buffer
    {
      && ptm.Valid()
      && PAGE <= base && base % PAGE == 0 && base + PAGE * |pages| <= ADDRESS_LIMIT
      && Owned(ptm.pfa.pool, ptm.at, pages, held, reserved)
      && Mapped(ptm.phys[..], ptm.PML4, base, pages, fixed)
      && Shows(ptm.phys[..], base, pages, view)
    }

    /** The state after boot, before the heap: frames taken so far belong to tables or are set aside. */
    constructor (ptm: PageTableManager, base: nat, ghost fixed: set<nat>)
      requires ptm.Valid() && PAGE <= base <= ADDRESS_LIMIT && base % PAGE == 0
      requires Mapped(ptm.phys[..], ptm.PML4, base, [], fixed)
      ensures Valid() && this.ptm == ptm && this.base == base && this.fixed == fixed
      ensures pages == [] && held == {} && view == map[]
    {
      this.ptm := ptm;
      this.fixed := fixed;
      this.base := base;
      pages := [];
      held := {};
      reserved := set k | 0 <= k < ptm.pfa.pool.Limit() && ptm.pfa.pool.bits[k] && k !in ptm.at.Values;
      view := map[];
    }

    ghost function End(): nat
      reads this
    {
      base + PAGE * |pages|
    }

    lemma ViewCovers()
      requires Valid()
      ensures Covers(view, base, End()) && PAGE <= base && base % PAGE == 0 && End() % PAGE == 0
        && End() <= ADDRESS_LIMIT
      ensures |ptm.pfa.pool.bits| > 0
    {
    }

    lemma MappingHolds()
      requires Valid()
      ensures Mapped(ptm.phys[..], ptm.PML4, base, pages, fixed) && ptm.pfa.Valid()
    {
    }

    /** A memory read at virtual address `a`, through the page tables. */
    method Load(a: nat) returns (w: U64)
      requires Valid() && a in view
      ensures w == view[a]
    {
      ViewInMemory(ptm.phys[..], ptm.PML4, base, pages, fixed, view, a);
      var frame := Translate(ptm.phys[..], ptm.PML4, a / PAGE).value.frame;
      w := Entry(ptm.phys[..], frame, WordIndex(a));
    }

    /** A memory write at virtual address `a`, in the heap or in page 0. */
    method Store(a: nat, w: U64)
      requires Valid() && a % WORD == 0 && (a in view || a < PAGE)
      modifies `view, ptm.phys
      ensures Valid() && view == if a in old(view) then old(view)[a := w] else old(view)
    {
      hide Translate, PageIndex, WordIndex, Owned, Shows, TreeOk, TablesTaken;
      ghost var mem, oldView := ptm.phys[..], view;
      StoreTarget(mem, ptm.PML4, ptm.pfa.pool, ptm.at, base, pages, fixed, held, reserved, view, a);
      var frame := Translate(ptm.phys[..], ptm.PML4, a / PAGE).value.frame;
      var i := WordIndex(a);
      ptm.phys[frame * ENTRIES + i] := w;
      assert ptm.phys[..] == mem[frame * ENTRIES + i := w];
      StoreKeepsTables(mem, ptm.phys[..], ptm.PML4, ptm.at, frame, i, w);
      SameMapped(mem, ptm.phys[..], ptm.PML4, base, pages, fixed);
      StoreUpdatesView(mem, ptm.phys[..], base, pages, view, a, frame, w);
      view := if a in view then view[a := w] else view;
    }

    /**
     `MapMemory(heapEnd, RequestPage())`: one more heap page, on a frame that nothing else uses. The
     words already there keep their values.
     */
    method MapHeapPage(heapEnd: nat)
      requires Valid() && heapEnd == End() && heapEnd + PAGE <= ADDRESS_LIMIT
      requires FreeCount(ptm.pfa.pool) >= 1 + Missing(ptm.at.Keys, heapEnd / PAGE)
      modifies `pages, `view, ptm`at, ptm.phys, ptm.pfa`freeMemory, ptm.pfa`usedMemory, ptm.pfa`pageBitmapIndex
      modifies ptm.pfa`pool, ptm.pfa.PageBitmap.Buffer
      ensures Valid() && |pages| == |old(pages)| + 1
      ensures forall a | a in old(view) :: a in view && view[a] == old(view)[a]
      ensures ptm.at.Keys == old(ptm.at.Keys) + Path(heapEnd / PAGE) && TakesMore(old(ptm.pfa.pool), ptm.pfa.pool)
      ensures FreeCount(ptm.pfa.pool) == FreeCount(old(ptm.pfa.pool)) - 1 - Missing(old(ptm.at.Keys), heapEnd / PAGE)
    {
      hide Translate, Owned, Mapped, Shows, TreeOk, TablesTaken, TookTables, FreeCount, Missing, SameFrame, PageWords;
      hide TakesMore, WritesLeaf, LeafOf, Low;
      ghost var mem, pool, at := ptm.phys[..], ptm.pfa.pool, ptm.at;
      TakeFrame(pool, at, pages, held, reserved);
      var address := ptm.pfa.RequestPage();
      ghost var pool1, frame := ptm.pfa.pool, address / PAGE;
      assert ptm.phys[..] == mem;
      ptm.MapMemory(heapEnd, address);
      GrowOwned(pool, pool1, ptm.pfa.pool, at, ptm.at, pages, held, reserved, frame);
      TookMoreFrames(pool, pool1, ptm.pfa.pool, at, ptm.at, frame);
      assert heapEnd / PAGE == base / PAGE + |pages|;
      GrowMapped(mem, ptm.phys[..], ptm.PML4, base, pages, fixed, heapEnd / PAGE, frame);
      GrowShows(mem, ptm.phys[..], base, pages, frame, heapEnd, view, ptm.pfa.pool, ptm.at, held, reserved);
      pages := pages + [frame];
      view := view + PageWords(ptm.phys[..], frame, heapEnd);
    }

    /** The page loop of `InitializeHeap` and `ExpandHeap`; `heapEnd` moves page by page. */
    method MapHeapPages(heapEnd: nat, pageCount: nat) returns (newEnd: nat)
      requires Valid() && heapEnd == End() && heapEnd + PAGE * pageCount <= ADDRESS_LIMIT
      requires FreeCount(ptm.pfa.pool) >= FramesNeeded(ptm.at.Keys, heapEnd / PAGE, pageCount)
      modifies `pages, `view, ptm`at, ptm.phys, ptm.pfa`freeMemory, ptm.pfa`usedMemory, ptm.pfa`pageBitmapIndex
      modifies ptm.pfa`pool, ptm.pfa.PageBitmap.Buffer
      ensures Valid() && newEnd == End() == heapEnd + PAGE * pageCount
      ensures forall a | a in old(view) :: a in view && view[a] == old(view)[a]
      ensures ptm.at.Keys == TablesAfter(old(ptm.at.Keys), heapEnd / PAGE, pageCount)
      ensures TakesMore(old(ptm.pfa.pool), ptm.pfa.pool)
      ensures FreeCount(ptm.pfa.pool)
           == FreeCount(old(ptm.pfa.pool)) - FramesNeeded(old(ptm.at.Keys), heapEnd / PAGE, pageCount)
    {
      hide Translate, Owned, Mapped, Shows, TreeOk, TablesTaken, FreeCount, Missing, Path;
      newEnd := heapEnd;
      var i := 0;
      while i < pageCount
        invariant 0 <= i <= pageCount && Valid() && newEnd == End() == heapEnd + PAGE * i
        invariant TakesMore(old(ptm.pfa.pool), ptm.pfa.pool)
        invariant forall a | a in old(view) :: a in view && view[a] == old(view)[a]
        invariant TablesAfter(ptm.at.Keys, newEnd / PAGE, pageCount - i)
               == TablesAfter(old(ptm.at.Keys), heapEnd / PAGE, pageCount)
        invariant FreeCount(ptm.pfa.pool) - FramesNeeded(ptm.at.Keys, newEnd / PAGE, pageCount - i)
               == FreeCount(old(ptm.pfa.pool)) - FramesNeeded(old(ptm.at.Keys), heapEnd / PAGE, pageCount)
      {
        MapHeapPage(newEnd);
        newEnd := newEnd + 0x1000;
        i := i + 1;
      }
    }

    /** A client's own `RequestPage`. */
    method RequestFrame() returns (address: nat)
      requires Valid()
      modifies `held, ptm.pfa`freeMemory, ptm.pfa`usedMemory, ptm.pfa`pageBitmapIndex, ptm.pfa`pool,
          ptm.pfa.PageBitmap.Buffer
      ensures Valid()
      ensures if FreeCount(old(ptm.pfa.pool)) == 0 then address == 0 && held == old(held)
        else address / PAGE !in old(held) && address / PAGE != 0 && held == old(held) + {address / PAGE}
    {
      hide Translate, Mapped, Shows, TreeOk, TablesTaken, FreeCount;
      ghost var mem, pool := ptm.phys[..], ptm.pfa.pool;
      RequestUsesOne(pool);
      RequestKeepsRest(pool, ptm.at, pages, held, reserved);
      address := ptm.pfa.RequestPage();
      assert ptm.phys[..] == mem;
      if Request(pool).1.Some? { held := held + {address / PAGE}; }
    }

    /** `FreePage` of a frame that a client holds. */
    method ReleaseFrame(address: U64)
      requires Valid() && address / PAGE in held
      modifies `held, ptm.pfa`freeMemory, ptm.pfa`usedMemory, ptm.pfa`pageBitmapIndex, ptm.pfa`pool,
          ptm.pfa.PageBitmap.Buffer
      ensures Valid() && held == old(held) - {address / PAGE}
    {
      hide Translate, Mapped, Shows, TreeOk, TablesTaken;
      ghost var mem, pool := ptm.phys[..], ptm.pfa.pool;
      FreeKeepsRest(pool, ptm.at, pages, held, reserved, address / PAGE);
      ptm.pfa.FreePage(address);
      assert ptm.phys[..] == mem;
      held := held - {address / PAGE};
    }

    /** `MapMemory` by a client, outside the heap and the fixed pages: the heap does not notice. */
    method MapElsewhere(virtualMemory: U64, physicalMemory: U64)
      requires Valid() && virtualMemory / PAGE !in fixed && virtualMemory / PAGE < VIRTUAL_PAGES
      requires !(base / PAGE <= virtualMemory / PAGE < base / PAGE + |pages|)
      requires FreeCount(ptm.pfa.pool) >= Missing(ptm.at.Keys, virtualMemory / PAGE)
      modifies ptm`at, ptm.phys, ptm.pfa`freeMemory, ptm.pfa`usedMemory, ptm.pfa`pageBitmapIndex, ptm.pfa`pool,
          ptm.pfa.PageBitmap.Buffer
      ensures Valid()
      ensures Translate(ptm.phys[..], ptm.PML4, virtualMemory / PAGE)
           == Some(Mapping(Low(physicalMemory / PAGE, 40), true))
    {
      hide Translate, Owned, Mapped, Shows, TreeOk, TablesTaken, TookTables, FreeCount, Missing, SameFrame;
      ghost var mem, pool, at := ptm.phys[..], ptm.pfa.pool, ptm.at;
      ptm.MapMemory(virtualMemory, physicalMemory);
      TablesOwned(pool, ptm.pfa.pool, at, ptm.at, pages, held, reserved);
      ElsewhereMapped(mem, ptm.phys[..], ptm.PML4, base, pages, fixed, virtualMemory / PAGE);
      ElsewhereShows(mem, ptm.phys[..], base, pages, view, ptm.pfa.pool, ptm.at, held, reserved);
    }
  }

  /** The tables that exist once `n` pages from `vp` on are mapped. */
  function TablesAfter(tables: set<Place>, vp: nat, n: nat): set<Place>
    decreases n
  {
    if n == 0 then tables else TablesAfter(tables + Path(vp), vp + 1, n - 1)
  }

  lemma {:induction false} FramesAdd(tables: set<Place>, vp: nat, n: nat, m: nat)
    ensures FramesNeeded(tables, vp, n + m)
         == FramesNeeded(tables, vp, n) + FramesNeeded(TablesAfter(tables, vp, n), vp + n, m)
    decreases n
  {
    if n > 0 { FramesAdd(tables + Path(vp), vp + 1, n - 1, m); }
  }

  lemma RequestKeepsRest(p: Pool, at: Tree, pages: seq<nat>, held: set<nat>, reserved: set<nat>)
    requires p.Valid() && Owned(p, at, pages, held, reserved) && TablesTaken(p, at)
    ensures Request(p).0.Valid() && Request(p).0.Limit() == p.Limit() && TablesTaken(Request(p).0, at)
    ensures Request(p).1 == None ==> Owned(Request(p).0, at, pages, held, reserved)
    ensures Request(p).1.Some? ==>
      var frame := Request(p).1.value;
      frame != 0 && frame !in held && Owned(Request(p).0, at, pages, held + {frame}, reserved)
  {
    RequestUsesOne(p);
    RequestIsLowest(p);
    if Request(p).1.Some? {
      var (p', frame) := (Request(p).0, Request(p).1.value);
      assert p.IsFree(frame);
      assert frame < p.Limit() && !p.bits[frame];
      forall k: nat
        ensures (k < p'.Limit() && p'.bits[k]) <==> k in at.Values || k in pages || k in held + {frame} || k in reserved
      {
        assert (k < p.Limit() && p.bits[k]) <==> k in at.Values || k in pages || k in held || k in reserved;
      }
    }
  }

  lemma FreeKeepsRest(p: Pool, at: Tree, pages: seq<nat>, held: set<nat>, reserved: set<nat>, frame: nat)
    requires p.Valid() && Owned(p, at, pages, held, reserved) && TablesTaken(p, at) && frame in held
    ensures var p' := Apply(Free, p, frame);
      && p'.Valid() && p'.Limit() == p.Limit() && TablesTaken(p', at) && Owned(p', at, pages, held - {frame}, reserved)
  {
    ApplyKeepsValid(Free, p, frame);
    forall q | q in at ensures at[q] != frame { assert at[q] in at.Values; }
    assert frame != 0;
  }

  lemma TablesOwned(p: Pool, p': Pool, at: Tree, at': Tree, pages: seq<nat>, held: set<nat>, reserved: set<nat>)
    requires p.Valid() && p'.Valid() && Owned(p, at, pages, held, reserved)
    requires Extends(at, at') && TookTables(p, p', at, at')
    ensures Owned(p', at', pages, held, reserved)
  {
    ValuesGrow(at, at');
    forall k | k in at'.Values ensures k !in pages && k !in held && k !in reserved {
      var q :| q in at' && at'[q] == k;
      if q in at { assert k in at.Values; }
    }
    forall k: nat
      ensures (k < p'.Limit() && p'.bits[k]) <==> k in at'.Values || k in pages || k in held || k in reserved
    {
      if k in at'.Values {
        var q :| q in at' && at'[q] == k;
        if q in at { assert k in at.Values; }
      }
    }
  }

  lemma ElsewhereMapped(mem: seq<U64>, mem': seq<U64>, root: nat, base: nat, pages: seq<nat>, fixed: set<nat>, vp: nat)
    requires Mapped(mem, root, base, pages, fixed) && base + PAGE * |pages| <= ADDRESS_LIMIT && base % PAGE == 0
    requires vp !in fixed && !(base / PAGE <= vp < base / PAGE + |pages|)
    requires forall wp: nat | wp < VIRTUAL_PAGES && wp != vp :: Translate(mem', root, wp) == Translate(mem, root, wp)
    ensures Mapped(mem', root, base, pages, fixed)
  {
    hide Translate;
  }

  lemma ElsewhereShows(mem: seq<U64>, mem': seq<U64>, base: nat, pages: seq<nat>, view: map<nat, nat>,
                       p: Pool, at: Tree, held: set<nat>, reserved: set<nat>)
    requires Shows(mem, base, pages, view) && base % PAGE == 0
    requires p.Valid() && Owned(p, at, pages, held, reserved)
    requires forall g: nat | g !in at.Values :: SameFrame(mem, mem', g)
    ensures Shows(mem', base, pages, view)
  {
    hide PageIndex, WordIndex;
    forall a: nat | a in view
      ensures PageIndex(a, base) < |pages| && view[a] == Entry(mem', pages[PageIndex(a, base)], WordIndex(a))
    {
      AddressParts(a, base);
      assert pages[PageIndex(a, base)] in pages;
      assert SameFrame(mem, mem', pages[PageIndex(a, base)]);
    }
  }

  /**
   What ownership gives the heap's users: every heap page is mapped, to a frame that is taken, that no
   other heap page has, and that is neither a page table, nor a client's, nor one set aside at boot.
   */
  lemma HeapPagesPrivate(p: Pool, mem: seq<U64>, root: nat, at: Tree, base: nat, pages: seq<nat>, fixed: set<nat>,
      held: set<nat>, reserved: set<nat>, i: nat)
    requires p.Valid() && Owned(p, at, pages, held, reserved) && Mapped(mem, root, base, pages, fixed) && i < |pages|
    ensures Translate(mem, root, base / PAGE + i).Some?
    ensures var frame := Translate(mem, root, base / PAGE + i).value.frame;
      && 0 < frame < p.Limit() && p.bits[frame]
      && frame !in at.Values && frame !in held && frame !in reserved
      && forall wp: nat | base / PAGE <= wp < base / PAGE + |pages| && wp != base / PAGE + i ::
           Translate(mem, root, wp).Some? ==> Translate(mem, root, wp).value.frame != frame
  {
    hide Translate;
    assert pages[i] in pages;
    forall wp: nat | base / PAGE <= wp < base / PAGE + |pages| && wp != base / PAGE + i
      ensures Translate(mem, root, wp).Some? ==> Translate(mem, root, wp).value.frame != pages[i]
    {
      var j := wp - base / PAGE;
      assert wp == base / PAGE + j;
      if i < j { assert pages[i] != pages[j]; } else { assert pages[j] != pages[i]; }
    }
  }

  /** The words of a page at virtual address `start` on the given frame. */
  ghost function PageWords(mem: seq<U64>, frame: nat, start: nat): map<nat, nat>
  {
    map a | start <= a < start + PAGE && a % WORD == 0 :: Entry(mem, frame, WordIndex(a))
  }

  /** A requested frame belongs to nobody yet, is not frame 0, and leaves the tables as they are. */
  lemma TakeFrame(p: Pool, at: Tree, pages: seq<nat>, held: set<nat>, reserved: set<nat>)
    requires p.Valid() && Owned(p, at, pages, held, reserved) && TablesTaken(p, at) && FreeCount(p) > 0
    ensures Request(p).1.Some? && Request(p).0.Valid() && TablesTaken(Request(p).0, at)
    ensures var (p', frame) := (Request(p).0, Request(p).1.value);
      && p'.Limit() == p.Limit() && 0 < frame < p.Limit() && !p.bits[frame] && p'.bits == p.bits[frame := true]
      && FreeCount(p') == FreeCount(p) - 1
  {
    RequestUsesOne(p);
    RequestIsLowest(p);
  }

  lemma GrowOwned(p: Pool, p1: Pool, p2: Pool, at: Tree, at': Tree, pages: seq<nat>, held: set<nat>,
      reserved: set<nat>, frame: nat)
    requires p.Valid() && p1.Valid() && p2.Valid() && Owned(p, at, pages, held, reserved)
    requires frame < p.Limit() && !p.bits[frame] && p1.bits == p.bits[frame := true]
    requires Extends(at, at') && TookTables(p1, p2, at, at')
    ensures Owned(p2, at', pages + [frame], held, reserved)
  {
    var pages' := pages + [frame];
    forall k | k in at'.Values ensures k !in pages' && k !in held && k !in reserved {
      var q :| q in at' && at'[q] == k;
      if q in at { assert k in at.Values; }
    }
    ValuesGrow(at, at');
    forall k: nat
      ensures (k < p2.Limit() && p2.bits[k]) <==> k in at'.Values || k in pages' || k in held || k in reserved
    {
      if k in at'.Values {
        var q :| q in at' && at'[q] == k;
        if q in at { assert k in at.Values; }
      }
    }
  }

  lemma TookMoreFrames(p: Pool, p1: Pool, p2: Pool, at: Tree, at': Tree, frame: nat)
    requires p.Valid() && p1.Valid() && p2.Valid() && frame < p.Limit() && p1.bits == p.bits[frame := true]
    requires TookTables(p1, p2, at, at')
    ensures TakesMore(p, p2)
  {
  }

  lemma GrowMapped(mem: seq<U64>, mem': seq<U64>, root: nat, base: nat, pages: seq<nat>, fixed: set<nat>, vp: nat,
      frame: nat)
    requires Mapped(mem, root, base, pages, fixed) && PAGE <= base && vp == base / PAGE + |pages| < VIRTUAL_PAGES
    requires frame <= MAX_FRAMES && Translate(mem', root, vp) == Some(Mapping(Low(frame, 40), true))
    requires forall wp: nat | wp < VIRTUAL_PAGES && wp != vp :: Translate(mem', root, wp) == Translate(mem, root, wp)
    ensures Mapped(mem', root, base, pages + [frame], fixed)
  {
    hide Translate, Low;
    LowOfFrame(frame);
  }

  lemma LowOfFrame(frame: nat)
    requires frame <= MAX_FRAMES
    ensures Low(frame, 40) == frame
  {
    Powers();
    LowOfSmall(frame, 40);
  }

  lemma GrowShows(mem: seq<U64>, mem': seq<U64>, base: nat, pages: seq<nat>, frame: nat, start: nat,
                  view: map<nat, nat>, p: Pool, at: Tree, held: set<nat>, reserved: set<nat>)
    requires Shows(mem, base, pages, view) && base % PAGE == 0 && start == base + PAGE * |pages|
    requires p.Valid() && Owned(p, at, pages + [frame], held, reserved)
    requires forall g: nat | g !in at.Values :: SameFrame(mem, mem', g)
    ensures Shows(mem', base, pages + [frame], view + PageWords(mem', frame, start))
    ensures forall a | a in view :: (view + PageWords(mem', frame, start))[a] == view[a]
  {
    hide PageIndex, WordIndex;
    var pages' := pages + [frame];
    var view' := view + PageWords(mem', frame, start);
    forall a: nat | a in view' ensures PageIndex(a, base) < |pages'|
      && view'[a] == Entry(mem', pages'[PageIndex(a, base)], WordIndex(a))
      ensures a in view ==> view'[a] == view[a]
    {
      AddressParts(a, base);
      if a in view {
        var k := PageIndex(a, base);
        assert pages'[k] == pages[k] && pages'[k] in pages';
        assert SameFrame(mem, mem', pages[k]);
      }
    }
  }

  /** The frame that a store to the heap or to page 0 lands in: in memory, not a table, the page's own. */
  lemma StoreTarget(mem: seq<U64>, root: nat, p: Pool, at: Tree, base: nat, pages: seq<nat>, fixed: set<nat>,
      held: set<nat>, reserved: set<nat>,
                    view: map<nat, nat>, a: nat)
    requires p.Valid() && Owned(p, at, pages, held, reserved) && base % PAGE == 0
    requires Mapped(mem, root, base, pages, fixed) && Shows(mem, base, pages, view) && (a in view || a < PAGE)
    ensures Translate(mem, root, a / PAGE).Some? && Translate(mem, root, a / PAGE).value.writable
    ensures var frame := Translate(mem, root, a / PAGE).value.frame;
      && frame < p.Limit() && frame !in at.Values && Distinct(pages)
      && (a in view ==> base <= a && PageIndex(a, base) < |pages| && frame == pages[PageIndex(a, base)])
      && (a !in view ==> frame !in pages)
  {
    hide Translate, PageIndex, WordIndex;
    if a in view {
      ViewInMemory(mem, root, base, pages, fixed, view, a);
      assert pages[PageIndex(a, base)] in pages;
    } else {
      assert a / PAGE == 0;
    }
  }

  lemma SameMapped(mem: seq<U64>, mem': seq<U64>, root: nat, base: nat, pages: seq<nat>, fixed: set<nat>)
    requires Mapped(mem, root, base, pages, fixed) && base + PAGE * |pages| <= ADDRESS_LIMIT
    requires forall vp: nat | vp < VIRTUAL_PAGES :: Translate(mem', root, vp) == Translate(mem, root, vp)
    ensures Mapped(mem', root, base, pages, fixed)
  {
  }

  /** A word of the view is where the hardware walk finds it. */
  lemma ViewInMemory(mem: seq<U64>, root: nat, base: nat, pages: seq<nat>, fixed: set<nat>, view: map<nat, nat>, a: nat)
    requires Mapped(mem, root, base, pages, fixed) && Shows(mem, base, pages, view) && a in view && base % PAGE == 0
    ensures PageIndex(a, base) < |pages|
    ensures Translate(mem, root, a / PAGE) == Some(Mapping(pages[PageIndex(a, base)], true))
    ensures view[a] == Entry(mem, pages[PageIndex(a, base)], WordIndex(a))
  {
    hide Translate, PageIndex, WordIndex;
    AddressParts(a, base);
  }

  lemma StoreKeepsTables(mem: seq<U64>, mem': seq<U64>, root: nat, at: Tree, frame: nat, i: nat, w: U64)
    requires TreeOk(mem, root, at) && frame !in at.Values && i < ENTRIES && frame * ENTRIES + i < |mem|
    requires mem' == mem[frame * ENTRIES + i := w]
    ensures TreeOk(mem', root, at)
    ensures forall vp: nat | vp < VIRTUAL_PAGES :: Translate(mem', root, vp) == Translate(mem, root, vp)
  {
    forall p | p in at ensures SameFrame(mem, mem', at[p]) {
      forall j: nat | j < ENTRIES ensures Entry(mem', at[p], j) == Entry(mem, at[p], j) {
        EntryUpdate(mem, frame, i, w, at[p], j);
      }
    }
    OtherWrites(mem, mem', root, at);
  }

  /** A store changes the view at its own address only, since no two heap pages share a frame. */
  lemma StoreUpdatesView(mem: seq<U64>, mem': seq<U64>, base: nat, pages: seq<nat>, view: map<nat, nat>, a: nat,
      frame: nat, w: U64)
    requires Shows(mem, base, pages, view) && Distinct(pages) && base % PAGE == 0 && a % WORD == 0
    requires if a in view then frame == pages[PageIndex(a, base)] else frame !in pages
    requires frame * ENTRIES + ENTRIES <= |mem| && mem' == mem[frame * ENTRIES + WordIndex(a) := w]
    ensures Shows(mem', base, pages, if a in view then view[a := w] else view)
  {
    hide PageIndex, WordIndex;
    forall b: nat | b in view
      ensures PageIndex(b, base) < |pages|
      ensures Entry(mem', pages[PageIndex(b, base)], WordIndex(b)) == if b == a then w else view[b]
    {
      AddressParts(b, base);
      EntryUpdate(mem, frame, WordIndex(a), w, pages[PageIndex(b, base)], WordIndex(b));
      if a in view { AddressParts(a, base); }
    }
  }
}
