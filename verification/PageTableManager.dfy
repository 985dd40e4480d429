/** `MapMemory` over physical memory and the frame allocator. */
module PageTableManagers {
  import opened Words
  import opened FramePool
  import opened Paging
  import opened PageTree
  import opened PageFrameAllocators

  /** The tables that `MapMemory` must create before it can map `vp`, given those that exist. */
  function Missing(tables: set<Place>, vp: nat): nat
  {
    (if PlaceOf(vp, 3) in tables then 0 else 1) + (if PlaceOf(vp, 2) in tables then 0 else 1)
    + (if PlaceOf(vp, 1) in tables then 0 else 1)
  }

  function Path(vp: nat): set<Place>
  {
    {PlaceOf(vp, 3), PlaceOf(vp, 2), PlaceOf(vp, 1)}
  }

  ghost predicate Extends(at: Tree, at': Tree)
  {
    at.Keys <= at'.Keys && forall p | p in at :: at'[p] == at[p]
  }

  /** `at` with the three lower tables of `vp`, at whatever frames. */
  ghost predicate AddsPath(at: Tree, at': Tree, vp: nat)
  {
    Extends(at, at') && at'.Keys == at.Keys + Path(vp)
  }

  /** The frames taken between two pools are exactly the new tables. */
  ghost predicate TookTables(p: Pool, p': Pool, at: Tree, at': Tree)
    requires p.Valid() && p'.Valid()
  {
    && |p'.bits| == |p.bits|
    && (forall k | 0 <= k < |p.bits| :: p'.bits[k] <==> p.bits[k] || k in at'.Values)
    && (forall q | q in at' && q !in at :: at'[q] < p.Limit() && !p.bits[at'[q]])
  }

  /** The level-1 tables keep their entries, and new ones are empty. */
  ghost predicate LeavesKept(mem: seq<U64>, mem': seq<U64>, at: Tree, at': Tree)
  {
    forall q: Place, j: nat {:trigger LeafOf(mem', at', q, j)} |
      q.level == 1 && j < ENTRIES :: LeafOf(mem', at', q, j) == LeafOf(mem, at, q, j)
  }

  /** An entry of a level-1 table; zero while the table does not exist. */
  function LeafOf(mem: seq<U64>, at: Tree, q: Place, j: nat): nat
  {
    if q in at then Entry(mem, at[q], j) else 0
  }

  lemma LeavesChain(mem0: seq<U64>, mem1: seq<U64>, mem2: seq<U64>, at0: Tree, at1: Tree, at2: Tree)
    requires LeavesKept(mem0, mem1, at0, at1) && LeavesKept(mem1, mem2, at1, at2)
    ensures LeavesKept(mem0, mem2, at0, at2)
  {
    forall q: Place, j: nat | q.level == 1 && j < ENTRIES ensures LeafOf(mem2, at2, q, j) == LeafOf(mem0, at0, q, j) {
      assert LeafOf(mem1, at1, q, j) == LeafOf(mem0, at0, q, j);
    }
  }

  lemma LeafKept(mem: seq<U64>, mem': seq<U64>, at: Tree, at': Tree, vp: nat)
    requires LeavesKept(mem, mem', at, at') && PlaceOf(vp, 1) in at'
    ensures LeafOf(mem, at, PlaceOf(vp, 1), vp % ENTRIES) == Entry(mem', at'[PlaceOf(vp, 1)], vp % ENTRIES)
  {
    var q := PlaceOf(vp, 1);
    assert LeafOf(mem', at', q, vp % ENTRIES) == LeafOf(mem, at, q, vp % ENTRIES);
  }

  /**
   The leaf entry `now` was made of `was`: bits 0 and 1 set, bits 12 to 51 the frame number, all
   others as they were.
   */
  ghost predicate WritesLeaf(was: nat, now: nat, physicalMemory: U64)
  {
    && now % 4 == 3 && now / 4096 % 0x100_0000_0000 == physicalMemory / 4096 % 0x100_0000_0000
    && forall i: nat | 2 <= i < 12 || 52 <= i :: Bit(now, i) == Bit(was, i)
  }

  lemma LinkKeepsLeaves(mem: seq<U64>, mem': seq<U64>, at: Tree, p: Place, i: nat, frame: nat)
    requires LinksNew(mem, mem', at, p, i, frame)
    ensures LeavesKept(mem, mem', at, at[Child(p, i) := frame])
  {
    var at' := at[Child(p, i) := frame];
    forall q: Place, j: nat | q.level == 1 && j < ENTRIES ensures LeafOf(mem', at', q, j) == LeafOf(mem, at, q, j) {
      if q in at { assert Entry(mem', at[q], j) == Entry(mem, at[q], j); }
    }
  }

  lemma EntryUpdate(mem: seq<U64>, f: nat, i: nat, w: U64, g: nat, j: nat)
    requires i < ENTRIES && j < ENTRIES && f * ENTRIES + i < |mem|
    ensures Entry(mem[f * ENTRIES + i := w], g, j) == if g == f && j == i then w else Entry(mem, g, j)
  {
  }

  /** Every table is a taken frame of memory, and frame 0 is neither a table nor free. */
  ghost predicate TablesTaken(p: Pool, at: Tree)
    requires p.Valid()
  {
    && p.bits[0]
    && forall q | q in at :: 0 < at[q] < p.Limit() && p.bits[at[q]]
  }

  class PageTableManager {
    const pfa: PageFrameAllocator
    /** Physical memory, 512 words to a frame. */
    const phys: array<U64>
    /** The PML4's frame number. */
    var PML4: nat
    ghost var at: Tree

    constructor (pfa: PageFrameAllocator, phys: array<U64>)
      ensures this.pfa == pfa && this.phys == phys
    {
      this.pfa := pfa;
      this.phys := phys;
      PML4 := 0;
      at := map[];
    }

    ghost predicate Valid()
      reads this, phys, pfa, pfa.PageBitmap, pfa.PageBitmap.Buffer
    {
      && pfa.Valid()
      && phys as object != pfa.PageBitmap.Buffer
      && phys.Length == pfa.pool.Limit() * ENTRIES
      && TablesTaken(pfa.pool, at)
      && TreeOk(phys[..], PML4, at)
    }

    /** `memset(table, 0, 0x1000)`, a word at a time. */
    method ClearFrame(frame: nat)
      requires frame * ENTRIES + ENTRIES <= phys.Length
      modifies phys
      ensures forall j: nat | j < ENTRIES :: Entry(phys[..], frame, j) == 0
      ensures forall g: nat | g != frame :: SameFrame(old(phys[..]), phys[..], g)
    {
      var i := 0;
      while i < ENTRIES
        invariant 0 <= i <= ENTRIES
        invariant forall k | frame * ENTRIES <= k < frame * ENTRIES + i :: phys[k] == 0
        invariant forall k | 0 <= k < phys.Length
          && !(frame * ENTRIES <= k < frame * ENTRIES + i) :: phys[k] == old(phys[k])
      {
        phys[frame * ENTRIES + i] := 0;
        i := i + 1;
      }
    }

    /** The first table: a frame from the allocator, cleared, becomes the PML4; it maps nothing yet. */
    method CreateRoot()
      requires pfa.Valid() && phys as object != pfa.PageBitmap.Buffer && phys.Length == pfa.pool.Limit() * ENTRIES
      requires pfa.pool.bits[0] && FreeCount(pfa.pool) > 0
      modifies `PML4, `at, phys, pfa`freeMemory, pfa`usedMemory, pfa`pageBitmapIndex, pfa`pool, pfa.PageBitmap.Buffer
      ensures Valid() && at.Keys == {ROOT} && TakesMore(old(pfa.pool), pfa.pool)
      ensures FreeCount(pfa.pool) == FreeCount(old(pfa.pool)) - 1
    {
      hide FreeCount;
      RequestUsesOne(pfa.pool);
      RequestIsLowest(pfa.pool);
      var address := pfa.RequestPage();
      PML4 := address / PAGE;
      ClearFrame(PML4);
      at := map[ROOT := PML4];
      EmptyTree(phys[..], PML4);
    }

    /** Clears a fresh frame and stores an entry for it. */
    method LinkFrame(table: nat, index: nat, child: nat, ghost place: Place)
      requires place in at && at[place] == table && place.level > 1 && index < ENTRIES
      requires Child(place, index) !in at && child !in at.Values && child <= MAX_FRAMES
      requires InMemory(phys[..], at) && Injective(at) && child * ENTRIES + ENTRIES <= phys.Length
      modifies phys
      ensures LinksNew(old(phys[..]), phys[..], at, place, index, child)
      ensures forall g: nat | g !in at.Values && g != child :: SameFrame(old(phys[..]), phys[..], g)
    {
      ClearFrame(child);
      ghost var cleared := phys[..];
      var entry := FillEntry(phys[table * ENTRIES + index], child);
      EntryForAddress(phys[table * ENTRIES + index], child);
      phys[table * ENTRIES + index] := entry;
      assert phys[..] == cleared[table * ENTRIES + index := entry];
      NewLink(old(phys[..]), cleared, phys[..], at, place, index, child, entry);
    }

    /** Takes a frame, clears it and stores an entry for it: the branch for a table that is missing. */
    method NewTable(table: nat, index: nat, ghost place: Place) returns (child: nat)
      requires Valid() && place in at && at[place] == table && place.level > 1 && index < ENTRIES
      requires Child(place, index) !in at && Request(pfa.pool).1.Some?
      modifies `at, phys, pfa`freeMemory, pfa`usedMemory, pfa`pageBitmapIndex, pfa`pool, pfa.PageBitmap.Buffer
      ensures Valid() && at == old(at)[Child(place, index) := child]
      ensures Request(old(pfa.pool)) == (pfa.pool, Some(child))
      ensures LinksNew(old(phys[..]), phys[..], old(at), place, index, child)
      ensures forall g: nat | g !in at.Values :: SameFrame(old(phys[..]), phys[..], g)
    {
      hide Injective, InMemory, ParentClosed, EntriesLinked, TablesTaken, TookTables, SameFrame, LinksNew, Request;
      ghost var mem := phys[..];
      TookOne(pfa.pool, at, Child(place, index));
      var address := pfa.RequestPage();
      child := address / PAGE;
      assert phys[..] == mem;
      LinkFrame(table, index, child, place);
      LinkKeepsTree(mem, phys[..], PML4, at, place, index, child);
      at := at[Child(place, index) := child];
    }

    /** The new table and what it leaves unchanged. */
    method AddTable(table: nat, index: nat, ghost place: Place) returns (child: nat)
      requires Valid() && place in at && at[place] == table && place.level > 1 && index < ENTRIES
      requires Child(place, index) !in at && FreeCount(pfa.pool) > 0
      modifies `at, phys, pfa`freeMemory, pfa`usedMemory, pfa`pageBitmapIndex, pfa`pool, pfa.PageBitmap.Buffer
      ensures Valid() && Child(place, index) in at && at[Child(place, index)] == child
      ensures Extends(old(at), at) && at.Keys == old(at).Keys + {Child(place, index)}
      ensures TookTables(old(pfa.pool), pfa.pool, old(at), at)
      ensures FreeCount(pfa.pool) == FreeCount(old(pfa.pool)) - 1
      ensures forall vp: nat | vp < VIRTUAL_PAGES :: Translate(phys[..], PML4, vp) == Translate(old(phys[..]), PML4, vp)
      ensures LeavesKept(old(phys[..]), phys[..], old(at), at)
      ensures forall g: nat | g !in at.Values :: SameFrame(old(phys[..]), phys[..], g)
    {
      hide Injective, InMemory, ParentClosed, EntriesLinked, FreeCount, Translate, LinksNew, SameFrame, LeavesKept;
      ghost var mem, pool, at0 := phys[..], pfa.pool, at;
      RequestUsesOne(pool);
      TookOne(pool, at0, Child(place, index));
      child := NewTable(table, index, place);
      LinkKeepsTranslation(mem, phys[..], PML4, at0, place, index, child);
      LinkKeepsLeaves(mem, phys[..], at0, place, index, child);
    }

    /**
     One level of the walk: the table that entry `index` of `table` points to, created when the
     entry is not present.
     */
    method NextTable(table: nat, index: nat, ghost place: Place) returns (child: nat)
      requires Valid() && place in at && at[place] == table && place.level > 1 && index < ENTRIES
      requires Child(place, index) !in at ==> FreeCount(pfa.pool) > 0
      modifies `at, phys, pfa`freeMemory, pfa`usedMemory, pfa`pageBitmapIndex, pfa`pool, pfa.PageBitmap.Buffer
      ensures Valid() && Child(place, index) in at && at[Child(place, index)] == child
      ensures Extends(old(at), at) && at.Keys == old(at).Keys + {Child(place, index)}
      ensures TookTables(old(pfa.pool), pfa.pool, old(at), at)
      ensures FreeCount(pfa.pool) == FreeCount(old(pfa.pool)) - (if Child(place, index) in old(at) then 0 else 1)
      ensures forall vp: nat | vp < VIRTUAL_PAGES :: Translate(phys[..], PML4, vp) == Translate(old(phys[..]), PML4, vp)
      ensures LeavesKept(old(phys[..]), phys[..], old(at), at)
      ensures forall g: nat | g !in at.Values :: SameFrame(old(phys[..]), phys[..], g)
    {
      EntryIsLinked(phys[..], PML4, at, place, index);
      hide TreeOk, TablesTaken, FreeCount, Translate, IsPresent, FrameOf, LeafOf;
      var e := phys[table * ENTRIES + index];
      if IsPresent(e) {
        return FrameOf(e);
      }
      child := AddTable(table, index, place);
    }

    /** Stores the level-1 entry of `vp`. */
    method WriteLeaf(table: nat, index: nat, physicalMemory: U64, ghost vp: nat)
      requires Valid() && vp < VIRTUAL_PAGES && index == vp % ENTRIES
      requires PlaceOf(vp, 1) in at && at[PlaceOf(vp, 1)] == table
      modifies phys
      ensures Valid() && Translate(phys[..], PML4, vp) == Some(Mapping(Low(physicalMemory / PAGE, 40), true))
      ensures WritesLeaf(old(Entry(phys[..], table, index)), Entry(phys[..], table, index), physicalMemory)
      ensures forall wp: nat | wp < VIRTUAL_PAGES
        && wp != vp :: Translate(phys[..], PML4, wp) == Translate(old(phys[..]), PML4, wp)
      ensures forall g: nat | g !in at.Values :: SameFrame(old(phys[..]), phys[..], g)
    {
      ghost var mem := phys[..];
      var entry: U64 := FillEntry(phys[table * ENTRIES + index], physicalMemory / PAGE);
      EntryForReads(phys[table * ENTRIES + index], physicalMemory / PAGE);
      EntryForBits(phys[table * ENTRIES + index], physicalMemory / PAGE);
      phys[table * ENTRIES + index] := entry;
      assert phys[..] == mem[table * ENTRIES + index := entry];
      forall g: nat, j: nat | j < ENTRIES
        ensures Entry(phys[..], g, j) == if g == table && j == index then entry else Entry(mem, g, j)
      {
        EntryUpdate(mem, table, index, entry, g, j);
      }
      LeafWrite(mem, phys[..], PML4, at, vp);
    }

    /** The first two levels of the walk: the level-2 table for the page, created if need be. */
    method FindDirectory(indexer: PageMapIndexer, ghost vp: nat) returns (PD: nat)
      requires Valid() && vp < VIRTUAL_PAGES && FreeCount(pfa.pool) >= Missing(at.Keys, vp)
      requires indexer.PDP_i == IndexAt(vp, 4) && indexer.PD_i == IndexAt(vp, 3)
      modifies `at, phys, pfa`freeMemory, pfa`usedMemory, pfa`pageBitmapIndex, pfa`pool, pfa.PageBitmap.Buffer
      ensures Valid() && PlaceOf(vp, 2) in at && at[PlaceOf(vp, 2)] == PD
      ensures forall wp: nat | wp < VIRTUAL_PAGES :: Translate(phys[..], PML4, wp) == Translate(old(phys[..]), PML4, wp)
      ensures Extends(old(at), at) && at.Keys == old(at).Keys + {PlaceOf(vp, 3), PlaceOf(vp, 2)}
      ensures LeavesKept(old(phys[..]), phys[..], old(at), at)
      ensures TookTables(old(pfa.pool), pfa.pool, old(at), at)
      ensures FreeCount(pfa.pool) - Missing(at.Keys, vp) == FreeCount(old(pfa.pool)) - Missing(old(at).Keys, vp)
      ensures forall g: nat | g !in at.Values :: SameFrame(old(phys[..]), phys[..], g)
    {
      hide Injective, InMemory, ParentClosed, EntriesLinked, TookTables, SameFrame, FreeCount, TablesTaken, LeavesKept;
      ghost var at0, pool0, mem0 := at, pfa.pool, phys[..];
      PathPlaces(vp);
      var PDP := NextTable(PML4, indexer.PDP_i, ROOT);
      ghost var at1, pool1, mem1 := at, pfa.pool, phys[..];
      PD := NextTable(PDP, indexer.PD_i, PlaceOf(vp, 3));
      TookMore(pool0, pool1, pfa.pool, at0, at1, at);
      FramesChain(mem0, mem1, phys[..], at1, at);
      LeavesChain(mem0, mem1, phys[..], at0, at1, at);
    }

    /** The upper levels of the walk: the level-1 table for the page, created if need be. */
    method FindLeafTable(indexer: PageMapIndexer, ghost vp: nat) returns (PT: nat)
      requires Valid() && vp < VIRTUAL_PAGES && FreeCount(pfa.pool) >= Missing(at.Keys, vp)
      requires indexer.PDP_i == IndexAt(vp, 4) && indexer.PD_i == IndexAt(vp, 3) && indexer.PT_i == IndexAt(vp, 2)
      modifies `at, phys, pfa`freeMemory, pfa`usedMemory, pfa`pageBitmapIndex, pfa`pool, pfa.PageBitmap.Buffer
      ensures Valid() && PlaceOf(vp, 1) in at && at[PlaceOf(vp, 1)] == PT
      ensures forall wp: nat | wp < VIRTUAL_PAGES :: Translate(phys[..], PML4, wp) == Translate(old(phys[..]), PML4, wp)
      ensures AddsPath(old(at), at, vp) && LeavesKept(old(phys[..]), phys[..], old(at), at)
      ensures TookTables(old(pfa.pool), pfa.pool, old(at), at)
      ensures FreeCount(pfa.pool) == FreeCount(old(pfa.pool)) - Missing(old(at).Keys, vp)
      ensures forall g: nat | g !in at.Values :: SameFrame(old(phys[..]), phys[..], g)
    {
      hide Injective, InMemory, ParentClosed, EntriesLinked, TookTables, SameFrame, FreeCount, TablesTaken, LeavesKept;
      ghost var at0, pool0, mem0 := at, pfa.pool, phys[..];
      PathPlaces(vp);
      var PD := FindDirectory(indexer, vp);
      ghost var at2, pool2, mem2 := at, pfa.pool, phys[..];
      PT := NextTable(PD, indexer.PT_i, PlaceOf(vp, 2));
      TookMore(pool0, pool2, pfa.pool, at0, at2, at);
      FramesChain(mem0, mem2, phys[..], at2, at);
      LeavesChain(mem0, mem2, phys[..], at0, at2, at);
    }

    /**
     Maps the page of `virtualMemory` to the frame of `physicalMemory`: on translations a map update
     at one page, whatever tables have to be created on the way.
     */
    method MapMemory(virtualMemory: U64, physicalMemory: U64)
      requires Valid() && virtualMemory / PAGE < VIRTUAL_PAGES
      requires FreeCount(pfa.pool) >= Missing(at.Keys, virtualMemory / PAGE)
      modifies `at, phys, pfa`freeMemory, pfa`usedMemory, pfa`pageBitmapIndex, pfa`pool, pfa.PageBitmap.Buffer
      ensures Valid()
      ensures Translate(phys[..], PML4, virtualMemory / PAGE) == Some(Mapping(Low(physicalMemory / PAGE, 40), true))
      ensures PlaceOf(virtualMemory / PAGE, 1) in at
      ensures
        var q, i := PlaceOf(virtualMemory / PAGE, 1), virtualMemory / PAGE % ENTRIES;
        WritesLeaf(LeafOf(old(phys[..]), old(at), q, i), Entry(phys[..], at[q], i), physicalMemory)
      ensures forall wp: nat | wp < VIRTUAL_PAGES && wp != virtualMemory / PAGE ::
        Translate(phys[..], PML4, wp) == Translate(old(phys[..]), PML4, wp)
      ensures AddsPath(old(at), at, virtualMemory / PAGE)
      ensures TookTables(old(pfa.pool), pfa.pool, old(at), at)
      ensures FreeCount(pfa.pool) == FreeCount(old(pfa.pool)) - Missing(old(at).Keys, virtualMemory / PAGE)
      ensures forall g: nat | g !in at.Values :: SameFrame(old(phys[..]), phys[..], g)
    {
      hide Injective, InMemory, ParentClosed, EntriesLinked, TookTables, SameFrame, FreeCount, TablesTaken, LeavesKept;
      ghost var mem := phys[..];
      ghost var vp := virtualMemory / PAGE;
      PathPlaces(vp);
      var indexer := new PageMapIndexer(virtualMemory);
      ghost var at0 := at;
      var PT := FindLeafTable(indexer, vp);
      ghost var mem' := phys[..];
      LeafKept(mem, mem', at0, at, vp);
      WriteLeaf(PT, indexer.P_i, physicalMemory, vp);
      FramesChain(mem, mem', phys[..], at, at);
    }
  }

  /** What an entry of an upper table says about the tree. */
  lemma EntryIsLinked(mem: seq<U64>, root: nat, at: Tree, place: Place, index: nat)
    requires TreeOk(mem, root, at) && place in at && place.level > 1 && index < ENTRIES
    ensures at[place] * ENTRIES + index < |mem|
    ensures var e := mem[at[place] * ENTRIES + index];
      (IsPresent(e) <==> Child(place, index) in at) && (IsPresent(e) ==> FrameOf(e) == at[Child(place, index)])
  {
    assert mem[at[place] * ENTRIES + index] == Entry(mem, at[place], index);
  }

  /** The places on the path to `vp` are each other's children. */
  lemma PathPlaces(vp: nat)
    requires vp < VIRTUAL_PAGES
    ensures PlaceOf(vp, 4) == ROOT
    ensures forall l | 2 <= l <= 4 :: Child(PlaceOf(vp, l), IndexAt(vp, l)) == PlaceOf(vp, l - 1)
    ensures IndexAt(vp, 1) == vp % ENTRIES
  {
    UpIsZero(vp);
  }

  lemma TookMore(p0: Pool, p1: Pool, p2: Pool, at0: Tree, at1: Tree, at2: Tree)
    requires p0.Valid() && p1.Valid() && p2.Valid()
    requires Extends(at0, at1) && Extends(at1, at2)
    requires TookTables(p0, p1, at0, at1) && TookTables(p1, p2, at1, at2)
    ensures TookTables(p0, p2, at0, at2)
  {
    ValuesGrow(at1, at2);
  }

  lemma ValuesGrow(at: Tree, at': Tree)
    requires Extends(at, at')
    ensures at.Values <= at'.Values
  {
    forall f | f in at.Values ensures f in at'.Values {
      var p :| p in at && at[p] == f;
      assert at'[p] == f;
    }
  }

  /** Frames outside the final tables are untouched by both of two steps. */
  lemma FramesChain(mem0: seq<U64>, mem1: seq<U64>, mem2: seq<U64>, at1: Tree, at2: Tree)
    requires Extends(at1, at2)
    requires forall g: nat | g !in at1.Values :: SameFrame(mem0, mem1, g)
    requires forall g: nat | g !in at2.Values :: SameFrame(mem1, mem2, g)
    ensures forall g: nat | g !in at2.Values :: SameFrame(mem0, mem2, g)
  {
    ValuesGrow(at1, at2);
    forall g: nat | g !in at2.Values ensures SameFrame(mem0, mem2, g) {
      assert SameFrame(mem0, mem1, g) && SameFrame(mem1, mem2, g);
    }
  }

  /** An entry made for a frame of memory reads back as that frame. */
  lemma EntryForAddress(was: U64, frame: nat)
    requires frame <= MAX_FRAMES
    ensures IsPresent(EntryFor(was, frame)) && IsWritable(EntryFor(was, frame))
    ensures FrameOf(EntryFor(was, frame)) == frame
  {
    EntryForReads(was, frame);
    Powers();
    LowOfSmall(frame, 40);
  }

  /** A requested frame is fit to become the table at `c`. */
  lemma TookOne(p: Pool, at: Tree, c: Place)
    requires p.Valid() && TablesTaken(p, at) && c !in at && Request(p).1.Some?
    ensures Request(p).0.Valid()
    ensures var (p', child) := (Request(p).0, Request(p).1.value);
      && 0 < child < p.Limit() && p.Limit() == p'.Limit() && child !in at.Values
      && at[c := child].Values == at.Values + {child}
      && TookTables(p, p', at, at[c := child]) && TablesTaken(p', at[c := child])
  {
    RequestIsLowest(p);
    var (p', child) := (Request(p).0, Request(p).1.value);
    var at' := at[c := child];
    assert at'[c] == child;
    assert forall q | q in at :: at'[q] == at[q];
    assert at'.Values == at.Values + {child};
  }

  /** Clearing a fresh frame and then storing the entry is a link step, and touches nothing else. */
  lemma NewLink(mem: seq<U64>, cleared: seq<U64>, mem': seq<U64>, at: Tree, p: Place, i: nat, frame: nat, entry: U64)
    requires |cleared| == |mem| && InMemory(mem, at) && Injective(at)
    requires p in at && p.level > 1 && i < ENTRIES && Child(p, i) !in at
    requires frame !in at.Values && frame * ENTRIES + ENTRIES <= |mem|
    requires forall j: nat | j < ENTRIES :: Entry(cleared, frame, j) == 0
    requires forall g: nat | g != frame :: SameFrame(mem, cleared, g)
    requires mem' == cleared[at[p] * ENTRIES + i := entry]
    requires IsPresent(entry) && IsWritable(entry) && FrameOf(entry) == frame
    ensures LinksNew(mem, mem', at, p, i, frame)
    ensures forall g: nat | g !in at.Values && g != frame :: SameFrame(mem, mem', g)
  {
    forall g: nat, j: nat | j < ENTRIES
      ensures Entry(mem', g, j) == if g == at[p] && j == i then entry else Entry(cleared, g, j)
    {
      EntryUpdate(cleared, at[p], i, entry, g, j);
    }
    forall q: Place, j: nat | q in at && j < ENTRIES && !(q == p && j == i)
      ensures Entry(mem', at[q], j) == Entry(mem, at[q], j)
    {
      assert SameFrame(mem, cleared, at[q]);
    }
    forall g: nat | g !in at.Values && g != frame ensures SameFrame(mem, mem', g) {
      assert SameFrame(mem, cleared, g);
    }
  }
}
