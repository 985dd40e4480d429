/**
 The four-level page-table tree as the processor reads it (section 4.5 of the Intel SDM,
 Volume 3A), and what linking a table or writing a leaf does to the translation.
 Physical memory is a sequence of 64-bit words, 512 to a frame.
 */
module PageTree {
  import opened Words
  import opened Paging

  const VIRTUAL_PAGES := 0x10_0000_0000

  /** Word `i` of a frame; memory that does not exist reads as zero. */
  function Entry(mem: seq<U64>, frame: nat, i: nat): U64
  {
    if frame * ENTRIES + i < |mem| then mem[frame * ENTRIES + i] else 0
  }

  /** Where a page lies in memory, and whether it may be written. */
  datatype Mapping = Mapping(frame: nat, writable: bool)

  /**
   The hardware walk for page `vp`, entered at a table of the given level. A page may be written if
   every entry on the way says so (section 4.6 of the same manual).
   */
  function WalkFrom(mem: seq<U64>, table: nat, level: nat, vp: nat): Option<Mapping>
    decreases level, |mem|
  {
    if level == 0 then Some(Mapping(table, true))
    else
      var e := Entry(mem, table, IndexAt(vp, level));
      if !IsPresent(e) then None
      else
        match WalkFrom(mem, FrameOf(e), level - 1, vp)
        case None => None
        case Some(m) => Some(Mapping(m.frame, m.writable && IsWritable(e)))
  }

  /** The frame that virtual page `vp` translates to, and the right to write it. */
  function Translate(mem: seq<U64>, root: nat, vp: nat): Option<Mapping>
  {
    WalkFrom(mem, root, 4, vp)
  }

  /** The walk with every index, bit and shift written out: how the page of `address` is found. */
  lemma TranslateReads(mem: seq<U64>, root: nat, address: nat)
    ensures
      var e4 := Entry(mem, root, address / 0x80_0000_0000 % 512);
      var e3 := Entry(mem, e4 / 4096 % 0x100_0000_0000, address / 0x4000_0000 % 512);
      var e2 := Entry(mem, e3 / 4096 % 0x100_0000_0000, address / 0x20_0000 % 512);
      var e1 := Entry(mem, e2 / 4096 % 0x100_0000_0000, address / 0x1000 % 512);
      Translate(mem, root, address / 4096)
      == if e4 % 2 == 0 || e3 % 2 == 0 || e2 % 2 == 0 || e1 % 2 == 0 then None
         else Some(Mapping(e1 / 4096 % 0x100_0000_0000, e4 % 4 == e3 % 4 == e2 % 4 == e1 % 4 == 3))
  {
    var vp := address / 4096;
    IndicesAre(address);
    EntryReads(Entry(mem, root, IndexAt(vp, 4)));
    var t3 := FrameOf(Entry(mem, root, IndexAt(vp, 4)));
    EntryReads(Entry(mem, t3, IndexAt(vp, 3)));
    var t2 := FrameOf(Entry(mem, t3, IndexAt(vp, 3)));
    EntryReads(Entry(mem, t2, IndexAt(vp, 2)));
    var t1 := FrameOf(Entry(mem, t2, IndexAt(vp, 2)));
    EntryReads(Entry(mem, t1, IndexAt(vp, 1)));
    hide IsPresent, IsWritable, FrameOf, IndexAt, Entry;
    WalkStep(mem, root, 4, vp);
    WalkStep(mem, t3, 3, vp);
    WalkStep(mem, t2, 2, vp);
    WalkStep(mem, t1, 1, vp);
    WalkEnd(mem, FrameOf(Entry(mem, t1, IndexAt(vp, 1))), vp);
    hide WalkFrom;
  }

  lemma WalkStep(mem: seq<U64>, table: nat, level: nat, vp: nat)
    requires level > 0
    ensures var e := Entry(mem, table, IndexAt(vp, level));
      var r := WalkFrom(mem, FrameOf(e), level - 1, vp);
      WalkFrom(mem, table, level, vp) == if !IsPresent(e) || r.None? then None
                                         else Some(Mapping(r.value.frame, r.value.writable && IsWritable(e)))
  {
  }

  lemma WalkEnd(mem: seq<U64>, table: nat, vp: nat)
    ensures WalkFrom(mem, table, 0, vp) == Some(Mapping(table, true))
  {
  }

  /** The parts of an entry as arithmetic. */
  lemma EntryReads(e: nat)
    ensures IsPresent(e) <==> e % 2 == 1
    ensures IsPresent(e) && IsWritable(e) <==> e % 4 == 3
    ensures FrameOf(e) == e / 4096 % 0x100_0000_0000
  {
    TwoBits(e);
    FieldIs(e, 12, 40);
    Powers();
  }

  /** A place in the tree: level 4 is the PML4, `prefix` the indices that lead here. */
  datatype Place = Place(level: nat, prefix: nat)

  const ROOT := Place(4, 0)

  function Child(p: Place, i: nat): Place
    requires p.level >= 1
  {
    Place(p.level - 1, p.prefix * ENTRIES + i)
  }

  function Parent(p: Place): Place { Place(p.level + 1, p.prefix / ENTRIES) }

  /** The place of the level-`level` table that page `vp` uses. */
  function PlaceOf(vp: nat, level: nat): Place { Place(level, Up(vp, level)) }

  type Tree = map<Place, nat>

  ghost predicate Injective(at: Tree)
  {
    forall p, q | p in at && q in at && at[p] == at[q] :: p == q
  }

  ghost predicate InMemory(mem: seq<U64>, at: Tree)
  {
    forall p | p in at :: 1 <= p.level <= 4 && at[p] * ENTRIES + ENTRIES <= |mem|
  }

  ghost predicate ParentClosed(at: Tree)
  {
    forall p | p in at :: p == ROOT || Parent(p) in at
  }

  /** An upper-level entry is present exactly when its child table exists; then it points to it, writable. */
  ghost predicate EntriesLinked(mem: seq<U64>, at: Tree)
  {
    forall p, i: nat {:trigger Child(p, i)} | p in at && p.level > 1 && i < ENTRIES ::
      var e := Entry(mem, at[p], i);
      (IsPresent(e) <==> Child(p, i) in at) && (IsPresent(e) ==> FrameOf(e) == at[Child(p, i)] && IsWritable(e))
  }

  /** The tables in memory below `root` form a tree: `at` gives each one's frame, none is shared. */
  ghost predicate TreeOk(mem: seq<U64>, root: nat, at: Tree)
  {
    ROOT in at && at[ROOT] == root && Injective(at) && InMemory(mem, at) && ParentClosed(at) && EntriesLinked(mem, at)
  }

  /** What the level-1 table says about `vp`. */
  ghost function Leaf(mem: seq<U64>, at: Tree, vp: nat): Option<Mapping>
  {
    if PlaceOf(vp, 1) !in at then None
    else
      var e := Entry(mem, at[PlaceOf(vp, 1)], vp % ENTRIES);
      if IsPresent(e) then Some(Mapping(FrameOf(e), IsWritable(e))) else None
  }

  lemma {:induction false} PathToRoot(mem: seq<U64>, root: nat, at: Tree, vp: nat, low: nat, level: nat)
    requires TreeOk(mem, root, at) && vp < VIRTUAL_PAGES
    requires 1 <= low <= level <= 4 && PlaceOf(vp, low) in at
    ensures PlaceOf(vp, level) in at
    decreases level - low
  {
    if low < level {
      assert Parent(PlaceOf(vp, low)) == PlaceOf(vp, low + 1);
      PathToRoot(mem, root, at, vp, low + 1, level);
    }
  }

  lemma {:induction false} WalkIsLeaf(mem: seq<U64>, root: nat, at: Tree, vp: nat, level: nat)
    requires TreeOk(mem, root, at) && vp < VIRTUAL_PAGES
    requires 1 <= level <= 4 && PlaceOf(vp, level) in at
    ensures WalkFrom(mem, at[PlaceOf(vp, level)], level, vp) == Leaf(mem, at, vp)
    decreases level
  {
    var p, i := PlaceOf(vp, level), IndexAt(vp, level);
    var e := Entry(mem, at[p], i);
    if level == 1 {
      assert i == vp % ENTRIES;
      if IsPresent(e) { assert WalkFrom(mem, FrameOf(e), 0, vp) == Some(Mapping(FrameOf(e), true)); }
    } else {
      assert Child(p, i) == PlaceOf(vp, level - 1);
      if IsPresent(e) {
        WalkIsLeaf(mem, root, at, vp, level - 1);
      } else if PlaceOf(vp, 1) in at {
        PathToRoot(mem, root, at, vp, 1, level - 1);
      }
    }
  }

  /** In a well-formed tree the hardware walk reads exactly the leaf entry. */
  lemma TranslateIsLeaf(mem: seq<U64>, root: nat, at: Tree, vp: nat)
    requires TreeOk(mem, root, at) && vp < VIRTUAL_PAGES
    ensures Translate(mem, root, vp) == Leaf(mem, at, vp)
  {
    UpIsZero(vp);
    assert PlaceOf(vp, 4) == ROOT;
    WalkIsLeaf(mem, root, at, vp, 4);
  }

  ghost predicate SameFrame(mem: seq<U64>, mem': seq<U64>, frame: nat)
  {
    forall i: nat | i < ENTRIES :: Entry(mem', frame, i) == Entry(mem, frame, i)
  }

  /** Writes outside the tables change neither the tree nor any translation. */
  lemma OtherWrites(mem: seq<U64>, mem': seq<U64>, root: nat, at: Tree)
    requires TreeOk(mem, root, at) && |mem'| == |mem|
    requires forall p | p in at :: SameFrame(mem, mem', at[p])
    ensures TreeOk(mem', root, at)
    ensures forall vp: nat | vp < VIRTUAL_PAGES :: Translate(mem', root, vp) == Translate(mem, root, vp)
  {
    forall p, i: nat | p in at && p.level > 1 && i < ENTRIES
      ensures var e := Entry(mem', at[p], i);
        (IsPresent(e) <==> Child(p, i) in at) && (IsPresent(e) ==> FrameOf(e) == at[Child(p, i)] && IsWritable(e))
    {
      assert SameFrame(mem, mem', at[p]);
      assert Entry(mem', at[p], i) == Entry(mem, at[p], i);
    }
    forall vp: nat | vp < VIRTUAL_PAGES ensures Translate(mem', root, vp) == Translate(mem, root, vp) {
      TranslateIsLeaf(mem, root, at, vp);
      TranslateIsLeaf(mem', root, at, vp);
    }
  }

  /** `mem'` is `mem` after `frame` was cleared and entry `i` of the table at `p` was made to point to it. */
  ghost predicate LinksNew(mem: seq<U64>, mem': seq<U64>, at: Tree, p: Place, i: nat, frame: nat)
  {
    && |mem'| == |mem| && p in at && p.level > 1 && i < ENTRIES
    && Child(p, i) !in at && frame !in at.Values && frame * ENTRIES + ENTRIES <= |mem|
    && (forall j: nat | j < ENTRIES :: Entry(mem', frame, j) == 0)
    && IsPresent(Entry(mem', at[p], i)) && IsWritable(Entry(mem', at[p], i)) && FrameOf(Entry(mem', at[p], i)) == frame
    && (forall q: Place, j: nat {:trigger Entry(mem', at[q], j)} |
         q in at && j < ENTRIES && !(q == p && j == i) :: Entry(mem', at[q], j) == Entry(mem, at[q], j))
  }

  lemma LinkKeepsTree(mem: seq<U64>, mem': seq<U64>, root: nat, at: Tree, p: Place, i: nat, frame: nat)
    requires TreeOk(mem, root, at) && LinksNew(mem, mem', at, p, i, frame)
    ensures TreeOk(mem', root, at[Child(p, i) := frame])
  {
    var c := Child(p, i);
    var at' := at[c := frame];
    assert Parent(c) == p;
    ZeroBits(PRESENT);
    forall q, j: nat | q in at' && q.level > 1 && j < ENTRIES
      ensures var e := Entry(mem', at'[q], j);
        (IsPresent(e) <==> Child(q, j) in at') && (IsPresent(e) ==> FrameOf(e) == at'[Child(q, j)] && IsWritable(e))
    {
      assert Parent(Child(q, j)) == q;
      if q == c {
        assert Entry(mem', frame, j) == 0;
      } else if q == p && j == i {
      } else {
        assert Entry(mem', at[q], j) == Entry(mem, at[q], j);
        assert Child(q, j) != c;
      }
    }
    assert Injective(at');
  }

  /** A new empty table is invisible: every page translates as before. */
  lemma LinkKeepsTranslation(mem: seq<U64>, mem': seq<U64>, root: nat, at: Tree, p: Place, i: nat, frame: nat)
    requires TreeOk(mem, root, at) && LinksNew(mem, mem', at, p, i, frame)
    ensures forall vp: nat | vp < VIRTUAL_PAGES :: Translate(mem', root, vp) == Translate(mem, root, vp)
  {
    var at' := at[Child(p, i) := frame];
    LinkKeepsTree(mem, mem', root, at, p, i, frame);
    forall vp: nat | vp < VIRTUAL_PAGES ensures Translate(mem', root, vp) == Translate(mem, root, vp) {
      TranslateIsLeaf(mem, root, at, vp);
      TranslateIsLeaf(mem', root, at', vp);
      var q := PlaceOf(vp, 1);
      if q == Child(p, i) {
        ZeroBits(PRESENT);
        assert Entry(mem', frame, vp % ENTRIES) == 0;
      } else if q in at {
        assert Entry(mem', at[q], vp % ENTRIES) == Entry(mem, at[q], vp % ENTRIES);
      }
    }
  }

  /** Writing the leaf entry of `vp` is a map update on translations, and keeps the tree. */
  lemma LeafWrite(mem: seq<U64>, mem': seq<U64>, root: nat, at: Tree, vp: nat)
    requires TreeOk(mem, root, at) && vp < VIRTUAL_PAGES && PlaceOf(vp, 1) in at
    requires |mem'| == |mem|
    requires forall q: Place, j: nat {:trigger Entry(mem', at[q], j)} |
      q in at && j < ENTRIES && !(q == PlaceOf(vp, 1) && j == vp % ENTRIES) ::
        Entry(mem', at[q], j) == Entry(mem, at[q], j)
    requires IsPresent(Entry(mem', at[PlaceOf(vp, 1)], vp % ENTRIES))
    ensures TreeOk(mem', root, at)
    ensures var e := Entry(mem', at[PlaceOf(vp, 1)], vp % ENTRIES);
      Translate(mem', root, vp) == Some(Mapping(FrameOf(e), IsWritable(e)))
    ensures forall wp: nat | wp < VIRTUAL_PAGES && wp != vp :: Translate(mem', root, wp) == Translate(mem, root, wp)
  {
    forall q, j: nat | q in at && q.level > 1 && j < ENTRIES
      ensures var e := Entry(mem', at[q], j);
        (IsPresent(e) <==> Child(q, j) in at) && (IsPresent(e) ==> FrameOf(e) == at[Child(q, j)] && IsWritable(e))
    {
      assert Entry(mem', at[q], j) == Entry(mem, at[q], j);
      assert Parent(Child(q, j)) == q;
    }
    TranslateIsLeaf(mem', root, at, vp);
    forall wp: nat | wp < VIRTUAL_PAGES && wp != vp
      ensures Translate(mem', root, wp) == Translate(mem, root, wp)
    {
      TranslateIsLeaf(mem, root, at, wp);
      TranslateIsLeaf(mem', root, at, wp);
      assert Up(wp, 1) == wp / ENTRIES && Up(vp, 1) == vp / ENTRIES;
      if PlaceOf(wp, 1) in at {
        assert Entry(mem', at[PlaceOf(wp, 1)], wp % ENTRIES) == Entry(mem, at[PlaceOf(wp, 1)], wp % ENTRIES);
      }
    }
  }

  /** A PML4 full of zeros is a tree that maps nothing. */
  lemma EmptyTree(mem: seq<U64>, root: nat)
    requires root * ENTRIES + ENTRIES <= |mem|
    requires forall i: nat | i < ENTRIES :: Entry(mem, root, i) == 0
    ensures TreeOk(mem, root, map[ROOT := root])
    ensures forall vp: nat | vp < VIRTUAL_PAGES :: Translate(mem, root, vp) == None
  {
    var at := map[ROOT := root];
    ZeroBits(PRESENT);
    forall p, i: nat | p in at && p.level > 1 && i < ENTRIES
      ensures var e := Entry(mem, at[p], i);
        (IsPresent(e) <==> Child(p, i) in at) && (IsPresent(e) ==> FrameOf(e) == at[Child(p, i)] && IsWritable(e))
    {
      assert Entry(mem, root, i) == 0;
      assert Child(p, i).level == 3;
    }
    forall vp: nat | vp < VIRTUAL_PAGES ensures Translate(mem, root, vp) == None {
      TranslateIsLeaf(mem, root, at, vp);
    }
  }
}
