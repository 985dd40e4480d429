/** `malloc`, `free` and the list surgery under them, in the kernel's virtual memory. */
module KernelHeap {
  import opened Words
  import opened FramePool
  import opened Paging
  import opened PageTree
  import opened PageTableManagers
  import opened KernelMemory
  import opened HeapImage
  import S = Segments
  import L = HeapLaws

  const HDR := S.HDR

  /** Where the segments are: in order, inside the heap, at word addresses. */
  ghost predicate Placed(h: S.Heap)
  {
    && |h.segs| > 0 && Apart(h.segs)
    && forall i | 0 <= i < |h.segs| ::
         h.start <= h.segs[i].addr && h.segs[i].End() <= h.end && h.segs[i].addr % WORD == 0
  }

  /** The list `h` in a memory that covers the heap. */
  ghost predicate Image(view: View, h: S.Heap)
  {
    Covers(view, h.start, h.end) && Placed(h) && Linked(view, h.segs, 0, 0)
  }

  /** A header of the list: its members are in memory and say what the list says. */
  lemma HeaderAt(view: View, h: S.Heap, k: nat)
    requires Image(view, h) && k < |h.segs|
    ensures var a := h.segs[k].addr;
      && a in view && a + 8 in view && a + 16 in view && a + 24 in view
      && view[a] == h.segs[k].len
      && view[a + 8] == (if k + 1 < |h.segs| then h.segs[k + 1].addr else 0)
      && view[a + 16] == (if k > 0 then h.segs[k - 1].addr else 0)
      && (view[a + 24] % 256 != 0 <==> h.segs[k].free) && FreeByte(view[a + 24]) == h.segs[k].free
    ensures k + 1 < |h.segs| ==> h.segs[k + 1].addr > 0 && h.segs[k].End() <= h.segs[k + 1].addr
    ensures h.segs[k].End() <= h.end
  {
    hide Linked;
    LinkedAt(view, h.segs, k);
  }

  /** No word of a block in use changes. */
  ghost predicate KeepsPayloads(view: View, view': View, segs: seq<S.Seg>)
  {
    forall s, a | s in segs && !s.free && s.Payload() <= a < s.End() && a in view :: a in view' && view'[a] == view[a]
  }

  lemma PayloadsChain(v0: View, v1: View, v2: View, segs: seq<S.Seg>)
    requires KeepsPayloads(v0, v1, segs) && KeepsPayloads(v1, v2, segs)
    ensures KeepsPayloads(v0, v2, segs)
  {
  }

  /** A store into a header, or into a segment that is not in use, changes no payload in use. */
  lemma HeaderStore(h: S.Heap, view: View, k: nat, c: nat, w: nat)
    requires Apart(h.segs) && k < |h.segs|
    requires h.segs[k].addr <= c < (if h.segs[k].free then h.segs[k].End() else h.segs[k].Payload())
    ensures KeepsPayloads(view, view[c := w], h.segs)
  {
    forall s, a | s in h.segs && !s.free && s.Payload() <= a < s.End() && a in view ensures a != c {
      var i :| 0 <= i < |h.segs| && h.segs[i] == s;
      if i < k { assert h.segs[i].End() <= h.segs[k].addr; }
      if k < i { assert h.segs[k].End() <= h.segs[i].addr; }
    }
  }

  /** Segment `i` of a combined list in terms of the list before. */
  lemma CombinedSeg(h: S.Heap, k: nat, i: nat)
    requires k + 1 < |h.segs| && h.segs[k + 1].free && h.segs[k].End() == h.segs[k + 1].addr
    requires i + 1 < |h.segs|
    ensures |S.CombineAt(h, k).segs| == |h.segs| - 1
    ensures var s := S.CombineAt(h, k).segs[i];
      && s.addr == h.segs[if i <= k then i else i + 1].addr
      && s.End() == h.segs[if i < k then i else i + 1].End()
      && (i != k ==> s == h.segs[if i < k then i else i + 1]) && (i == k ==> s.free == h.segs[k].free)
  {
  }

  /** Combining two neighbours keeps the placement. */
  lemma CombinePlaced(h: S.Heap, k: nat)
    requires Placed(h) && k + 1 < |h.segs| && h.segs[k + 1].free && h.segs[k].End() == h.segs[k + 1].addr
    ensures Placed(S.CombineAt(h, k))
  {
    hide S.CombineAt;
    var h' := S.CombineAt(h, k);
    CombinedStart(h, k);
    CombinedSeg(h, k, 0);
    forall i | 0 <= i < |h'.segs|
      ensures h'.segs[i].addr > 0 && h'.start <= h'.segs[i].addr && h'.segs[i].End() <= h'.end
        && h'.segs[i].addr % WORD == 0
    {
      CombinedSeg(h, k, i);
    }
    forall i, j | 0 <= i < j < |h'.segs| ensures h'.segs[i].End() <= h'.segs[j].addr {
      CombinedApart(h, k, i, j);
    }
  }

  lemma CombinedApart(h: S.Heap, k: nat, i: nat, j: nat)
    requires Apart(h.segs) && k + 1 < |h.segs| && h.segs[k + 1].free && h.segs[k].End() == h.segs[k + 1].addr
    requires i < j < |h.segs| - 1
    ensures |S.CombineAt(h, k).segs| == |h.segs| - 1
    ensures S.CombineAt(h, k).segs[i].End() <= S.CombineAt(h, k).segs[j].addr
  {
    hide S.CombineAt;
    CombinedSeg(h, k, i);
    CombinedSeg(h, k, j);
    assert h.segs[if i < k then i else i + 1].End() <= h.segs[if j <= k then j else j + 1].addr;
  }

  /** The first header stays; the last one changes only when it was absorbed. */
  lemma CombinedEnds(h: S.Heap, k: nat)
    requires Apart(h.segs) && k + 1 < |h.segs| && h.segs[k + 1].free
    ensures S.CombineAt(h, k).segs != [] && S.CombineAt(h, k).segs[0].addr == h.segs[0].addr
    ensures LastAddr(S.CombineAt(h, k).segs, 0)
         == if h.segs[k + 1].addr == LastAddr(h.segs, 0) then h.segs[k].addr else LastAddr(h.segs, 0)
  {
    var n := |h.segs| - 1;
    if k + 1 < n { HeadersDisjoint(h.segs, k + 1, n); }
  }

  lemma CombinedStart(h: S.Heap, k: nat)
    requires k < |h.segs|
    ensures S.CombineAt(h, k).start == h.start && S.CombineAt(h, k).end == h.end
  {
  }

  lemma CombineKeepsPayloads(h: S.Heap, view: View, k: nat)
    requires Apart(h.segs) && k + 1 < |h.segs|
    ensures KeepsPayloads(view, CombinedView(view, h.segs[k].addr, FirstAddr(h.segs[k + 2..], 0),
                                             h.segs[k].len + h.segs[k + 1].len + HDR), h.segs)
  {
    hide KeepsPayloads, Apart;
    var a, nn, len := h.segs[k].addr, FirstAddr(h.segs[k + 2..], 0), h.segs[k].len + h.segs[k + 1].len + HDR;
    var v := LastLinked(view, nn, a);
    if nn != 0 {
      HeaderStore(h, view, k + 2, nn + LAST, a);
    } else {
      NothingStored(view, h.segs);
    }
    HeaderStore(h, v, k, a, len);
    HeaderStore(h, v[a := len], k, a + NEXT, nn);
    PayloadsChain(view, v, v[a := len], h.segs);
    PayloadsChain(view, v[a := len], v[a := len][a + NEXT := nn], h.segs);
  }

  lemma NothingStored(view: View, segs: seq<S.Seg>)
    ensures KeepsPayloads(view, view, segs)
  {
  }

  class KernelHeap {
    const space: AddressSpace
    var heapStart: nat
    var heapEnd: nat
    var LastHdr: nat
    ghost var h: S.Heap

    constructor (space: AddressSpace)
      ensures this.space == space
    {
      this.space := space;
      heapStart, heapEnd, LastHdr := 0, 0, 0;
      h := S.Heap(0, 0, []);
    }

    /** The list in memory is the ghost list, in the heap's own pages. */
    ghost predicate Listed()
      reads this, space, space.ptm, space.ptm.phys, space.ptm.pfa, space.ptm.pfa.PageBitmap,
          space.ptm.pfa.PageBitmap.Buffer
    {
      && space.Valid() && heapStart == space.base == h.start && heapEnd == space.End() == h.end
      && Image(space.view, h) && h.segs[0].addr == heapStart
    }

    ghost predicate Shaped()
      reads this, space, space.ptm, space.ptm.phys, space.ptm.pfa, space.ptm.pfa.PageBitmap,
          space.ptm.pfa.PageBitmap.Buffer
    {
      Listed() && LastHdr == LastAddr(h.segs, 0)
    }

    ghost predicate Valid()
      reads this, space, space.ptm, space.ptm.phys, space.ptm.pfa, space.ptm.pfa.PageBitmap,
          space.ptm.pfa.PageBitmap.Buffer
    {
      Shaped() && h.Valid()
    }

    /** Writes the `free` member. */
    method SetFree(hdr: nat, free: bool, ghost k: nat)
      requires Shaped() && k < |h.segs| && h.segs[k].addr == hdr
      modifies `h, space`view, space.ptm.phys
      ensures Shaped() && h == FreeSet(old(h), k, free)
      ensures KeepsPayloads(old(space.view), space.view, old(h).segs)
    {
      hide AddressSpace.Valid, Image, FreeSet, FreeByte, WithFreeByte, KeepsPayloads;
      HeaderAt(space.view, h, k);
      var w := space.Load(hdr + FREE);
      FreeSetImage(space.view, h, k, free);
      FreeByteFits(w, free);
      space.ViewCovers();
      InHeap(space.view, h, hdr + FREE);
      space.Store(hdr + FREE, WithFreeByte(w, free));
      h := FreeSet(h, k, free);
    }

    /** `hdr->last = last`, unless `hdr` is NULL. */
    method LinkLast(hdr: nat, last: U64)
      requires space.Valid() && (hdr != 0 ==> hdr + LAST in space.view && hdr % WORD == 0)
      modifies space`view, space.ptm.phys
      ensures space.Valid() && space.view == LastLinked(old(space.view), hdr, last)
    {
      hide AddressSpace.Valid;
      if hdr != 0 { space.Store(hdr + LAST, last); }
    }

    /** The length and `next` of two headers merged. */
    method MergeHeaders(hdr: nat, next: nat)
      requires space.Valid() && hdr % WORD == 0 && hdr + HDR <= next
      requires hdr in space.view && hdr + NEXT in space.view && next in space.view && next + NEXT in space.view
      requires space.view[hdr] + space.view[next] + HDR < TWO_64
      modifies space`view, space.ptm.phys
      ensures space.Valid()
      ensures space.view == old(space.view)[hdr := old(space.view[hdr] + space.view[next] + HDR)]
                                           [hdr + NEXT := old(space.view[next + NEXT])]
    {
      hide AddressSpace.Valid;
      var length := space.Load(hdr);
      var nextLength := space.Load(next);
      space.Store(hdr, length + nextLength + HDR);
      var nn := space.Load(next + NEXT);
      space.Store(hdr + NEXT, nn);
    }

    /** The stores of `CombineForward`. */
    method CombineStores(hdr: nat, next: nat, ghost k: nat)
      requires Listed() && k + 1 < |h.segs| && h.segs[k].addr == hdr && h.segs[k + 1].addr == next
      modifies space`view, space.ptm.phys
      ensures space.Valid()
      ensures space.view == CombinedView(old(space.view), hdr, FirstAddr(h.segs[k + 2..], 0),
                                         h.segs[k].len + h.segs[k + 1].len + HDR)
    {
      hide AddressSpace.Valid, Image, Covers, FirstAddr;
      space.ViewCovers();
      CombineReads(space.view, h, k);
      var nn := space.Load(next + NEXT);
      LinkLast(nn, hdr);
      MergeHeaders(hdr, next);
    }

    /** Takes a free segment that follows into the one at `hdr`. */
    method CombineForward(hdr: nat, ghost k: nat)
      requires Shaped() && k < |h.segs| && h.segs[k].addr == hdr
      requires k + 1 < |h.segs| ==> h.segs[k].End() == h.segs[k + 1].addr
      modifies `h, `LastHdr, space`view, space.ptm.phys
      ensures Shaped() && h == S.CombineAt(old(h), k)
      ensures KeepsPayloads(old(space.view), space.view, old(h).segs)
    {
      hide AddressSpace.Valid, Image, KeepsPayloads, FreeByte, CombinedView, LastAddr, FirstAddr;
      NothingStored(space.view, h.segs);
      HeaderAt(space.view, h, k);
      var next := space.Load(hdr + NEXT);
      if next == 0 { return; }
      HeaderAt(space.view, h, k + 1);
      var nextFree := space.Load(next + FREE);
      if !FreeByte(nextFree) { return; }
      CombinedImage(space.view, h, k);
      if next == LastHdr { LastHdr := hdr; }
      CombineStores(hdr, next, k);
      h := S.CombineAt(h, k);
    }

    /** Takes the one at `hdr` into a free segment before it. */
    method CombineBackward(hdr: nat, ghost k: nat)
      requires Shaped() && k < |h.segs| && h.segs[k].addr == hdr
      requires k > 0 ==> h.segs[k - 1].End() == h.segs[k].addr
      modifies `h, `LastHdr, space`view, space.ptm.phys
      ensures Shaped() && h == S.CombineBackAt(old(h), k)
      ensures KeepsPayloads(old(space.view), space.view, old(h).segs)
    {
      hide AddressSpace.Valid, Image, KeepsPayloads;
      NothingStored(space.view, h.segs);
      HeaderAt(space.view, h, k);
      var last := space.Load(hdr + LAST);
      if last == 0 {
        if k > 0 { HeaderAt(space.view, h, k - 1); NonzeroAddr(space.view, h, k - 1); }
        return;
      }
      HeaderAt(space.view, h, k - 1);
      var lastFree := space.Load(last + FREE);
      if FreeByte(lastFree) { CombineForward(last, k - 1); }
    }

    /**
     The links that `Split` stores. The first store is not guarded: when `hdr` is the last header it
     goes to the `last` member of a header at address 0, which is in page 0 and so outside the heap.
     */
    method SplitLinks(hdr: nat, newHdr: U64, ghost k: nat)
      requires Listed() && k < |h.segs| && h.segs[k].addr == hdr && h.segs[k].free
      requires hdr + HDR <= newHdr && newHdr + HDR <= h.segs[k].End() && newHdr % WORD == 0
      modifies space`view, space.ptm.phys
      ensures space.Valid()
      ensures space.view == LinksView(old(space.view), hdr, newHdr, FirstAddr(h.segs[k + 1..], 0))
    {
      hide AddressSpace.Valid, Image, Covers, FreeByte;
      space.ViewCovers();
      SplitReads(space.view, h, k, newHdr);
      ghost var v := space.view;
      var next := space.Load(hdr + NEXT);
      space.Store(next + LAST, newHdr);
      assert space.view == LastLinked(v, next, newHdr);
      next := space.Load(hdr + NEXT);
      space.Store(newHdr + NEXT, next);
      space.Store(hdr + NEXT, newHdr);
      space.Store(newHdr + LAST, hdr);
    }

    /** The stores of `Split`. */
    method SplitStores(hdr: nat, newHdr: U64, splitLength: U64, splitSegLength: U64, ghost k: nat)
      requires Listed() && k < |h.segs| && h.segs[k].addr == hdr && h.segs[k].free
      requires newHdr == hdr + HDR + splitLength && newHdr + HDR + splitSegLength == h.segs[k].End()
        && newHdr % WORD == 0
      modifies space`view, space.ptm.phys
      ensures space.Valid()
      ensures space.view == SplitView(old(space.view), S.Seg(hdr, splitLength, true),
                                      S.Seg(newHdr, splitSegLength, true), FirstAddr(h.segs[k + 1..], 0))
    {
      hide AddressSpace.Valid, Image, Covers, FreeByte, WithFreeByte, LinksView;
      space.ViewCovers();
      ghost var nn := FirstAddr(h.segs[k + 1..], 0);
      SplitReads(space.view, h, k, newHdr);
      LinksRead(space.view, h, k, newHdr);
      SplitLinks(hdr, newHdr, k);
      space.Store(newHdr, splitSegLength);
      var hdrFree := space.Load(hdr + FREE);
      var padding := space.Load(newHdr + FREE);
      FreeByteFits(padding, FreeByte(hdrFree));
      space.Store(newHdr + FREE, WithFreeByte(padding, FreeByte(hdrFree)));
      space.Store(hdr, splitLength);
    }

    /** `Split` of a free segment: what remains gets a header of its own if it is worth one. */
    method Split(hdr: nat, splitLength: U64, ghost k: nat) returns (newHdr: nat)
      requires Shaped() && k < |h.segs| && h.segs[k].addr == hdr && h.segs[k].free
      requires splitLength <= h.segs[k].len && splitLength % WORD == 0
      modifies `h, `LastHdr, space`view, space.ptm.phys
      ensures Shaped() && h == SplitAt(old(h), k, splitLength)
      ensures var s := old(h).segs[k];
        if splitLength >= 16 && s.len >= splitLength + 48 then
          && newHdr == hdr + splitLength + 32 && |h.segs| == |old(h).segs| + 1
          && h.segs[k] == S.Seg(hdr, splitLength, true)
          && h.segs[k + 1] == S.Seg(newHdr, s.len - splitLength - 32, true)
        else newHdr == 0 && h == old(h)
      ensures KeepsPayloads(old(space.view), space.view, old(h).segs)
    {
      hide Shaped, AddressSpace.Valid, Image, KeepsPayloads, SplitAt, AsInt64, Sub64, S.Splits;
      SplitAtIs(h, k, splitLength);
      NothingStored(space.view, h.segs);
      HeaderRead(hdr, k);
      if splitLength < 0x10 { return 0; }
      var length := space.Load(hdr);
      var splitSegLength := AsInt64(Sub64(Sub64(length, splitLength), HDR));
      SignedRest(length, splitLength);
      if splitSegLength < 0x10 { return 0; }
      SplitsHere(h.segs[k], splitLength, splitSegLength);
      newHdr := SplitOff(hdr, splitLength, splitSegLength, k);
    }

    /** What `Split` reads first. */
    lemma HeaderRead(hdr: nat, k: nat)
      requires Shaped() && k < |h.segs| && h.segs[k].addr == hdr
      ensures space.Valid() && hdr in space.view && space.view[hdr] == h.segs[k].len < ADDRESS_LIMIT
    {
      hide AddressSpace.Valid, Image, LastAddr;
      HeaderAt(space.view, h, k);
      space.ViewCovers();
    }

    /** The header of what remains. */
    method SplitOff(hdr: nat, splitLength: U64, splitSegLength: U64, ghost k: nat) returns (newHdr: nat)
      requires Shaped() && k < |h.segs| && h.segs[k].addr == hdr && h.segs[k].free
      requires splitLength >= 16 && splitLength % WORD == 0
      requires S.Splits(h.segs[k], splitLength) && splitLength + HDR + splitSegLength == h.segs[k].len
      modifies `h, `LastHdr, space`view, space.ptm.phys
      ensures Shaped() && h == SplitAt(old(h), k, splitLength) && newHdr == hdr + splitLength + 32
      ensures KeepsPayloads(old(space.view), space.view, old(h).segs)
    {
      hide AddressSpace.Valid, Image, KeepsPayloads, Covers, SplitView, SplitAt, LastAddr, FirstAddr;
      space.ViewCovers();
      newHdr := hdr + splitLength + HDR;
      HeaderAt(space.view, h, k);
      WordAligned(h, space.view, k);
      WordSum(hdr, splitLength);
      SplitImageAt(space.view, h, k, splitLength);
      SplitBounds(h, k, splitLength);
      SplitStores(hdr, newHdr, splitLength, splitSegLength, k);
      h := SplitAt(h, k, splitLength);
      if LastHdr == hdr { LastHdr := newHdr; }
    }

    /** `free` of a payload in use: the block melts into its free neighbours, no other block changes. */
    method Free(address: nat, ghost k: nat)
      requires Valid() && k < |h.segs| && !h.segs[k].free && address == h.segs[k].Payload()
      modifies `h, `LastHdr, space`view, space.ptm.phys
      ensures Valid() && h == S.FreeAt(old(h), k) == L.FreeBlock(old(h), address)
      ensures KeepsPayloads(old(space.view), space.view, h.segs)
    {
      hide AddressSpace.Valid, Image, KeepsPayloads, S.Heap.Valid, S.CombineAt, S.CombineBackAt;
      ghost var h0, v0 := h, space.view;
      var segment := address - HDR;
      S.SegmentsDistinct(h0, L.IndexOf(h0.segs, segment), k);
      SetFree(segment, true, k);
      ghost var h1, v1 := h, space.view;
      assert h1 == S.MarkFree(h0, k);
      FreeNeighbours(h0, k);
      CombineForward(segment, k);
      ghost var h2, v2 := h, space.view;
      CombineBackward(segment, k);
      S.FreeKeepsValid(h0, k);
      FreePayloads(h0, k, v0, v1, v2, space.view);
    }

    /** The `free` and `last` members of a new header. */
    method AppendMembers(newSegHdr: U64, ghost length: nat)
      requires space.Valid() && newSegHdr % WORD == 0 && LastHdr < TWO_64
      requires newSegHdr + LAST in space.view && newSegHdr + FREE in space.view
      modifies space`view, space.ptm.phys
      ensures space.Valid() && space.view == AppendFirst(old(space.view), LastHdr, S.Seg(newSegHdr, length, true))
    {
      hide AddressSpace.Valid, FreeByte, WithFreeByte;
      var padding := space.Load(newSegHdr + FREE);
      FreeByteFits(padding, true);
      space.Store(newSegHdr + FREE, WithFreeByte(padding, true));
      space.Store(newSegHdr + LAST, LastHdr);
    }

    /** The links to and from a new header, and its length. */
    method AppendLinks(newSegHdr: U64, length: U64)
      requires space.Valid() && newSegHdr % WORD == 0 && LastHdr % WORD == 0 && LastHdr + HDR <= newSegHdr
      requires LastHdr + NEXT in space.view && newSegHdr in space.view && newSegHdr + NEXT in space.view
      modifies `LastHdr, space`view, space.ptm.phys
      ensures space.Valid() && LastHdr == newSegHdr
      ensures space.view
           == old(space.view)[old(LastHdr) + NEXT := newSegHdr][newSegHdr + NEXT := 0][newSegHdr := length]
    {
      hide AddressSpace.Valid;
      space.Store(LastHdr + NEXT, newSegHdr);
      LastHdr := newSegHdr;
      space.Store(newSegHdr + NEXT, 0);
      space.Store(newSegHdr, length);
    }

    /** The header stores of `ExpandHeap`. */
    method AppendStores(newSegHdr: U64, length: U64, ghost bytes: nat)
      requires space.Valid() && bytes >= HDR && length == bytes - HDR
      requires h.start == space.base && newSegHdr == h.end && h.end + bytes == space.End()
      requires Placed(h) && LastHdr == LastAddr(h.segs, 0) && h.end % WORD == 0
      modifies `LastHdr, space`view, space.ptm.phys
      ensures space.Valid() && LastHdr == newSegHdr
      ensures space.view == AppendView(old(space.view), old(LastHdr), S.Seg(newSegHdr, length, true))
    {
      hide AddressSpace.Valid, Placed, FreeByte, WithFreeByte, Covers, LastAddr;
      space.ViewCovers();
      AppendReads(space.view, h, newSegHdr, space.End());
      AppendMembers(newSegHdr, length);
      AppendLinks(newSegHdr, length);
    }

    /** The pages and the header that `ExpandHeap` adds. */
    method AddPages(bytes: U64)
      requires Valid() && bytes >= PAGE && bytes % PAGE == 0 && heapEnd + bytes <= ADDRESS_LIMIT
      requires FreeCount(space.ptm.pfa.pool) >= FramesNeeded(space.ptm.at.Keys, heapEnd / PAGE, bytes / PAGE)
      modifies `h, `LastHdr, `heapEnd, space`view, space`pages, space.ptm.phys, space.ptm`at, space.ptm.pfa`freeMemory
      modifies space.ptm.pfa`usedMemory, space.ptm.pfa`pageBitmapIndex, space.ptm.pfa`pool,
          space.ptm.pfa.PageBitmap.Buffer
      ensures Shaped() && h == S.Appended(old(h), bytes)
      ensures KeepsPayloads(old(space.view), space.view, old(h).segs)
      ensures FreeCount(space.ptm.pfa.pool)
           == FreeCount(old(space.ptm.pfa.pool))
              - FramesNeeded(old(space.ptm.at.Keys), old(heapEnd) / PAGE, bytes / PAGE)
      ensures space.ptm.at.Keys == TablesAfter(old(space.ptm.at.Keys), old(heapEnd) / PAGE, bytes / PAGE)
    {
      hide AddressSpace.Valid, Image, Placed, Apart, Linked, KeepsPayloads, S.Heap.Valid, FreeCount, AppendView, Covers;
      ghost var v0 := space.view;
      space.ViewCovers();
      ImageParts(v0, h);
      var newSegHdr := heapEnd;
      heapEnd := space.MapHeapPages(heapEnd, bytes / 0x1000);
      space.ViewCovers();
      ghost var v1 := space.view;
      GrownView(v0, v1, h);
      PageIsWordAligned(newSegHdr);
      AppendStores(newSegHdr, bytes - HDR, bytes);
      AppendedImage(v1, h, bytes, heapEnd);
      PayloadsChain(v0, v1, space.view, h.segs);
      AppendedNeighbours(h, bytes);
      h := S.Appended(h, bytes);
    }

    /** `ExpandHeap`: whole new pages at the end of the heap, as one free segment. */
    method ExpandHeap(length: U64)
      requires Valid() && length > 0 && heapEnd + S.PageRound(length) <= ADDRESS_LIMIT
      requires FreeCount(space.ptm.pfa.pool)
            >= FramesNeeded(space.ptm.at.Keys, heapEnd / PAGE, S.PageRound(length) / PAGE)
      modifies `h, `LastHdr, `heapEnd, space`view, space`pages, space.ptm.phys, space.ptm`at, space.ptm.pfa`freeMemory
      modifies space.ptm.pfa`usedMemory, space.ptm.pfa`pageBitmapIndex, space.ptm.pfa`pool,
          space.ptm.pfa.PageBitmap.Buffer
      ensures Valid() && h == S.Expand(old(h), length) && h.end == heapEnd && heapEnd % 4096 == 0
      ensures old(heapEnd) + length <= heapEnd < old(heapEnd) + length + 4096
      ensures h.segs != [] && h.segs[|h.segs| - 1].free
      ensures KeepsPayloads(old(space.view), space.view, old(h).segs)
      ensures FreeCount(space.ptm.pfa.pool)
           == FreeCount(old(space.ptm.pfa.pool))
              - FramesNeeded(old(space.ptm.at.Keys), old(heapEnd) / PAGE, S.PageRound(length) / PAGE)
      ensures space.ptm.at.Keys == TablesAfter(old(space.ptm.at.Keys), old(heapEnd) / PAGE, S.PageRound(length) / PAGE)
    {
      hide AddressSpace.Valid, Image, KeepsPayloads, S.Heap.Valid, FreeCount, S.CombineBackAt;
      var rounded: U64 := length;
      if rounded % 0x1000 > 0 {
        rounded := rounded - rounded % 0x1000;
        rounded := Add64(rounded, 0x1000);
      }
      PageRoundParts(length);
      assert rounded == S.PageRound(length);
      ghost var h0, v0 := h, space.view;
      var newSegHdr := heapEnd;
      AppendedNeighbours(h0, rounded);
      AddPages(rounded);
      ghost var v1 := space.view;
      CombineBackward(newSegHdr, |h0.segs|);
      S.ExpandKeepsValid(h0, length);
      S.ExpandEndsFree(h0, length);
      S.PageRoundCovers(length);
      space.ViewCovers();
      FewerPayloads(v1, space.view, S.Appended(h0, rounded).segs, h0.segs);
      PayloadsChain(v0, v1, space.view, h0.segs);
    }

    /** The branches of `malloc` for a segment that fits. */
    method TakeSegment(currentSeg: nat, length: nat, size: U64, ghost k: nat)
      requires Valid() && k < |h.segs| && h.segs[k].addr == currentSeg && length == h.segs[k].len
      requires S.Fits(h.segs[k], size) && size > 0 && size % 16 == 0
      modifies `h, `LastHdr, space`view, space.ptm.phys
      ensures Valid() && h == S.TakeAt(old(h), k, size)
      ensures KeepsPayloads(old(space.view), space.view, old(h).segs)
    {
      hide AddressSpace.Valid, Image, KeepsPayloads, S.Heap.Valid;
      ghost var h0, v0 := h, space.view;
      S.TakeKeepsValid(h0, k, size);
      TakenIs(h0, k, size);
      NothingStored(v0, h0.segs);
      if length > size {
        var newHdr := Split(currentSeg, size, k);
      }
      ghost var v1 := space.view;
      assert h == SplitAt(h0, k, size);
      SetFree(currentSeg, false, k);
      FewerPayloads(v1, space.view, SplitAt(h0, k, size).segs, h0.segs);
      PayloadsChain(v0, v1, space.view, h0.segs);
    }

    /** The scan's visit of one segment: takes it if it fits. */
    method Visit(currentSeg: nat, size: U64, ghost k: nat) returns (taken: bool)
      requires Valid() && k < |h.segs| && h.segs[k].addr == currentSeg && size > 0 && size % 16 == 0
      modifies `h, `LastHdr, space`view, space.ptm.phys
      ensures Valid() && taken == S.Fits(old(h).segs[k], size)
      ensures taken ==> h == S.TakeAt(old(h), k, size) && KeepsPayloads(old(space.view), space.view, old(h).segs)
      ensures !taken ==> h == old(h) && space.view == old(space.view)
    {
      hide AddressSpace.Valid, Image, KeepsPayloads, S.Heap.Valid, S.TakeAt, FreeByte;
      HeaderAt(space.view, h, k);
      var freeWord := space.Load(currentSeg + FREE);
      if FreeByte(freeWord) {
        var length := space.Load(currentSeg);
        if length >= size {
          TakeSegment(currentSeg, length, size, k);
          return true;
        }
      }
      return false;
    }

    /** The scan of `malloc`: takes the first segment that fits; NULL when none does. */
    method Scan(size: U64) returns (p: nat)
      requires Valid() && size > 0 && size % 16 == 0
      modifies `h, `LastHdr, space`view, space.ptm.phys
      ensures Valid()
      ensures var k := S.FirstFit(old(h).segs, size);
        if k < |old(h).segs| then
          && p == old(h).segs[k].Payload() && h == S.TakeAt(old(h), k, size)
          && KeepsPayloads(old(space.view), space.view, old(h).segs)
        else p == 0 && h == old(h) && space.view == old(space.view)
    {
      hide AddressSpace.Valid, Image, KeepsPayloads, S.Heap.Valid, S.FirstFit, S.TakeAt, S.Fits, FreeByte;
      ImageFirst(space.view, h);
      var currentSeg := heapStart;
      ghost var k := 0;
      while true
        invariant Valid() && h == old(h) && space.view == old(space.view)
        invariant k < |h.segs| && h.segs[k].addr == currentSeg
        invariant forall j | 0 <= j < k :: !S.Fits(h.segs[j], size)
        decreases |h.segs| - k
      {
        var taken := Visit(currentSeg, size, k);
        if taken {
          FirstFitAt(old(h).segs, size, k);
          return currentSeg + HDR;
        }
        HeaderAt(space.view, h, k);
        var next := space.Load(currentSeg + NEXT);
        if next == 0 { break; }
        currentSeg := next;
        k := k + 1;
      }
      FirstFitAt(h.segs, size, |h.segs|);
      return 0;
    }

    /**
     `malloc`: NULL when the rounded size is zero; otherwise the lowest-addressed fit, after at most
     two expansions, with every block in use left as it was.
     */
    method Malloc(size: U64) returns (p: nat)
      requires Valid()
      requires S.RoundSize(size) > 0 ==>
        CanServe(h, space.ptm.at.Keys, FreeCount(space.ptm.pfa.pool), S.RoundSize(size))
      modifies `h, `LastHdr, `heapEnd, space`view, space`pages, space.ptm.phys, space.ptm`at, space.ptm.pfa`freeMemory
      modifies space.ptm.pfa`usedMemory, space.ptm.pfa`pageBitmapIndex, space.ptm.pfa`pool,
          space.ptm.pfa.PageBitmap.Buffer
      ensures Valid()
      ensures p == 0 <==> size == 0 || size > 0xFFFF_FFFF_FFFF_FFF0
      ensures p == 0 ==> h == old(h) && space.view == old(space.view)
      ensures p != 0 ==> p % 16 == 0 && exists k ::
        0 <= k < |h.segs| && h.segs[k].addr + 32 == p && !h.segs[k].free && size <= h.segs[k].len < size + 48
      ensures S.RoundSize(size) == 0 ==> p == 0 && h == old(h) && space.view == old(space.view)
      ensures S.RoundSize(size) > 0 ==>
        && old(h).Valid() && S.RoundSize(size) % 16 == 0 && (h, p) == S.Alloc(old(h), S.RoundSize(size))
        && KeepsPayloads(old(space.view), space.view, old(h).segs)
      decreases if S.RoundSize(size) > 0 then S.Expansions(h, S.RoundSize(size)) else 0
    {
      hide AddressSpace.Valid, Image, KeepsPayloads, S.Heap.Valid, FreeCount, S.TakeAt, S.Expand, S.Expansions;
      hide S.FirstFit, CanServe;
      L.RoundSizeCovers(size);
      if S.RoundSize(size) > 0 { ghost var k := L.AllocBlock(h, size); }
      var rounded: U64 := size;
      if size % 0x10 > 0 {
        rounded := rounded - rounded % 0x10;
        rounded := Add64(rounded, 0x10);
      }
      if rounded == 0 { return 0; }
      ghost var h0, v0 := h, space.view;
      p := Scan(rounded);
      if p != 0 { return; }
      space.ViewCovers();
      GrowthServes(h0, space.ptm.at.Keys, FreeCount(space.ptm.pfa.pool), rounded);
      ExpandHeap(rounded);
      ghost var v1 := space.view;
      p := Malloc(rounded);
      FewerPayloads(v1, space.view, S.Expand(h0, rounded).segs, h0.segs);
      PayloadsChain(v0, v1, space.view, h0.segs);
    }

    /** `InitializeHeap`: the first pages, as one free segment. */
    method InitializeHeap(heapAddress: U64, pageCount: U64)
      requires space.Valid() && space.base == heapAddress && space.pages == [] && pageCount > 0
      requires heapAddress + PAGE * pageCount <= ADDRESS_LIMIT
      requires FreeCount(space.ptm.pfa.pool) >= FramesNeeded(space.ptm.at.Keys, heapAddress / PAGE, pageCount)
      modifies this, space`view, space`pages, space.ptm.phys, space.ptm`at, space.ptm.pfa`freeMemory
      modifies space.ptm.pfa`usedMemory, space.ptm.pfa`pageBitmapIndex, space.ptm.pfa`pool,
          space.ptm.pfa.PageBitmap.Buffer
      ensures Valid()
      ensures h == S.Heap(heapAddress, heapAddress + 4096 * pageCount,
                          [S.Seg(heapAddress, 4096 * pageCount - 32, true)])
      ensures TakesMore(old(space.ptm.pfa.pool), space.ptm.pfa.pool)
    {
      hide AddressSpace.Valid, FreeCount, Covers, Image, S.Heap.Valid, InitView, TakesMore;
      var heapLength := pageCount * 0x1000;
      heapStart := heapAddress;
      heapEnd := space.MapHeapPages(heapAddress, pageCount);
      ghost var v := space.view;
      ghost var t := S.Seg(heapAddress, heapLength - HDR, true);
      space.ViewCovers();
      PageIsWordAligned(heapAddress);
      InitReads(v, heapAddress, heapEnd);
      InitStores(heapAddress, heapLength - HDR);
      LastHdr := heapAddress;
      h := S.Heap(heapAddress, heapEnd, [t]);
      InitialImage(v, space.view, h, t);
    }

    /** The header stores of `InitializeHeap`. */
    method InitStores(startSeg: U64, length: U64)
      requires space.Valid() && startSeg % WORD == 0
      requires startSeg in space.view && startSeg + NEXT in space.view && startSeg + LAST in space.view
        && startSeg + FREE in space.view
      modifies space`view, space.ptm.phys
      ensures space.Valid() && space.view == InitView(old(space.view), S.Seg(startSeg, length, true))
    {
      hide AddressSpace.Valid, FreeByte, WithFreeByte;
      space.Store(startSeg, length);
      space.Store(startSeg + NEXT, 0);
      space.Store(startSeg + LAST, 0);
      var padding := space.Load(startSeg + FREE);
      FreeByteFits(padding, true);
      space.Store(startSeg + FREE, WithFreeByte(padding, true));
    }

    /** A program's own store into a block it was given. */
    method StorePayload(a: nat, w: U64, ghost k: nat)
      requires Valid() && k < |h.segs| && !h.segs[k].free && h.segs[k].Payload() <= a < h.segs[k].End() && a % WORD == 0
      modifies space`view, space.ptm.phys
      ensures Valid() && a in old(space.view) && space.view == old(space.view)[a := w]
    {
      hide AddressSpace.Valid, Image, Covers, S.Heap.Valid;
      ghost var v := space.view;
      space.ViewCovers();
      PayloadStored(v, h, k, a, w);
      space.Store(a, w);
    }
  }

  lemma InitReads(view: View, start: nat, end: nat)
    requires Covers(view, start, end) && start % WORD == 0 && start + HDR <= end
    ensures start in view && start + NEXT in view && start + LAST in view && start + FREE in view
  {
    hide Covers;
    CoversAt(view, start, end, start);
    CoversAt(view, start, end, start + NEXT);
    CoversAt(view, start, end, start + LAST);
    CoversAt(view, start, end, start + FREE);
  }

  lemma InitialImage(view: View, view': View, h: S.Heap, t: S.Seg)
    requires Covers(view, h.start, h.end) && view' == InitView(view, t) && h.segs == [t] && t.free
    requires t.addr == h.start > 0 && t.End() == h.end && h.start % PAGE == 0 && h.end % PAGE == 0
      && t.len >= PAGE - HDR
    ensures Image(view', h) && h.Valid() && LastAddr(h.segs, 0) == t.addr
  {
    hide Linked, WithFreeByte, FreeByte;
    InitImage(view, t);
    PageIsWordAligned(h.start);
    InitReads(view, h.start, h.end);
    SingleValid(h, t);
  }

  lemma SingleValid(h: S.Heap, t: S.Seg)
    requires h.segs == [t] && t.free && t.addr == h.start && t.End() == h.end && h.start % PAGE == 0
      && h.end % PAGE == 0
    requires t.len >= PAGE - HDR
    ensures h.Valid()
  {
    PageMultiples(h.start, h.end);
    assert t.len == h.end - h.start - HDR;
    assert h.segs[1..] == [];
  }

  lemma PageMultiples(a: nat, b: nat)
    requires a % PAGE == 0 && b % PAGE == 0
    ensures a % 16 == 0 && (b - a - HDR) % 16 == 0
  {
    var i, j := a / PAGE, b / PAGE;
    assert a == 16 * (256 * i) && b - a - HDR == 16 * (256 * (j - i) - 2);
  }

  lemma PayloadStored(view: View, h: S.Heap, k: nat, a: nat, w: nat)
    requires Image(view, h) && k < |h.segs| && !h.segs[k].free
    requires h.segs[k].Payload() <= a < h.segs[k].End() && a % WORD == 0
    ensures a in view && Image(view[a := w], h)
  {
    hide Linked, HeaderOf;
    forall i | 0 <= i < |h.segs| ensures HeaderOf(view[a := w], h.segs[i].addr) == HeaderOf(view, h.segs[i].addr) {
      if i < k { assert h.segs[i].End() <= h.segs[k].addr; }
      if k < i { assert h.segs[k].End() <= h.segs[i].addr; }
      OutsideHeader(view, a, w, h.segs[i].addr);
    }
    LinkedFrame(view, view[a := w], h.segs, 0, 0);
  }

  lemma OutsideHeader(view: View, a: nat, w: nat, b: nat)
    requires a < b || b + HDR <= a
    ensures HeaderOf(view[a := w], b) == HeaderOf(view, b)
  {
  }

  /** What `CombineForward` reads, before and after the first of its stores. */
  lemma CombineReads(view: View, h: S.Heap, k: nat)
    requires Image(view, h) && k + 1 < |h.segs|
    ensures var (a, b, nn) := (h.segs[k].addr, h.segs[k + 1].addr, FirstAddr(h.segs[k + 2..], 0));
      var v := LastLinked(view, nn, a);
      && a in view && b in view && b + NEXT in view && a % WORD == 0 && nn % WORD == 0
        && (nn != 0 ==> nn + LAST in view)
      && view[b + NEXT] == nn && a in v && a + NEXT in v && v[a] == h.segs[k].len && b in v && v[b] == h.segs[k + 1].len
      && b + NEXT in v && v[b + NEXT] == nn && a + HDR <= b
      && h.segs[k].len + h.segs[k + 1].len + HDR <= h.end && a <= h.end
  {
    hide Image;
    HeaderAt(view, h, k);
    HeaderAt(view, h, k + 1);
    if k + 2 < |h.segs| { HeaderAt(view, h, k + 2); }
    WordAligned(h, view, k);
    if k + 2 < |h.segs| { WordAligned(h, view, k + 2); }
  }

  /** What `Split` reads and where it writes. */
  lemma SplitReads(view: View, h: S.Heap, k: nat, newHdr: nat)
    requires Image(view, h) && k < |h.segs| && h.segs[k].free && h.start >= PAGE
    requires h.segs[k].addr + HDR <= newHdr && newHdr + HDR <= h.segs[k].End() && newHdr % WORD == 0
    ensures var (a, nn) := (h.segs[k].addr, FirstAddr(h.segs[k + 1..], 0));
      && a % WORD == 0 && nn % WORD == 0 && (if nn != 0 then nn + LAST in view else LAST !in view)
      && a in view && a + NEXT in view && view[a + NEXT] == nn && a + FREE in view && FreeByte(view[a + FREE])
      && (nn != 0 ==> nn >= h.segs[k].End())
      && newHdr in view && newHdr + NEXT in view && newHdr + LAST in view && newHdr + FREE in view
  {
    hide Image, Covers, FreeByte;
    HeaderAt(view, h, k);
    WordAligned(h, view, k);
    if k + 1 < |h.segs| {
      HeaderAt(view, h, k + 1);
      WordAligned(h, view, k + 1);
    }
    CoversWord(view, h, LAST);
    CoversWord(view, h, h.segs[k].addr);
    CoversWord(view, h, newHdr);
    CoversWord(view, h, newHdr + NEXT);
    CoversWord(view, h, newHdr + LAST);
    CoversWord(view, h, newHdr + FREE);
  }

  lemma CoversWord(view: View, h: S.Heap, a: nat)
    requires Image(view, h)
    ensures a in view <==> h.start <= a < h.end && a % WORD == 0
  {
  }

  /** The links of `Split` leave the words it uses next. */
  lemma LinksRead(view: View, h: S.Heap, k: nat, newHdr: nat)
    requires Image(view, h) && k < |h.segs| && h.segs[k].free && h.start >= PAGE
    requires h.segs[k].addr + HDR <= newHdr && newHdr + HDR <= h.segs[k].End() && newHdr % WORD == 0
    ensures var a := h.segs[k].addr;
      var v := LinksView(view, a, newHdr, FirstAddr(h.segs[k + 1..], 0));
      a in v && a + FREE in v && FreeByte(v[a + FREE]) && newHdr in v && newHdr + FREE in v
  {
    hide Image, Covers, FreeByte;
    SplitReads(view, h, k, newHdr);
  }

  lemma WordSum(a: nat, b: nat)
    requires a % WORD == 0 && b % WORD == 0
    ensures (a + b + HDR) % WORD == 0
  {
  }

  /** The 64-bit difference in `Split`, read as signed, is the true difference. */
  lemma SignedRest(length: U64, splitLength: U64)
    requires splitLength <= length < ADDRESS_LIMIT
    ensures AsInt64(Sub64(Sub64(length, splitLength), HDR)) == length - splitLength - HDR
  {
    if length - splitLength < HDR {
      assert Sub64(length - splitLength, HDR) == length - splitLength - HDR + TWO_64;
    }
  }

  ghost function SplitAt(h: S.Heap, k: nat, size: nat): S.Heap
    requires k < |h.segs|
  {
    var s := h.segs[k];
    if size >= 0x10 && S.Splits(s, size) then
      var (front, rest) := (S.Seg(s.addr, size, s.free), S.Seg(s.addr + HDR + size, s.len - size - HDR, s.free));
      h.(segs := h.segs[..k] + [front, rest] + h.segs[k + 1..])
    else h
  }

  lemma SplitAtIs(h: S.Heap, k: nat, size: nat)
    requires k < |h.segs| && h.segs[k].free
    ensures var s := h.segs[k];
      if size >= 16 && s.len >= size + 48 then
        && |SplitAt(h, k, size).segs| == |h.segs| + 1
        && SplitAt(h, k, size).segs[k] == S.Seg(s.addr, size, true)
        && SplitAt(h, k, size).segs[k + 1] == S.Seg(s.addr + size + 32, s.len - size - 32, true)
      else SplitAt(h, k, size) == h
  {
  }

  lemma SplitsHere(s: S.Seg, size: nat, rest: nat)
    requires size + HDR + rest == s.len
    ensures S.Splits(s, size) <==> rest >= 16
  {
  }

  lemma SplitImageAt(view: View, h: S.Heap, k: nat, size: nat)
    requires Image(view, h) && k < |h.segs| && h.segs[k].free && h.start >= PAGE
    requires size >= 0x10 && S.Splits(h.segs[k], size) && size % WORD == 0
    ensures var s := h.segs[k];
      var t := S.Seg(s.addr + HDR + size, s.len - size - HDR, true);
      var view' := SplitView(view, S.Seg(s.addr, size, true), t, FirstAddr(h.segs[k + 1..], 0));
      && Image(view', SplitAt(h, k, size)) && KeepsPayloads(view, view', h.segs)
      && SplitAt(h, k, size).segs[0].addr == h.segs[0].addr
      && LastAddr(SplitAt(h, k, size).segs, 0) == if LastAddr(h.segs, 0) == s.addr then t.addr else LastAddr(h.segs, 0)
  {
    hide Linked, KeepsPayloads, Placed, Apart, SplitView;
    var s := h.segs[k];
    var t := S.Seg(s.addr + HDR + size, s.len - size - HDR, true);
    PlacedApart(h);
    SplitImage(view, h.segs, k, S.Seg(s.addr, size, true), t);
    SplitPlaced(h, k, size);
    WordAligned(h, view, k);
    SplitKeeps(view, h, k, S.Seg(s.addr, size, true), t, FirstAddr(h.segs[k + 1..], 0));
    if k + 1 < |h.segs| { HeadersDisjoint(h.segs, k, |h.segs| - 1); }
  }

  lemma SplitSeg(h: S.Heap, k: nat, size: nat, i: nat)
    requires k < |h.segs| && size >= 0x10 && S.Splits(h.segs[k], size) && i <= |h.segs|
    ensures |SplitAt(h, k, size).segs| == |h.segs| + 1
    ensures var s := SplitAt(h, k, size).segs[i];
      && (i < k ==> s == h.segs[i]) && (i > k + 1 ==> s == h.segs[i - 1])
      && (i == k ==> s.addr == h.segs[k].addr && s.End() <= h.segs[k].End() - HDR && s.End() == s.addr + HDR + size)
      && (i == k + 1 ==> s.addr == h.segs[k].addr + HDR + size && s.End() == h.segs[k].End())
  {
  }

  lemma SplitPlaced(h: S.Heap, k: nat, size: nat)
    requires Placed(h) && k < |h.segs| && size >= 0x10 && S.Splits(h.segs[k], size) && size % WORD == 0
    ensures Placed(SplitAt(h, k, size))
  {
    var h' := SplitAt(h, k, size);
    SplitSeg(h, k, size, 0);
    SplitBounds(h, k, size);
    hide SplitAt;
    forall i | 0 <= i < |h'.segs|
      ensures h'.segs[i].addr > 0 && h'.start <= h'.segs[i].addr && h'.segs[i].End() <= h'.end
        && h'.segs[i].addr % WORD == 0
    {
      SplitInside(h, k, size, i);
    }
    forall i, j | 0 <= i < j < |h'.segs| ensures h'.segs[i].End() <= h'.segs[j].addr {
      SplitApart(h, k, size, i, j);
    }
  }

  lemma SplitInside(h: S.Heap, k: nat, size: nat, i: nat)
    requires Placed(h) && k < |h.segs| && size >= 0x10 && S.Splits(h.segs[k], size) && size % WORD == 0 && i <= |h.segs|
    ensures |SplitAt(h, k, size).segs| == |h.segs| + 1
    ensures var s := SplitAt(h, k, size).segs[i];
      s.addr > 0 && h.start <= s.addr && s.End() <= h.end && s.addr % WORD == 0
  {
    hide SplitAt;
    SplitSeg(h, k, size, i);
  }

  lemma SplitApart(h: S.Heap, k: nat, size: nat, i: nat, j: nat)
    requires Apart(h.segs) && k < |h.segs| && size >= 0x10 && S.Splits(h.segs[k], size) && i < j <= |h.segs|
    ensures |SplitAt(h, k, size).segs| == |h.segs| + 1
    ensures SplitAt(h, k, size).segs[i].End() <= SplitAt(h, k, size).segs[j].addr
  {
    hide SplitAt;
    SplitSeg(h, k, size, i);
    SplitSeg(h, k, size, j);
    var (x, y) := (if i <= k then i else i - 1, if j <= k then j else j - 1);
    if x < y { assert h.segs[x].End() <= h.segs[y].addr; }
  }

  lemma SplitBounds(h: S.Heap, k: nat, size: nat)
    requires k < |h.segs|
    ensures SplitAt(h, k, size).start == h.start && SplitAt(h, k, size).end == h.end
  {
  }

  lemma SplitKeeps(view: View, h: S.Heap, k: nat, s: S.Seg, t: S.Seg, nn: nat)
    requires Image(view, h) && k < |h.segs| && h.segs[k].free && h.start >= PAGE
    requires s.addr == h.segs[k].addr && t.free && nn == FirstAddr(h.segs[k + 1..], 0)
    requires h.segs[k].addr + HDR <= t.addr && t.addr + HDR <= h.segs[k].End() && t.addr % WORD == 0
    ensures KeepsPayloads(view, SplitView(view, s, t, nn), h.segs)
    ensures forall x: nat :: x in SplitView(view, s, t, nn) <==> x in view
  {
    hide KeepsPayloads, Apart, Image, WithFreeByte, FreeByte, LastLinked, Word, FirstAddr, LinksView, SplitView;
    SplitReads(view, h, k, t.addr);
    ImageApart(view, h);
    LinksKeep(view, h, k, t.addr, nn);
    var v := LinksView(view, s.addr, t.addr, nn);
    RestKeeps(v, h, k, t.addr, s.len, t.len);
    RestIs(view, s, t, nn);
    PayloadsChain(view, v, SplitView(view, s, t, nn), h.segs);
  }

  /** The stores of `Split` after its links. */
  function RestView(v: View, a: nat, t: nat, size: nat, rest: nat): View
  {
    var u := v[t := rest];
    u[t + FREE := WithFreeByte(Word(u, t + FREE), true)][a := size]
  }

  lemma RestIs(view: View, s: S.Seg, t: S.Seg, nn: nat)
    requires t.free
    ensures SplitView(view, s, t, nn) == RestView(LinksView(view, s.addr, t.addr, nn), s.addr, t.addr, s.len, t.len)
  {
    hide LinksView;
  }

  /** The links of `Split` change no payload in use. */
  lemma LinksKeep(view: View, h: S.Heap, k: nat, t: nat, nn: nat)
    requires Apart(h.segs) && k < |h.segs| && h.segs[k].free && nn == FirstAddr(h.segs[k + 1..], 0)
    requires h.segs[k].addr + HDR <= t && t + HDR <= h.segs[k].End()
    requires h.segs[k].addr + NEXT in view && t + NEXT in view && t + LAST in view && (nn != 0 ==> nn + LAST in view)
    ensures var v := LinksView(view, h.segs[k].addr, t, nn);
      KeepsPayloads(view, v, h.segs) && forall x: nat :: x in v <==> x in view
  {
    hide KeepsPayloads, Apart;
    var a := h.segs[k].addr;
    var v0 := LastLinked(view, nn, t);
    if nn != 0 { HeaderStore(h, view, k + 1, nn + LAST, t); } else { NothingStored(view, h.segs); }
    var v1 := v0[t + NEXT := nn];
    HeaderStore(h, v0, k, t + NEXT, nn);
    PayloadsChain(view, v0, v1, h.segs);
    var v2 := v1[a + NEXT := t];
    HeaderStore(h, v1, k, a + NEXT, t);
    PayloadsChain(view, v1, v2, h.segs);
    HeaderStore(h, v2, k, t + LAST, a);
    PayloadsChain(view, v2, v2[t + LAST := a], h.segs);
  }

  /** Neither do its other stores. */
  lemma RestKeeps(v: View, h: S.Heap, k: nat, t: nat, size: nat, rest: nat)
    requires Apart(h.segs) && k < |h.segs| && h.segs[k].free
    requires h.segs[k].addr + HDR <= t && t + HDR <= h.segs[k].End()
    requires h.segs[k].addr in v && t in v && t + FREE in v
    ensures var v' := RestView(v, h.segs[k].addr, t, size, rest);
      KeepsPayloads(v, v', h.segs) && forall x: nat :: x in v' <==> x in v
  {
    hide KeepsPayloads, Apart, WithFreeByte, Word;
    var u := v[t := rest];
    HeaderStore(h, v, k, t, rest);
    var w := WithFreeByte(Word(u, t + FREE), true);
    var u2 := u[t + FREE := w];
    HeaderStore(h, u, k, t + FREE, w);
    PayloadsChain(v, u, u2, h.segs);
    HeaderStore(h, u2, k, h.segs[k].addr, size);
    PayloadsChain(v, u2, u2[h.segs[k].addr := size], h.segs);
  }

  lemma ImageApart(view: View, h: S.Heap)
    requires Image(view, h)
    ensures Apart(h.segs)
  {
  }

  lemma PageRoundParts(length: U64)
    ensures S.PageRound(length) % PAGE == 0 && S.PageRound(length) >= length
    ensures length > 0 ==> S.PageRound(length) >= PAGE
    ensures PAGE * (S.PageRound(length) / PAGE) == S.PageRound(length)
    ensures length % PAGE > 0 && S.PageRound(length) < TWO_64 ==>
      Add64(length - length % PAGE, PAGE) == S.PageRound(length)
  {
  }

  lemma ImageParts(view: View, h: S.Heap)
    requires Image(view, h)
    ensures Covers(view, h.start, h.end) && Placed(h) && Linked(view, h.segs, 0, 0) && Apart(h.segs)
  {
  }

  /** More pages do not disturb the list that is there. */
  lemma GrownView(v: View, v': View, h: S.Heap)
    requires Image(v, h) && forall a | a in v :: a in v' && v'[a] == v[a]
    ensures Linked(v', h.segs, 0, 0) && KeepsPayloads(v, v', h.segs)
  {
    hide Image, Linked;
    ImageParts(v, h);
    forall i | 0 <= i < |h.segs| ensures HeaderOf(v', h.segs[i].addr) == HeaderOf(v, h.segs[i].addr) {
      HeaderAt(v, h, i);
    }
    LinkedFrame(v, v', h.segs, 0, 0);
  }

  /** Where `ExpandHeap` writes. */
  lemma AppendReads(view: View, h: S.Heap, newSegHdr: nat, end: nat)
    requires Placed(h) && Covers(view, h.start, end) && newSegHdr == h.end && newSegHdr % WORD == 0
      && newSegHdr + HDR <= end
    ensures newSegHdr in view && newSegHdr + NEXT in view && newSegHdr + LAST in view && newSegHdr + FREE in view
    ensures LastAddr(h.segs, 0) + NEXT in view && LastAddr(h.segs, 0) + HDR <= newSegHdr
      && LastAddr(h.segs, 0) % WORD == 0
  {
    hide Apart, Covers;
    var s := h.segs[|h.segs| - 1];
    assert h.start <= s.addr && s.End() <= h.end && s.addr % WORD == 0;
    CoversAt(view, h.start, end, newSegHdr);
    CoversAt(view, h.start, end, newSegHdr + NEXT);
    CoversAt(view, h.start, end, newSegHdr + LAST);
    CoversAt(view, h.start, end, newSegHdr + FREE);
    CoversAt(view, h.start, end, s.addr + NEXT);
  }

  lemma CoversAt(view: View, start: nat, end: nat, a: nat)
    requires Covers(view, start, end)
    ensures a in view <==> start <= a < end && a % WORD == 0
  {
  }

  lemma PageIsWordAligned(a: nat)
    requires a % PAGE == 0
    ensures a % WORD == 0
  {
  }

  lemma AppendedImage(view: View, h: S.Heap, bytes: nat, end: nat)
    requires Placed(h) && Linked(view, h.segs, 0, 0) && Covers(view, h.start, end)
    requires end == h.end + bytes && bytes >= PAGE && h.end % PAGE == 0
    requires h.segs[|h.segs| - 1].End() <= h.end
    ensures var view' := AppendView(view, LastAddr(h.segs, 0), S.Seg(h.end, bytes - HDR, true));
      Image(view', S.Appended(h, bytes)) && KeepsPayloads(view, view', h.segs)
  {
    hide Linked, KeepsPayloads, AppendView, Apart;
    PlacedApart(h);
    PageIsWordAligned(h.end);
    AppendImage(view, h.segs, S.Seg(h.end, bytes - HDR, true));
    AppendedPlaced(h, bytes);
    AppendKeeps(view, h, bytes, end);
  }

  lemma AppendedPlaced(h: S.Heap, bytes: nat)
    requires Placed(h) && bytes >= PAGE && h.end % PAGE == 0
    ensures Placed(S.Appended(h, bytes))
  {
    var t := S.Seg(h.end, bytes - HDR, true);
    var segs' := h.segs + [t];
    assert h.start <= h.segs[0].addr && h.segs[0].End() <= h.end;
    AppendedApart(h, t);
    PageIsWordAligned(h.end);
    hide Apart;
    forall i | 0 <= i < |segs'|
      ensures h.start <= segs'[i].addr && segs'[i].End() <= h.end + bytes && segs'[i].addr % WORD == 0
    {
      if i < |h.segs| { assert segs'[i] == h.segs[i]; }
    }
  }

  lemma AppendedApart(h: S.Heap, t: S.Seg)
    requires Placed(h) && t.addr == h.end
    ensures Apart(h.segs + [t])
  {
    var segs' := h.segs + [t];
    assert h.segs[0].End() <= h.end;
    forall i, j | 0 <= i < j < |segs'| ensures segs'[i].End() <= segs'[j].addr {
      if j < |h.segs| { assert h.segs[i].End() <= h.segs[j].addr; }
    }
  }

  lemma AppendKeeps(view: View, h: S.Heap, bytes: nat, end: nat)
    requires Placed(h) && Covers(view, h.start, end)
    requires end == h.end + bytes && bytes >= HDR && h.end % WORD == 0
    ensures var view' := AppendView(view, LastAddr(h.segs, 0), S.Seg(h.end, bytes - HDR, true));
      KeepsPayloads(view, view', h.segs) && forall x: nat :: x in view' <==> x in view
  {
    AppendReads(view, h, h.end, end);
    var a, t := LastAddr(h.segs, 0), S.Seg(h.end, bytes - HDR, true);
    hide Covers, AppendView;
    AppendDomain(view, a, t);
    forall s, x | s in h.segs && !s.free && s.Payload() <= x < s.End() && x in view
      ensures AppendView(view, a, t)[x] == view[x]
    {
      var i :| 0 <= i < |h.segs| && h.segs[i] == s;
      if i < |h.segs| - 1 { assert h.segs[i].End() <= h.segs[|h.segs| - 1].addr; }
      AppendElse(view, a, t, x);
    }
  }

  lemma AppendDomain(view: View, a: nat, t: S.Seg)
    requires a + NEXT in view && t.addr in view && t.addr + NEXT in view && t.addr + LAST in view
      && t.addr + FREE in view
    ensures forall x: nat :: x in AppendView(view, a, t) <==> x in view
  {
    hide WithFreeByte;
  }

  /** The stores of `ExpandHeap` are to the new header and to the `next` member of the last one. */
  lemma AppendElse(view: View, a: nat, t: S.Seg, x: nat)
    requires x in view && x != a + NEXT && (x < t.addr || t.addr + HDR <= x)
    ensures x in AppendView(view, a, t) && AppendView(view, a, t)[x] == view[x]
  {
    hide WithFreeByte;
  }

  lemma AppendedNeighbours(h: S.Heap, bytes: nat)
    requires h.Valid() && bytes >= HDR
    ensures var h' := S.Appended(h, bytes);
      && h'.segs[|h.segs| - 1].End() == h'.segs[|h.segs|].addr && h'.segs[0].addr == h.segs[0].addr
      && LastAddr(h'.segs, 0) == h.end
    ensures forall s | s in h.segs :: s in S.Appended(h, bytes).segs
  {
  }

  /** There are frames and addresses enough for the expansions of `malloc` of `size` rounded bytes. */
  ghost predicate CanServe(h: S.Heap, tables: set<Place>, freeFrames: nat, size: nat)
    requires |h.segs| > 0
  {
    var pages := S.Expansions(h, size) * (S.PageRound(size) / PAGE);
    h.end + PAGE * pages <= ADDRESS_LIMIT && freeFrames >= FramesNeeded(tables, h.end / PAGE, pages)
  }

  lemma TakenIs(h: S.Heap, k: nat, size: nat)
    requires k < |h.segs| && S.Fits(h.segs[k], size) && size >= 0x10
    ensures k < |SplitAt(h, k, size).segs| && SplitAt(h, k, size).segs[k].addr == h.segs[k].addr
    ensures FreeSet(SplitAt(h, k, size), k, false) == S.TakeAt(h, k, size)
    ensures h.segs[k].len == size ==> SplitAt(h, k, size) == h
    ensures forall s | s in h.segs && !s.free :: s in SplitAt(h, k, size).segs
  {
    var s := h.segs[k];
    if S.Splits(s, size) {
      var a, b := S.Seg(s.addr, size, s.free), S.Seg(s.addr + HDR + size, s.len - size - HDR, s.free);
      assert SplitAt(h, k, size).segs == h.segs[..k] + [a, b] + h.segs[k + 1..];
      forall t | t in h.segs && !t.free ensures t in SplitAt(h, k, size).segs {
        var i :| 0 <= i < |h.segs| && h.segs[i] == t;
        assert t in h.segs[..k] || t in h.segs[k + 1..];
      }
    }
  }

  lemma FirstFitAt(segs: seq<S.Seg>, size: nat, k: nat)
    requires k <= |segs| && (k < |segs| ==> S.Fits(segs[k], size))
    requires forall j | 0 <= j < k :: !S.Fits(segs[j], size)
    ensures S.FirstFit(segs, size) == k
  {
  }

  /** When the scan fails, there is enough for one expansion and for what `malloc` does after it. */
  lemma GrowthServes(h: S.Heap, tables: set<Place>, freeFrames: nat, size: nat)
    requires h.Valid() && size > 0 && size % 16 == 0 && S.FirstFit(h.segs, size) == |h.segs| && h.end % PAGE == 0
    requires CanServe(h, tables, freeFrames, size)
    ensures var bytes := S.PageRound(size);
      var needed := FramesNeeded(tables, h.end / PAGE, bytes / PAGE);
      && h.end + bytes <= ADDRESS_LIMIT && freeFrames >= needed && S.Expand(h, size).Valid()
      && CanServe(S.Expand(h, size), TablesAfter(tables, h.end / PAGE, bytes / PAGE), freeFrames - needed, size)
    ensures S.Expansions(S.Expand(h, size), size) < S.Expansions(h, size)
    ensures S.Alloc(h, size) == S.Alloc(S.Expand(h, size), size)
    ensures forall s | s in h.segs && !s.free :: s in S.Expand(h, size).segs
    ensures size < TWO_64 ==> S.RoundSize(size) == size
  {
    hide S.CombineBackAt;
    S.ExpandKeepsValid(h, size);
    L.ExpansionsExact(h, size);
    if size < TWO_64 { PageRoundParts(size); }
    GrowthSplits(tables, h.end, S.Expansions(h, size), S.PageRound(size));
    ExpandEnds(h, size);
    ExpandBlocks(h, size);
  }

  lemma ExpandEnds(h: S.Heap, size: nat)
    requires |h.segs| > 0 && size > 0
    ensures S.Expand(h, size).start == h.start && S.Expand(h, size).end == h.end + S.PageRound(size)
    ensures S.PageRound(size) % PAGE == 0
  {
  }

  lemma ExpandBlocks(h: S.Heap, size: nat)
    requires h.Valid() && size > 0
    ensures forall s | s in h.segs && !s.free :: s in S.Expand(h, size).segs
  {
    var n := |h.segs| - 1;
    forall s | s in h.segs && !s.free ensures s in S.Expand(h, size).segs {
      var i :| 0 <= i < |h.segs| && h.segs[i] == s;
      if h.segs[n].free {
        assert S.Expand(h, size).segs[i] == s;
      } else {
        assert S.Expand(h, size).segs == h.segs + [S.Seg(h.end, S.PageRound(size) - HDR, true)];
      }
    }
  }

  /** Frames and addresses for `n` expansions serve for one, and then for the rest. */
  lemma GrowthSplits(tables: set<Place>, heapEnd: nat, n: nat, bytes: nat)
    requires n > 0 && bytes % PAGE == 0 && heapEnd % PAGE == 0
    ensures bytes <= PAGE * (n * (bytes / PAGE))
    ensures heapEnd + PAGE * (n * (bytes / PAGE)) == heapEnd + bytes + PAGE * ((n - 1) * (bytes / PAGE))
    ensures FramesNeeded(tables, heapEnd / PAGE, bytes / PAGE)
         <= FramesNeeded(tables, heapEnd / PAGE, n * (bytes / PAGE))
    ensures FramesNeeded(tables, heapEnd / PAGE, n * (bytes / PAGE))
         == FramesNeeded(tables, heapEnd / PAGE, bytes / PAGE)
            + FramesNeeded(TablesAfter(tables, heapEnd / PAGE, bytes / PAGE), (heapEnd + bytes) / PAGE,
                           (n - 1) * (bytes / PAGE))
  {
    var m := bytes / PAGE;
    var rest := (n - 1) * m;
    assert n * m == m + rest;
    assert (heapEnd + bytes) / PAGE == heapEnd / PAGE + m;
    FramesAdd(tables, heapEnd / PAGE, m, rest);
  }

  lemma WordAligned(h: S.Heap, view: View, k: nat)
    requires Image(view, h) && k < |h.segs|
    ensures h.segs[k].addr % WORD == 0
  {
  }

  lemma NonzeroAddr(view: View, h: S.Heap, k: nat)
    requires Image(view, h) && k < |h.segs|
    ensures h.segs[k].addr > 0
  {
  }

  /** The adjacency that the two combining calls of `free` rely on. */
  lemma FreeNeighbours(h: S.Heap, k: nat)
    requires h.Valid() && k < |h.segs|
    ensures var h1 := S.MarkFree(h, k);
      var h2 := S.CombineAt(h1, k);
      && (k + 1 < |h1.segs| ==> h1.segs[k].End() == h1.segs[k + 1].addr)
      && k < |h2.segs| && h2.segs[k].addr == h.segs[k].addr
      && (k > 0 ==> h2.segs[k - 1].End() == h2.segs[k].addr)
  {
    S.Consecutive(h, k);
    if k > 0 { S.Consecutive(h, k - 1); }
  }

  /** Blocks in use after `free` were in use, unchanged, in every list on the way. */
  lemma FreePayloads(h: S.Heap, k: nat, v0: View, v1: View, v2: View, v3: View)
    requires k < |h.segs| && KeepsPayloads(v0, v1, h.segs)
    requires KeepsPayloads(v1, v2, S.MarkFree(h, k).segs)
    requires KeepsPayloads(v2, v3, S.CombineAt(S.MarkFree(h, k), k).segs)
    ensures KeepsPayloads(v0, v3, S.FreeAt(h, k).segs)
  {
    hide KeepsPayloads, S.CombineAt;
    var h1 := S.MarkFree(h, k);
    var h2 := S.CombineAt(h1, k);
    var h3 := S.FreeAt(h, k);
    CombinedFrom(h1, k);
    if k > 0 && h2.segs[k - 1].free { CombinedFrom(h2, k - 1); }
    FewerPayloads(v0, v1, h.segs, h3.segs);
    FewerPayloads(v1, v2, h1.segs, h3.segs);
    FewerPayloads(v2, v3, h2.segs, h3.segs);
    PayloadsChain(v0, v1, v2, h3.segs);
    PayloadsChain(v0, v2, v3, h3.segs);
  }

  lemma CombinedFrom(h: S.Heap, k: nat)
    requires k < |h.segs| && h.segs[k].free
    ensures k < |S.CombineAt(h, k).segs|
    ensures forall s | s in S.CombineAt(h, k).segs && !s.free :: s in h.segs
  {
  }

  lemma FewerPayloads(v: View, v': View, segs: seq<S.Seg>, segs': seq<S.Seg>)
    requires KeepsPayloads(v, v', segs) && forall s | s in segs' && !s.free :: s in segs
    ensures KeepsPayloads(v, v', segs')
  {
  }

  ghost function FreeSet(h: S.Heap, k: nat, free: bool): S.Heap
    requires k < |h.segs|
  {
    h.(segs := h.segs[k := h.segs[k].(free := free)])
  }

  lemma FreeSetImage(view: View, h: S.Heap, k: nat, free: bool)
    requires Image(view, h) && k < |h.segs|
    ensures var f := h.segs[k].addr + FREE;
      && f in view && Image(view[f := WithFreeByte(view[f], free)], FreeSet(h, k, free))
      && KeepsPayloads(view, view[f := WithFreeByte(view[f], free)], h.segs)
    ensures var h' := FreeSet(h, k, free);
      && h'.start == h.start && h'.end == h.end && h'.segs[0].addr == h.segs[0].addr
      && LastAddr(h'.segs, 0) == LastAddr(h.segs, 0)
  {
    hide Linked, FreeByte, WithFreeByte, KeepsPayloads, Apart;
    HeaderAt(view, h, k);
    FreeImage(view, h.segs, k, free);
    HeaderStore(h, view, k, h.segs[k].addr + FREE, WithFreeByte(view[h.segs[k].addr + FREE], free));
    FreeSetApart(h.segs, k, free);
  }

  lemma FreeSetApart(segs: seq<S.Seg>, k: nat, free: bool)
    requires Apart(segs) && k < |segs|
    ensures Apart(segs[k := segs[k].(free := free)])
  {
    var segs' := segs[k := segs[k].(free := free)];
    forall i, j | 0 <= i < j < |segs'| ensures segs'[i].End() <= segs'[j].addr {
      assert segs[i].End() <= segs[j].addr;
    }
  }

  lemma InHeap(view: View, h: S.Heap, a: nat)
    requires Image(view, h) && a in view
    ensures a % WORD == 0
  {
  }

  lemma CombinedImage(view: View, h: S.Heap, k: nat)
    requires Image(view, h) && k + 1 < |h.segs| && h.segs[k + 1].free
    requires h.segs[k].End() == h.segs[k + 1].addr
    ensures var view' := CombinedView(view, h.segs[k].addr, FirstAddr(h.segs[k + 2..], 0),
                                      h.segs[k].len + h.segs[k + 1].len + HDR);
      && Image(view', S.CombineAt(h, k)) && KeepsPayloads(view, view', h.segs)
    ensures S.CombineAt(h, k).segs[0].addr == h.segs[0].addr
    ensures LastAddr(S.CombineAt(h, k).segs, 0)
         == if h.segs[k + 1].addr == LastAddr(h.segs, 0) then h.segs[k].addr else LastAddr(h.segs, 0)
  {
    hide Linked, KeepsPayloads, Placed, Apart, CombinedView;
    PlacedApart(h);
    CombineImage(view, h.segs, k);
    CombineKeepsPayloads(h, view, k);
    CombinePlaced(h, k);
    CombinedStart(h, k);
    CombinedEnds(h, k);
    CombinedKeys(view, h, k);
  }

  lemma CombinedKeys(view: View, h: S.Heap, k: nat)
    requires Image(view, h) && k + 1 < |h.segs|
    ensures var view' := CombinedView(view, h.segs[k].addr, FirstAddr(h.segs[k + 2..], 0),
                                      h.segs[k].len + h.segs[k + 1].len + HDR);
      forall x: nat :: x in view' <==> x in view
  {
    hide Image;
    HeaderAt(view, h, k);
    if k + 2 < |h.segs| { HeaderAt(view, h, k + 2); }
  }

  lemma ImageFirst(view: View, h: S.Heap)
    requires Image(view, h)
    ensures |h.segs| > 0
  {
  }

  lemma PlacedApart(h: S.Heap)
    requires Placed(h)
    ensures Apart(h.segs)
  {
  }

  lemma FreeByteFits(w: U64, free: bool)
    ensures 0 <= WithFreeByte(w, free) < TWO_64
  {
  }
}
