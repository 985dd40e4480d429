/**
 The kernel heap as its list of segments: what `malloc`, `free` and `ExpandHeap` do to the list, and
 the invariants they keep. The heap in memory refines this model.
 */
module Segments {
  import opened Words

  const HDR := 32

  /** A header at `addr` followed by `len` payload bytes. */
  datatype Seg = Seg(addr: nat, len: nat, free: bool)
  {
    function Payload(): nat { addr + HDR }
    function End(): nat { addr + HDR + len }
  }

  /**
   `segs` fill the addresses from `a` on, one right after the other, with payload lengths that are
   positive multiples of 16 and no two free neighbours; `pf` says whether the segment before is free.
   */
  ghost predicate Chain(segs: seq<Seg>, a: nat, pf: bool)
  {
    segs != [] ==>
      && segs[0].addr == a && segs[0].len > 0 && segs[0].len % 16 == 0 && !(pf && segs[0].free)
      && Chain(segs[1..], segs[0].End(), segs[0].free)
  }

  /** Where the segments end, and whether the last one is free. */
  function EndOf(segs: seq<Seg>, a: nat): nat { if segs == [] then a else segs[|segs| - 1].End() }

  function EndFree(segs: seq<Seg>, pf: bool): bool { if segs == [] then pf else segs[|segs| - 1].free }

  datatype Heap = Heap(start: nat, end: nat, segs: seq<Seg>)
  {
    ghost predicate Valid()
    {
      |segs| > 0 && start % 16 == 0 && Chain(segs, start, false) && EndOf(segs, start) == end
    }
  }

  lemma {:induction false} ChainConcat(x: seq<Seg>, y: seq<Seg>, a: nat, pf: bool)
    ensures Chain(x + y, a, pf) <==> Chain(x, a, pf) && Chain(y, EndOf(x, a), EndFree(x, pf))
    ensures EndOf(x + y, a) == EndOf(y, EndOf(x, a)) && EndFree(x + y, pf) == EndFree(y, EndFree(x, pf))
  {
    if x == [] {
      assert x + y == y;
    } else {
      assert (x + y)[1..] == x[1..] + y;
      ChainConcat(x[1..], y, x[0].End(), x[0].free);
      if y != [] { assert (x + y)[|x + y| - 1] == y[|y| - 1]; }
    }
  }

  /** A chain cut at segment `k`. */
  lemma ChainAt(segs: seq<Seg>, a: nat, pf: bool, k: nat)
    requires Chain(segs, a, pf) && k < |segs|
    ensures Chain(segs[..k], a, pf) && EndOf(segs[..k], a) == segs[k].addr
    ensures segs[k].len > 0 && segs[k].len % 16 == 0 && !(EndFree(segs[..k], pf) && segs[k].free)
    ensures Chain(segs[k + 1..], segs[k].End(), segs[k].free)
    ensures EndOf(segs, a) == EndOf(segs[k + 1..], segs[k].End())
    ensures segs == segs[..k] + [segs[k]] + segs[k + 1..]
  {
    assert segs == segs[..k] + segs[k..];
    assert segs[k..][1..] == segs[k + 1..];
    ChainConcat(segs[..k], segs[k..], a, pf);
  }

  /** A chain with its middle replaced by another one over the same addresses. */
  lemma ChainReplace(pre: seq<Seg>, mid: seq<Seg>, post: seq<Seg>, a: nat, end: nat)
    requires Chain(pre, a, false) && Chain(mid, EndOf(pre, a), EndFree(pre, false))
    requires Chain(post, EndOf(mid, EndOf(pre, a)), EndFree(mid, EndFree(pre, false)))
    requires EndOf(post, EndOf(mid, EndOf(pre, a))) == end
    ensures Chain(pre + mid + post, a, false) && EndOf(pre + mid + post, a) == end
  {
    ChainConcat(pre, mid, a, false);
    ChainConcat(pre + mid, post, a, false);
  }

  /** The size rounding at the top of `malloc`, with 64-bit wrap-around. */
  function RoundSize(size: U64): U64
  {
    if size % 0x10 > 0 then Add64(size - size % 0x10, 0x10) else size
  }

  function PageRound(length: nat): nat
  {
    if length % PAGE > 0 then length - length % PAGE + PAGE else length
  }

  predicate Fits(s: Seg, size: nat) { s.free && s.len >= size }

  /** The index of the first segment that fits, or the number of segments. */
  function FirstFit(segs: seq<Seg>, size: nat): (k: nat)
    ensures k <= |segs|
    ensures k < |segs| ==> Fits(segs[k], size)
    ensures forall j | 0 <= j < k :: !Fits(segs[j], size)
  {
    if segs == [] || Fits(segs[0], size) then 0 else 1 + FirstFit(segs[1..], size)
  }

  predicate Splits(s: Seg, size: nat) { s.len >= size + HDR + 0x10 }

  /** Segment `k` allocated for `size` bytes: split when the rest can hold a header and 16 bytes. */
  function TakeAt(h: Heap, k: nat, size: nat): Heap
    requires k < |h.segs|
  {
    var s := h.segs[k];
    if Splits(s, size) then
      var (taken, rest) := (Seg(s.addr, size, false), Seg(s.addr + HDR + size, s.len - size - HDR, true));
      h.(segs := h.segs[..k] + [taken, rest] + h.segs[k + 1..])
    else
      h.(segs := h.segs[k := s.(free := false)])
  }

  /** `CombineForward` on segment `k`. */
  function CombineAt(h: Heap, k: nat): Heap
    requires k < |h.segs|
  {
    if k + 1 < |h.segs| && h.segs[k + 1].free then
      h.(segs := h.segs[..k] + [h.segs[k].(len := h.segs[k].len + h.segs[k + 1].len + HDR)] + h.segs[k + 2..])
    else h
  }

  /** `CombineBackward` on segment `k`. */
  function CombineBackAt(h: Heap, k: nat): Heap
    requires k < |h.segs|
  {
    if k > 0 && h.segs[k - 1].free then CombineAt(h, k - 1) else h
  }

  function MarkFree(h: Heap, k: nat): Heap
    requires k < |h.segs|
  {
    h.(segs := h.segs[k := h.segs[k].(free := true)])
  }

  /** `free` on segment `k`. */
  function FreeAt(h: Heap, k: nat): Heap
    requires k < |h.segs|
  {
    CombineBackAt(CombineAt(MarkFree(h, k), k), k)
  }

  /** The heap with a new free segment of `bytes` bytes, header included, at its end. */
  function Appended(h: Heap, bytes: nat): Heap
    requires bytes >= HDR
  {
    Heap(h.start, h.end + bytes, h.segs + [Seg(h.end, bytes - HDR, true)])
  }

  /** `ExpandHeap`. */
  function Expand(h: Heap, size: nat): Heap
    requires size > 0
  {
    CombineBackAt(Appended(h, PageRound(size)), |h.segs|)
  }

  /** How often `malloc` expands the heap before its scan succeeds. */
  function Expansions(h: Heap, size: nat): nat
    requires |h.segs| > 0
  {
    if FirstFit(h.segs, size) < |h.segs| then 0
    else if EndFree(h.segs, false) || PageRound(size) - HDR >= size then 1
    else 2
  }

  /** `malloc` of a positive, already rounded size: the new heap and the payload address. */
  function Alloc(h: Heap, size: nat): (Heap, nat)
    requires h.Valid() && size > 0 && size % 16 == 0
    decreases Expansions(h, size)
  {
    var k := FirstFit(h.segs, size);
    if k < |h.segs| then (TakeAt(h, k, size), h.segs[k].Payload())
    else
      ExpandKeepsValid(h, size);
      ExpandHelps(h, size);
      Alloc(Expand(h, size), size)
  }

  /** What becomes of the segment that is taken. */
  function TakenParts(s: Seg, size: nat): seq<Seg>
  {
    if Splits(s, size) then [Seg(s.addr, size, false), Seg(s.addr + HDR + size, s.len - size - HDR, true)]
    else [s.(free := false)]
  }

  lemma TakenChain(s: Seg, size: nat, pf: bool)
    requires s.len > 0 && s.len % 16 == 0 && size > 0 && size % 16 == 0
    ensures Chain(TakenParts(s, size), s.addr, pf) && EndOf(TakenParts(s, size), s.addr) == s.End()
  {
    assert Splits(s, size) ==> TakenParts(s, size)[1..] == [TakenParts(s, size)[1]];
  }

  lemma TakenIs(h: Heap, k: nat, size: nat)
    requires k < |h.segs|
    ensures TakeAt(h, k, size) == h.(segs := h.segs[..k] + TakenParts(h.segs[k], size) + h.segs[k + 1..])
  {
  }

  /**
   What `malloc` leaves of the segment it takes: all but `size` bytes and a header become a free segment
   again, if that leaves at least 16 bytes; otherwise the whole segment is handed out.
   */
  lemma TakenLength(h: Heap, k: nat, size: nat)
    requires k < |h.segs| && Fits(h.segs[k], size)
    ensures var (s, t) := (h.segs[k], TakeAt(h, k, size));
      && k < |t.segs| && !t.segs[k].free && t.segs[k].addr == s.addr
      && t.segs[k].len == (if s.len >= size + 48 then size else s.len) && size <= t.segs[k].len < size + 48
      && (s.len >= size + 48 ==>
           k + 1 < |t.segs| && t.segs[k + 1] == Seg(s.addr + 32 + size, s.len - size - 32, true))
  {
  }

  lemma TakeKeepsValid(h: Heap, k: nat, size: nat)
    requires h.Valid() && k < |h.segs| && Fits(h.segs[k], size) && size > 0 && size % 16 == 0
    ensures TakeAt(h, k, size).Valid()
  {
    var s, pre, post := h.segs[k], h.segs[..k], h.segs[k + 1..];
    ChainAt(h.segs, h.start, false, k);
    TakenIs(h, k, size);
    TakenChain(s, size, EndFree(pre, false));
    hide Chain, TakeAt, Splits;
    StartFree(post, s.End(), s.free, EndFree(TakenParts(s, size), EndFree(pre, false)));
    ChainReplace(pre, TakenParts(s, size), post, h.start, h.end);
  }

  /** Only the first segment of a chain depends on the flag before it. */
  lemma StartFree(segs: seq<Seg>, a: nat, pf: bool, pf': bool)
    requires Chain(segs, a, pf) && (pf' ==> pf || segs == [] || !segs[0].free)
    ensures Chain(segs, a, pf')
  {
  }

  /** The first and last of the segments that `free` on segment `k` melts into one. */
  function FirstMelted(segs: seq<Seg>, k: nat): (lo: nat)
    requires k < |segs|
    ensures lo <= k
  {
    if k > 0 && segs[k - 1].free then k - 1 else k
  }

  function LastMelted(segs: seq<Seg>, k: nat): (hi: nat)
    requires k < |segs|
    ensures k <= hi < |segs|
  {
    if k + 1 < |segs| && segs[k + 1].free then k + 1 else k
  }

  /** A block and its free neighbours as one free segment. */
  function Melted(segs: seq<Seg>, k: nat): Seg
    requires k < |segs|
  {
    var before := if FirstMelted(segs, k) < k then segs[k - 1].len + HDR else 0;
    var after := if k < LastMelted(segs, k) then HDR + segs[k + 1].len else 0;
    Seg(segs[FirstMelted(segs, k)].addr, before + segs[k].len + after, true)
  }

  /** `free` turns a block and its free neighbours into one free segment and keeps all the others. */
  lemma FreeMelts(h: Heap, k: nat)
    requires k < |h.segs|
    ensures FreeAt(h, k) == h.(segs :=
      h.segs[..FirstMelted(h.segs, k)] + [Melted(h.segs, k)] + h.segs[LastMelted(h.segs, k) + 1..])
  {
    ForwardMelts(h, k);
    var forward := CombineAt(MarkFree(h, k), k);
    var hi := LastMelted(h.segs, k);
    hide CombineAt, LastMelted, MarkFree;
    BackwardMelts(forward, k);
    if k > 0 {
      assert forward.segs[k - 1] == h.segs[..k][k - 1];
      assert forward.segs[..k - 1] == h.segs[..k - 1];
    }
    assert forward.segs[k + 1..] == h.segs[hi + 1..];
  }

  /** The block marked free takes in a free segment after it; */
  lemma ForwardMelts(h: Heap, k: nat)
    requires k < |h.segs|
    ensures var hi := LastMelted(h.segs, k);
      var after := if k < hi then HDR + h.segs[k + 1].len else 0;
      var s := Seg(h.segs[k].addr, h.segs[k].len + after, true);
      CombineAt(MarkFree(h, k), k) == h.(segs := h.segs[..k] + [s] + h.segs[hi + 1..])
  {
    var marked := MarkFree(h, k).segs;
    assert marked[..k] == h.segs[..k] && marked[k + 1..] == h.segs[k + 1..];
    assert k + 1 < |h.segs| ==> marked[k + 1] == h.segs[k + 1] && marked[k + 2..] == h.segs[k + 2..];
    assert marked == marked[..k] + [marked[k]] + marked[k + 1..];
  }

  /** a free segment before it takes it in. */
  lemma BackwardMelts(h: Heap, k: nat)
    requires k < |h.segs| && h.segs[k].free
    ensures if k > 0 && h.segs[k - 1].free then
        CombineBackAt(h, k) == h.(segs := h.segs[..k - 1]
          + [Seg(h.segs[k - 1].addr, h.segs[k - 1].len + h.segs[k].len + HDR, true)] + h.segs[k + 1..])
      else CombineBackAt(h, k) == h
  {
    if k > 0 && h.segs[k - 1].free {
      assert h.segs[k - 1].(len := h.segs[k - 1].len + h.segs[k].len + HDR)
          == Seg(h.segs[k - 1].addr, h.segs[k - 1].len + h.segs[k].len + HDR, true);
    }
  }

  /** The melted segment covers exactly the bytes of its parts. */
  lemma MeltedSpans(h: Heap, k: nat)
    requires h.Valid() && k < |h.segs|
    ensures Melted(h.segs, k).End() == h.segs[LastMelted(h.segs, k)].End()
    ensures Melted(h.segs, k).len > 0 && Melted(h.segs, k).len % 16 == 0
  {
    hide Chain, Heap.Valid;
    Consecutive(h, k);
    Consecutive(h, FirstMelted(h.segs, k));
    Consecutive(h, LastMelted(h.segs, k));
    var before := if FirstMelted(h.segs, k) < k then h.segs[k - 1].len else 0;
    var after := if k < LastMelted(h.segs, k) then h.segs[k + 1].len else 0;
    HeadersRound(before, h.segs[k].len, after);
  }

  lemma HeadersRound(x: nat, y: nat, z: nat)
    requires x % 16 == 0 && y % 16 == 0 && z % 16 == 0
    ensures (x + HDR + y + HDR + z) % 16 == 0 && (x + HDR + y) % 16 == 0 && (y + HDR + z) % 16 == 0
  {
  }

  lemma Consecutive(h: Heap, k: nat)
    requires h.Valid() && k < |h.segs|
    ensures k + 1 < |h.segs| ==> h.segs[k + 1].addr == h.segs[k].End() && !(h.segs[k].free && h.segs[k + 1].free)
    ensures h.segs[k].len > 0 && h.segs[k].len % 16 == 0
  {
    ChainAt(h.segs, h.start, false, k);
    if k + 1 < |h.segs| { assert h.segs[k + 1..][0] == h.segs[k + 1]; }
  }

  /** Around the melted segment there is no free segment left: before it */
  lemma MeltedFront(h: Heap, k: nat)
    requires h.Valid() && k < |h.segs|
    ensures var pre := h.segs[..FirstMelted(h.segs, k)];
      Chain(pre, h.start, false) && EndOf(pre, h.start) == Melted(h.segs, k).addr && !EndFree(pre, false)
  {
    var lo := FirstMelted(h.segs, k);
    MeltedAddr(h, k);
    if lo > 0 { Consecutive(h, lo - 1); }
    ChainAt(h.segs, h.start, false, lo);
    hide Chain, Melted, Heap.Valid;
  }

  /** and after it. */
  lemma MeltedBack(h: Heap, k: nat)
    requires h.Valid() && k < |h.segs|
    ensures var post := h.segs[LastMelted(h.segs, k) + 1..];
      Chain(post, Melted(h.segs, k).End(), true) && EndOf(post, Melted(h.segs, k).End()) == h.end
  {
    var hi := LastMelted(h.segs, k);
    MeltedSpans(h, k);
    Consecutive(h, k);
    if hi + 1 < |h.segs| { Consecutive(h, hi); }
    ChainAt(h.segs, h.start, false, hi);
    hide Chain, Melted;
    StartFree(h.segs[hi + 1..], h.segs[hi].End(), h.segs[hi].free, true);
  }

  lemma FreeKeepsValid(h: Heap, k: nat)
    requires h.Valid() && k < |h.segs|
    ensures FreeAt(h, k).Valid() && FreeAt(h, k).start == h.start && FreeAt(h, k).end == h.end
  {
    hide Melted, FreeAt, FirstMelted, LastMelted;
    FreeMelts(h, k);
    MeltedSpans(h, k);
    MeltedAddr(h, k);
    MeltedFront(h, k);
    MeltedBack(h, k);
    ChainReplace(h.segs[..FirstMelted(h.segs, k)], [Melted(h.segs, k)], h.segs[LastMelted(h.segs, k) + 1..],
                 h.start, h.end);
  }

  lemma MeltedAddr(h: Heap, k: nat)
    requires k < |h.segs|
    ensures Melted(h.segs, k).addr == h.segs[FirstMelted(h.segs, k)].addr && Melted(h.segs, k).free
  {
  }

  /** The least number of whole pages that holds `size` bytes. */
  lemma PageRoundCovers(size: nat)
    requires size > 0
    ensures PageRound(size) % 4096 == 0 && size <= PageRound(size) < size + 4096
    ensures PageRound(size) >= 4096 && PageRound(size) % 16 == 0
  {
    var q := size / PAGE;
    assert PageRound(size) == PAGE * q || PageRound(size) == PAGE * (q + 1);
    assert PAGE * q == 16 * (256 * q) && PAGE * (q + 1) == 16 * (256 * (q + 1));
  }

  /** A free last segment grows by the new pages; otherwise they are a segment of their own. */
  lemma ExpandIs(h: Heap, size: nat)
    requires |h.segs| > 0 && size > 0
    ensures PageRound(size) >= HDR
    ensures var (n, bytes) := (|h.segs| - 1, PageRound(size));
      var s := h.segs[n];
      Expand(h, size) == Heap(h.start, h.end + bytes,
        if s.free then h.segs[..n] + [s.(len := s.len + bytes)]
        else h.segs[..n] + [s] + [Seg(h.end, bytes - HDR, true)])
  {
    PageRoundCovers(size);
    hide PageRound;
    var n := |h.segs| - 1;
    assert h.segs == h.segs[..n] + [h.segs[n]];
  }

  lemma ExpandKeepsValid(h: Heap, size: nat)
    requires h.Valid() && size > 0
    ensures Expand(h, size).Valid()
    ensures EndFree(Expand(h, size).segs, false)
  {
    var bytes := PageRound(size);
    var n := |h.segs| - 1;
    var s, pre := h.segs[n], h.segs[..n];
    ChainAt(h.segs, h.start, false, n);
    PageRoundCovers(size);
    ExpandIs(h, size);
    hide Expand, PageRound, Chain, FirstFit;
    if s.free { LastGrows(pre, s, h.start, bytes); } else { LastFollowed(pre, s, h.start, h.end, bytes); }
  }

  lemma LastGrows(pre: seq<Seg>, s: Seg, start: nat, bytes: nat)
    requires Chain(pre, start, false) && EndOf(pre, start) == s.addr && !EndFree(pre, false)
    requires s.free && s.len > 0 && s.len % 16 == 0 && bytes % 16 == 0
    ensures var segs := pre + [s.(len := s.len + bytes)];
      Chain(segs, start, false) && EndOf(segs, start) == s.End() + bytes && EndFree(segs, false)
  {
    hide Chain;
    var grown := s.(len := s.len + bytes);
    ChainOne(grown, s.addr, false);
    ChainConcat(pre, [grown], start, false);
  }

  lemma LastFollowed(pre: seq<Seg>, s: Seg, start: nat, end: nat, bytes: nat)
    requires Chain(pre, start, false) && EndOf(pre, start) == s.addr && s.End() == end
    requires !s.free && s.len > 0 && s.len % 16 == 0 && bytes > HDR && bytes % 16 == 0
    ensures var segs := pre + [s] + [Seg(end, bytes - HDR, true)];
      Chain(segs, start, false) && EndOf(segs, start) == end + bytes && EndFree(segs, false)
  {
    hide Chain;
    ChainOne(s, s.addr, EndFree(pre, false));
    ChainOne(Seg(end, bytes - HDR, true), end, false);
    ChainReplace(pre, [s], [Seg(end, bytes - HDR, true)], start, end + bytes);
  }

  lemma ExpandEndsFree(h: Heap, size: nat)
    requires h.Valid() && size > 0
    ensures |Expand(h, size).segs| > 0 && Expand(h, size).segs[|Expand(h, size).segs| - 1].free
  {
    ExpandKeepsValid(h, size);
    hide Expand;
  }

  lemma ChainNone(a: nat, pf: bool)
    ensures Chain([], a, pf)
  {
  }

  lemma ChainOne(s: Seg, a: nat, pf: bool)
    ensures Chain([s], a, pf) <==> s.addr == a && s.len > 0 && s.len % 16 == 0 && !(pf && s.free)
  {
    ChainNone(s.End(), s.free);
    assert [s][1..] == [];
  }

  /** Each expansion brings the scan closer to success; two are always enough. */
  lemma ExpandHelps(h: Heap, size: nat)
    requires h.Valid() && size > 0 && FirstFit(h.segs, size) == |h.segs|
    ensures |Expand(h, size).segs| > 0
    ensures Expansions(Expand(h, size), size) < Expansions(h, size) <= 2
  {
    var h' := Expand(h, size);
    var last := h'.segs[|h'.segs| - 1];
    ExpandKeepsValid(h, size);
    if EndFree(h.segs, false) || PageRound(size) - HDR >= size {
      assert Fits(last, size);
    }
  }

  /** Segments are in address order, each ending before the next begins. */
  lemma {:induction false} Ordered(h: Heap, i: nat, j: nat)
    requires h.Valid() && i <= j < |h.segs|
    ensures i < j ==> h.segs[i].End() <= h.segs[j].addr
    ensures h.segs[i].addr <= h.segs[j].addr
    decreases j
  {
    if i < j {
      Ordered(h, i, j - 1);
      Consecutive(h, j - 1);
    }
  }

  lemma {:induction false} Aligned(h: Heap, k: nat)
    requires h.Valid() && k < |h.segs|
    ensures h.segs[k].addr % 16 == 0 && h.start <= h.segs[k].addr && h.segs[k].End() <= h.end
    decreases k
  {
    if k > 0 {
      Aligned(h, k - 1);
      Consecutive(h, k - 1);
    }
    Ordered(h, k, |h.segs| - 1);
  }

  lemma SegmentsDistinct(h: Heap, i: nat, j: nat)
    requires h.Valid() && i < |h.segs| && j < |h.segs| && h.segs[i].addr == h.segs[j].addr
    ensures i == j
  {
    if i < j { Ordered(h, i, j); } else { Ordered(h, j, i); }
  }
}
