/** Laws of the kernel heap over single calls and over whole runs. */
module HeapLaws {
  import opened Words
  import opened Segments

  /** The heap after `n` calls of `ExpandHeap(size)`. */
  function Grown(h: Heap, size: nat, n: nat): Heap
    requires size > 0
    decreases n
  {
    if n == 0 then h else Grown(Expand(h, size), size, n - 1)
  }

  lemma {:induction false} GrownKeepsValid(h: Heap, size: nat, n: nat)
    requires h.Valid() && size > 0
    ensures Grown(h, size, n).Valid()
    decreases n
  {
    if n > 0 {
      ExpandKeepsValid(h, size);
      GrownKeepsValid(Expand(h, size), size, n - 1);
    }
  }

  /**
   `malloc` expands the heap at most twice, and only while no free segment is large enough; then it
   takes the lowest-addressed one that is.
   */
  lemma {:induction false} AllocIsLowestFit(h: Heap, size: nat)
    requires h.Valid() && size > 0 && size % 16 == 0
    ensures var n := Expansions(h, size);
      var g := Grown(h, size, n);
      var k := FirstFit(g.segs, size);
      && n <= 2 && g.Valid() && k < |g.segs| && Fits(g.segs[k], size)
      && (forall j | 0 <= j < |g.segs| && Fits(g.segs[j], size) :: g.segs[k].addr <= g.segs[j].addr)
      && (forall s | n > 0 && s in Grown(h, size, n - 1).segs :: !Fits(s, size))
      && Alloc(h, size) == (TakeAt(g, k, size), g.segs[k].Payload())
    decreases Expansions(h, size)
  {
    var k := FirstFit(h.segs, size);
    if k < |h.segs| {
      forall j | 0 <= j < |h.segs| && Fits(h.segs[j], size) ensures h.segs[k].addr <= h.segs[j].addr {
        Ordered(h, k, j);
      }
    } else {
      ExpandKeepsValid(h, size);
      ExpandHelps(h, size);
      ExpansionsExact(h, size);
      AllocIsLowestFit(Expand(h, size), size);
    }
  }

  /** Each expansion reduces the number still needed by exactly one. */
  lemma ExpansionsExact(h: Heap, size: nat)
    requires h.Valid() && size > 0 && FirstFit(h.segs, size) == |h.segs|
    ensures |Expand(h, size).segs| > 0 && Expansions(Expand(h, size), size) == Expansions(h, size) - 1
  {
    ExpandHelps(h, size);
    ExpandKeepsValid(h, size);
    var h' := Expand(h, size);
    var n := |h.segs|;
    if !EndFree(h.segs, false) && PageRound(size) - HDR < size {
      assert h'.segs == h.segs + [Seg(h.end, PageRound(size) - HDR, true)];
      assert forall j | 0 <= j < n :: h'.segs[j] == h.segs[j] && !Fits(h.segs[j], size);
      assert FirstFit(h'.segs, size) >= n;
    }
  }

  lemma AllocKeepsValid(h: Heap, size: nat)
    requires h.Valid() && size > 0 && size % 16 == 0
    ensures Alloc(h, size).0.Valid()
  {
    AllocIsLowestFit(h, size);
    var g := Grown(h, size, Expansions(h, size));
    TakeKeepsValid(g, FirstFit(g.segs, size), size);
  }

  /** Freeing what was just taken from segment `k` restores the segment list exactly. */
  lemma FreeUndoesTake(h: Heap, k: nat, size: nat)
    requires h.Valid() && k < |h.segs| && Fits(h.segs[k], size) && size > 0
    ensures FreeAt(TakeAt(h, k, size), k) == h
  {
    Consecutive(h, k);
    if k > 0 { Consecutive(h, k - 1); }
    hide FreeAt, Heap.Valid, Chain, TakeAt, Melted, FirstMelted, LastMelted;
    MeltsBack(h, k, size);
    FreeMelts(TakeAt(h, k, size), k);
    Whole(h.segs, k);
  }

  lemma Whole(segs: seq<Seg>, k: nat)
    requires k < |segs|
    ensures segs == segs[..k] + [segs[k]] + segs[k + 1..]
  {
  }

  /** What is taken from a free segment between used ones melts back into that segment. */
  lemma MeltsBack(h: Heap, k: nat, size: nat)
    requires k < |h.segs| && h.segs[k].free && h.segs[k].len >= size
    requires (k > 0 ==> !h.segs[k - 1].free) && (k + 1 < |h.segs| ==> !h.segs[k + 1].free)
    ensures var t := TakeAt(h, k, size);
      && k < |t.segs| && t.start == h.start && t.end == h.end && FirstMelted(t.segs, k) == k
      && Melted(t.segs, k) == h.segs[k] && t.segs[..k] == h.segs[..k]
      && t.segs[LastMelted(t.segs, k) + 1..] == h.segs[k + 1..]
  {
    var s, pre, post := h.segs[k], h.segs[..k], h.segs[k + 1..];
    TakenIs(h, k, size);
    OneMeltsBack(pre, s, post);
    if Splits(s, size) {
      TwoMeltBack(pre, s, Seg(s.addr, size, false), Seg(s.addr + HDR + size, s.len - size - HDR, true), post);
    }
  }

  lemma OneMeltsBack(pre: seq<Seg>, s: Seg, post: seq<Seg>)
    requires s.free && (pre != [] ==> !pre[|pre| - 1].free) && (post != [] ==> !post[0].free)
    ensures var (segs, k) := (pre + [s.(free := false)] + post, |pre|);
      && k < |segs| && FirstMelted(segs, k) == LastMelted(segs, k) == k && Melted(segs, k) == s
      && segs[..k] == pre && segs[k + 1..] == post
  {
  }

  lemma TwoMeltBack(pre: seq<Seg>, s: Seg, x: Seg, y: Seg, post: seq<Seg>)
    requires s.free && !x.free && y.free && (pre != [] ==> !pre[|pre| - 1].free)
    requires x.addr == s.addr && x.len + HDR + y.len == s.len
    ensures var (segs, k) := (pre + [x, y] + post, |pre|);
      && k + 1 < |segs| && FirstMelted(segs, k) == k && LastMelted(segs, k) == k + 1 && Melted(segs, k) == s
      && segs[..k] == pre && segs[k + 2..] == post
  {
  }

  /** The index of the segment at address `a`, or the number of segments. */
  function IndexOf(segs: seq<Seg>, a: nat): (k: nat)
    ensures k <= |segs|
    ensures k < |segs| ==> segs[k].addr == a
    ensures forall j | 0 <= j < k :: segs[j].addr != a
  {
    if segs == [] || segs[0].addr == a then 0 else 1 + IndexOf(segs[1..], a)
  }

  /** `free` of the block with payload address `p`. */
  function FreeBlock(h: Heap, p: nat): Heap
    requires p >= HDR
  {
    var k := IndexOf(h.segs, p - HDR);
    if k < |h.segs| then FreeAt(h, k) else h
  }

  /**
   `free(malloc(n))` leaves the segment list as the expansions left it; when none was needed, it
   restores the list from before.
   */
  lemma FreeUndoesAlloc(h: Heap, size: nat)
    requires h.Valid() && size > 0 && size % 16 == 0
    ensures Alloc(h, size).1 >= HDR
    ensures FreeBlock(Alloc(h, size).0, Alloc(h, size).1) == Grown(h, size, Expansions(h, size))
    ensures FirstFit(h.segs, size) < |h.segs| ==> FreeBlock(Alloc(h, size).0, Alloc(h, size).1) == h
  {
    AllocIsLowestFit(h, size);
    AllocKeepsValid(h, size);
    var g := Grown(h, size, Expansions(h, size));
    FreeBlockUndoesTake(g, FirstFit(g.segs, size), size);
  }

  lemma FreeBlockUndoesTake(g: Heap, k: nat, size: nat)
    requires g.Valid() && k < |g.segs| && Fits(g.segs[k], size) && size > 0 && size % 16 == 0
    ensures FreeBlock(TakeAt(g, k, size), g.segs[k].Payload()) == g
  {
    var t := TakeAt(g, k, size);
    TakeKeepsValid(g, k, size);
    FreeUndoesTake(g, k, size);
    assert t.segs[k].addr == g.segs[k].addr;
    SegmentsDistinct(t, IndexOf(t.segs, t.segs[k].addr), k);
  }

  /** A live block: a segment in use, with its payload at `p`. */
  ghost predicate IsLive(h: Heap, p: nat, len: nat) { p >= HDR && Seg(p - HDR, len, false) in h.segs }

  lemma LiveAt(h: Heap, p: nat, len: nat) returns (k: nat)
    requires h.Valid() && IsLive(h, p, len)
    ensures k < |h.segs| && h.segs[k] == Seg(p - HDR, len, false) && k == IndexOf(h.segs, p - HDR)
  {
    k :| 0 <= k < |h.segs| && h.segs[k] == Seg(p - HDR, len, false);
    SegmentsDistinct(h, IndexOf(h.segs, p - HDR), k);
  }

  lemma TakeLive(h: Heap, k: nat, size: nat)
    requires h.Valid() && k < |h.segs| && Fits(h.segs[k], size) && size > 0
    ensures var t := TakeAt(h, k, size);
      && t.segs[k].addr == h.segs[k].addr && size <= t.segs[k].len < size + 48 && !t.segs[k].free
      && forall p: nat, l: nat ::
           IsLive(t, p, l) <==> IsLive(h, p, l) || (p == h.segs[k].Payload() && l == t.segs[k].len)
  {
    var t := TakeAt(h, k, size);
    assert h.segs == h.segs[..k] + [h.segs[k]] + h.segs[k + 1..];
    var mid := if Splits(h.segs[k], size) then [t.segs[k], t.segs[k + 1]] else [t.segs[k]];
    assert t.segs == h.segs[..k] + mid + h.segs[k + 1..];
  }

  /** `free` ends exactly one live block. */
  lemma FreeLive(h: Heap, k: nat)
    requires h.Valid() && k < |h.segs|
    ensures forall p: nat, l: nat :: IsLive(FreeAt(h, k), p, l) <==> IsLive(h, p, l) && p != h.segs[k].Payload()
  {
    hide IsLive, FreeAt, Heap.Valid;
    forall p: nat, l: nat ensures IsLive(FreeAt(h, k), p, l) <==> IsLive(h, p, l) && p != h.segs[k].Payload() {
      FreeLiveAt(h, k, p, l);
    }
  }

  lemma FreeLiveAt(h: Heap, k: nat, p: nat, l: nat)
    requires h.Valid() && k < |h.segs|
    ensures IsLive(FreeAt(h, k), p, l) <==> IsLive(h, p, l) && p != h.segs[k].Payload()
  {
    FreeMelts(h, k);
    MeltedAddr(h, k);
    hide Melted, FreeAt, FirstMelted, LastMelted, Heap.Valid;
    if p >= HDR { OthersStay(h, k, Seg(p - HDR, l, false)); }
  }

  /** The segments in use around the melted ones are all but the freed one. */
  lemma OthersStay(h: Heap, k: nat, x: Seg)
    requires h.Valid() && k < |h.segs| && !x.free
    ensures x in h.segs[..FirstMelted(h.segs, k)] || x in h.segs[LastMelted(h.segs, k) + 1..]
       <==> x in h.segs && x.addr != h.segs[k].addr
  {
    var (lo, hi) := (FirstMelted(h.segs, k), LastMelted(h.segs, k));
    hide Heap.Valid;
    if x in h.segs && x.addr != h.segs[k].addr {
      var j :| 0 <= j < |h.segs| && h.segs[j] == x;
      assert j < lo || j > hi;
    }
    if x in h.segs[..lo] || x in h.segs[hi + 1..] {
      var j :| (0 <= j < lo || hi < j < |h.segs|) && h.segs[j] == x;
      if x.addr == h.segs[k].addr { SegmentsDistinct(h, j, k); }
    }
  }

  lemma ExpandLive(h: Heap, size: nat)
    requires h.Valid() && size > 0
    ensures forall p: nat, l: nat :: IsLive(Expand(h, size), p, l) <==> IsLive(h, p, l)
  {
    var n := |h.segs| - 1;
    var s := h.segs[n];
    assert h.segs == h.segs[..n] + [s];
    if s.free {
      assert Expand(h, size).segs == h.segs[..n] + [s.(len := s.len + PageRound(size))];
    }
  }

  lemma {:induction false} GrownLive(h: Heap, size: nat, n: nat)
    requires h.Valid() && size > 0
    ensures forall p: nat, l: nat :: IsLive(Grown(h, size, n), p, l) <==> IsLive(h, p, l)
    decreases n
  {
    if n > 0 {
      ExpandKeepsValid(h, size);
      ExpandLive(h, size);
      GrownLive(Expand(h, size), size, n - 1);
    }
  }

  /** `malloc` adds exactly one live block, longer than the size by less than 48, and moves no other. */
  lemma AllocLive(h: Heap, size: nat) returns (len: nat)
    requires h.Valid() && size > 0 && size % 16 == 0
    ensures Alloc(h, size).0.Valid() && Alloc(h, size).1 >= 32 && size <= len < size + 48
    ensures var (h', p) := Alloc(h, size);
      && (forall q: nat, l: nat :: IsLive(h', q, l) <==> IsLive(h, q, l) || (q == p && l == len))
      && (forall l: nat :: !IsLive(h, p, l))
  {
    AllocIsLowestFit(h, size);
    AllocKeepsValid(h, size);
    var n := Expansions(h, size);
    var g := Grown(h, size, n);
    var k := FirstFit(g.segs, size);
    GrownLive(h, size, n);
    TakeLive(g, k, size);
    len := TakeAt(g, k, size).segs[k].len;
    forall l: nat ensures !IsLive(h, g.segs[k].Payload(), l) {
      if IsLive(g, g.segs[k].Payload(), l) {
        var j := LiveAt(g, g.segs[k].Payload(), l);
        SegmentsDistinct(g, j, k);
      }
    }
  }

  lemma AllocTaken(h: Heap, r: nat) returns (k: nat)
    requires h.Valid() && r > 0 && r % 16 == 0
    ensures var (h', p) := Alloc(h, r);
      h'.Valid() && k < |h'.segs| && h'.segs[k].addr + 32 == p && !h'.segs[k].free && r <= h'.segs[k].len < r + 48
  {
    AllocIsLowestFit(h, r);
    AllocKeepsValid(h, r);
    var g := Grown(h, r, Expansions(h, r));
    k := FirstFit(g.segs, r);
    hide Grown, Expansions, FirstFit, Alloc, TakeAt, Heap.Valid;
    TakenLength(g, k, r);
  }

  /** The block for a request of `size` bytes, rounding and all: less than 48 bytes are lost to it. */
  lemma AllocBlock(h: Heap, size: U64) returns (k: nat)
    requires h.Valid() && RoundSize(size) > 0
    ensures RoundSize(size) % 16 == 0
    ensures var (h', p) := Alloc(h, RoundSize(size));
      && k < |h'.segs| && h'.segs[k].addr + 32 == p && !h'.segs[k].free && size <= h'.segs[k].len < size + 48
      && p % 16 == 0
  {
    hide Alloc, RoundSize, Heap.Valid;
    RoundSizeCovers(size);
    var r := RoundSize(size);
    var h' := Alloc(h, r).0;
    k := AllocTaken(h, r);
    Consecutive(h', k);
    Aligned(h', k);
    SixteenApart(size, r, h'.segs[k].len);
  }

  lemma SixteenApart(size: nat, r: nat, len: nat)
    requires size <= r < size + 16 && r <= len < r + 48 && r % 16 == 0 && len % 16 == 0
    ensures len < size + 48
  {
  }

  // The live blocks decide where the free segments are.

  lemma {:induction false} ChainAbove(segs: seq<Seg>, a: nat, pf: bool)
    requires Chain(segs, a, pf)
    ensures forall s | s in segs :: a <= s.addr && s.End() <= EndOf(segs, a)
    ensures segs != [] ==> forall s | s in segs[1..] :: segs[0].End() <= s.addr
    decreases |segs|
  {
    if segs != [] {
      ChainAbove(segs[1..], segs[0].End(), segs[0].free);
      assert segs == [segs[0]] + segs[1..];
    }
  }

  /** Two chains over the same addresses with the same segments in use are the same. */
  lemma {:induction false} ChainDetermined(x: seq<Seg>, y: seq<Seg>, a: nat, pf: bool)
    requires Chain(x, a, pf) && Chain(y, a, pf) && EndOf(x, a) == EndOf(y, a)
    requires forall s: Seg | !s.free :: s in x <==> s in y
    ensures x == y
    decreases |x|
  {
    ChainLonger(x, a, pf);
    ChainLonger(y, a, pf);
    ChainAbove(x, a, pf);
    ChainAbove(y, a, pf);
    if x != [] && y != [] {
      SameFirst(x, y, a, pf);
      var (u, v) := (x[1..], y[1..]);
      assert x == [x[0]] + u && y == [y[0]] + v;
      forall s: Seg | !s.free ensures s in u <==> s in v {
        assert s in x <==> s == x[0] || s in u;
        assert s in y <==> s == y[0] || s in v;
      }
      ChainDetermined(u, v, x[0].End(), x[0].free);
    }
  }

  lemma ChainLonger(segs: seq<Seg>, a: nat, pf: bool)
    requires Chain(segs, a, pf)
    ensures segs != [] <==> EndOf(segs, a) > a
  {
    ChainAbove(segs, a, pf);
    if segs != [] { assert segs[|segs| - 1] in segs; }
  }

  /** A first segment that is in use is the first segment of the other chain too. */
  lemma UsedFirst(x: seq<Seg>, y: seq<Seg>, a: nat, pf: bool)
    requires Chain(x, a, pf) && Chain(y, a, pf) && x != [] && y != [] && !x[0].free && x[0] in y
    ensures x[0] == y[0]
  {
    ChainAbove(y, a, pf);
    assert y == [y[0]] + y[1..];
  }

  lemma SameFirst(x: seq<Seg>, y: seq<Seg>, a: nat, pf: bool)
    requires Chain(x, a, pf) && Chain(y, a, pf) && EndOf(x, a) == EndOf(y, a) && x != [] && y != []
    requires forall s: Seg | !s.free :: s in x <==> s in y
    ensures x[0] == y[0]
  {
    if !x[0].free {
      UsedFirst(x, y, a, pf);
    } else if !y[0].free {
      UsedFirst(y, x, a, pf);
    } else {
      FirstNotShorter(x, y, a, pf);
      FirstNotShorter(y, x, a, pf);
    }
  }

  lemma FirstNotShorter(x: seq<Seg>, y: seq<Seg>, a: nat, pf: bool)
    requires Chain(x, a, pf) && Chain(y, a, pf) && EndOf(x, a) == EndOf(y, a) && x != [] && y != []
    requires x[0].free && y[0].free && forall s: Seg | !s.free :: s in x <==> s in y
    ensures x[0].len >= y[0].len
  {
    ChainAbove(x, a, pf);
    ChainAbove(y, a, pf);
    assert y[0] in y;
    assert y == [y[0]] + y[1..];
    if |x| > 1 {
      assert x[1..][0] == x[1] && x[1] in x;
    }
  }

  /**
   A heap is determined by its bounds and its live blocks: this is what the invariant leaves of it. So
   whatever `free` and `malloc` do to the free segments, there is only one right way to do it.
   */
  lemma HeapDetermined(h: Heap, g: Heap)
    requires h.Valid() && g.Valid() && h.start == g.start && h.end == g.end
    requires forall p: nat, len: nat :: IsLive(h, p, len) <==> IsLive(g, p, len)
    ensures h == g
  {
    forall s: Seg | !s.free ensures s in h.segs <==> s in g.segs {
      assert IsLive(h, s.Payload(), s.len) <==> IsLive(g, s.Payload(), s.len);
      assert Seg(s.Payload() - HDR, s.len, false) == s;
    }
    ChainDetermined(h.segs, g.segs, h.start, false);
  }

  /** `free`, said without naming a step of it: the heap without that block, and nothing else changed. */
  lemma FreeExactly(h: Heap, k: nat, g: Heap)
    requires h.Valid() && k < |h.segs|
    ensures g == FreeAt(h, k) <==>
      && g.Valid() && g.start == h.start && g.end == h.end
      && forall p: nat, len: nat :: IsLive(g, p, len) <==> IsLive(h, p, len) && p != h.segs[k].addr + 32
  {
    hide FreeAt, IsLive, Heap.Valid;
    FreeKeepsValid(h, k);
    FreeLive(h, k);
    if g.Valid() && g.start == h.start && g.end == h.end
      && forall p: nat, len: nat :: IsLive(g, p, len) <==> IsLive(h, p, len) && p != h.segs[k].addr + 32 {
      HeapDetermined(g, FreeAt(h, k));
    }
  }

  /** The heap and, for each payload handed out and not yet freed, the size asked for. */
  datatype State = State(h: Heap, owed: map<nat, nat>)

  datatype Call = Malloc(size: U64) | FreePayload(p: nat) | Grow(length: U64)

  /** One call; `free` is only called on what is owed, and `ExpandHeap` for at least one byte. */
  ghost predicate Step(s: State, c: Call, s': State)
  {
    match c
    case Malloc(size) =>
      var r := RoundSize(size);
      if r == 0 then s' == s
      else s.h.Valid() && r % 16 == 0 && s' == State(Alloc(s.h, r).0, s.owed[Alloc(s.h, r).1 := size])
    case FreePayload(p) =>
      p in s.owed && p >= HDR && s' == State(FreeBlock(s.h, p), s.owed - {p})
    case Grow(length) =>
      length > 0 && s' == State(Expand(s.h, length), s.owed)
  }

  /** The block at `p` is live and holds at least `size` bytes. */
  ghost predicate Holds(h: Heap, p: nat, size: nat)
  {
    exists len: nat :: IsLive(h, p, len) && len >= size
  }

  /** The blocks owed are exactly the live ones, each at least as long as was asked. */
  ghost predicate Sound(s: State)
  {
    && s.h.Valid()
    && (forall p | p in s.owed :: Holds(s.h, p, s.owed[p]))
    && (forall p: nat, len: nat | IsLive(s.h, p, len) :: p in s.owed)
  }

  /** Rounding never loses bytes; it wraps to zero exactly for the last 15 sizes. */
  lemma RoundSizeCovers(size: U64)
    ensures RoundSize(size) % 16 == 0
    ensures size <= RoundSize(size) < size + 16 || RoundSize(size) == 0
    ensures RoundSize(size) == 0 <==> size == 0 || size > 0xFFFF_FFFF_FFFF_FFF0
  {
    var low := size % 16;
    assert (size - low) % 16 == 0;
  }

  lemma MallocKeepsSound(s: State, size: U64, r: nat, s': State)
    requires Sound(s) && r > 0 && r % 16 == 0 && r >= size
    requires s' == State(Alloc(s.h, r).0, s.owed[Alloc(s.h, r).1 := size])
    ensures Sound(s')
  {
    var len := AllocLive(s.h, r);
    var p := Alloc(s.h, r).1;
    assert IsLive(s'.h, p, len);
    forall q | q in s'.owed ensures Holds(s'.h, q, s'.owed[q]) {
      if q != p {
        var l: nat :| IsLive(s.h, q, l) && l >= s.owed[q];
        assert IsLive(s'.h, q, l);
      }
    }
  }

  lemma FreeKeepsSound(s: State, p: nat, s': State)
    requires Sound(s) && p in s.owed && p >= HDR && s' == State(FreeBlock(s.h, p), s.owed - {p})
    ensures Sound(s')
  {
    var len: nat :| IsLive(s.h, p, len) && len >= s.owed[p];
    var k := LiveAt(s.h, p, len);
    FreeKeepsValid(s.h, k);
    FreeLive(s.h, k);
    forall q | q in s'.owed ensures Holds(s'.h, q, s'.owed[q]) {
      var l: nat :| IsLive(s.h, q, l) && l >= s.owed[q];
      assert IsLive(s'.h, q, l);
    }
  }

  lemma GrowKeepsSound(s: State, length: U64)
    requires Sound(s) && length > 0
    ensures Sound(State(Expand(s.h, length), s.owed))
  {
    var h' := Expand(s.h, length);
    ExpandKeepsValid(s.h, length);
    ExpandLive(s.h, length);
    hide Expand, IsLive, Heap.Valid;
    forall p | p in s.owed ensures Holds(h', p, s.owed[p]) {
      var len: nat :| IsLive(s.h, p, len) && len >= s.owed[p];
      assert IsLive(h', p, len);
    }
  }

  lemma StepKeepsSound(s: State, c: Call, s': State)
    requires Sound(s) && Step(s, c, s')
    ensures Sound(s')
  {
    match c
    case Malloc(size) =>
      RoundSizeCovers(size);
      if RoundSize(size) > 0 { MallocKeepsSound(s, size, RoundSize(size), s'); }
    case FreePayload(p) => FreeKeepsSound(s, p, s');
    case Grow(length) => GrowKeepsSound(s, length);
  }

  ghost predicate IsRun(states: seq<State>, calls: seq<Call>)
  {
    |states| == |calls| + 1 && forall i | 0 <= i < |calls| :: Step(states[i], calls[i], states[i + 1])
  }

  /** Over any run of calls that starts sound, every state is sound. */
  lemma {:induction false} RunSound(states: seq<State>, calls: seq<Call>)
    requires IsRun(states, calls) && Sound(states[0])
    ensures forall i | 0 <= i < |states| :: Sound(states[i])
  {
    if calls != [] {
      var n := |calls| - 1;
      RunSound(states[..n + 1], calls[..n]);
      assert states[..n + 1][n] == states[n];
      StepKeepsSound(states[n], calls[n], states[n + 1]);
      forall i | 0 <= i < |states| ensures Sound(states[i]) {
        if i <= n { assert states[..n + 1][i] == states[i]; }
      }
    }
  }

  ghost predicate Disjoint(a: nat, n: nat, b: nat, m: nat) { a + n <= b || b + m <= a }

  lemma SegmentsApart(h: Heap, j: nat, k: nat)
    requires h.Valid() && j < |h.segs| && k < |h.segs|
    ensures Disjoint(h.segs[j].Payload(), h.segs[j].len, h.segs[k].addr, HDR)
    ensures j != k ==> Disjoint(h.segs[j].Payload(), h.segs[j].len, h.segs[k].Payload(), h.segs[k].len)
  {
    if j < k { Ordered(h, j, k); } else if k < j { Ordered(h, k, j); }
  }

  /**
   What a sound state means for its users: what is owed is 16-byte aligned, inside the heap, pairwise
   disjoint, and apart from every header.
   */
  lemma SoundSeparates(s: State, p: nat)
    requires Sound(s) && p in s.owed
    ensures p % 16 == 0 && s.h.start <= p && p + s.owed[p] <= s.h.end
    ensures forall q | q in s.owed && q != p :: Disjoint(p, s.owed[p], q, s.owed[q])
    ensures forall k | 0 <= k < |s.h.segs| :: Disjoint(p, s.owed[p], s.h.segs[k].addr, HDR)
  {
    hide Heap.Valid, Chain;
    var j := OwedAt(s, p);
    Aligned(s.h, j);
    forall q | q in s.owed && q != p ensures Disjoint(p, s.owed[p], q, s.owed[q]) {
      var k := OwedAt(s, q);
      SegmentsApart(s.h, j, k);
    }
    forall k | 0 <= k < |s.h.segs| ensures Disjoint(p, s.owed[p], s.h.segs[k].addr, HDR) {
      SegmentsApart(s.h, j, k);
    }
  }

  /** The segment in use that an owed payload lies in. */
  lemma OwedAt(s: State, p: nat) returns (k: nat)
    requires Sound(s) && p in s.owed
    ensures s.h.Valid() && k < |s.h.segs| && s.h.segs[k].Payload() == p && s.h.segs[k].len >= s.owed[p]
  {
    var len: nat :| IsLive(s.h, p, len) && len >= s.owed[p];
    k := LiveAt(s.h, p, len);
  }

  /** Frees the blocks with the given payload addresses, in that order. */
  function FreeAll(h: Heap, order: seq<nat>): Heap
    decreases |order|
  {
    if order == [] then h
    else FreeAll(if order[0] >= HDR then FreeBlock(h, order[0]) else h, order[1..])
  }

  /** The addresses in `order` are those of the live blocks, each once. */
  ghost predicate ListsLive(h: Heap, order: seq<nat>)
  {
    && (forall i, j | 0 <= i < j < |order| :: order[i] != order[j])
    && (forall p | p in order :: Holds(h, p, 0))
    && (forall p: nat, len: nat | IsLive(h, p, len) :: p in order)
  }

  /** With no block in use there is a single segment, which spans the heap. */
  lemma NothingLive(h: Heap)
    requires h.Valid() && forall p: nat, len: nat :: !IsLive(h, p, len)
    ensures h.end >= h.start + HDR && h.segs == [Seg(h.start, h.end - h.start - HDR, true)]
  {
    forall k | 0 <= k < |h.segs| ensures h.segs[k].free {
      if !h.segs[k].free { assert IsLive(h, h.segs[k].Payload(), h.segs[k].len); }
    }
    Consecutive(h, 0);
  }

  lemma FreeFirst(h: Heap, order: seq<nat>)
    requires h.Valid() && order != [] && ListsLive(h, order)
    ensures order[0] >= HDR
    ensures var h' := FreeBlock(h, order[0]);
      h'.Valid() && h'.start == h.start && h'.end == h.end && ListsLive(h', order[1..])
  {
    hide FreeAt, Chain;
    assert Holds(h, order[0], 0);
    var len: nat :| IsLive(h, order[0], len) && len >= 0;
    var k := LiveAt(h, order[0], len);
    FreeKeepsValid(h, k);
    FreeLive(h, k);
    var h' := FreeBlock(h, order[0]);
    forall p | p in order[1..] ensures Holds(h', p, 0) {
      assert p in order;
      var l: nat :| IsLive(h, p, l) && l >= 0;
      assert IsLive(h', p, l);
    }
    forall p: nat, l: nat | IsLive(h', p, l) ensures p in order[1..] {
      assert IsLive(h, p, l);
      assert order == [order[0]] + order[1..];
    }
  }

  /** Freeing every live block, in any order, leaves one free segment spanning the heap. */
  lemma {:induction false} FreeAllLeavesOne(h: Heap, order: seq<nat>)
    requires h.Valid() && ListsLive(h, order)
    ensures h.end >= h.start + HDR
    ensures FreeAll(h, order) == Heap(h.start, h.end, [Seg(h.start, h.end - h.start - HDR, true)])
    decreases |order|
  {
    if order == [] {
      NothingLive(h);
    } else {
      FreeFirst(h, order);
      FreeAllLeavesOne(FreeBlock(h, order[0]), order[1..]);
    }
  }
}
