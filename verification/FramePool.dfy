/**
 The page frame allocator as a function on states: one bit per frame (true is taken), the search
 cursor and the three byte counters. Index `Limit`, one past the last frame, is the stray bit that
 the bitmap's bounds check lets through.
 */
module FramePool {
  import opened Words

  /** No machine has more frames than this (16 TiB). */
  const MAX_FRAMES := 0x1_0000_0000

  datatype PageOp = Free | Lock | Unreserve | Reserve
  {
    /** The value the operation gives a frame's bit. */
    predicate Takes() { Lock? || Reserve? }
  }

  datatype Pool = Pool(bits: seq<bool>, cursor: nat, free: U64, used: U64, reserved: U64)
  {
    function Limit(): int { |bits| - 1 }

    /** All frames below the search cursor are taken. */
    ghost predicate Valid()
    {
      && 0 < |bits| <= MAX_FRAMES + 1 && cursor <= Limit()
      && forall k | 0 <= k < cursor :: bits[k]
    }

    ghost predicate IsFree(k: nat) { k < Limit() && !bits[k] }
  }

  /** One of the four single-page operations on frame `index`. */
  function Apply(op: PageOp, p: Pool, index: nat): Pool
    requires |p.bits| > 0
  {
    if index > p.Limit() || p.bits[index] == op.Takes() then p
    else
      var p' := p.(bits := p.bits[index := op.Takes()],
                   free := if op.Takes() then Sub64(p.free, PAGE) else Add64(p.free, PAGE),
                   cursor := if op.Takes() || p.cursor <= index then p.cursor else index);
      match op
      case Free => p'.(used := Sub64(p.used, PAGE))
      case Lock => p'.(used := Add64(p.used, PAGE))
      case Unreserve => p'.(reserved := Sub64(p.reserved, PAGE))
      case Reserve => p'.(reserved := Add64(p.reserved, PAGE))
  }

  /** The least clear index from `k` on, or the limit. */
  function NextClear(p: Pool, k: nat): (r: nat)
    requires k <= p.Limit()
    ensures k <= r <= p.Limit()
    ensures forall j | k <= j < r :: p.bits[j]
    ensures r < p.Limit() ==> !p.bits[r]
    decreases p.Limit() - k
  {
    if k == p.Limit() || !p.bits[k] then k else NextClear(p, k + 1)
  }

  function Request(p: Pool): (Pool, Option<nat>)
    requires |p.bits| > 0 && p.cursor <= p.Limit()
  {
    var k := NextClear(p, p.cursor);
    var p' := p.(cursor := k);
    if k == p.Limit() then (p', None) else (Apply(Lock, p', k), Some(k))
  }

  /** What an operation on a frame of the other state does: the bit, 4096 bytes moved, and the cursor. */
  lemma ApplyChanges(op: PageOp, p: Pool, index: nat)
    requires |p.bits| > 0
    ensures index >= |p.bits| || p.bits[index] == op.Takes() ==> Apply(op, p, index) == p
    ensures index < |p.bits| && p.bits[index] != op.Takes() ==>
      var q := Apply(op, p, index);
      match op
      case Free =>
        q == Pool(p.bits[index := false], if index < p.cursor then index else p.cursor, (p.free + 4096) % TWO_64,
                  (p.used - 4096) % TWO_64, p.reserved)
      case Lock =>
        q == Pool(p.bits[index := true], p.cursor, (p.free - 4096) % TWO_64, (p.used + 4096) % TWO_64, p.reserved)
      case Unreserve =>
        q == Pool(p.bits[index := false], if index < p.cursor then index else p.cursor, (p.free + 4096) % TWO_64,
                  p.used, (p.reserved - 4096) % TWO_64)
      case Reserve =>
        q == Pool(p.bits[index := true], p.cursor, (p.free - 4096) % TWO_64, p.used, (p.reserved + 4096) % TWO_64)
  {
  }

  lemma ApplyIs(op: PageOp, p: Pool, index: nat)
    requires |p.bits| > 0
    ensures index >= |p.bits| || p.bits[index] == op.Takes() ==> Apply(op, p, index) == p
    ensures index < |p.bits| && p.bits[index] != op.Takes() ==>
      var q := Apply(op, p, index);
      match op
      case Free =>
        q == Pool(p.bits[index := false], if index < p.cursor then index else p.cursor, Add64(p.free, 4096),
                  Sub64(p.used, 4096), p.reserved)
      case Lock =>
        q == Pool(p.bits[index := true], p.cursor, Sub64(p.free, 4096), Add64(p.used, 4096), p.reserved)
      case Unreserve =>
        q == Pool(p.bits[index := false], if index < p.cursor then index else p.cursor, Add64(p.free, 4096),
                  p.used, Sub64(p.reserved, 4096))
      case Reserve =>
        q == Pool(p.bits[index := true], p.cursor, Sub64(p.free, 4096), p.used, Add64(p.reserved, 4096))
  {
  }

  lemma ApplyKeepsValid(op: PageOp, p: Pool, index: nat)
    requires p.Valid()
    ensures Apply(op, p, index).Valid()
  {
  }

  /** The cursor search is a full scan: it finds the lowest free frame, or none when none is free. */
  lemma RequestIsLowest(p: Pool)
    requires p.Valid()
    ensures Request(p).0.Valid()
    ensures Request(p).1 == None <==> forall k: nat :: !p.IsFree(k)
    ensures Request(p).1.Some? ==>
      var k := Request(p).1.value;
      p.IsFree(k) && (forall j: nat | p.IsFree(j) :: k <= j) && Request(p).0.bits == p.bits[k := true]
  {
    var k := NextClear(p, p.cursor);
    if k < p.Limit() { assert p.IsFree(k); }
  }

  /** A scan that found only taken frames from the cursor to `k` has found what `Request` finds. */
  lemma RequestAt(p: Pool, k: nat)
    requires p.Valid() && p.cursor <= k <= p.Limit()
    requires forall j | p.cursor <= j < k :: p.bits[j]
    requires k < p.Limit() ==> !p.bits[k]
    ensures Request(p).0.Valid()
    ensures Request(p) == if k == p.Limit() then (p.(cursor := k), None) else (Apply(Lock, p.(cursor := k), k), Some(k))
  {
    assert NextClear(p, p.cursor) == k;
  }

  function Count(bits: seq<bool>): nat
  {
    if bits == [] then 0 else Count(bits[..|bits| - 1]) + (if bits[|bits| - 1] then 1 else 0)
  }

  lemma {:induction false} CountUpdate(bits: seq<bool>, k: nat, value: bool)
    requires k < |bits|
    ensures Count(bits[k := value]) == Count(bits) - (if bits[k] then 1 else 0) + (if value then 1 else 0)
  {
    var n := |bits| - 1;
    if k == n {
      assert bits[k := value][..n] == bits[..n];
    } else {
      assert bits[k := value][..n] == bits[..n][k := value];
      CountUpdate(bits[..n], k, value);
    }
  }

  lemma {:induction false} CountBound(bits: seq<bool>)
    ensures Count(bits) <= |bits|
  {
    if bits != [] { CountBound(bits[..|bits| - 1]); }
  }

  /** Bytes accounted for as taken, minus the bytes whose bits are set. */
  function TakenBalance(p: Pool): U64 { (p.used + p.reserved - PAGE * Count(p.bits)) % TWO_64 }

  /** Bytes accounted for as free, plus the bytes whose bits are set. */
  function FreeBalance(p: Pool): U64 { (p.free + PAGE * Count(p.bits)) % TWO_64 }

  /** Every page operation, on any index at all, conserves both balances. */
  lemma ApplyConserves(op: PageOp, p: Pool, index: nat)
    requires |p.bits| > 0
    ensures TakenBalance(Apply(op, p, index)) == TakenBalance(p)
    ensures FreeBalance(Apply(op, p, index)) == FreeBalance(p)
  {
    if index <= p.Limit() && p.bits[index] != op.Takes() {
      CountUpdate(p.bits, index, op.Takes());
      var d := if op.Takes() then PAGE else -PAGE;
      ApplyMoves(op, p, index, d);
      BalancesMoved(p, Apply(op, p, index), d);
    }
  }

  lemma ApplyMoves(op: PageOp, p: Pool, index: nat, d: int)
    requires |p.bits| > 0 && index <= p.Limit() && p.bits[index] != op.Takes()
    requires d == if op.Takes() then PAGE else -PAGE
    ensures var q := Apply(op, p, index);
      && q.bits == p.bits[index := op.Takes()] && q.free == (p.free - d) % TWO_64
      && ((q.used == (p.used + d) % TWO_64 && q.reserved == p.reserved)
          || (q.used == p.used && q.reserved == (p.reserved + d) % TWO_64))
  {
  }

  lemma BalancesMoved(p: Pool, q: Pool, d: int)
    requires PAGE * Count(q.bits) == PAGE * Count(p.bits) + d && q.free == (p.free - d) % TWO_64
    requires (q.used == (p.used + d) % TWO_64 && q.reserved == p.reserved)
          || (q.used == p.used && q.reserved == (p.reserved + d) % TWO_64)
    ensures TakenBalance(q) == TakenBalance(p) && FreeBalance(q) == FreeBalance(p)
  {
    hide Count;
    BalancesMove(p, d, PAGE * Count(p.bits));
  }

  lemma BalancesMove(p: Pool, d: int, c: int)
    ensures ((p.used + d) % TWO_64 + p.reserved - (c + d)) % TWO_64 == (p.used + p.reserved - c) % TWO_64
    ensures (p.used + (p.reserved + d) % TWO_64 - (c + d)) % TWO_64 == (p.used + p.reserved - c) % TWO_64
    ensures ((p.free - d) % TWO_64 + (c + d)) % TWO_64 == (p.free + c) % TWO_64
  {
    ModAdd(p.free - d, c + d);
    ModAdd(p.used + d, p.reserved - (c + d));
    ModAdd(p.reserved + d, p.used - (c + d));
  }

  datatype Event = Page(op: PageOp, index: nat) | Take

  function Step(p: Pool, e: Event): Pool
    requires p.Valid()
  {
    match e
    case Page(op, index) => Apply(op, p, index)
    case Take => Request(p).0
  }

  lemma StepKeeps(p: Pool, e: Event)
    requires p.Valid()
    ensures Step(p, e).Valid() && |Step(p, e).bits| == |p.bits|
    ensures TakenBalance(Step(p, e)) == TakenBalance(p) && FreeBalance(Step(p, e)) == FreeBalance(p)
  {
    match e
    case Page(op, index) =>
      hide Count, Apply, TakenBalance, FreeBalance;
      ApplyKeepsValid(op, p, index);
      ApplyConserves(op, p, index);
    case Take =>
      RequestIsLowest(p);
      RequestBalances(p);
      hide Count, Request, TakenBalance, FreeBalance;
  }

  lemma RequestBalances(p: Pool)
    requires p.Valid() && Request(p).0.Valid()
    ensures TakenBalance(Request(p).0) == TakenBalance(p) && FreeBalance(Request(p).0) == FreeBalance(p)
  {
    var p' := p.(cursor := NextClear(p, p.cursor));
    hide Count, Apply;
    if p'.cursor < p.Limit() { ApplyConserves(Lock, p', p'.cursor); }
  }

  ghost predicate IsRun(states: seq<Pool>, events: seq<Event>)
  {
    && |states| == |events| + 1
    && forall i | 0 <= i < |events| :: states[i].Valid() && states[i + 1] == Step(states[i], events[i])
  }

  lemma {:induction false} RunKeeps(states: seq<Pool>, events: seq<Event>)
    requires IsRun(states, events) && states[0].Valid()
    ensures states[|events|].Valid() && |states[|events|].bits| == |states[0].bits|
    ensures TakenBalance(states[|events|]) == TakenBalance(states[0])
    ensures FreeBalance(states[|events|]) == FreeBalance(states[0])
  {
    if events != [] {
      var n := |events| - 1;
      RunKeeps(states[..n + 1], events[..n]);
      StepKeeps(states[n], events[n]);
    }
  }

  /** The counters agree with the frames of the bitmap proper, the stray bit left out. */
  predicate Accounted(p: Pool, memorySize: nat)
    requires |p.bits| > 0
  {
    var taken := PAGE * Count(p.bits[..p.Limit()]);
    (p.used + p.reserved) % TWO_64 == taken % TWO_64 && p.free == (memorySize - taken) % TWO_64
  }

  lemma AccountedByBalance(p: Pool, memorySize: nat, stray: bool)
    requires p.Valid()
    requires TakenBalance(p) == (-(if stray then PAGE else 0)) % TWO_64
    requires FreeBalance(p) == (memorySize + (if stray then PAGE else 0)) % TWO_64
    ensures Accounted(p, memorySize) <==> p.bits[p.Limit()] == stray
  {
    var b := if p.bits[p.Limit()] then PAGE else 0;
    var b0 := if stray then PAGE else 0;
    var taken := PAGE * Count(p.bits[..p.Limit()]);
    assert PAGE * Count(p.bits) == taken + b;
    TakenCase(p.used + p.reserved, taken, b, b0);
    FreeCase(p.free, memorySize, taken, b, b0);
  }

  lemma TakenCase(x: int, taken: int, b: int, b0: int)
    requires (b == 0 || b == PAGE) && (b0 == 0 || b0 == PAGE)
    requires (x - (taken + b)) % TWO_64 == (-b0) % TWO_64
    ensures x % TWO_64 == taken % TWO_64 <==> b == b0
  {
    Congruent(x - (taken + b), -b0);
    OffsetCongruent(x - taken, b, b0);
    Congruent(x, taken);
  }

  lemma FreeCase(x: U64, size: int, taken: int, b: int, b0: int)
    requires (b == 0 || b == PAGE) && (b0 == 0 || b0 == PAGE)
    requires (x + (taken + b)) % TWO_64 == (size + b0) % TWO_64
    ensures x == (size - taken) % TWO_64 <==> b == b0
  {
    Congruent(size + b0, x + (taken + b));
    OffsetCongruent(size - taken - x, b, b0);
    Congruent(size - taken, x);
  }

  /** `x` is a multiple of 2^64 exactly when the offsets of zero or one page agree. */
  lemma OffsetCongruent(x: int, b: int, b0: int)
    requires (b == 0 || b == PAGE) && (b0 == 0 || b0 == PAGE)
    requires (x - b + b0) % TWO_64 == 0
    ensures x % TWO_64 == 0 <==> b == b0
  {
    if b != b0 { ModAdd(x, b0 - b); }
  }

  lemma BalanceOfAccounted(p: Pool, memorySize: nat)
    requires p.Valid() && Accounted(p, memorySize)
    ensures var b := if p.bits[p.Limit()] then PAGE else 0;
      TakenBalance(p) == -b % TWO_64 && FreeBalance(p) == (memorySize + b) % TWO_64
  {
    var b := if p.bits[p.Limit()] then PAGE else 0;
    var taken := PAGE * Count(p.bits[..p.Limit()]);
    assert PAGE * Count(p.bits) == taken + b;
    ModAdd(p.used + p.reserved, -taken - b);
    ModAdd(taken, -taken - b);
    ModAdd(memorySize - taken, taken + b);
  }

  /**
   The stray bit after a run, from the calls alone: what the last page operation on index `limit`
   sets it to, or its first value `stray` when there is none.
   */
  function StrayAfter(events: seq<Event>, limit: nat, stray: bool): bool
  {
    if events == [] then stray
    else
      var e := events[|events| - 1];
      if e.Page? && e.index == limit then e.op.Takes() else StrayAfter(events[..|events| - 1], limit, stray)
  }

  lemma {:induction false} RunStray(states: seq<Pool>, events: seq<Event>)
    requires IsRun(states, events) && states[0].Valid()
    ensures |states[|events|].bits| == |states[0].bits|
    ensures var limit := states[0].Limit();
      states[|events|].bits[limit] == StrayAfter(events, limit, states[0].bits[limit])
  {
    if events != [] {
      var n := |events| - 1;
      RunStray(states[..n + 1], events[..n]);
      RunKeeps(states[..n + 1], events[..n]);
      StepKeeps(states[n], events[n]);
      StepStray(states[n], events[n]);
    }
  }

  /** Requests never touch the stray bit, page operations only through its own index. */
  lemma StepStray(p: Pool, e: Event)
    requires p.Valid()
    ensures |Step(p, e).bits| == |p.bits|
    ensures Step(p, e).bits[p.Limit()]
         == if e.Page? && e.index == p.Limit() then e.op.Takes() else p.bits[p.Limit()]
  {
    if e.Take? { RequestIsLowest(p); }
  }

  /**
   Conservation over whole runs: from an accounted state the counters are right after the calls
   exactly when the last operation on the index behind the bitmap, if any, gives the bit there the
   value it started with.
   */
  lemma RunAccounted(states: seq<Pool>, events: seq<Event>, memorySize: nat)
    requires IsRun(states, events) && states[0].Valid() && Accounted(states[0], memorySize)
    ensures var p, q := states[0], states[|events|];
      |q.bits| == |p.bits|
      && (Accounted(q, memorySize) <==> StrayAfter(events, p.Limit(), p.bits[p.Limit()]) == p.bits[p.Limit()])
  {
    var p, q := states[0], states[|events|];
    hide IsRun, Accounted, TakenBalance, FreeBalance, StrayAfter, Pool.Valid;
    RunKeeps(states, events);
    RunStray(states, events);
    var stray := p.bits[p.Limit()];
    BalanceOfAccounted(p, memorySize);
    AccountedByBalance(q, memorySize, stray);
  }

  /** One call is enough: locking the page behind a clear bitmap makes the counters wrong. */
  lemma LockBehindBitmap(p: Pool, memorySize: nat)
    requires p.Valid() && Accounted(p, memorySize) && !p.bits[p.Limit()]
    ensures !Accounted(Apply(Lock, p, p.Limit()), memorySize)
  {
    var events := [Page(Lock, p.Limit())];
    RunAccounted([p, Apply(Lock, p, p.Limit())], events, memorySize);
  }

  /** A client requests a page, or gives back one that is outstanding. */
  ghost predicate ClientStep(p: Pool, e: Event, held: set<nat>, held': set<nat>)
  {
    p.Valid() &&
    match e
    case Page(op, index) => op == Free && index in held && held' == held - {index}
    case Take => held' == if Request(p).1.Some? then held + {Request(p).1.value} else held
  }

  /** A run in which only pages that were requested are given back: `held` is what is outstanding. */
  ghost predicate IsClientRun(states: seq<Pool>, events: seq<Event>, held: seq<set<nat>>)
  {
    && IsRun(states, events) && |held| == |states| && held[0] == {}
    && forall i | 0 <= i < |events| :: ClientStep(states[i], events[i], held[i], held[i + 1])
  }

  ghost predicate Exact(start: Pool, p: Pool, held: set<nat>)
    requires p.Valid() && |p.bits| == |start.bits|
  {
    && (forall k | 0 <= k < |p.bits| :: (p.bits[k] <==> start.bits[k] || k in held) && !(start.bits[k] && k in held))
    && forall k | k in held :: k < p.Limit()
  }

  lemma HeldStep(start: Pool, p: Pool, e: Event, held: set<nat>, held': set<nat>)
    requires p.Valid() && |p.bits| == |start.bits| && Exact(start, p, held)
    requires ClientStep(p, e, held, held')
    ensures Step(p, e).Valid() && |Step(p, e).bits| == |p.bits| && Exact(start, Step(p, e), held')
  {
    StepKeeps(p, e);
    if e == Take { RequestIsLowest(p); }
  }

  /**
   Frame ownership: at every moment a frame's bit is set iff it was set at the start or the frame
   is outstanding, never both. So no frame is handed out twice, and none that was set aside is.
   */
  lemma {:induction false} HeldIsExact(states: seq<Pool>, events: seq<Event>, held: seq<set<nat>>)
    requires IsClientRun(states, events, held) && states[0].Valid()
    ensures states[|events|].Valid() && |states[|events|].bits| == |states[0].bits|
    ensures Exact(states[0], states[|events|], held[|events|])
  {
    if events != [] {
      var n := |events| - 1;
      assert forall i | 0 <= i < n ::
        ClientStep(states[..n + 1][i], events[..n][i], held[..n + 1][i], held[..n + 1][i + 1]);
      HeldIsExact(states[..n + 1], events[..n], held[..n + 1]);
      StepKeeps(states[n], events[n]);
      HeldStep(states[0], states[n], events[n], held[n], held[n + 1]);
    }
  }

  /** How many frames can still be requested. */
  ghost function FreeCount(p: Pool): nat
    requires |p.bits| > 0
  {
    CountBound(p.bits[..p.Limit()]);
    p.Limit() - Count(p.bits[..p.Limit()])
  }

  lemma RequestUsesOne(p: Pool)
    requires p.Valid()
    ensures FreeCount(p) > 0 <==> Request(p).1.Some?
    ensures |Request(p).0.bits| == |p.bits|
    ensures Request(p).1.Some? ==> FreeCount(Request(p).0) == FreeCount(p) - 1
    ensures Request(p).1 == None ==> FreeCount(Request(p).0) == FreeCount(p)
  {
    RequestIsLowest(p);
    var n := p.Limit();
    if Request(p).1.Some? {
      var k := Request(p).1.value;
      CountUpdate(p.bits[..n], k, true);
      CountBound(p.bits[..n][k := true]);
      assert p.bits[k := true][..n] == p.bits[..n][k := true];
    } else {
      assert forall k: nat | k < n :: p.bits[k] by {
        forall k: nat | k < n ensures p.bits[k] { assert !p.IsFree(k); }
      }
      CountFull(p.bits[..n]);
    }
  }

  lemma FreeUsesOne(p: Pool, op: PageOp, index: nat)
    requires p.Valid()
    ensures index < p.Limit() && p.bits[index] && !op.Takes() ==> FreeCount(Apply(op, p, index)) == FreeCount(p) + 1
  {
    var n := p.Limit();
    if index < n && p.bits[index] && !op.Takes() {
      CountUpdate(p.bits[..n], index, false);
      assert p.bits[index := false][..n] == p.bits[..n][index := false];
    }
  }

  lemma {:induction false} CountFull(bits: seq<bool>)
    requires forall k | 0 <= k < |bits| :: bits[k]
    ensures Count(bits) == |bits|
  {
    if bits != [] { CountFull(bits[..|bits| - 1]); }
  }

  /**
   The byte offset of page `i` in the page-range loops. There `i` is a 32-bit `int`, so `i * 4096`
   wraps at 2^31 and is then sign-extended.
   */
  function PageOffset(i: nat): int
  {
    var m := (i * PAGE) % TWO_32;
    if m < TWO_31 then m else m - TWO_32
  }

  /** The frame that iteration `i` of a range loop over `address` operates on. */
  function RangeFrame(address: U64, i: nat): nat
  {
    Add64(address, PageOffset(i)) / PAGE
  }

  /** The first `n` iterations of a range loop. */
  function ApplyRange(op: PageOp, p: Pool, address: U64, n: nat): Pool
    requires |p.bits| > 0
    ensures |ApplyRange(op, p, address, n).bits| == |p.bits|
    decreases n, |p.bits|
  {
    if n == 0 then p else Apply(op, ApplyRange(op, p, address, n - 1), RangeFrame(address, n - 1))
  }

  lemma RangeNone(op: PageOp, p: Pool, address: U64)
    requires |p.bits| > 0
    ensures ApplyRange(op, p, address, 0) == p
  {
  }

  lemma RangeNext(op: PageOp, p: Pool, address: U64, i: nat)
    requires |p.bits| > 0
    ensures ApplyRange(op, p, address, i + 1)
         == Apply(op, ApplyRange(op, p, address, i), Add64(address, PageOffset(i)) / PAGE)
  {
  }

  lemma {:induction false} RangeKeeps(op: PageOp, p: Pool, address: U64, n: nat)
    requires p.Valid()
    ensures ApplyRange(op, p, address, n).Valid()
    ensures TakenBalance(ApplyRange(op, p, address, n)) == TakenBalance(p)
    ensures FreeBalance(ApplyRange(op, p, address, n)) == FreeBalance(p)
    decreases n
  {
    if n > 0 {
      RangeKeeps(op, p, address, n - 1);
      var q := ApplyRange(op, p, address, n - 1);
      ApplyKeepsValid(op, q, RangeFrame(address, n - 1));
      ApplyConserves(op, q, RangeFrame(address, n - 1));
    }
  }

  /** Locking and freeing leave the reserved bytes alone, reserving and unreserving the used ones. */
  lemma {:induction false} RangeCounter(op: PageOp, p: Pool, address: U64, n: nat)
    requires |p.bits| > 0
    ensures op == Lock || op == Free ==> ApplyRange(op, p, address, n).reserved == p.reserved
    ensures op == Reserve || op == Unreserve ==> ApplyRange(op, p, address, n).used == p.used
    decreases n
  {
    if n > 0 {
      RangeCounter(op, p, address, n - 1);
      RangeNext(op, p, address, n - 1);
      hide ApplyRange;
      ApplyChanges(op, ApplyRange(op, p, address, n - 1), Add64(address, PageOffset(n - 1)) / PAGE);
    } else {
      RangeNone(op, p, address);
    }
  }

  ghost predicate Visits(address: U64, n: nat, k: nat)
  {
    exists i: nat :: i < n && RangeFrame(address, i) == k
  }

  ghost predicate InRange(address: U64, n: nat, k: nat)
  {
    address / PAGE <= k < address / PAGE + n
  }

  /** A range loop's offsets run up to 2 GiB, then from 2 GiB below the address back to it, and repeat. */
  const WINDOW := 0x8_0000
  /** The number of frames of the 64-bit address space. */
  const ALL_FRAMES := 0x10_0000_0000_0000

  /** The frame offset of iteration `i`. */
  function FrameOffset(i: nat): int
  {
    if i % (2 * WINDOW) < WINDOW then i % (2 * WINDOW) else i % (2 * WINDOW) - 2 * WINDOW
  }

  lemma RangeFrameIs(address: U64, i: nat)
    ensures RangeFrame(address, i) == (address / PAGE + FrameOffset(i)) % ALL_FRAMES
  {
    OffsetIs(i);
    ShiftedFrame(address / PAGE, address % PAGE, FrameOffset(i));
  }

  lemma OffsetIs(i: nat)
    ensures PageOffset(i) == FrameOffset(i) * PAGE
  {
    var q, r := i / (2 * WINDOW), i % (2 * WINDOW);
    assert i * PAGE == q * TWO_32 + r * PAGE;
    assert (i * PAGE) % TWO_32 == r * PAGE;
  }

  lemma ShiftedFrame(frame: nat, low: nat, s: int)
    requires low < PAGE
    ensures (frame * PAGE + low + s * PAGE) % TWO_64 / PAGE == (frame + s) % ALL_FRAMES
  {
    var q, r := (frame + s) / ALL_FRAMES, (frame + s) % ALL_FRAMES;
    var x := r * PAGE + low;
    assert frame * PAGE + low + s * PAGE == x + q * TWO_64;
    ModMultiple(x, q);
  }

  /** How far frame `k` is above the address. */
  function Distance(address: U64, k: nat): int { (k - address / PAGE) % ALL_FRAMES }

  /**
   The frames a range loop of `n` iterations operates on, without the loop: the first 2^19 from the
   address on, and for a longer loop those from 2^19 frames before the address on; all modulo 2^52.
   */
  predicate Reaches(address: U64, n: nat, k: nat)
  {
    var d := Distance(address, k);
    k < ALL_FRAMES && ((d < n && d < WINDOW) || ALL_FRAMES - WINDOW <= d < ALL_FRAMES - 2 * WINDOW + n)
  }

  /** The closed form is exact, for every address and every length. */
  lemma VisitsIsReaches(address: U64, n: nat, k: nat)
    ensures Visits(address, n, k) <==> Reaches(address, n, k)
  {
    hide RangeFrame, FrameOffset, Distance;
    if i: nat :| i < n && RangeFrame(address, i) == k {
      RangeFrameIs(address, i);
      FrameOffsetIs(i);
      OffsetBack(address, FrameOffset(i), k);
    }
    if Reaches(address, n, k) {
      var d := Distance(address, k);
      var i := if d < WINDOW then d else d - ALL_FRAMES + 2 * WINDOW;
      DistanceBound(address, k);
      RangeFrameIs(address, i);
      FrameOffsetIs(i);
      OffsetForth(address, FrameOffset(i), k);
    }
  }

  lemma DistanceBound(address: U64, k: nat)
    ensures 0 <= Distance(address, k) < ALL_FRAMES
  {
  }

  lemma FrameOffsetIs(i: nat)
    ensures -WINDOW <= FrameOffset(i) < WINDOW
    ensures FrameOffset(i) <= i && (FrameOffset(i) < 0 ==> FrameOffset(i) + 2 * WINDOW <= i)
    ensures i < 2 * WINDOW ==> FrameOffset(i) == if i < WINDOW then i else i - 2 * WINDOW
  {
  }

  lemma OffsetBack(address: U64, s: int, k: nat)
    requires k == (address / PAGE + s) % ALL_FRAMES && -WINDOW <= s < WINDOW
    ensures k < ALL_FRAMES && Distance(address, k) == if s < 0 then s + ALL_FRAMES else s
  {
    var q := (address / PAGE + s) / ALL_FRAMES;
    assert k - address / PAGE == s - q * ALL_FRAMES;
  }

  lemma OffsetForth(address: U64, s: int, k: nat)
    requires k < ALL_FRAMES && -WINDOW <= s < WINDOW
    requires Distance(address, k) == if s < 0 then s + ALL_FRAMES else s
    ensures (address / PAGE + s) % ALL_FRAMES == k
  {
    var q := (k - address / PAGE) / ALL_FRAMES;
    assert address / PAGE + s == k - q * ALL_FRAMES - (if s < 0 then ALL_FRAMES else 0);
  }

  /**
   The wrap decides: a range loop visits every frame of its range exactly when the range is at most
   2^19 frames (2 GiB) long. A longer loop never reaches its frame number 2^19.
   */
  lemma RangeComplete(address: U64, n: nat)
    requires address + n * PAGE <= TWO_64
    ensures n <= WINDOW <==> forall k: nat | InRange(address, n, k) :: Reaches(address, n, k)
    ensures n <= WINDOW ==> forall k: nat :: Reaches(address, n, k) <==> InRange(address, n, k)
    ensures n > WINDOW ==> !Reaches(address, n, address / PAGE + WINDOW)
  {
    if n > WINDOW { assert InRange(address, n, address / PAGE + WINDOW); }
  }

  lemma {:induction false} RangeVisits(op: PageOp, p: Pool, address: U64, n: nat)
    requires |p.bits| > 0
    ensures forall k: nat | k < |p.bits| ::
      ApplyRange(op, p, address, n).bits[k] == if Visits(address, n, k) then op.Takes() else p.bits[k]
    decreases n
  {
    if n > 0 {
      RangeVisits(op, p, address, n - 1);
      forall k: nat ensures Visits(address, n, k) <==> Visits(address, n - 1, k) || RangeFrame(address, n - 1) == k {
        if RangeFrame(address, n - 1) == k { assert n - 1 < n; }
      }
    }
  }

  /** A range loop sets exactly the bits of the frames it reaches, whatever its length. */
  lemma RangeBits(op: PageOp, p: Pool, address: U64, n: nat)
    requires |p.bits| > 0
    ensures forall k: nat | k < |p.bits| ::
      ApplyRange(op, p, address, n).bits[k] == if Reaches(address, n, k) then op.Takes() else p.bits[k]
  {
    hide Visits, Reaches;
    RangeVisits(op, p, address, n);
    forall k: nat ensures Visits(address, n, k) <==> Reaches(address, n, k) { VisitsIsReaches(address, n, k); }
  }

  /** What `LockPages` is for: the frames of the range are taken, up to 2 GiB from its start. */
  lemma LockTakes(p: Pool, address: U64, n: nat)
    requires p.Valid()
    ensures forall k: nat | k < p.Limit() && address / 4096 <= k < address / 4096 + n
      && k < address / 4096 + 0x8_0000 :: ApplyRange(Lock, p, address, n).bits[k]
  {
    RangeBits(Lock, p, address, n);
    hide ApplyRange, Reaches;
    forall k: nat | k < p.Limit() && address / 4096 <= k < address / 4096 + n && k < address / 4096 + 0x8_0000
      ensures ApplyRange(Lock, p, address, n).bits[k]
    {
      ReachesNear(address, n, k);
    }
  }

  lemma ReachesNear(address: U64, n: nat, k: nat)
    requires address / 4096 <= k < address / 4096 + n && k < address / 4096 + 0x8_0000 && k < ALL_FRAMES
    ensures Reaches(address, n, k)
  {
  }

  /** No frame is given back between two pools. */
  ghost predicate TakesMore(p: Pool, p': Pool)
  {
    |p'.bits| == |p.bits| && forall k | 0 <= k < |p.bits| && p.bits[k] :: p'.bits[k]
  }
}
