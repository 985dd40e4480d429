/**
 How a segment list lies in memory: a doubly linked list of 32-byte headers (length, next, last, and
 a `free` byte), each inside the heap it describes.
 */
module HeapImage {
  import opened Words
  import opened Segments

  type View = map<nat, nat>

  const NEXT := 8
  const LAST := 16
  const FREE := 24

  /** A `HeapSegHdr` as read from memory. */
  datatype Record = Record(length: nat, next: nat, last: nat, free: bool)

  /** The `free` member is the low byte of its word; the rest of the word is padding. */
  predicate FreeByte(w: nat) { w % 256 != 0 }

  function WithFreeByte(w: nat, free: bool): nat { w - w % 256 + (if free then 1 else 0) }

  function Word(view: View, a: nat): nat { if a in view then view[a] else 0 }

  /** The header at address `a`. */
  function HeaderOf(view: View, a: nat): Record
  {
    Record(Word(view, a), Word(view, a + NEXT), Word(view, a + LAST), FreeByte(Word(view, a + FREE)))
  }

  ghost predicate DisjointHeaders(a: nat, b: nat) { a + HDR <= b || b + HDR <= a }

  /** Storing one member changes that member of that header. */
  lemma MemberStored(view: View, a: nat, w: nat)
    ensures HeaderOf(view[a := w], a) == HeaderOf(view, a).(length := w)
    ensures HeaderOf(view[a + NEXT := w], a) == HeaderOf(view, a).(next := w)
    ensures HeaderOf(view[a + LAST := w], a) == HeaderOf(view, a).(last := w)
    ensures HeaderOf(view[a + FREE := w], a) == HeaderOf(view, a).(free := FreeByte(w))
  {
  }

  /** Storing a member of one header leaves the headers apart from it alone. */
  lemma OthersKept(view: View, a: nat, c: nat, w: nat)
    requires a <= c < a + HDR
    ensures forall b: nat | DisjointHeaders(a, b) :: HeaderOf(view[c := w], b) == HeaderOf(view, b)
  {
  }

  function FirstAddr(segs: seq<Seg>, next: nat): nat { if segs == [] then next else segs[0].addr }

  function LastAddr(segs: seq<Seg>, prev: nat): nat { if segs == [] then prev else segs[|segs| - 1].addr }

  /** The segments are in memory as a doubly linked list between `prev` and `next`. */
  ghost predicate Linked(view: View, segs: seq<Seg>, prev: nat, next: nat)
  {
    segs != [] ==>
      && HeaderOf(view, segs[0].addr) == Record(segs[0].len, FirstAddr(segs[1..], next), prev, segs[0].free)
      && Linked(view, segs[1..], segs[0].addr, next)
  }

  /** Each segment ends before the later ones begin; address 0 is never used. */
  ghost predicate Apart(segs: seq<Seg>)
  {
    && (forall i | 0 <= i < |segs| :: segs[i].addr > 0)
    && forall i, j | 0 <= i < j < |segs| :: segs[i].End() <= segs[j].addr
  }

  lemma HeadersDisjoint(segs: seq<Seg>, i: nat, j: nat)
    requires Apart(segs) && i < |segs| && j < |segs| && i != j
    ensures DisjointHeaders(segs[i].addr, segs[j].addr)
  {
    if i < j { assert segs[i].End() <= segs[j].addr; } else { assert segs[j].End() <= segs[i].addr; }
  }

  lemma {:induction false} LinkedConcat(view: View, x: seq<Seg>, y: seq<Seg>, prev: nat, next: nat)
    ensures Linked(view, x + y, prev, next)
       <==> Linked(view, x, prev, FirstAddr(y, next)) && Linked(view, y, LastAddr(x, prev), next)
  {
    if x == [] {
      assert x + y == y;
    } else {
      assert (x + y)[1..] == x[1..] + y;
      LinkedConcat(view, x[1..], y, x[0].addr, next);
      assert FirstAddr(x[1..] + y, next) == FirstAddr(x[1..], FirstAddr(y, next));
    }
  }

  lemma {:induction false} LinkedFrame(view: View, view': View, segs: seq<Seg>, prev: nat, next: nat)
    requires Linked(view, segs, prev, next)
    requires forall i | 0 <= i < |segs| :: HeaderOf(view', segs[i].addr) == HeaderOf(view, segs[i].addr)
    ensures Linked(view', segs, prev, next)
  {
    if segs != [] {
      forall i | 0 <= i < |segs[1..]| ensures HeaderOf(view', segs[1..][i].addr) == HeaderOf(view, segs[1..][i].addr) {
        assert segs[1..][i] == segs[i + 1];
      }
      LinkedFrame(view, view', segs[1..], segs[0].addr, next);
    }
  }

  /** The list seen from segment `k`. */
  lemma LinkedAt(view: View, segs: seq<Seg>, k: nat)
    requires Linked(view, segs, 0, 0) && k < |segs|
    ensures segs == segs[..k] + [segs[k]] + segs[k + 1..]
    ensures Linked(view, segs[..k], 0, segs[k].addr)
    ensures HeaderOf(view, segs[k].addr)
         == Record(segs[k].len, FirstAddr(segs[k + 1..], 0), LastAddr(segs[..k], 0), segs[k].free)
    ensures Linked(view, segs[k + 1..], segs[k].addr, 0)
  {
    assert segs == segs[..k] + segs[k..];
    assert segs[k..][1..] == segs[k + 1..];
    LinkedConcat(view, segs[..k], segs[k..], 0, 0);
  }

  /** A list put together from its front, one segment and its rest. */
  lemma LinkedAround(view: View, pre: seq<Seg>, s: Seg, post: seq<Seg>)
    requires Linked(view, pre, 0, s.addr)
    requires HeaderOf(view, s.addr) == Record(s.len, FirstAddr(post, 0), LastAddr(pre, 0), s.free)
    requires Linked(view, post, s.addr, 0)
    ensures Linked(view, pre + [s] + post, 0, 0)
  {
    hide Linked, HeaderOf;
    LinkedCons(view, s, post, LastAddr(pre, 0));
    LinkedConcat(view, pre, [s] + post, 0, 0);
    assert pre + ([s] + post) == pre + [s] + post;
  }

  /** A list put together from its front, two segments and its rest. */
  lemma PairAround(view: View, pre: seq<Seg>, s: Seg, t: Seg, post: seq<Seg>)
    requires Linked(view, pre, 0, s.addr)
    requires HeaderOf(view, s.addr) == Record(s.len, t.addr, LastAddr(pre, 0), s.free)
    requires HeaderOf(view, t.addr) == Record(t.len, FirstAddr(post, 0), s.addr, t.free)
    requires Linked(view, post, t.addr, 0)
    ensures Linked(view, pre + [s, t] + post, 0, 0)
  {
    hide Linked, HeaderOf;
    LinkedCons(view, t, post, s.addr);
    LinkedCons(view, s, [t] + post, LastAddr(pre, 0));
    LinkedConcat(view, pre, [s] + ([t] + post), 0, 0);
    assert pre + ([s] + ([t] + post)) == pre + [s, t] + post;
  }

  lemma LinkedCons(view: View, s: Seg, post: seq<Seg>, prev: nat)
    requires HeaderOf(view, s.addr) == Record(s.len, FirstAddr(post, 0), prev, s.free)
    requires Linked(view, post, s.addr, 0)
    ensures Linked(view, [s] + post, prev, 0) && FirstAddr([s] + post, 0) == s.addr
  {
    hide HeaderOf;
    assert ([s] + post)[1..] == post;
  }

  /** A list whose predecessor changes, the `last` link of its first header with it. */
  lemma Relink(view: View, view': View, segs: seq<Seg>, prev: nat, prev': nat)
    requires Linked(view, segs, prev, 0)
    requires forall i | 1 <= i < |segs| :: HeaderOf(view', segs[i].addr) == HeaderOf(view, segs[i].addr)
    requires segs != [] ==> HeaderOf(view', segs[0].addr) == HeaderOf(view, segs[0].addr).(last := prev')
    ensures Linked(view', segs, prev', 0)
  {
    if segs != [] {
      forall i | 0 <= i < |segs[1..]| ensures HeaderOf(view', segs[1..][i].addr) == HeaderOf(view, segs[1..][i].addr) {
        assert segs[1..][i] == segs[i + 1];
      }
      LinkedFrame(view, view', segs[1..], segs[0].addr, 0);
    }
  }

  /** Setting the `free` byte of segment `k`. */
  lemma FreeImage(view: View, segs: seq<Seg>, k: nat, free: bool)
    requires Linked(view, segs, 0, 0) && Apart(segs) && k < |segs|
    ensures var f := segs[k].addr + FREE;
      Linked(view[f := WithFreeByte(Word(view, f), free)], segs[k := segs[k].(free := free)], 0, 0)
  {
    hide Linked, HeaderOf, DisjointHeaders;
    var s := segs[k].(free := free);
    var w := WithFreeByte(Word(view, s.addr + FREE), free);
    var view' := view[s.addr + FREE := w];
    LinkedAt(view, segs, k);
    MemberStored(view, s.addr, w);
    OthersKept(view, s.addr, s.addr + FREE, w);
    forall i | 0 <= i < |segs| && i != k ensures HeaderOf(view', segs[i].addr) == HeaderOf(view, segs[i].addr) {
      HeadersDisjoint(segs, k, i);
    }
    LinkedFrame(view, view', segs[..k], 0, s.addr);
    LinkedFrame(view, view', segs[k + 1..], s.addr, 0);
    LinkedAround(view', segs[..k], s, segs[k + 1..]);
    assert segs[k := s] == segs[..k] + [s] + segs[k + 1..];
  }

  /** The `last` link of the header at `nn`, if there is one, set to `a`. */
  function LastLinked(view: View, nn: nat, a: nat): View { if nn != 0 then view[nn + LAST := a] else view }

  lemma LastLinkedKept(view: View, nn: nat, a: nat)
    ensures forall b: nat | nn == 0 || DisjointHeaders(nn, b) ::
      HeaderOf(LastLinked(view, nn, a), b) == HeaderOf(view, b)
    ensures nn != 0 ==> HeaderOf(LastLinked(view, nn, a), nn) == HeaderOf(view, nn).(last := a)
  {
    OthersKept(view, nn, nn + LAST, a);
  }

  /** The view after the stores of `CombineForward` to the header at `a`. */
  function CombinedView(view: View, a: nat, nn: nat, len: nat): View
  {
    LastLinked(view, nn, a)[a := len][a + NEXT := nn]
  }

  lemma CombinedHeaders(view: View, a: nat, nn: nat, len: nat)
    requires nn == 0 || DisjointHeaders(a, nn)
    ensures var view' := CombinedView(view, a, nn, len);
      && HeaderOf(view', a) == HeaderOf(view, a).(length := len, next := nn)
      && (nn != 0 ==> HeaderOf(view', nn) == HeaderOf(view, nn).(last := a))
      && forall b: nat | DisjointHeaders(a, b)
        && (nn == 0 || DisjointHeaders(nn, b)) :: HeaderOf(view', b) == HeaderOf(view, b)
  {
    hide HeaderOf, LastLinked;
    var v := LastLinked(view, nn, a);
    LastLinkedKept(view, nn, a);
    MemberStored(v, a, len);
    OthersKept(v, a, a, len);
    MemberStored(v[a := len], a, nn);
    OthersKept(v[a := len], a, a + NEXT, nn);
  }

  /** The headers of a list after those stores: only segment `k`'s and the one after the next change. */
  lemma CombinedList(view: View, segs: seq<Seg>, k: nat, len: nat)
    requires Apart(segs) && k + 1 < |segs|
    ensures var (a, nn) := (segs[k].addr, FirstAddr(segs[k + 2..], 0));
      var view' := CombinedView(view, a, nn, len);
      && HeaderOf(view', a) == HeaderOf(view, a).(length := len, next := nn)
      && (k + 2 < |segs| ==> HeaderOf(view', segs[k + 2].addr) == HeaderOf(view, segs[k + 2].addr).(last := a))
      && forall i | 0 <= i < |segs| && i != k && i != k + 2 ::
           HeaderOf(view', segs[i].addr) == HeaderOf(view, segs[i].addr)
  {
    hide HeaderOf, DisjointHeaders, CombinedView;
    var (a, nn) := (segs[k].addr, FirstAddr(segs[k + 2..], 0));
    if k + 2 < |segs| { HeadersDisjoint(segs, k, k + 2); }
    CombinedHeaders(view, a, nn, len);
    forall i | 0 <= i < |segs| && i != k && i != k + 2
      ensures HeaderOf(CombinedView(view, a, nn, len), segs[i].addr) == HeaderOf(view, segs[i].addr)
    {
      HeadersDisjoint(segs, k, i);
      if k + 2 < |segs| { HeadersDisjoint(segs, k + 2, i); }
    }
  }

  /** The stores of `CombineForward` take segment `k + 1` out of the list and leave it well linked. */
  lemma CombineImage(view: View, segs: seq<Seg>, k: nat)
    requires Linked(view, segs, 0, 0) && Apart(segs) && k + 1 < |segs|
    ensures var s := segs[k].(len := segs[k].len + segs[k + 1].len + HDR);
      var nn := FirstAddr(segs[k + 2..], 0);
      Linked(CombinedView(view, s.addr, nn, s.len), segs[..k] + [s] + segs[k + 2..], 0, 0)
  {
    hide Linked, HeaderOf, CombinedView, Apart;
    var s := segs[k].(len := segs[k].len + segs[k + 1].len + HDR);
    var post := segs[k + 2..];
    var view' := CombinedView(view, s.addr, FirstAddr(post, 0), s.len);
    LinkedAt(view, segs, k);
    LinkedAt(view, segs, k + 1);
    CombinedList(view, segs, k, s.len);
    LinkedFrame(view, view', segs[..k], 0, s.addr);
    Relink(view, view', post, segs[k + 1].addr, s.addr);
    LinkedAround(view', segs[..k], s, post);
  }

  /** The links that put a header at `b` between those at `a` and `nn`. */
  function LinksView(view: View, a: nat, b: nat, nn: nat): View
  {
    LastLinked(view, nn, b)[b + NEXT := nn][a + NEXT := b][b + LAST := a]
  }

  /** The view after the stores of `Split`: a header for `t` after `s`, whose next header was `nn`. */
  function SplitView(view: View, s: Seg, t: Seg, nn: nat): View
  {
    var v := LinksView(view, s.addr, t.addr, nn)[t.addr := t.len];
    v[t.addr + FREE := WithFreeByte(Word(v, t.addr + FREE), t.free)][s.addr := s.len]
  }

  lemma SplitHeaders(view: View, s: Seg, t: Seg, nn: nat)
    requires DisjointHeaders(s.addr, t.addr)
    requires nn != 0 ==> DisjointHeaders(s.addr, nn) && DisjointHeaders(t.addr, nn)
    ensures var view' := SplitView(view, s, t, nn);
      && HeaderOf(view', s.addr) == HeaderOf(view, s.addr).(length := s.len, next := t.addr)
      && HeaderOf(view', t.addr) == Record(t.len, nn, s.addr, t.free)
      && (nn != 0 ==> HeaderOf(view', nn) == HeaderOf(view, nn).(last := t.addr))
      && forall b: nat | DisjointHeaders(s.addr, b) && DisjointHeaders(t.addr, b)
        && (nn == 0 || DisjointHeaders(nn, b)) ::
           HeaderOf(view', b) == HeaderOf(view, b)
  {
    hide HeaderOf, LastLinked, WithFreeByte, FreeByte;
    var v0 := LastLinked(view, nn, t.addr);
    var v1 := v0[t.addr + NEXT := nn];
    var v2 := v1[s.addr + NEXT := t.addr];
    var v3 := v2[t.addr + LAST := s.addr];
    var v4 := v3[t.addr := t.len];
    var w := WithFreeByte(Word(v4, t.addr + FREE), t.free);
    var v5 := v4[t.addr + FREE := w];
    FreeByteSet(Word(v4, t.addr + FREE), t.free);
    LastLinkedKept(view, nn, t.addr);
    OthersKept(v0, t.addr, t.addr + NEXT, nn);
    OthersKept(v1, s.addr, s.addr + NEXT, t.addr);
    OthersKept(v2, t.addr, t.addr + LAST, s.addr);
    OthersKept(v3, t.addr, t.addr, t.len);
    OthersKept(v4, t.addr, t.addr + FREE, w);
    OthersKept(v5, s.addr, s.addr, s.len);
    MemberStored(v0, t.addr, nn);
    MemberStored(v1, s.addr, t.addr);
    MemberStored(v2, t.addr, s.addr);
    MemberStored(v3, t.addr, t.len);
    MemberStored(v4, t.addr, w);
    MemberStored(v5, s.addr, s.len);
  }

  lemma FreeByteSet(w: nat, free: bool)
    ensures FreeByte(WithFreeByte(w, free)) == free
    ensures WithFreeByte(w, free) % 256 == (if free then 1 else 0) && WithFreeByte(w, free) / 256 == w / 256
  {
  }

  /** The stores of `Split` put the new header into the list right after segment `k`. */
  lemma SplitImage(view: View, segs: seq<Seg>, k: nat, s: Seg, t: Seg)
    requires Linked(view, segs, 0, 0) && Apart(segs) && k < |segs|
    requires s.addr == segs[k].addr && s.free == segs[k].free
    requires s.End() <= t.addr && t.addr + HDR <= segs[k].End()
    ensures Linked(SplitView(view, s, t, FirstAddr(segs[k + 1..], 0)), segs[..k] + [s, t] + segs[k + 1..], 0, 0)
  {
    hide Linked, HeaderOf, SplitView;
    var post := segs[k + 1..];
    var nn := FirstAddr(post, 0);
    var view' := SplitView(view, s, t, nn);
    LinkedAt(view, segs, k);
    forall i | 0 <= i < |segs| && i != k ensures DisjointHeaders(s.addr, segs[i].addr)
      && DisjointHeaders(t.addr, segs[i].addr) {
      if i < k { assert segs[i].End() <= segs[k].addr; } else { assert segs[k].End() <= segs[i].addr; }
    }
    SplitHeaders(view, s, t, nn);
    forall i | 0 <= i < |segs| && i != k && i != k + 1
      ensures HeaderOf(view', segs[i].addr) == HeaderOf(view, segs[i].addr)
    {
      if k + 1 < |segs| { HeadersDisjoint(segs, k + 1, i); }
    }
    LinkedFrame(view, view', segs[..k], 0, s.addr);
    Relink(view, view', post, s.addr, t.addr);
    PairAround(view', segs[..k], s, t, post);
  }

  /** The first stores of `ExpandHeap` to the new header `t`. */
  function AppendFirst(view: View, last: nat, t: Seg): View
  {
    view[t.addr + FREE := WithFreeByte(Word(view, t.addr + FREE), t.free)][t.addr + LAST := last]
  }

  /** The view after `ExpandHeap` linked a new header at the end of the list. */
  function AppendView(view: View, last: nat, t: Seg): View
  {
    AppendFirst(view, last, t)[last + NEXT := t.addr][t.addr + NEXT := 0][t.addr := t.len]
  }

  lemma AppendHeaders(view: View, a: nat, t: Seg)
    requires DisjointHeaders(a, t.addr)
    ensures var view' := AppendView(view, a, t);
      && HeaderOf(view', a) == HeaderOf(view, a).(next := t.addr)
      && HeaderOf(view', t.addr) == Record(t.len, 0, a, t.free)
      && forall b: nat | DisjointHeaders(a, b) && DisjointHeaders(t.addr, b) :: HeaderOf(view', b) == HeaderOf(view, b)
  {
    hide HeaderOf, WithFreeByte, FreeByte;
    var w := WithFreeByte(Word(view, t.addr + FREE), t.free);
    var v1 := view[t.addr + FREE := w];
    var v2 := v1[t.addr + LAST := a];
    var v3 := v2[a + NEXT := t.addr];
    var v4 := v3[t.addr + NEXT := 0];
    FreeByteSet(Word(view, t.addr + FREE), t.free);
    OthersKept(view, t.addr, t.addr + FREE, w);
    OthersKept(v1, t.addr, t.addr + LAST, a);
    OthersKept(v2, a, a + NEXT, t.addr);
    OthersKept(v3, t.addr, t.addr + NEXT, 0);
    OthersKept(v4, t.addr, t.addr, t.len);
    MemberStored(view, t.addr, w);
    MemberStored(v1, t.addr, a);
    MemberStored(v2, a, t.addr);
    MemberStored(v3, t.addr, 0);
    MemberStored(v4, t.addr, t.len);
  }

  lemma AppendImage(view: View, segs: seq<Seg>, t: Seg)
    requires Linked(view, segs, 0, 0) && Apart(segs) && segs != [] && segs[|segs| - 1].End() <= t.addr
    ensures Linked(AppendView(view, segs[|segs| - 1].addr, t), segs + [t], 0, 0)
  {
    hide Linked, HeaderOf, AppendView;
    var n := |segs| - 1;
    var s := segs[n];
    var view' := AppendView(view, s.addr, t);
    LinkedAt(view, segs, n);
    AppendHeaders(view, s.addr, t);
    forall i | 0 <= i < n ensures HeaderOf(view', segs[..n][i].addr) == HeaderOf(view, segs[..n][i].addr) {
      HeadersDisjoint(segs, n, i);
      assert segs[i].End() <= segs[n].addr;
    }
    LinkedFrame(view, view', segs[..n], 0, s.addr);
    EmptyLinked(view', t.addr);
    PairAround(view', segs[..n], s, t, []);
    assert segs + [t] == segs[..n] + [s, t] + [];
  }

  /** The view after `InitializeHeap` wrote its only header. */
  function InitView(view: View, t: Seg): View
  {
    var v := view[t.addr := t.len][t.addr + NEXT := 0][t.addr + LAST := 0];
    v[t.addr + FREE := WithFreeByte(Word(v, t.addr + FREE), t.free)]
  }

  lemma InitImage(view: View, t: Seg)
    ensures Linked(InitView(view, t), [t], 0, 0)
  {
    hide WithFreeByte, FreeByte;
    var v := view[t.addr := t.len][t.addr + NEXT := 0][t.addr + LAST := 0];
    FreeByteSet(Word(v, t.addr + FREE), t.free);
  }

  lemma EmptyLinked(view: View, prev: nat)
    ensures Linked(view, [], prev, 0)
  {
  }
}
