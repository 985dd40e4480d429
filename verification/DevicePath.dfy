/**
 Device paths of gnu-efi: nodes with a type, a sub-type and a 16-bit length, packed one after the
 other up to an end node (section 9.3 of UEFI 2.4).
 */
module DevicePaths {
  import opened Words

  type UINT8 = x: int | 0 <= x < 256

  datatype Node = Node(kind: UINT8, sub: UINT8, data: seq<UINT8>)

  const END_TYPE := 0x7F
  const END_ENTIRE: UINT8 := 0xFF
  const END_INSTANCE: UINT8 := 0x01
  const MIN_ALIGNMENT_SIZE := 4

  function Length(n: Node): nat { 4 + |n.data| }

  predicate IsEndType(n: Node) { n.kind % 0x80 == END_TYPE }

  predicate IsEnd(n: Node) { IsEndType(n) && n.sub == END_ENTIRE }

  /** A complete path: one end node, in the last place. */
  predicate Path(ns: seq<Node>)
  {
    ns != [] && IsEnd(ns[|ns| - 1]) && forall k :: 0 <= k < |ns| - 1 ==> !IsEnd(ns[k])
  }

  predicate Fits(ns: seq<Node>)
  {
    forall k :: 0 <= k < |ns| ==> Length(ns[k]) < 0x10000
  }

  function EncodeNode(n: Node): (b: seq<UINT8>)
    ensures |b| == Length(n)
  {
    [n.kind, n.sub, Length(n) % 256, Length(n) / 256 % 256] + n.data
  }

  function Encode(ns: seq<Node>): (b: seq<UINT8>)
    ensures |b| == Size(ns)
  {
    if ns == [] then [] else EncodeNode(ns[0]) + Encode(ns[1..])
  }

  function Size(ns: seq<Node>): nat
  {
    if ns == [] then 0 else Length(ns[0]) + Size(ns[1..])
  }

  // Reading a path out of a buffer, as the macros of efidevp.h do.

  function NodeLength(b: seq<UINT8>, p: nat): nat
    requires p + 4 <= |b|
  {
    b[p + 2] as int + 256 * b[p + 3] as int
  }

  /** The nodes from offset `p` up to the first end node; none if a node is cut short or has no header. */
  function Walk(b: seq<UINT8>, p: nat): Option<seq<Node>>
    decreases |b| - p
  {
    if p + 4 > |b| || NodeLength(b, p) < 4 || p + NodeLength(b, p) > |b| then None
    else
      var n := Node(b[p], b[p + 1], b[p + 4..p + NodeLength(b, p)]);
      if IsEnd(n) then Some([n])
      else
        match Walk(b, p + NodeLength(b, p))
        case None => None
        case Some(rest) => Some([n] + rest)
  }

  /** The buffer holds the path `ns` at offset `p`. */
  predicate Holds(b: seq<UINT8>, p: nat, ns: seq<Node>)
  {
    Path(ns) && Fits(ns) && p + Size(ns) <= |b| && b[p..p + Size(ns)] == Encode(ns)
  }

  lemma LengthBytes(n: nat)
    requires n < 0x10000
    ensures n % 256 + 256 * (n / 256 % 256) == n
  {
  }

  /** What the macros see at a node, and where the rest of the path starts. */
  lemma HoldsStep(b: seq<UINT8>, p: nat, ns: seq<Node>)
    requires Holds(b, p, ns)
    ensures ns != [] && p + 4 <= p + Length(ns[0]) <= |b|
    ensures b[p] == ns[0].kind && b[p + 1] == ns[0].sub && NodeLength(b, p) == Length(ns[0])
    ensures b[p..p + Length(ns[0])] == EncodeNode(ns[0])
    ensures b[p + 4..p + Length(ns[0])] == ns[0].data
    ensures |ns| > 1 ==> Holds(b, p + Length(ns[0]), ns[1..])
    ensures |ns| == 1 <==> IsEnd(ns[0])
  {
    var e, rest := EncodeNode(ns[0]), Encode(ns[1..]);
    var l := Length(ns[0]);
    assert Encode(ns) == e + rest && Size(ns) == l + Size(ns[1..]);
    SliceParts(b, p, l, Size(ns[1..]), e, rest);
    LengthBytes(l);
    assert e[4..] == ns[0].data;
    assert forall k :: 0 <= k < |ns| - 1 ==> ns[1..][k] == ns[k + 1];
    hide Encode, Size, EncodeNode;
  }

  lemma SliceParts(b: seq<UINT8>, p: nat, l: nat, m: nat, e: seq<UINT8>, rest: seq<UINT8>)
    requires 4 <= |e| == l && |rest| == m && p + l + m <= |b| && b[p..p + l + m] == e + rest
    ensures b[p..p + l] == e && b[p + l..p + l + m] == rest
    ensures b[p] == e[0] && b[p + 1] == e[1] && b[p + 2] == e[2] && b[p + 3] == e[3]
    ensures b[p + 4..p + l] == e[4..]
  {
    assert b[p..p + l] == b[p..p + l + m][..l] == (e + rest)[..l];
    assert b[p + l..p + l + m] == b[p..p + l + m][l..] == (e + rest)[l..];
    assert b[p] == b[p..p + l][0] && b[p + 1] == b[p..p + l][1];
    assert b[p + 2] == b[p..p + l][2] && b[p + 3] == b[p..p + l][3];
    assert b[p + 4..p + l] == b[p..p + l][4..];
  }

  lemma HoldsPrepend(b: seq<UINT8>, p: nat, n: Node, rest: seq<Node>)
    requires !IsEnd(n) && Length(n) < 0x10000 && p + Length(n) <= |b|
    requires b[p..p + Length(n)] == EncodeNode(n) && Holds(b, p + Length(n), rest)
    ensures Holds(b, p, [n] + rest)
  {
    var ns := [n] + rest;
    assert ns[1..] == rest;
    var l := Length(n);
    assert b[p..p + Size(ns)] == b[p..p + l] + b[p + l..p + l + Size(rest)];
  }

  lemma NodeBytes(b: seq<UINT8>, p: nat)
    requires p + 4 <= |b| && 4 <= NodeLength(b, p) && p + NodeLength(b, p) <= |b|
    ensures var n := Node(b[p], b[p + 1], b[p + 4..p + NodeLength(b, p)]);
            Length(n) == NodeLength(b, p) < 0x10000 && b[p..p + Length(n)] == EncodeNode(n)
  {
    var n := Node(b[p], b[p + 1], b[p + 4..p + NodeLength(b, p)]);
    var lo: int, hi: int := b[p + 2], b[p + 3];
    assert Length(n) == lo + 256 * hi;
    assert Length(n) % 256 == lo && Length(n) / 256 == hi;
  }

  lemma HoldsEnd(b: seq<UINT8>, p: nat, ns: seq<Node>)
    requires |ns| == 1 && IsEnd(ns[0]) && Length(ns[0]) < 0x10000
    requires p + Length(ns[0]) <= |b| && b[p..p + Length(ns[0])] == EncodeNode(ns[0])
    ensures Holds(b, p, ns)
  {
    assert ns[1..] == [];
    assert Encode(ns) == EncodeNode(ns[0]);
  }

  lemma {:induction false} WalkHolds(b: seq<UINT8>, p: nat, ns: seq<Node>)
    requires Walk(b, p) == Some(ns)
    ensures Holds(b, p, ns)
    decreases |b| - p
  {
    hide Holds, EncodeNode;
    NodeBytes(b, p);
    if IsEnd(ns[0]) {
      HoldsEnd(b, p, ns);
    } else {
      assert ns == [ns[0]] + ns[1..];
      WalkHolds(b, p + NodeLength(b, p), ns[1..]);
      HoldsPrepend(b, p, ns[0], ns[1..]);
    }
  }

  lemma {:induction false} HoldsWalk(b: seq<UINT8>, p: nat, ns: seq<Node>)
    requires Holds(b, p, ns)
    ensures Walk(b, p) == Some(ns)
    decreases |b| - p
  {
    HoldsStep(b, p, ns);
    hide Holds;
    assert Node(b[p], b[p + 1], b[p + 4..p + NodeLength(b, p)]) == ns[0];
    if |ns| > 1 {
      HoldsWalk(b, p + Length(ns[0]), ns[1..]);
      assert ns == [ns[0]] + ns[1..];
    } else {
      assert ns == [ns[0]];
    }
  }

  /** Walking a buffer and encoding a path undo each other. */
  lemma WalkIsHolds(b: seq<UINT8>, p: nat, ns: seq<Node>)
    ensures Walk(b, p) == Some(ns) <==> Holds(b, p, ns)
  {
    hide Holds, Walk;
    if Walk(b, p) == Some(ns) {
      WalkHolds(b, p, ns);
    }
    if Holds(b, p, ns) {
      HoldsWalk(b, p, ns);
    }
  }

  // Sizes and copies.

  /** The macros `IsDevicePathEndType` and `IsDevicePathEnd`. */
  predicate AtEndType(b: seq<UINT8>, p: nat)
    requires p + 4 <= |b|
  {
    b[p] % 0x80 == END_TYPE
  }

  predicate AtEnd(b: seq<UINT8>, p: nat)
    requires p + 4 <= |b|
  {
    AtEndType(b, p) && b[p + 1] == END_ENTIRE
  }

  lemma HoldsAt(b: seq<UINT8>, p: nat, ns: seq<Node>)
    requires Holds(b, p, ns)
    ensures ns != [] && p + 4 <= |b|
    ensures AtEndType(b, p) == IsEndType(ns[0]) && AtEnd(b, p) == IsEnd(ns[0])
    ensures AtEnd(b, p) <==> |ns| == 1
  {
    HoldsStep(b, p, ns);
  }

  lemma HoldsNext(b: seq<UINT8>, p: nat, ns: seq<Node>)
    requires Holds(b, p, ns) && |ns| > 1
    ensures p + 4 <= |b| && NodeLength(b, p) == Length(ns[0])
    ensures Holds(b, p + NodeLength(b, p), ns[1..])
    ensures Size(ns) == NodeLength(b, p) + Size(ns[1..])
  {
    hide *;
    HoldsStep(b, p, ns);
    SizeStep(ns);
  }

  lemma SizeStep(ns: seq<Node>)
    requires ns != []
    ensures Size(ns) == Length(ns[0]) + Size(ns[1..])
  {
  }

  /** The buffer holds the path `ns` up to and with the header of its end node; `b` holds all of it. */
  predicate Shows(mem: seq<UINT8>, p: nat, b: seq<UINT8>, ns: seq<Node>)
  {
    Holds(b, p, ns) && p + Size(ns) - |ns[|ns| - 1].data| <= |mem|
    && forall k: nat :: k < p + Size(ns) - |ns[|ns| - 1].data| ==> mem[k] == b[k]
  }

  /** The offset of the end node. */
  method FindEnd(mem: array<UINT8>, p: nat, ghost b: seq<UINT8>, ghost ns: seq<Node>) returns (at: nat)
    requires Shows(mem[..], p, b, ns)
    ensures p <= at && at - p == Size(ns) - Length(ns[|ns| - 1])
    ensures at + 4 <= mem.Length && AtEnd(mem[..], at) && NodeLength(mem[..], at) == Length(ns[|ns| - 1])
  {
    hide Holds, AtEnd, Size, Shows, NodeLength;
    ShowsHolds(mem[..], p, b, ns);
    ghost var rest := ns;
    at := p;
    ShowsAt(mem[..], p, b, ns, at, rest);
    while !AtEnd(mem[..], at)
      invariant p <= at && at + 4 <= mem.Length && rest != [] && Holds(b, at, rest)
      invariant at - p + Size(rest) == Size(ns) && rest[|rest| - 1] == ns[|ns| - 1]
      decreases |rest|
    {
      ShowsAt(mem[..], p, b, ns, at, rest);
      HoldsNext(b, at, rest);
      at := at + NodeLength(mem[..], at);
      rest := rest[1..];
      ShowsAt(mem[..], p, b, ns, at, rest);
    }
    ShowsAt(mem[..], p, b, ns, at, rest);
    SizeOne(rest);
  }

  lemma ShowsHolds(mem: seq<UINT8>, p: nat, b: seq<UINT8>, ns: seq<Node>)
    requires Shows(mem, p, b, ns)
    ensures ns != [] && Holds(b, p, ns)
  {
  }

  /** At every node of the path the buffer shows the node's header. */
  lemma ShowsAt(mem: seq<UINT8>, p: nat, b: seq<UINT8>, ns: seq<Node>, at: nat, rest: seq<Node>)
    requires Shows(mem, p, b, ns) && Holds(b, at, rest) && at - p + Size(rest) == Size(ns)
    requires ns != [] && rest != [] && rest[|rest| - 1] == ns[|ns| - 1]
    ensures at + 4 <= |mem| && at + 4 <= |b| && (AtEnd(mem, at) <==> |rest| == 1)
    ensures NodeLength(mem, at) == NodeLength(b, at) == Length(rest[0])
  {
    hide Holds, Size;
    HoldsStep(b, at, rest);
    SizeAtLast(rest);
  }

  lemma {:induction false} SizeAtLast(ns: seq<Node>)
    requires ns != []
    ensures Size(ns) >= Length(ns[|ns| - 1])
  {
    if |ns| > 1 {
      SizeAtLast(ns[1..]);
    }
  }

  lemma SizeOne(ns: seq<Node>)
    requires |ns| == 1
    ensures Size(ns) == Length(ns[0])
  {
  }

  /** The bytes up to the end node, and the four of the end node's header. */
  method DevicePathSize(mem: array<UINT8>, p: nat, ghost ns: seq<Node>) returns (size: nat)
    requires Holds(mem[..], p, ns)
    ensures size == Size(ns) - |ns[|ns| - 1].data|
  {
    assert Shows(mem[..], p, mem[..], ns);
    var at := FindEnd(mem, p, mem[..], ns);
    size := at - p + 4;
  }

  method CopyMem(dest: array<UINT8>, d: nat, src: array<UINT8>, s: nat, n: nat)
    requires dest != src && d + n <= dest.Length && s + n <= src.Length
    modifies dest
    ensures dest[..] == old(dest[..])[..d] + src[s..s + n] + old(dest[..])[d + n..]
  {
    forall k | 0 <= k < n {
      dest[d + k] := src[s + k];
    }
  }

  /** The bytes of the path without any that follow the header of its end node. */
  function Trimmed(ns: seq<Node>): seq<UINT8>
    requires ns != []
  {
    assert Size(ns) >= |ns[|ns| - 1].data| by { SizeAtLast(ns); }
    Encode(ns)[..Size(ns) - |ns[|ns| - 1].data|]
  }

  /** A copy of the path, or null when the pool has no room for it. */
  method DuplicateDevicePath(mem: array<UINT8>, p: nat, granted: bool, ghost ns: seq<Node>)
    returns (copy: array?<UINT8>)
    requires Holds(mem[..], p, ns)
    ensures copy != null <==> granted
    ensures granted ==> fresh(copy) && copy[..] == Trimmed(ns)
  {
    hide *;
    var size := DevicePathSize(mem, p, ns);
    if !granted {
      return null;
    }
    TrimmedBytes(mem[..], p, ns);
    var bytes := new UINT8[size](_ => 0);
    CopyMem(bytes, 0, mem, p, size);
    assert bytes[..] == mem[p..p + size];
    copy := bytes;
  }

  lemma TrimmedIs(ns: seq<Node>)
    requires ns != []
    ensures Size(ns) >= |ns[|ns| - 1].data| && Trimmed(ns) == Encode(ns)[..Size(ns) - |ns[|ns| - 1].data|]
  {
    hide Encode, Size;
    SizeAtLast(ns);
  }

  lemma TrimmedBytes(b: seq<UINT8>, p: nat, ns: seq<Node>)
    requires Holds(b, p, ns)
    ensures ns != [] && |Trimmed(ns)| == Size(ns) - |ns[|ns| - 1].data|
    ensures p + |Trimmed(ns)| <= |b| && b[p..p + |Trimmed(ns)|] == Trimmed(ns)
  {
    HoldsBytes(b, p, ns);
    assert ns != [];
    hide *;
    TrimmedIs(ns);
    assert b[p..p + |Trimmed(ns)|] == b[p..p + Size(ns)][..|Trimmed(ns)|];
  }

  lemma HoldsBytes(b: seq<UINT8>, p: nat, ns: seq<Node>)
    requires Holds(b, p, ns)
    ensures ns != [] && Path(ns) && Fits(ns) && p + Size(ns) <= |b| && b[p..p + Size(ns)] == Encode(ns)
  {
  }

  // Unpacking: every node rounded up to MIN_ALIGNMENT_SIZE, which is 4 on x86-64.

  function AlignSize(n: nat): nat
  {
    if n % MIN_ALIGNMENT_SIZE != 0 then MIN_ALIGNMENT_SIZE - n % MIN_ALIGNMENT_SIZE else 0
  }

  function Zeros(n: nat): seq<UINT8> { seq(n, _ => 0) }

  /** The node with its type marked unpacked and zeros after its payload. */
  function Unpacked(n: Node): Node
  {
    Node(n.kind % 0x80 + 0x80, n.sub, n.data + Zeros(AlignSize(Length(n))))
  }

  /** What unpacking means for a node: bit 7 of the type, and zeros up to a multiple of four bytes. */
  lemma UnpackedMeans(n: Node)
    ensures Unpacks(n, Unpacked(n))
  {
  }

  function UnpackedPath(ns: seq<Node>): (us: seq<Node>)
    ensures |us| == |ns| && forall k :: 0 <= k < |ns| ==> us[k] == Unpacked(ns[k])
  {
    if ns == [] then [] else [Unpacked(ns[0])] + UnpackedPath(ns[1..])
  }

  lemma {:induction false} UnpackedAligned(ns: seq<Node>)
    ensures Size(UnpackedPath(ns)) % MIN_ALIGNMENT_SIZE == 0
  {
    hide Unpacked, Length;
    if ns != [] {
      UnpackedLength(ns[0]);
      UnpackedAligned(ns[1..]);
      assert UnpackedPath(ns)[1..] == UnpackedPath(ns[1..]);
    }
  }

  lemma RoundTotal(total: nat, n: nat)
    requires total % MIN_ALIGNMENT_SIZE == 0
    ensures AlignSize(total + n) == AlignSize(n)
  {
  }

  /** The sizing pass: it aligns the running total, the copy aligns every node; the sums are equal. */
  method UnpackedSize(mem: array<UINT8>, p: nat, ghost ns: seq<Node>) returns (size: nat)
    requires Holds(mem[..], p, ns)
    ensures size == Size(UnpackedPath(ns))
  {
    hide Holds, AtEnd, Size, AlignSize, UnpackedPath, NodeLength, IsEnd;
    ghost var b := mem[..];
    ghost var rest := ns;
    var src := p;
    size := 0;
    HoldsAt(b, src, rest);
    while true
      invariant 0 <= src && src + 4 <= |b| && Holds(b, src, rest) && rest != []
      invariant size % MIN_ALIGNMENT_SIZE == 0
      invariant size + Size(UnpackedPath(rest)) == Size(UnpackedPath(ns))
      decreases |rest|
    {
      HoldsAt(b, src, rest);
      UnpackedStep(b, src, rest);
      RoundTotal(size, NodeLength(b, src));
      UnpackedAligned(rest);
      UnpackedAligned(rest[1..]);
      size := size + NodeLength(mem[..], src);
      size := size + AlignSize(size);
      if AtEnd(mem[..], src) {
        break;
      }
      HoldsNext(b, src, rest);
      src := src + NodeLength(mem[..], src);
      rest := rest[1..];
      HoldsAt(b, src, rest);
    }
  }

  lemma UnpackedStep(b: seq<UINT8>, p: nat, ns: seq<Node>)
    requires Holds(b, p, ns)
    ensures ns != [] && p + 4 <= |b| && NodeLength(b, p) == Length(ns[0])
    ensures Size(UnpackedPath(ns))
         == Length(ns[0]) + AlignSize(Length(ns[0])) + Size(UnpackedPath(ns[1..]))
    ensures |ns| == 1 ==> Size(UnpackedPath(ns[1..])) == 0
  {
    HoldsStep(b, p, ns);
    assert UnpackedPath(ns)[1..] == UnpackedPath(ns[1..]);
  }

  /** The iteration of the copy pass: one node written over zeros. */
  method UnpackNode(dest: array<UINT8>, d: nat, mem: array<UINT8>, src: nat, ghost n: Node) returns (size: nat)
    requires dest != mem && Length(n) < 0x10000 && src + Length(n) <= mem.Length
    requires mem[src..src + Length(n)] == EncodeNode(n)
    requires d + Length(Unpacked(n)) <= dest.Length
    requires dest[d..d + Length(Unpacked(n))] == Zeros(Length(Unpacked(n)))
    modifies dest
    ensures size == Length(Unpacked(n))
    ensures dest[..] == old(dest[..])[..d] + EncodeNode(Unpacked(n)) + old(dest[..])[d + size..]
    ensures UnpackedAt(dest[..], d, n, size)
  {
    ghost var was := dest[..];
    EncodedLength(mem[..], src, n);
    NodeHeader(n);
    UnpackedLength(n);
    hide Unpacked, EncodeNode, NodeLength, Marked, AlignSize, Zeros;
    size := NodeLength(mem[..], src);
    CopyMem(dest, d, mem, src, size);
    ghost var copied := dest[..];
    assert copied[d] == EncodeNode(n)[0];
    size := size + AlignSize(size);
    MarkUnpacked(dest, d, size);
    UnpackedBytes(was, copied, dest[..], d, n);
    BytesPlaced(was, dest[..], d, n, size);
  }

  /** The bytes of an unpacked node: type, sub-type, length, payload and zeros. */
  ghost predicate UnpackedAt(b: seq<UINT8>, d: nat, n: Node, size: nat)
  {
    && size % 4 == 0 && 4 + |n.data| <= size < 8 + |n.data| && d + size <= |b|
    && b[d] >= 0x80 && b[d] % 0x80 == n.kind % 0x80 && b[d + 1] == n.sub
    && b[d + 2] == size % 256 && b[d + 3] == size / 256 % 256
    && b[d + 4..d + 4 + |n.data|] == n.data
    && forall k | d + 4 + |n.data| <= k < d + size :: b[k] == 0
  }

  /** What a written node's bytes are, one by one. */
  lemma BytesPlaced(was: seq<UINT8>, now: seq<UINT8>, d: nat, n: Node, size: nat)
    requires size == Length(Unpacked(n)) && d + size <= |was| == |now|
    requires now == was[..d] + EncodeNode(Unpacked(n)) + was[d + size..]
    ensures UnpackedAt(now, d, n, size)
  {
    UnpackedMeans(n);
    var u := Unpacked(n);
    var e := EncodeNode(u);
    assert now[d..d + size] == e;
    assert forall k :: 0 <= k < size ==> now[d + k] == e[k];
    assert e[4..] == u.data;
    hide Unpacked, AlignSize;
    assert now[d + 4..d + 4 + |n.data|] == u.data[..|n.data|];
    forall k | d + 4 + |n.data| <= k < d + size ensures now[k] == 0 {
      assert now[k] == e[k - d] == u.data[k - d - 4];
    }
  }

  /** The node header at `d` with the length `size` and the unpacked bit set. */
  function Marked(b: seq<UINT8>, d: nat, size: nat): (m: seq<UINT8>)
    requires d + 4 <= |b|
  {
    b[d + 2 := size % 256][d + 3 := size / 256 % 256][d := b[d] % 0x80 + 0x80]
  }

  method MarkUnpacked(dest: array<UINT8>, d: nat, size: nat)
    requires d + 4 <= dest.Length
    modifies dest
    ensures dest[..] == Marked(old(dest[..]), d, size)
  {
    dest[d + 2], dest[d + 3] := size % 256, size / 256 % 256;
    dest[d] := dest[d] % 0x80 + 0x80;
  }

  lemma NodeHeader(n: Node)
    ensures EncodeNode(n)[0] == n.kind
    ensures Length(Unpacked(n)) == Length(n) + AlignSize(Length(n))
  {
  }

  lemma EncodedLength(b: seq<UINT8>, p: nat, n: Node)
    requires Length(n) < 0x10000 && p + Length(n) <= |b| && b[p..p + Length(n)] == EncodeNode(n)
    ensures NodeLength(b, p) == Length(n)
  {
    var e := EncodeNode(n);
    assert b[p + 2] == e[2] && b[p + 3] == e[3];
    LengthBytes(Length(n));
  }

  lemma UnpackedBytes(was: seq<UINT8>, copied: seq<UINT8>, now: seq<UINT8>, d: nat, n: Node)
    requires d + 4 <= d + Length(Unpacked(n)) <= |was| == |copied| == |now|
    requires was[d..d + Length(Unpacked(n))] == Zeros(Length(Unpacked(n)))
    requires copied == was[..d] + EncodeNode(n) + was[d + Length(n)..]
    requires now == Marked(copied, d, Length(Unpacked(n)))
    ensures now == was[..d] + EncodeNode(Unpacked(n)) + was[d + Length(Unpacked(n))..]
  {
    var u := Unpacked(n);
    var l, m := Length(u), Length(n);
    var e, f := EncodeNode(n), EncodeNode(u);
    hide AlignSize;
    assert u.data == n.data + Zeros(l - m);
    forall k | 0 <= k < |was|
      ensures now[k] == (was[..d] + f + was[d + l..])[k]
    {
      if d + 4 <= k < d + m {
        assert copied[k] == e[k - d] == n.data[k - d - 4];
      } else if d + m <= k < d + l {
        assert copied[k] == was[k] == was[d..d + l][k - d] == 0;
        assert f[k - d] == u.data[k - d - 4];
      } else if d <= k < d + 4 {
        assert copied[k] == e[k - d];
      }
    }
  }

  /** The unpacked path, packed in a buffer of its own; or null when the pool has no room. */
  method UnpackDevicePath(mem: array<UINT8>, p: nat, granted: bool, ghost ns: seq<Node>)
    returns (unpacked: array?<UINT8>)
    requires Holds(mem[..], p, ns)
    ensures unpacked != null <==> granted
    ensures granted ==> fresh(unpacked) && unpacked[..] == Encode(UnpackedPath(ns))
    ensures granted && (forall k :: 0 <= k < |ns| ==> 4 + |ns[k].data| <= 65532) ==> ShowsUnpacked(unpacked[..], ns)
  {
    hide *;
    var size := UnpackedSize(mem, p, ns);
    if !granted {
      return null;
    }
    var bytes := new UINT8[size](_ => 0);
    assert bytes[..] == seq(size, _ => 0);
    CopyNodes(bytes, mem, p, ns);
    UnpackedNodes(mem[..], p, ns);
    unpacked := bytes;
  }

  /** The copy pass. */
  method CopyNodes(bytes: array<UINT8>, mem: array<UINT8>, p: nat, ghost ns: seq<Node>)
    requires bytes != mem && Holds(mem[..], p, ns)
    requires bytes[..] == seq(Size(UnpackedPath(ns)), _ => 0)
    modifies bytes
    ensures bytes[..] == Encode(UnpackedPath(ns))
  {
    hide Holds, AtEnd, Size, AlignSize, Unpacked, EncodeNode, UnpackedPath, Progress, Encode, NodeLength, IsEnd;
    hide UnpackedAt;
    ghost var b := mem[..];
    ghost var rest := ns;
    var src, dest := p, 0;
    HoldsAt(b, src, rest);
    ProgressStarts(bytes[..], ns);
    while true
      invariant 0 <= src && 0 <= dest && Holds(b, src, rest) && rest != []
      invariant mem[..] == b && Progress(bytes[..], dest, rest, ns)
      decreases |rest|
    {
      HoldsAt(b, src, rest);
      HoldsNode(b, src, rest);
      ProgressRoom(bytes[..], dest, rest, ns);
      ghost var was := bytes[..];
      var size := UnpackNode(bytes, dest, mem, src, rest[0]);
      ProgressStep(was, bytes[..], dest, rest, ns);
      dest := dest + size;
      if AtEnd(mem[..], src) {
        ProgressEnds(bytes[..], dest, rest[1..], ns);
        break;
      }
      HoldsNext(b, src, rest);
      src := src + NodeLength(mem[..], src);
      rest := rest[1..];
    }
  }

  /** The nodes before `rest` are written up to `dest`, and zeros follow for the others. */
  predicate Progress(b: seq<UINT8>, dest: nat, rest: seq<Node>, ns: seq<Node>)
  {
    dest + Size(UnpackedPath(rest)) == |b| && b[dest..] == Zeros(|b| - dest)
    && b[..dest] + Encode(UnpackedPath(rest)) == Encode(UnpackedPath(ns))
  }

  lemma ProgressStarts(b: seq<UINT8>, ns: seq<Node>)
    requires b == Zeros(Size(UnpackedPath(ns)))
    ensures Progress(b, 0, ns, ns)
  {
    assert b[..0] + Encode(UnpackedPath(ns)) == Encode(UnpackedPath(ns));
  }

  lemma ProgressRoom(b: seq<UINT8>, dest: nat, rest: seq<Node>, ns: seq<Node>)
    requires rest != [] && Progress(b, dest, rest, ns)
    ensures dest + Length(Unpacked(rest[0])) <= |b|
    ensures b[dest..dest + Length(Unpacked(rest[0]))] == Zeros(Length(Unpacked(rest[0])))
  {
    hide Unpacked;
    var n := Length(Unpacked(rest[0]));
    assert b[dest..dest + n] == b[dest..][..n];
  }

  lemma ProgressStep(b: seq<UINT8>, now: seq<UINT8>, dest: nat, rest: seq<Node>, ns: seq<Node>)
    requires rest != [] && Progress(b, dest, rest, ns) && dest + Length(Unpacked(rest[0])) <= |b|
    requires now == b[..dest] + EncodeNode(Unpacked(rest[0])) + b[dest + Length(Unpacked(rest[0]))..]
    ensures Progress(now, dest + Length(Unpacked(rest[0])), rest[1..], ns)
  {
    hide Unpacked, EncodeNode;
    var u := Unpacked(rest[0]);
    var n := dest + Length(u);
    assert UnpackedPath(rest)[1..] == UnpackedPath(rest[1..]);
    assert Encode(UnpackedPath(rest)) == EncodeNode(u) + Encode(UnpackedPath(rest[1..]));
    assert now[..n] == b[..dest] + EncodeNode(u);
    assert now[n..] == b[dest..][Length(u)..];
  }

  lemma ProgressEnds(b: seq<UINT8>, dest: nat, rest: seq<Node>, ns: seq<Node>)
    requires rest == [] && Progress(b, dest, rest, ns)
    ensures b == Encode(UnpackedPath(ns))
  {
  }

  lemma HoldsNode(b: seq<UINT8>, p: nat, ns: seq<Node>)
    requires Holds(b, p, ns)
    ensures ns != [] && Length(ns[0]) < 0x10000 && p + Length(ns[0]) <= |b|
    ensures b[p..p + Length(ns[0])] == EncodeNode(ns[0])
  {
    HoldsStep(b, p, ns);
  }

  lemma UnpackedIsPath(ns: seq<Node>)
    requires Path(ns)
    ensures Path(UnpackedPath(ns))
  {
    var us := UnpackedPath(ns);
    hide Unpacked, UnpackedPath, IsEnd;
    forall k | 0 <= k < |ns|
      ensures IsEnd(us[k]) == IsEnd(ns[k])
    {
      UnpackedEnd(ns[k]);
    }
  }

  lemma UnpackedEnd(n: Node)
    ensures IsEnd(Unpacked(n)) == IsEnd(n)
  {
  }

  /**
   Walking the unpacked bytes gives the unpacked nodes exactly if no rounded length overflows its
   sixteen bits; a node of 65533 to 65535 bytes gets the length zero.
   */
  lemma UnpackedWalks(ns: seq<Node>)
    requires Path(ns) && Fits(ns)
    ensures Walk(Encode(UnpackedPath(ns)), 0) == Some(UnpackedPath(ns))
       <==> forall k :: 0 <= k < |ns| ==> Length(ns[k]) <= 65532
  {
    var us := UnpackedPath(ns);
    hide Walk, Encode, Path, UnpackedPath, Holds, Fits;
    UnpackedIsPath(ns);
    WalkIsHolds(Encode(us), 0, us);
    HoldsEncoded(us);
    UnpackedFits(ns);
  }

  /** The node `u` is `n` unpacked: bit 7 of its type set, and up to three zeros after its payload. */
  ghost predicate Unpacks(n: Node, u: Node)
  {
    && u.kind >= 0x80 && u.kind % 0x80 == n.kind % 0x80 && u.sub == n.sub
    && |n.data| <= |u.data| <= |n.data| + 3 && (4 + |u.data|) % 4 == 0
    && u.data[..|n.data|] == n.data && forall j :: |n.data| <= j < |u.data| ==> u.data[j] == 0
  }

  /** Walking the buffer finds the nodes `ns`, each unpacked. */
  ghost predicate ShowsUnpacked(b: seq<UINT8>, ns: seq<Node>)
  {
    var r := Walk(b, 0);
    r.Some? && |r.value| == |ns| && forall k :: 0 <= k < |ns| ==> Unpacks(ns[k], r.value[k])
  }

  lemma UnpackedNodes(b: seq<UINT8>, p: nat, ns: seq<Node>)
    requires Holds(b, p, ns)
    ensures (forall k :: 0 <= k < |ns| ==> 4 + |ns[k].data| <= 65532) ==> ShowsUnpacked(Encode(UnpackedPath(ns)), ns)
  {
    HoldsBytes(b, p, ns);
    LongNodes(ns);
    hide Unpacked, Unpacks, Walk, Encode, Holds, Length;
    UnpackedWalks(ns);
    forall k | 0 <= k < |ns| ensures Unpacks(ns[k], UnpackedPath(ns)[k]) {
      UnpackedMeans(ns[k]);
    }
  }

  lemma LongNodes(ns: seq<Node>)
    ensures (forall k :: 0 <= k < |ns| ==> 4 + |ns[k].data| <= 65532)
       <==> forall k :: 0 <= k < |ns| ==> Length(ns[k]) <= 65532
  {
    assert forall k :: 0 <= k < |ns| ==> Length(ns[k]) == 4 + |ns[k].data|;
  }

  /** The node at place `k` of what is found in the unpacked bytes. */
  lemma UnpackedNodeAt(b: seq<UINT8>, p: nat, ns: seq<Node>, k: nat)
    requires Holds(b, p, ns) && k < |ns| && forall k :: 0 <= k < |ns| ==> 4 + |ns[k].data| <= 65532
    ensures var r := Walk(Encode(UnpackedPath(ns)), 0);
      && r.Some? && |r.value| == |ns|
      && var (n, u) := (ns[k], r.value[k]);
         && u.kind >= 0x80 && u.kind % 0x80 == n.kind % 0x80 && u.sub == n.sub
         && |n.data| <= |u.data| <= |n.data| + 3 && (4 + |u.data|) % 4 == 0
         && u.data[..|n.data|] == n.data && forall j :: |n.data| <= j < |u.data| ==> u.data[j] == 0
  {
    UnpackedNodes(b, p, ns);
    assert ShowsUnpacked(Encode(UnpackedPath(ns)), ns);
    hide Walk, Encode, UnpackedPath, Holds;
    assert Unpacks(ns[k], Walk(Encode(UnpackedPath(ns)), 0).value[k]);
  }

  /** A path whose unpacked copy cannot be walked. */
  lemma LongNodeIsLost()
    ensures var ns := [Node(1, 1, Zeros(65529)), Node(0x7F, 0xFF, [])];
            Path(ns) && Fits(ns) && Walk(Encode(UnpackedPath(ns)), 0) != Some(UnpackedPath(ns))
  {
    var ns := [Node(1, 1, Zeros(65529)), Node(0x7F, END_ENTIRE, [])];
    assert Path(ns) && Fits(ns) && Length(ns[0]) == 65533;
    hide *;
    UnpackedWalks(ns);
  }

  lemma UnpackedFits(ns: seq<Node>)
    ensures Fits(UnpackedPath(ns)) <==> forall k :: 0 <= k < |ns| ==> Length(ns[k]) <= 65532
  {
    var us := UnpackedPath(ns);
    hide Unpacked, UnpackedPath;
    forall k | 0 <= k < |ns|
      ensures Length(us[k]) < 0x10000 <==> Length(ns[k]) <= 65532
    {
      UnpackedLength(ns[k]);
    }
  }

  lemma HoldsEncoded(ns: seq<Node>)
    ensures Holds(Encode(ns), 0, ns) <==> Path(ns) && Fits(ns)
  {
    hide Path, Fits, Encode;
    assert Encode(ns)[0..Size(ns)] == Encode(ns);
  }

  lemma UnpackedLength(n: Node)
    ensures Length(n) <= Length(Unpacked(n)) < Length(n) + MIN_ALIGNMENT_SIZE
    ensures Length(Unpacked(n)) % MIN_ALIGNMENT_SIZE == 0
  {
  }

  // Instances: the parts of a path between its end nodes.

  /** The place of the first node of end type. */
  function FirstEnd(ns: seq<Node>): (e: nat)
    requires Path(ns)
    ensures e < |ns| && IsEndType(ns[e])
    ensures forall k :: 0 <= k < e ==> !IsEndType(ns[k])
  {
    if IsEndType(ns[0]) then 0 else assert Path(ns[1..]); 1 + FirstEnd(ns[1..])
  }

  function Instances(ns: seq<Node>): seq<seq<Node>>
    requires Path(ns)
    decreases |ns|
  {
    var e := FirstEnd(ns);
    [ns[..e]] + if e == |ns| - 1 then [] else assert Path(ns[e + 1..]); Instances(ns[e + 1..])
  }

  const MAX_COUNT := 512

  /** Where the counting loop of `DevicePathInstance` stops, having passed `count` nodes before `ns`. */
  function Stop(ns: seq<Node>, count: nat): (e: nat)
    requires Path(ns)
    ensures e < |ns|
  {
    if IsEndType(ns[0]) || count > MAX_COUNT then 0 else assert Path(ns[1..]); 1 + Stop(ns[1..], count + 1)
  }

  lemma {:induction false} StopIs(ns: seq<Node>, count: nat)
    requires Path(ns) && count <= MAX_COUNT + 1
    ensures Stop(ns, count) == if FirstEnd(ns) + count <= MAX_COUNT + 1 then FirstEnd(ns) else MAX_COUNT + 1 - count
    decreases |ns|
  {
    if !IsEndType(ns[0]) && count <= MAX_COUNT {
      assert Path(ns[1..]);
      StopIs(ns[1..], count + 1);
    }
  }

  /** What repeated calls of `DevicePathInstance` return. */
  function Iterated(ns: seq<Node>): seq<seq<Node>>
    requires Path(ns)
    decreases |ns|
  {
    var e := Stop(ns, 0);
    [ns[..e]] + if ns[e].sub == END_ENTIRE then [] else assert Path(ns[e + 1..]); Iterated(ns[e + 1..])
  }

  lemma InstancesStep(ns: seq<Node>)
    requires Path(ns)
    ensures var e := FirstEnd(ns);
            if e == |ns| - 1 then Instances(ns) == [ns[..e]]
            else Path(ns[e + 1..]) && Instances(ns) == [ns[..e]] + Instances(ns[e + 1..])
  {
    hide IsEnd, IsEndType, Path, FirstEnd;
    if FirstEnd(ns) < |ns| - 1 {
      PathAfter(ns, FirstEnd(ns));
    }
  }

  lemma IteratedStep(ns: seq<Node>)
    requires Path(ns)
    ensures var e := Stop(ns, 0);
            if ns[e].sub == END_ENTIRE then Iterated(ns) == [ns[..e]]
            else Path(ns[e + 1..]) && Iterated(ns) == [ns[..e]] + Iterated(ns[e + 1..])
  {
    hide IsEnd, Stop;
    LastIsEnd(ns);
    if Stop(ns, 0) < |ns| - 1 {
      PathAfter(ns, Stop(ns, 0));
    }
  }

  /** The repeated calls find the instances exactly if none has more than 513 nodes. */
  lemma {:induction false} IteratedIsInstances(ns: seq<Node>)
    requires Path(ns)
    ensures Iterated(ns) == Instances(ns) <==> forall k :: 0 <= k < |Instances(ns)| ==> |Instances(ns)[k]| <= 513
    decreases |ns|
  {
    hide Path, IsEnd, IsEndType, FirstEnd, Stop, ShortInstances, Instances, Iterated;
    var e := FirstEnd(ns);
    StopIs(ns, 0);
    EndIsLast(ns, e);
    ShortStep(ns);
    InstancesStep(ns);
    IteratedStep(ns);
    if e > MAX_COUNT + 1 {
      assert |Instances(ns)[0]| > MAX_COUNT + 1 == |Iterated(ns)[0]|;
    } else if e < |ns| - 1 {
      IteratedIsInstances(ns[e + 1..]);
      assert Iterated(ns)[1..] == Iterated(ns[e + 1..]);
      assert Instances(ns)[1..] == Instances(ns[e + 1..]);
    }
  }

  predicate ShortInstances(ns: seq<Node>)
    requires Path(ns)
  {
    AllShort(Instances(ns))
  }

  lemma ShortStep(ns: seq<Node>)
    requires Path(ns)
    ensures var e := FirstEnd(ns);
            (e < |ns| - 1 ==> Path(ns[e + 1..]))
            && (ShortInstances(ns) <==> e <= MAX_COUNT + 1 && (e < |ns| - 1 ==> ShortInstances(ns[e + 1..])))
  {
    hide Path, FirstEnd, Instances, AllShort, IsEnd, IsEndType;
    InstancesStep(ns);
    var e := FirstEnd(ns);
    if e < |ns| - 1 {
      ShortList(ns[..e], Instances(ns[e + 1..]));
    } else {
      ShortList(ns[..e], []);
    }
  }

  predicate AllShort(parts: seq<seq<Node>>)
  {
    forall k :: 0 <= k < |parts| ==> |parts[k]| <= MAX_COUNT + 1
  }

  lemma ShortList(part: seq<Node>, rest: seq<seq<Node>>)
    ensures AllShort([part] + rest) <==> |part| <= MAX_COUNT + 1 && AllShort(rest)
    ensures AllShort([part]) <==> |part| <= MAX_COUNT + 1
  {
    var all := [part] + rest;
    assert all[0] == part;
    assert forall k {:trigger rest[k]} :: 0 <= k < |rest| ==> rest[k] == all[k + 1];
  }

  lemma EndIsLast(ns: seq<Node>, e: nat)
    requires Path(ns) && e < |ns| && IsEndType(ns[e])
    ensures ns[e].sub == END_ENTIRE <==> e == |ns| - 1
  {
    assert IsEnd(ns[e]) <==> e == |ns| - 1;
  }

  lemma PathAfter(ns: seq<Node>, e: nat)
    requires Path(ns) && e < |ns| - 1
    ensures Path(ns[e + 1..])
  {
  }

  // Instances joined by their end nodes.

  function Joined(parts: seq<seq<Node>>, ends: seq<Node>): seq<Node>
    requires |parts| == |ends|
  {
    if parts == [] then [] else parts[0] + [ends[0]] + Joined(parts[1..], ends[1..])
  }

  predicate Separates(ends: seq<Node>)
  {
    Path(ends) && forall k :: 0 <= k < |ends| ==> IsEndType(ends[k])
  }

  predicate NoEnds(part: seq<Node>)
  {
    forall k :: 0 <= k < |part| ==> !IsEndType(part[k])
  }

  /** The instances of a path are the parts it was joined from. */
  lemma {:induction false} InstancesOfJoined(parts: seq<seq<Node>>, ends: seq<Node>)
    requires |parts| == |ends| && Separates(ends)
    requires forall k :: 0 <= k < |parts| ==> NoEnds(parts[k])
    ensures Path(Joined(parts, ends)) && Instances(Joined(parts, ends)) == parts
    decreases |parts|
  {
    hide IsEndType, IsEnd, Instances, Path, Joined;
    SeparatesStep(parts, ends);
    var ns := Joined(parts, ends);
    var e := |parts[0]|;
    if |parts| > 1 {
      InstancesOfJoined(parts[1..], ends[1..]);
      JoinedPath(parts[0], ends[0], Joined(parts[1..], ends[1..]));
    }
    FirstEndIs(ns, e);
    InstancesStep(ns);
    assert parts == [parts[0]] + parts[1..];
  }

  lemma SeparatesStep(parts: seq<seq<Node>>, ends: seq<Node>)
    requires |parts| == |ends| && Separates(ends) && (forall k :: 0 <= k < |parts| ==> NoEnds(parts[k]))
    ensures parts != [] && IsEndType(ends[0])
    ensures var ns := Joined(parts, ends);
            var e := |parts[0]|;
            ns == parts[0] + [ends[0]] + Joined(parts[1..], ends[1..])
            && ns[..e] == parts[0] && ns[e] == ends[0] && ns[e + 1..] == Joined(parts[1..], ends[1..])
    ensures |parts| > 1 ==> Separates(ends[1..]) && !IsEnd(ends[0])
    ensures |parts| == 1 ==> Joined(parts[1..], ends[1..]) == [] && Path(Joined(parts, ends))
  {
    if |parts| == 1 {
      assert Joined(parts, ends) == parts[0] + [ends[0]];
    }
  }

  lemma JoinedPath(part: seq<Node>, end: Node, rest: seq<Node>)
    requires NoEnds(part) && IsEndType(end) && !IsEnd(end) && Path(rest)
    ensures Path(part + [end] + rest)
  {
    var ns := part + [end] + rest;
    forall k | 0 <= k < |ns| - 1
      ensures !IsEnd(ns[k])
    {
      if k < |part| {
        assert !IsEndType(part[k]);
      }
    }
  }

  lemma {:induction false} FirstEndIs(ns: seq<Node>, e: nat)
    requires Path(ns) && e < |ns| && IsEndType(ns[e]) && NoEnds(ns[..e])
    ensures FirstEnd(ns) == e
  {
    assert forall k :: 0 <= k < e ==> ns[k] == ns[..e][k];
  }

  // Appending an instance.

  /** The path `s` with its end turned into an instance end, and `t` after it. */
  function Appended(s: seq<Node>, t: seq<Node>): seq<Node>
    requires s != []
  {
    s[..|s| - 1] + [Node(s[|s| - 1].kind, END_INSTANCE, s[|s| - 1].data)] + t
  }

  lemma AppendedPath(s: seq<Node>, t: seq<Node>)
    requires Path(s) && Path(t)
    ensures Path(Appended(s, t))
    ensures var (was, now) := (s[|s| - 1], Appended(s, t)[|s| - 1]);
      was.sub == 0xFF && now.sub == 0x01 && now.kind == was.kind && now.kind % 0x80 == 0x7F && now.data == was.data
  {
    var ns := Appended(s, t);
    forall k | 0 <= k < |ns| - 1
      ensures !IsEnd(ns[k])
    {
      if k < |s| - 1 {
        assert !IsEnd(s[k]);
      }
    }
  }

  lemma AppendedAt(s: seq<Node>, t: seq<Node>, e: nat)
    requires Path(s) && Path(t) && e < |s|
    ensures t != [] && |Appended(s, t)| == |s| + |t| && Path(Appended(s, t))
    ensures Appended(s, t)[..e] == s[..e] && IsEndType(Appended(s, t)[e]) == IsEndType(s[e])
    ensures e < |s| - 1 ==> Path(s[e + 1..]) && Appended(s, t)[e] == s[e]
    ensures e < |s| - 1 ==> Appended(s, t)[e + 1..] == Appended(s[e + 1..], t)
    ensures e == |s| - 1 ==> Appended(s, t)[e].sub == END_INSTANCE && Appended(s, t)[e + 1..] == t
  {
    AppendedPath(s, t);
    if e < |s| - 1 {
      PathAfter(s, e);
    }
    hide Path;
  }

  /** Appending appends the list of instances. */
  lemma {:induction false} AppendedInstances(s: seq<Node>, t: seq<Node>)
    requires Path(s) && Path(t)
    ensures Path(Appended(s, t)) && Instances(Appended(s, t)) == Instances(s) + Instances(t)
    decreases |s|
  {
    hide Path, Appended, IsEndType, FirstEnd, Instances;
    var e := FirstEnd(s);
    AppendedAt(s, t, e);
    var ns := Appended(s, t);
    assert forall k :: 0 <= k < e ==> s[..e][k] == s[k];
    FirstEndIs(ns, e);
    InstancesStep(s);
    InstancesStep(ns);
    if e < |s| - 1 {
      AppendedInstances(s[e + 1..], t);
    }
  }

  /** The calls go through the whole path: none of the stops after 513 nodes falls on sub-type 0xFF. */
  predicate Reaches(ns: seq<Node>)
    requires Path(ns)
    decreases |ns|
  {
    var e := Stop(ns, 0);
    e == |ns| - 1 || (ns[e].sub != END_ENTIRE && assert Path(ns[e + 1..]); Reaches(ns[e + 1..]))
  }

  lemma {:induction false} ShortReaches(ns: seq<Node>)
    requires Path(ns) && ShortInstances(ns)
    ensures Reaches(ns)
    decreases |ns|
  {
    hide Path, FirstEnd, Stop, IsEndType, IsEnd, ShortInstances;
    var e := FirstEnd(ns);
    StopIs(ns, 0);
    EndIsLast(ns, e);
    ShortStep(ns);
    if e < |ns| - 1 {
      ShortReaches(ns[e + 1..]);
    }
  }

  lemma {:induction false} StopAppended(s: seq<Node>, t: seq<Node>, count: nat)
    requires Path(s) && Path(Appended(s, t))
    ensures Stop(Appended(s, t), count) == Stop(s, count)
    decreases |s|
  {
    var ns := Appended(s, t);
    if |s| > 1 && !IsEndType(s[0]) && count <= MAX_COUNT {
      PathAfter(s, 0);
      PathAfter(ns, 0);
      assert ns[1..] == Appended(s[1..], t);
      StopAppended(s[1..], t, count + 1);
    }
  }

  /** For the calls as they are: the appended instances are found exactly if the calls reach the end of `s`. */
  lemma {:induction false} AppendedIterated(s: seq<Node>, t: seq<Node>)
    requires Path(s) && Path(t)
    ensures Path(Appended(s, t))
    ensures Iterated(Appended(s, t)) == Iterated(s) + if Reaches(s) then Iterated(t) else []
    decreases |s|
  {
    hide Path, Appended, IsEndType, Stop, Iterated;
    var e := Stop(s, 0);
    AppendedAt(s, t, e);
    var ns := Appended(s, t);
    StopAppended(s, t, 0);
    LastIsEnd(s);
    IteratedStep(s);
    IteratedStep(ns);
    if e < |s| - 1 && s[e].sub != END_ENTIRE {
      AppendedIterated(s[e + 1..], t);
    }
  }

  lemma LastIsEnd(ns: seq<Node>)
    requires Path(ns)
    ensures ns[|ns| - 1].sub == END_ENTIRE
  {
  }

  /** The instance count adds up exactly if the calls reach the end of the first path. */
  lemma AppendedCount(s: seq<Node>, t: seq<Node>)
    requires Path(s) && Path(t)
    ensures Path(Appended(s, t))
    ensures |Iterated(Appended(s, t))| == |Iterated(s)| + |Iterated(t)| <==> Reaches(s)
  {
    hide Path, Appended;
    AppendedIterated(s, t);
  }

  /** One instance of 514 nodes: the stop falls on its last node, which has sub-type 0xFF. */
  function LongInstance(): (ns: seq<Node>)
    ensures |ns| == 515 && Path(ns) && FirstEnd(ns) == 514
    ensures ns[513] == Node(1, 0xFF, [])
  {
    var end := Node(0x7F, END_ENTIRE, []);
    var ns := seq(MAX_COUNT + 1, _ => Node(1, 1, [])) + [Node(1, END_ENTIRE, []), end];
    assert IsEnd(end) && forall k :: 0 <= k < |ns| - 1 ==> !IsEndType(ns[k]);
    ns
  }

  /** On that path the calls return neither the instance nor, once a path is joined to it, the right count. */
  lemma LongInstanceIsCut(t: seq<Node>)
    requires Path(t)
    ensures Iterated(LongInstance()) != Instances(LongInstance())
    ensures Path(Appended(LongInstance(), t))
    ensures |Iterated(Appended(LongInstance(), t))| < |Iterated(LongInstance())| + |Iterated(t)|
  {
    var ns := LongInstance();
    hide LongInstance, Path, Appended, Instances, Iterated, FirstEnd, Stop;
    StopIs(ns, 0);
    InstancesStep(ns);
    IteratedStep(ns);
    assert Instances(ns)[0] == ns[..MAX_COUNT + 2] && Iterated(ns)[0] == ns[..MAX_COUNT + 1];
    IteratedStep(t);
    AppendedIterated(ns, t);
  }

  // The methods over buffers.

  lemma EncodeStep(ns: seq<Node>)
    requires ns != []
    ensures Encode(ns) == EncodeNode(ns[0]) + Encode(ns[1..]) && Size(ns) == Length(ns[0]) + Size(ns[1..])
  {
  }

  lemma {:induction false} EncodeSplit(ns: seq<Node>, e: nat)
    requires e <= |ns|
    ensures Encode(ns) == Encode(ns[..e]) + Encode(ns[e..])
    ensures Size(ns) == Size(ns[..e]) + Size(ns[e..])
  {
    hide EncodeNode, Length;
    if e == 0 {
      assert ns[..0] == [] && ns[0..] == ns;
    } else {
      EncodeSplit(ns[1..], e - 1);
      assert ns[1..][..e - 1] == ns[..e][1..];
      assert ns[1..][e - 1..] == ns[e..];
      hide Encode, Size;
      EncodeStep(ns);
      EncodeStep(ns[..e]);
    }
  }

  lemma HoldsPrefix(b: seq<UINT8>, p: nat, ns: seq<Node>, e: nat)
    requires Holds(b, p, ns) && e <= |ns|
    ensures p + Size(ns[..e]) <= |b| && b[p..p + Size(ns[..e])] == Encode(ns[..e])
  {
    EncodeSplit(ns, e);
    hide Encode, Size, Path, Fits;
    assert b[p..p + Size(ns[..e])] == b[p..p + Size(ns)][..Size(ns[..e])];
  }

  /** The counting loop has passed `passed` nodes and is at offset `at`. */
  predicate Counting(b: seq<UINT8>, p: nat, ns: seq<Node>, passed: nat, at: nat)
  {
    Path(ns) && passed < |ns| && at == p + Size(ns[..passed]) && Holds(b, at, ns[passed..])
    && Stop(ns, 0) == passed + Stop(ns[passed..], passed)
  }

  lemma CountingStarts(b: seq<UINT8>, p: nat, ns: seq<Node>)
    requires Holds(b, p, ns)
    ensures Counting(b, p, ns, 0, p)
  {
    hide Encode, Fits;
    assert ns[..0] == [] && ns[0..] == ns;
  }

  lemma CountingAt(b: seq<UINT8>, p: nat, ns: seq<Node>, passed: nat, at: nat)
    requires Counting(b, p, ns, passed, at)
    ensures passed < |ns| && at + 4 <= |b| && p <= at
    ensures AtEndType(b, at) == IsEndType(ns[passed]) && b[at + 1] == ns[passed].sub
    ensures IsEnd(ns[passed]) ==> IsEndType(ns[passed])
    ensures NodeLength(b, at) == Length(ns[passed])
    ensures IsEndType(ns[passed]) || passed > MAX_COUNT ==> Stop(ns, 0) == passed
  {
    HoldsStep(b, at, ns[passed..]);
    hide Encode, Fits, Size, Holds;
    StopHere(ns[passed..], passed);
  }

  lemma CountingNext(b: seq<UINT8>, p: nat, ns: seq<Node>, passed: nat, at: nat)
    requires Counting(b, p, ns, passed, at) && !IsEnd(ns[passed])
    ensures passed + 1 < |ns| && Holds(b, at + Length(ns[passed]), ns[passed + 1..])
    ensures at + Length(ns[passed]) == p + Size(ns[..passed + 1])
    ensures !(IsEndType(ns[passed]) || passed > MAX_COUNT)
        ==> Counting(b, p, ns, passed + 1, at + Length(ns[passed]))
  {
    var rest := ns[passed..];
    HoldsStep(b, at, rest);
    hide Encode, Fits, Size, Holds, Stop;
    StopHere(rest, passed);
    SizeNext(ns, passed);
    assert rest[1..] == ns[passed + 1..];
  }

  /** The bytes of the first `e` nodes, and where the path goes on after the node that stopped the loop. */
  predicate InstanceAt(b: seq<UINT8>, p: nat, ns: seq<Node>, e: nat, size: nat, next: Option<nat>)
    requires e < |ns|
  {
    size == Size(ns[..e]) && p + size <= |b| && b[p..p + size] == Encode(ns[..e])
    && if ns[e].sub == END_ENTIRE then next.None?
       else next == Some(p + Size(ns[..e + 1])) && Holds(b, next.value, ns[e + 1..])
  }

  /**
   The instance at `dp`: its start and size, and where the next one starts; with no path left, none.
   Counting stops it after 513 nodes.
   */
  method DevicePathInstance(mem: array<UINT8>, dp: Option<nat>, ghost ns: seq<Node>)
    returns (start: Option<nat>, next: Option<nat>, size: nat)
    requires dp.Some? ==> Holds(mem[..], dp.value, ns)
    ensures start == dp
    ensures dp.None? ==> next.None?
    ensures dp.Some? ==> Path(ns) && InstanceAt(mem[..], dp.value, ns, Stop(ns, 0), size, next)
  {
    if dp.None? {
      return None, None, 0;
    }
    hide *;
    var at := InstanceEnd(mem, dp.value, ns);
    var following := at + NodeLength(mem[..], at);
    next := if mem[at + 1] == END_ENTIRE then None else Some(following);
    size := at - dp.value;
    start := dp;
    CountingEnds(mem[..], dp.value, ns, Stop(ns, 0), at, next);
  }

  /** The counting loop: the offset of the node that stops it. */
  method InstanceEnd(mem: array<UINT8>, p: nat, ghost ns: seq<Node>) returns (at: nat)
    requires Holds(mem[..], p, ns)
    ensures Path(ns) && Counting(mem[..], p, ns, Stop(ns, 0), at) && p <= at && at + 4 <= mem.Length
    ensures NodeLength(mem[..], at) == Length(ns[Stop(ns, 0)]) && mem[at + 1] == ns[Stop(ns, 0)].sub
  {
    hide *;
    ghost var b := mem[..];
    HoldsIsPath(b, p, ns);
    CountingStarts(b, p, ns);
    at := p;
    var count := 0;
    while true
      invariant 0 <= count && Counting(b, p, ns, count, at)
      decreases |ns| - count
    {
      CountingAt(b, p, ns, count, at);
      var following := at + NodeLength(mem[..], at);
      if AtEndType(mem[..], at) {
        break;
      }
      if count > MAX_COUNT {
        break;
      }
      CountingNext(b, p, ns, count, at);
      at := following;
      count := count + 1;
    }
  }

  lemma CountingEnds(b: seq<UINT8>, p: nat, ns: seq<Node>, e: nat, at: nat, next: Option<nat>)
    requires Holds(b, p, ns) && Counting(b, p, ns, e, at)
    requires next == if ns[e].sub == END_ENTIRE then None else Some(at + Length(ns[e]))
    ensures p <= at && Path(ns) && InstanceAt(b, p, ns, e, at - p, next)
  {
    hide Holds, Stop, Encode, Size;
    HoldsPrefix(b, p, ns, e);
    if ns[e].sub != END_ENTIRE {
      CountingNext(b, p, ns, e, at);
    }
  }

  lemma StopHere(ns: seq<Node>, count: nat)
    requires Path(ns)
    ensures Path(ns) && (if IsEndType(ns[0]) || count > MAX_COUNT then Stop(ns, count) == 0
                         else |ns| > 1 && Path(ns[1..]) && Stop(ns, count) == 1 + Stop(ns[1..], count + 1))
  {
  }

  lemma SizeNext(ns: seq<Node>, k: nat)
    requires k < |ns|
    ensures Size(ns[..k + 1]) == Size(ns[..k]) + Length(ns[k])
  {
    EncodeSplit(ns[..k + 1], k);
    assert ns[..k + 1][..k] == ns[..k] && ns[..k + 1][k..] == [ns[k]];
    SizeOne([ns[k]]);
  }

  lemma HoldsIsPath(b: seq<UINT8>, p: nat, ns: seq<Node>)
    requires Holds(b, p, ns)
    ensures Path(ns)
  {
  }

  /** The number of instances the calls find. */
  method DevicePathInstanceCount(mem: array<UINT8>, p: nat, ghost ns: seq<Node>) returns (count: nat)
    requires Holds(mem[..], p, ns)
    ensures Path(ns) && count == |Iterated(ns)|
  {
    hide Holds, Stop, Iterated, Encode, Size;
    ghost var b := mem[..];
    ghost var rest := ns;
    var dp := Some(p);
    count := 0;
    HoldsIsPath(b, p, ns);
    while true
      invariant mem[..] == b && Path(ns) && (dp.Some? ==> Holds(b, dp.value, rest))
      invariant dp.Some? ==> Path(rest) && count + |Iterated(rest)| == |Iterated(ns)|
      invariant dp.None? ==> count == |Iterated(ns)|
      decreases if dp.Some? then |rest| + 1 else 0
    {
      var start, next, size := DevicePathInstance(mem, dp, rest);
      if start.None? {
        break;
      }
      IteratedStep(rest);
      dp := next;
      rest := rest[Stop(rest, 0) + 1..];
      count := count + 1;
    }
  }

  /**
   The paths joined in a new buffer; without a first path, a copy of the second. The second is written
   where the end node of the first says that the next node starts. That is inside the buffer exactly
   if this end node has no payload.
   */
  method AppendDevicePathInstance(mem: array<UINT8>, src: Option<nat>, instance: nat,
                                  ghost s: seq<Node>, ghost t: seq<Node>)
    returns (joined: array<UINT8>, inside: bool)
    requires src.Some? ==> Holds(mem[..], src.value, s)
    requires Holds(mem[..], instance, t)
    ensures fresh(joined)
    ensures src.None? ==> inside && joined[..] == Trimmed(t)
    ensures src.Some? ==> s != [] && (inside <==> s[|s| - 1].data == [])
    ensures src.Some? && inside ==> joined[..] == Trimmed(Appended(s, t))
    ensures src.Some? && inside && t[|t| - 1].data == [] ==> Holds(joined[..], 0, Appended(s, t))
  {
    hide *;
    if src.None? {
      joined := DuplicateDevicePath(mem, instance, true, t);
      return joined, true;
    }
    ghost var b := mem[..];
    var srcSize := DevicePathSize(mem, src.value, s);
    var instanceSize := DevicePathSize(mem, instance, t);
    HoldsBytes(b, src.value, s);
    HoldsBytes(b, instance, t);
    TrimmedBytes(b, src.value, s);
    TrimmedBytes(b, instance, t);
    joined := new UINT8[srcSize + instanceSize](_ => 0);
    CopyMem(joined, 0, mem, src.value, srcSize);
    assert joined[..srcSize] == Trimmed(s);
    var at := OpenEnd(joined, s);
    inside := at + instanceSize <= joined.Length;
    if inside {
      ghost var front := joined[..at];
      CopyMem(joined, at, mem, instance, instanceSize);
      assert joined[..] == front + Trimmed(t);
      AppendedTrimmed(s, t, front);
    }
  }

  lemma AppendedTrimmed(s: seq<Node>, t: seq<Node>, front: seq<UINT8>)
    requires Path(s) && Path(t) && Fits(s) && Fits(t) && s[|s| - 1].data == []
    requires |front| == Size(s) >= 4 && front == Encode(s)[|front| - 3 := END_INSTANCE]
    ensures s != [] && Appended(s, t) != [] && Trimmed(Appended(s, t)) == front + Trimmed(t)
    ensures t[|t| - 1].data == [] ==> Holds(Trimmed(Appended(s, t)), 0, Appended(s, t))
  {
    hide Encode, Size, Holds, Appended, Fits, Trimmed;
    AppendedEncoding(s, t);
    AppendedHolds(s, t);
    AppendedLast(s, t);
    hide *;
    TrimmedAfter(Appended(s, t), t, front);
  }

  lemma TrimmedAll(ns: seq<Node>)
    requires ns != [] && ns[|ns| - 1].data == []
    ensures Trimmed(ns) == Encode(ns)
  {
    hide Encode, Size;
    TrimmedIs(ns);
  }

  /** Turns the end of the path at the front of the buffer into an instance end; returns where the next goes. */
  method OpenEnd(joined: array<UINT8>, ghost s: seq<Node>) returns (at: nat)
    requires Path(s) && Fits(s) && |Trimmed(s)| <= joined.Length && joined[..|Trimmed(s)|] == Trimmed(s)
    modifies joined
    ensures at == Size(s)
    ensures s[|s| - 1].data == [] ==> 4 <= at && joined[..at] == Encode(s)[at - 3 := END_INSTANCE]
  {
    hide *;
    ghost var was := joined[..];
    FrontShows(was, s);
    EndLength(s[|s| - 1]);
    if s[|s| - 1].data == [] { TrimmedAll(s); }
    at := FindEnd(joined, 0, Encode(s), s);
    joined[at + 1] := END_INSTANCE;
    SameLength(was, joined[..], at);
    at := at + NodeLength(joined[..], at);
  }

  lemma FrontShows(b: seq<UINT8>, ns: seq<Node>)
    requires Path(ns) && Fits(ns) && |Trimmed(ns)| <= |b| && b[..|Trimmed(ns)|] == Trimmed(ns)
    ensures ns != [] && Shows(b, 0, Encode(ns), ns)
    ensures |Trimmed(ns)| == Size(ns) - |ns[|ns| - 1].data| && Size(ns) >= Length(ns[|ns| - 1])
  {
    HoldsEncoded(ns);
    SizeAtLast(ns);
    hide Fits, Encode, Size, Trimmed, Holds;
    TrimmedIs(ns);
    assert forall k: nat :: k < |Trimmed(ns)| ==> b[..|Trimmed(ns)|][k] == b[k];
  }

  lemma SameLength(b: seq<UINT8>, c: seq<UINT8>, at: nat)
    requires at + 4 <= |b| == |c| && b[at + 2] == c[at + 2] && b[at + 3] == c[at + 3]
    ensures NodeLength(b, at) == NodeLength(c, at)
  {
  }

  lemma EndLength(n: Node)
    ensures Length(n) == 4 + |n.data|
  {
  }

  lemma AppendedEncoding(s: seq<Node>, t: seq<Node>)
    requires Path(s) && s[|s| - 1].data == []
    ensures 4 <= Size(s)
    ensures Encode(Appended(s, t)) == Encode(s)[Size(s) - 3 := END_INSTANCE] + Encode(t)
  {
    var k := |s| - 1;
    var last := Node(s[k].kind, END_INSTANCE, []);
    var ns := Appended(s, t);
    AppendedSplit(s, t, last);
    hide *;
    EncodeSplit(s, k);
    EncodeSplit(ns, k);
    EncodeOne(s[k], []);
    EncodeOne(last, t);
    RetypedEnd(s[k]);
    ChangedBehind(Encode(s[..k]), EncodeNode(s[k]), Encode(t));
  }

  lemma ChangedBehind(front: seq<UINT8>, e: seq<UINT8>, rest: seq<UINT8>)
    requires |e| == 4
    ensures (front + e)[|front| + 1 := END_INSTANCE] + rest == front + (e[1 := END_INSTANCE] + rest)
  {
  }

  lemma TrimmedAfter(joined: seq<Node>, t: seq<Node>, front: seq<UINT8>)
    requires joined != [] && t != [] && joined[|joined| - 1] == t[|t| - 1]
    requires Encode(joined) == front + Encode(t)
    ensures Trimmed(joined) == front + Trimmed(t)
    ensures t[|t| - 1].data == [] ==> Trimmed(joined) == Encode(joined)
  {
    hide *;
    TrimmedIs(t);
    TrimmedIs(joined);
    CutFront(front, Encode(t), |Trimmed(t)|);
  }

  lemma CutFront(front: seq<UINT8>, b: seq<UINT8>, n: nat)
    requires n <= |b|
    ensures (front + b)[..|front| + n] == front + b[..n]
  {
  }

  lemma AppendedLast(s: seq<Node>, t: seq<Node>)
    requires s != [] && t != []
    ensures Appended(s, t) != [] && Appended(s, t)[|Appended(s, t)| - 1] == t[|t| - 1]
  {
  }

  lemma AppendedSplit(s: seq<Node>, t: seq<Node>, last: Node)
    requires s != [] && s[|s| - 1].data == [] && last == Node(s[|s| - 1].kind, END_INSTANCE, [])
    ensures var k := |s| - 1;
            var ns := Appended(s, t);
            |ns| == |s| + |t| && ns[..k] == s[..k] && ns[k..] == [last] + t && s[k..] == [s[k]]
            && Length(s[k]) == 4
  {
  }

  lemma RetypedEnd(n: Node)
    requires n.data == []
    ensures EncodeNode(Node(n.kind, END_INSTANCE, [])) == EncodeNode(n)[1 := END_INSTANCE]
  {
  }

  lemma EncodeOne(n: Node, rest: seq<Node>)
    ensures Encode([n] + rest) == EncodeNode(n) + Encode(rest)
    ensures Size([n] + rest) == Length(n) + Size(rest)
    ensures Encode([n]) == EncodeNode(n) && Size([n]) == Length(n)
  {
    assert ([n] + rest)[1..] == rest;
  }

  lemma AppendedHolds(s: seq<Node>, t: seq<Node>)
    requires Path(s) && Path(t) && Fits(s) && Fits(t)
    ensures Holds(Encode(Appended(s, t)), 0, Appended(s, t))
  {
    var ns := Appended(s, t);
    AppendedPath(s, t);
    HoldsEncoded(ns);
    hide Path, Encode, Holds;
    forall k | 0 <= k < |ns|
      ensures Length(ns[k]) < 0x10000
    {
      if k < |s| {
        assert Length(ns[k]) == Length(s[k]);
      } else {
        assert ns[k] == t[k - |s|];
      }
    }
  }

  /** With no instance over 513 nodes, the calls on the joined path return the instances of both, in order. */
  lemma AppendedShort(s: seq<Node>, t: seq<Node>)
    requires Path(s) && Path(t) && ShortInstances(s) && ShortInstances(t)
    ensures Path(Appended(s, t)) && Iterated(Appended(s, t)) == Instances(s) + Instances(t)
  {
    hide Path, Appended, Iterated, Instances;
    AppendedIterated(s, t);
    ShortReaches(s);
    IteratedIsInstances(s);
    IteratedIsInstances(t);
  }
}
