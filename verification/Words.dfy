/** Machine words as integers: the bit operations the kernel uses, defined bit by bit. */
module Words {
  const TWO_31 := 0x8000_0000
  const TWO_32 := 0x1_0000_0000
  const TWO_64 := 0x1_0000_0000_0000_0000

  /** The bytes of a page, and of a page frame. */
  const PAGE := 4096

  /** `uint64_t`, `size_t` and pointers on x86-64. */
  type U64 = x: int | 0 <= x < 0x1_0000_0000_0000_0000

  datatype Option<+T> = None | Some(value: T)

  function Add64(a: int, b: int): U64 { (a + b) % TWO_64 }

  function Sub64(a: int, b: int): U64 { (a - b) % TWO_64 }

  /** A 64-bit word read as a signed integer. */
  function AsInt64(a: U64): int { if a < TWO_64 / 2 then a else a - TWO_64 }

  lemma ModAdd(x: int, y: int)
    ensures (x % TWO_64 + y) % TWO_64 == (x + y) % TWO_64
  {
    var q := x / TWO_64;
    assert x == q * TWO_64 + x % TWO_64;
    ModMultiple(x % TWO_64 + y, q);
  }

  lemma ModMultiple(x: int, q: int)
    ensures (x + q * TWO_64) % TWO_64 == x % TWO_64
  {
    var a, b := x / TWO_64, (x + q * TWO_64) / TWO_64;
    assert x + q * TWO_64 == (a + q) * TWO_64 + x % TWO_64;
  }

  lemma Congruent(x: int, y: int)
    ensures x % TWO_64 == y % TWO_64 <==> (x - y) % TWO_64 == 0
  {
    ModAdd(x, -y);
    ModAdd(x - y, y);
  }

  function Pow2(n: nat): (p: nat)
    ensures p > 0
  {
    if n == 0 then 1 else 2 * Pow2(n - 1)
  }

  /** Bit `i` of `v`: what `v & (1 << i)` tests. */
  predicate Bit(v: nat, i: nat)
    decreases i
  {
    if i == 0 then v % 2 == 1 else Bit(v / 2, i - 1)
  }

  /** The low `n` bits of `v`: `v & ((1 << n) - 1)`. */
  function Low(v: nat, n: nat): nat
    decreases n
  {
    if n == 0 then 0 else v % 2 + 2 * Low(v / 2, n - 1)
  }

  /** Bits `lo` to `lo + n - 1` of `v`, shifted down. */
  function Field(v: nat, lo: nat, n: nat): nat
    decreases lo
  {
    if lo == 0 then Low(v, n) else Field(v / 2, lo - 1, n)
  }

  /** `v` with bits `lo` to `lo + n - 1` replaced by the low `n` bits of `a`. */
  function Splice(v: nat, lo: nat, n: nat, a: nat): nat
    decreases lo + n
  {
    if lo > 0 then v % 2 + 2 * Splice(v / 2, lo - 1, n, a)
    else if n > 0 then a % 2 + 2 * Splice(v / 2, 0, n - 1, a / 2)
    else v
  }

  lemma {:induction false} BitIs(v: nat, i: nat)
    ensures Bit(v, i) <==> v / Pow2(i) % 2 == 1
    decreases i
  {
    if i > 0 {
      BitIs(v / 2, i - 1);
      HalfOf(v, Pow2(i - 1));
    }
  }

  lemma HalfOf(v: nat, d: nat)
    requires d > 0
    ensures v / 2 / d == v / (2 * d)
  {
    var q, r := v / 2 / d, v / 2 % d;
    Twice(d, q);
    Quotient(v, 2 * d, q, 2 * r + v % 2);
  }

  lemma Twice(d: nat, q: nat)
    ensures (2 * d) * q == 2 * (d * q)
  {
  }

  lemma Quotient(v: nat, d: nat, q: nat, r: nat)
    requires d > 0 && v == d * q + r && r < d
    ensures v / d == q && v % d == r
  {
    var k := v / d - q;
    assert d * k == r - v % d;
    Scaled(d, k);
  }

  lemma Scaled(d: int, k: int)
    requires d >= 0
    ensures k > 0 ==> d * k >= d
    ensures k < 0 ==> d * k <= -d
  {
  }

  lemma {:induction false} LowIs(v: nat, n: nat)
    ensures Low(v, n) == v % Pow2(n)
    decreases n
  {
    if n > 0 {
      LowIs(v / 2, n - 1);
      HalfMod(v, Pow2(n - 1));
    }
  }

  lemma HalfMod(v: nat, d: nat)
    requires d > 0
    ensures v % (2 * d) == 2 * (v / 2 % d) + v % 2
  {
    var q, r := v / 2 / d, v / 2 % d;
    Twice(d, q);
    Quotient(v, 2 * d, q, 2 * r + v % 2);
  }

  lemma {:induction false} FieldIs(v: nat, lo: nat, n: nat)
    ensures Field(v, lo, n) == v / Pow2(lo) % Pow2(n)
    decreases lo
  {
    if lo == 0 {
      LowIs(v, n);
    } else {
      FieldIs(v / 2, lo - 1, n);
      HalfOf(v, Pow2(lo - 1));
    }
  }

  lemma {:induction false} SpliceBits(v: nat, lo: nat, n: nat, a: nat, i: nat)
    ensures Bit(Splice(v, lo, n, a), i) == if lo <= i < lo + n then Bit(a, i - lo) else Bit(v, i)
    decreases lo + n
  {
    if lo > 0 {
      assert Splice(v, lo, n, a) / 2 == Splice(v / 2, lo - 1, n, a);
      if i > 0 { SpliceBits(v / 2, lo - 1, n, a, i - 1); }
    } else if n > 0 {
      assert Splice(v, 0, n, a) / 2 == Splice(v / 2, 0, n - 1, a / 2);
      if i > 0 { SpliceBits(v / 2, 0, n - 1, a / 2, i - 1); }
    }
  }

  lemma {:induction false} SpliceTwice(v: nat, lo: nat, n: nat, a: nat, b: nat)
    ensures Splice(Splice(v, lo, n, a), lo, n, b) == Splice(v, lo, n, b)
    decreases lo + n
  {
    if lo > 0 {
      assert Splice(v, lo, n, a) / 2 == Splice(v / 2, lo - 1, n, a);
      assert Splice(v, lo, n, a) % 2 == v % 2;
      SpliceTwice(v / 2, lo - 1, n, a, b);
    } else if n > 0 {
      assert Splice(v, 0, n, a) / 2 == Splice(v / 2, 0, n - 1, a / 2);
      SpliceTwice(v / 2, 0, n - 1, a / 2, b / 2);
    }
  }

  lemma {:induction false} SpliceBound(v: nat, lo: nat, n: nat, a: nat, m: nat)
    requires v < Pow2(m) && lo + n <= m
    ensures Splice(v, lo, n, a) < Pow2(m)
    decreases lo + n
  {
    if lo > 0 {
      SpliceBound(v / 2, lo - 1, n, a, m - 1);
    } else if n > 0 {
      SpliceBound(v / 2, 0, n - 1, a / 2, m - 1);
    }
  }

  /** Reading back a spliced field. */
  lemma {:induction false} FieldOfSplice(v: nat, lo: nat, n: nat, a: nat)
    ensures Field(Splice(v, lo, n, a), lo, n) == Low(a, n)
    decreases lo + n
  {
    if lo > 0 {
      assert Splice(v, lo, n, a) / 2 == Splice(v / 2, lo - 1, n, a);
      FieldOfSplice(v / 2, lo - 1, n, a);
    } else if n > 0 {
      assert Splice(v, 0, n, a) / 2 == Splice(v / 2, 0, n - 1, a / 2);
      FieldOfSplice(v / 2, 0, n - 1, a / 2);
    }
  }

  /** A splice below a field does not touch the field. */
  lemma {:induction false} FieldAboveSplice(v: nat, lo: nat, n: nat, a: nat, at: nat, m: nat)
    requires lo + n <= at
    ensures Field(Splice(v, lo, n, a), at, m) == Field(v, at, m)
    decreases lo + n
  {
    if lo > 0 {
      assert Splice(v, lo, n, a) / 2 == Splice(v / 2, lo - 1, n, a);
      FieldAboveSplice(v / 2, lo - 1, n, a, at - 1, m);
    } else if n > 0 {
      assert Splice(v, 0, n, a) / 2 == Splice(v / 2, 0, n - 1, a / 2);
      FieldAboveSplice(v / 2, 0, n - 1, a / 2, at - 1, m);
    }
  }

  lemma {:induction false} LowOfSmall(v: nat, n: nat)
    requires v < Pow2(n)
    ensures Low(v, n) == v
    decreases n
  {
    if n > 0 { LowOfSmall(v / 2, n - 1); }
  }

  lemma {:induction false} ZeroBits(i: nat)
    ensures !Bit(0, i)
  {
    if i > 0 { ZeroBits(i - 1); }
  }

  lemma Powers()
    ensures Pow2(12) == 0x1000 && Pow2(40) == 0x100_0000_0000
    ensures Pow2(64) == TWO_64
  {
    assert Pow2(8) == 0x100;
    assert Pow2(16) == 0x1_0000;
    assert Pow2(24) == 0x100_0000;
    assert Pow2(32) == TWO_32;
    assert Pow2(40) == 0x100_0000_0000;
    assert Pow2(48) == 0x1_0000_0000_0000;
    assert Pow2(56) == 0x100_0000_0000_0000;
  }
}
