/**
 64-bit arithmetic of gnu-efi in 32-bit halves: the shift-subtract division and the multiplication
 that undoes it.
 */
module Division {
  import opened Words

  type U32 = x: int | 0 <= x < TWO_32

  /** The two halves of the dividend, which turn into those of the quotient, and the remainder. */
  datatype State = State(lo: U32, hi: U32, rem: U32)

  function Word(s: State): (w: U64) { s.hi * TWO_32 + s.lo }

  /** A doubleword shifted left by one with a carry into its low bit. */
  function Rotated(x: U32, carry: int): U32
    requires 0 <= carry <= 1
  {
    (2 * x + carry) % TWO_32
  }

  function Carry(x: U32): (c: int)
    ensures 0 <= c <= 1
  {
    if 0x8000_0000 <= x then 1 else 0
  }

  /** One bit: shift remainder and dividend left, then subtract the divisor if it fits. */
  function Step(s: State, d: U32): State
  {
    var rem := Rotated(s.rem, Carry(s.hi));
    var hi := Rotated(s.hi, Carry(s.lo));
    var lo := Rotated(s.lo, 0);
    if rem >= d then State(lo + 1, hi, rem - d) else State(lo, hi, rem)
  }

  function Run(s: State, d: U32, n: nat): State
  {
    if n == 0 then s else Step(Run(s, d, n - 1), d)
  }

  function Halves(w: U64): State { State(w % TWO_32, w / TWO_32, 0) }

  /** The loop over the 64 bits of the dividend. */
  method DivU64x32(dividend: U64, divisor: U32) returns (quotient: U64, remainder: U32)
    ensures var s := Run(Halves(dividend), divisor, 64); quotient == Word(s) && remainder == s.rem
    ensures 0 < divisor <= 0x8000_0000 ==> quotient == dividend / divisor && remainder == dividend % divisor
  {
    if 0 < divisor <= 0x8000_0000 { DivisionCorrect(dividend, divisor); }
    var lo: U32, hi: U32, rem: U32 := dividend % TWO_32, dividend / TWO_32, 0;
    var bit := 0;
    while bit < 64
      invariant 0 <= bit <= 64
      invariant State(lo, hi, rem) == Run(Halves(dividend), divisor, bit)
    {
      var c0, c1 := Carry(lo), Carry(hi);
      lo := Rotated(lo, 0);
      hi := Rotated(hi, c0);
      rem := Rotated(rem, c1);
      if rem >= divisor {
        lo := lo + 1;
        rem := rem - divisor;
      }
      bit := bit + 1;
    }
    quotient := hi * TWO_32 + lo;
    remainder := rem;
  }

  lemma RotatedIs(x: U32, c: int)
    requires 0 <= c <= 1
    ensures 2 * x + c == Carry(x) * TWO_32 + Rotated(x, c)
    ensures Rotated(x, c) % 2 == c
  {
  }

  /** A step doubles remainder and dividend as one number; no bit is lost while the remainder is below 2^31. */
  lemma StepDoubles(s: State, d: U32)
    requires 0 < d <= 0x8000_0000 && s.rem < d
    ensures var t := Step(s, d);
            var q := if Rotated(s.rem, Carry(s.hi)) >= d then 1 else 0;
            t.rem < d && t.rem * TWO_64 + Word(t) == 2 * (s.rem * TWO_64 + Word(s)) - q * (d * TWO_64 - 1)
  {
    RotatedIs(s.rem, Carry(s.hi));
    RotatedIs(s.hi, Carry(s.lo));
    RotatedIs(s.lo, 0);
  }

  /** After `n` steps: the quotient so far, and what the remainder and the dividend still hold. */
  lemma {:induction false} RunInvariant(w: U64, d: U32, n: nat) returns (q: int)
    requires 0 < d <= 0x8000_0000
    ensures var s := Run(Halves(w), d, n);
            0 <= q < Pow2(n) && s.rem < d && s.rem * TWO_64 + Word(s) == Pow2(n) * w - (d * TWO_64 - 1) * q
  {
    hide Step, Word, Halves;
    if n == 0 {
      q := 0;
      HalvesWord(w);
    } else {
      var p := RunInvariant(w, d, n - 1);
      var s := Run(Halves(w), d, n - 1);
      StepDoubles(s, d);
      var b := if Rotated(s.rem, Carry(s.hi)) >= d then 1 else 0;
      q := 2 * p + b;
      DoubleBalance(Pow2(n - 1), w, d * TWO_64 - 1, p, b);
    }
  }

  lemma HalvesWord(w: U64)
    ensures Word(Halves(w)) == w && Halves(w).rem == 0
  {
  }

  lemma DoubleBalance(p: int, w: int, m: int, q: int, b: int)
    ensures 2 * (p * w - m * q) - b * m == (2 * p) * w - m * (2 * q + b)
  {
  }

  /** The result is the quotient and the remainder. */
  predicate Divides(w: U64, d: U32)
    requires d != 0
  {
    var s := Run(Halves(w), d, 64);
    Word(s) == w / d && s.rem == w % d
  }

  lemma DivisionCorrect(w: U64, d: U32)
    requires 0 < d <= 0x8000_0000
    ensures Divides(w, d)
  {
    var q := RunInvariant(w, d, 64);
    Powers();
    var s := Run(Halves(w), d, 64);
    hide Run, Word, Pow2, Halves;
    LastBalance(w, d, q, s.rem, Word(s));
    Quotient(w, d, q, s.rem);
  }

  lemma Quotient(w: int, d: int, q: int, r: int)
    requires 0 < d && 0 <= r < d && w == q * d + r
    ensures q == w / d && r == w % d
  {
    var k := q - w / d;
    assert d * k == w % d - r;
    assert k == 0;
  }

  lemma LastBalance(w: int, d: int, q: int, r: int, v: int)
    requires 0 <= q < TWO_64 && 0 <= v < TWO_64
    requires r * TWO_64 + v == TWO_64 * w - (d * TWO_64 - 1) * q
    ensures v == q && w == q * d + r
  {
    var t := w - d * q - r;
    assert v - q == TWO_64 * t by {
      assert (d * TWO_64 - 1) * q == TWO_64 * (d * q) - q;
    }
    assert t == 0;
  }

  lemma DoubledHigh(x: U32)
    requires x < 0x8000_0000
    ensures Rotated(x, 0) == 2 * x && Carry(x) == 0
  {
  }

  /** With a divisor over 2^31, the dividend 2^32 only moves its single bit: up the high half, ... */
  lemma {:induction false} SingleBitRises(d: U32, n: nat)
    requires 0x8000_0000 < d && n <= 31
    ensures Pow2(n) < TWO_32 && Run(Halves(TWO_32), d, n) == State(0, Pow2(n), 0)
  {
    hide Rotated, Carry;
    PowersTo31(n);
    if n != 0 {
      SingleBitRises(d, n - 1);
      DoubledHigh(Pow2(n - 1));
      DoubledHigh(0);
    }
  }

  lemma PowersTo31(n: nat)
    requires n <= 31
    ensures Pow2(n) <= 0x8000_0000
    ensures n == 31 ==> Pow2(n) == 0x8000_0000
    ensures n < 31 ==> Pow2(n) < 0x8000_0000
    decreases 31 - n
  {
    if n < 31 {
      PowersTo31(n + 1);
    } else {
      assert Pow2(8) == 0x100;
      assert Pow2(16) == 0x1_0000;
      assert Pow2(24) == 0x100_0000;
    }
  }

  lemma TopBitLeaves(x: U32)
    requires x == 0x8000_0000
    ensures Rotated(x, 0) == 0 && Carry(x) == 1
  {
  }

  /** ... and through the remainder, */
  lemma {:induction false} SingleBitInRemainder(d: U32, n: nat)
    requires 0x8000_0000 < d && n <= 31
    ensures Pow2(n) < TWO_32 && Run(Halves(TWO_32), d, 32 + n) == State(0, 0, Pow2(n))
  {
    hide Rotated, Carry, Halves;
    PowersTo31(n);
    DoubledHigh(0);
    if n == 0 {
      PowersTo31(31);
      SingleBitRises(d, 31);
      TopBitLeaves(Pow2(31));
      assert Rotated(0, 1) == 1 by { RotatedOne(); }
    } else {
      SingleBitInRemainder(d, n - 1);
      DoubledHigh(Pow2(n - 1));
    }
  }

  lemma RotatedOne()
    ensures Rotated(0, 1) == 1
  {
  }

  /** ... whose top bit is then lost: the answer is 0, remainder 0. */
  lemma SingleBitLost(d: U32, n: nat)
    requires 0x8000_0000 < d && n == 63
    ensures Run(Halves(TWO_32), d, n + 1) == State(0, 0, 0)
  {
    hide Rotated, Carry, Halves;
    SingleBitInRemainder(d, n - 32);
    PowersTo31(n - 32);
    TopBitLeaves(Pow2(n - 32));
    DoubledHigh(0);
  }

  lemma DivisionWrong(d: U32)
    requires 0x8000_0000 < d
    ensures !Divides(TWO_32, d)
  {
    hide Run, Halves;
    SingleBitLost(d, 63);
    Quotient(TWO_32, d, 1, TWO_32 - d);
  }

  /** The division is right for every dividend exactly if the divisor is at most 2^31. */
  lemma DivisorBound(d: U32)
    requires d != 0
    ensures (forall w: U64 :: Divides(w, d)) <==> d <= 0x8000_0000
  {
    hide Divides;
    if d <= 0x8000_0000 {
      forall w: U64
        ensures Divides(w, d)
      {
        DivisionCorrect(w, d);
      }
    } else {
      DivisionWrong(d);
    }
  }

  /** The product of the low half, with the high half's added into the upper doubleword. */
  method MultU64x32(multiplicand: U64, multiplier: U32) returns (product: U64)
    ensures product == multiplicand * multiplier % TWO_64
  {
    var lo, hi := multiplicand % TWO_32, multiplicand / TWO_32;
    var low, high := lo * multiplier, hi * multiplier;
    ProductGrows(0, lo, multiplier);
    ProductGrows(0, hi, multiplier);
    HalvesProduct(multiplicand, lo, hi, multiplier);
    UpperHalf(low, high);
    var eax, edx := low % TWO_32, low / TWO_32;
    edx := (edx + high % TWO_32) % TWO_32;
    product := edx * TWO_32 + eax;
  }

  lemma ProductGrows(a: nat, c: nat, b: nat)
    requires a <= c
    ensures 0 <= a * b <= c * b
  {
    assert c * b == a * b + (c - a) * b;
  }

  lemma UpperHalf(p: int, h: int)
    requires 0 <= p && 0 <= h
    ensures (p / TWO_32 + h % TWO_32) % TWO_32 * TWO_32 + p % TWO_32 == (h * TWO_32 + p) % TWO_64
  {
    var s := p / TWO_32 + h % TWO_32;
    var r := s % TWO_32 * TWO_32 + p % TWO_32;
    ModMultiple(r, h / TWO_32 + s / TWO_32);
  }

  lemma HalvesProduct(w: U64, lo: U32, hi: U32, m: U32)
    requires w == hi * TWO_32 + lo
    ensures w * m == hi * m * TWO_32 + lo * m
  {
  }

  /** What the division gives, the multiplication takes back. */
  lemma DivideMultiply(w: U64, d: U32)
    requires 0 < d <= 0x8000_0000
    ensures var s := Run(Halves(w), d, 64); Word(s) * d % TWO_64 + s.rem == w
  {
    hide Run, Halves, Word;
    DivisionCorrect(w, d);
    var q := Word(Run(Halves(w), d, 64));
    assert q * d + w % d == w;
    assert 0 <= q * d;
  }
}
