/**
 Numbers of gnu-efi as text: `ValueToString` and `ValueToHex` write them, `Atoi` and `xtoi` read
 them back.
 */
module Numbers {
  import opened WideStrings
  import opened Words
  import Division

  type INT64 = x: int | -0x8000_0000_0000_0000 <= x < 0x8000_0000_0000_0000

  const COMMA: CHAR16 := 44
  const MINUS: CHAR16 := 45

  // Digits.

  datatype Base = Ten | Sixteen

  function Times(b: Base, v: nat): nat { if b == Ten then 10 * v else 16 * v }

  function Quotient(b: Base, v: nat): nat { if b == Ten then v / 10 else v / 16 }

  function Digit(b: Base, v: nat): (d: nat)
    ensures d < 16
  {
    if b == Ten then v % 10 else v % 16
  }

  lemma DigitOf(b: Base, v: nat)
    ensures v == Times(b, Quotient(b, v)) + Digit(b, v)
    ensures Quotient(b, v) <= v && (v != 0 ==> Quotient(b, v) < v)
    ensures Quotient(b, v) == 0 <==> Digit(b, v) == v
  {
  }

  function DigitChar(d: nat): (c: CHAR16)
    requires d < 16
  {
    if d < 10 then 48 + d else 55 + d
  }

  function Digits(b: Base, v: nat): (ds: seq<CHAR16>)
    ensures ds != []
    decreases v
  {
    if Quotient(b, v) == 0 then [DigitChar(Digit(b, v))]
    else Digits(b, Quotient(b, v)) + [DigitChar(Digit(b, v))]
  }

  function Power(b: Base, n: nat): nat { if n == 0 then 1 else Times(b, Power(b, n - 1)) }

  lemma {:induction false} DigitsShort(b: Base, v: nat, n: nat)
    requires 1 <= n && v < Power(b, n)
    ensures |Digits(b, v)| <= n
  {
    assert n == 1 ==> Power(b, n) == Times(b, 1);
    if Quotient(b, v) != 0 {
      DigitsShort(b, Quotient(b, v), n - 1);
    }
  }

  lemma SmallPowers()
    ensures Power(Sixteen, 16) == TWO_64 && TWO_64 < Power(Ten, 20)
  {
    assert Power(Sixteen, 4) == 0x1_0000;
    assert Power(Sixteen, 8) == 0x1_0000_0000;
    assert Power(Sixteen, 12) == 0x1_0000_0000_0000;
    assert Power(Ten, 5) == 100_000;
    assert Power(Ten, 10) == 10_000_000_000;
    assert Power(Ten, 15) == 1_000_000_000_000_000;
  }

  // What is written.

  /** A comma goes before a digit that is not the first when a multiple of three digits is left. */
  predicate Due(i: nat, left: nat) { i > 0 && left % 3 == 0 }

  /** A digit, after a comma if one is due. */
  function Piece(comma: bool, d: CHAR16): (p: seq<CHAR16>)
    ensures |p| == if comma then 2 else 1
  {
    if comma then [COMMA, d] else [d]
  }

  /** The digits from the `i`-th on, with a comma before each that has a multiple of three left. */
  function Spread(ds: seq<CHAR16>, i: nat): seq<CHAR16>
    requires i <= |ds|
    decreases |ds| - i
  {
    if i == |ds| then []
    else Piece(Due(i, |ds| - i), ds[i]) + Spread(ds, i + 1)
  }

  function Plain(ds: seq<CHAR16>, comma: bool, i: nat): seq<CHAR16>
    requires i <= |ds|
  {
    if comma then Spread(ds, i) else ds[i..]
  }

  function Magnitude(v: INT64): nat { if v < 0 then -(v as int) else v }

  function Sign(v: INT64): seq<CHAR16> { if v < 0 then [MINUS] else [] }

  function Text(v: INT64, comma: bool): seq<CHAR16>
  {
    Sign(v) + Plain(Digits(Ten, Magnitude(v)), comma, 0)
  }

  function Reverse(s: seq<CHAR16>): (r: seq<CHAR16>)
    ensures |r| == |s| && forall k :: 0 <= k < |s| ==> r[k] == s[|s| - 1 - k]
  {
    if s == [] then [] else Reverse(s[1..]) + [s[0]]
  }

  lemma ReverseAppend(s: seq<CHAR16>, c: CHAR16)
    ensures Reverse(s + [c]) == [c] + Reverse(s)
  {
  }

  /** Text and its NUL at the front of the buffer. */
  predicate Written(buffer: seq<CHAR16>, was: seq<CHAR16>, text: seq<CHAR16>)
  {
    |buffer| == |was| && |text| < |was| && buffer == text + [0] + was[|text| + 1..]
  }

  /** Digits still to be taken from `u` and digits already taken make up the whole. */
  predicate Taking(b: Base, u: nat, taken: seq<CHAR16>, m: nat)
  {
    (if u == 0 then [] else Digits(b, u)) + Reverse(taken) == Digits(b, m)
  }

  lemma TakingStarts(b: Base, m: nat)
    requires m != 0
    ensures Taking(b, m, [], m)
  {
    assert Digits(b, m) + Reverse([]) == Digits(b, m);
  }

  lemma TakingStep(b: Base, u: nat, taken: seq<CHAR16>, m: nat)
    requires u != 0 && Taking(b, u, taken, m)
    ensures Taking(b, Quotient(b, u), taken + [DigitChar(Digit(b, u))], m)
    ensures |taken| + 1 <= |Digits(b, m)|
  {
    hide Quotient, Digit, DigitChar;
    var c := DigitChar(Digit(b, u));
    ReverseAppend(taken, c);
    var before := if Quotient(b, u) == 0 then [] else Digits(b, Quotient(b, u));
    assert Digits(b, u) == before + [c];
    assert before + ([c] + Reverse(taken)) == (before + [c]) + Reverse(taken);
  }

  lemma TakingEnds(b: Base, taken: seq<CHAR16>, m: nat)
    requires Taking(b, 0, taken, m)
    ensures Reverse(taken) == Digits(b, m)
  {
  }

  /** The sign bit cleared by negation in two's complement; the least number keeps its bits. */
  lemma Negated(v: INT64)
    ensures (if v < 0 then -(v % TWO_64) % TWO_64 else v % TWO_64) == Magnitude(v) < TWO_64
  {
  }

  /** The decimal digits of a number that is not zero, last first. */
  method DigitsBackward(str: array<CHAR16>, m: U64) returns (n: nat)
    requires m != 0 && 40 <= str.Length
    modifies str
    ensures n <= 20 && Reverse(str[..n]) == Digits(Ten, m)
  {
    SmallPowers();
    DigitsShort(Ten, m, 20);
    TakingStarts(Ten, m);
    hide Digits, Division.Run, Division.Halves, Division.Word, Power, Taking;
    var v: U64 := m;
    n := 0;
    assert str[..0] == [];
    while v != 0
      invariant n <= 20 && Taking(Ten, v, str[..n], m)
      decreases v
    {
      var r;
      TakingStep(Ten, v, str[..n], m);
      v, r := Division.DivU64x32(v, 10);
      ghost var taken := str[..n];
      str[n] := 48 + r;
      n := n + 1;
      assert str[..n] == taken + [DigitChar(r)];
    }
    TakingEnds(Ten, str[..n], m);
  }

  /** The counter of the copying loop, when `left` digits are still to be copied. */
  predicate Counter(c: int, comma: bool, n: nat, left: nat)
    requires left <= n
  {
    if !comma then c == 1000 - (n - left)
    else if left == n then c == (if n % 3 == 0 then 3 else n % 3) + 1
    else c == left % 3 + 1
  }

  lemma CounterStep(c: int, comma: bool, n: nat, left: nat)
    requires 0 < left <= n <= 20 && Counter(c, comma, n, left)
    ensures c - 1 == 0 <==> comma && Due(n - left, left)
    ensures Counter(if c - 1 == 0 then 3 else c - 1, comma, n, left - 1)
  {
  }

  lemma PlainStep(ds: seq<CHAR16>, comma: bool, i: nat)
    requires i < |ds|
    ensures Plain(ds, comma, i)
         == Piece(comma && Due(i, |ds| - i), ds[i]) + Plain(ds, comma, i + 1)
  {
  }

  lemma PlainEnd(ds: seq<CHAR16>, comma: bool)
    ensures Plain(ds, comma, |ds|) == []
  {
  }

  /** The buffer is filled up to `p2` and `rest` is still to come. */
  predicate Filling(b: seq<CHAR16>, was: seq<CHAR16>, p2: nat, rest: seq<CHAR16>, text: seq<CHAR16>)
  {
    |b| == |was| && p2 + |rest| == |text| <= |b| && b[..p2] + rest == text && b[|text|..] == was[|text|..]
  }

  lemma FillingStep(b: seq<CHAR16>, now: seq<CHAR16>, was: seq<CHAR16>, p2: nat,
                    piece: seq<CHAR16>, rest: seq<CHAR16>, text: seq<CHAR16>)
    requires Filling(b, was, p2, piece + rest, text)
    requires now == b[..p2] + piece + b[p2 + |piece|..]
    ensures Filling(now, was, p2 + |piece|, rest, text)
  {
    assert b[..p2] + (piece + rest) == (b[..p2] + piece) + rest;
  }

  /** Writes a digit, after a comma if it is time for one. */
  method PutPiece(buffer: array<CHAR16>, p2: nat, group: bool, d: CHAR16) returns (next: nat)
    requires p2 + |Piece(group, d)| <= buffer.Length
    modifies buffer
    ensures next == p2 + |Piece(group, d)|
    ensures buffer[..] == old(buffer[..])[..p2] + Piece(group, d) + old(buffer[..])[next..]
  {
    next := p2;
    if group {
      buffer[next] := COMMA;
      next := next + 1;
    }
    buffer[next] := d;
    next := next + 1;
  }

  /** Copies the digit at `p1`. */
  method CopyDigit(buffer: array<CHAR16>, p2: nat, group: bool, str: seq<CHAR16>, p1: nat, ghost comma: bool,
                   ghost was: seq<CHAR16>, ghost text: seq<CHAR16>) returns (next: nat)
    requires p1 < |str| && group == (comma && Due(|str| - 1 - p1, p1 + 1))
    requires Filling(buffer[..], was, p2, Plain(Reverse(str), comma, |str| - 1 - p1), text)
    modifies buffer
    ensures Filling(buffer[..], was, next, Plain(Reverse(str), comma, |str| - p1), text)
  {
    hide *;
    ghost var b := buffer[..];
    PlainStep(Reverse(str), comma, |str| - 1 - p1);
    FillingRoom(b, was, p2, Plain(Reverse(str), comma, |str| - 1 - p1), text);
    next := PutPiece(buffer, p2, group, str[p1]);
    FillingStep(b, buffer[..], was, p2, Piece(group, str[p1]), Plain(Reverse(str), comma, |str| - p1), text);
  }

  /** Copies the digits out in order, from the last of `str` to the first, with commas if wanted. */
  method CopyDigits(buffer: array<CHAR16>, str: seq<CHAR16>, comma: bool, start: nat, ghost text: seq<CHAR16>)
    returns (p2: nat)
    requires 0 < |str| <= 20
    requires Filling(buffer[..], buffer[..], start, Plain(Reverse(str), comma, 0), text)
    modifies buffer
    ensures p2 == |text| && Filling(buffer[..], old(buffer[..]), p2, [], text)
  {
    ghost var was := buffer[..];
    var ca := [3, 1, 2];
    var n := |str|;
    var p1 := n;
    p2 := start;
    var c := (if comma then ca[p1 % 3] else 999) + 1;
    CounterStarts(c, comma, n);
    hide *;
    while p1 != 0
      invariant 0 <= p1 <= n && 0 <= p2 && Counter(c, comma, n, p1)
      invariant Filling(buffer[..], was, p2, Plain(Reverse(str), comma, n - p1), text)
    {
      CounterStep(c, comma, n, p1);
      c := c - 1;
      var group := c == 0;
      if group {
        c := 3;
      }
      p1 := p1 - 1;
      p2 := CopyDigit(buffer, p2, group, str, p1, comma, was, text);
    }
    PlainEnd(Reverse(str), comma);
    FillingRoom(buffer[..], was, p2, [], text);
  }

  lemma FillingRoom(b: seq<CHAR16>, was: seq<CHAR16>, p2: nat, rest: seq<CHAR16>, text: seq<CHAR16>)
    requires Filling(b, was, p2, rest, text)
    ensures p2 + |rest| == |text| <= |b|
  {
  }

  lemma CounterStarts(c: int, comma: bool, n: nat)
    requires c == (if comma then [3, 1, 2][n % 3] else 999) + 1
    ensures Counter(c, comma, n, n)
  {
  }

  lemma FillingStarts(b: seq<CHAR16>, now: seq<CHAR16>, text: seq<CHAR16>, sign: seq<CHAR16>, rest: seq<CHAR16>)
    requires text == sign + rest && |text| <= |b| && now == sign + b[|sign|..]
    ensures Filling(now, now, |sign|, rest, text) && now[|text|..] == b[|text|..]
  {
  }

  lemma FillingEnds(b: seq<CHAR16>, now: seq<CHAR16>, was: seq<CHAR16>, old0: seq<CHAR16>, text: seq<CHAR16>)
    requires Filling(b, was, |text|, [], text) && |text| < |b| && |old0| == |b|
    requires was[|text|..] == old0[|text|..] && now == b[|text| := 0]
    ensures Written(now, old0, text)
  {
    assert b[|text|..][1..] == old0[|text|..][1..];
    assert b[|text| + 1..] == old0[|text| + 1..];
  }

  /** Writes the number in decimal: sign, digits, commas if wanted, NUL. */
  method ValueToString(buffer: array<CHAR16>, comma: bool, v: INT64)
    requires |Text(v, comma)| < buffer.Length
    modifies buffer
    ensures Written(buffer[..], old(buffer[..]), Text(v, comma))
  {
    ghost var text := Text(v, comma);
    ghost var was := buffer[..];
    if v == 0 {
      ZeroText(comma);
      buffer[0] := 48;
      buffer[1] := 0;
      assert buffer[..] == [48] + [0] + was[2..];
      return;
    }
    var str := new CHAR16[40](_ => 0);
    var m: U64 := v % TWO_64;
    var p2 := 0;
    if v < 0 {
      buffer[p2] := MINUS;
      p2 := p2 + 1;
      m := -(m as int) % TWO_64;
    }
    Negated(v);
    assert m == Magnitude(v) && p2 == |Sign(v)|;
    hide Digits, Plain, Reverse, Filling, Written, Magnitude;
    ghost var signed := buffer[..];
    FillingStarts(was, signed, text, Sign(v), Plain(Digits(Ten, m), comma, 0));
    var n := DigitsBackward(str, m);
    assert n > 0 by { assert |Reverse(str[..n])| == n; }
    p2 := CopyDigits(buffer, str[..n], comma, p2, text);
    ghost var b := buffer[..];
    buffer[p2] := 0;
    FillingEnds(b, buffer[..], signed, was, text);
  }

  lemma ZeroText(comma: bool)
    ensures Text(0, comma) == [48]
  {
    assert Digits(Ten, 0) == [48];
    assert Spread([48], 1) == [];
  }

  /** The hexadecimal digits of a number that is not zero, last first. */
  method HexBackward(str: array<CHAR16>, m: U64) returns (n: nat)
    requires m != 0 && 30 <= str.Length
    modifies str
    ensures n <= 16 && Reverse(str[..n]) == Digits(Sixteen, m)
  {
    SmallPowers();
    DigitsShort(Sixteen, m, 16);
    TakingStarts(Sixteen, m);
    hide Digits, Power, Taking;
    var v: U64 := m;
    n := 0;
    assert str[..0] == [];
    while v != 0
      invariant n <= 16 && Taking(Sixteen, v, str[..n], m)
      decreases v
    {
      TakingStep(Sixteen, v, str[..n], m);
      ghost var taken := str[..n];
      str[n] := DigitChar(v % 16);
      n := n + 1;
      v := v / 16;
      assert str[..n] == taken + [str[n - 1]];
    }
    TakingEnds(Sixteen, str[..n], m);
  }

  /** Writes the number in hexadecimal, with a NUL. */
  method ValueToHex(buffer: array<CHAR16>, v: U64)
    requires |Digits(Sixteen, v)| < buffer.Length
    modifies buffer
    ensures Written(buffer[..], old(buffer[..]), Digits(Sixteen, v))
  {
    ghost var text := Digits(Sixteen, v);
    ghost var was := buffer[..];
    if v == 0 {
      buffer[0] := 48;
      buffer[1] := 0;
      assert buffer[..] == [48] + [0] + was[2..];
      return;
    }
    var str := new CHAR16[30](_ => 0);
    var n := HexBackward(str, v);
    hide *;
    FillingStarts(was, was, text, [], text);
    var p2 := CopyHex(buffer, str[..n], text);
    ghost var b := buffer[..];
    buffer[p2] := 0;
    FillingEnds(b, buffer[..], was, was, text);
  }

  /** Copies the digits out in order. */
  method CopyHex(buffer: array<CHAR16>, str: seq<CHAR16>, ghost text: seq<CHAR16>) returns (p2: nat)
    requires text == Reverse(str) && Filling(buffer[..], buffer[..], 0, text, text)
    modifies buffer
    ensures p2 == |text| && Filling(buffer[..], old(buffer[..]), p2, [], text)
  {
    ghost var was := buffer[..];
    PlainAll(text);
    hide *;
    var p1 := |str|;
    p2 := 0;
    while p1 != 0
      invariant 0 <= p1 <= |str| && 0 <= p2
      invariant Filling(buffer[..], was, p2, Plain(text, false, |str| - p1), text)
    {
      p1 := p1 - 1;
      p2 := CopyDigit(buffer, p2, false, str, p1, false, was, text);
    }
    PlainEnd(text, false);
    FillingRoom(buffer[..], was, p2, [], text);
  }

  lemma PlainAll(ds: seq<CHAR16>)
    ensures Plain(ds, false, 0) == ds
  {
  }

  // Reading numbers back.

  /** The value of a digit; `xtoi` takes letters of either case. */
  function DigitValue(b: Base, c: CHAR16): Option<nat>
  {
    if 48 <= c <= 57 then Some(c - 48)
    else if b == Sixteen && 65 <= c <= 70 then Some(c - 55)
    else if b == Sixteen && 97 <= c <= 102 then Some(c - 87)
    else None
  }

  /** Digits up to the first character that is none, after the value `u`. */
  function Scan(b: Base, s: seq<CHAR16>, u: U64): U64
  {
    if s == [] || DigitValue(b, s[0]).None? then u
    else Scan(b, s[1..], (Times(b, u) + DigitValue(b, s[0]).value) % TWO_64)
  }

  function Trim(s: seq<CHAR16>): seq<CHAR16>
  {
    if s != [] && s[0] == SPACE then Trim(s[1..]) else s
  }

  function Parse(b: Base, s: seq<CHAR16>): U64 { Scan(b, Trim(s), 0) }

  /** The position after the leading spaces. */
  method SkipSpaces(str: seq<CHAR16>) returns (i: nat)
    requires Terminated(str)
    ensures i < |str| && str[i..|str| - 1] == Trim(str[..|str| - 1])
  {
    i := 0;
    ghost var s := str[..|str| - 1];
    while str[i] != 0 && str[i] == SPACE
      invariant i < |str| && Trim(str[i..|str| - 1]) == Trim(s)
      decreases |str| - i
    {
      assert str[i..|str| - 1][1..] == str[i + 1..|str| - 1];
      i := i + 1;
    }
  }

  /** One character further. */
  lemma ScanAt(b: Base, str: seq<CHAR16>, i: nat, u: U64)
    requires Terminated(str) && i < |str|
    ensures str[i] == 0 || DigitValue(b, str[i]).None? ==> Scan(b, str[i..|str| - 1], u) == u
    ensures str[i] != 0 && DigitValue(b, str[i]).Some? ==>
      i + 1 < |str| && Scan(b, str[i..|str| - 1], u)
                    == Scan(b, str[i + 1..|str| - 1], (Times(b, u) + DigitValue(b, str[i]).value) % TWO_64)
  {
    hide DigitValue, Times;
    var rest := str[i..|str| - 1];
    if str[i] != 0 {
      assert rest[0] == str[i] && rest[1..] == str[i + 1..|str| - 1];
    }
  }

  method Atoi(str: seq<CHAR16>) returns (u: U64)
    requires Terminated(str)
    ensures u == Parse(Ten, str[..|str| - 1])
  {
    var i := SkipSpaces(str);
    u := 0;
    hide Scan, Terminated, Trim;
    while true
      invariant i < |str| && Scan(Ten, str[i..|str| - 1], u) == Parse(Ten, str[..|str| - 1])
      decreases |str| - i
    {
      ScanAt(Ten, str, i, u);
      var c := str[i];
      if c == 0 {
        break;
      }
      i := i + 1;
      if c >= 48 && c <= 57 {
        u := (u * 10 + c - 48) % TWO_64;
      } else {
        break;
      }
    }
  }

  /** Shifting left leaves the low four bits clear, so `|` adds. */
  lemma ShiftIn(u: U64, d: nat)
    requires d < 16
    ensures u * 16 % TWO_64 + d == (16 * u + d) % TWO_64
  {
    var q, r := u / 0x1000_0000_0000_0000, u % 0x1000_0000_0000_0000;
    assert u * 16 == q * TWO_64 + r * 16;
    ModMultiple(r * 16, q);
    ModMultiple(r * 16 + d, q);
  }

  /** The value of the character `c`, upper-cased, if it is a hexadecimal digit. */
  method HexDigit(letter: CHAR16) returns (d: Option<nat>)
    ensures d == DigitValue(Sixteen, letter) && (d.Some? ==> d.value < 16)
  {
    var c := letter;
    if c >= 97 && c <= 102 {
      c := c - 32;
    }
    if (c >= 48 && c <= 57) || (c >= 65 && c <= 70) {
      d := Some(c - (if c >= 65 then 55 else 48));
    } else {
      d := None;
    }
  }

  method Xtoi(str: seq<CHAR16>) returns (u: U64)
    requires Terminated(str)
    ensures u == Parse(Sixteen, str[..|str| - 1])
  {
    var i := SkipSpaces(str);
    u := 0;
    hide DigitValue, Scan, Terminated, Trim;
    while true
      invariant i < |str| && Scan(Sixteen, str[i..|str| - 1], u) == Parse(Sixteen, str[..|str| - 1])
      decreases |str| - i
    {
      ScanAt(Sixteen, str, i, u);
      var c := str[i];
      if c == 0 {
        break;
      }
      i := i + 1;
      var d := HexDigit(c);
      if d.None? {
        break;
      }
      ShiftIn(u, d.value);
      u := u * 16 % TWO_64 + d.value;
    }
  }

  // Reading what was written.

  lemma DigitRead(b: Base, v: nat)
    ensures DigitValue(b, DigitChar(Digit(b, v))) == Some(Digit(b, v))
  {
  }

  /** Scanning the digits of `v` arrives at `v`. */
  lemma {:induction false} ScanDigits(b: Base, v: U64, t: seq<CHAR16>)
    ensures Scan(b, Digits(b, v) + t, 0) == Scan(b, t, v)
    decreases v
  {
    hide Quotient, Digit, DigitChar, DigitValue, Times, Digits, Scan;
    var c, q := DigitChar(Digit(b, v)), Quotient(b, v);
    DigitOf(b, v);
    DigitRead(b, v);
    DigitsAre(b, v);
    if q == 0 {
      TimesZero(b);
      ScanOne(b, c, t, 0);
    } else {
      assert Digits(b, v) + t == Digits(b, q) + ([c] + t);
      ScanDigits(b, q, [c] + t);
      ScanOne(b, c, t, q);
    }
  }

  lemma DigitsAre(b: Base, v: nat)
    ensures Digits(b, v)
         == if Quotient(b, v) == 0 then [DigitChar(Digit(b, v))]
            else Digits(b, Quotient(b, v)) + [DigitChar(Digit(b, v))]
  {
  }

  lemma TimesZero(b: Base)
    ensures Times(b, 0) == 0
  {
  }

  lemma ScanOne(b: Base, c: CHAR16, t: seq<CHAR16>, u: U64)
    requires DigitValue(b, c).Some?
    ensures Scan(b, [c] + t, u) == Scan(b, t, (Times(b, u) + DigitValue(b, c).value) % TWO_64)
  {
    hide DigitValue, Times;
    assert ([c] + t)[1..] == t;
  }

  lemma NoSpace(b: Base, v: nat)
    ensures Digits(b, v)[0] != SPACE
  {
  }

  /** `xtoi` reads back every number `ValueToHex` writes. */
  lemma HexRoundTrip(v: U64)
    ensures Parse(Sixteen, Digits(Sixteen, v)) == v
  {
    NoSpace(Sixteen, v);
    ScanDigits(Sixteen, v, []);
    assert Digits(Sixteen, v) + [] == Digits(Sixteen, v);
  }

  /** The digits as characters: '0' to '9'. */
  lemma DecimalDigits(v: nat)
    ensures v < 10 ==> Digits(Ten, v) == [48 + v]
    ensures v >= 10 ==> Digits(Ten, v) == Digits(Ten, v / 10) + [48 + v % 10]
  {
    DigitsAre(Ten, v);
  }

  /** The same for sixteen digits: '0' to '9' and then 'A' to 'F'. */
  lemma HexDigits(v: nat)
    ensures v < 10 ==> Digits(Sixteen, v) == [48 + v]
    ensures 10 <= v < 16 ==> Digits(Sixteen, v) == [65 + (v - 10)]
    ensures v >= 16 ==> Digits(Sixteen, v) == Digits(Sixteen, v / 16) + Digits(Sixteen, v % 16)
  {
    DigitsAre(Sixteen, v);
    DigitsAre(Sixteen, v % 16);
  }

  /** A negative number is a minus sign and then the digits of its magnitude, which parse to it. */
  lemma SignedText(v: INT64)
    ensures v >= 0 ==> Text(v, false) == Digits(Ten, v)
    ensures v < 0 ==> Text(v, false) == [45] + Digits(Ten, -(v as int))
    ensures v < 0 ==> Parse(Ten, Text(v, false)[1..]) == -(v as int)
  {
    var m := Magnitude(v);
    var ds := Digits(Ten, m);
    assert ds[0..] == ds && ds + [] == ds;
    assert v >= 0 ==> [] + ds == ds;
    NoSpace(Ten, m);
    ScanDigits(Ten, m, []);
    if v < 0 { assert Text(v, false)[1..] == ds; }
  }

  /** The characters that are digits, and what they are worth. */
  lemma DigitValues(c: CHAR16)
    ensures 48 <= c <= 57 ==> DigitValue(Ten, c) == DigitValue(Sixteen, c) == Some(c - 48)
    ensures 65 <= c <= 70 ==> DigitValue(Ten, c) == None && DigitValue(Sixteen, c) == Some(c - 65 + 10)
    ensures 97 <= c <= 102 ==> DigitValue(Ten, c) == None && DigitValue(Sixteen, c) == Some(c - 97 + 10)
    ensures !(48 <= c <= 57 || 65 <= c <= 70 || 97 <= c <= 102) ==> DigitValue(Ten, c) == DigitValue(Sixteen, c) == None
  {
  }

  predicate AllDigits(b: Base, s: seq<CHAR16>) { forall k :: 0 <= k < |s| ==> DigitValue(b, s[k]).Some? }

  lemma {:induction false} ScanAppend(b: Base, s: seq<CHAR16>, c: CHAR16, u: U64)
    requires AllDigits(b, s) && DigitValue(b, c).Some?
    ensures Scan(b, s + [c], u) == (Times(b, Scan(b, s, u)) + DigitValue(b, c).value) % TWO_64
    decreases |s|
  {
    hide DigitValue, Times;
    if s == [] {
      ScanOne(b, c, [], u);
      assert s + [c] == [c] + [];
    } else {
      var rest := s[1..];
      assert s == [s[0]] + rest && s + [c] == [s[0]] + (rest + [c]);
      ScanOne(b, s[0], rest, u);
      ScanOne(b, s[0], rest + [c], u);
      hide Scan;
      ScanAppend(b, rest, c, (Times(b, u) + DigitValue(b, s[0]).value) % TWO_64);
    }
  }

  /** One more digit multiplies by ten or sixteen and adds, modulo 2^64. */
  lemma ParseGrows(b: Base, s: seq<CHAR16>, c: CHAR16)
    requires AllDigits(b, s) && DigitValue(b, c).Some?
    ensures Parse(b, s + [c])
         == ((if b == Ten then 10 else 16) * Parse(b, s) + DigitValue(b, c).value) % 0x1_0000_0000_0000_0000
    ensures Parse(b, []) == 0
  {
    ScanAppend(b, s, c, 0);
    assert s != [] ==> (s + [c])[0] == s[0];
    assert DigitValue(b, SPACE).None?;
    assert Trim(s) == s && Trim(s + [c]) == s + [c];
    hide Scan, DigitValue;
  }

  /** Leading spaces do not count, and reading ends at the first character that is no digit. */
  lemma ParseText(b: Base, s: seq<CHAR16>)
    ensures Parse(b, [32] + s) == Parse(b, s)
    ensures s != [] && s[0] != 32 && DigitValue(b, s[0]) == None ==> Parse(b, s) == 0
  {
    assert ([32] + s)[1..] == s;
  }

  /** `Atoi` reads back what `ValueToString` writes exactly if there is no sign and no comma in it. */
  lemma DecimalRoundTrip(v: INT64, comma: bool)
    ensures Parse(Ten, Text(v, comma)) == v <==> 0 <= v && (!comma || v < 1000)
  {
    var text := Text(v, comma);
    if v < 0 {
      assert text[0] == MINUS;
    } else {
      var ds := Digits(Ten, v);
      NoSpace(Ten, v);
      assert text == Plain(ds, comma, 0);
      if comma {
        SpreadIsGrouped(ds);
        GroupedScan(v, []);
        assert Grouped(ds) + [] == text;
        SpreadStart(ds);
        LeadingGroup(v);
      } else {
        ScanDigits(Ten, v, []);
        assert ds + [] == text;
      }
    }
  }

  lemma SpreadStart(ds: seq<CHAR16>)
    requires ds != []
    ensures Spread(ds, 0) != [] && Spread(ds, 0)[0] == ds[0]
  {
  }

  // Commas.

  /** Groups of three digits from the right, a comma between them. */
  function Grouped(ds: seq<CHAR16>): seq<CHAR16>
    decreases |ds|
  {
    if |ds| <= 3 then ds else Grouped(ds[..|ds| - 3]) + [44] + ds[|ds| - 3..]
  }

  lemma {:induction false} SpreadShort(ds: seq<CHAR16>, i: nat)
    requires i <= |ds| <= 3
    ensures Spread(ds, i) == ds[i..]
    decreases |ds| - i
  {
    if i < |ds| {
      SpreadShort(ds, i + 1);
    }
  }

  lemma SpreadTail(ds: seq<CHAR16>)
    requires |ds| > 3
    ensures Spread(ds, |ds| - 3) == [COMMA] + ds[|ds| - 3..]
  {
    var n := |ds|;
    DueThree(n);
    var a, b, c := ds[n - 3], ds[n - 2], ds[n - 1];
    assert ds[n - 3..] == [a, b, c];
    hide *;
    SpreadStep(ds, n);
    SpreadStep(ds, n - 1);
    SpreadStep(ds, n - 2);
    SpreadStep(ds, n - 3);
    Pieces(a);
    Pieces(b);
    Pieces(c);
    assert [b] + ([c] + []) == [b, c];
    assert [COMMA, a] + [b, c] == [COMMA] + [a, b, c];
  }

  lemma Pieces(d: CHAR16)
    ensures Piece(false, d) == [d] && Piece(true, d) == [COMMA, d]
  {
  }

  lemma DueThree(n: nat)
    requires n > 3
    ensures Due(n - 3, 3) && !Due(n - 2, 2) && !Due(n - 1, 1)
  {
  }

  lemma SpreadStep(ds: seq<CHAR16>, i: nat)
    requires i <= |ds|
    ensures Spread(ds, i) == if i == |ds| then [] else Piece(Due(i, |ds| - i), ds[i]) + Spread(ds, i + 1)
  {
  }

  lemma DueLater(i: nat, left: nat)
    requires 3 <= left
    ensures Due(i, left) == Due(i, left - 3)
  {
  }

  lemma {:induction false} SpreadPrefix(ds: seq<CHAR16>, i: nat)
    requires |ds| > 3 && i <= |ds| - 3
    ensures Spread(ds, i) == Spread(ds[..|ds| - 3], i) + Spread(ds, |ds| - 3)
    decreases |ds| - i
  {
    hide Spread, Due, Piece;
    var front := ds[..|ds| - 3];
    SpreadStep(front, i);
    if i < |ds| - 3 {
      SpreadStep(ds, i);
      DueLater(i, |ds| - i);
      SpreadPrefix(ds, i + 1);
    }
  }

  /** The commas stand between groups of three digits. */
  lemma {:induction false} SpreadIsGrouped(ds: seq<CHAR16>)
    ensures Spread(ds, 0) == Grouped(ds)
    decreases |ds|
  {
    hide Spread;
    if |ds| > 3 {
      SpreadIsGrouped(ds[..|ds| - 3]);
      SpreadPrefix(ds, 0);
      SpreadTail(ds);
    } else {
      SpreadShort(ds, 0);
    }
  }

  function WithoutCommas(s: seq<CHAR16>): seq<CHAR16>
  {
    if s == [] then [] else (if s[0] == COMMA then [] else [s[0]]) + WithoutCommas(s[1..])
  }

  lemma {:induction false} StripConcat(s: seq<CHAR16>, t: seq<CHAR16>)
    ensures WithoutCommas(s + t) == WithoutCommas(s) + WithoutCommas(t)
  {
    if s == [] {
      assert s + t == t;
    } else {
      assert (s + t)[1..] == s[1..] + t;
      StripConcat(s[1..], t);
    }
  }

  lemma StripPiece(comma: bool, d: CHAR16)
    requires d != COMMA
    ensures WithoutCommas(Piece(comma, d)) == [d]
  {
    assert WithoutCommas([d]) == [d];
    assert [COMMA, d][1..] == [d];
  }

  /** Stripping the commas gives the plain digits. */
  lemma {:induction false} CommasStrip(ds: seq<CHAR16>, i: nat)
    requires i <= |ds| && COMMA !in ds
    ensures WithoutCommas(Spread(ds, i)) == ds[i..]
    decreases |ds| - i
  {
    SpreadStep(ds, i);
    if i < |ds| {
      hide *;
      CommasStrip(ds, i + 1);
      StripPiece(Due(i, |ds| - i), ds[i]);
      StripConcat(Piece(Due(i, |ds| - i), ds[i]), Spread(ds, i + 1));
    }
  }

  lemma {:induction false} DigitsHaveNoComma(b: Base, v: nat)
    ensures COMMA !in Digits(b, v)
    decreases v
  {
    if Quotient(b, v) != 0 {
      DigitsHaveNoComma(b, Quotient(b, v));
    }
  }

  /** Printed with commas and stripped of them, a number is as it is printed without. */
  lemma TextStrips(v: INT64)
    ensures WithoutCommas(Text(v, true)) == Text(v, false)
  {
    var ds := Digits(Ten, Magnitude(v));
    DigitsHaveNoComma(Ten, Magnitude(v));
    CommasStrip(ds, 0);
    if v < 0 {
      assert Text(v, true)[1..] == Spread(ds, 0);
    } else {
      assert Text(v, true) == Spread(ds, 0);
    }
  }

  /** The number the leading group of digits spells. */
  function Leading(v: nat): nat { if v < 1000 then v else Leading(v / 1000) }

  lemma {:induction false} LeadingGroup(v: nat)
    ensures Leading(v) <= v && (Leading(v) == v <==> v < 1000)
  {
    if v >= 1000 {
      LeadingGroup(v / 1000);
    }
  }

  lemma LastDigit(v: nat)
    requires v >= 10
    ensures Digits(Ten, v) == Digits(Ten, v / 10) + [DigitChar(v % 10)]
  {
  }

  lemma Thousands(v: nat)
    ensures v / 10 / 10 / 10 == v / 1000
  {
  }

  lemma ThreeDigits(v: nat)
    requires v >= 1000
    ensures var ds := Digits(Ten, v);
            |ds| > 3 && ds[..|ds| - 3] == Digits(Ten, v / 1000)
  {
    hide *;
    var a, b := v / 10, v / 10 / 10;
    Thousands(v);
    assert a >= 10 && b >= 10;
    LastDigit(v);
    LastDigit(a);
    LastDigit(b);
    var front := Digits(Ten, b / 10);
    DigitsSome(b / 10);
    ThreeBehind(front, DigitChar(b % 10), DigitChar(a % 10), DigitChar(v % 10));
  }

  lemma ThreeBehind(front: seq<CHAR16>, a: CHAR16, b: CHAR16, c: CHAR16)
    ensures |front + [a] + [b] + [c]| == |front| + 3 && (front + [a] + [b] + [c])[..|front|] == front
  {
  }

  lemma DigitsSome(v: nat)
    ensures Digits(Ten, v) != []
  {
  }

  lemma FewDigits(v: nat)
    requires v < 1000
    ensures |Digits(Ten, v)| <= 3
  {
    assert Power(Ten, 3) == 1000;
    DigitsShort(Ten, v, 3);
  }

  lemma {:induction false} GroupedScan(v: U64, t: seq<CHAR16>)
    requires t != [] ==> DigitValue(Ten, t[0]).None?
    ensures Scan(Ten, Grouped(Digits(Ten, v)) + t, 0) == Leading(v)
    decreases v
  {
    var ds := Digits(Ten, v);
    hide Digits, Scan, Grouped, DigitValue;
    LeadingIs(v);
    if v < 1000 {
      FewDigits(v);
      GroupedFew(ds);
      ScanDigits(Ten, v, t);
      ScanStops(t, v);
    } else {
      ThreeDigits(v);
      var last := ds[|ds| - 3..];
      GroupedMore(ds);
      GroupedScan(v / 1000, [44] + last + t);
      JoinedTail(Grouped(ds[..|ds| - 3]), [44], last, t);
    }
  }

  lemma LeadingIs(v: nat)
    ensures Leading(v) == if v < 1000 then v else Leading(v / 1000)
    ensures DigitValue(Ten, 44).None?
  {
  }

  lemma GroupedFew(ds: seq<CHAR16>)
    requires |ds| <= 3
    ensures Grouped(ds) == ds
  {
  }

  lemma GroupedMore(ds: seq<CHAR16>)
    requires |ds| > 3
    ensures Grouped(ds) == Grouped(ds[..|ds| - 3]) + [44] + ds[|ds| - 3..]
  {
  }

  lemma JoinedTail(a: seq<CHAR16>, b: seq<CHAR16>, c: seq<CHAR16>, d: seq<CHAR16>)
    ensures a + b + c + d == a + (b + c + d)
  {
  }

  lemma ScanStops(t: seq<CHAR16>, u: U64)
    requires t != [] ==> DigitValue(Ten, t[0]).None?
    ensures Scan(Ten, t, u) == u
  {
  }

  // What is written is a string: no NUL before its end.

  lemma {:induction false} DigitsNonzero(b: Base, v: nat)
    ensures 0 !in Digits(b, v)
    decreases v
  {
    if Quotient(b, v) != 0 {
      DigitsNonzero(b, Quotient(b, v));
    }
  }

  lemma {:induction false} SpreadNonzero(ds: seq<CHAR16>, i: nat)
    requires i <= |ds| && 0 !in ds
    ensures 0 !in Spread(ds, i)
    decreases |ds| - i
  {
    hide Due;
    if i < |ds| {
      SpreadNonzero(ds, i + 1);
    }
  }

  lemma TextTerminated(v: INT64, comma: bool)
    ensures Terminated(Text(v, comma) + [0])
  {
    var ds := Digits(Ten, Magnitude(v));
    DigitsNonzero(Ten, Magnitude(v));
    SpreadNonzero(ds, 0);
    hide Digits, Spread, Magnitude;
    assert 0 !in Plain(ds, comma, 0);
    assert 0 !in Text(v, comma);
  }
}
