/**
 CRC-32 of gnu-efi: the table-driven loop, the bit-by-bit definition it computes (section 8 of
 RFC 1952), and what the checksum of a table header detects.
 */
module Crc {
  function Xor(a: bv32, b: bv32): bv32 { a ^ b }

  function Half(c: bv32): bv32 { c >> 1 }

  /** The polynomial, when the bit shifted out is set. */
  function Poly(c: bv32): bv32 { if c & 1 == 1 then 0xEDB88320 else 0 }

  /** One bit of the reflected CRC-32. */
  function BitStep(c: bv32): bv32 { Xor(Half(c), Poly(c)) }

  function Bits8(c: bv32): bv32
  {
    BitStep(BitStep(BitStep(BitStep(BitStep(BitStep(BitStep(BitStep(c))))))))
  }

  /** One byte, bit by bit. */
  function ByteStep(c: bv32, b: bv8): bv32 { Bits8(Xor(c, b as bv32)) }

  function Steps(c: bv32, s: seq<bv8>): bv32
  {
    if s == [] then c else ByteStep(Steps(c, s[..|s| - 1]), s[|s| - 1])
  }

  /** CRC-32 of a byte string. */
  function Crc32(s: seq<bv8>): bv32 { Xor(Steps(0xFFFFFFFF, s), 0xFFFFFFFF) }

  /** Element `j` of a row of sixteen. */
  function Pick(j: bv8, e0: bv32, e1: bv32, e2: bv32, e3: bv32, e4: bv32, e5: bv32, e6: bv32, e7: bv32,
                e8: bv32, e9: bv32, e10: bv32, e11: bv32, e12: bv32, e13: bv32, e14: bv32, e15: bv32): bv32
  {
    if j < 4 then (if j == 0 then e0 else if j == 1 then e1 else if j == 2 then e2 else e3)
    else if j < 8 then (if j == 4 then e4 else if j == 5 then e5 else if j == 6 then e6 else e7)
    else if j < 12 then (if j == 8 then e8 else if j == 9 then e9 else if j == 10 then e10 else e11)
    else (if j == 12 then e12 else if j == 13 then e13 else if j == 14 then e14 else e15)
  }

  /** The 256 entries of the table. */
  function CRCTable(i: bv8): bv32
  {
    if i < 0x10 then
      Pick(i & 0xF, 0x00000000, 0x77073096, 0xEE0E612C, 0x990951BA,
           0x076DC419, 0x706AF48F, 0xE963A535, 0x9E6495A3,
           0x0EDB8832, 0x79DCB8A4, 0xE0D5E91E, 0x97D2D988,
           0x09B64C2B, 0x7EB17CBD, 0xE7B82D07, 0x90BF1D91)
    else if i < 0x20 then
      Pick(i & 0xF, 0x1DB71064, 0x6AB020F2, 0xF3B97148, 0x84BE41DE,
           0x1ADAD47D, 0x6DDDE4EB, 0xF4D4B551, 0x83D385C7,
           0x136C9856, 0x646BA8C0, 0xFD62F97A, 0x8A65C9EC,
           0x14015C4F, 0x63066CD9, 0xFA0F3D63, 0x8D080DF5)
    else if i < 0x30 then
      Pick(i & 0xF, 0x3B6E20C8, 0x4C69105E, 0xD56041E4, 0xA2677172,
           0x3C03E4D1, 0x4B04D447, 0xD20D85FD, 0xA50AB56B,
           0x35B5A8FA, 0x42B2986C, 0xDBBBC9D6, 0xACBCF940,
           0x32D86CE3, 0x45DF5C75, 0xDCD60DCF, 0xABD13D59)
    else if i < 0x40 then
      Pick(i & 0xF, 0x26D930AC, 0x51DE003A, 0xC8D75180, 0xBFD06116,
           0x21B4F4B5, 0x56B3C423, 0xCFBA9599, 0xB8BDA50F,
           0x2802B89E, 0x5F058808, 0xC60CD9B2, 0xB10BE924,
           0x2F6F7C87, 0x58684C11, 0xC1611DAB, 0xB6662D3D)
    else if i < 0x50 then
      Pick(i & 0xF, 0x76DC4190, 0x01DB7106, 0x98D220BC, 0xEFD5102A,
           0x71B18589, 0x06B6B51F, 0x9FBFE4A5, 0xE8B8D433,
           0x7807C9A2, 0x0F00F934, 0x9609A88E, 0xE10E9818,
           0x7F6A0DBB, 0x086D3D2D, 0x91646C97, 0xE6635C01)
    else if i < 0x60 then
      Pick(i & 0xF, 0x6B6B51F4, 0x1C6C6162, 0x856530D8, 0xF262004E,
           0x6C0695ED, 0x1B01A57B, 0x8208F4C1, 0xF50FC457,
           0x65B0D9C6, 0x12B7E950, 0x8BBEB8EA, 0xFCB9887C,
           0x62DD1DDF, 0x15DA2D49, 0x8CD37CF3, 0xFBD44C65)
    else if i < 0x70 then
      Pick(i & 0xF, 0x4DB26158, 0x3AB551CE, 0xA3BC0074, 0xD4BB30E2,
           0x4ADFA541, 0x3DD895D7, 0xA4D1C46D, 0xD3D6F4FB,
           0x4369E96A, 0x346ED9FC, 0xAD678846, 0xDA60B8D0,
           0x44042D73, 0x33031DE5, 0xAA0A4C5F, 0xDD0D7CC9)
    else if i < 0x80 then
      Pick(i & 0xF, 0x5005713C, 0x270241AA, 0xBE0B1010, 0xC90C2086,
           0x5768B525, 0x206F85B3, 0xB966D409, 0xCE61E49F,
           0x5EDEF90E, 0x29D9C998, 0xB0D09822, 0xC7D7A8B4,
           0x59B33D17, 0x2EB40D81, 0xB7BD5C3B, 0xC0BA6CAD)
    else if i < 0x90 then
      Pick(i & 0xF, 0xEDB88320, 0x9ABFB3B6, 0x03B6E20C, 0x74B1D29A,
           0xEAD54739, 0x9DD277AF, 0x04DB2615, 0x73DC1683,
           0xE3630B12, 0x94643B84, 0x0D6D6A3E, 0x7A6A5AA8,
           0xE40ECF0B, 0x9309FF9D, 0x0A00AE27, 0x7D079EB1)
    else if i < 0xA0 then
      Pick(i & 0xF, 0xF00F9344, 0x8708A3D2, 0x1E01F268, 0x6906C2FE,
           0xF762575D, 0x806567CB, 0x196C3671, 0x6E6B06E7,
           0xFED41B76, 0x89D32BE0, 0x10DA7A5A, 0x67DD4ACC,
           0xF9B9DF6F, 0x8EBEEFF9, 0x17B7BE43, 0x60B08ED5)
    else if i < 0xB0 then
      Pick(i & 0xF, 0xD6D6A3E8, 0xA1D1937E, 0x38D8C2C4, 0x4FDFF252,
           0xD1BB67F1, 0xA6BC5767, 0x3FB506DD, 0x48B2364B,
           0xD80D2BDA, 0xAF0A1B4C, 0x36034AF6, 0x41047A60,
           0xDF60EFC3, 0xA867DF55, 0x316E8EEF, 0x4669BE79)
    else if i < 0xC0 then
      Pick(i & 0xF, 0xCB61B38C, 0xBC66831A, 0x256FD2A0, 0x5268E236,
           0xCC0C7795, 0xBB0B4703, 0x220216B9, 0x5505262F,
           0xC5BA3BBE, 0xB2BD0B28, 0x2BB45A92, 0x5CB36A04,
           0xC2D7FFA7, 0xB5D0CF31, 0x2CD99E8B, 0x5BDEAE1D)
    else if i < 0xD0 then
      Pick(i & 0xF, 0x9B64C2B0, 0xEC63F226, 0x756AA39C, 0x026D930A,
           0x9C0906A9, 0xEB0E363F, 0x72076785, 0x05005713,
           0x95BF4A82, 0xE2B87A14, 0x7BB12BAE, 0x0CB61B38,
           0x92D28E9B, 0xE5D5BE0D, 0x7CDCEFB7, 0x0BDBDF21)
    else if i < 0xE0 then
      Pick(i & 0xF, 0x86D3D2D4, 0xF1D4E242, 0x68DDB3F8, 0x1FDA836E,
           0x81BE16CD, 0xF6B9265B, 0x6FB077E1, 0x18B74777,
           0x88085AE6, 0xFF0F6A70, 0x66063BCA, 0x11010B5C,
           0x8F659EFF, 0xF862AE69, 0x616BFFD3, 0x166CCF45)
    else if i < 0xF0 then
      Pick(i & 0xF, 0xA00AE278, 0xD70DD2EE, 0x4E048354, 0x3903B3C2,
           0xA7672661, 0xD06016F7, 0x4969474D, 0x3E6E77DB,
           0xAED16A4A, 0xD9D65ADC, 0x40DF0B66, 0x37D83BF0,
           0xA9BCAE53, 0xDEBB9EC5, 0x47B2CF7F, 0x30B5FFE9)
    else
      Pick(i & 0xF, 0xBDBDF21C, 0xCABAC28A, 0x53B39330, 0x24B4A3A6,
           0xBAD03605, 0xCDD70693, 0x54DE5729, 0x23D967BF,
           0xB3667A2E, 0xC4614AB8, 0x5D681B02, 0x2A6F2B94,
           0xB40BBE37, 0xC30C8EA1, 0x5A05DF1B, 0x2D02EF8D)
  }

  lemma TableStart(i: bv8)
    requires i < 0x20
    ensures CRCTable(i) == Bits8(i as bv32)
  {
  }

  lemma TableQuarter0(i: bv8)
    requires 0x20 <= i < 0x40
    ensures CRCTable(i) == Bits8(i as bv32)
  {
  }

  lemma TableQuarter1(i: bv8)
    requires 0x40 <= i < 0x80
    ensures CRCTable(i) == Bits8(i as bv32)
  {
  }

  lemma TableQuarter2(i: bv8)
    requires 0x80 <= i < 0xC0
    ensures CRCTable(i) == Bits8(i as bv32)
  {
  }

  lemma TableQuarter3(i: bv8)
    requires 0xC0 <= i
    ensures CRCTable(i) == Bits8(i as bv32)
  {
  }

  /** Every table entry is its index after eight bit steps. */
  lemma TableEntry(i: bv8)
    ensures CRCTable(i) == Bits8(i as bv32)
  {
    hide CRCTable, Bits8;
    if i < 0x20 {
      TableStart(i);
    } else if i < 0x40 {
      TableQuarter0(i);
    } else if i < 0x80 {
      TableQuarter1(i);
    } else if i < 0xC0 {
      TableQuarter2(i);
    } else {
      TableQuarter3(i);
    }
  }

  // Exclusive or: first on the bit vectors, then with `Xor` as an operation of its own.

  lemma XorIs(a: bv32, b: bv32)
    ensures Xor(a, b) == a ^ b
  {
  }

  lemma HalfBits(a: bv32, b: bv32, x: bv32, y: bv32)
    requires x == a ^ b && y == (a >> 1) ^ (b >> 1)
    ensures x >> 1 == y
  {
  }

  lemma HalfIs(a: bv32)
    ensures Half(a) == a >> 1
  {
  }

  lemma HalfXor(a: bv32, b: bv32)
    ensures Half(Xor(a, b)) == Xor(Half(a), Half(b))
  {
    hide Xor, Half;
    var x, y := Xor(a, b), Xor(Half(a), Half(b));
    XorIs(a, b);
    XorIs(Half(a), Half(b));
    HalfIs(a);
    HalfIs(b);
    HalfIs(x);
    HalfBits(a, b, x, y);
  }

  lemma SwapBits(a: bv32, b: bv32, p: bv32, q: bv32, ab: bv32, pq: bv32, ap: bv32, bq: bv32)
    requires ab == a ^ b && pq == p ^ q && ap == a ^ p && bq == b ^ q
    ensures ab ^ pq == ap ^ bq
  {
  }

  lemma SwapXor(a: bv32, b: bv32, p: bv32, q: bv32)
    ensures Xor(Xor(a, b), Xor(p, q)) == Xor(Xor(a, p), Xor(b, q))
  {
    hide Xor;
    var ab, pq, ap, bq := Xor(a, b), Xor(p, q), Xor(a, p), Xor(b, q);
    XorIs(a, b); XorIs(p, q); XorIs(a, p); XorIs(b, q);
    XorIs(ab, pq); XorIs(ap, bq);
    SwapBits(a, b, p, q, ab, pq, ap, bq);
  }

  lemma LowBitXor(a: bv32, b: bv32)
    ensures Xor(a, b) & 1 == if a & 1 == b & 1 then 0 else 1
  {
  }

  lemma PolyXor(a: bv32, b: bv32)
    ensures Poly(Xor(a, b)) == Xor(Poly(a), Poly(b))
  {
    LowBitXor(a, b);
    PolySum(Poly(a), Poly(b));
    hide Xor;
  }

  lemma PolySum(p: bv32, q: bv32)
    requires (p == 0 || p == 0xEDB88320) && (q == 0 || q == 0xEDB88320)
    ensures Xor(p, q) == if p == q then 0 else 0xEDB88320
  {
  }

  /** Bit steps are linear over exclusive or. */
  lemma BitStepXor(a: bv32, b: bv32)
    ensures BitStep(Xor(a, b)) == Xor(BitStep(a), BitStep(b))
  {
    hide Poly, Half, Xor;
    HalfXor(a, b);
    PolyXor(a, b);
    SwapXor(Half(a), Half(b), Poly(a), Poly(b));
  }

  lemma Bits8Xor(a: bv32, b: bv32)
    ensures Bits8(Xor(a, b)) == Xor(Bits8(a), Bits8(b))
  {
    hide BitStep, Xor;
    var a1, b1 := BitStep(a), BitStep(b);
    var a2, b2 := BitStep(a1), BitStep(b1);
    var a3, b3 := BitStep(a2), BitStep(b2);
    var a4, b4 := BitStep(a3), BitStep(b3);
    var a5, b5 := BitStep(a4), BitStep(b4);
    var a6, b6 := BitStep(a5), BitStep(b5);
    BitStepXor(a, b);
    BitStepXor(a1, b1);
    BitStepXor(a2, b2);
    BitStepXor(a3, b3);
    BitStepXor(a4, b4);
    BitStepXor(a5, b5);
    BitStepXor(a6, b6);
    BitStepXor(BitStep(a6), BitStep(b6));
  }

  /** On a word with a zero low byte, eight bit steps only shift. */
  lemma Bits8High(c: bv32)
    requires c & 0xFF == 0
    ensures Bits8(c) == c >> 8
  {
  }

  function LowByte(c: bv32): bv8 { (c & 0xFF) as bv8 }

  lemma SplitByte(c: bv32)
    ensures c == Xor(c & 0xFFFFFF00, LowByte(c) as bv32)
    ensures (c & 0xFFFFFF00) & 0xFF == 0
    ensures (c & 0xFFFFFF00) >> 8 == c >> 8
  {
  }

  lemma HighByteSteps(c: bv32)
    ensures Bits8(c & 0xFFFFFF00) == c >> 8
  {
    hide Bits8;
    SplitByte(c);
    Bits8High(c & 0xFFFFFF00);
  }

  function Shift8(c: bv32): bv32 { c >> 8 }

  /** Eight bit steps: shift the high bytes down and fold in the low byte's remainder. */
  lemma Bits8Splits(c: bv32)
    ensures Bits8(c) == Xor(Shift8(c), CRCTable(LowByte(c)))
  {
    hide Bits8, Xor, LowByte, CRCTable;
    SplitByte(c);
    Bits8Xor(c & 0xFFFFFF00, LowByte(c) as bv32);
    HighByteSteps(c);
    TableEntry(LowByte(c));
  }

  // The loop of `CalculateCrc` works in a 64-bit word.

  function TableIndex(c: bv64, b: bv8): bv8 { ((c & 0xFF) as bv8) ^ b }

  function Wide(c: bv32): bv64 { c as bv64 }

  function Fold(c: bv64, e: bv32): bv64 { (c >> 8) ^ (e as bv64) }

  /** One step of the loop. */
  function TableStep(c: bv64, b: bv8): bv64 { Fold(c, CRCTable(TableIndex(c, b))) }

  lemma IndexBits(c: bv32, b: bv8, x: bv32)
    requires x == c ^ (b as bv32)
    ensures Shift8(x) == Shift8(c)
    ensures TableIndex(c as bv64, b) == LowByte(x)
  {
  }

  lemma IndexIs(c: bv32, b: bv8)
    ensures Shift8(Xor(c, b as bv32)) == Shift8(c)
    ensures TableIndex(Wide(c), b) == LowByte(Xor(c, b as bv32))
  {
    hide Xor, Shift8, TableIndex, LowByte;
    XorIs(c, b as bv32);
    IndexBits(c, b, Xor(c, b as bv32));
  }

  lemma WideBits(c: bv32, e: bv32, x: bv32)
    requires x == (c >> 8) ^ e
    ensures ((c as bv64) >> 8) ^ (e as bv64) == x as bv64
  {
  }

  lemma FoldIs(c: bv32, e: bv32)
    ensures Fold(Wide(c), e) == Wide(Xor(Shift8(c), e))
  {
    hide Xor;
    XorIs(Shift8(c), e);
    WideBits(c, e, Xor(Shift8(c), e));
  }

  /** The table-driven step is the bit-by-bit step, and the upper half of the word stays zero. */
  lemma StepsAgree(c: bv32, b: bv8)
    ensures TableStep(Wide(c), b) == Wide(ByteStep(c, b))
  {
    hide CRCTable, Bits8, Xor, LowByte, TableIndex, Fold, Shift8, Wide;
    var x := Xor(c, b as bv32);
    IndexIs(c, b);
    Bits8Splits(x);
    FoldIs(c, CRCTable(LowByte(x)));
  }

  /** The complement, cut to 32 bits. */
  function Finish(c: bv64): bv32 { ((c ^ 0xFFFFFFFF) & 0xFFFFFFFF) as bv32 }

  lemma FinishBits(c: bv32, x: bv32)
    requires x == c ^ 0xFFFFFFFF
    ensures (((c as bv64) ^ 0xFFFFFFFF) & 0xFFFFFFFF) as bv32 == x
  {
  }

  lemma FinishIs(c: bv32)
    ensures Finish(Wide(c)) == Xor(c, 0xFFFFFFFF)
  {
    hide Xor;
    XorIs(c, 0xFFFFFFFF);
    FinishBits(c, Xor(c, 0xFFFFFFFF));
  }

  lemma StepsExtend(c: bv32, s: seq<bv8>, i: nat)
    requires i < |s|
    ensures Steps(c, s[..i + 1]) == ByteStep(Steps(c, s[..i]), s[i])
  {
    hide ByteStep;
    assert s[..i + 1][..i] == s[..i];
  }

  /** The checksum of the first `size` bytes. */
  method CalculateCrc(pt: array<bv8>, size: nat) returns (crc: bv32)
    requires size <= pt.Length
    ensures crc == Crc32(pt[..size])
  {
    hide TableStep, Wide, ByteStep, Finish, Xor;
    ghost var s := pt[..size];
    var word: bv64 := 0xFFFFFFFF;
    WideStart();
    var i := 0;
    while i < size
      invariant i <= size
      invariant word == Wide(Steps(0xFFFFFFFF, s[..i]))
    {
      StepsAgree(Steps(0xFFFFFFFF, s[..i]), s[i]);
      StepsExtend(0xFFFFFFFF, s, i);
      word := TableStep(word, pt[i]);
      i := i + 1;
    }
    assert s[..size] == s;
    FinishIs(Steps(0xFFFFFFFF, s));
    crc := Finish(word);
  }

  lemma WideStart()
    ensures Wide(0xFFFFFFFF) == 0xFFFFFFFF
  {
  }

  // Steps can be undone, so a difference survives every later byte.

  function BitBack(d: bv32): bv32
  {
    if d & 0x80000000 != 0 then ((d ^ 0xEDB88320) << 1) | 1 else d << 1
  }

  lemma BitBackUndoes(c: bv32)
    ensures BitBack(BitStep(c)) == c
  {
  }

  lemma BitStepInjective(c: bv32, d: bv32)
    requires BitStep(c) == BitStep(d)
    ensures c == d
  {
    hide BitStep, BitBack;
    BitBackUndoes(c);
    BitBackUndoes(d);
  }

  lemma Bits8Injective(c: bv32, d: bv32)
    requires Bits8(c) == Bits8(d)
    ensures c == d
  {
    hide BitStep;
    var c1, d1 := BitStep(c), BitStep(d);
    var c2, d2 := BitStep(c1), BitStep(d1);
    var c3, d3 := BitStep(c2), BitStep(d2);
    var c4, d4 := BitStep(c3), BitStep(d3);
    var c5, d5 := BitStep(c4), BitStep(d4);
    var c6, d6 := BitStep(c5), BitStep(d5);
    BitStepInjective(BitStep(c6), BitStep(d6));
    BitStepInjective(c6, d6);
    BitStepInjective(c5, d5);
    BitStepInjective(c4, d4);
    BitStepInjective(c3, d3);
    BitStepInjective(c2, d2);
    BitStepInjective(c1, d1);
    BitStepInjective(c, d);
  }

  lemma XorInjective(a: bv32, b: bv32, c: bv32)
    requires Xor(a, c) == Xor(b, c)
    ensures a == b
  {
  }

  lemma ByteStepInjective(c: bv32, d: bv32, b: bv8)
    requires ByteStep(c, b) == ByteStep(d, b)
    ensures c == d
  {
    hide Bits8, Xor;
    Bits8Injective(Xor(c, b as bv32), Xor(d, b as bv32));
    XorInjective(c, d, b as bv32);
  }

  lemma {:induction false} StepsInjective(c: bv32, d: bv32, s: seq<bv8>)
    requires Steps(c, s) == Steps(d, s)
    ensures c == d
    decreases |s|
  {
    hide ByteStep;
    if s != [] {
      var front := s[..|s| - 1];
      ByteStepInjective(Steps(c, front), Steps(d, front), s[|s| - 1]);
      StepsInjective(c, d, front);
    }
  }

  lemma {:induction false} StepsConcat(c: bv32, s: seq<bv8>, t: seq<bv8>)
    ensures Steps(c, s + t) == Steps(Steps(c, s), t)
    decreases |t|
  {
    hide ByteStep;
    if t == [] {
      assert s + t == s;
    } else {
      var front := t[..|t| - 1];
      assert (s + t)[..|s + t| - 1] == s + front;
      StepsConcat(c, s, front);
    }
  }

  // A difference of at most four bytes changes the checksum.

  function Bits32(c: bv32): bv32 { Bits8(Bits8(Bits8(Bits8(c)))) }

  function Up8(c: bv32): bv32 { c << 8 }

  /** The bytes as a little-endian word. */
  function Word(b0: bv8, b1: bv8, b2: bv8, b3: bv8): bv32
  {
    Xor(b0 as bv32, Up8(Xor(b1 as bv32, Up8(Xor(b2 as bv32, Up8(b3 as bv32))))))
  }

  lemma WordInjective(a0: bv8, a1: bv8, a2: bv8, a3: bv8, b0: bv8, b1: bv8, b2: bv8, b3: bv8)
    requires Word(a0, a1, a2, a3) == Word(b0, b1, b2, b3)
    ensures a0 == b0 && a1 == b1 && a2 == b2 && a3 == b3
  {
  }

  lemma Up8Steps(c: bv32)
    requires c & 0xFF000000 == 0
    ensures Bits8(Up8(c)) == c
  {
    hide Bits8;
    Up8Bits(c);
    Bits8High(Up8(c));
  }

  lemma Up8Bits(c: bv32)
    requires c & 0xFF000000 == 0
    ensures Up8(c) & 0xFF == 0 && Up8(c) >> 8 == c
  {
  }

  lemma XorAssociative(a: bv32, b: bv32, c: bv32)
    ensures Xor(Xor(a, b), c) == Xor(a, Xor(b, c))
  {
  }

  /** The byte just read, and the ones still to come `w`, go through eight bit steps together. */
  lemma ByteAhead(c: bv32, b: bv8, w: bv32)
    requires w & 0xFF000000 == 0
    ensures Xor(ByteStep(c, b), w) == Bits8(Xor(c, Xor(b as bv32, Up8(w))))
  {
    hide Bits8, Xor, Up8;
    Up8Steps(w);
    Bits8Xor(Xor(c, b as bv32), Up8(w));
    XorAssociative(c, b as bv32, Up8(w));
  }

  lemma WordTails(b1: bv8, b2: bv8, b3: bv8)
    ensures (b3 as bv32) & 0xFF000000 == 0
    ensures Xor(b2 as bv32, Up8(b3 as bv32)) & 0xFF000000 == 0
    ensures Xor(b1 as bv32, Up8(Xor(b2 as bv32, Up8(b3 as bv32)))) & 0xFF000000 == 0
  {
  }

  lemma FourBytes(c: bv32, b0: bv8, b1: bv8, b2: bv8, b3: bv8)
    ensures ByteStep(ByteStep(ByteStep(ByteStep(c, b0), b1), b2), b3) == Bits32(Xor(c, Word(b0, b1, b2, b3)))
  {
    hide Bits8, Xor, Up8, ByteStep;
    WordTails(b1, b2, b3);
    var w3 := b3 as bv32;
    var w2 := Xor(b2 as bv32, Up8(w3));
    var w1 := Xor(b1 as bv32, Up8(w2));
    var c1 := ByteStep(c, b0);
    var c2 := ByteStep(c1, b1);
    var c3 := ByteStep(c2, b2);
    ByteAhead(c, b0, w1);
    ByteAhead(c1, b1, w2);
    ByteAhead(c2, b2, w3);
    ByteStepIs(c3, b3);
  }

  lemma ByteStepIs(c: bv32, b: bv8)
    ensures ByteStep(c, b) == Bits8(Xor(c, b as bv32))
  {
  }

  lemma WordDecides(c: bv32, v: bv32, w: bv32)
    requires Bits32(Xor(c, v)) == Bits32(Xor(c, w))
    ensures v == w
  {
    hide Bits8, Xor;
    var a, b := Xor(c, v), Xor(c, w);
    Bits8Injective(Bits8(Bits8(Bits8(a))), Bits8(Bits8(Bits8(b))));
    Bits8Injective(Bits8(Bits8(a)), Bits8(Bits8(b)));
    Bits8Injective(Bits8(a), Bits8(b));
    Bits8Injective(a, b);
    XorCancels(c, v, w);
  }

  lemma XorCancels(c: bv32, v: bv32, w: bv32)
    requires Xor(c, v) == Xor(c, w)
    ensures v == w
  {
  }

  lemma FourSteps(c: bv32, s: seq<bv8>)
    requires |s| == 4
    ensures Steps(c, s) == Bits32(Xor(c, Word(s[0], s[1], s[2], s[3])))
  {
    hide ByteStep, Bits32, Word, Xor;
    StepsExtend(c, s, 0);
    StepsExtend(c, s, 1);
    StepsExtend(c, s, 2);
    StepsExtend(c, s, 3);
    assert s[..4] == s;
    FourBytes(c, s[0], s[1], s[2], s[3]);
  }

  /** Four bytes are determined by the state before and after them. */
  lemma FourBytesDecided(c: bv32, s: seq<bv8>, t: seq<bv8>)
    requires |s| == |t| == 4 && Steps(c, s) == Steps(c, t)
    ensures s == t
  {
    hide Steps, Bits32, Word, Xor;
    FourSteps(c, s);
    FourSteps(c, t);
    var v, w := Word(s[0], s[1], s[2], s[3]), Word(t[0], t[1], t[2], t[3]);
    WordDecides(c, v, w);
    WordInjective(s[0], s[1], s[2], s[3], t[0], t[1], t[2], t[3]);
  }

  /** The strings may differ in the four bytes from `at` on, and nowhere else. */
  predicate Burst<T(==)>(s: seq<T>, t: seq<T>, at: nat)
  {
    |s| == |t| && forall k :: 0 <= k < |s| && !(at <= k < at + 4) ==> s[k] == t[k]
  }

  lemma StepsBurst(c: bv32, s: seq<bv8>, t: seq<bv8>, at: nat)
    requires Burst(s, t, at) && at + 4 <= |s| && Steps(c, s) == Steps(c, t)
    ensures s == t
  {
    hide Steps;
    var front, back := s[..at], s[at + 4..];
    var x, y := s[at..at + 4], t[at..at + 4];
    assert t[..at] == front && t[at + 4..] == back;
    assert s == front + x + back && t == front + y + back;
    StepsConcat(c, front + x, back);
    StepsConcat(c, front + y, back);
    StepsConcat(c, front, x);
    StepsConcat(c, front, y);
    StepsInjective(Steps(c, front + x), Steps(c, front + y), back);
    FourBytesDecided(Steps(c, front), x, y);
  }

  /** Byte strings that differ only within four consecutive bytes have different checksums. */
  lemma BurstChangesCrc(s: seq<bv8>, t: seq<bv8>, at: nat)
    requires Burst(s, t, at)
    ensures Crc32(s) == Crc32(t) <==> s == t
  {
    hide Steps, Xor;
    if Crc32(s) == Crc32(t) {
      XorInjective(Steps(0xFFFFFFFF, s), Steps(0xFFFFFFFF, t), 0xFFFFFFFF);
      if |s| <= at {
        assert s == t;
      } else {
        var pad: seq<bv8> := [0, 0, 0, 0];
        StepsConcat(0xFFFFFFFF, s, pad);
        StepsConcat(0xFFFFFFFF, t, pad);
        StepsBurst(0xFFFFFFFF, s + pad, t + pad, at);
        assert s == (s + pad)[..|s|] && t == (t + pad)[..|t|];
      }
    }
  }

  // The header of an EFI table: the CRC32 field is the little-endian word at offset 16.

  const CRC_OFFSET: nat := 16
  const HEADER_BYTES: nat := 24

  function FieldBytes(c: bv32): (b: seq<bv8>)
    ensures |b| == 4
  {
    [(c & 0xFF) as bv8, ((c >> 8) & 0xFF) as bv8, ((c >> 16) & 0xFF) as bv8, ((c >> 24) & 0xFF) as bv8]
  }

  function WithField(h: seq<bv8>, c: bv32): (g: seq<bv8>)
    requires HEADER_BYTES <= |h|
    ensures |g| == |h|
  {
    h[..CRC_OFFSET] + FieldBytes(c) + h[CRC_OFFSET + 4..]
  }

  function FieldOf(h: seq<bv8>): bv32
    requires HEADER_BYTES <= |h|
  {
    Word(h[CRC_OFFSET], h[CRC_OFFSET + 1], h[CRC_OFFSET + 2], h[CRC_OFFSET + 3])
  }

  lemma FieldBytesWord(c: bv32)
    ensures var b := FieldBytes(c); Word(b[0], b[1], b[2], b[3]) == c
  {
  }

  // Which checksum it is: its start value, its complement and its byte order.

  lemma EmptyCrc()
    ensures Crc32([]) == 0
  {
  }

  /**
   A string followed by its own checksum, low byte first, always has the same checksum: the residue of
   CRC-32. Any other start value, complement or byte order gives another one, or none.
   */
  lemma Residue(s: seq<bv8>)
    ensures Crc32(s + FieldBytes(Crc32(s))) == 0x2144DF1C
  {
    var c := Steps(0xFFFFFFFF, s);
    var f := FieldBytes(Crc32(s));
    hide Steps, Bits32, Word, FieldBytes;
    StepsConcat(0xFFFFFFFF, s, f);
    FourSteps(c, f);
    FieldBytesWord(Crc32(s));
    XorSelf(c);
    ResidueBits();
  }

  lemma XorSelf(c: bv32)
    ensures Xor(c, Xor(c, 0xFFFFFFFF)) == 0xFFFFFFFF
  {
  }

  lemma ResidueBits()
    ensures Xor(Bits32(0xFFFFFFFF), 0xFFFFFFFF) == 0x2144DF1C
  {
    hide Bits8;
    ResidueByte0();
    ResidueByte1();
    ResidueByte2();
    ResidueByte3();
  }

  lemma ResidueByte0()
    ensures Bits8(0xFFFFFFFF) == 0x2DFD1072
  {
  }

  lemma ResidueByte1()
    ensures Bits8(0x2DFD1072) == 0xBE26ED00
  {
  }

  lemma ResidueByte2()
    ensures Bits8(0xBE26ED00) == 0x00BE26ED
  {
  }

  lemma ResidueByte3()
    ensures Bits8(0x00BE26ED) == 0xDEBB20E3
  {
  }

  /** The check value of CRC-32: the checksum of "123456789". */
  lemma CheckValue(s: seq<bv8>)
    requires |s| == 9 && s[0] == 0x31 && s[1] == 0x32 && s[2] == 0x33 && s[3] == 0x34 && s[4] == 0x35
      && s[5] == 0x36 && s[6] == 0x37 && s[7] == 0x38 && s[8] == 0x39
    ensures Crc32(s) == 0xCBF43926
  {
    CheckBytes();
    StepsNone(0xFFFFFFFF);
    hide Steps, ByteStep, Xor;
    assert s[..0] == [] && s[..9] == s;
    StepTo(s, 0, 0xFFFFFFFF, 0x7C231048);
    StepTo(s, 1, 0x7C231048, 0xB0ACBB32);
    StepTo(s, 2, 0xB0ACBB32, 0x77B79C2D);
    StepTo(s, 3, 0x77B79C2D, 0x641C1F5C);
    StepTo(s, 4, 0x641C1F5C, 0x340AC5E3);
    StepTo(s, 5, 0x340AC5E3, 0xF68D2C9E);
    StepTo(s, 6, 0xF68D2C9E, 0xAFFC9660);
    StepTo(s, 7, 0xAFFC9660, 0x651F2550);
    StepTo(s, 8, 0x651F2550, 0x340BC6D9);
  }

  lemma StepsNone(c: bv32)
    ensures Steps(c, []) == c
  {
  }

  lemma StepTo(s: seq<bv8>, i: nat, c: bv32, d: bv32)
    requires i < |s| && Steps(0xFFFFFFFF, s[..i]) == c && ByteStep(c, s[i]) == d
    ensures Steps(0xFFFFFFFF, s[..i + 1]) == d
  {
    StepsExtend(0xFFFFFFFF, s, i);
  }

  lemma CheckBytes()
    ensures ByteStep(0xFFFFFFFF, 0x31) == 0x7C231048
    ensures ByteStep(0x7C231048, 0x32) == 0xB0ACBB32
    ensures ByteStep(0xB0ACBB32, 0x33) == 0x77B79C2D
    ensures ByteStep(0x77B79C2D, 0x34) == 0x641C1F5C
    ensures ByteStep(0x641C1F5C, 0x35) == 0x340AC5E3
    ensures ByteStep(0x340AC5E3, 0x36) == 0xF68D2C9E
    ensures ByteStep(0xF68D2C9E, 0x37) == 0xAFFC9660
    ensures ByteStep(0xAFFC9660, 0x38) == 0x651F2550
    ensures ByteStep(0x651F2550, 0x39) == 0x340BC6D9
    ensures Xor(0x340BC6D9, 0xFFFFFFFF) == 0xCBF43926
  {
  }

  /** The checksum of a header, with its CRC32 field taken as zero. */
  function Checksum(h: seq<bv8>, size: nat): bv32
    requires HEADER_BYTES <= |h| && size <= |h|
  {
    Crc32(WithField(h, 0)[..size])
  }

  /** What `CheckCrcAltSize` answers. */
  predicate Checks(h: seq<bv8>, maxSize: nat, size: nat)
    requires HEADER_BYTES <= |h| && (maxSize == 0 || size <= maxSize ==> size <= |h|)
  {
    size != 0 && (maxSize == 0 || size <= maxSize) && FieldOf(h) == Checksum(h, size)
  }

  method WriteField(hdr: array<bv8>, crc: bv32)
    requires HEADER_BYTES <= hdr.Length
    modifies hdr
    ensures hdr[..] == WithField(old(hdr[..]), crc)
  {
    var b := FieldBytes(crc);
    hide FieldBytes;
    hdr[CRC_OFFSET], hdr[CRC_OFFSET + 1] := b[0], b[1];
    hdr[CRC_OFFSET + 2], hdr[CRC_OFFSET + 3] := b[2], b[3];
  }

  lemma FieldTwice(h: seq<bv8>, c: bv32, d: bv32)
    requires HEADER_BYTES <= |h|
    ensures FieldOf(WithField(h, c)) == c
    ensures WithField(WithField(h, c), d) == WithField(h, d)
    ensures WithField(h, FieldOf(h)) == h
  {
    FieldBytesWord(c);
    FieldBytesWord(FieldOf(h));
    var b := FieldBytes(FieldOf(h));
    hide FieldBytes;
    WordInjective(b[0], b[1], b[2], b[3],
                  h[CRC_OFFSET], h[CRC_OFFSET + 1], h[CRC_OFFSET + 2], h[CRC_OFFSET + 3]);
  }

  method SetCrcAltSize(size: nat, hdr: array<bv8>)
    requires HEADER_BYTES <= hdr.Length && size <= hdr.Length
    modifies hdr
    ensures hdr[..] == WithField(old(hdr[..]), Checksum(old(hdr[..]), size))
    ensures var h := old(hdr[..]);
      hdr[..] == h[..16] + FieldBytes(Crc32((h[..16] + [0, 0, 0, 0] + h[20..])[..size])) + h[20..]
  {
    hide FieldBytes, Word, Crc32;
    WriteField(hdr, 0);
    assert hdr[..size] == hdr[..][..size];
    var crc := CalculateCrc(hdr, size);
    WriteField(hdr, crc);
    FieldTwice(old(hdr[..]), 0, crc);
    FieldPlace(old(hdr[..]));
  }

  method CheckCrcAltSize(maxSize: nat, size: nat, hdr: array<bv8>) returns (ok: bool)
    requires HEADER_BYTES <= hdr.Length
    requires maxSize == 0 || size <= maxSize ==> size <= hdr.Length
    modifies hdr
    ensures ok <==> Checks(old(hdr[..]), maxSize, size)
    ensures var h := old(hdr[..]);
      ok <==> size != 0 && (maxSize == 0 || size <= maxSize)
              && h[16..20] == FieldBytes(Crc32((h[..16] + [0, 0, 0, 0] + h[20..])[..size]))
    ensures hdr[..] == old(hdr[..])
  {
    hide FieldBytes, Word, Crc32;
    if size == 0 {
      return false;
    }
    if maxSize != 0 && size > maxSize {
      return false;
    }
    var b := hdr[..];
    var stored := FieldOf(b);
    WriteField(hdr, 0);
    assert hdr[..size] == hdr[..][..size];
    var crc := CalculateCrc(hdr, size);
    WriteField(hdr, stored);
    FieldTwice(b, 0, stored);
    FieldTwice(b, stored, 0);
    ok := stored == crc;
    FieldPlace(b);
  }

  /** Where the field is, and what it holds. */
  lemma FieldPlace(h: seq<bv8>)
    requires HEADER_BYTES <= |h|
    ensures WithField(h, 0) == h[..16] + [0, 0, 0, 0] + h[20..]
    ensures forall c: bv32 :: FieldOf(h) == c <==> h[16..20] == FieldBytes(c)
  {
    ZeroField();
    hide FieldBytes, Word;
    forall c: bv32 ensures FieldOf(h) == c <==> h[16..20] == FieldBytes(c) {
      var b := FieldBytes(c);
      FieldBytesWord(c);
      if FieldOf(h) == c { WordInjective(b[0], b[1], b[2], b[3], h[16], h[17], h[18], h[19]); }
    }
  }

  lemma ZeroField()
    ensures FieldBytes(0) == [0, 0, 0, 0]
  {
  }

  /** A header passes the check right after its checksum is set, whatever it held. */
  lemma SetThenChecks(h: seq<bv8>, maxSize: nat, size: nat)
    requires HEADER_BYTES <= |h| && size <= |h|
    ensures Checks(WithField(h, Checksum(h, size)), maxSize, size)
       <==> size != 0 && (maxSize == 0 || size <= maxSize)
  {
    hide FieldOf, WithField, Crc32;
    FieldTwice(h, Checksum(h, size), 0);
  }

  /** A burst of at most four bytes outside the CRC32 field is noticed if it reaches a covered byte. */
  lemma BurstNoticed(h: seq<bv8>, g: seq<bv8>, maxSize: nat, size: nat, at: nat)
    requires HEADER_BYTES <= |h| && size <= |h| && Burst(h, g, at)
    requires at + 4 <= CRC_OFFSET || CRC_OFFSET + 4 <= at
    requires Checks(h, maxSize, size)
    ensures Checks(g, maxSize, size) <==> h[..size] == g[..size]
  {
    hide Crc32, FieldBytes, Word;
    var u, v := WithField(h, 0), WithField(g, 0);
    forall k | 0 <= k < |h| && !(at <= k < at + 4)
      ensures u[k] == v[k]
    {
      WithFieldAt(h, 0, k);
      WithFieldAt(g, 0, k);
    }
    assert FieldOf(h) == FieldOf(g);
    BurstChangesCrc(u[..size], v[..size], at);
    SameOutside(h, g, 0, size, at);
  }

  lemma WithFieldAt(h: seq<bv8>, c: bv32, k: nat)
    requires HEADER_BYTES <= |h| && k < |h|
    ensures WithField(h, c)[k]
         == if CRC_OFFSET <= k < CRC_OFFSET + 4 then FieldBytes(c)[k - CRC_OFFSET] else h[k]
  {
    hide FieldBytes;
  }

  lemma SameOutside(h: seq<bv8>, g: seq<bv8>, c: bv32, size: nat, at: nat)
    requires HEADER_BYTES <= |h| && size <= |h| && Burst(h, g, at)
    requires at + 4 <= CRC_OFFSET || CRC_OFFSET + 4 <= at
    ensures WithField(h, c)[..size] == WithField(g, c)[..size] <==> h[..size] == g[..size]
  {
    hide WithField, FieldBytes;
    var u, v := WithField(h, c), WithField(g, c);
    forall k | 0 <= k < size
      ensures u[k] == v[k] <==> h[k] == g[k]
    {
      WithFieldAt(h, c, k);
      WithFieldAt(g, c, k);
    }
    if h[..size] == g[..size] {
      forall k | 0 <= k < size
        ensures u[..size][k] == v[..size][k]
      {
        assert h[..size][k] == g[..size][k];
      }
    }
    if u[..size] == v[..size] {
      forall k | 0 <= k < size
        ensures h[..size][k] == g[..size][k]
      {
        assert u[..size][k] == v[..size][k];
      }
    }
  }

  /** Any change of the CRC32 field itself is noticed. */
  lemma FieldChangeNoticed(h: seq<bv8>, c: bv32, maxSize: nat, size: nat)
    requires HEADER_BYTES <= |h| && size <= |h| && Checks(h, maxSize, size)
    ensures Checks(WithField(h, c), maxSize, size) <==> WithField(h, c) == h
  {
    hide FieldOf, WithField, Crc32;
    FieldTwice(h, c, 0);
    FieldTwice(h, FieldOf(h), c);
  }
}
