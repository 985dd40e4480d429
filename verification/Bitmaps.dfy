/** The packed bitmap: eight flags to a byte, most significant bit first. */
module Bitmaps {
  import opened Words

  /** `0b10000000 >> j`. */
  function Mask(j: nat): bv8
    requires j < 8
  {
    if j == 0 then 0x80 else Mask(j - 1) >> 1
  }

  predicate TestBit(b: bv8, j: nat)
    requires j < 8
  {
    b & Mask(j) > 0
  }

  /** Flag `j` of a byte is cleared, then set if asked to. */
  function WithFlag(b: bv8, j: nat, value: bool): bv8
    requires j < 8
  {
    if value then (b & !Mask(j)) | Mask(j) else b & !Mask(j)
  }

  predicate BitAt(bytes: seq<bv8>, k: nat)
    requires k / 8 < |bytes|
  {
    TestBit(bytes[k / 8], k % 8)
  }

  ghost function AllBits(bytes: seq<bv8>): (r: seq<bool>)
    ensures |r| == 8 * |bytes|
  {
    seq(8 * |bytes|, k requires 0 <= k < 8 * |bytes| => BitAt(bytes, k))
  }

  lemma Masks()
    ensures Mask(0) == 0x80 && Mask(1) == 0x40 && Mask(2) == 0x20 && Mask(3) == 0x10
    ensures Mask(4) == 0x08 && Mask(5) == 0x04 && Mask(6) == 0x02 && Mask(7) == 0x01
  {
    assert Mask(3) == 0x10;
    assert Mask(5) == 0x04;
  }

  lemma FlagLaws(b: bv8, i: nat, j: nat, value: bool)
    requires i < 8 && j < 8
    ensures TestBit(WithFlag(b, i, value), j) == if i == j then value else TestBit(b, j)
  {
    Masks();
  }

  lemma ByteUpdate(bytes: seq<bv8>, k: nat, value: bool)
    requires k / 8 < |bytes|
    ensures AllBits(bytes[k / 8 := WithFlag(bytes[k / 8], k % 8, value)]) == AllBits(bytes)[k := value]
  {
    var bytes' := bytes[k / 8 := WithFlag(bytes[k / 8], k % 8, value)];
    forall m | 0 <= m < 8 * |bytes| ensures AllBits(bytes')[m] == AllBits(bytes)[k := value][m] {
      if m / 8 == k / 8 {
        FlagLaws(bytes[k / 8], k % 8, m % 8, value);
      }
    }
  }

  /**
   `Size` bytes of flags at the start of `Buffer`, which stands for all memory from the bitmap's
   address on. The guards compare with `>`, so index `Size * 8`, one past the flags, is let through.
   */
  class Bitmap {
    var Size: nat
    var Buffer: array<bv8>

    constructor (size: nat, buffer: array<bv8>)
      ensures Size == size && Buffer == buffer
    {
      Size := size;
      Buffer := buffer;
    }

    ghost predicate Valid()
      reads this
    {
      Size < Buffer.Length
    }

    predicate GetBitmap(index: U64)
      requires Valid()
      reads this, Buffer
      ensures GetBitmap(index) == (index <= Size * 8 && AllBits(Buffer[..])[index])
    {
      if index > Size * 8 then false
      else TestBit(Buffer[index / 8], index % 8)
    }

    method SetBitmap(index: U64, value: bool) returns (ok: bool)
      requires Valid()
      modifies Buffer
      ensures ok == (index <= Size * 8)
      ensures AllBits(Buffer[..]) == if ok then old(AllBits(Buffer[..]))[index := value] else old(AllBits(Buffer[..]))
    {
      if index > Size * 8 { return false; }
      ByteUpdate(Buffer[..], index, value);
      Buffer[index / 8] := WithFlag(Buffer[index / 8], index % 8, value);
      assert Buffer[..] == old(Buffer[..])[index / 8 := Buffer[index / 8]];
      return true;
    }
  }
}
