/** Page-directory entries and the split of a virtual address into table indices. */
module Paging {
  import opened Words

  const PRESENT := 0
  const READ_WRITE := 1
  const ENTRIES := 512

  /** The frame number held in bits 12 to 51 of an entry. */
  function FrameOf(entry: nat): nat { Field(entry, 12, 40) }

  predicate IsPresent(entry: nat) { Bit(entry, PRESENT) }

  predicate IsWritable(entry: nat) { Bit(entry, READ_WRITE) }

  class PageDirectoryEntry {
    var Value: U64

    constructor (value: U64)
      ensures Value == value
    {
      Value := value;
    }

    method SetFlag(flag: nat, enabled: bool)
      requires flag < 64
      modifies this
      ensures Value == Splice(old(Value), flag, 1, if enabled then 1 else 0)
      ensures GetFlag(flag) == enabled && forall i: nat :: i != flag ==> GetFlag(i) == old(GetFlag(i))
    {
      ghost var was: nat := Value;
      Powers();
      SpliceBound(Value, flag, 1, 0, 64);
      Value := Splice(Value, flag, 1, 0);
      if enabled {
        SpliceBound(Value, flag, 1, 1, 64);
        SpliceTwice(was, flag, 1, 0, 1);
        Value := Splice(Value, flag, 1, 1);
      }
      forall i: nat ensures Bit(Value, i) == if i == flag then enabled else Bit(was, i) {
        SpliceBits(was, flag, 1, if enabled then 1 else 0, i);
      }
    }

    predicate GetFlag(flag: nat)
      reads this
    {
      Bit(Value, flag)
    }

    method SetAddress(address: U64)
      modifies this
      ensures Value == Splice(old(Value), 12, 40, address)
      ensures GetAddress() == Low(address, 40)
      ensures forall i: nat :: Bit(Value, i) == if 12 <= i < 52 then Bit(address, i - 12) else Bit(old(Value), i)
    {
      ghost var was: nat := Value;
      Powers();
      SpliceBound(Value, 12, 40, address, 64);
      Value := Splice(Value, 12, 40, address);
      FieldOfSplice(was, 12, 40, address);
      forall i: nat ensures Bit(Value, i) == if 12 <= i < 52 then Bit(address, i - 12) else Bit(was, i) {
        SpliceBits(was, 12, 40, address, i);
      }
    }

    function GetAddress(): nat
      reads this
    {
      FrameOf(Value)
    }
  }

  /** The entry `MapMemory` stores: `was` with a new address, present and writable. */
  function EntryFor(was: nat, frame: nat): nat
  {
    Splice(Splice(Splice(was, 12, 40, frame), PRESENT, 1, 1), READ_WRITE, 1, 1)
  }

  lemma EntryForReads(was: nat, frame: nat)
    ensures IsPresent(EntryFor(was, frame)) && Bit(EntryFor(was, frame), READ_WRITE)
    ensures FrameOf(EntryFor(was, frame)) == Low(frame, 40)
    ensures forall i: nat | 2 <= i < 12 || 52 <= i :: Bit(EntryFor(was, frame), i) == Bit(was, i)
  {
    var a := Splice(was, 12, 40, frame);
    var b := Splice(a, PRESENT, 1, 1);
    FieldOfSplice(was, 12, 40, frame);
    FieldAboveSplice(a, PRESENT, 1, 1, 12, 40);
    FieldAboveSplice(b, READ_WRITE, 1, 1, 12, 40);
    SpliceBits(a, PRESENT, 1, 1, PRESENT);
    SpliceBits(b, READ_WRITE, 1, 1, PRESENT);
    SpliceBits(b, READ_WRITE, 1, 1, READ_WRITE);
    forall i: nat | 2 <= i < 12 || 52 <= i ensures Bit(EntryFor(was, frame), i) == Bit(was, i) {
      SpliceBits(was, 12, 40, frame, i);
      SpliceBits(a, PRESENT, 1, 1, i);
      SpliceBits(b, READ_WRITE, 1, 1, i);
    }
  }

  /**
   The bits of such an entry: 0 and 1 are set, 12 to 51 are the frame number, and 2 to 11 and 52 to 63
   are as they were.
   */
  lemma EntryForBits(was: nat, frame: nat)
    ensures var e := EntryFor(was, frame);
      && e % 4 == 3 && e / 4096 % 0x100_0000_0000 == frame % 0x100_0000_0000
      && forall i: nat | 2 <= i < 12 || 52 <= i :: Bit(e, i) == Bit(was, i)
  {
    var e := EntryFor(was, frame);
    EntryForReads(was, frame);
    hide EntryFor;
    TwoBits(e);
    FieldIs(e, 12, 40);
    LowIs(frame, 40);
    Powers();
  }

  lemma TwoBits(e: nat)
    ensures Bit(e, 0) && Bit(e, 1) <==> e % 4 == 3
  {
    assert Bit(e, 1) == Bit(e / 2, 0);
  }

  /** The three updates `MapMemory` makes to its local copy of an entry. */
  method FillEntry(was: U64, address: U64) returns (entry: U64)
    ensures entry == EntryFor(was, address)
  {
    var pde := new PageDirectoryEntry(was);
    pde.SetAddress(address);
    pde.SetFlag(PRESENT, true);
    pde.SetFlag(READ_WRITE, true);
    entry := pde.Value;
  }

  /** Virtual page `vp` without its lowest `n` nine-bit indices. */
  function Up(vp: nat, n: nat): nat
  {
    if n == 0 then vp else Up(vp, n - 1) / ENTRIES
  }

  /** The index that virtual page `vp` uses in a table of the given level (4 is the PML4). */
  function IndexAt(vp: nat, level: nat): nat
    requires level >= 1
  {
    Up(vp, level - 1) % ENTRIES
  }

  class PageMapIndexer {
    var PDP_i: nat
    var PD_i: nat
    var PT_i: nat
    var P_i: nat

    /** The four indices of `virtualAddress`; below 2^48 they determine its page. */
    constructor (virtualAddress: U64)
      ensures PDP_i == virtualAddress / 0x80_0000_0000 % 512 && PD_i == virtualAddress / 0x4000_0000 % 512
      ensures PT_i == virtualAddress / 0x20_0000 % 512 && P_i == virtualAddress / 0x1000 % 512
      ensures PDP_i == IndexAt(virtualAddress / PAGE, 4)
      ensures PD_i == IndexAt(virtualAddress / PAGE, 3)
      ensures PT_i == IndexAt(virtualAddress / PAGE, 2)
      ensures P_i == IndexAt(virtualAddress / PAGE, 1)
    {
      var v := virtualAddress / 0x1000;
      ghost var vp := v;
      P_i := v % 0x200;
      v := v / 0x200;
      assert v == Up(vp, 1);
      PT_i := v % 0x200;
      v := v / 0x200;
      assert v == Up(vp, 2);
      PD_i := v % 0x200;
      v := v / 0x200;
      assert v == Up(vp, 3);
      PDP_i := v % 0x200;
      IndicesAre(virtualAddress);
    }
  }

  /** The nine bits of the address that index each level: from 39 on, 30 on, 21 on and 12 on. */
  lemma IndicesAre(address: nat)
    ensures IndexAt(address / 4096, 4) == address / 0x80_0000_0000 % 512
    ensures IndexAt(address / 4096, 3) == address / 0x4000_0000 % 512
    ensures IndexAt(address / 4096, 2) == address / 0x20_0000 % 512
    ensures IndexAt(address / 4096, 1) == address / 0x1000 % 512
  {
    var vp := address / 4096;
    assert Up(vp, 1) == vp / 512 == address / 0x20_0000;
    assert Up(vp, 2) == Up(vp, 1) / 512 == address / 0x4000_0000;
    assert Up(vp, 3) == Up(vp, 2) / 512 == address / 0x80_0000_0000;
  }

  lemma {:induction false} IndicesDeterminePage(vp: nat, wp: nat, level: nat)
    requires Up(vp, level) == Up(wp, level)
    requires forall l | 1 <= l <= level :: IndexAt(vp, l) == IndexAt(wp, l)
    ensures vp == wp
  {
    if level > 0 {
      assert IndexAt(vp, level) == IndexAt(wp, level);
      IndicesDeterminePage(vp, wp, level - 1);
    }
  }

  /** Pages below 2^48 are told apart by their four indices. */
  lemma FourIndices(vp: nat, wp: nat)
    requires vp < 0x10_0000_0000 && wp < 0x10_0000_0000
    ensures vp == wp <==> forall l | 1 <= l <= 4 :: IndexAt(vp, l) == IndexAt(wp, l)
  {
    UpIsZero(vp);
    UpIsZero(wp);
    if forall l | 1 <= l <= 4 :: IndexAt(vp, l) == IndexAt(wp, l) {
      IndicesDeterminePage(vp, wp, 4);
    }
  }

  lemma UpIsZero(vp: nat)
    requires vp < 0x10_0000_0000
    ensures Up(vp, 4) == 0
  {
    assert Up(vp, 1) < 0x800_0000;
    assert Up(vp, 2) < 0x4_0000;
    assert Up(vp, 3) < 0x200;
  }
}
