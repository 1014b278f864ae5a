/** Addresses fixed by the hypervisor (src/consts.rs). */
module Consts {
  const BOOT_GDT: nat := 0x1000
  const BOOT_INFO_ADDR: nat := 0x9000
  const BOOT_PML4: nat := 0x10000
  const BOOT_PDPTE: nat := 0x11000
  const BOOT_PDE: nat := 0x12000
  /** One past the three page-table pages. */
  const BOOT_TABLES_END: nat := 0x13000
  const KERNEL_STACK_SIZE: nat := 32_768
  const UHYVE_UART_PORT: nat := 0x800
}

/** The software page-table walk of src/linux/vcpu.rs.

    `VirtToPhys` is the loop of the source, with its masks and shifts, over the raw
    words of guest memory.  `RawWalk` is what that loop computes, said with division and
    remainder.  `SdmWalk` is the translation that section 4.5 of Intel SDM Vol. 3A
    defines for 4-level paging, including the cases in which it does not translate.
 */
module Walker {
  import opened Bits
  import opened GuestMemory
  import opened Options
  import opened Paging
  import opened Consts
  import Literals

  /** Levels count down: 3 is the PML4, 2 the PDPT, 1 the PD, 0 the PT. */
  function Shift(level: nat): nat { PAGE_BITS + PAGE_MAP_BITS * level }

  function Index(addr: u64, level: nat): (i: nat)
    ensures i < 512
  {
    Shr(addr, Shift(level)) % 512
  }

  /** The word that the walk reads at one level. */
  function EntryAt(m: seq<byte>, addr: u64, table: nat, level: nat): u64
    requires table + 4096 <= |m|
  {
    Word(m, table + 8 * Index(addr, level))
  }

  /** Every table that the loop dereferences lies in guest memory. */
  ghost predicate Readable(m: seq<byte>, addr: u64, table: nat, level: nat)
    decreases m, level
  {
    && table + 4096 <= |m|
    && var e := EntryAt(m, addr, table, level);
       Bit(e, 7) || level == 0 || Readable(m, addr, Frame(e, 12), level - 1)
  }

  ghost function RawWalk(m: seq<byte>, addr: u64, table: nat, level: nat): nat
    requires Readable(m, addr, table, level)
    decreases m, level
  {
    var e := EntryAt(m, addr, table, level);
    if Bit(e, 7) || level == 0
    then Frame(e, Shift(level)) + Low(addr, Shift(level))
    else RawWalk(m, addr, Frame(e, 12), level - 1)
  }

  // ----- the loop -----

  method VirtToPhys(mem: array<byte>, addr: u64) returns (r: nat)
    requires Readable(mem[..], addr, BOOT_PML4, 3)
    ensures r == RawWalk(mem[..], addr, BOOT_PML4, 3)
  {
    hide And, Or, Pow2, Shr, Up, Low, High, Frame, Bit, Word, Readable, RawWalk, Index;
    var executableDisableMask := Not(EXECUTE_DISABLE);
    var pageTable := BOOT_PML4;
    var pageBits := 39;
    var entry := 0;
    ghost var m := mem[..];

    for i := 0 to 4
      invariant pageBits == 39 - 9 * i
      invariant i < 4 ==> Readable(m, addr, pageTable, 3 - i)
      invariant i < 4 ==> RawWalk(m, addr, BOOT_PML4, 3) == RawWalk(m, addr, pageTable, 3 - i)
      invariant 0 <= entry < EXECUTE_DISABLE
      invariant i == 4 ==> RawWalk(m, addr, BOOT_PML4, 3) == Frame(entry, PAGE_BITS) + Low(addr, PAGE_BITS)
    {
      WalkStep(m, addr, pageTable, 3 - i);
      IndexMask(addr, 3 - i);
      var index := And(Shr(addr, pageBits), Shl(1, PAGE_MAP_BITS) - 1);
      var word := Word(mem[..], pageTable + 8 * index);
      entry := And(word, executableDisableMask);
      EntryMask(word);

      if And(entry, HUGE_PAGE) != 0 {
        r := LeafAddress(entry, addr, pageBits);
        return;
      } else {
        TableBits(entry);
        pageTable := And(entry, Not(Shl(1, PAGE_BITS) - 1));
        pageBits := pageBits - PAGE_MAP_BITS;
      }
    }

    r := LeafAddress(entry, addr, PAGE_BITS);
  }

  /** One iteration: a leaf ends the walk, anything else leads one level down. */
  lemma WalkStep(m: seq<byte>, addr: u64, table: nat, level: nat)
    requires Readable(m, addr, table, level)
    ensures table + 4096 <= |m|
    ensures var e := EntryAt(m, addr, table, level);
      if Bit(e, 7) || level == 0
      then RawWalk(m, addr, table, level) == Frame(e, Shift(level)) + Low(addr, Shift(level))
      else
        && Readable(m, addr, Frame(e, 12), level - 1)
        && RawWalk(m, addr, table, level) == RawWalk(m, addr, Frame(e, 12), level - 1)
  {
  }

  /** The expression both returns share: frame bits from the entry, offset bits from the address. */
  method LeafAddress(entry: nat, addr: u64, pageBits: nat) returns (r: nat)
    requires 0 < pageBits <= 39 && entry < EXECUTE_DISABLE
    ensures r == Frame(entry, pageBits) + Low(addr, pageBits)
  {
    LeafBits(entry, addr, pageBits);
    r := Or(And(entry, Shl(Not(0), pageBits)), And(addr, Not(Shl(Not(0), pageBits))));
  }

  lemma IndexMask(addr: u64, level: nat)
    ensures Shl(1, PAGE_MAP_BITS) >= 1
    ensures And(Shr(addr, Shift(level)), Shl(1, PAGE_MAP_BITS) - 1) == Index(addr, level)
  {
    Powers();
    UpValue(1, 9);
    AndLowMask(Shr(addr, Shift(level)), 9);
    Values(Shr(addr, Shift(level)), 9);
  }

  /** Clearing EXECUTE_DISABLE keeps bit 7 and every frame. */
  lemma EntryMask(word: u64)
    ensures var entry := And(word, Not(EXECUTE_DISABLE));
      && entry < EXECUTE_DISABLE
      && (And(entry, HUGE_PAGE) != 0 <==> Bit(word, 7))
      && forall s: nat :: Frame(entry, s) == Frame(word, s)
  {
    hide And, Or, Pow2, Shr, Up, Low, High;
    Powers();
    AndLowMask(word, 63);
    Values(word, 63);
    HugeBit(word % EXECUTE_DISABLE);
    Bit7Value(word);
    Bit7Value(word % EXECUTE_DISABLE);
    Literals.TopBitKeepsBit7(word);
  }

  lemma HighMask(k: nat)
    requires 0 < k <= 64
    ensures Pow2(k) <= TWO64
    ensures Shl(Not(0), k) == TWO64 - Pow2(k)
  {
    hide And, Or, Pow2, Shr, Up, Low, High;
    Powers();
    Pow2Mono(k, 64);
    UpValue(Not(0), k);
    var p := Pow2(k);
    assert (TWO64 - 1) * p == (p - 1) * TWO64 + (TWO64 - p);
    DivModUnique((TWO64 - 1) * p, TWO64, p - 1, TWO64 - p);
  }

  lemma LeafBits(entry: nat, addr: u64, k: nat)
    requires 0 < k <= 39 && entry < EXECUTE_DISABLE
    ensures Or(And(entry, Shl(Not(0), k)), And(addr, Not(Shl(Not(0), k)))) == Frame(entry, k) + Low(addr, k)
  {
    hide And, Or, Pow2, Shr, Up, Low, High;
    Powers();
    HighMask(k);
    AndHighMask(entry, k, 64);
    AndLowMask(addr, k);
    LowOfHigh(entry, k);
    OrDisjoint(High(entry, k), Low(addr, k), k);
  }

  lemma TableBits(entry: nat)
    requires entry < EXECUTE_DISABLE
    ensures Shl(1, PAGE_BITS) >= 1
    ensures And(entry, Not(Shl(1, PAGE_BITS) - 1)) == Frame(entry, 12)
  {
    hide And, Or, Pow2, Shr, Up, Low, High;
    Powers();
    UpValue(1, 12);
    AndHighMask(entry, 12, 64);
  }

  // ----- the architecture's translation -----

  /** Bits 62 to 52 hold neither address nor flags of the modelled format. */
  predicate HighBitsClear(e: u64) { e % EXECUTE_DISABLE < 0x10_0000_0000_0000 }

  /** In a large-page leaf, bits 13 up to the page size are reserved. */
  predicate LeafReservedClear(e: u64, level: nat) { Low(e, Shift(level)) < Pow2(13) }

  /** The physical address that `e` and the page offset form: bits 51 to the page size of `e`. */
  function SdmLeaf(e: u64, addr: u64, level: nat): nat
  {
    Frame(e % 0x10_0000_0000_0000, Shift(level)) + Low(addr, Shift(level))
  }

  /** None: not present, a reserved bit is set, or a table is outside guest memory. */
  function SdmWalk(m: seq<byte>, addr: u64, table: nat, level: nat): Option<nat>
    decreases m, level
  {
    if table + 4096 > |m| then None
    else
      var e := EntryAt(m, addr, table, level);
      if !Bit(e, 0) || !HighBitsClear(e) then None
      else if level == 0 then Some(SdmLeaf(e, addr, 0))
      else if !Bit(e, 7) then SdmWalk(m, addr, Frame(e % 0x10_0000_0000_0000, 12), level - 1)
      else if level >= 3 || !LeafReservedClear(e, level) then None
      else Some(SdmLeaf(e, addr, level))
  }

  /** Wherever the architecture translates, the loop stays in guest memory and finds the same address. */
  lemma {:induction false} WalkRefinesSdm(m: seq<byte>, addr: u64, table: nat, level: nat)
    requires SdmWalk(m, addr, table, level).Some?
    ensures Readable(m, addr, table, level)
    ensures RawWalk(m, addr, table, level) == SdmWalk(m, addr, table, level).value
    decreases level
  {
    hide Pow2, Shr, Low, High, Word, Index, Frame, Bit, HighBitsClear, LeafReservedClear;
    var e := EntryAt(m, addr, table, level);
    SameFrames(e, Shift(level));
    if level > 0 && !Bit(e, 7) {
      SameFrames(e, 12);
      WalkRefinesSdm(m, addr, Frame(e, 12), level - 1);
    }
  }

  lemma SameFrames(e: u64, k: nat)
    requires HighBitsClear(e)
    ensures Frame(e % 0x10_0000_0000_0000, k) == Frame(e, k)
  {
    hide High;
    Literals.BelowBit52(e);
  }

  /** The architecture translates `addr` to `phys`, and so does the walk of the source. */
  ghost predicate Translates(m: seq<byte>, addr: u64, phys: nat)
  {
    && SdmWalk(m, addr, BOOT_PML4, 3) == Some(phys)
    && Readable(m, addr, BOOT_PML4, 3) && RawWalk(m, addr, BOOT_PML4, 3) == phys
  }

  /** In a 4 KiB leaf bit 7 selects a memory type: it changes neither the walk nor the architecture's answer. */
  lemma LastLevelBit7(m: seq<byte>, n: seq<byte>, addr: u64, table: nat)
    requires table + 4096 <= |m| && table + 4096 <= |n|
    requires EntryAt(n, addr, table, 0) == EntryAt(m, addr, table, 0) + 0x80
    requires !Bit(EntryAt(m, addr, table, 0), 7)
    ensures RawWalk(n, addr, table, 0) == RawWalk(m, addr, table, 0)
    ensures SdmWalk(n, addr, table, 0) == SdmWalk(m, addr, table, 0)
  {
    hide And, Or, Pow2, Shr, Up, Low, High;
    var e, f := EntryAt(m, addr, table, 0), EntryAt(n, addr, table, 0);
    Bit7Value(e);
    SamePage(e);
    SameFrame(e, f);
  }

  lemma SamePage(e: nat)
    requires e / 0x80 % 2 == 0
    ensures e / 0x1000 == (e + 0x80) / 0x1000 && (Bit(e, 0) <==> Bit(e + 0x80, 0))
  {
    Literals.AddBit7(e);
  }

  /** Words that agree from bit 12 up have the same 4 KiB frame. */
  lemma SameFrame(e: u64, f: u64)
    requires e / 0x1000 == f / 0x1000
    ensures Frame(e, 12) == Frame(f, 12) && (HighBitsClear(e) <==> HighBitsClear(f))
    ensures Frame(e % 0x10_0000_0000_0000, 12) == Frame(f % 0x10_0000_0000_0000, 12)
  {
    hide Frame, HighBitsClear;
    FrameNumber(e);
    FrameNumber(f);
  }

  lemma FrameNumber(e: u64)
    ensures Frame(e, 12) == e / 0x1000 % 0x8_0000_0000_0000 * 0x1000
    ensures Frame(e % 0x10_0000_0000_0000, 12) == e / 0x1000 % 0x100_0000_0000 * 0x1000
    ensures HighBitsClear(e) <==> e / 0x1000 % 0x8_0000_0000_0000 < 0x100_0000_0000
  {
    hide And, Or, Pow2, Shr, Up, Low, High;
    Literals.PageNumber(e);
    Literals.PageNumber52(e);
    PageOf(e % EXECUTE_DISABLE);
    PageOf(e % 0x10_0000_0000_0000);
  }

  lemma PageOf(x: nat)
    ensures High(x, 12) == x / 0x1000 * 0x1000
  {
    hide And, Or, Pow2, Shr, Up, Low, High;
    Powers();
    Values(x, 12);
  }

  /** `PageTableEntry::address` names the frame of a leaf exactly when the leaf is a large page that is
      aligned, or a 4 KiB leaf whose bit 7 is clear or whose frame is 2 MiB aligned. */
  lemma AddressNamesLeaf(e: u64, level: nat)
    requires level <= 2 && (level > 0 ==> Bit(e, 7))
    ensures Address(e) == Frame(e, Shift(level)) <==>
      if level == 2 then e % 0x4000_0000 < 0x20_0000
      else level == 1 || !Bit(e, 7) || e % 0x20_0000 < 0x1000
  {
    hide And, Or, Pow2, Shr, Up, Low, High;
    Powers();
    AddressIsFrame(e);
    FrameValue(e);
    Values(e % EXECUTE_DISABLE, 30);
    LeafRounding(e);
  }

  /** A present 4 KiB leaf for address 0x1000 with bit 7 set. */
  lemma AddressMisreadsBit7()
    ensures Frame(0x1081, 12) == 0x1000 && Address(0x1081) == 0
  {
    hide And, Or, Pow2, Shr, Up, Low, High, Address;
    Bit7Value(0x1081);
    AddressIsFrame(0x1081);
    FrameValue(0x1081);
  }

  lemma LeafRounding(e: u64)
    ensures var x := e % EXECUTE_DISABLE;
      && (x % 0x20_0000 == x % 0x4000_0000 <==> e % 0x4000_0000 < 0x20_0000)
      && (x % 0x20_0000 == x % 0x1000 <==> e % 0x20_0000 < 0x1000)
  {
    Literals.Remainders(e);
    Literals.LargeInGiant(e);
    Literals.BaseInLarge(e);
  }

  /** The same lookup written with the accessors of `PageTableEntry`.  In a 4 KiB leaf `address` would take
      bit 7 for a page size, so that bit is cleared first. */
  function EntryWalk(m: seq<byte>, addr: u64, table: nat, level: nat): Option<nat>
    decreases m, level
  {
    if table + 4096 > |m| then None
    else
      var e := EntryAt(m, addr, table, level);
      if !IsPresent(e) || !HighBitsClear(e) then None
      else if level == 0 then Some(Address(if IsHugepage(e) then e - HUGE_PAGE else e) + Low(addr, Shift(0)))
      else if !IsHugepage(e) then EntryWalk(m, addr, Address(e), level - 1)
      else if level >= 3 || !LeafReservedClear(e, level) then None
      else Some(Address(e) + Low(addr, Shift(level)))
  }

  lemma {:induction false} EntryWalkIsSdm(m: seq<byte>, addr: u64, table: nat, level: nat)
    ensures EntryWalk(m, addr, table, level) == SdmWalk(m, addr, table, level)
    decreases level
  {
    hide And, Or, Pow2, Shr, Up, Low, High, Word, Index, Address, IsHugepage, IsPresent, Frame;
    if table + 4096 <= |m| {
      var e := EntryAt(m, addr, table, level);
      HugeBit(e);
      PresentBit(e);
      if HighBitsClear(e) {
        ClearFrames(e);
        if level == 0 {
          BaseLeafAddress(e);
        } else if !IsHugepage(e) {
          AddressIsFrame(e);
          EntryWalkIsSdm(m, addr, Address(e), level - 1);
        } else if level < 3 && LeafReservedClear(e, level) {
          LargeLeafAddress(e, level);
        }
      }
    }
  }

  lemma ClearFrames(e: u64)
    requires HighBitsClear(e)
    ensures forall s: nat :: Frame(e % 0x10_0000_0000_0000, s) == Frame(e, s)
  {
    hide High;
    Literals.BelowBit52(e);
  }

  lemma BaseLeafAddress(e: u64)
    ensures IsHugepage(e) ==> e >= HUGE_PAGE
    ensures Address(if IsHugepage(e) then e - HUGE_PAGE else e) == Frame(e, 12)
  {
    hide And, Or, Pow2, Shr, Up, Low, High, Address, Frame;
    HugeBit(e);
    Bit7Value(e);
    AddressIsFrame(e);
    if IsHugepage(e) {
      var c := e - HUGE_PAGE;
      Literals.ClearBit7(e);
      Bit7Value(c);
      AddressIsFrame(c);
      SameFrame(e, c);
    }
  }

  lemma LargeLeafAddress(e: u64, level: nat)
    requires 1 <= level <= 2 && Bit(e, 7) && LeafReservedClear(e, level)
    ensures Address(e) == Frame(e, Shift(level))
  {
    hide And, Or, Shr, Up, Low, High, Address, Frame;
    AddressNamesLeaf(e, level);
    if level == 2 {
      Powers();
      Values(e, 30);
      assert Pow2(13) == 0x2000;
    }
  }
}
