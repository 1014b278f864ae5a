/** Page-table entries (src/paging.rs): a 64-bit word holding an address and flags. */
module Paging {
  import opened Bits
  import opened Literals

  const PAGE_BITS: nat := 12
  const PAGE_MAP_BITS: nat := 9

  const PRESENT: u64 := 1
  const WRITABLE: u64 := 2
  const HUGE_PAGE: u64 := 0x80
  const EXECUTE_DISABLE: u64 := TOP_BIT

  const BASE_PAGE_SIZE: u64 := 4096
  const LARGE_PAGE_SIZE: u64 := 0x20_0000
  const FLAGS_MASK: u64 := 0x8000_0000_0000_0FFF

  predicate CheckFlags(entry: u64, flags: u64) { And(entry, flags) == flags }

  predicate IsPresent(entry: u64) { CheckFlags(entry, PRESENT) }

  predicate IsHugepage(entry: u64) { CheckFlags(entry, HUGE_PAGE) }

  /** The stored physical address. */
  function Address(entry: u64): u64
  {
    var mask: u64 := if IsHugepage(entry) then LARGE_PAGE_SIZE - 1 else BASE_PAGE_SIZE - 1;
    And(And(entry, Not(mask)), Not(EXECUTE_DISABLE))
  }

  function Flags(entry: u64): u64 { And(entry, FLAGS_MASK) }

  /** The word that `set_flags` leaves. */
  function WithFlags(entry: u64, flags: u64): nat
  {
    Or(And(entry, Not(FLAGS_MASK)), And(flags, FLAGS_MASK))
  }

  /** The alignment that `set` asserts before it stores an address. */
  predicate Aligned(physicalAddress: u64, flags: u64)
  {
    if And(flags, HUGE_PAGE) == HUGE_PAGE then physicalAddress % LARGE_PAGE_SIZE == 0
    else physicalAddress % BASE_PAGE_SIZE == 0
  }

  /** The word that `set` stores. */
  function Entry(physicalAddress: u64, flags: u64): nat
    requires Aligned(physicalAddress, flags)
  {
    Or(physicalAddress, Or(PRESENT, flags))
  }

  class PageTableEntry {
    var physicalAddressAndFlags: u64

    constructor (word: u64)
      ensures physicalAddressAndFlags == word
    {
      physicalAddressAndFlags := word;
    }

    /** True: the alignment assertion fails, and the thread panics before it stores anything. */
    method Set(physicalAddress: u64, flags: u64) returns (panicked: bool)
      modifies this
      ensures panicked <==> !Aligned(physicalAddress, flags)
      ensures panicked ==> physicalAddressAndFlags == old(physicalAddressAndFlags)
      ensures !panicked ==>
        physicalAddressAndFlags == Entry(physicalAddress, flags) && IsPresent(physicalAddressAndFlags)
      ensures !panicked && physicalAddress < EXECUTE_DISABLE && Flags(flags) == flags ==>
        Address(physicalAddressAndFlags) == physicalAddress && Flags(physicalAddressAndFlags) == Or(PRESENT, flags)
    {
      hide And, Or, Flags, Address;
      if And(flags, HUGE_PAGE) == HUGE_PAGE {
        if physicalAddress % LARGE_PAGE_SIZE != 0 { return true; }
      } else {
        if physicalAddress % BASE_PAGE_SIZE != 0 { return true; }
      }
      EntryIsWord(physicalAddress, flags);
      physicalAddressAndFlags := Or(physicalAddress, Or(PRESENT, flags));
      if physicalAddress < EXECUTE_DISABLE && Flags(flags) == flags { SetRoundTrip(physicalAddress, flags); }
      return false;
    }

    method SetFlags(flags: u64)
      modifies this
      ensures physicalAddressAndFlags == WithFlags(old(physicalAddressAndFlags), flags)
      ensures Flags(physicalAddressAndFlags) == Flags(flags)
      ensures Frame(physicalAddressAndFlags, 12) == Frame(old(physicalAddressAndFlags), 12)
    {
      hide And, Or, Frame;
      SetFlagsKeepsFrame(physicalAddressAndFlags, flags);
      physicalAddressAndFlags := And(physicalAddressAndFlags, Not(FLAGS_MASK));
      physicalAddressAndFlags := Or(physicalAddressAndFlags, And(flags, FLAGS_MASK));
    }
  }

  /** `set` stores a 64-bit word that is present, whatever the flags. */
  lemma EntryIsWord(physicalAddress: u64, flags: u64)
    ensures Or(PRESENT, flags) < TWO64 && Or(physicalAddress, Or(PRESENT, flags)) < TWO64
    ensures IsPresent(Or(physicalAddress, Or(PRESENT, flags)))
  {
    hide And, Pow2, Or;
    Powers();
    OrBelow(PRESENT, flags, 64);
    OrBelow(physicalAddress, Or(PRESENT, flags), 64);
    OrOdd(PRESENT, flags);
    OrOdd(Or(PRESENT, flags), physicalAddress);
    OrSwap(physicalAddress, Or(PRESENT, flags));
    PresentBit(Or(physicalAddress, Or(PRESENT, flags)));
  }

  lemma OrOdd(x: nat, y: nat)
    requires x % 2 == 1
    ensures Or(x, y) % 2 == 1
  {
    if y > 0 {
      hide Or;
      OrDigit(x, y);
    }
  }

  // ----- what the bit expressions select -----

  /** The bits of `entry` from `shift` up to 62, in place. */
  function Frame(entry: u64, shift: nat): nat { High(entry % EXECUTE_DISABLE, shift) }

  lemma HugeBit(entry: u64)
    ensures IsHugepage(entry) <==> Bit(entry, 7)
    ensures And(entry, HUGE_PAGE) != 0 <==> Bit(entry, 7)
  {
    Powers();
    AndBit(entry, 7);
  }

  lemma PresentBit(entry: u64)
    ensures IsPresent(entry) <==> Bit(entry, 0)
  {
    assert Pow2(0) == 1;
    AndBit(entry, 0);
  }

  lemma Bit7Value(x: nat)
    ensures Bit(x, 7) <==> x / 0x80 % 2 == 1
  {
    Powers();
    Values(x, 7);
  }

  lemma FrameValue(entry: u64)
    ensures Frame(entry, 12) == entry % EXECUTE_DISABLE - entry % EXECUTE_DISABLE % 0x1000
    ensures Frame(entry, 21) == entry % EXECUTE_DISABLE - entry % EXECUTE_DISABLE % 0x20_0000
  {
    Powers();
    Values(entry % EXECUTE_DISABLE, 12);
    Values(entry % EXECUTE_DISABLE, 21);
  }

  /** `address` returns the frame at the 2 MiB or 4 KiB granularity that bit 7 selects. */
  lemma AddressIsFrame(entry: u64)
    ensures Address(entry) == Frame(entry, if Bit(entry, 7) then 21 else 12)
  {
    HugeBit(entry);
    Powers();
    if Bit(entry, 7) { MaskedFrame(entry, 21); } else { MaskedFrame(entry, 12); }
  }

  lemma MaskedFrame(entry: u64, k: nat)
    requires k == 12 || k == 21
    ensures Pow2(k) < TWO64
    ensures And(And(entry, Not(Pow2(k) - 1)), Not(EXECUTE_DISABLE)) == Frame(entry, k)
  {
    hide And, Or, Pow2, Shr, Up, Low, High;
    Powers();
    var high := And(entry, Not(Pow2(k) - 1));
    assert high == entry - entry % Pow2(k) by {
      AndHighMask(entry, k, 64);
      Values(entry, k);
    }
    assert And(high, Not(EXECUTE_DISABLE)) == high % EXECUTE_DISABLE by {
      AndLowMask(high, 63);
      Values(high, 63);
    }
    FrameValue(entry);
    RoundDown(entry);
  }

  lemma FlagsMeaning(entry: u64)
    ensures Flags(entry) == entry % 4096 + (if entry >= EXECUTE_DISABLE then EXECUTE_DISABLE else 0)
  {
    hide And, Or, Pow2, Shr, Up, Low, High;
    Powers();
    Values(EXECUTE_DISABLE, 12);
    AndSum(entry, EXECUTE_DISABLE, 4095, 12);
    AndLowMask(entry, 12);
    Values(entry, 12);
    AndBit(entry, 63);
    Values(entry, 63);
  }

  /** `set` followed by `address` and `flags` gives back what was stored, plus PRESENT, for every combination
      of flag bits. */
  lemma SetRoundTrip(physicalAddress: u64, flags: u64)
    requires Aligned(physicalAddress, flags) && physicalAddress < EXECUTE_DISABLE && Flags(flags) == flags
    ensures Entry(physicalAddress, flags) < TWO64
    ensures Address(Entry(physicalAddress, flags)) == physicalAddress
    ensures Flags(Entry(physicalAddress, flags)) == Or(PRESENT, flags)
    ensures IsPresent(Entry(physicalAddress, flags))
  {
    hide And, Or, Pow2, Shr, Low, High, Address, Flags, Frame, IsPresent, Aligned;
    FlagsMeaning(flags);
    var low, top := flags % 4096, flags >= EXECUTE_DISABLE;
    TopAdded(low, top);
    AlignedLow(physicalAddress, flags);
    var plain := EntrySum(physicalAddress, low);
    EntryAddress(physicalAddress, low, plain - physicalAddress);
    var word := SetFlagBits(flags);
    var e := OrFlags(physicalAddress, word);
    TopAdded(plain, top);
    TopKeepsAddress(e);
    EntryIsWord(physicalAddress, flags);
    StoredFlags(physicalAddress, word);
  }

  lemma StoredFlags(physicalAddress: u64, word: u64)
    requires physicalAddress % 4096 == 0 && physicalAddress < EXECUTE_DISABLE && word == Flags(word)
    requires physicalAddress + word < TWO64
    ensures Flags(physicalAddress + word) == word
  {
    hide And;
    FlagsMeaning(word);
    FlagsMeaning(physicalAddress + word);
    var low := word % 4096;
    LowBits(physicalAddress, low);
    TopAdded(physicalAddress + low, word >= EXECUTE_DISABLE);
  }

  lemma AlignedLow(physicalAddress: u64, flags: u64)
    requires Aligned(physicalAddress, flags)
    ensures Aligned(physicalAddress, flags % EXECUTE_DISABLE)
  {
    hide And, Shr;
    HugeBit(flags);
    HugeBit(flags % EXECUTE_DISABLE);
    Bit7Value(flags);
    Bit7Value(flags % EXECUTE_DISABLE);
    TopBitKeepsBit7(flags);
  }

  /** PRESENT is a flag: adding it keeps a flag word one. */
  lemma SetFlagBits(flags: u64) returns (word: u64)
    requires flags == flags % 4096 + (if flags >= EXECUTE_DISABLE then EXECUTE_DISABLE else 0)
    ensures word == Or(PRESENT, flags) == flags + (1 - flags % 2) == Flags(word)
    ensures flags >= EXECUTE_DISABLE <==> word >= EXECUTE_DISABLE
  {
    hide And, Or;
    OrLowBit(flags);
    word := flags + (1 - flags % 2);
    FlagsMeaning(word);
  }

  /** EXECUTE_DISABLE does not take part in the address. */
  lemma TopKeepsAddress(e: u64)
    ensures Address(e) == Address(e % EXECUTE_DISABLE)
  {
    hide And, Or, Pow2, Shr, Low, High, Address;
    AddressIsFrame(e);
    AddressIsFrame(e % EXECUTE_DISABLE);
    Bit7Value(e);
    Bit7Value(e % EXECUTE_DISABLE);
    TopBitKeepsBit7(e);
  }

  lemma EntryAddress(physicalAddress: u64, flags: u64, low: nat)
    requires Aligned(physicalAddress, flags) && physicalAddress % 4096 == 0
    requires low == flags + (1 - flags % 2) < 4096 && physicalAddress + low < EXECUTE_DISABLE
    ensures Address(physicalAddress + low) == physicalAddress
  {
    hide And, Pow2, Shr, Low, High;
    var e := physicalAddress + low;
    SetLowBit(flags);
    LowBits(physicalAddress, low);
    Bit7Value(e);
    Bit7Value(flags);
    assert Bit(e, 7) ==> physicalAddress % 0x20_0000 == 0 by { HugeBit(flags); }
    AddressIsFrame(e);
    FrameValue(e);
  }

  /** An aligned address and flags below bit 12 do not share bits. */
  lemma EntrySum(physicalAddress: u64, flags: u64) returns (e: u64)
    requires Aligned(physicalAddress, flags) && physicalAddress < EXECUTE_DISABLE && flags < 4096
    ensures e == Entry(physicalAddress, flags) == physicalAddress + Or(PRESENT, flags)
    ensures physicalAddress % 4096 == 0
    ensures e < EXECUTE_DISABLE && Or(PRESENT, flags) == flags + (1 - flags % 2) < 4096
  {
    var low := Or(PRESENT, flags);
    assert low == flags + (1 - flags % 2) by { OrLowBit(flags); }
    assert physicalAddress % 4096 == 0 by { CoarseIsFine(physicalAddress); }
    e := physicalAddress + low;
    assert e == Or(physicalAddress, low) by {
      Powers();
      Values(physicalAddress, 12);
      OrDisjoint(physicalAddress, low, 12);
    }
    LowBits(physicalAddress, low);
  }

  lemma OrLowBit(x: nat)
    ensures Or(1, x) == x + (1 - x % 2)
  {
    if x > 0 { assert Or(1, x) == 2 * Or(0, x / 2) + 1; }
  }

  /** `set_flags` replaces the flags and leaves the frame bits 12 to 62 alone. */
  lemma SetFlagsKeepsFrame(entry: u64, flags: u64)
    ensures WithFlags(entry, flags) < TWO64
    ensures Flags(WithFlags(entry, flags)) == Flags(flags)
    ensures Frame(WithFlags(entry, flags), 12) == Frame(entry, 12)
  {
    hide And, Or, Pow2, Low, High;
    var frame := Frame(entry, 12);
    assert And(entry, Not(FLAGS_MASK)) == frame by { FrameMask(entry); }
    assert frame % 4096 == 0 by { FrameValue(entry); }
    var e := OrFlags(frame, flags);
    FlagsMeaning(flags);
    FlagsMeaning(e);
    FrameOf(frame, flags % 4096, flags >= EXECUTE_DISABLE);
    FrameValue(e);
  }

  lemma FrameMask(entry: u64)
    ensures And(entry, Not(FLAGS_MASK)) == Frame(entry, 12)
  {
    hide And, Or, Pow2, Shr, Up, Low, High;
    Powers();
    assert Pow2(51) == 0x8_0000_0000_0000 by { Pow2Add(39, 12); }
    AndField(entry, 12, 51);
    UpValue(Pow2(51) - 1, 12);
    var field := Low(Shr(entry, 12), 51);
    UpValue(field, 12);
    assert field == entry / 0x1000 % 0x8_0000_0000_0000 by {
      Values(entry, 12);
      Values(entry / 0x1000, 51);
    }
    PageNumber(entry);
    FrameValue(entry);
  }

  lemma OrFlags(frame: nat, flags: u64) returns (e: u64)
    requires frame % 4096 == 0 && frame < EXECUTE_DISABLE
    ensures e == Or(frame, Flags(flags)) == frame + Flags(flags)
  {
    hide And, Or, Pow2, Shr, Up, Low, High;
    Powers();
    FlagsMeaning(flags);
    var low := flags % 4096;
    Values(frame, 12);
    OrDisjoint(frame, low, 12);
    LowBits(frame, low);
    if flags >= EXECUTE_DISABLE {
      Values(EXECUTE_DISABLE, 63);
      OrDisjoint(EXECUTE_DISABLE, low, 63);
      OrDisjoint(EXECUTE_DISABLE, frame + low, 63);
      OrSwap(frame, Flags(flags));
      OrAssoc(EXECUTE_DISABLE, low, frame);
      OrSwap(low, frame);
    }
    e := frame + Flags(flags);
  }
}
