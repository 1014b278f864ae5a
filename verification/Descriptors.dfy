/** Segment descriptors (`create_gdt_entry` of src/vm.rs; section 3.4.5 of Intel SDM Vol. 3A). */
module Descriptors {
  import opened Bits
  import Literals

  function CreateGdtEntry(flags: u64, base: u64, limit: u64): nat
  {
    Or(Or(Or(Or(
      Up(And(base, 0xff00_0000), 56 - 24),
      Up(And(flags, 0xf0ff), 40)),
      Up(And(limit, 0x000f_0000), 48 - 16)),
      Up(And(base, 0x00ff_ffff), 16)),
      And(limit, 0xffff))
  }

  // The fields of a descriptor, where the processor looks for them.

  function Base(e: nat): nat { e / 0x1_0000 % 0x100_0000 + e / 0x100_0000_0000_0000 % 256 * 0x100_0000 }

  function Limit(e: nat): nat { e % 0x1_0000 + e / 0x1_0000_0000_0000 % 16 * 0x1_0000 }

  /** Type, S, DPL and P. */
  function Access(e: nat): nat { e / 0x100_0000_0000 % 256 }

  /** AVL, L, D/B and G. */
  function Attributes(e: nat): nat { e / 0x10_0000_0000_0000 % 16 }

  lemma Sizes()
    ensures Pow2(4) == 16 && Pow2(8) == 256 && Pow2(12) == 0x1000 && Pow2(16) == 0x1_0000
    ensures Pow2(24) == 0x100_0000 && Pow2(32) == 0x1_0000_0000 && Pow2(40) == 0x100_0000_0000
    ensures Pow2(48) == 0x1_0000_0000_0000 && Pow2(52) == 0x10_0000_0000_0000 && Pow2(56) == 0x100_0000_0000_0000
  {
  }

  /** The six fields of the word, as numbers. */
  function Assemble(baseHi: nat, attr: nat, limitHi: nat, access: nat, baseLo: nat, limitLo: nat): nat
  {
    baseHi * 0x100_0000_0000_0000 + attr * 0x10_0000_0000_0000 + limitHi * 0x1_0000_0000_0000
    + access * 0x100_0000_0000 + baseLo * 0x1_0000 + limitLo
  }

  lemma MaskedBase(base: u64)
    ensures Up(And(base, 0xff00_0000), 32) == base / 0x100_0000 % 256 * 0x100_0000_0000_0000
    ensures Up(And(base, 0x00ff_ffff), 16) == base % 0x100_0000 * 0x1_0000
  {
    hide And, Up, Low, Shr;
    Sizes();
    AndField(base, 24, 8);
    UpValue(255, 24);
    UpValue(Low(Shr(base, 24), 8), 24);
    Values(base, 24);
    Values(base / 0x100_0000, 8);
    UpValue(And(base, 0xff00_0000), 32);
    AndLowMask(base, 24);
    UpValue(And(base, 0x00ff_ffff), 16);
  }

  lemma MaskedLimit(limit: u64)
    ensures Up(And(limit, 0x000f_0000), 32) == limit / 0x1_0000 % 16 * 0x1_0000_0000_0000
    ensures And(limit, 0xffff) == limit % 0x1_0000
  {
    hide And, Up, Low, Shr;
    Sizes();
    AndField(limit, 16, 4);
    UpValue(15, 16);
    UpValue(Low(Shr(limit, 16), 4), 16);
    Values(limit, 16);
    Values(limit / 0x1_0000, 4);
    UpValue(And(limit, 0x000f_0000), 32);
    AndLowMask(limit, 16);
  }

  lemma MaskedFlags(flags: u64)
    ensures Up(And(flags, 0xf0ff), 40) ==
      flags / 0x1000 % 16 * 0x10_0000_0000_0000 + flags % 256 * 0x100_0000_0000
  {
    hide And, Up, Low, Shr;
    Sizes();
    Values(0xf000, 12);
    AndSum(flags, 0xf000, 0xff, 12);
    AndField(flags, 12, 4);
    UpValue(15, 12);
    UpValue(Low(Shr(flags, 12), 4), 12);
    Values(flags, 12);
    Values(flags / 0x1000, 4);
    AndLowMask(flags, 8);
    Values(flags, 8);
    UpValue(And(flags, 0xf0ff), 40);
  }

  /** A field shifted to bit `k` has nothing below that bit. */
  lemma Shifted(x: nat, k: nat)
    ensures Low(x * Pow2(k), k) == 0
  {
    hide Low;
    Values(x * Pow2(k), k);
    DivModUnique(x * Pow2(k), Pow2(k), x, 0);
  }

  lemma OrAt(hi: nat, k: nat, lo: nat)
    requires lo < Pow2(k)
    ensures Or(hi * Pow2(k), lo) == hi * Pow2(k) + lo
  {
    hide Or, Low;
    Shifted(hi, k);
    OrDisjoint(hi * Pow2(k), lo, k);
  }

  /** The limit nibble sits between the two halves of the flags. */
  lemma OrBetween(top: nat, mid: nat, low: nat)
    requires mid < 16 && low < 256
    ensures Or(top * 0x10_0000_0000_0000 + low * 0x100_0000_0000, mid * 0x1_0000_0000_0000)
         == top * 0x10_0000_0000_0000 + mid * 0x1_0000_0000_0000 + low * 0x100_0000_0000
  {
    hide Or, Pow2;
    Sizes();
    var t, m, l := top * 0x10_0000_0000_0000, mid * 0x1_0000_0000_0000, low * 0x100_0000_0000;
    OrAt(top, 52, l);
    OrAssoc(t, l, m);
    OrSwap(l, m);
    OrAt(mid, 48, l);
    OrAt(top, 52, m + l);
  }

  lemma EntryIsAssembled(flags: u64, base: u64, limit: u64)
    ensures CreateGdtEntry(flags, base, limit) ==
      Assemble(base / 0x100_0000 % 256, flags / 0x1000 % 16, limit / 0x1_0000 % 16,
               flags % 256, base % 0x100_0000, limit % 0x1_0000)
  {
    hide And, Or, Up, Pow2;
    Sizes();
    MaskedBase(base);
    MaskedLimit(limit);
    MaskedFlags(flags);
    var baseHi, attr, limitHi := base / 0x100_0000 % 256, flags / 0x1000 % 16, limit / 0x1_0000 % 16;
    var access, baseLo, limitLo := flags % 256, base % 0x100_0000, limit % 0x1_0000;
    OrAt(baseHi, 56, attr * 0x10_0000_0000_0000 + access * 0x100_0000_0000);
    OrBetween(baseHi * 16 + attr, limitHi, access);
    var upper := baseHi * 0x1_0000 + attr * 0x1000 + limitHi * 0x100 + access;
    OrAt(upper, 40, baseLo * 0x1_0000);
    OrAt(upper * 0x100_0000 + baseLo, 16, limitLo);
  }

  lemma AssembledFields(baseHi: nat, attr: nat, limitHi: nat, access: nat, baseLo: nat, limitLo: nat)
    requires baseHi < 256 && attr < 16 && limitHi < 16 && access < 256 && baseLo < 0x100_0000 && limitLo < 0x1_0000
    ensures var e := Assemble(baseHi, attr, limitHi, access, baseLo, limitLo);
      && e % 0x1_0000 == limitLo && e / 0x1_0000 % 0x100_0000 == baseLo && e / 0x100_0000_0000 % 256 == access
      && e / 0x1_0000_0000_0000 % 16 == limitHi && e / 0x10_0000_0000_0000 % 16 == attr
      && e / 0x100_0000_0000_0000 % 256 == baseHi
  {
    var e := Assemble(baseHi, attr, limitHi, access, baseLo, limitLo);
    var u5 := baseHi * 16 + attr;
    var u4 := u5 * 16 + limitHi;
    var u3 := u4 * 256 + access;
    var u2 := u3 * 0x100_0000 + baseLo;
    assert e == u2 * 0x1_0000 + limitLo;
    assert e == u3 * 0x100_0000_0000 + (baseLo * 0x1_0000 + limitLo);
    assert e == u4 * 0x1_0000_0000_0000 + (access * 0x100_0000_0000 + baseLo * 0x1_0000 + limitLo);
    assert e == u5 * 0x10_0000_0000_0000
      + (limitHi * 0x1_0000_0000_0000 + access * 0x100_0000_0000 + baseLo * 0x1_0000 + limitLo);
    assert e / 0x1_0000 == u2 && e / 0x100_0000_0000 == u3 && e / 0x1_0000_0000_0000 == u4;
    assert e / 0x10_0000_0000_0000 == u5 && e / 0x100_0000_0000_0000 == baseHi;
  }

  lemma DescriptorIsWord(flags: u64, base: u64, limit: u64)
    ensures CreateGdtEntry(flags, base, limit) < TWO64
  {
    hide CreateGdtEntry;
    EntryIsAssembled(flags, base, limit);
    AssembledBelow(base / 0x100_0000 % 256, flags / 0x1000 % 16, limit / 0x1_0000 % 16,
                   flags % 256, base % 0x100_0000, limit % 0x1_0000);
  }

  lemma AssembledBelow(baseHi: nat, attr: nat, limitHi: nat, access: nat, baseLo: nat, limitLo: nat)
    requires baseHi < 256 && attr < 16 && limitHi < 16 && access < 256 && baseLo < 0x100_0000 && limitLo < 0x1_0000
    ensures Assemble(baseHi, attr, limitHi, access, baseLo, limitLo) < TWO64
  {
  }

  lemma NullDescriptor()
    ensures CreateGdtEntry(0, 0, 0) == 0
  {
    hide CreateGdtEntry;
    EntryIsAssembled(0, 0, 0);
  }

  /** The processor finds in the descriptor the 32-bit base, the 20-bit limit and the flags it was built from. */
  lemma DescriptorRoundTrip(flags: u64, base: u64, limit: u64)
    ensures var e := CreateGdtEntry(flags, base, limit);
      && Base(e) == base % 0x1_0000_0000 && Limit(e) == limit % 0x10_0000
      && Access(e) == flags % 256 && Attributes(e) == flags / 0x1000 % 16
  {
    hide CreateGdtEntry, Assemble;
    EntryIsAssembled(flags, base, limit);
    AssembledFields(base / 0x100_0000 % 256, flags / 0x1000 % 16, limit / 0x1_0000 % 16,
                    flags % 256, base % 0x100_0000, limit % 0x1_0000);
    Literals.Joined(base, 0x100_0000, 256);
    Literals.Joined(limit, 0x1_0000, 16);
  }
}
