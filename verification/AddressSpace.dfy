/** The initial guest address space (`init_guest_mem` and `create_gdt_entry` of src/vm.rs):
    three descriptors, one table per level, 2 MiB leaves for the first GiB, and a self-map.
 */
module AddressSpace {
  import opened Bits
  import opened GuestMemory
  import opened Options
  import opened Paging
  import opened Consts
  import opened Walker
  import opened Descriptors
  import Literals

  const TABLE_FLAGS: u64 := Or(PRESENT, WRITABLE)
  const LEAF_FLAGS: u64 := Or(Or(PRESENT, WRITABLE), HUGE_PAGE)

  function DescriptorWrites(): seq<Write>
  {
    [ WriteWord(BOOT_GDT, CreateGdtEntry(0, 0, 0)),
      WriteWord(BOOT_GDT + 8, CreateGdtEntry(0xA09B, 0, 0xFFFFF)),
      WriteWord(BOOT_GDT + 16, CreateGdtEntry(0xC093, 0, 0xFFFFF)) ]
  }

  function TableWrites(): seq<Write>
  {
    TableAlignment();
    [ WriteWord(BOOT_PML4, Entry(BOOT_PDPTE, TABLE_FLAGS)),
      WriteWord(BOOT_PML4 + 8 * 511, Entry(BOOT_PML4, TABLE_FLAGS)),
      WriteWord(BOOT_PDPTE, Entry(BOOT_PDE, TABLE_FLAGS)) ]
  }

  function LeafWrite(i: nat): Write
    requires i < 512
  {
    LeafAlignment(i);
    WriteWord(BOOT_PDE + 8 * i, Entry(i * LARGE_PAGE_SIZE, LEAF_FLAGS))
  }

  function LeafWrites(n: nat): seq<Write>
    requires n <= 512
  {
    seq(n, i requires 0 <= i < n => LeafWrite(i))
  }

  function InitWrites(): seq<Write> { DescriptorWrites() + TableWrites() + LeafWrites(512) }

  lemma TableAlignment()
    ensures Aligned(BOOT_PDPTE, TABLE_FLAGS) && Aligned(BOOT_PML4, TABLE_FLAGS) && Aligned(BOOT_PDE, TABLE_FLAGS)
  {
    assert And(3, 0x80) == 0;
  }

  lemma LeafAlignment(i: nat)
    requires i < 512
    ensures Aligned(i * LARGE_PAGE_SIZE, LEAF_FLAGS)
  {
    assert And(0x83, 0x80) == 0x80;
  }

  method InitGuestMem(mem: array<byte>)
    requires mem.Length >= BOOT_TABLES_END
    modifies mem
    ensures AllFit(InitWrites(), mem.Length)
    ensures mem[..] == Apply(old(mem[..]), InitWrites())
  {
    hide And, Or, Up, Entry, CreateGdtEntry, Le, Store, Apply, TABLE_FLAGS, LEAF_FLAGS;
    ghost var before, descriptors, tables := mem[..], DescriptorWrites(), TableWrites();

    // null, code and data descriptor
    StoreBytes(mem, WriteWord(BOOT_GDT, CreateGdtEntry(0, 0, 0)));
    StoreBytes(mem, WriteWord(BOOT_GDT + 8, CreateGdtEntry(0xA09B, 0, 0xFFFFF)));
    StoreBytes(mem, WriteWord(BOOT_GDT + 16, CreateGdtEntry(0xC093, 0, 0xFFFFF)));
    ThreeStores(before, descriptors[0], descriptors[1], descriptors[2]);

    TableAlignment();
    ghost var withGdt := mem[..];
    StoreBytes(mem, WriteWord(BOOT_PML4, Entry(BOOT_PDPTE, TABLE_FLAGS)));
    StoreBytes(mem, WriteWord(BOOT_PML4 + 8 * 511, Entry(BOOT_PML4, TABLE_FLAGS)));
    StoreBytes(mem, WriteWord(BOOT_PDPTE, Entry(BOOT_PDE, TABLE_FLAGS)));
    ThreeStores(withGdt, tables[0], tables[1], tables[2]);

    ghost var withTables := mem[..];
    NoWrites(withTables);
    assert LeafWrites(0) == [];
    for i := 0 to 512
      invariant AllFit(LeafWrites(i), mem.Length)
      invariant mem[..] == Apply(withTables, LeafWrites(i))
    {
      LeafAlignment(i);
      StoreBytes(mem, WriteWord(BOOT_PDE + 8 * i, Entry(i * LARGE_PAGE_SIZE, LEAF_FLAGS)));
      assert LeafWrites(i + 1) == LeafWrites(i) + [LeafWrite(i)];
      ApplyOne(withTables, LeafWrites(i), LeafWrite(i));
    }
    FitConcat(descriptors, tables, mem.Length);
    FitConcat(descriptors + tables, LeafWrites(512), mem.Length);
    ApplyConcat(before, descriptors + tables, LeafWrites(512));
    ApplyConcat(before, descriptors, tables);
  }

  lemma InitWritesFit(memSize: nat)
    requires memSize >= BOOT_TABLES_END
    ensures AllFit(InitWrites(), memSize)
  {
    hide Entry, Le, CreateGdtEntry;
    FitConcat(DescriptorWrites(), TableWrites(), memSize);
    FitConcat(DescriptorWrites() + TableWrites(), LeafWrites(512), memSize);
  }

  // ----- what the tables say -----

  /** The table words that `init_guest_mem` leaves. */
  ghost predicate Mapped(m: seq<byte>)
  {
    && |m| >= BOOT_TABLES_END
    && Word(m, BOOT_PML4) == BOOT_PDPTE + 3
    && Word(m, BOOT_PML4 + 8 * 511) == BOOT_PML4 + 3
    && Word(m, BOOT_PDPTE) == BOOT_PDE + 3
    && forall i :: 0 <= i < 512 ==> LeafMapped(m, i)
  }

  ghost predicate LeafMapped(m: seq<byte>, i: nat)
    requires |m| >= BOOT_TABLES_END && i < 512
  {
    Word(m, BOOT_PDE + 8 * i) == i * LARGE_PAGE_SIZE + 0x83
  }

  lemma EntryValues()
    ensures TABLE_FLAGS == 3 && LEAF_FLAGS == 0x83
    ensures Aligned(BOOT_PDPTE, 3) && Entry(BOOT_PDPTE, 3) == BOOT_PDPTE + 3
    ensures Aligned(BOOT_PML4, 3) && Entry(BOOT_PML4, 3) == BOOT_PML4 + 3
    ensures Aligned(BOOT_PDE, 3) && Entry(BOOT_PDE, 3) == BOOT_PDE + 3
  {
    TableAlignment();
    var a := EntrySum(BOOT_PDPTE, 3);
    var b := EntrySum(BOOT_PML4, 3);
    var c := EntrySum(BOOT_PDE, 3);
  }

  lemma LeafEntryValue(i: nat)
    requires i < 512
    ensures Aligned(i * LARGE_PAGE_SIZE, LEAF_FLAGS)
    ensures Entry(i * LARGE_PAGE_SIZE, LEAF_FLAGS) == i * LARGE_PAGE_SIZE + 0x83
  {
    LeafAlignment(i);
    EntryValues();
    var e := EntrySum(i * LARGE_PAGE_SIZE, LEAF_FLAGS);
  }

  /** A word that is stored and not touched afterwards reads back. */
  lemma StoredWord(m: seq<byte>, ws: seq<Write>, k: nat, a: nat, v: nat)
    requires AllFit(ws, |m|) && k < |ws| && ws[k] == WriteWord(a, v) && v < TWO64
    requires forall j :: k < j < |ws| ==> ws[j].End() <= a || a + 8 <= ws[j].addr
    ensures a + 8 <= |m| && Word(Apply(m, ws), a) == v
  {
    hide Apply, Le, Pow2, AllFit;
    StoredRange(m, ws, k);
    var r := Apply(m, ws);
    assert r[a..a + 8] == Le(v, 8);
    Powers();
    LeRoundTrip(v, 8);
  }

  lemma InitMaps(m: seq<byte>)
    requires |m| >= BOOT_TABLES_END && AllFit(InitWrites(), |m|)
    ensures Mapped(Apply(m, InitWrites()))
  {
    hide And, Or, Up, Entry, Le, CreateGdtEntry, Apply, Word;
    var ws := InitWrites();
    EntryValues();
    var tables := TableWrites();
    assert ws[3..6] == tables;
    assert ws[3] == tables[0] == WriteWord(BOOT_PML4, BOOT_PDPTE + 3);
    assert ws[4] == tables[1] == WriteWord(BOOT_PML4 + 8 * 511, BOOT_PML4 + 3);
    assert ws[5] == tables[2] == WriteWord(BOOT_PDPTE, BOOT_PDE + 3);
    StoredWord(m, ws, 3, BOOT_PML4, BOOT_PDPTE + 3);
    StoredWord(m, ws, 4, BOOT_PML4 + 8 * 511, BOOT_PML4 + 3);
    StoredWord(m, ws, 5, BOOT_PDPTE, BOOT_PDE + 3);
    forall i | 0 <= i < 512 ensures LeafMapped(Apply(m, ws), i) {
      LeafEntryValue(i);
      assert ws[6 + i] == LeafWrite(i);
      forall j | 6 + i < j < |ws| ensures BOOT_PDE + 8 * i + 8 <= ws[j].addr {
        assert ws[j] == LeafWrite(j - 6);
      }
      StoredWord(m, ws, 6 + i, BOOT_PDE + 8 * i, i * LARGE_PAGE_SIZE + 0x83);
    }
  }

  /** The processor finds in the table of descriptors a null, a 64-bit code and a data segment over everything. */
  ghost predicate Described(m: seq<byte>)
  {
    && |m| >= BOOT_TABLES_END
    && Word(m, BOOT_GDT) == 0
    && DescribesSegment(Word(m, BOOT_GDT + 8), 0x9B, 0xA)
    && DescribesSegment(Word(m, BOOT_GDT + 16), 0x93, 0xC)
  }

  predicate DescribesSegment(e: nat, access: nat, attributes: nat)
  {
    Base(e) == 0 && Limit(e) == 0xFFFFF && Access(e) == access && Attributes(e) == attributes
  }

  lemma InitDescribes(m: seq<byte>)
    requires |m| >= BOOT_TABLES_END && AllFit(InitWrites(), |m|)
    ensures Described(Apply(m, InitWrites()))
  {
    hide And, Or, Up, Entry, Le, CreateGdtEntry, Apply, Word, Base, Limit, Access, Attributes;
    var ws := InitWrites();
    DescriptorValues();
    assert ws[..3] == DescriptorWrites();
    assert ws[0] == WriteWord(BOOT_GDT, CreateGdtEntry(0, 0, 0));
    assert ws[1] == WriteWord(BOOT_GDT + 8, CreateGdtEntry(0xA09B, 0, 0xFFFFF));
    assert ws[2] == WriteWord(BOOT_GDT + 16, CreateGdtEntry(0xC093, 0, 0xFFFFF));
    forall j | 3 <= j < |ws| ensures BOOT_PML4 <= ws[j].addr { LaterWrites(j); }
    StoredWord(m, ws, 0, BOOT_GDT, CreateGdtEntry(0, 0, 0));
    StoredWord(m, ws, 1, BOOT_GDT + 8, CreateGdtEntry(0xA09B, 0, 0xFFFFF));
    StoredWord(m, ws, 2, BOOT_GDT + 16, CreateGdtEntry(0xC093, 0, 0xFFFFF));
  }

  lemma LaterWrites(j: nat)
    requires 3 <= j < |InitWrites()|
    ensures BOOT_PML4 <= InitWrites()[j].addr
  {
    hide Entry, Le, CreateGdtEntry;
    var ws := InitWrites();
    if j < 6 { assert ws[j] == TableWrites()[j - 3]; } else { assert ws[j] == LeafWrite(j - 6); }
  }

  lemma DescriptorValues()
    ensures CreateGdtEntry(0, 0, 0) == 0
    ensures CreateGdtEntry(0xA09B, 0, 0xFFFFF) < TWO64 && CreateGdtEntry(0xC093, 0, 0xFFFFF) < TWO64
    ensures DescribesSegment(CreateGdtEntry(0xA09B, 0, 0xFFFFF), 0x9B, 0xA)
    ensures DescribesSegment(CreateGdtEntry(0xC093, 0, 0xFFFFF), 0x93, 0xC)
  {
    hide CreateGdtEntry, Base, Limit, Access, Attributes;
    NullDescriptor();
    DescriptorIsWord(0xA09B, 0, 0xFFFFF);
    DescriptorIsWord(0xC093, 0, 0xFFFFF);
    DescriptorRoundTrip(0xA09B, 0, 0xFFFFF);
    DescriptorRoundTrip(0xC093, 0, 0xFFFFF);
  }

  /** The words of a mapped memory, at the addresses of src/consts.rs. */
  lemma MappedWords(m: seq<byte>, i: nat)
    requires Mapped(m) && i < 512
    ensures |m| >= 0x13000 && Word(m, 0x10000) == 0x11003 && Word(m, 0x10FF8) == 0x10003 && Word(m, 0x11000) == 0x12003
    ensures Word(m, 0x12000 + 8 * i) == 0x20_0000 * i + 0x83
  {
    hide Word;
    assert LeafMapped(m, i);
  }

  /** The three descriptors as `init_guest_mem` leaves them at 0x1000. */
  lemma DescriptorWords(m: seq<byte>)
    requires Described(m)
    ensures |m| >= 0x1018 && Word(m, 0x1000) == 0
    ensures Base(Word(m, 0x1008)) == 0 && Limit(Word(m, 0x1008)) == 0xFFFFF
    ensures Access(Word(m, 0x1008)) == 0x9B && Attributes(Word(m, 0x1008)) == 0xA
    ensures Base(Word(m, 0x1010)) == 0 && Limit(Word(m, 0x1010)) == 0xFFFFF
    ensures Access(Word(m, 0x1010)) == 0x93 && Attributes(Word(m, 0x1010)) == 0xC
  {
    hide Word, Base, Limit, Access, Attributes;
  }

  /** The bytes of the table words that hold the mapping. */
  ghost predicate TableByte(i: int)
  {
    || BOOT_PML4 <= i < BOOT_PML4 + 8
    || BOOT_PML4 + 8 * 511 <= i < BOOT_PML4 + 8 * 512
    || BOOT_PDPTE <= i < BOOT_PDPTE + 8
    || BOOT_PDE <= i < BOOT_PDE + 8 * 512
  }

  /** A memory beside a mapped one is mapped exactly when the table words agree byte for byte. */
  lemma MappedIsTableBytes(m: seq<byte>, n: seq<byte>)
    requires Mapped(m) && |n| >= BOOT_TABLES_END
    ensures Mapped(n) <==> forall i :: TableByte(i) ==> m[i] == n[i]
  {
    hide Word;
    SameWord(m, n, BOOT_PML4);
    SameWord(m, n, BOOT_PML4 + 8 * 511);
    SameWord(m, n, BOOT_PDPTE);
    if Mapped(n) {
      forall i | TableByte(i) ensures m[i] == n[i] {
        if i >= BOOT_PDE { LeafByte(m, n, i); }
      }
    }
    if forall i :: TableByte(i) ==> m[i] == n[i] {
      forall i | 0 <= i < 512 ensures LeafMapped(n, i) {
        assert LeafMapped(m, i);
        SameWord(m, n, BOOT_PDE + 8 * i);
      }
    }
  }

  lemma LeafByte(m: seq<byte>, n: seq<byte>, i: nat)
    requires Mapped(m) && Mapped(n) && BOOT_PDE <= i < BOOT_PDE + 8 * 512
    ensures m[i] == n[i]
  {
    hide Word;
    var k := (i - BOOT_PDE) / 8;
    assert LeafMapped(m, k) && LeafMapped(n, k);
    SameWord(m, n, BOOT_PDE + 8 * k);
  }

  /** Writes that stay off the table pages keep the mapping. */
  lemma WritesKeepMapping(m: seq<byte>, ws: seq<Write>)
    requires Mapped(m) && AllFit(ws, |m|) && Avoids(ws, BOOT_PML4, BOOT_TABLES_END)
    ensures Mapped(Apply(m, ws))
  {
    hide Apply, Mapped;
    MappedSize(m);
    AvoidedRange(m, ws, BOOT_PML4, BOOT_TABLES_END);
    var r := Apply(m, ws);
    forall i | TableByte(i) ensures m[i] == r[i] {
      assert m[i] == m[BOOT_PML4..BOOT_TABLES_END][i - BOOT_PML4];
      assert r[i] == r[BOOT_PML4..BOOT_TABLES_END][i - BOOT_PML4];
    }
    MappedIsTableBytes(m, r);
  }

  lemma MappedSize(m: seq<byte>)
    requires Mapped(m)
    ensures |m| >= BOOT_TABLES_END
  {
  }

  // ----- walking the tables -----

  /** An entry `next + 3` (present, writable, not a leaf) leads to the table at `next`. */
  lemma StepDown(m: seq<byte>, addr: u64, table: nat, level: nat, next: nat)
    requires table + 4096 <= |m| && level > 0 && next % 4096 == 0 && next < 0x10_0000
    requires EntryAt(m, addr, table, level) == next + 3
    ensures SdmWalk(m, addr, table, level) == SdmWalk(m, addr, next, level - 1)
  {
    hide And, Or, Pow2, Shr, Up, Low, High, Word, Index, Bit, Frame, EntryAt;
    PointerBits(next);
  }

  /** At the last level the same entry maps the 4 KiB page at `next`. */
  lemma StepLeaf(m: seq<byte>, addr: u64, table: nat, next: nat)
    requires table + 4096 <= |m| && next % 4096 == 0 && next < 0x10_0000
    requires EntryAt(m, addr, table, 0) == next + 3
    ensures SdmWalk(m, addr, table, 0) == Some(next + Low(addr, 12))
  {
    hide And, Or, Pow2, Shr, Up, Low, High, Word, Index, Bit, Frame, EntryAt;
    PointerBits(next);
  }

  lemma PointerBits(next: nat)
    requires next % 4096 == 0 && next < 0x10_0000
    ensures Bit(next + 3, 0) && !Bit(next + 3, 7) && HighBitsClear(next + 3)
    ensures Frame((next + 3) % 0x10_0000_0000_0000, 12) == next
  {
    hide And, Or, Pow2, Up, Low, High, Frame, Bit;
    var e := next + 3;
    Literals.SmallWord(e);
    Literals.LowBits(next, 3);
    OddSum(next, 3);
    OddBit(e);
    Bit7Value(e);
    FrameValue(e);
  }

  lemma OddSum(frame: nat, low: nat)
    requires frame % 0x1000 == 0 && low % 2 == 1
    ensures (frame + low) % 2 == 1
  {
  }

  lemma OddBit(e: nat)
    requires e % 2 == 1
    ensures Bit(e, 0)
  {
  }

  /** A leaf entry of `init_guest_mem`, reached as a 2 MiB page (level 1) or through the self-map (level 0). */
  lemma StepLargeLeaf(m: seq<byte>, addr: u64, level: nat, i: nat)
    requires |m| >= BOOT_TABLES_END && level <= 1 && i < 512
    requires EntryAt(m, addr, BOOT_PDE, level) == i * LARGE_PAGE_SIZE + 0x83
    ensures SdmWalk(m, addr, BOOT_PDE, level) == Some(i * LARGE_PAGE_SIZE + Low(addr, Shift(level)))
  {
    hide And, Or, Pow2, Shr, Up, Low, High, Word, Index, Bit, Frame, EntryAt, LeafReservedClear;
    LeafEntryBits(i);
  }

  lemma LeafEntryBits(i: nat)
    requires i < 512
    ensures var e := i * LARGE_PAGE_SIZE + 0x83;
      && Bit(e, 0) && Bit(e, 7) && HighBitsClear(e) && LeafReservedClear(e, 1)
      && Frame(e % 0x10_0000_0000_0000, 12) == i * LARGE_PAGE_SIZE == Frame(e % 0x10_0000_0000_0000, 21)
  {
    hide Low, High, Pow2, Frame, Bit, HighBitsClear, LeafReservedClear;
    Literals.LeafNumber(i);
    LeafWord(i * LARGE_PAGE_SIZE);
  }

  lemma LeafWord(frame: nat)
    requires frame % 0x1000 == 0 && frame % 0x20_0000 == 0 && frame < 0x4000_0000
    ensures var e := frame + 0x83;
      && Bit(e, 0) && Bit(e, 7) && HighBitsClear(e) && LeafReservedClear(e, 1)
      && Frame(e % 0x10_0000_0000_0000, 12) == frame == Frame(e % 0x10_0000_0000_0000, 21)
  {
    hide And, Or, Shr, Up, Low, High, Pow2, Frame, Bit;
    var e := frame + 0x83;
    Literals.SmallWord(e);
    Literals.LowBits(frame, 0x83);
    OddSum(frame, 0x83);
    OddBit(e);
    Bit7Value(e);
    FrameValue(e);
    LowPart(e);
  }

  lemma LowPart(e: nat)
    ensures Low(e, 21) == e % 0x20_0000 && Pow2(13) == 0x2000
  {
    hide Low, Shr, Pow2;
    Powers();
    SmallPowers();
    Values(e, 21);
  }

  /** Every address below 1 GiB translates to itself, for the architecture and for the walk of the source. */
  lemma IdentityMapped(m: seq<byte>, addr: u64)
    requires Mapped(m) && addr < 0x4000_0000
    ensures Translates(m, addr, addr)
  {
    hide And, Or, Pow2, Shr, Up, Low, High, Word, SdmWalk, RawWalk, Readable;
    var i := addr / LARGE_PAGE_SIZE;
    Indices(addr);
    assert LeafMapped(m, i);
    StepDown(m, addr, BOOT_PML4, 3, BOOT_PDPTE);
    StepDown(m, addr, BOOT_PDPTE, 2, BOOT_PDE);
    StepLargeLeaf(m, addr, 1, i);
    WalkRefinesSdm(m, addr, BOOT_PML4, 3);
  }

  lemma Indices(addr: u64)
    requires addr < 0x4000_0000
    ensures Index(addr, 3) == 0 && Index(addr, 2) == 0 && Index(addr, 1) == addr / LARGE_PAGE_SIZE
    ensures Low(addr, 21) == addr % LARGE_PAGE_SIZE
  {
    hide Pow2, Shr, Low;
    Powers();
    Values(addr, 39);
    Values(addr, 30);
    Values(addr, 21);
  }

  /** The self-map in PML4 slot 511 shows the three tables, and every leaf, as 4 KiB pages. */
  lemma SelfMap(m: seq<byte>, addr: u64)
    requires Mapped(m) && Index(addr, 3) == 511
    ensures Index(addr, 2) == 511 && Index(addr, 1) == 511 && Index(addr, 0) == 511 ==>
      Translates(m, addr, BOOT_PML4 + Low(addr, 12))
    ensures Index(addr, 2) == 511 && Index(addr, 1) == 511 && Index(addr, 0) == 0 ==>
      Translates(m, addr, BOOT_PDPTE + Low(addr, 12))
    ensures Index(addr, 2) == 511 && Index(addr, 1) == 0 && Index(addr, 0) == 0 ==>
      Translates(m, addr, BOOT_PDE + Low(addr, 12))
    ensures Index(addr, 2) == 0 && Index(addr, 1) == 0 ==>
      Translates(m, addr, Index(addr, 0) * LARGE_PAGE_SIZE + Low(addr, 12))
  {
    hide And, Or, Pow2, Shr, Up, Low, High, Word, SdmWalk, Index, RawWalk, Readable;
    StepDown(m, addr, BOOT_PML4, 3, BOOT_PML4);
    if Index(addr, 2) == 511 {
      StepDown(m, addr, BOOT_PML4, 2, BOOT_PML4);
      if Index(addr, 1) == 511 {
        StepDown(m, addr, BOOT_PML4, 1, BOOT_PML4);
        if Index(addr, 0) == 511 {
          StepLeaf(m, addr, BOOT_PML4, BOOT_PML4);
          WalkRefinesSdm(m, addr, BOOT_PML4, 3);
        }
        if Index(addr, 0) == 0 {
          StepLeaf(m, addr, BOOT_PML4, BOOT_PDPTE);
          WalkRefinesSdm(m, addr, BOOT_PML4, 3);
        }
      } else if Index(addr, 1) == 0 && Index(addr, 0) == 0 {
        StepDown(m, addr, BOOT_PML4, 1, BOOT_PDPTE);
        StepLeaf(m, addr, BOOT_PDPTE, BOOT_PDE);
        WalkRefinesSdm(m, addr, BOOT_PML4, 3);
      }
    } else if Index(addr, 2) == 0 && Index(addr, 1) == 0 {
      StepDown(m, addr, BOOT_PML4, 2, BOOT_PDPTE);
      StepDown(m, addr, BOOT_PDPTE, 1, BOOT_PDE);
      var i := Index(addr, 0);
      IndexBound(addr, 0);
      assert LeafMapped(m, i);
      StepLargeLeaf(m, addr, 0, i);
      WalkRefinesSdm(m, addr, BOOT_PML4, 3);
    }
  }

  lemma IndexBound(addr: u64, level: nat)
    ensures Index(addr, level) < 512
  {
  }
}
