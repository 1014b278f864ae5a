/** What a load leaves in guest memory. */
module LoaderTheorems {
  import opened Bits
  import opened GuestMemory
  import opened Options
  import opened Consts
  import opened Walker
  import opened AddressSpace
  import opened Loader

  /** What `load_kernel` needs of the memory it is given: room for boot info and tables, and, for an image that it
      relocates, targets in memory. */
  ghost predicate Loadable(img: Image, memSize: nat)
  {
    BOOT_TABLES_END <= memSize && (AllLoad(img, memSize) ==> TargetsInMemory(img, memSize))
  }

  lemma OutcomeFits(cfg: Config, img: Image, memSize: nat)
    requires Loadable(img, memSize)
    ensures AllFit(Outcome(cfg, img, memSize), memSize)
  {
    hide BootWrites, SegmentWrites, RelocationWrites, TargetsInMemory, Loads;
    var boot, n := BootWrites(cfg, img, memSize), Processed(img, memSize, 0);
    BootWritesFit(cfg, img, memSize);
    SegmentWritesFit(img, n, memSize);
    FitConcat(boot, SegmentWrites(img, n), memSize);
    if AllLoad(img, memSize) {
      RelocationWritesFit(img, |img.relas|, memSize);
      FitConcat(boot + SegmentWrites(img, n), RelocationWrites(img, |img.relas|), memSize);
    }
  }

  // ----- repetition -----

  /** Loading the same image again leaves memory as the first load did, whether or not all of it fits. */
  lemma LoadTwice(cfg: Config, img: Image, m: seq<byte>)
    requires Loadable(img, |m|)
    ensures AllFit(Outcome(cfg, img, |m|), |m|)
    ensures Apply(Apply(m, Outcome(cfg, img, |m|)), Outcome(cfg, img, |m|)) == Apply(m, Outcome(cfg, img, |m|))
  {
    hide Apply, Outcome;
    OutcomeFits(cfg, img, |m|);
    ApplyTwice(m, Outcome(cfg, img, |m|));
  }

  // ----- the address space survives -----

  /** A segment region that misses `[lo, hi)`. */
  ghost predicate RegionAvoids(img: Image, h: ProgramHeader, lo: nat, hi: nat)
  {
    h.kind.Load? && Sound(img, h) ==> RegionStart(img, h) + h.memsz <= lo || hi <= RegionStart(img, h)
  }

  ghost predicate RegionsAvoid(img: Image, lo: nat, hi: nat)
  {
    forall k :: 0 <= k < |img.headers| ==> RegionAvoids(img, img.headers[k], lo, hi)
  }

  ghost predicate TargetAvoids(img: Image, r: Rela, lo: nat, hi: nat)
  {
    r.relative ==> Target(img, r) + 8 <= lo || hi <= Target(img, r)
  }

  ghost predicate TargetsAvoid(img: Image, lo: nat, hi: nat)
  {
    forall k :: 0 <= k < |img.relas| ==> TargetAvoids(img, img.relas[k], lo, hi)
  }

  lemma {:induction false} SegmentsAvoid(img: Image, k: nat, lo: nat, hi: nat)
    requires k <= |img.headers| && RegionsAvoid(img, lo, hi)
    requires hi <= BOOT_INFO_ADDR + IMAGE_SIZE_OFF || BOOT_INFO_ADDR + STACK_OFF <= lo
    ensures Avoids(SegmentWrites(img, k), lo, hi)
  {
    hide HeaderWrites, RegionAvoids, SegmentWrites, ImageSize;
    NoSegments(img);
    if k > 0 {
      hide Avoids;
      NextSegment(img, k - 1);
      SegmentsAvoid(img, k - 1, lo, hi);
      HeaderAvoids(img, k - 1, lo, hi);
      AvoidsConcat(SegmentWrites(img, k - 1), HeaderWrites(img, k - 1), lo, hi);
    }
  }

  lemma HeaderAvoids(img: Image, k: nat, lo: nat, hi: nat)
    requires k < |img.headers| && RegionAvoids(img, img.headers[k], lo, hi)
    requires hi <= BOOT_INFO_ADDR + IMAGE_SIZE_OFF || BOOT_INFO_ADDR + STACK_OFF <= lo
    ensures Avoids(HeaderWrites(img, k), lo, hi)
  {
    hide Le, ImageSize, RegionStart;
  }

  lemma {:induction false} RelocationsAvoid(img: Image, k: nat, lo: nat, hi: nat)
    requires k <= |img.relas| && TargetsAvoid(img, lo, hi)
    ensures Avoids(RelocationWrites(img, k), lo, hi)
  {
    if k > 0 {
      hide Le, Relocated, Target;
      RelocationsAvoid(img, k - 1, lo, hi);
      assert TargetAvoids(img, img.relas[k - 1], lo, hi);
      AvoidsConcat(RelocationWrites(img, k - 1), RelocationWrite(img, img.relas[k - 1]), lo, hi);
    }
  }

  lemma AvoidsConcat(us: seq<Write>, ws: seq<Write>, lo: nat, hi: nat)
    requires Avoids(us, lo, hi) && Avoids(ws, lo, hi)
    ensures Avoids(us + ws, lo, hi)
  {
  }

  /** A range that no segment, no relocation and not the boot info touches is left alone. */
  lemma LoadAvoids(cfg: Config, img: Image, memSize: nat, lo: nat, hi: nat)
    requires RegionsAvoid(img, lo, hi) && TargetsAvoid(img, lo, hi)
    requires hi <= BOOT_INFO_ADDR || BOOT_INFO_END <= lo
    ensures Avoids(Outcome(cfg, img, memSize), lo, hi)
  {
    hide BootWrites, SegmentWrites, RelocationWrites, RegionsAvoid, TargetsAvoid, Loads;
    var boot, segments := BootWrites(cfg, img, memSize), SegmentWrites(img, Processed(img, memSize, 0));
    BootWritesFit(cfg, img, memSize);
    SegmentsAvoid(img, Processed(img, memSize, 0), lo, hi);
    AvoidsConcat(boot, segments, lo, hi);
    RelocationsAvoid(img, |img.relas|, lo, hi);
    AvoidsConcat(boot + segments, RelocationWrites(img, |img.relas|), lo, hi);
  }

  /** No address of the image wraps on 64 bits when the load address is added. */
  ghost predicate Unwrapped(img: Image)
  {
    && (forall k :: 0 <= k < |img.headers| && img.isDyn && img.headers[k].kind.Load? ==>
          StartAddress(img) + img.headers[k].vaddr < TWO64)
    && (forall k :: 0 <= k < |img.relas| && img.relas[k].relative ==> StartAddress(img) + img.relas[k].offset < TWO64)
  }

  /** Such images are relocated, and relocatable ones loaded, at 4 MiB and above. */
  lemma UnwrappedAvoids(img: Image, lo: nat, hi: nat)
    requires Unwrapped(img) && hi <= 0x40_0000
    ensures TargetsAvoid(img, lo, hi) && (img.isDyn ==> RegionsAvoid(img, lo, hi))
  {
  }

  /** From any initial memory, initialising it and loading any relocatable image whose addresses do not wrap leaves
      the first GiB mapped to itself. */
  lemma BootedAddressSpace(cfg: Config, img: Image, m: seq<byte>)
    requires Loadable(img, |m|) && Unwrapped(img)
    requires img.isDyn || RegionsAvoid(img, BOOT_PML4, BOOT_TABLES_END)
    ensures AllFit(InitWrites(), |m|) && AllFit(Outcome(cfg, img, |m|), |m|)
    ensures var booted := Apply(Apply(m, InitWrites()), Outcome(cfg, img, |m|));
      && Mapped(booted)
      && forall addr: u64 :: addr < 0x4000_0000 ==> Translates(booted, addr, addr)
  {
    hide Apply, Outcome, InitWrites, Mapped, Translates, TargetsInMemory, AllLoad, Unwrapped, RegionsAvoid,
      TargetsAvoid;
    InitWritesFit(|m|);
    OutcomeFits(cfg, img, |m|);
    InitMaps(m);
    UnwrappedAvoids(img, BOOT_PML4, BOOT_TABLES_END);
    LoadAvoids(cfg, img, |m|, BOOT_PML4, BOOT_TABLES_END);
    var initialised := Apply(m, InitWrites());
    WritesKeepMapping(initialised, Outcome(cfg, img, |m|));
    var booted := Apply(initialised, Outcome(cfg, img, |m|));
    forall addr: u64 | addr < 0x4000_0000 ensures Translates(booted, addr, addr) { IdentityMapped(booted, addr); }
  }

  /** From any initial memory, initialising it and loading any relocatable image whose addresses do not wrap leaves
      the null, code and data descriptors for the processor. */
  lemma BootedDescriptors(cfg: Config, img: Image, m: seq<byte>)
    requires Loadable(img, |m|) && Unwrapped(img)
    requires img.isDyn || RegionsAvoid(img, BOOT_GDT, BOOT_GDT + 24)
    ensures AllFit(InitWrites(), |m|) && AllFit(Outcome(cfg, img, |m|), |m|)
    ensures var initialised := Apply(m, InitWrites());
      var booted := Apply(initialised, Outcome(cfg, img, |m|));
      Described(booted) && booted[BOOT_GDT..BOOT_GDT + 24] == initialised[BOOT_GDT..BOOT_GDT + 24]
  {
    hide Apply, Outcome, InitWrites, Described, TargetsInMemory, AllLoad, Unwrapped, RegionsAvoid, TargetsAvoid;
    InitWritesFit(|m|);
    OutcomeFits(cfg, img, |m|);
    InitDescribes(m);
    UnwrappedAvoids(img, BOOT_GDT, BOOT_GDT + 24);
    LoadAvoids(cfg, img, |m|, BOOT_GDT, BOOT_GDT + 24);
    var initialised := Apply(m, InitWrites());
    AvoidedRange(initialised, Outcome(cfg, img, |m|), BOOT_GDT, BOOT_GDT + 24);
    DescribedByBytes(initialised, Apply(initialised, Outcome(cfg, img, |m|)));
  }

  lemma DescribedByBytes(m: seq<byte>, n: seq<byte>)
    requires Described(m) && |m| == |n| && BOOT_GDT + 24 <= |m|
    requires n[BOOT_GDT..BOOT_GDT + 24] == m[BOOT_GDT..BOOT_GDT + 24]
    ensures Described(n)
  {
    hide Word, DescribesSegment;
    forall i | BOOT_GDT <= i < BOOT_GDT + 24 ensures m[i] == n[i] {
      assert m[BOOT_GDT..BOOT_GDT + 24][i - BOOT_GDT] == n[BOOT_GDT..BOOT_GDT + 24][i - BOOT_GDT];
    }
    SameWord(m, n, BOOT_GDT);
    SameWord(m, n, BOOT_GDT + 8);
    SameWord(m, n, BOOT_GDT + 16);
  }

  /** An image with one segment, eight zero bytes over PML4 slot 0. */
  ghost predicate ClearsSlot0(img: Image)
  {
    && |img.headers| == 1 && img.relas == []
    && var h := img.headers[0];
       h.kind.Load? && h.filesz == 0 && h.offset == 0 && h.memsz == 8 && RegionStart(img, h) == BOOT_PML4
  }

  lemma ClearingUnmaps(cfg: Config, img: Image, m: seq<byte>, addr: u64)
    requires ClearsSlot0(img) && Mapped(m) && addr < 0x80_0000_0000
    ensures AllLoad(img, |m|) && AllFit(Outcome(cfg, img, |m|), |m|)
    ensures SdmWalk(Apply(m, Outcome(cfg, img, |m|)), addr, BOOT_PML4, 3) == None
  {
    hide Le, BootWrites, SdmWalk, Apply, Mapped, RegionStart, ImageSize;
    MappedSize(m);
    var h := img.headers[0];
    assert Loads(img, h, |m|);
    var boot, ws := BootWrites(cfg, img, |m|), Outcome(cfg, img, |m|);
    assert SegmentWrites(img, 0) == [] && SegmentWrites(img, 1) == HeaderWrites(img, 0);
    assert ws == boot + HeaderWrites(img, 0);
    OutcomeFits(cfg, img, |m|);
    var k := |boot| + 1;
    assert ws[k] == Write(BOOT_PML4, Zeros(8)) == WriteWord(BOOT_PML4, 0) by { ZeroWord(); }
    assert forall j :: k < j < |ws| ==> ws[j] == Field(IMAGE_SIZE_OFF, ImageSize(img, 1), 8);
    StoredWord(m, ws, k, BOOT_PML4, 0);
    Unmapped(Apply(m, ws), addr);
  }

  /** Without the proviso on fixed-address images the mapping can be lost. */
  lemma FixedImageCanUnmap(cfg: Config, m: seq<byte>, addr: u64)
    requires Mapped(m) && addr < 0x80_0000_0000
    ensures var img := Image([], false, true, false, 0, [ProgramHeader(Load, BOOT_PML4, 0, 0, 8)], []);
      && AllLoad(img, |m|) && AllFit(Outcome(cfg, img, |m|), |m|)
      && SdmWalk(Apply(m, Outcome(cfg, img, |m|)), addr, BOOT_PML4, 3) == None
  {
    hide SdmWalk, Apply, Mapped, Outcome, AllLoad;
    ClearingUnmaps(cfg, Image([], false, true, false, 0, [ProgramHeader(Load, BOOT_PML4, 0, 0, 8)], []), m, addr);
  }

  /** So it can by a relocatable image whose address wraps. */
  lemma WrappingImageCanUnmap(cfg: Config, m: seq<byte>, addr: u64)
    requires Mapped(m) && addr < 0x80_0000_0000
    ensures var img := Image([], false, true, true, 0, [ProgramHeader(Load, 0xFFFF_FFFF_FFC1_0000, 0, 0, 8)], []);
      && AllLoad(img, |m|) && AllFit(Outcome(cfg, img, |m|), |m|)
      && SdmWalk(Apply(m, Outcome(cfg, img, |m|)), addr, BOOT_PML4, 3) == None
  {
    hide SdmWalk, Apply, Mapped, Outcome, AllLoad;
    var img := Image([], false, true, true, 0, [ProgramHeader(Load, 0xFFFF_FFFF_FFC1_0000, 0, 0, 8)], []);
    ClearingUnmaps(cfg, img, m, addr);
  }

  lemma ZeroWord()
    ensures Zeros(8) == Le(0, 8)
  {
    assert Le(0, 8) == [0, 0, 0, 0, 0, 0, 0, 0];
  }

  lemma Unmapped(m: seq<byte>, addr: u64)
    requires |m| >= BOOT_TABLES_END && Word(m, BOOT_PML4) == 0 && addr < 0x80_0000_0000
    ensures SdmWalk(m, addr, BOOT_PML4, 3) == None
  {
    hide Low, High, Word, Pow2;
    Powers();
    Values(addr, 39);
    assert Index(addr, 3) == 0;
    assert !Bit(0, 0);
  }

  // ----- contents -----

  predicate InRegion(img: Image, k: nat, i: nat)
    requires k < |img.headers|
  {
    var h := img.headers[k];
    h.kind.Load? && Sound(img, h) && RegionStart(img, h) <= i < RegionStart(img, h) + h.memsz
  }

  ghost predicate InBootInfo(i: nat) { BOOT_INFO_ADDR <= i < BOOT_INFO_END }

  /** No address lies in two segments or in a segment and the boot info. */
  ghost predicate SegmentsApart(img: Image)
  {
    && (forall j, k, i: nat :: 0 <= j < k < |img.headers| ==> !(InRegion(img, j, i) && InRegion(img, k, i)))
    && (forall k, i: nat :: 0 <= k < |img.headers| && InRegion(img, k, i) ==> !InBootInfo(i))
  }

  /** File bytes, then zeros. */
  function SegmentByte(img: Image, h: ProgramHeader, i: nat): byte
    requires RegionStart(img, h) <= i && h.offset + h.filesz <= |img.file|
  {
    var d := i - RegionStart(img, h);
    if d < h.filesz then img.file[h.offset + d] else 0
  }

  lemma HeaderByte(img: Image, k: nat, i: nat)
    requires k < |img.headers| && !InBootInfo(i)
    ensures LastWrite(HeaderWrites(img, k), i) ==
      if InRegion(img, k, i) then Some(SegmentByte(img, img.headers[k], i)) else None
  {
    hide Le, ImageSize, RegionStart;
    var h := img.headers[k];
    var ws := HeaderWrites(img, k);
    match h.kind {
      case Load =>
        if Sound(img, h) {
          assert ws == [ws[0], ws[1], ws[2]];
          ThreeWrites(ws[0], ws[1], ws[2], i);
        }
      case Tls =>
        assert ws == [ws[0], ws[1], ws[2]];
        ThreeWrites(ws[0], ws[1], ws[2], i);
      case OtherSegment =>
    }
  }

  lemma ThreeWrites(a: Write, b: Write, c: Write, i: nat)
    ensures LastWrite([a, b, c], i) ==
      if c.Covers(i) then Some(c.bytes[i - c.addr])
      else if b.Covers(i) then Some(b.bytes[i - b.addr])
      else if a.Covers(i) then Some(a.bytes[i - a.addr]) else None
  {
    LastOf([a, b], c, i);
    LastOf([a], b, i);
    LastOf([], a, i);
    assert [a, b, c] == [a, b] + [c] && [a, b] == [a] + [b] && [a] == [] + [a];
  }

  lemma LastOf(ws: seq<Write>, w: Write, i: nat)
    ensures LastWrite(ws + [w], i) == if w.Covers(i) then Some(w.bytes[i - w.addr]) else LastWrite(ws, i)
    ensures LastWrite([], i) == None
  {
    assert (ws + [w])[..|ws|] == ws;
  }

  /** The byte that the last of the first `n` segments over address `i` puts there. */
  function LoadedOver(img: Image, n: nat, i: nat): Option<byte>
    requires n <= |img.headers|
  {
    if n == 0 then None
    else if InRegion(img, n - 1, i) then Some(SegmentByte(img, img.headers[n - 1], i))
    else LoadedOver(img, n - 1, i)
  }

  lemma {:induction false} SegmentsOver(img: Image, n: nat, i: nat)
    requires n <= |img.headers| && !InBootInfo(i)
    ensures LastWrite(SegmentWrites(img, n), i) == LoadedOver(img, n, i)
  {
    hide HeaderWrites, SegmentByte, SegmentWrites, RegionStart, Sound, ImageSize;
    NoSegments(img);
    if n > 0 {
      hide LastWrite, LoadedOver;
      SegmentsOver(img, n - 1, i);
      NextSegment(img, n - 1);
      NextOver(img, n, i);
      HeaderByte(img, n - 1, i);
      LastWriteConcat(SegmentWrites(img, n - 1), HeaderWrites(img, n - 1), i);
    }
  }

  lemma NextOver(img: Image, n: nat, i: nat)
    requires 0 < n <= |img.headers|
    ensures LoadedOver(img, n, i) ==
      if InRegion(img, n - 1, i) then Some(SegmentByte(img, img.headers[n - 1], i)) else LoadedOver(img, n - 1, i)
  {
  }

  lemma {:induction false} SegmentContents(img: Image, n: nat, k: nat, i: nat)
    requires SegmentsApart(img) && k < n <= |img.headers| && InRegion(img, k, i)
    ensures LoadedOver(img, n, i) == Some(SegmentByte(img, img.headers[k], i))
  {
    if k < n - 1 { SegmentContents(img, n - 1, k, i); }
  }

  lemma {:induction false} OutsideSegments(img: Image, n: nat, i: nat)
    requires n <= |img.headers| && forall k :: 0 <= k < n ==> !InRegion(img, k, i)
    ensures LoadedOver(img, n, i) == None
  {
    if n > 0 { OutsideSegments(img, n - 1, i); }
  }

  predicate AtTarget(img: Image, k: nat, i: nat)
    requires k < |img.relas|
  {
    img.relas[k].relative && Target(img, img.relas[k]) <= i < Target(img, img.relas[k]) + 8
  }

  ghost predicate TargetsApart(img: Image)
  {
    forall j, k, i: nat :: 0 <= j < k < |img.relas| ==> !(AtTarget(img, j, i) && AtTarget(img, k, i))
  }

  lemma OneRelocation(img: Image, k: nat, i: nat)
    requires k < |img.relas|
    ensures var r := img.relas[k];
      LastWrite(RelocationWrite(img, r), i) ==
        if AtTarget(img, k, i) then Some(Le(Relocated(img, r), 8)[i - Target(img, r)]) else None
  {
    hide Le, Relocated;
  }

  /** The byte that the last of the first `n` relocations over address `i` puts there. */
  function RelocatedOver(img: Image, n: nat, i: nat): Option<byte>
    requires n <= |img.relas|
  {
    if n == 0 then None
    else if AtTarget(img, n - 1, i) then
      Some(Le(Relocated(img, img.relas[n - 1]), 8)[i - Target(img, img.relas[n - 1])])
    else RelocatedOver(img, n - 1, i)
  }

  lemma {:induction false} RelocationsOver(img: Image, n: nat, i: nat)
    requires n <= |img.relas|
    ensures LastWrite(RelocationWrites(img, n), i) == RelocatedOver(img, n, i)
  {
    hide Le, Relocated, RelocationWrite, Target;
    if n > 0 {
      hide LastWrite, RelocatedOver, RelocationWrites;
      RelocationsOver(img, n - 1, i);
      NextRelocation(img, n, i);
      LastWriteConcat(RelocationWrites(img, n - 1), RelocationWrite(img, img.relas[n - 1]), i);
      OneRelocation(img, n - 1, i);
    }
  }

  lemma NextRelocation(img: Image, n: nat, i: nat)
    requires 0 < n <= |img.relas|
    ensures RelocationWrites(img, n) == RelocationWrites(img, n - 1) + RelocationWrite(img, img.relas[n - 1])
    ensures RelocatedOver(img, n, i) ==
      if AtTarget(img, n - 1, i)
      then Some(Le(Relocated(img, img.relas[n - 1]), 8)[i - Target(img, img.relas[n - 1])])
      else RelocatedOver(img, n - 1, i)
  {
  }

  lemma ElsewhereBy(img: Image, j: nat, k: nat, i: nat)
    requires TargetsApart(img) && j < k < |img.relas| && AtTarget(img, j, i)
    ensures !AtTarget(img, k, i)
  {
  }

  lemma {:induction false} RelocationContents(img: Image, n: nat, k: nat, i: nat)
    requires TargetsApart(img) && k < n <= |img.relas| && AtTarget(img, k, i)
    ensures RelocatedOver(img, n, i) == Some(Le(Relocated(img, img.relas[k]), 8)[i - Target(img, img.relas[k])])
  {
    hide Le, Relocated, TargetsApart;
    if k < n - 1 {
      ElsewhereBy(img, k, n - 1, i);
      RelocationContents(img, n - 1, k, i);
    }
  }

  lemma {:induction false} OutsideTargets(img: Image, n: nat, i: nat)
    requires n <= |img.relas| && forall k :: 0 <= k < n ==> !AtTarget(img, k, i)
    ensures RelocatedOver(img, n, i) == None
  {
    if n > 0 { OutsideTargets(img, n - 1, i); }
  }

  lemma OutsideBootInfo(cfg: Config, img: Image, memSize: nat, i: nat)
    requires !InBootInfo(i)
    ensures LastWrite(BootWrites(cfg, img, memSize), i) == None
  {
    hide BootWrites, LastWrite;
    BootWritesFit(cfg, img, memSize);
    var ws := BootWrites(cfg, img, memSize);
    if i < BOOT_INFO_ADDR {
      AvoidedByte(ws, 0, BOOT_INFO_ADDR, i);
    } else {
      assert Avoids(ws, BOOT_INFO_END, i + 1);
      AvoidedByte(ws, BOOT_INFO_END, i + 1, i);
    }
  }

  /** What the image puts at address `i`: relocations, if all segments loaded, over segments. */
  ghost function ImageOver(img: Image, memSize: nat, i: nat): Option<byte>
  {
    var relocated := if AllLoad(img, memSize) then RelocatedOver(img, |img.relas|, i) else None;
    if relocated.Some? then relocated else LoadedOver(img, Processed(img, memSize, 0), i)
  }

  /** Without any disjointness: outside the boot info a load leaves what the image puts there. */
  lemma OutcomeOver(cfg: Config, img: Image, memSize: nat, i: nat)
    requires !InBootInfo(i)
    ensures LastWrite(Outcome(cfg, img, memSize), i) == ImageOver(img, memSize, i)
  {
    hide LastWrite, BootWrites, SegmentWrites, RelocationWrites, LoadedOver, RelocatedOver, Loads;
    var boot, n := BootWrites(cfg, img, memSize), Processed(img, memSize, 0);
    var segments, relocations := SegmentWrites(img, n), RelocationWrites(img, |img.relas|);
    OutsideBootInfo(cfg, img, memSize, i);
    SegmentsOver(img, n, i);
    LastWriteConcat(boot, segments, i);
    RelocationsOver(img, |img.relas|, i);
    LastWriteConcat(boot + segments, relocations, i);
  }

  /** Relocations come last, also over the boot info. */
  lemma RelocationWins(cfg: Config, img: Image, memSize: nat, i: nat)
    requires AllLoad(img, memSize) && RelocatedOver(img, |img.relas|, i).Some?
    ensures LastWrite(Outcome(cfg, img, memSize), i) == RelocatedOver(img, |img.relas|, i)
  {
    hide LastWrite, BootWrites, SegmentWrites, RelocationWrites, RelocatedOver, Loads;
    RelocationsOver(img, |img.relas|, i);
    var rest := BootWrites(cfg, img, memSize) + SegmentWrites(img, |img.headers|);
    LastWriteConcat(rest, RelocationWrites(img, |img.relas|), i);
  }

  /** The loaded image, address by address: relocated words, then file bytes and zero tails, and nothing
      else outside the boot info. */
  lemma LoadedImage(cfg: Config, img: Image, m: seq<byte>, i: nat)
    requires Loadable(img, |m|) && AllLoad(img, |m|) && i < |m|
    requires SegmentsApart(img) && TargetsApart(img)
    ensures AllFit(Outcome(cfg, img, |m|), |m|)
    ensures forall k :: 0 <= k < |img.relas| && AtTarget(img, k, i) ==>
      Apply(m, Outcome(cfg, img, |m|))[i] == Le(Relocated(img, img.relas[k]), 8)[i - Target(img, img.relas[k])]
    ensures forall k :: 0 <= k < |img.headers| && InRegion(img, k, i) && Unrelocated(img, i) ==>
      Apply(m, Outcome(cfg, img, |m|))[i] == SegmentByte(img, img.headers[k], i)
    ensures OutsideImage(img, i) ==> Apply(m, Outcome(cfg, img, |m|))[i] == m[i]
  {
    hide LastWrite, Apply, Outcome, Le, Relocated, SegmentByte, TargetsApart, AllFit, RelocatedOver, LoadedOver, Loads,
      RegionStart, Target;
    OutcomeFits(cfg, img, |m|);
    ApplyAt(m, Outcome(cfg, img, |m|), i);
    assert Processed(img, |m|, 0) == |img.headers|;
    forall k | 0 <= k < |img.relas| && AtTarget(img, k, i)
      ensures Apply(m, Outcome(cfg, img, |m|))[i] == Le(Relocated(img, img.relas[k]), 8)[i - Target(img, img.relas[k])]
    {
      RelocationContents(img, |img.relas|, k, i);
      RelocationWins(cfg, img, |m|, i);
    }
    forall k | 0 <= k < |img.headers| && InRegion(img, k, i) && Unrelocated(img, i)
      ensures Apply(m, Outcome(cfg, img, |m|))[i] == SegmentByte(img, img.headers[k], i)
    {
      OutcomeOver(cfg, img, |m|, i);
      OutsideTargets(img, |img.relas|, i);
      SegmentContents(img, |img.headers|, k, i);
    }
    if OutsideImage(img, i) {
      OutcomeOver(cfg, img, |m|, i);
      OutsideTargets(img, |img.relas|, i);
      OutsideSegments(img, |img.headers|, i);
    }
  }

  ghost predicate Unrelocated(img: Image, i: nat)
  {
    forall k :: 0 <= k < |img.relas| ==> !AtTarget(img, k, i)
  }

  ghost predicate OutsideImage(img: Image, i: nat)
  {
    && Unrelocated(img, i) && !InBootInfo(i)
    && forall k :: 0 <= k < |img.headers| ==> !InRegion(img, k, i)
  }

  // ----- which images keep the mapping -----

  /** Every byte that the image puts over a table word is the byte that was there. */
  ghost predicate LeavesTables(img: Image, m: seq<byte>)
    requires BOOT_TABLES_END <= |m|
  {
    forall i :: TableByte(i) ==> ImageOver(img, |m|, i) in {None, Some(m[i])}
  }

  /** Exactly the images whose segments and relocations agree with the table words keep the mapping, fixed-address
      or not, wrapping or not. */
  lemma MappingKeptIff(cfg: Config, img: Image, m: seq<byte>)
    requires Loadable(img, |m|) && Mapped(m)
    ensures AllFit(Outcome(cfg, img, |m|), |m|)
    ensures Mapped(Apply(m, Outcome(cfg, img, |m|))) <==> LeavesTables(img, m)
  {
    hide Apply, Outcome, Mapped, LastWrite, ImageOver, AllLoad, TargetsInMemory, AllFit;
    OutcomeFits(cfg, img, |m|);
    var ws := Outcome(cfg, img, |m|);
    var r := Apply(m, ws);
    forall i | TableByte(i) ensures r[i] == m[i] <==> ImageOver(img, |m|, i) in {None, Some(m[i])} {
      OutcomeOver(cfg, img, |m|, i);
      ApplyAt(m, ws, i);
    }
    MappedIsTableBytes(m, r);
  }

  // ----- the recorded image size -----

  ghost predicate LastLoad(img: Image, k: nat)
  {
    k < |img.headers| && img.headers[k].kind.Load? && forall j :: k < j < |img.headers| ==> !img.headers[j].kind.Load?
  }

  /** The end of a segment relative to the load address, as it is recorded. */
  function SegmentEnd(h: ProgramHeader): nat { (h.vaddr + h.memsz) % TWO64 }

  lemma {:induction false} SizeAfterLast(img: Image, k: nat, n: nat)
    requires k < n <= |img.headers| && img.headers[k].kind.Load? && img.isDyn
    requires forall j :: k < j < n ==> !img.headers[j].kind.Load?
    ensures ImageSize(img, n) == SegmentEnd(img.headers[k])
  {
    if k < n - 1 { SizeAfterLast(img, k, n - 1); }
  }

  ghost predicate BoundsEnds(img: Image, size: nat)
  {
    forall j :: 0 <= j < |img.headers| && img.headers[j].kind.Load? ==> SegmentEnd(img.headers[j]) <= size
  }

  /** Loadable headers in ascending order that do not overlap, the last of which does not wrap. */
  ghost predicate Ascending(img: Image, k: nat)
    requires k < |img.headers|
  {
    && img.headers[k].vaddr + img.headers[k].memsz < TWO64
    && forall i, j :: 0 <= i < j < |img.headers| && img.headers[i].kind.Load? && img.headers[j].kind.Load? ==>
         img.headers[i].vaddr + img.headers[i].memsz <= img.headers[j].vaddr
  }

  /** For a relocatable image the recorded size bounds every segment end exactly when the end of the last loadable
      header does; headers in ascending order meet that. */
  lemma ImageSizeIsLargestEnd(img: Image, k: nat)
    requires img.isDyn && LastLoad(img, k)
    ensures BoundsEnds(img, ImageSize(img, |img.headers|)) <==> BoundsEnds(img, SegmentEnd(img.headers[k]))
    ensures Ascending(img, k) ==> BoundsEnds(img, ImageSize(img, |img.headers|))
  {
    SizeAfterLast(img, k, |img.headers|);
    if Ascending(img, k) {
      forall j | 0 <= j < |img.headers| && img.headers[j].kind.Load?
        ensures SegmentEnd(img.headers[j]) <= SegmentEnd(img.headers[k])
      {
        assert j < k ==> img.headers[j].vaddr + img.headers[j].memsz <= img.headers[k].vaddr;
      }
    }
  }

  /** Headers in descending order: the recorded size is the end of the lower segment. */
  lemma ImageSizeCanFallShort()
    ensures var img := Image([], false, true, true, 0,
        [ProgramHeader(Load, 0x1000, 0, 0, 0x1000), ProgramHeader(Load, 0, 0, 0, 0x1000)], []);
      AllLoad(img, 0x40_2000) && ImageSize(img, 2) < SegmentEnd(img.headers[0])
  {
    var img := Image([], false, true, true, 0,
      [ProgramHeader(Load, 0x1000, 0, 0, 0x1000), ProgramHeader(Load, 0, 0, 0, 0x1000)], []);
    SizeAfterLast(img, 1, 2);
    assert Loads(img, img.headers[0], 0x40_2000) && Loads(img, img.headers[1], 0x40_2000);
  }

  const SIZE_FIELD: nat := BOOT_INFO_ADDR + IMAGE_SIZE_OFF

  ghost predicate HasLoad(img: Image, n: nat)
    requires n <= |img.headers|
  {
    exists k :: 0 <= k < n && img.headers[k].kind.Load?
  }

  /** Each loadable header stores the size after its own bytes, so the last one decides the field, wherever the
      segments lie. */
  lemma {:induction false} SizeFieldByte(img: Image, n: nat, i: nat)
    requires n <= |img.headers| && HasLoad(img, n) && forall k :: 0 <= k < n ==> Sound(img, img.headers[k])
    requires SIZE_FIELD <= i < SIZE_FIELD + 8
    ensures LastWrite(SegmentWrites(img, n), i) == Some(Le(ImageSize(img, n), 8)[i - SIZE_FIELD])
  {
    hide Le, LastWrite, HeaderWrites, Sound;
    LastWriteConcat(SegmentWrites(img, n - 1), HeaderWrites(img, n - 1), i);
    HeaderSizeByte(img, n - 1, i);
    if !img.headers[n - 1].kind.Load? { SizeFieldByte(img, n - 1, i); }
  }

  lemma HeaderSizeByte(img: Image, k: nat, i: nat)
    requires k < |img.headers| && Sound(img, img.headers[k])
    requires SIZE_FIELD <= i < SIZE_FIELD + 8
    ensures LastWrite(HeaderWrites(img, k), i) ==
      if img.headers[k].kind.Load? then Some(Le(ImageSize(img, k + 1), 8)[i - SIZE_FIELD]) else None
  {
    hide Le, ImageSize, RegionStart;
    var ws := HeaderWrites(img, k);
    if !img.headers[k].kind.OtherSegment? {
      assert ws == [ws[0], ws[1], ws[2]];
      ThreeWrites(ws[0], ws[1], ws[2], i);
    }
  }

  /** The field after a load: the size, unless a relocation is laid over it. */
  lemma LoadedSizeByte(cfg: Config, img: Image, m: seq<byte>, i: nat)
    requires Loadable(img, |m|) && AllLoad(img, |m|) && HasLoad(img, |img.headers|)
    requires SIZE_FIELD <= i < SIZE_FIELD + 8
    ensures AllFit(Outcome(cfg, img, |m|), |m|)
    ensures Apply(m, Outcome(cfg, img, |m|))[i] ==
      match RelocatedOver(img, |img.relas|, i)
      case Some(b) => b
      case None => Le(ImageSize(img, |img.headers|), 8)[i - SIZE_FIELD]
  {
    hide LastWrite, BootWrites, SegmentWrites, RelocationWrites, Apply, Le, ImageSize, RelocatedOver, Fits,
      Sound, HasLoad;
    OutcomeFits(cfg, img, |m|);
    var boot, segments := BootWrites(cfg, img, |m|), SegmentWrites(img, |img.headers|);
    var relocations := RelocationWrites(img, |img.relas|);
    ApplyAt(m, Outcome(cfg, img, |m|), i);
    LastWriteConcat(boot + segments, relocations, i);
    LastWriteConcat(boot, segments, i);
    SizeFieldByte(img, |img.headers|, i);
    RelocationsOver(img, |img.relas|, i);
  }

  /** The boot info holds the size after a load, wherever the segments went, if and only if no relocation puts
      another byte over it; relocations off the field do not. */
  lemma ImageSizeFieldIff(cfg: Config, img: Image, m: seq<byte>)
    requires Loadable(img, |m|) && AllLoad(img, |m|) && HasLoad(img, |img.headers|)
    ensures AllFit(Outcome(cfg, img, |m|), |m|)
    ensures Word(Apply(m, Outcome(cfg, img, |m|)), SIZE_FIELD) == ImageSize(img, |img.headers|) <==>
      forall i :: SIZE_FIELD <= i < SIZE_FIELD + 8 ==> SizeByteKept(img, i)
    ensures TargetsAvoid(img, SIZE_FIELD, SIZE_FIELD + 8) ==>
      Word(Apply(m, Outcome(cfg, img, |m|)), SIZE_FIELD) == ImageSize(img, |img.headers|)
  {
    hide Outcome, Apply, Le, AllLoad, ImageSize, HasLoad, RelocatedOver, Loadable, TargetsAvoid, Word;
    FieldInMemory(img, |m|);
    SizeIsWord(img, |img.headers|);
    OutcomeFits(cfg, img, |m|);
    var r, size := Apply(m, Outcome(cfg, img, |m|)), ImageSize(img, |img.headers|);
    forall i | SIZE_FIELD <= i < SIZE_FIELD + 8 ensures r[i] == Le(size, 8)[i - SIZE_FIELD] <==> SizeByteKept(img, i) {
      LoadedSizeByte(cfg, img, m, i);
    }
    WordIs(r, SIZE_FIELD, size);
    if TargetsAvoid(img, SIZE_FIELD, SIZE_FIELD + 8) {
      forall i | SIZE_FIELD <= i < SIZE_FIELD + 8 ensures SizeByteKept(img, i) { OffTargets(img, i); }
    }
  }

  ghost predicate SizeByteKept(img: Image, i: nat)
    requires SIZE_FIELD <= i < SIZE_FIELD + 8
  {
    RelocatedOver(img, |img.relas|, i) in {None, Some(Le(ImageSize(img, |img.headers|), 8)[i - SIZE_FIELD])}
  }

  lemma FieldInMemory(img: Image, memSize: nat)
    requires Loadable(img, memSize)
    ensures SIZE_FIELD + 8 <= memSize
  {
  }

  lemma {:induction false} SizeIsWord(img: Image, n: nat)
    requires n <= |img.headers|
    ensures ImageSize(img, n) < TWO64
  {
    if n > 0 { SizeIsWord(img, n - 1); }
  }

  lemma OffTargets(img: Image, i: nat)
    requires TargetsAvoid(img, SIZE_FIELD, SIZE_FIELD + 8) && SIZE_FIELD <= i < SIZE_FIELD + 8
    ensures RelocatedOver(img, |img.relas|, i) == None
  {
    hide RelocatedOver, Target;
    forall k | 0 <= k < |img.relas| ensures !AtTarget(img, k, i) {
      assert TargetAvoids(img, img.relas[k], SIZE_FIELD, SIZE_FIELD + 8);
    }
    OutsideTargets(img, |img.relas|, i);
  }
}
