/** The kernel loader (`load_kernel` of src/vm.rs).

    Parsing the ELF file, the clock and the frequency probe are inputs.  The loader makes a
    fixed list of writes, `LoadWrites`, that depends on the image and the configuration but
    never on what guest memory holds.
 */
module Loader {
  import opened Bits
  import opened GuestMemory
  import opened Options
  import opened Consts

  datatype SegmentKind = Load | Tls | OtherSegment

  datatype ProgramHeader = ProgramHeader(kind: SegmentKind, vaddr: u64, offset: u64, filesz: u64, memsz: u64)

  /** A relocation with its addend; `relative` is R_X86_64_RELATIVE. */
  datatype Rela = Rela(relative: bool, offset: u64, addend: Option<int>)

  datatype Image = Image(
    file: seq<byte>, hasLibraries: bool, isX86: bool, isDyn: bool, entry: u64,
    headers: seq<ProgramHeader>, relas: seq<Rela>)

  type Octets = s: seq<byte> | |s| == 4 witness [0, 0, 0, 0]

  datatype Config = Config(
    ip: Option<Octets>, gateway: Option<Octets>, mask: Option<Octets>, verbose: bool,
    hostBase: u64, gtodSeconds: nat, mhz: nat, padding: Octets)

  datatype LoadError = InvalidData | InsufficientMemory

  /** Panicked: an index out of bounds in the middle of the load. */
  datatype LoadResult = Loaded | Failed(error: LoadError) | Panicked

  // ----- boot info layout -----

  const BOOT_INFO_END: nat := BOOT_INFO_ADDR + 152
  const BASE_OFF: nat := 8
  const LIMIT_OFF: nat := 16
  const IMAGE_SIZE_OFF: nat := 24
  const TLS_START_OFF: nat := 32
  const TLS_FILESZ_OFF: nat := 40
  const TLS_MEMSZ_OFF: nat := 48
  const STACK_OFF: nat := 56
  const HOST_OFF: nat := 72
  const GTOD_OFF: nat := 80
  const FREQ_OFF: nat := 112
  const POSSIBLE_CPUS_OFF: nat := 124
  const BOOT_ID_OFF: nat := 128
  const UART_OFF: nat := 132
  const UHYVE_OFF: nat := 135
  const IP_OFF: nat := 136
  const GATEWAY_OFF: nat := 140
  const MASK_OFF: nat := 144

  function Zeros(n: nat): (s: seq<byte>)
    ensures |s| == n && forall i :: 0 <= i < n ==> s[i] == 0
  {
    seq(n, _ => 0)
  }

  /** `BootInfo::new()` as it lies in memory; what its four padding bytes hold is up to the compiler. */
  function DefaultBootInfo(padding: Octets): (s: seq<byte>)
    ensures |s| == 152
    ensures forall i :: 8 <= i < 112 ==> s[i] == 0
  {
    var head: seq<byte> := Le(0xC0DE_CAFE, 4) + Le(1, 4);
    var tail: seq<byte> := Le(0, 4) + Le(0xFFFF_FFFF, 4) + Le(0, 4) + Le(0, 4) + Le(0, 4) + Le(0, 2) + [1, 0]
      + [255, 255, 255, 255] + [255, 255, 255, 255] + [255, 255, 255, 0];
    head + Zeros(104) + tail + padding
  }

  function Field(off: nat, v: nat, n: nat): Write { Write(BOOT_INFO_ADDR + off, Le(v, n)) }

  function ForwardedAddress(off: nat, octets: Option<Octets>): seq<Write>
  {
    match octets case Some(o) => [Write(BOOT_INFO_ADDR + off, o)] case None => []
  }

  function StartAddress(img: Image): nat { if img.isDyn then 0x40_0000 else 0x80_0000 }

  function EntryPoint(img: Image): nat { if img.isDyn then (0x40_0000 + img.entry) % TWO64 else img.entry }

  function AddressWrites(cfg: Config): seq<Write>
  {
    ForwardedAddress(IP_OFF, cfg.ip) + ForwardedAddress(GATEWAY_OFF, cfg.gateway) + ForwardedAddress(MASK_OFF, cfg.mask)
  }

  function MemoryFields(cfg: Config, img: Image, memSize: nat): seq<Write>
  {
    [ Field(BASE_OFF, StartAddress(img), 8),
      Field(LIMIT_OFF, memSize, 8),
      Field(POSSIBLE_CPUS_OFF, 1, 4),
      Field(UHYVE_OFF, 3, 1),
      Field(BOOT_ID_OFF, 0, 4),
      Field(UART_OFF, if cfg.verbose then UHYVE_UART_PORT else 0, 2) ]
  }

  function HostFields(cfg: Config, img: Image): seq<Write>
  {
    [ Field(STACK_OFF, StartAddress(img) - KERNEL_STACK_SIZE, 8),
      Field(HOST_OFF, cfg.hostBase, 8),
      Field(GTOD_OFF, cfg.gtodSeconds * 1000000, 8),
      Field(FREQ_OFF, cfg.mhz, 4) ]
  }

  function ParameterWrites(cfg: Config, img: Image, memSize: nat): seq<Write>
  {
    MemoryFields(cfg, img, memSize) + HostFields(cfg, img)
  }

  function BootWrites(cfg: Config, img: Image, memSize: nat): seq<Write>
  {
    [Write(BOOT_INFO_ADDR, DefaultBootInfo(cfg.padding))] + (AddressWrites(cfg) + ParameterWrites(cfg, img, memSize))
  }

  // ----- segments -----

  /** Where a segment goes; the sum wraps on 64 bits. */
  function RegionStart(img: Image, h: ProgramHeader): u64
  {
    if img.isDyn then (StartAddress(img) + h.vaddr) % TWO64 else h.vaddr
  }

  /** The size test of the loop, on 64 bits like the sum it compares. */
  predicate Fits(img: Image, h: ProgramHeader, memSize: nat)
  {
    h.kind.Load? ==> (RegionStart(img, h) + h.memsz) % TWO64 <= memSize
  }

  /** No slice of a segment that passes the size test is out of bounds: sizes in order, file bytes in the file,
      and an end that does not wrap. */
  predicate Sound(img: Image, h: ProgramHeader)
  {
    h.kind.Load? ==>
      && h.filesz <= h.memsz && h.offset + h.filesz <= |img.file| && h.offset + h.filesz < TWO64
      && RegionStart(img, h) + h.memsz < TWO64
  }

  predicate Loads(img: Image, h: ProgramHeader, memSize: nat) { Fits(img, h, memSize) && Sound(img, h) }

  ghost predicate AllLoad(img: Image, memSize: nat)
  {
    forall k :: 0 <= k < |img.headers| ==> Loads(img, img.headers[k], memSize)
  }

  /** The number of headers processed before the first one that does not fit or panics. */
  function Processed(img: Image, memSize: nat, k: nat): (r: nat)
    requires k <= |img.headers|
    ensures k <= r <= |img.headers|
    ensures forall j :: k <= j < r ==> Loads(img, img.headers[j], memSize)
    ensures r < |img.headers| ==> !Loads(img, img.headers[r], memSize)
    decreases |img.headers| - k
  {
    if k < |img.headers| && Loads(img, img.headers[k], memSize) then Processed(img, memSize, k + 1) else k
  }

  /** How the loop over the headers ends. */
  function SegmentsResult(img: Image, memSize: nat): LoadResult
  {
    var n := Processed(img, memSize, 0);
    if n == |img.headers| then Loaded
    else if !Fits(img, img.headers[n], memSize) then Failed(InsufficientMemory)
    else Panicked
  }

  /** On sound headers: InsufficientMemory if and only if some segment does not fit, and never a panic. */
  lemma SoundHeadersResult(img: Image, memSize: nat)
    requires forall k :: 0 <= k < |img.headers| ==> Sound(img, img.headers[k])
    ensures SegmentsResult(img, memSize) ==
      if forall k :: 0 <= k < |img.headers| ==> Fits(img, img.headers[k], memSize)
      then Loaded else Failed(InsufficientMemory)
  {
  }

  function ImageSize(img: Image, k: nat): nat
    requires k <= |img.headers|
  {
    if k == 0 then 0
    else
      var h := img.headers[k - 1];
      if !h.kind.Load? then ImageSize(img, k - 1)
      else if img.isDyn then (h.vaddr + h.memsz) % TWO64
      else (ImageSize(img, k - 1) + h.memsz) % TWO64
  }

  function HeaderWrites(img: Image, k: nat): seq<Write>
    requires k < |img.headers|
  {
    var h := img.headers[k];
    match h.kind
    case Load =>
      if Sound(img, h) then
        [ Write(RegionStart(img, h), img.file[h.offset..h.offset + h.filesz]),
          Write(RegionStart(img, h) + h.filesz, Zeros(h.memsz - h.filesz)),
          Field(IMAGE_SIZE_OFF, ImageSize(img, k + 1), 8) ]
      else []
    case Tls =>
      [ Field(TLS_START_OFF, RegionStart(img, h), 8),
        Field(TLS_FILESZ_OFF, h.filesz, 8),
        Field(TLS_MEMSZ_OFF, h.memsz, 8) ]
    case OtherSegment => []
  }

  function SegmentWrites(img: Image, k: nat): seq<Write>
    requires k <= |img.headers|
  {
    if k == 0 then [] else SegmentWrites(img, k - 1) + HeaderWrites(img, k - 1)
  }

  // ----- relocations -----

  /** The sum wraps on 64 bits. */
  function Target(img: Image, r: Rela): nat { (StartAddress(img) + r.offset) % TWO64 }

  /** Base plus addend, as a 64-bit word. */
  function Relocated(img: Image, r: Rela): nat
  {
    (StartAddress(img) + match r.addend case Some(a) => a case None => 0) % TWO64
  }

  function RelocationWrite(img: Image, r: Rela): seq<Write>
  {
    if r.relative then [WriteWord(Target(img, r), Relocated(img, r))] else []
  }

  function RelocationWrites(img: Image, k: nat): seq<Write>
    requires k <= |img.relas|
  {
    if k == 0 then [] else RelocationWrites(img, k - 1) + RelocationWrite(img, img.relas[k - 1])
  }

  ghost predicate TargetsInMemory(img: Image, memSize: nat)
  {
    forall k :: 0 <= k < |img.relas| && img.relas[k].relative ==> Target(img, img.relas[k]) + 8 <= memSize
  }

  function LoadWrites(cfg: Config, img: Image, memSize: nat): seq<Write>
  {
    BootWrites(cfg, img, memSize) + SegmentWrites(img, |img.headers|) + RelocationWrites(img, |img.relas|)
  }

  // ----- every write stays inside memory -----

  lemma BootWritesFit(cfg: Config, img: Image, memSize: nat)
    ensures AllFit(BootWrites(cfg, img, memSize), BOOT_INFO_END)
    ensures Avoids(BootWrites(cfg, img, memSize), 0, BOOT_INFO_ADDR)
  {
    hide Le, DefaultBootInfo, BOOT_INFO_ADDR;
    var addresses, parameters := AddressWrites(cfg), ParameterWrites(cfg, img, memSize);
    assert BootWrites(cfg, img, memSize)[1..] == addresses + parameters;
    assert |addresses| <= 3;
    forall k | 0 <= k < |addresses|
      ensures BOOT_INFO_ADDR + IP_OFF <= addresses[k].addr && addresses[k].End() <= BOOT_INFO_END
    {
      var a, b := ForwardedAddress(IP_OFF, cfg.ip), ForwardedAddress(GATEWAY_OFF, cfg.gateway);
      if k < |a| { assert addresses[k] == a[k]; }
      else if k < |a| + |b| { assert addresses[k] == b[k - |a|]; }
      else { assert addresses[k] == ForwardedAddress(MASK_OFF, cfg.mask)[k - |a| - |b|]; }
    }
  }

  lemma {:induction false} SegmentWritesFit(img: Image, k: nat, memSize: nat)
    requires k <= |img.headers| && BOOT_INFO_END <= memSize
    requires forall j :: 0 <= j < k ==> Loads(img, img.headers[j], memSize)
    ensures AllFit(SegmentWrites(img, k), memSize)
  {
    hide Le;
    if k > 0 {
      SegmentWritesFit(img, k - 1, memSize);
      assert AllFit(HeaderWrites(img, k - 1), memSize);
      FitConcat(SegmentWrites(img, k - 1), HeaderWrites(img, k - 1), memSize);
    }
  }

  lemma {:induction false} RelocationWritesFit(img: Image, k: nat, memSize: nat)
    requires k <= |img.relas| && TargetsInMemory(img, memSize)
    ensures AllFit(RelocationWrites(img, k), memSize)
  {
    hide Le;
    if k > 0 { RelocationWritesFit(img, k - 1, memSize); }
  }

  // ----- the loader -----

  /** The fields of the virtual machine that `load_kernel` sets, beside its memory. */
  class Vm {
    const mem: array<byte>
    var offset: nat
    var entryPoint: nat
    var bootInfo: Option<nat>

    constructor (mem: array<byte>)
      ensures this.mem == mem && bootInfo == None
    {
      this.mem := mem;
      offset, entryPoint, bootInfo := 0, 0, None;
    }

    /** One store, recorded at the end of the list of writes made so far. */
    method Put(w: Write, ghost before: seq<byte>, ghost done: seq<Write>) returns (ghost done': seq<Write>)
      requires w.End() <= mem.Length == |before|
      requires AllFit(done, mem.Length) && mem[..] == Apply(before, done)
      modifies mem
      ensures done' == done + [w] && AllFit(done', mem.Length) && mem[..] == Apply(before, done')
    {
      StoreBytes(mem, w);
      done' := done + [w];
      assert done'[..|done'| - 1] == done;
    }

    /** Clears `[lo, hi)`. */
    method ZeroFill(lo: nat, hi: nat)
      requires lo <= hi <= mem.Length
      modifies mem
      ensures mem[..] == Store(old(mem[..]), Write(lo, Zeros(hi - lo)))
    {
      ghost var before := mem[..];
      for i := lo to hi
        invariant forall j :: 0 <= j < mem.Length ==> mem[j] == if lo <= j < i then 0 else before[j]
      {
        mem[i] := 0;
      }
    }

    method PutAddress(off: nat, octets: Option<Octets>, ghost before: seq<byte>, ghost done: seq<Write>)
      returns (ghost done': seq<Write>)
      requires BOOT_INFO_ADDR + off + 4 <= mem.Length == |before|
      requires AllFit(done, mem.Length) && mem[..] == Apply(before, done)
      modifies mem
      ensures done' == done + ForwardedAddress(off, octets)
      ensures AllFit(done', mem.Length) && mem[..] == Apply(before, done')
    {
      match octets {
        case Some(o) => done' := Put(Write(BOOT_INFO_ADDR + off, o), before, done);
        case None => done' := done; assert done + [] == done;
      }
    }

    /** Default boot info, then the forwarded addresses, then the boot parameters. */
    method WriteBootInfo(cfg: Config, img: Image)
      requires BOOT_INFO_END <= mem.Length
      modifies this, mem
      ensures offset == StartAddress(img) && entryPoint == EntryPoint(img) && bootInfo == Some(BOOT_INFO_ADDR)
      ensures AllFit(BootWrites(cfg, img, mem.Length), mem.Length)
      ensures mem[..] == Apply(old(mem[..]), BootWrites(cfg, img, mem.Length))
    {
      hide Apply, AllFit, Le, DefaultBootInfo, Store, ForwardedAddress, MemoryFields, HostFields;
      ghost var before := mem[..];
      NoWrites(before);
      ghost var done: seq<Write> := [];
      DefaultBootInfoSize(cfg.padding);
      done := Put(Write(BOOT_INFO_ADDR, DefaultBootInfo(cfg.padding)), before, done);
      done := PutAddress(IP_OFF, cfg.ip, before, done);
      done := PutAddress(GATEWAY_OFF, cfg.gateway, before, done);
      done := PutAddress(MASK_OFF, cfg.mask, before, done);

      var startAddress := StartAddress(img);
      offset := startAddress;
      entryPoint := EntryPoint(img);
      bootInfo := Some(BOOT_INFO_ADDR);

      done := PutMemoryFields(cfg, img, before, done);
      done := PutHostFields(cfg, img, before, done);
      assert done == BootWrites(cfg, img, mem.Length);
    }

    method PutMemoryFields(cfg: Config, img: Image, ghost before: seq<byte>, ghost done: seq<Write>)
      returns (ghost done': seq<Write>)
      requires BOOT_INFO_END <= mem.Length == |before|
      requires AllFit(done, mem.Length) && mem[..] == Apply(before, done)
      modifies mem
      ensures done' == done + MemoryFields(cfg, img, mem.Length)
      ensures AllFit(done', mem.Length) && mem[..] == Apply(before, done')
    {
      hide Apply, AllFit, Le, Store;
      done' := Put(Field(BASE_OFF, StartAddress(img), 8), before, done);
      done' := Put(Field(LIMIT_OFF, mem.Length, 8), before, done');
      done' := Put(Field(POSSIBLE_CPUS_OFF, 1, 4), before, done');
      done' := Put(Field(UHYVE_OFF, 3, 1), before, done');
      done' := Put(Field(BOOT_ID_OFF, 0, 4), before, done');
      if cfg.verbose {
        done' := Put(Field(UART_OFF, UHYVE_UART_PORT, 2), before, done');
      } else {
        done' := Put(Field(UART_OFF, 0, 2), before, done');
      }
    }

    method PutHostFields(cfg: Config, img: Image, ghost before: seq<byte>, ghost done: seq<Write>)
      returns (ghost done': seq<Write>)
      requires BOOT_INFO_END <= mem.Length == |before|
      requires AllFit(done, mem.Length) && mem[..] == Apply(before, done)
      modifies mem
      ensures done' == done + HostFields(cfg, img)
      ensures AllFit(done', mem.Length) && mem[..] == Apply(before, done')
    {
      hide Apply, AllFit, Le, Store;
      done' := Put(Field(STACK_OFF, StartAddress(img) - KERNEL_STACK_SIZE, 8), before, done);
      done' := Put(Field(HOST_OFF, cfg.hostBase, 8), before, done');
      done' := Put(Field(GTOD_OFF, cfg.gtodSeconds * 1000000, 8), before, done');
      done' := Put(Field(FREQ_OFF, cfg.mhz, 4), before, done');
    }

    /** File bytes, zero tail, and the size so far. */
    method FillSegment(img: Image, k: nat, imageSize: nat, ghost before: seq<byte>, ghost done: seq<Write>)
      returns (ghost done': seq<Write>)
      requires k < |img.headers| && img.headers[k].kind.Load? && imageSize == ImageSize(img, k + 1)
      requires Loads(img, img.headers[k], mem.Length) && BOOT_INFO_END <= mem.Length == |before|
      requires AllFit(done, mem.Length) && mem[..] == Apply(before, done)
      modifies mem
      ensures done' == done + HeaderWrites(img, k)
      ensures AllFit(done', mem.Length) && mem[..] == Apply(before, done')
    {
      hide Apply, AllFit, Le, Store, ImageSize, RegionStart, Sound, HeaderWrites, Fits;
      SegmentIs(img, k, mem.Length);
      var h := img.headers[k];
      var regionStart := RegionStart(img, h);
      var regionEnd := regionStart + h.filesz;
      done' := Put(Write(regionStart, img.file[h.offset..h.offset + h.filesz]), before, done);
      ZeroFill(regionEnd, regionStart + h.memsz);
      ApplyOne(before, done', Write(regionEnd, Zeros(h.memsz - h.filesz)));
      done' := done' + [Write(regionEnd, Zeros(h.memsz - h.filesz))];
      done' := Put(Field(IMAGE_SIZE_OFF, imageSize, 8), before, done');
    }

    /** One loadable segment; false if a slice is out of bounds, before or after the file bytes are copied. */
    method PutSegment(img: Image, k: nat, imageSize: nat, ghost before: seq<byte>, ghost done: seq<Write>)
      returns (ok: bool, ghost done': seq<Write>)
      requires k < |img.headers| && img.headers[k].kind.Load? && imageSize == ImageSize(img, k + 1)
      requires Fits(img, img.headers[k], mem.Length) && BOOT_INFO_END <= mem.Length == |before|
      requires AllFit(done, mem.Length) && mem[..] == Apply(before, done)
      modifies mem
      ensures ok <==> Sound(img, img.headers[k])
      ensures ok ==> done' == done + HeaderWrites(img, k)
      ensures ok ==> AllFit(done', mem.Length) && mem[..] == Apply(before, done')
    {
      hide Apply, AllFit, Le, Store, ImageSize, RegionStart, Sound, HeaderWrites, Fits;
      var h := img.headers[k];
      var regionStart := RegionStart(img, h);
      var regionEnd := (regionStart + h.filesz) % TWO64;
      var kernelEnd := (h.offset + h.filesz) % TWO64;
      var zeroEnd := (regionEnd + (h.memsz - h.filesz) % TWO64) % TWO64;
      BoundsAreSound(img, h, mem.Length);
      if !(regionStart <= regionEnd <= mem.Length) || !(h.offset <= kernelEnd <= |img.file|) {
        return false, done;
      }
      if !(regionEnd <= zeroEnd <= mem.Length) {
        SliceLengths(regionStart, h.filesz);
        SliceLengths(h.offset, h.filesz);
        done' := Put(Write(regionStart, img.file[h.offset..kernelEnd]), before, done);
        return false, done';
      }
      done' := FillSegment(img, k, imageSize, before, done);
      return true, done';
    }

    /** The loop over the program headers; it stops at the first segment that does not fit. */
    method LoadSegments(img: Image) returns (r: LoadResult)
      requires BOOT_INFO_END <= mem.Length
      modifies mem
      ensures r == SegmentsResult(img, mem.Length)
      ensures AllFit(SegmentWrites(img, Processed(img, mem.Length, 0)), mem.Length)
      ensures !r.Panicked? ==> mem[..] == Apply(old(mem[..]), SegmentWrites(img, Processed(img, mem.Length, 0)))
    {
      hide Apply, Le, Store, SegmentWrites, ImageSize, RegionStart, HeaderWrites;
      ghost var before := mem[..];
      SegmentWritesFit(img, Processed(img, mem.Length, 0), mem.Length);
      var imageSize := 0;
      NoSegments(img);
      NoWrites(before);
      for k := 0 to |img.headers|
        invariant Processed(img, mem.Length, 0) == Processed(img, mem.Length, k)
        invariant AllFit(SegmentWrites(img, k), mem.Length) && mem[..] == Apply(before, SegmentWrites(img, k))
        invariant imageSize == ImageSize(img, k)
      {
        var h := img.headers[k];
        NextSegment(img, k);
        ghost var done := SegmentWrites(img, k);
        if h.kind.Load? {
          if (RegionStart(img, h) + h.memsz) % TWO64 > mem.Length {
            return Failed(InsufficientMemory);
          }
          imageSize := if img.isDyn then (h.vaddr + h.memsz) % TWO64 else (imageSize + h.memsz) % TWO64;
          var ok;
          ok, done := PutSegment(img, k, imageSize, before, done);
          if !ok {
            return Panicked;
          }
        } else if h.kind.Tls? {
          done := Put(Field(TLS_START_OFF, RegionStart(img, h), 8), before, done);
          done := Put(Field(TLS_FILESZ_OFF, h.filesz, 8), before, done);
          done := Put(Field(TLS_MEMSZ_OFF, h.memsz, 8), before, done);
          TlsWrites(img, k);
          assert done == SegmentWrites(img, k) + HeaderWrites(img, k);
        } else {
          OtherWrites(img, k);
        }
      }
      return Loaded;
    }

    /** Entries with an addend: base plus addend at the target. */
    method Relocate(img: Image)
      requires TargetsInMemory(img, mem.Length)
      modifies mem
      ensures AllFit(RelocationWrites(img, |img.relas|), mem.Length)
      ensures mem[..] == Apply(old(mem[..]), RelocationWrites(img, |img.relas|))
    {
      hide Apply, Le, Store;
      ghost var before := mem[..];
      NoWrites(before);
      for k := 0 to |img.relas|
        invariant AllFit(RelocationWrites(img, k), mem.Length)
        invariant mem[..] == Apply(before, RelocationWrites(img, k))
      {
        var rela := img.relas[k];
        ghost var done := RelocationWrites(img, k);
        if rela.relative {
          done := Put(WriteWord(Target(img, rela), Relocated(img, rela)), before, done);
        } else {
          assert done + [] == done;
        }
      }
    }

    /** `load_kernel` after the file has been parsed. */
    method LoadKernel(cfg: Config, img: Image) returns (r: LoadResult)
      requires !img.hasLibraries && img.isX86 ==> BOOT_INFO_END <= mem.Length
      requires !img.hasLibraries && img.isX86 && AllLoad(img, mem.Length) ==> TargetsInMemory(img, mem.Length)
      modifies this, mem
      ensures img.hasLibraries || !img.isX86 ==>
        r == Failed(InvalidData) && mem[..] == old(mem[..])
        && offset == old(offset) && entryPoint == old(entryPoint) && bootInfo == old(bootInfo)
      ensures !img.hasLibraries && img.isX86 ==>
        && r == SegmentsResult(img, mem.Length)
        && offset == (if img.isDyn then 0x40_0000 else 0x80_0000) && bootInfo == Some(0x9000)
        && entryPoint == (if img.isDyn then (0x40_0000 + img.entry) % TWO64 else img.entry)
        && AllFit(Outcome(cfg, img, mem.Length), mem.Length)
        && (!r.Panicked? ==> mem[..] == Apply(old(mem[..]), Outcome(cfg, img, mem.Length)))
    {
      hide Apply, Le, Store, SegmentWrites, RelocationWrites, BootWrites;
      if img.hasLibraries {
        return Failed(InvalidData);
      }
      if !img.isX86 {
        return Failed(InvalidData);
      }
      ghost var before := mem[..];
      WriteBootInfo(cfg, img);
      r := LoadSegments(img);
      ghost var boot, segments := BootWrites(cfg, img, mem.Length), SegmentWrites(img, Processed(img, mem.Length, 0));
      FitConcat(boot, segments, mem.Length);
      ApplyConcat(before, boot, segments);
      if r == Loaded {
        Relocate(img);
        ghost var relocations := RelocationWrites(img, |img.relas|);
        FitConcat(boot + segments, relocations, mem.Length);
        ApplyConcat(before, boot + segments, relocations);
      }
    }
  }

  /** The writes of a run: all of them, or those made before the first segment that does not load. */
  ghost function Outcome(cfg: Config, img: Image, memSize: nat): seq<Write>
  {
    if AllLoad(img, memSize) then LoadWrites(cfg, img, memSize)
    else BootWrites(cfg, img, memSize) + SegmentWrites(img, Processed(img, memSize, 0))
  }

  /** For a segment that passes the size test, the bounds checks of the slices hold exactly if it is sound. */
  lemma BoundsAreSound(img: Image, h: ProgramHeader, memSize: nat)
    requires h.kind.Load? && Fits(img, h, memSize)
    ensures var start, end := RegionStart(img, h), (RegionStart(img, h) + h.filesz) % TWO64;
      var kernelEnd, zeroEnd := (h.offset + h.filesz) % TWO64, (end + (h.memsz - h.filesz) % TWO64) % TWO64;
      && zeroEnd == (start + h.memsz) % TWO64
      && (Sound(img, h) <==>
            start <= end <= memSize && h.offset <= kernelEnd <= |img.file| && end <= zeroEnd <= memSize)
  {
    hide RegionStart;
    var start := RegionStart(img, h);
    SliceLengths(start, h.filesz);
    SliceLengths(start, h.memsz);
    SliceLengths(h.offset, h.filesz);
    ZeroEnd(start, h.filesz, h.memsz);
  }

  /** A wrapped end lies below its start. */
  lemma SliceLengths(start: u64, size: u64)
    ensures start <= (start + size) % TWO64 <==> start + size < TWO64
    ensures start + size < TWO64 ==> (start + size) % TWO64 == start + size
  {
  }

  lemma ZeroEnd(start: u64, filesz: u64, memsz: u64)
    ensures ((start + filesz) % TWO64 + (memsz - filesz) % TWO64) % TWO64 == (start + memsz) % TWO64
  {
  }

  lemma SegmentIs(img: Image, k: nat, memSize: nat)
    requires k < |img.headers| && img.headers[k].kind.Load? && Loads(img, img.headers[k], memSize)
    ensures var h := img.headers[k];
      && h.offset + h.filesz <= |img.file| && h.filesz <= h.memsz && RegionStart(img, h) + h.memsz <= memSize
      && HeaderWrites(img, k) ==
           [ Write(RegionStart(img, h), img.file[h.offset..h.offset + h.filesz]),
             Write(RegionStart(img, h) + h.filesz, Zeros(h.memsz - h.filesz)),
             Field(IMAGE_SIZE_OFF, ImageSize(img, k + 1), 8) ]
  {
  }

  lemma TlsWrites(img: Image, k: nat)
    requires k < |img.headers| && img.headers[k].kind.Tls?
    ensures HeaderWrites(img, k) ==
      [ Field(TLS_START_OFF, RegionStart(img, img.headers[k]), 8),
        Field(TLS_FILESZ_OFF, img.headers[k].filesz, 8),
        Field(TLS_MEMSZ_OFF, img.headers[k].memsz, 8) ]
  {
  }

  lemma OtherWrites(img: Image, k: nat)
    requires k < |img.headers| && img.headers[k].kind.OtherSegment?
    ensures HeaderWrites(img, k) == [] && SegmentWrites(img, k) + [] == SegmentWrites(img, k)
  {
  }

  lemma NoSegments(img: Image)
    ensures SegmentWrites(img, 0) == [] && ImageSize(img, 0) == 0
  {
  }

  lemma NextSegment(img: Image, k: nat)
    requires k < |img.headers|
    ensures SegmentWrites(img, k + 1) == SegmentWrites(img, k) + HeaderWrites(img, k)
    ensures var h := img.headers[k];
      ImageSize(img, k + 1) == if !h.kind.Load? then ImageSize(img, k)
                               else if img.isDyn then (h.vaddr + h.memsz) % TWO64
                               else (ImageSize(img, k) + h.memsz) % TWO64
  {
  }

  lemma DefaultBootInfoSize(padding: Octets)
    ensures |DefaultBootInfo(padding)| == 152
  {
  }
}
