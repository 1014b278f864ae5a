/** What the guest reads from its memory after a load: relocated words, segment bytes, and the boot info, at the
    addresses and with the values of src/vm.rs.
 */
module LoadedWords {
  import opened Bits
  import opened GuestMemory
  import opened Options
  import opened Consts
  import opened Loader
  import opened LoaderTheorems

  /** The `n`-byte little-endian number at address `a`. */
  function Read(m: seq<byte>, a: nat, n: nat): nat
    requires a + n <= |m|
  {
    FromLe(m[a..a + n])
  }

  /** Memory `r` is what a load makes of `m`. */
  ghost predicate Booted(cfg: Config, img: Image, m: seq<byte>, r: seq<byte>)
  {
    && |r| == |m| && Loadable(img, |m|) && AllFit(Outcome(cfg, img, |m|), |m|)
    && r == Apply(m, Outcome(cfg, img, |m|))
  }

  /** It is what `load_kernel` leaves: the same write list. */
  lemma LoadBoots(cfg: Config, img: Image, m: seq<byte>)
    requires Loadable(img, |m|)
    ensures AllFit(Outcome(cfg, img, |m|), |m|) && Booted(cfg, img, m, Apply(m, Outcome(cfg, img, |m|)))
  {
    hide Apply, Outcome, Loadable, AllFit;
    OutcomeFits(cfg, img, |m|);
  }

  // ----- relocated words -----

  /** Every relative relocation leaves the load address plus its addend at the load address plus its offset
      (section 4.4.1 of the System V AMD64 psABI), both on 64 bits. */
  lemma RelocatedWord(cfg: Config, img: Image, m: seq<byte>, r: seq<byte>, k: nat)
    requires Booted(cfg, img, m, r) && AllLoad(img, |m|) && TargetsApart(img)
    requires k < |img.relas| && img.relas[k].relative
    ensures var base := if img.isDyn then 0x40_0000 else 0x80_0000;
      var addend := match img.relas[k].addend case Some(a) => a case None => 0;
      var target := (base + img.relas[k].offset) % 0x1_0000_0000_0000_0000;
      && WordAt(r, target, (base + addend) % 0x1_0000_0000_0000_0000)
      && (0 <= base + addend < 0x1_0000_0000_0000_0000 ==> WordAt(r, target, base + addend))
  {
    hide Apply, Outcome, AllLoad, TargetsApart, Le, Word, AllFit, Loadable;
    var t, v := Target(img, img.relas[k]), Relocated(img, img.relas[k]);
    TargetFits(img, k, |m|);
    forall i | t <= i < t + 8 ensures r[i] == Le(v, 8)[i - t] {
      RelocationContents(img, |img.relas|, k, i);
      RelocationWins(cfg, img, |m|, i);
      ApplyAt(m, Outcome(cfg, img, |m|), i);
    }
    WordIs(r, t, v);
  }

  predicate WordAt(r: seq<byte>, a: int, v: int) { 0 <= a && a + 8 <= |r| && Word(r, a) == v }

  lemma TargetFits(img: Image, k: nat, memSize: nat)
    requires Loadable(img, memSize) && AllLoad(img, memSize) && k < |img.relas| && img.relas[k].relative
    ensures Target(img, img.relas[k]) + 8 <= memSize
  {
  }

  // ----- segments -----

  /** Byte `d` of a loadable segment lies at distance `d` from its address, moved by the load address for a
      relocatable image: file bytes first, then zeros. */
  lemma SegmentBytes(cfg: Config, img: Image, m: seq<byte>, r: seq<byte>, k: nat, d: nat)
    requires Booted(cfg, img, m, r) && AllLoad(img, |m|) && SegmentsApart(img) && TargetsApart(img)
    requires k < |img.headers| && img.headers[k].kind.Load? && d < img.headers[k].memsz
    ensures var h := img.headers[k];
      var start := if img.isDyn then (0x40_0000 + h.vaddr) % 0x1_0000_0000_0000_0000 else h.vaddr;
      && (h.filesz <= d && Unrelocated(img, start + d) ==> ByteAt(r, start + d, 0))
      && (d < h.filesz && Unrelocated(img, start + d) ==>
            h.offset + d < |img.file| && ByteAt(r, start + d, img.file[h.offset + d]))
  {
    hide Apply, Outcome, TargetsApart, SegmentsApart, Loadable, AllFit, Unrelocated;
    var h := img.headers[k];
    assert Loads(img, h, |m|);
    LoadedImage(cfg, img, m, RegionStart(img, h) + d);
    assert InRegion(img, k, RegionStart(img, h) + d);
  }

  predicate ByteAt(r: seq<byte>, a: int, b: byte) { 0 <= a < |r| && r[a] == b }

  // ----- the boot info -----

  /** No segment and no relocation touches `[lo, hi)`. */
  ghost predicate ImageAvoids(img: Image, lo: nat, hi: nat) { RegionsAvoid(img, lo, hi) && TargetsAvoid(img, lo, hi) }

  /** What follows the boot info in the list of writes. */
  ghost function ImageWrites(img: Image, memSize: nat): seq<Write>
  {
    var segments := SegmentWrites(img, Processed(img, memSize, 0));
    if AllLoad(img, memSize) then segments + RelocationWrites(img, |img.relas|) else segments
  }

  lemma OutcomeParts(cfg: Config, img: Image, memSize: nat)
    ensures Outcome(cfg, img, memSize) == BootWrites(cfg, img, memSize) + ImageWrites(img, memSize)
  {
    hide BootWrites, SegmentWrites, RelocationWrites, Loads;
    if AllLoad(img, memSize) {
      var boot, segments := BootWrites(cfg, img, memSize), SegmentWrites(img, |img.headers|);
      var relocations := RelocationWrites(img, |img.relas|);
      assert boot + segments + relocations == boot + (segments + relocations);
    }
  }

  lemma ImageWritesAvoid(img: Image, memSize: nat, lo: nat, hi: nat)
    requires ImageAvoids(img, lo, hi) && (hi <= 0x9018 || 0x9038 <= lo)
    ensures Avoids(ImageWrites(img, memSize), lo, hi)
  {
    hide SegmentWrites, RelocationWrites, RegionsAvoid, TargetsAvoid, AllLoad;
    var n := Processed(img, memSize, 0);
    SegmentsAvoid(img, n, lo, hi);
    RelocationsAvoid(img, |img.relas|, lo, hi);
    AvoidsConcat(SegmentWrites(img, n), RelocationWrites(img, |img.relas|), lo, hi);
  }

  /** Off the fields that the header loop fills, what the boot info was given stays. */
  lemma FieldKept(cfg: Config, img: Image, m: seq<byte>, r: seq<byte>, a: nat, n: nat)
    requires Booted(cfg, img, m, r) && ImageAvoids(img, a, a + n) && a + n <= |m|
    requires a + n <= 0x9018 || 0x9038 <= a
    ensures AllFit(BootWrites(cfg, img, |m|), |m|) && r[a..a + n] == Apply(m, BootWrites(cfg, img, |m|))[a..a + n]
  {
    hide Apply, BootWrites, ImageWrites, Outcome, AllFit, Avoids, ImageAvoids, Booted;
    BootedIs(cfg, img, m, r);
    OutcomeParts(cfg, img, |m|);
    ImageWritesAvoid(img, |m|, a, a + n);
    var boot, rest := BootWrites(cfg, img, |m|), ImageWrites(img, |m|);
    ApplyConcat(m, boot, rest);
    AvoidedRange(Apply(m, boot), rest, a, a + n);
  }

  lemma BootedIs(cfg: Config, img: Image, m: seq<byte>, r: seq<byte>)
    requires Booted(cfg, img, m, r)
    ensures |r| == |m| && AllFit(Outcome(cfg, img, |m|), |m|) && r == Apply(m, Outcome(cfg, img, |m|))
  {
  }

  lemma NarrowAvoids(img: Image, lo: nat, hi: nat)
    requires ImageAvoids(img, 0x9000, 0x9098) && 0x9000 <= lo && hi <= 0x9098
    ensures ImageAvoids(img, lo, hi)
  {
    hide RegionStart, Target, Sound;
    forall k | 0 <= k < |img.headers| ensures RegionAvoids(img, img.headers[k], lo, hi) {
      assert RegionAvoids(img, img.headers[k], 0x9000, 0x9098);
    }
    forall k | 0 <= k < |img.relas| ensures TargetAvoids(img, img.relas[k], lo, hi) {
      assert TargetAvoids(img, img.relas[k], 0x9000, 0x9098);
    }
  }

  /** What the parameters put into the boot info, behind the defaults and the forwarded addresses. */
  lemma Parameters(cfg: Config, img: Image, m: seq<byte>, k: nat)
    requires 0x9098 <= |m| && k < 10
    ensures var ws := ParameterWrites(cfg, img, |m|);
      |ws| == 10 && AllFit(ws, |m|) && Apply(m, ws)[ws[k].addr..ws[k].End()] == ws[k].bytes
  {
    hide Le, Apply;
    var ws := ParameterWrites(cfg, img, |m|);
    StoredRange(m, ws, k);
  }

  /** The defaults and the forwarded addresses, before the parameters. */
  function Preamble(cfg: Config): seq<Write>
  {
    [Write(BOOT_INFO_ADDR, DefaultBootInfo(cfg.padding))] + AddressWrites(cfg)
  }

  lemma PreambleFits(cfg: Config, memSize: nat)
    requires 0x9098 <= memSize
    ensures AllFit(Preamble(cfg), memSize)
  {
    hide DefaultBootInfo;
    DefaultBootInfoSize(cfg.padding);
  }

  lemma BootRegrouped(cfg: Config, img: Image, memSize: nat)
    ensures BootWrites(cfg, img, memSize) == Preamble(cfg) + ParameterWrites(cfg, img, memSize)
  {
    hide ParameterWrites, AddressWrites, DefaultBootInfo;
    var d, a := [Write(BOOT_INFO_ADDR, DefaultBootInfo(cfg.padding))], AddressWrites(cfg);
    var p := ParameterWrites(cfg, img, memSize);
    assert d + (a + p) == d + a + p;
  }

  lemma BootParts(cfg: Config, img: Image, m: seq<byte>)
    requires 0x9098 <= |m|
    ensures AllFit(Preamble(cfg), |m|) && AllFit(ParameterWrites(cfg, img, |m|), |m|)
    ensures AllFit(BootWrites(cfg, img, |m|), |m|)
    ensures Apply(m, BootWrites(cfg, img, |m|)) == Apply(Apply(m, Preamble(cfg)), ParameterWrites(cfg, img, |m|))
  {
    hide Apply, AllFit, ParameterWrites, Preamble, BootWrites, Avoids;
    PreambleFits(cfg, |m|);
    ParametersFit(cfg, img, |m|);
    BootRegrouped(cfg, img, |m|);
    var first, second := Preamble(cfg), ParameterWrites(cfg, img, |m|);
    FitConcat(first, second, |m|);
    ApplyConcat(m, first, second);
  }

  lemma ParametersFit(cfg: Config, img: Image, memSize: nat)
    requires 0x9098 <= memSize
    ensures AllFit(ParameterWrites(cfg, img, memSize), memSize)
    ensures Avoids(ParameterWrites(cfg, img, memSize), 0x9000, 0x9008)
    ensures Avoids(ParameterWrites(cfg, img, memSize), 0x9074, 0x907C)
    ensures Avoids(ParameterWrites(cfg, img, memSize), 0x9086, 0x9087)
    ensures Avoids(ParameterWrites(cfg, img, memSize), 0x9088, 0x9098)
  {
    hide Le;
  }

  /** A field of the parameters, read back after a load. */
  lemma ParameterField(cfg: Config, img: Image, m: seq<byte>, r: seq<byte>, k: nat)
    requires Booted(cfg, img, m, r) && ImageAvoids(img, 0x9000, 0x9098) && k < 10
    ensures var ws := ParameterWrites(cfg, img, |m|);
      && |ws| == 10 && 0x9000 <= ws[k].addr && ws[k].End() <= 0x9098 && 0x9098 <= |r|
      && r[ws[k].addr..ws[k].End()] == ws[k].bytes
  {
    hide Apply, Booted, BootWrites, ImageAvoids, AllFit, Preamble;
    BootedSize(cfg, img, m, r);
    BootParts(cfg, img, m);
    ParameterPlace(cfg, img, |m|, k);
    hide ParameterWrites;
    var w := ParameterWrites(cfg, img, |m|)[k];
    NarrowAvoids(img, w.addr, w.End());
    FieldKept(cfg, img, m, r, w.addr, |w.bytes|);
    Parameters(cfg, img, Apply(m, Preamble(cfg)), k);
  }

  lemma ParameterPlace(cfg: Config, img: Image, memSize: nat, k: nat)
    requires k < 10
    ensures var ws := ParameterWrites(cfg, img, memSize);
      |ws| == 10 && 0x9000 <= ws[k].addr && ws[k].End() <= 0x9098 && (ws[k].End() <= 0x9018 || 0x9038 <= ws[k].addr)
  {
    hide Le;
  }

  lemma BootedSize(cfg: Config, img: Image, m: seq<byte>, r: seq<byte>)
    requires Booted(cfg, img, m, r)
    ensures 0x9098 <= |r| == |m|
  {
  }

  /** The parameters as numbers: load address, memory size, stack, host address, time, frequency, core count. */
  lemma BootParameters(cfg: Config, img: Image, m: seq<byte>, r: seq<byte>)
    requires Booted(cfg, img, m, r) && ImageAvoids(img, 0x9000, 0x9098)
    ensures 0x9098 <= |r|
    ensures Read(r, 0x9008, 8) == (if img.isDyn then 0x40_0000 else 0x80_0000)
    ensures Read(r, 0x9010, 8) == |m| % 0x1_0000_0000_0000_0000
    ensures Read(r, 0x9038, 8) == (if img.isDyn then 0x40_0000 else 0x80_0000) - 0x8000
    ensures Read(r, 0x9048, 8) == cfg.hostBase
    ensures Read(r, 0x9050, 8) == cfg.gtodSeconds * 1000000 % 0x1_0000_0000_0000_0000
    ensures Read(r, 0x9070, 4) == cfg.mhz % 0x1_0000_0000
    ensures Read(r, 0x907C, 4) == 1 && Read(r, 0x9080, 4) == 0
    ensures Read(r, 0x9084, 2) == (if cfg.verbose then 0x800 else 0) && r[0x9087] == 3
  {
    hide Booted, Le, FromLe, ImageAvoids, Pow2;
    BootedSize(cfg, img, m, r);
    FieldSizes();
    var start := if img.isDyn then 0x40_0000 else 0x80_0000;
    ParameterField(cfg, img, m, r, 0);
    LeLow(start, 8);
    ParameterField(cfg, img, m, r, 1);
    LeLow(|m|, 8);
    ParameterField(cfg, img, m, r, 2);
    LeLow(1, 4);
    ParameterField(cfg, img, m, r, 3);
    OneByte(3);
    ParameterField(cfg, img, m, r, 4);
    LeLow(0, 4);
    ParameterField(cfg, img, m, r, 5);
    LeLow(0x800, 2);
    LeLow(0, 2);
    ParameterField(cfg, img, m, r, 6);
    LeLow(start - 0x8000, 8);
    ParameterField(cfg, img, m, r, 7);
    LeLow(cfg.hostBase, 8);
    ParameterField(cfg, img, m, r, 8);
    LeLow(cfg.gtodSeconds * 1000000, 8);
    ParameterField(cfg, img, m, r, 9);
    LeLow(cfg.mhz, 4);
  }

  lemma FieldSizes()
    ensures Pow2(16) == 0x1_0000 && Pow2(32) == 0x1_0000_0000 && Pow2(64) == 0x1_0000_0000_0000_0000
  {
    Powers();
    Pow2Add(30, 2);
  }

  lemma OneByte(v: byte)
    ensures Le(v, 1) == [v]
  {
  }

  // ----- defaults and forwarded addresses -----

  /** What is forwarded, or the default in its place. */
  function OrDefault(octets: Option<Octets>, default: Octets): Octets
  {
    match octets case Some(o) => o case None => default
  }

  lemma DefaultContents(padding: Octets)
    ensures var d := DefaultBootInfo(padding);
      && |d| == 152 && d[0..4] == Le(0xC0DE_CAFE, 4) && d[4..8] == Le(1, 4)
      && d[116..120] == Le(0xFFFF_FFFF, 4) && d[120..124] == Le(0, 4) && d[134] == 1
      && d[136..140] == [255, 255, 255, 255] == d[140..144] && d[144..148] == [255, 255, 255, 0]
  {
    hide Le, Zeros;
    var d := DefaultBootInfo(padding);
    var head: seq<byte> := Le(0xC0DE_CAFE, 4) + Le(1, 4);
    var numbers: seq<byte> := Le(0, 4) + Le(0xFFFF_FFFF, 4) + Le(0, 4) + Le(0, 4) + Le(0, 4) + Le(0, 2) + [1, 0];
    var addresses: seq<byte> := [255, 255, 255, 255] + [255, 255, 255, 255] + [255, 255, 255, 0];
    assert d == head + Zeros(104) + numbers + addresses + padding;
    assert d[0..4] == head[0..4] == Le(0xC0DE_CAFE, 4) && d[4..8] == head[4..8] == Le(1, 4);
    assert d[116..120] == numbers[4..8] == Le(0xFFFF_FFFF, 4) && d[120..124] == numbers[8..12] == Le(0, 4);
    assert d[134] == numbers[22] == 1;
    assert d[136..140] == addresses[0..4] && d[140..144] == addresses[4..8] && d[144..148] == addresses[8..12];
  }

  lemma OneAddress(off: nat, octets: Option<Octets>, i: nat)
    ensures LastWrite(ForwardedAddress(off, octets), i) ==
      if octets.Some? && 0x9000 + off <= i < 0x9000 + off + 4 then Some(octets.value[i - 0x9000 - off]) else None
  {
  }

  lemma PreambleByte(cfg: Config, i: nat)
    requires 0x9000 <= i < 0x9098
    ensures |DefaultBootInfo(cfg.padding)| == 152
    ensures LastWrite(Preamble(cfg), i) == Some(
      if 0x9088 <= i < 0x908C && cfg.ip.Some? then cfg.ip.value[i - 0x9088]
      else if 0x908C <= i < 0x9090 && cfg.gateway.Some? then cfg.gateway.value[i - 0x908C]
      else if 0x9090 <= i < 0x9094 && cfg.mask.Some? then cfg.mask.value[i - 0x9090]
      else DefaultBootInfo(cfg.padding)[i - 0x9000])
  {
    hide LastWrite, ForwardedAddress, DefaultBootInfo;
    DefaultBootInfoSize(cfg.padding);
    var d := Write(BOOT_INFO_ADDR, DefaultBootInfo(cfg.padding));
    var a, b := ForwardedAddress(IP_OFF, cfg.ip), ForwardedAddress(GATEWAY_OFF, cfg.gateway);
    var c := ForwardedAddress(MASK_OFF, cfg.mask);
    OneAddress(IP_OFF, cfg.ip, i);
    OneAddress(GATEWAY_OFF, cfg.gateway, i);
    OneAddress(MASK_OFF, cfg.mask, i);
    LastWriteConcat(a, b, i);
    LastWriteConcat(a + b, c, i);
    LastWriteConcat([d], a + b + c, i);
    LastOf([], d, i);
    assert [] + [d] == [d];
  }

  /** A byte of the boot info that no parameter covers. */
  lemma PreambleKept(cfg: Config, img: Image, m: seq<byte>, r: seq<byte>, i: nat)
    requires Booted(cfg, img, m, r) && ImageAvoids(img, 0x9000, 0x9098)
    requires i in {0x9086} || 0x9000 <= i < 0x9008 || 0x9074 <= i < 0x907C || 0x9088 <= i < 0x9094
    ensures i < |r| && LastWrite(Preamble(cfg), i) == Some(r[i])
  {
    hide Booted, Apply, BootWrites, ImageAvoids, AllFit, Preamble, ParameterWrites, LastWrite, Avoids, DefaultBootInfo;
    BootedSize(cfg, img, m, r);
    NarrowAvoids(img, i, i + 1);
    FieldKept(cfg, img, m, r, i, 1);
    BootParts(cfg, img, m);
    ParametersFit(cfg, img, |m|);
    var first, params := Apply(m, Preamble(cfg)), ParameterWrites(cfg, img, |m|);
    ParameterOff(params, i);
    ApplyAt(first, params, i);
    PreambleByte(cfg, i);
    ApplyAt(m, Preamble(cfg), i);
    assert r[i..i + 1][0] == Apply(first, params)[i..i + 1][0];
  }

  lemma ParameterOff(ws: seq<Write>, i: nat)
    requires Avoids(ws, 0x9000, 0x9008) && Avoids(ws, 0x9074, 0x907C)
    requires Avoids(ws, 0x9086, 0x9087) && Avoids(ws, 0x9088, 0x9098)
    requires i in {0x9086} || 0x9000 <= i < 0x9008 || 0x9074 <= i < 0x907C || 0x9088 <= i < 0x9094
    ensures LastWrite(ws, i) == None
  {
    hide LastWrite, Avoids;
    if i < 0x9008 { AvoidedByte(ws, 0x9000, 0x9008, i); }
    else if i < 0x907C { AvoidedByte(ws, 0x9074, 0x907C, i); }
    else if i == 0x9086 { AvoidedByte(ws, 0x9086, 0x9087, i); }
    else { AvoidedByte(ws, 0x9088, 0x9098, i); }
  }

  /** Magic number, version, core numbers, and the three network addresses, forwarded or default. */
  lemma BootDefaults(cfg: Config, img: Image, m: seq<byte>, r: seq<byte>)
    requires Booted(cfg, img, m, r) && ImageAvoids(img, 0x9000, 0x9098)
    ensures 0x9098 <= |r|
    ensures Read(r, 0x9000, 4) == 0xC0DE_CAFE && Read(r, 0x9004, 4) == 1
    ensures Read(r, 0x9074, 4) == 0xFFFF_FFFF && Read(r, 0x9078, 4) == 0 && r[0x9086] == 1
    ensures r[0x9088..0x908C] == OrDefault(cfg.ip, [255, 255, 255, 255])
    ensures r[0x908C..0x9090] == OrDefault(cfg.gateway, [255, 255, 255, 255])
    ensures r[0x9090..0x9094] == OrDefault(cfg.mask, [255, 255, 255, 0])
  {
    hide Booted, Le, FromLe, ImageAvoids, Pow2, DefaultBootInfo, LastWrite, Preamble;
    BootedSize(cfg, img, m, r);
    DefaultContents(cfg.padding);
    var d := DefaultBootInfo(cfg.padding);
    forall i | i in {0x9086} || 0x9000 <= i < 0x9008 || 0x9074 <= i < 0x907C || 0x9088 <= i < 0x9094
      ensures r[i] == if 0x9088 <= i < 0x908C && cfg.ip.Some? then cfg.ip.value[i - 0x9088]
        else if 0x908C <= i < 0x9090 && cfg.gateway.Some? then cfg.gateway.value[i - 0x908C]
        else if 0x9090 <= i < 0x9094 && cfg.mask.Some? then cfg.mask.value[i - 0x9090]
        else d[i - 0x9000]
    {
      PreambleKept(cfg, img, m, r, i);
      PreambleByte(cfg, i);
    }
    FieldSizes();
    SameNumber(r, d, 0, 4, 0xC0DE_CAFE);
    SameNumber(r, d, 4, 4, 1);
    SameNumber(r, d, 116, 4, 0xFFFF_FFFF);
    SameNumber(r, d, 120, 4, 0);
    SameOctets(r, d, 136, cfg.ip);
    SameOctets(r, d, 140, cfg.gateway);
    SameOctets(r, d, 144, cfg.mask);
  }

  lemma SameNumber(r: seq<byte>, d: seq<byte>, off: nat, n: nat, v: nat)
    requires 0x9098 <= |r| && |d| == 152 && off + n <= 152 && d[off..off + n] == Le(v, n) && v < Pow2(8 * n)
    requires forall i :: 0x9000 + off <= i < 0x9000 + off + n ==> r[i] == d[i - 0x9000]
    ensures Read(r, 0x9000 + off, n) == v
  {
    hide Le, FromLe, Pow2;
    var x, y := r[0x9000 + off..0x9000 + off + n], d[off..off + n];
    forall j | 0 <= j < n ensures x[j] == y[j] {
      assert x[j] == r[0x9000 + off + j];
    }
    assert x == y;
    LeRoundTrip(v, n);
  }

  lemma SameOctets(r: seq<byte>, d: seq<byte>, off: nat, octets: Option<Octets>)
    requires 0x9098 <= |r| && |d| == 152 && off + 4 <= 152
    requires forall i :: 0x9000 + off <= i < 0x9000 + off + 4 ==>
      r[i] == if octets.Some? then octets.value[i - 0x9000 - off] else d[i - 0x9000]
    ensures r[0x9000 + off..0x9000 + off + 4] == OrDefault(octets, d[off..off + 4])
  {
    var x, o := r[0x9000 + off..0x9000 + off + 4], OrDefault(octets, d[off..off + 4]);
    forall j | 0 <= j < 4 ensures x[j] == o[j] {
      assert x[j] == r[0x9000 + off + j];
    }
  }

  // ----- thread-local storage -----

  /** The three fields that a TLS header fills. */
  function TlsBytes(img: Image, h: ProgramHeader): seq<byte>
  {
    Le(RegionStart(img, h), 8) + Le(h.filesz, 8) + Le(h.memsz, 8)
  }

  lemma TlsHeaderByte(img: Image, k: nat, i: nat)
    requires k < |img.headers| && 0x9020 <= i < 0x9038
    requires RegionAvoids(img, img.headers[k], 0x9000, 0x9098)
    ensures LastWrite(HeaderWrites(img, k), i) ==
      if img.headers[k].kind.Tls? then Some(TlsBytes(img, img.headers[k])[i - 0x9020]) else None
  {
    hide Le, RegionStart, ImageSize;
    var ws := HeaderWrites(img, k);
    if |ws| > 0 {
      assert ws == [ws[0], ws[1], ws[2]];
      ThreeWrites(ws[0], ws[1], ws[2], i);
    }
  }

  /** The last TLS header decides the fields. */
  lemma {:induction false} TlsByte(img: Image, n: nat, k: nat, i: nat)
    requires k < n <= |img.headers| && 0x9020 <= i < 0x9038 && RegionsAvoid(img, 0x9000, 0x9098)
    requires img.headers[k].kind.Tls? && forall j :: k < j < n ==> !img.headers[j].kind.Tls?
    ensures LastWrite(SegmentWrites(img, n), i) == Some(TlsBytes(img, img.headers[k])[i - 0x9020])
  {
    hide LastWrite, HeaderWrites, SegmentWrites, TlsBytes, RegionAvoids, ImageSize;
    NextSegment(img, n - 1);
    LastWriteConcat(SegmentWrites(img, n - 1), HeaderWrites(img, n - 1), i);
    TlsHeaderByte(img, n - 1, i);
    if k < n - 1 { TlsByte(img, n - 1, k, i); }
  }

  /** The guest finds start, file size and memory size of its last TLS segment. */
  lemma TlsFields(cfg: Config, img: Image, m: seq<byte>, r: seq<byte>, k: nat)
    requires Booted(cfg, img, m, r) && AllLoad(img, |m|) && ImageAvoids(img, 0x9000, 0x9098)
    requires k < |img.headers| && img.headers[k].kind.Tls?
    requires forall j :: k < j < |img.headers| ==> !img.headers[j].kind.Tls?
    ensures var h := img.headers[k];
      && 0x9098 <= |r|
      && Read(r, 0x9020, 8) == (if img.isDyn then (0x40_0000 + h.vaddr) % 0x1_0000_0000_0000_0000 else h.vaddr)
      && Read(r, 0x9028, 8) == h.filesz && Read(r, 0x9030, 8) == h.memsz
  {
    hide Booted, AllLoad, ImageAvoids, Le, FromLe, TlsBytes;
    BootedSize(cfg, img, m, r);
    var h := img.headers[k];
    var t := TlsBytes(img, h);
    TlsLayout(img, h);
    forall i | 0x9020 <= i < 0x9038 ensures r[i] == t[i - 0x9020] { LoadedTlsByte(cfg, img, m, r, k, i); }
    assert r[0x9020..0x9028] == t[0..8] && r[0x9028..0x9030] == t[8..16] && r[0x9030..0x9038] == t[16..24];
    FieldSizes();
    LeRoundTrip(RegionStart(img, h), 8);
    LeRoundTrip(h.filesz, 8);
    LeRoundTrip(h.memsz, 8);
  }

  lemma TlsLayout(img: Image, h: ProgramHeader)
    ensures var t := TlsBytes(img, h);
      |t| == 24 && t[0..8] == Le(RegionStart(img, h), 8) && t[8..16] == Le(h.filesz, 8) && t[16..24] == Le(h.memsz, 8)
  {
    hide Le, RegionStart;
  }

  lemma LoadedTlsByte(cfg: Config, img: Image, m: seq<byte>, r: seq<byte>, k: nat, i: nat)
    requires Booted(cfg, img, m, r) && AllLoad(img, |m|) && ImageAvoids(img, 0x9000, 0x9098)
    requires k < |img.headers| && img.headers[k].kind.Tls? && 0x9020 <= i < 0x9038
    requires forall j :: k < j < |img.headers| ==> !img.headers[j].kind.Tls?
    ensures i < |r| && |TlsBytes(img, img.headers[k])| == 24 && r[i] == TlsBytes(img, img.headers[k])[i - 0x9020]
  {
    hide LastWrite, BootWrites, SegmentWrites, RelocationWrites, Apply, TlsBytes, RegionsAvoid, TargetsAvoid, Loads,
      Loadable, AllFit;
    BootedSize(cfg, img, m, r);
    TlsLayout(img, img.headers[k]);
    var boot, segments := BootWrites(cfg, img, |m|), SegmentWrites(img, |img.headers|);
    var relocations := RelocationWrites(img, |img.relas|);
    ApplyAt(m, Outcome(cfg, img, |m|), i);
    LastWriteConcat(boot + segments, relocations, i);
    LastWriteConcat(boot, segments, i);
    TlsByte(img, |img.headers|, k, i);
    RelocationsAvoid(img, |img.relas|, 0x9000, 0x9098);
    AvoidedByte(relocations, 0x9000, 0x9098, i);
  }

  // ----- the size of a fixed image -----

  function MemorySizes(headers: seq<ProgramHeader>): nat
  {
    if headers == [] then 0
    else (if headers[0].kind.Load? then headers[0].memsz else 0) + MemorySizes(headers[1..])
  }

  lemma {:induction false} MemorySizesAppend(headers: seq<ProgramHeader>, h: ProgramHeader)
    ensures MemorySizes(headers + [h]) == MemorySizes(headers) + (if h.kind.Load? then h.memsz else 0)
  {
    if headers == [] {
      assert [] + [h] == [h];
    } else {
      assert (headers + [h])[1..] == headers[1..] + [h];
      MemorySizesAppend(headers[1..], h);
    }
  }

  /** For a fixed-address image the recorded size is the sum of the segment sizes. */
  lemma {:induction false} FixedSizeIsSum(img: Image, n: nat)
    requires !img.isDyn && n <= |img.headers|
    ensures ImageSize(img, n) == MemorySizes(img.headers[..n]) % 0x1_0000_0000_0000_0000
  {
    if n > 0 {
      FixedSizeIsSum(img, n - 1);
      assert img.headers[..n] == img.headers[..n - 1] + [img.headers[n - 1]];
      MemorySizesAppend(img.headers[..n - 1], img.headers[n - 1]);
      WrappedSum(MemorySizes(img.headers[..n - 1]), img.headers[n - 1].memsz);
    }
  }

  lemma WrappedSum(x: nat, y: nat)
    ensures (x % TWO64 + y) % TWO64 == (x + y) % TWO64
  {
    var q, r := Split(x, TWO64);
    assert x + y == q * TWO64 + (r + y);
  }
}
