/** Guest buffers (`memory` of src/linux/vcpu.rs, `write` of src/vm.rs).

    Both translate the first address of a buffer and then run through physical memory.
    That is right as long as the buffer is physically contiguous: inside one page of any
    well-formed tables, and anywhere in the identity-mapped first GiB.
 */
module Buffers {
  import opened Bits
  import opened GuestMemory
  import opened Paging
  import opened Consts
  import opened Walker
  import opened AddressSpace

  /** The level at which the translation of `addr` ends. */
  ghost function LeafLevel(m: seq<byte>, addr: u64, table: nat, level: nat): (r: nat)
    requires SdmWalk(m, addr, table, level).Some?
    ensures r <= level
    decreases m, level
  {
    var e := EntryAt(m, addr, table, level);
    if level == 0 || Bit(e, 7) then level
    else LeafLevel(m, addr, Frame(e % 0x10_0000_0000_0000, 12), level - 1)
  }

  lemma SameIndex(a: u64, b: u64, s: nat, level: nat)
    requires s <= Shift(level) && Shr(a, s) == Shr(b, s)
    ensures Index(a, level) == Index(b, level)
  {
    hide Shr;
    ShrAdd(a, s, Shift(level) - s);
    ShrAdd(b, s, Shift(level) - s);
  }

  /** Addresses in one page are translated through the same leaf. */
  lemma {:induction false} SamePageWalk(m: seq<byte>, a: u64, b: u64, table: nat, level: nat)
    requires SdmWalk(m, a, table, level).Some?
    requires Shr(a, Shift(LeafLevel(m, a, table, level))) == Shr(b, Shift(LeafLevel(m, a, table, level)))
    ensures SdmWalk(m, b, table, level).Some?
    ensures var s := Shift(LeafLevel(m, a, table, level));
      SdmWalk(m, b, table, level).value + Low(a, s) == SdmWalk(m, a, table, level).value + Low(b, s)
    decreases level
  {
    hide Pow2, Shr, Low, High, Word, Bit, Frame, Index;
    var e := EntryAt(m, a, table, level);
    SameIndex(a, b, Shift(LeafLevel(m, a, table, level)), level);
    assert EntryAt(m, b, table, level) == e;
    if level > 0 && !Bit(e, 7) {
      SamePageWalk(m, a, b, Frame(e % 0x10_0000_0000_0000, 12), level - 1);
    }
  }

  /** Within one page, one translation serves every later address. */
  lemma OneTranslationPerPage(m: seq<byte>, a: u64, d: nat)
    requires SdmWalk(m, a, BOOT_PML4, 3).Some? && a + d < TWO64
    requires var s := Shift(LeafLevel(m, a, BOOT_PML4, 3)); Shr(a, s) == Shr(a + d, s)
    ensures Translates(m, a + d, SdmWalk(m, a, BOOT_PML4, 3).value + d)
  {
    hide Pow2, Shr, Up, Low, High, SdmWalk, LeafLevel, Readable, RawWalk;
    var s := Shift(LeafLevel(m, a, BOOT_PML4, 3));
    SamePageWalk(m, a, a + d, BOOT_PML4, 3);
    OffsetDifference(a, a + d, s);
    WalkRefinesSdm(m, a + d, BOOT_PML4, 3);
  }

  lemma OffsetDifference(a: nat, b: nat, s: nat)
    requires Shr(a, s) == Shr(b, s)
    ensures Low(b, s) - Low(a, s) == b - a
  {
    HighIsUp(a, s);
    HighIsUp(b, s);
  }

  /** The address at distance `d` translates to the same distance from `phys`. */
  ghost predicate TranslatesAt(m: seq<byte>, buf: u64, phys: nat, d: nat)
  {
    buf + d < TWO64 && Translates(m, buf + d, phys + d)
  }

  ghost predicate Contiguous(m: seq<byte>, buf: u64, len: nat, phys: nat)
  {
    phys + len <= |m| && forall d :: 0 <= d < len ==> TranslatesAt(m, buf, phys, d)
  }

  lemma IdentityContiguous(m: seq<byte>, buf: u64, len: nat)
    requires Mapped(m) && buf + len <= 0x4000_0000 && buf + len <= |m|
    ensures Contiguous(m, buf, len, buf)
  {
    hide Translates, Mapped;
    forall d | 0 <= d < len ensures TranslatesAt(m, buf, buf, d) { IdentityMapped(m, buf + d); }
  }

  /** The address at distance `d` has the same bits from `s` up. */
  predicate SamePage(buf: u64, d: nat, s: nat) { buf + d < TWO64 && Shr(buf, s) == Shr(buf + d, s) }

  lemma PageContiguous(m: seq<byte>, buf: u64, len: nat)
    requires SdmWalk(m, buf, BOOT_PML4, 3).Some? && SdmWalk(m, buf, BOOT_PML4, 3).value + len <= |m|
    requires forall d :: 0 <= d < len ==> SamePage(buf, d, Shift(LeafLevel(m, buf, BOOT_PML4, 3)))
    ensures Contiguous(m, buf, len, SdmWalk(m, buf, BOOT_PML4, 3).value)
  {
    hide Pow2, Shr, Low, High, SdmWalk, LeafLevel, Translates;
    var p, s := SdmWalk(m, buf, BOOT_PML4, 3).value, Shift(LeafLevel(m, buf, BOOT_PML4, 3));
    forall d | 0 <= d < len ensures TranslatesAt(m, buf, p, d) {
      assert SamePage(buf, d, s);
      OneTranslationPerPage(m, buf, d);
    }
  }

  ghost predicate Accessible(m: seq<byte>, buf: u64, d: nat)
  {
    && buf + d < TWO64
    && Readable(m, buf + d, BOOT_PML4, 3) && RawWalk(m, buf + d, BOOT_PML4, 3) < |m|
  }

  /** The byte a program sees at virtual address `buf + d`. */
  ghost function VirtualByte(m: seq<byte>, buf: u64, d: nat): byte
    requires Accessible(m, buf, d)
  {
    m[RawWalk(m, buf + d, BOOT_PML4, 3)]
  }

  lemma ContiguousByte(m: seq<byte>, buf: u64, len: nat, phys: nat, d: nat)
    requires Contiguous(m, buf, len, phys) && d < len
    ensures Accessible(m, buf, d) && VirtualByte(m, buf, d) == m[phys + d]
  {
    hide Readable, RawWalk, SdmWalk;
    assert TranslatesAt(m, buf, phys, d);
  }

  datatype WriteResult = Done | OsError | Blocked

  /** What the answers before the first error add up to. */
  function Granted(steps: seq<int>): nat
  {
    if steps == [] || steps[0] < 0 then 0 else steps[0] + Granted(steps[1..])
  }

  predicate HasError(steps: seq<int>) { exists k :: 0 <= k < |steps| && steps[k] < 0 }

  /** The `write` system call.  `steps` are the answers of the operating system's write: a negative one is
      an error, the others say how many of the remaining bytes were taken.  Blocked: no further answer. */
  method WriteCall(mem: array<byte>, buf: u64, len: nat, steps: seq<int>) returns (r: WriteResult, out: seq<byte>)
    requires Readable(mem[..], buf, BOOT_PML4, 3) && RawWalk(mem[..], buf, BOOT_PML4, 3) + len <= mem.Length
    ensures |out| == if Granted(steps) < len then Granted(steps) else len
    ensures var phys := RawWalk(mem[..], buf, BOOT_PML4, 3); out == mem[..][phys..phys + |out|]
    ensures r.Done? <==> Granted(steps) >= len
    ensures r.OsError? <==> Granted(steps) < len && HasError(steps)
  {
    hide RawWalk, Readable, Granted;
    var bytesWritten := 0;
    var buffer := VirtToPhys(mem, buf);
    out := [];
    var k := 0;
    assert steps[0..] == steps;
    while bytesWritten != len
      invariant 0 <= bytesWritten == |out| <= len && 0 <= k <= |steps|
      invariant out == mem[..][buffer..buffer + bytesWritten]
      invariant forall j :: 0 <= j < k ==> steps[j] >= 0
      invariant if bytesWritten < len then bytesWritten + Granted(steps[k..]) == Granted(steps)
                else len <= Granted(steps)
      decreases |steps| - k
    {
      GrantedNext(steps, k);
      if k == |steps| {
        return Blocked, out;
      }
      var step := if steps[k] <= len - bytesWritten then steps[k] else len - bytesWritten;
      if step >= 0 {
        out := out + mem[buffer + bytesWritten..buffer + bytesWritten + step];
        bytesWritten := bytesWritten + step;
      } else {
        return OsError, out;
      }
      k := k + 1;
    }
    return Done, out;
  }

  lemma GrantedNext(steps: seq<int>, k: nat)
    requires k <= |steps|
    ensures Granted(steps[k..]) ==
      if k == |steps| || steps[k] < 0 then 0 else steps[k] + Granted(steps[k + 1..])
  {
    if k < |steps| { assert steps[k..][1..] == steps[k + 1..]; }
  }

  function Total(answers: seq<nat>): nat
  {
    if answers == [] then 0 else Total(answers[..|answers| - 1]) + answers[|answers| - 1]
  }

  /** Answers behind the first error are never asked for: they do not count, and the call knows of the error. */
  lemma AnswersUpToError(good: seq<nat>, rest: seq<int>)
    requires rest != [] ==> rest[0] < 0
    ensures Granted(good + rest) == Total(good)
    ensures HasError(good + rest) <==> rest != []
  {
    hide Granted, Total;
    assert rest != [] ==> (good + rest)[|good|] < 0;
    GrantedSum(good, rest);
  }

  lemma {:induction false} GrantedSum(good: seq<nat>, rest: seq<int>)
    requires rest != [] ==> rest[0] < 0
    ensures Granted(good + rest) == Total(good)
    decreases |good|
  {
    if good == [] {
      assert [] + rest == rest;
    } else {
      assert (good + rest)[1..] == good[1..] + rest;
      GrantedSum(good[1..], rest);
      TotalFirst(good);
    }
  }

  lemma {:induction false} TotalFirst(answers: seq<nat>)
    requires answers != []
    ensures Total(answers) == answers[0] + Total(answers[1..])
  {
    var n := |answers| - 1;
    if n > 0 {
      TotalFirst(answers[..n]);
      assert answers[..n][1..] == answers[1..][..n - 1];
    } else {
      assert answers[..0] == [] && answers[1..] == [];
    }
  }

  /** On a contiguous buffer the bytes handed to the operating system are those the program sees, in order. */
  lemma WriteSendsVirtualBytes(m: seq<byte>, buf: u64, len: nat, phys: nat, out: seq<byte>)
    requires Contiguous(m, buf, len, phys) && |out| <= len && len > 0
    requires Readable(m, buf, BOOT_PML4, 3) && RawWalk(m, buf, BOOT_PML4, 3) + len <= |m|
    requires var p := RawWalk(m, buf, BOOT_PML4, 3); out == m[p..p + |out|]
    ensures forall d :: 0 <= d < |out| ==> Accessible(m, buf, d) && out[d] == VirtualByte(m, buf, d)
  {
    hide Readable, RawWalk, SdmWalk;
    assert TranslatesAt(m, buf, phys, 0);
    forall d | 0 <= d < |out| ensures Accessible(m, buf, d) && out[d] == VirtualByte(m, buf, d) {
      ContiguousByte(m, buf, len, phys, d);
    }
  }
}
