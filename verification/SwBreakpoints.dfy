/** Software breakpoints (src/linux/gdb/breakpoints.rs): save the code bytes, patch them with
    the breakpoint opcode, and put the saved bytes back on removal.
 */
module SwBreakpoints {
  import opened Bits
  import opened GuestMemory
  import opened Consts
  import opened Walker
  import opened AddressSpace

  /** `kind` is the number of bytes that are patched. */
  datatype SwBreakpoint = SwBreakpoint(addr: u64, kind: nat) {
    predicate Covers(i: nat) { addr <= i < addr + kind }
  }

  const OPCODE: byte := 0xcc

  function Patch(n: nat): (s: seq<byte>)
    ensures |s| == n && forall i :: 0 <= i < n ==> s[i] == OPCODE
  {
    seq(n, _ => OPCODE)
  }

  /** Guest memory and the saved bytes of every active breakpoint. */
  datatype State = State(mem: seq<byte>, saved: map<SwBreakpoint, seq<byte>>)

  function Added(st: State, bp: SwBreakpoint, phys: nat): State
    requires phys + bp.kind <= |st.mem|
  {
    if bp in st.saved then st
    else State(Store(st.mem, Write(phys, Patch(bp.kind))), st.saved[bp := st.mem[phys..phys + bp.kind]])
  }

  function Removed(st: State, bp: SwBreakpoint, phys: nat): State
    requires bp in st.saved ==> phys + |st.saved[bp]| <= |st.mem|
  {
    if bp !in st.saved then st
    else State(Store(st.mem, Write(phys, st.saved[bp])), st.saved - {bp})
  }

  /** A new breakpoint replaces exactly its range by 0xCC and keeps what was there; a removed one puts that back. */
  lemma PatchAndRestore(st: State, bp: SwBreakpoint, phys: nat)
    requires phys + bp.kind <= |st.mem|
    ensures bp !in st.saved ==>
      var e := Added(st, bp, phys);
      && |e.mem| == |st.mem| && e.saved == st.saved[bp := st.mem[phys..phys + bp.kind]]
      && forall i :: 0 <= i < |st.mem| ==> e.mem[i] == if phys <= i < phys + bp.kind then 0xCC else st.mem[i]
    ensures bp !in st.saved ==> Removed(Added(st, bp, phys), bp, phys) == st
  {
    hide Store;
    if bp !in st.saved {
      var e := Added(st, bp, phys);
      var back := Removed(e, bp, phys);
      assert forall i :: 0 <= i < |st.mem| ==> back.mem[i] == st.mem[i];
      assert back.saved == st.saved;
    }
  }

  class GdbUhyve {
    const mem: array<byte>
    var swBreakpoints: map<SwBreakpoint, seq<byte>>

    constructor (mem: array<byte>)
      ensures this.mem == mem && swBreakpoints == map[]
    {
      this.mem := mem;
      swBreakpoints := map[];
    }

    ghost function Abstract(): State
      reads this, mem
    {
      State(mem[..], swBreakpoints)
    }

    /** The patched range translates, and lies in guest memory. */
    ghost predicate Reachable(bp: SwBreakpoint)
      reads mem
    {
      Readable(mem[..], bp.addr, BOOT_PML4, 3) && RawWalk(mem[..], bp.addr, BOOT_PML4, 3) + bp.kind <= mem.Length
    }

    method AddSwBreakpoint(addr: u64, kind: nat) returns (ok: bool)
      requires Reachable(SwBreakpoint(addr, kind))
      modifies this, mem
      ensures ok <==> SwBreakpoint(addr, kind) !in old(swBreakpoints)
      ensures Abstract() == Added(old(Abstract()), SwBreakpoint(addr, kind), old(RawWalk(mem[..], addr, BOOT_PML4, 3)))
    {
      hide RawWalk, Readable, Store;
      var bp := SwBreakpoint(addr, kind);
      if bp !in swBreakpoints {
        var phys := VirtToPhys(mem, addr);
        swBreakpoints := swBreakpoints[bp := mem[phys..phys + kind]];
        StoreBytes(mem, Write(phys, Patch(kind)));
        return true;
      } else {
        return false;
      }
    }

    method RemoveSwBreakpoint(addr: u64, kind: nat) returns (ok: bool)
      requires Reachable(SwBreakpoint(addr, kind))
      requires SwBreakpoint(addr, kind) in swBreakpoints ==> |swBreakpoints[SwBreakpoint(addr, kind)]| == kind
      modifies this, mem
      ensures ok <==> SwBreakpoint(addr, kind) in old(swBreakpoints)
      ensures Abstract() ==
        Removed(old(Abstract()), SwBreakpoint(addr, kind), old(RawWalk(mem[..], addr, BOOT_PML4, 3)))
    {
      hide RawWalk, Readable, Store;
      var bp := SwBreakpoint(addr, kind);
      if bp in swBreakpoints {
        var phys := VirtToPhys(mem, addr);
        StoreBytes(mem, Write(phys, swBreakpoints[bp]));
        swBreakpoints := swBreakpoints - {bp};
        return true;
      } else {
        return false;
      }
    }
  }

  // ----- runs in the identity-mapped range -----

  /** A range in the first GiB and in memory that stays off the page tables. */
  predicate Usable(bp: SwBreakpoint, memSize: nat)
  {
    && bp.addr + bp.kind <= memSize && bp.addr < 0x4000_0000
    && (bp.addr + bp.kind <= BOOT_PML4 || BOOT_TABLES_END <= bp.addr)
  }

  datatype Op = Add(bp: SwBreakpoint) | Remove(bp: SwBreakpoint)

  function Step(st: State, op: Op): State
    requires op.bp.addr + op.bp.kind <= |st.mem|
    requires op.bp in st.saved ==> |st.saved[op.bp]| == op.bp.kind
  {
    match op
    case Add(bp) => Added(st, bp, bp.addr)
    case Remove(bp) => Removed(st, bp, bp.addr)
  }

  /** On identity-mapped tables the class performs exactly `Step`, and the tables stay as they are. */
  lemma StepIsIdentityMapped(st: State, op: Op)
    requires Mapped(st.mem) && Usable(op.bp, |st.mem|)
    requires op.bp in st.saved ==> |st.saved[op.bp]| == op.bp.kind
    ensures Translates(st.mem, op.bp.addr, op.bp.addr)
    ensures Mapped(Step(st, op).mem)
  {
    hide Mapped, Translates, Store;
    IdentityMapped(st.mem, op.bp.addr);
    if op.Add? && op.bp !in st.saved {
      StoreKeepsMapping(st.mem, Write(op.bp.addr, Patch(op.bp.kind)));
    }
    if op.Remove? && op.bp in st.saved {
      StoreKeepsMapping(st.mem, Write(op.bp.addr, st.saved[op.bp]));
    }
  }

  lemma StoreKeepsMapping(m: seq<byte>, w: Write)
    requires Mapped(m) && w.End() <= |m| && (w.End() <= BOOT_PML4 || BOOT_TABLES_END <= w.addr)
    ensures Mapped(Store(m, w))
  {
    hide Mapped, Store;
    assert AllFit([w], |m|) && Apply(m, [w]) == Store(m, w) by {
      assert [w][..0] == [];
      assert Apply(m, []) == m;
    }
    WritesKeepMapping(m, [w]);
  }

  // ----- active breakpoints, in the order in which they were added -----

  ghost predicate Covered(order: seq<SwBreakpoint>, i: nat)
  {
    exists k :: 0 <= k < |order| && order[k].Covers(i)
  }

  /** The original code with the opcode on every active range. */
  ghost function Overlay(orig: seq<byte>, order: seq<SwBreakpoint>, i: nat): byte
    requires i < |orig|
  {
    if Covered(order, i) then OPCODE else orig[i]
  }

  ghost predicate Distinct(order: seq<SwBreakpoint>)
  {
    forall j, k :: 0 <= j < k < |order| ==> order[j] != order[k]
  }

  /** The bytes saved for the k-th active breakpoint are what memory held when it was added. */
  ghost predicate SavedAt(orig: seq<byte>, st: State, order: seq<SwBreakpoint>, k: nat)
    requires k < |order|
  {
    var bp := order[k];
    && bp.addr + bp.kind <= |orig|
    && bp in st.saved && |st.saved[bp]| == bp.kind
    && forall i :: bp.addr <= i < bp.addr + bp.kind ==> st.saved[bp][i - bp.addr] == Overlay(orig, order[..k], i)
  }

  /** Memory is the original with the active ranges patched, and every saved range is as it was found. */
  ghost predicate Tracks(orig: seq<byte>, st: State, order: seq<SwBreakpoint>)
  {
    && Distinct(order)
    && st.saved.Keys == (set k | 0 <= k < |order| :: order[k])
    && |st.mem| == |orig|
    && (forall i :: 0 <= i < |orig| ==> st.mem[i] == Overlay(orig, order, i))
    && (forall k :: 0 <= k < |order| ==> SavedAt(orig, st, order, k))
  }

  lemma CoveredPlus(order: seq<SwBreakpoint>, bp: SwBreakpoint, i: nat)
    ensures Covered(order + [bp], i) <==> Covered(order, i) || bp.Covers(i)
  {
    var plus := order + [bp];
    if Covered(order, i) {
      var k :| 0 <= k < |order| && order[k].Covers(i);
      assert plus[k].Covers(i);
    }
    if bp.Covers(i) { assert plus[|order|].Covers(i); }
  }

  lemma AddTracks(orig: seq<byte>, st: State, order: seq<SwBreakpoint>, bp: SwBreakpoint)
    requires Tracks(orig, st, order) && bp !in st.saved && bp.addr + bp.kind <= |orig|
    ensures Tracks(orig, Added(st, bp, bp.addr), order + [bp])
  {
    hide Covered, Tracks, SavedAt;
    TracksSize(orig, st, order);
    var after, plus := Added(st, bp, bp.addr), order + [bp];
    forall i | 0 <= i < |orig| ensures after.mem[i] == Overlay(orig, plus, i) {
      TracksByte(orig, st, order, i);
      CoveredPlus(order, bp, i);
    }
    forall k | 0 <= k < |plus| ensures SavedAt(orig, after, plus, k) { AddSaved(orig, st, order, bp, k); }
    AddKeys(orig, st, order, bp);
    TracksFrom(orig, after, plus);
  }

  lemma AddSaved(orig: seq<byte>, st: State, order: seq<SwBreakpoint>, bp: SwBreakpoint, k: nat)
    requires Tracks(orig, st, order) && bp !in st.saved && bp.addr + bp.kind <= |orig| && k <= |order|
    ensures |st.mem| == |orig| && SavedAt(orig, Added(st, bp, bp.addr), order + [bp], k)
  {
    hide Covered, Store;
    var plus := order + [bp];
    if k < |order| {
      assert SavedAt(orig, st, order, k) && plus[k] == order[k] && plus[..k] == order[..k];
    } else {
      assert plus[..k] == order;
    }
  }

  lemma AddKeys(orig: seq<byte>, st: State, order: seq<SwBreakpoint>, bp: SwBreakpoint)
    requires Tracks(orig, st, order) && bp !in st.saved && bp.addr + bp.kind <= |st.mem|
    ensures Distinct(order + [bp])
    ensures var plus := order + [bp];
      Added(st, bp, bp.addr).saved.Keys == (set k | 0 <= k < |plus| :: plus[k])
  {
    hide SavedAt, Store, Covered;
    var plus, after := order + [bp], Added(st, bp, bp.addr);
    forall x | x in after.saved ensures x in (set k | 0 <= k < |plus| :: plus[k]) {
      if x == bp {
        assert plus[|order|] == x;
      } else {
        var k :| 0 <= k < |order| && order[k] == x;
        assert plus[k] == x;
      }
    }
    forall k | 0 <= k < |plus| ensures plus[k] in after.saved {
      assert k < |order| ==> plus[k] == order[k];
    }
  }

  function Without(order: seq<SwBreakpoint>, p: nat): seq<SwBreakpoint>
    requires p < |order|
  {
    order[..p] + order[p + 1..]
  }

  /** Every byte of the p-th breakpoint that a later one also covers is covered by an earlier one too
      (or holds the opcode anyway). */
  ghost predicate Removable(orig: seq<byte>, order: seq<SwBreakpoint>, p: nat)
    requires p < |order|
  {
    forall i :: 0 <= i < |orig| && order[p].Covers(i) && Covered(order[p + 1..], i) ==>
      Covered(order[..p], i) || orig[i] == OPCODE
  }

  lemma CoveredConcat(us: seq<SwBreakpoint>, ws: seq<SwBreakpoint>, i: nat)
    ensures Covered(us + ws, i) <==> Covered(us, i) || Covered(ws, i)
  {
    if Covered(us, i) {
      var k :| 0 <= k < |us| && us[k].Covers(i);
      assert (us + ws)[k].Covers(i);
    }
    if Covered(ws, i) {
      var k :| 0 <= k < |ws| && ws[k].Covers(i);
      assert (us + ws)[|us| + k].Covers(i);
    }
  }

  lemma CoveredSplit(order: seq<SwBreakpoint>, p: nat, i: nat)
    requires p < |order|
    ensures Covered(order, i) <==> Covered(order[..p], i) || order[p].Covers(i) || Covered(order[p + 1..], i)
    ensures Covered(Without(order, p), i) <==> Covered(order[..p], i) || Covered(order[p + 1..], i)
  {
    hide Covered;
    assert order == (order[..p] + [order[p]]) + order[p + 1..];
    CoveredConcat(order[..p] + [order[p]], order[p + 1..], i);
    CoveredPlus(order[..p], order[p], i);
    CoveredConcat(order[..p], order[p + 1..], i);
  }

  /** The byte that removing the p-th breakpoint leaves at `i`. */
  lemma RemovedByte(orig: seq<byte>, st: State, order: seq<SwBreakpoint>, p: nat, i: nat)
    requires Tracks(orig, st, order) && p < |order| && i < |orig|
    ensures order[p] in st.saved && |st.saved[order[p]]| == order[p].kind && order[p].addr + order[p].kind <= |st.mem|
    ensures Removed(st, order[p], order[p].addr).mem[i] ==
      if order[p].Covers(i) then Overlay(orig, order[..p], i) else Overlay(orig, Without(order, p), i)
  {
    hide Covered;
    assert SavedAt(orig, st, order, p);
    CoveredSplit(order, p, i);
  }

  lemma RemoveSaved(orig: seq<byte>, st: State, order: seq<SwBreakpoint>, p: nat, k: nat)
    requires Tracks(orig, st, order) && p < |order| && Removable(orig, order, p) && k < |order| - 1
    ensures order[p] in st.saved && order[p].addr + |st.saved[order[p]]| <= |st.mem|
    ensures SavedAt(orig, Removed(st, order[p], order[p].addr), Without(order, p), k)
  {
    hide Covered;
    assert SavedAt(orig, st, order, p);
    var rest, after := Without(order, p), Removed(st, order[p], order[p].addr);
    if k < p {
      assert SavedAt(orig, st, order, k) && rest[k] == order[k] && rest[..k] == order[..k];
    } else {
      var bp := order[k + 1];
      assert SavedAt(orig, st, order, k + 1) && rest[k] == bp;
      var before := order[..k + 1];
      assert rest[..k] == Without(before, p);
      forall i | bp.addr <= i < bp.addr + bp.kind
        ensures Overlay(orig, before, i) == Overlay(orig, rest[..k], i)
      {
        CoveredSplit(before, p, i);
        assert before[..p] == order[..p] && before[p] == order[p];
        assert order[p + 1..][k - p] == bp;
        CoveredBy(order[p + 1..], k - p, i);
      }
    }
  }

  lemma CoveredBy(order: seq<SwBreakpoint>, k: nat, i: nat)
    requires k < |order| && order[k].Covers(i)
    ensures Covered(order, i)
  {
  }

  /** Removing the p-th breakpoint keeps memory and saved bytes exact if and only if it is removable. */
  lemma RemoveTracksIff(orig: seq<byte>, st: State, order: seq<SwBreakpoint>, p: nat)
    requires Tracks(orig, st, order) && p < |order|
    ensures order[p] in st.saved && order[p].addr + |st.saved[order[p]]| <= |st.mem|
    ensures Tracks(orig, Removed(st, order[p], order[p].addr), Without(order, p)) <==> Removable(orig, order, p)
  {
    hide Covered, Tracks, SavedAt;
    TracksAt(orig, st, order, p);
    var rest, after := Without(order, p), Removed(st, order[p], order[p].addr);
    if Removable(orig, order, p) {
      forall i | 0 <= i < |orig| ensures after.mem[i] == Overlay(orig, rest, i) {
        RemovedByte(orig, st, order, p, i);
        CoveredSplit(order, p, i);
      }
      forall k | 0 <= k < |rest| ensures SavedAt(orig, after, rest, k) { RemoveSaved(orig, st, order, p, k); }
      RemoveKeys(orig, st, order, p);
      TracksFrom(orig, after, rest);
    } else {
      var i :| 0 <= i < |orig| && order[p].Covers(i) && Covered(order[p + 1..], i)
        && !Covered(order[..p], i) && orig[i] != OPCODE;
      RemovedByte(orig, st, order, p, i);
      CoveredSplit(order, p, i);
      assert after.mem[i] != Overlay(orig, rest, i);
      if Tracks(orig, after, rest) { TracksByte(orig, after, rest, i); }
    }
  }

  lemma TracksAt(orig: seq<byte>, st: State, order: seq<SwBreakpoint>, p: nat)
    requires Tracks(orig, st, order) && p < |order|
    ensures |st.mem| == |orig| && order[p] in st.saved && |st.saved[order[p]]| == order[p].kind
    ensures order[p].addr + order[p].kind <= |orig|
  {
    assert SavedAt(orig, st, order, p);
  }

  lemma TracksByte(orig: seq<byte>, st: State, order: seq<SwBreakpoint>, i: nat)
    requires Tracks(orig, st, order) && i < |orig|
    ensures |st.mem| == |orig| && st.mem[i] == Overlay(orig, order, i)
  {
  }

  lemma TracksFrom(orig: seq<byte>, st: State, order: seq<SwBreakpoint>)
    requires Distinct(order) && st.saved.Keys == (set k | 0 <= k < |order| :: order[k]) && |st.mem| == |orig|
    requires forall i :: 0 <= i < |orig| ==> st.mem[i] == Overlay(orig, order, i)
    requires forall k :: 0 <= k < |order| ==> SavedAt(orig, st, order, k)
    ensures Tracks(orig, st, order)
  {
  }

  lemma RemoveKeys(orig: seq<byte>, st: State, order: seq<SwBreakpoint>, p: nat)
    requires Tracks(orig, st, order) && p < |order|
    ensures order[p] in st.saved && order[p].addr + |st.saved[order[p]]| <= |st.mem|
    ensures Distinct(Without(order, p))
    ensures var rest := Without(order, p);
      Removed(st, order[p], order[p].addr).saved.Keys == (set k | 0 <= k < |rest| :: rest[k])
  {
    hide SavedAt;
    TracksAt(orig, st, order, p);
    var rest, after := Without(order, p), Removed(st, order[p], order[p].addr);
    forall x | x in after.saved ensures x in (set k | 0 <= k < |rest| :: rest[k]) {
      var k :| 0 <= k < |order| && order[k] == x;
      if k < p { assert rest[k] == x; } else { assert rest[k - 1] == x; }
    }
    forall k | 0 <= k < |rest| ensures rest[k] in after.saved {
      assert rest[k] == order[if k < p then k else k + 1];
    }
  }

  // ----- whole runs -----

  function Position(order: seq<SwBreakpoint>, bp: SwBreakpoint): (p: nat)
    requires bp in order
    ensures p < |order| && order[p] == bp
  {
    if order[0] == bp then 0 else 1 + Position(order[1..], bp)
  }

  function NextOrder(order: seq<SwBreakpoint>, op: Op): seq<SwBreakpoint>
  {
    match op
    case Add(bp) => if bp in order then order else order + [bp]
    case Remove(bp) => if bp in order then Without(order, Position(order, bp)) else order
  }

  /** Every removal of the run happens while the breakpoint is removable. */
  ghost predicate SafeRun(orig: seq<byte>, order: seq<SwBreakpoint>, ops: seq<Op>)
    decreases |ops|
  {
    ops == [] ||
    (&& Usable(ops[0].bp, |orig|)
     && (ops[0].Remove? && ops[0].bp in order ==> Removable(orig, order, Position(order, ops[0].bp)))
     && SafeRun(orig, NextOrder(order, ops[0]), ops[1..]))
  }

  ghost predicate Ready(orig: seq<byte>, st: State, order: seq<SwBreakpoint>)
  {
    Tracks(orig, st, order) && Mapped(st.mem)
  }

  lemma KeysAreOrder(orig: seq<byte>, st: State, order: seq<SwBreakpoint>, bp: SwBreakpoint)
    requires Tracks(orig, st, order)
    ensures bp in st.saved <==> bp in order
    ensures bp in st.saved ==> |st.saved[bp]| == bp.kind
  {
    if bp in order {
      var k :| 0 <= k < |order| && order[k] == bp;
      assert SavedAt(orig, st, order, k);
    }
  }

  lemma StepTracks(orig: seq<byte>, st: State, order: seq<SwBreakpoint>, op: Op)
    requires Ready(orig, st, order) && Usable(op.bp, |orig|)
    requires op.Remove? && op.bp in order ==> Removable(orig, order, Position(order, op.bp))
    ensures |st.mem| == |orig| && (op.bp in st.saved ==> |st.saved[op.bp]| == op.bp.kind)
    ensures Ready(orig, Step(st, op), NextOrder(order, op))
  {
    hide Tracks, Mapped, Removable, Store;
    KeysAreOrder(orig, st, order, op.bp);
    TracksSize(orig, st, order);
    StepIsIdentityMapped(st, op);
    match op {
      case Add(bp) => if bp !in order { AddTracks(orig, st, order, bp); }
      case Remove(bp) => if bp in order { RemoveTracksIff(orig, st, order, Position(order, bp)); }
    }
  }

  lemma TracksSize(orig: seq<byte>, st: State, order: seq<SwBreakpoint>)
    requires Tracks(orig, st, order)
    ensures |st.mem| == |orig|
  {
  }

  /** The state after a run, with the order of the breakpoints that are still active. */
  ghost function Run(orig: seq<byte>, st: State, order: seq<SwBreakpoint>, ops: seq<Op>)
    : (r: (State, seq<SwBreakpoint>))
    requires Ready(orig, st, order) && SafeRun(orig, order, ops)
    ensures Ready(orig, r.0, r.1)
    decreases |ops|
  {
    if ops == [] then (st, order)
    else
      StepTracks(orig, st, order, ops[0]);
      Run(orig, Step(st, ops[0]), NextOrder(order, ops[0]), ops[1..])
  }

  /** Once a safe run has removed every breakpoint, guest memory is what it was. */
  lemma AllRemovedRestores(orig: seq<byte>, ops: seq<Op>)
    requires Mapped(orig) && SafeRun(orig, [], ops)
    ensures Ready(orig, State(orig, map[]), [])
    ensures var r := Run(orig, State(orig, map[]), [], ops).0; r.saved == map[] ==> r.mem == orig
  {
    hide Mapped, SafeRun;
    var st := State(orig, map[]);
    assert Tracks(orig, st, []) by { assert forall i :: !Covered([], i); }
    var r := Run(orig, st, [], ops);
    if r.0.saved == map[] {
      assert r.1 == [] by {
        if r.1 != [] { KeysAreOrder(orig, r.0, r.1, r.1[0]); }
      }
      assert forall i :: !Covered([], i);
    }
  }

  // ----- which runs keep the overlay -----

  /** Memory is the original with the opcode on every active range. */
  ghost predicate MemoryIs(orig: seq<byte>, st: State, order: seq<SwBreakpoint>)
  {
    |st.mem| == |orig| && forall i :: 0 <= i < |orig| ==> st.mem[i] == Overlay(orig, order, i)
  }

  /** Saved ranges have the length of their breakpoint; this much survives any run. */
  ghost predicate Sized(st: State, memSize: nat)
  {
    |st.mem| == memSize && forall bp :: bp in st.saved ==> |st.saved[bp]| == bp.kind
  }

  ghost predicate AllUsable(ops: seq<Op>, memSize: nat) { forall k :: 0 <= k < |ops| ==> Usable(ops[k].bp, memSize) }

  /** Memory is the overlay of the active breakpoints in every state of the run. */
  ghost predicate OverlayThroughout(orig: seq<byte>, st: State, order: seq<SwBreakpoint>, ops: seq<Op>)
    requires Sized(st, |orig|) && AllUsable(ops, |orig|)
    decreases |ops|
  {
    MemoryIs(orig, st, order) &&
    (ops == [] || (StepSized(st, ops[0], |orig|);
                   OverlayThroughout(orig, Step(st, ops[0]), NextOrder(order, ops[0]), ops[1..])))
  }

  lemma StepSized(st: State, op: Op, memSize: nat)
    requires Sized(st, memSize) && Usable(op.bp, memSize)
    ensures Sized(Step(st, op), memSize)
  {
    hide Store;
  }

  lemma TracksSized(orig: seq<byte>, st: State, order: seq<SwBreakpoint>)
    requires Tracks(orig, st, order)
    ensures Sized(st, |orig|) && MemoryIs(orig, st, order)
  {
    forall bp | bp in st.saved ensures |st.saved[bp]| == bp.kind { KeysAreOrder(orig, st, order, bp); }
  }

  /** A removal that is not safe is visible in memory at once. */
  lemma UnsafeRemovalShows(orig: seq<byte>, st: State, order: seq<SwBreakpoint>, p: nat)
    requires Tracks(orig, st, order) && p < |order| && !Removable(orig, order, p)
    ensures order[p] in st.saved && order[p].addr + |st.saved[order[p]]| <= |st.mem|
    ensures !MemoryIs(orig, Removed(st, order[p], order[p].addr), Without(order, p))
  {
    hide Covered, Tracks;
    TracksAt(orig, st, order, p);
    var i :| 0 <= i < |orig| && order[p].Covers(i) && Covered(order[p + 1..], i)
      && !Covered(order[..p], i) && orig[i] != OPCODE;
    RemovedByte(orig, st, order, p, i);
    CoveredSplit(order, p, i);
  }

  /** Memory is the overlay in every state of a run if and only if every removal of the run is safe. */
  lemma {:induction false} OverlayIffSafe(orig: seq<byte>, st: State, order: seq<SwBreakpoint>, ops: seq<Op>)
    requires Ready(orig, st, order) && AllUsable(ops, |orig|)
    ensures Sized(st, |orig|)
    ensures OverlayThroughout(orig, st, order, ops) <==> SafeRun(orig, order, ops)
    decreases |ops|
  {
    hide Tracks, Mapped, Removable, MemoryIs, Sized, Step, NextOrder;
    TracksSized(orig, st, order);
    if ops != [] {
      var op := ops[0];
      StepSized(st, op, |orig|);
      if op.Remove? && op.bp in order && !Removable(orig, order, Position(order, op.bp)) {
        UnsafeStep(orig, st, order, op);
        var next := Step(st, op);
        assert !OverlayThroughout(orig, next, NextOrder(order, op), ops[1..]);
      } else {
        StepTracks(orig, st, order, op);
        OverlayIffSafe(orig, Step(st, op), NextOrder(order, op), ops[1..]);
      }
    }
  }

  lemma UnsafeStep(orig: seq<byte>, st: State, order: seq<SwBreakpoint>, op: Op)
    requires Ready(orig, st, order) && Usable(op.bp, |orig|) && op.Remove? && op.bp in order
    requires !Removable(orig, order, Position(order, op.bp))
    ensures |st.mem| == |orig| && (op.bp in st.saved ==> |st.saved[op.bp]| == op.bp.kind)
    ensures !MemoryIs(orig, Step(st, op), NextOrder(order, op))
  {
    hide Tracks, Mapped, Removable, MemoryIs, Store;
    KeysAreOrder(orig, st, order, op.bp);
    TracksSize(orig, st, order);
    UnsafeRemovalShows(orig, st, order, Position(order, op.bp));
  }

  /** Breakpoints of the run that share no byte. */
  ghost predicate Disjoint(a: SwBreakpoint, b: SwBreakpoint) { forall i: nat :: !(a.Covers(i) && b.Covers(i)) }

  ghost predicate PairwiseDisjoint(bps: set<SwBreakpoint>)
  {
    forall a, b :: a in bps && b in bps && a != b ==> Disjoint(a, b)
  }

  /** Disjoint breakpoints may be removed in any order. */
  lemma {:induction false} DisjointRunsAreSafe(
    orig: seq<byte>, order: seq<SwBreakpoint>, ops: seq<Op>, bps: set<SwBreakpoint>)
    requires PairwiseDisjoint(bps) && Distinct(order) && forall k :: 0 <= k < |order| ==> order[k] in bps
    requires forall k :: 0 <= k < |ops| ==> ops[k].bp in bps && Usable(ops[k].bp, |orig|)
    ensures SafeRun(orig, order, ops)
    decreases |ops|
  {
    if ops != [] {
      var op := ops[0];
      if op.Remove? && op.bp in order {
        var p := Position(order, op.bp);
        var later := order[p + 1..];
        forall i, k | 0 <= i < |orig| && order[p].Covers(i) && 0 <= k < |later| ensures !later[k].Covers(i) {
          assert Disjoint(order[p], order[p + 1 + k]);
        }
      }
      var next := NextOrder(order, op);
      forall k | 0 <= k < |next| ensures next[k] in bps { }
      DisjointRunsAreSafe(orig, next, ops[1..], bps);
    }
  }

  /** Each removal takes the breakpoint that was added last. */
  ghost predicate LastInFirstOut(order: seq<SwBreakpoint>, ops: seq<Op>)
    decreases |ops|
  {
    ops == [] ||
    (&& (ops[0].Remove? && ops[0].bp in order ==> Position(order, ops[0].bp) == |order| - 1)
     && LastInFirstOut(NextOrder(order, ops[0]), ops[1..]))
  }

  /** Overlapping breakpoints are restored when they are removed last in, first out. */
  lemma {:induction false} LifoRunsAreSafe(orig: seq<byte>, order: seq<SwBreakpoint>, ops: seq<Op>)
    requires LastInFirstOut(order, ops)
    requires forall k :: 0 <= k < |ops| ==> Usable(ops[k].bp, |orig|)
    ensures SafeRun(orig, order, ops)
    decreases |ops|
  {
    if ops != [] {
      if ops[0].Remove? && ops[0].bp in order {
        assert order[|order|..] == [];
      }
      LifoRunsAreSafe(orig, NextOrder(order, ops[0]), ops[1..]);
    }
  }

  /** Removed first in, first out, overlapping breakpoints leave the opcode behind: two breakpoints that share
      address `a + 1`. */
  lemma OverlapLeavesOpcode(orig: seq<byte>, a: u64)
    requires a + 3 <= |orig| && a + 3 < TWO64 && orig[a + 1] != OPCODE
    ensures var first, second := SwBreakpoint(a, 2), SwBreakpoint(a + 1, 2);
      var s2 := Added(Added(State(orig, map[]), first, a), second, a + 1);
      var s4 := Removed(Removed(s2, first, a), second, a + 1);
      s4.saved == map[] && s4.mem[a + 1] == OPCODE
  {
    var first, second := SwBreakpoint(a, 2), SwBreakpoint(a + 1, 2);
    var s1 := Added(State(orig, map[]), first, a);
    var s2 := Added(s1, second, a + 1);
    assert s2.saved[first] == orig[a..a + 2] && s2.saved[second][0] == OPCODE;
    var s3 := Removed(s2, first, a);
    assert s3.saved[second] == s2.saved[second];
    var s4 := Removed(s3, second, a + 1);
    assert s4.saved.Keys == {};
  }
}
