/** From a request of the debugger to the debug registers, and from a debug exception back to its report
    (src/arch/x86_64/registers/debug.rs; section 17.2.4 of Intel SDM Vol. 3B for the bits).
 */
module HwReports {
  import opened Bits
  import opened Options
  import opened HwBreakpoints

  /** LEN as the processor encodes a length of 1, 2, 4 or 8 bytes. */
  function LenBits(len: nat): nat
  {
    if len == 1 then 0 else if len == 2 then 1 else if len == 4 then 3 else 2
  }

  /** Slot `n` is the first free one. */
  ghost predicate FirstFree(s: Slots, n: nat)
  {
    n < 4 && s[n].None? && forall j :: 0 <= j < n ==> s[j].Some?
  }

  /** The registers watch address `a` in slot `n`: global enable set, R/W and LEN as given. */
  predicate Watches(regs: seq<nat>, n: nat, a: nat, rw: nat, len: nat)
  {
    && |regs| == 8 && n < 4 && regs[n] == a
    && regs[7] / Pow2(2 * n + 1) % 2 == 1
    && regs[7] / Pow2(16 + 4 * n) % 4 == rw && regs[7] / Pow2(18 + 4 * n) % 4 == LenBits(len)
  }

  /** A debug exception that is no step, and whose lowest trap is `n`. */
  ghost predicate TrapsFirst(dr6: nat, n: nat)
  {
    !Bit(dr6, 14) && Bit(dr6, n) && forall j :: 0 <= j < n ==> !Bit(dr6, j)
  }

  lemma InsertedFirst(s: Slots, n: nat, bp: HwBreakpoint)
    requires FirstFree(s, n)
    ensures Inserted(s, bp) == s[n := Some(bp)]
  {
    var k := Find(s, None);
    assert k == n;
  }

  /** What is in a slot is what the registers say of it, in the processor's bits. */
  lemma SlotIsProgrammed(s: Slots, n: nat, bp: HwBreakpoint, rw: nat, len: nat)
    requires n < 4 && s[n] == Some(bp) && SizeFrom(len) == Some(bp.size)
    requires DecodeCondition(rw) == bp.condition && rw < 4
    ensures Watches(RegisterImage(s), n, bp.addr, rw, len)
  {
    hide Pow2, ControlImage;
    RegistersDecode(s, n);
  }

  lemma TrapReports(s: Slots, n: nat, bp: HwBreakpoint, dr6: nat)
    requires n < 4 && s[n] == Some(bp) && TrapsFirst(dr6, n)
    ensures Stop(s, dr6) == Reason(bp)
  {
    hide Bit;
    LowestTrapIs(dr6, n);
  }

  /** A watchpoint request for 1, 2, 4 or 8 bytes takes the first free slot; the registers then watch its address for
      writes (R/W 01) or for reads and writes (R/W 11), and a trap on it is reported with its kind and address. */
  lemma WatchpointRoundTrip(s: Slots, n: nat, a: u64, len: u64, kind: WatchKind)
    requires FirstFree(s, n) && len in {1, 2, 4, 8} && kind != WatchKind.Read
    ensures NewWatchpoint(a, len, kind).Some?
    ensures var t := Inserted(s, NewWatchpoint(a, len, kind).value);
      && (forall j :: 0 <= j < 4 && j != n ==> t[j] == s[j])
      && Watches(RegisterImage(t), n, a, if kind == WatchKind.Write then 1 else 3, len)
      && forall dr6 :: TrapsFirst(dr6, n) ==> Stop(t, dr6) == Watch(kind, a)
  {
    hide Stop, RegisterImage, Watches, TrapsFirst;
    var bp := NewWatchpoint(a, len, kind).value;
    InsertedFirst(s, n, bp);
    var t := Inserted(s, bp);
    SlotIsProgrammed(t, n, bp, if kind == WatchKind.Write then 1 else 3, len);
    forall dr6 | TrapsFirst(dr6, n) ensures Stop(t, dr6) == Watch(kind, a) { TrapReports(t, n, bp, dr6); }
  }

  /** A breakpoint request likewise, for instruction execution (R/W 00). */
  lemma BreakpointRoundTrip(s: Slots, n: nat, a: u64, len: nat)
    requires FirstFree(s, n) && len in {1, 2, 4, 8}
    ensures NewBreakpoint(a, len).Some?
    ensures var t := Inserted(s, NewBreakpoint(a, len).value);
      && (forall j :: 0 <= j < 4 && j != n ==> t[j] == s[j])
      && Watches(RegisterImage(t), n, a, 0, len)
      && forall dr6 :: TrapsFirst(dr6, n) ==> Stop(t, dr6) == HwBreak
  {
    hide Stop, RegisterImage, Watches, TrapsFirst;
    var bp := NewBreakpoint(a, len).value;
    InsertedFirst(s, n, bp);
    var t := Inserted(s, bp);
    SlotIsProgrammed(t, n, bp, 0, len);
    forall dr6 | TrapsFirst(dr6, n) ensures Stop(t, dr6) == HwBreak { TrapReports(t, n, bp, dr6); }
  }

  /** Other sizes, and watchpoints for reads only, are refused. */
  lemma RefusedRequests(a: u64, len: u64, kind: WatchKind)
    ensures len !in {1, 2, 4, 8} ==> NewBreakpoint(a, len) == None && NewWatchpoint(a, len, kind) == None
    ensures NewWatchpoint(a, len, WatchKind.Read) == None
  {
  }

  /** Taking a breakpoint that was just inserted frees its slot again, unless an earlier slot holds the same one. */
  lemma TakeUndoesInsert(s: Slots, n: nat, bp: HwBreakpoint)
    requires FirstFree(s, n)
    ensures Taken(Inserted(s, bp), bp) == s <==> forall j :: 0 <= j < n ==> s[j] != Some(bp)
  {
    InsertedFirst(s, n, bp);
    var t := Inserted(s, bp);
    var k := Find(t, Some(bp));
    assert t[n] == Some(bp);
    if k == n {
      assert t[n := None] == s;
    } else {
      assert Taken(t, bp)[k] == None && s[k] == Some(bp);
    }
  }

  /** A single step is reported as such, whatever else has trapped. */
  lemma StepIsReported(s: Slots, dr6: nat)
    requires Bit(dr6, 14)
    ensures Stop(s, dr6) == DoneStep
  {
  }

  /** An empty slot is not enabled and has address zero; DR4 to DR6 are zero; the exact-match and general-detect bits
      of DR7 (8, 9 and 13) are set and no other from 8 to 15. */
  lemma EmptySlotIsOff(s: Slots, n: nat)
    requires n < 4 && s[n].None?
    ensures RegisterImage(s)[n] == 0 && RegisterImage(s)[7] / Pow2(2 * n + 1) % 2 == 0
    ensures RegisterImage(s)[4..7] == [0, 0, 0] && RegisterImage(s)[7] / 0x100 % 0x100 == 0x23
  {
    hide Pow2, ControlImage;
    RegistersDecode(s, n);
  }
}
