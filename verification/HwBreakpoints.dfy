/** Hardware breakpoints and watchpoints (src/arch/x86_64/registers/debug.rs): four slots, and
    the debug registers that describe them (section 17.2.4 of Intel SDM Vol. 3B).
 */
module HwBreakpoints {
  import opened Bits
  import opened Options

  datatype Size = Length1B | Length2B | Length8B | Length4B
  datatype Condition = InstructionExecution | DataWrites | IoReadsWrites | DataReadsWrites
  datatype HwBreakpoint = HwBreakpoint(addr: u64, size: Size, condition: Condition)
  datatype WatchKind = Write | Read | ReadWrite

  type Slots = s: seq<Option<HwBreakpoint>> | |s| == 4 witness [None, None, None, None]

  function SizeFrom(n: nat): Option<Size>
  {
    if n == 1 then Some(Length1B) else if n == 2 then Some(Length2B)
    else if n == 4 then Some(Length4B) else if n == 8 then Some(Length8B) else None
  }

  function NewBreakpoint(addr: u64, kind: nat): Option<HwBreakpoint>
  {
    match SizeFrom(kind)
    case Some(size) => Some(HwBreakpoint(addr, size, InstructionExecution))
    case None => None
  }

  function NewWatchpoint(addr: u64, len: u64, kind: WatchKind): Option<HwBreakpoint>
  {
    match (kind, SizeFrom(len))
    case (Write, Some(size)) => Some(HwBreakpoint(addr, size, DataWrites))
    case (ReadWrite, Some(size)) => Some(HwBreakpoint(addr, size, DataReadsWrites))
    case (_, _) => None
  }

  /** Breakpoints that the debugger interface can ask for. */
  predicate Requested(bp: HwBreakpoint) { bp.condition != IoReadsWrites }

  // ----- the slots as a bag of capacity four -----

  function One(x: Option<HwBreakpoint>): multiset<HwBreakpoint>
  {
    match x case Some(bp) => multiset{bp} case None => multiset{}
  }

  function Contents(s: seq<Option<HwBreakpoint>>): multiset<HwBreakpoint>
  {
    if s == [] then multiset{} else One(s[0]) + Contents(s[1..])
  }

  /** Where the first slot with content `x` is; `|s|` if there is none. */
  function Find(s: seq<Option<HwBreakpoint>>, x: Option<HwBreakpoint>): (k: nat)
    ensures k <= |s| && (k < |s| ==> s[k] == x) && forall j :: 0 <= j < k ==> s[j] != x
  {
    if s == [] || s[0] == x then 0 else 1 + Find(s[1..], x)
  }

  lemma {:induction false} ContentsUpdate(s: seq<Option<HwBreakpoint>>, k: nat, x: Option<HwBreakpoint>)
    requires k < |s|
    ensures Contents(s[k := x]) + One(s[k]) == Contents(s) + One(x)
  {
    hide One;
    if k > 0 {
      var tail := s[1..];
      ContentsUpdate(tail, k - 1, x);
      assert s[k := x][1..] == tail[k - 1 := x];
      var before, after := Contents(tail), Contents(tail[k - 1 := x]);
      assert (One(s[0]) + after) + One(s[k]) == One(s[0]) + (after + One(s[k]));
      assert (One(s[0]) + before) + One(x) == One(s[0]) + (before + One(x));
    } else {
      assert s[k := x][1..] == s[1..];
    }
  }

  lemma {:induction false} ContentsSize(s: seq<Option<HwBreakpoint>>)
    ensures |Contents(s)| <= |s|
    ensures |Contents(s)| == |s| <==> None !in s
  {
    if s != [] {
      ContentsSize(s[1..]);
      assert None in s <==> s[0] == None || None in s[1..];
    }
  }

  lemma {:induction false} ContentsMember(s: seq<Option<HwBreakpoint>>, bp: HwBreakpoint)
    ensures bp in Contents(s) <==> Some(bp) in s
  {
    if s != [] {
      ContentsMember(s[1..], bp);
      assert Some(bp) in s <==> s[0] == Some(bp) || Some(bp) in s[1..];
    }
  }

  class HwBreakpointSlots {
    const slots: array<Option<HwBreakpoint>>

    ghost predicate Valid() { slots.Length == 4 }

    constructor ()
      ensures Valid() && fresh(slots) && slots[..] == [None, None, None, None]
    {
      slots := new Option<HwBreakpoint>[4](_ => None);
    }

    method TryInsert(bp: HwBreakpoint) returns (ok: bool)
      requires Valid()
      modifies slots
      ensures ok <==> |Contents(old(slots[..]))| < 4
      ensures slots[..] == Inserted(old(slots[..]), bp)
    {
      ContentsSize(slots[..]);
      for i := 0 to 4
        invariant forall j :: 0 <= j < i ==> slots[j] != None
        invariant slots[..] == old(slots[..])
      {
        if slots[i].None? {
          assert Find(slots[..], None) == i;
          slots[i] := Some(bp);
          return true;
        }
      }
      return false;
    }

    method Take(bp: HwBreakpoint) returns (r: Option<HwBreakpoint>)
      requires Valid()
      modifies slots
      ensures r == if bp in Contents(old(slots[..])) then Some(bp) else None
      ensures slots[..] == Taken(old(slots[..]), bp)
    {
      ContentsMember(slots[..], bp);
      for i := 0 to 4
        invariant forall j :: 0 <= j < i ==> slots[j] != Some(bp)
        invariant slots[..] == old(slots[..])
      {
        if slots[i] == Some(bp) {
          assert Find(slots[..], Some(bp)) == i;
          r := slots[i];
          slots[i] := None;
          return;
        }
      }
      return None;
    }

    /** DR7: the exact-match and general-detect flags, then enable bit, condition and size of each slot. */
    method ControlValue() returns (value: nat)
      requires Valid()
      ensures value == ControlImage(slots[..])
    {
      hide ControlPrefix, SetBit, SetField, Pow2;
      ControlStart(slots[..]);
      value := DR7_FLAGS;
      for n := 0 to 4
        invariant value == ControlPrefix(slots[..], n)
      {
        if slots[n].Some? {
          var bp := slots[n].value;
          ControlStep(slots[..], n, value);
          value := SetBit(value, 2 * n + 1);
          value := SetField(value, 16 + 4 * n, ConditionBits(bp.condition));
          value := SetField(value, 18 + 4 * n, SizeBits(bp.size));
        } else {
          ControlSkip(slots[..], n);
        }
      }
    }

    method Registers() returns (r: seq<nat>)
      requires Valid()
      ensures r == RegisterImage(slots[..])
    {
      var controlValue := ControlValue();
      r := [SlotAddress(slots[0]), SlotAddress(slots[1]), SlotAddress(slots[2]), SlotAddress(slots[3]),
            0, 0, 0, controlValue];
    }

    /** The reason a debug exception reports, from DR6. */
    method StopReason(dr6: nat) returns (r: StopResult)
      requires Valid()
      ensures r == Stop(slots[..], dr6)
    {
      if Bit(dr6, 14) {
        return DoneStep;
      }
      var n := 0;
      while n < 4 && !Bit(dr6, n)
        invariant 0 <= n <= 4
        invariant forall j :: 0 <= j < n ==> !Bit(dr6, j)
      {
        n := n + 1;
      }
      LowestTrapIs(dr6, n);
      if n == 4 {
        return Panic;
      }
      if slots[n].None? {
        return Panic;
      }
      match slots[n].value.condition {
        case InstructionExecution => return HwBreak;
        case DataWrites => return Watch(Write, slots[n].value.addr);
        case DataReadsWrites => return Watch(ReadWrite, slots[n].value.addr);
        case IoReadsWrites => return Panic;
      }
    }
  }

  function Inserted(s: seq<Option<HwBreakpoint>>, bp: HwBreakpoint): seq<Option<HwBreakpoint>>
  {
    var k := Find(s, None);
    if k < |s| then s[k := Some(bp)] else s
  }

  function Taken(s: seq<Option<HwBreakpoint>>, bp: HwBreakpoint): seq<Option<HwBreakpoint>>
  {
    var k := Find(s, Some(bp));
    if k < |s| then s[k := None] else s
  }

  datatype Op = Insert(bp: HwBreakpoint) | Remove(bp: HwBreakpoint)

  function SlotStep(s: Slots, op: Op): Slots
  {
    match op case Insert(bp) => Inserted(s, bp) case Remove(bp) => Taken(s, bp)
  }

  /** A bag that takes at most four. */
  function BagStep(b: multiset<HwBreakpoint>, op: Op): multiset<HwBreakpoint>
  {
    match op
    case Insert(bp) => if |b| < 4 then b + multiset{bp} else b
    case Remove(bp) => b - multiset{bp}
  }

  lemma SlotStepIsBagStep(s: Slots, op: Op)
    ensures Contents(SlotStep(s, op)) == BagStep(Contents(s), op)
  {
    match op {
      case Insert(bp) => InsertIsBagStep(s, bp);
      case Remove(bp) => RemoveIsBagStep(s, bp);
    }
  }

  lemma InsertIsBagStep(s: Slots, bp: HwBreakpoint)
    ensures Contents(Inserted(s, bp)) == if |Contents(s)| < 4 then Contents(s) + multiset{bp} else Contents(s)
  {
    hide Contents;
    ContentsSize(s);
    var k := Find(s, None);
    if k < 4 { Replace(s, k, Some(bp)); }
  }

  lemma RemoveIsBagStep(s: Slots, bp: HwBreakpoint)
    ensures Contents(Taken(s, bp)) == Contents(s) - multiset{bp}
  {
    hide Contents;
    ContentsMember(s, bp);
    var k := Find(s, Some(bp));
    if k < 4 { Replace(s, k, None); }
  }

  lemma Replace(s: Slots, k: nat, x: Option<HwBreakpoint>)
    requires k < 4
    ensures s[k].None? && x.Some? ==> Contents(s[k := x]) == Contents(s) + multiset{x.value}
    ensures s[k].Some? && x.None? ==> Contents(s[k := x]) == Contents(s) - multiset{s[k].value}
  {
    hide Contents;
    ContentsUpdate(s, k, x);
    if s[k].Some? && x.None? {
      var after, gone := Contents(s[k := x]), multiset{s[k].value};
      assert (after + gone) - gone == after;
    }
  }

  function SlotRun(s: Slots, ops: seq<Op>): Slots
  {
    if ops == [] then s else SlotStep(SlotRun(s, ops[..|ops| - 1]), ops[|ops| - 1])
  }

  function BagRun(b: multiset<HwBreakpoint>, ops: seq<Op>): multiset<HwBreakpoint>
  {
    if ops == [] then b else BagStep(BagRun(b, ops[..|ops| - 1]), ops[|ops| - 1])
  }

  /** Over every run of insertions and removals the four slots behave as a bag of capacity four. */
  lemma {:induction false} SlotsRefineBag(s: Slots, ops: seq<Op>)
    ensures Contents(SlotRun(s, ops)) == BagRun(Contents(s), ops)
  {
    hide Contents, SlotStep, BagStep;
    if ops != [] {
      SlotsRefineBag(s, ops[..|ops| - 1]);
      SlotStepIsBagStep(SlotRun(s, ops[..|ops| - 1]), ops[|ops| - 1]);
    }
  }

  /** Only breakpoints that were requested are ever in a slot. */
  lemma {:induction false} SlotsHoldRequested(s: Slots, ops: seq<Op>)
    requires forall k :: 0 <= k < 4 && s[k].Some? ==> Requested(s[k].value)
    requires forall k :: 0 <= k < |ops| ==> Requested(ops[k].bp)
    ensures forall k :: 0 <= k < 4 && SlotRun(s, ops)[k].Some? ==> Requested(SlotRun(s, ops)[k].value)
  {
    if ops != [] { SlotsHoldRequested(s, ops[..|ops| - 1]); }
  }

  lemma ConstructorsRequest(addr: u64, len: u64, kind: WatchKind)
    ensures NewBreakpoint(addr, len).Some? <==> len in {1, 2, 4, 8}
    ensures NewBreakpoint(addr, len).Some? ==> Requested(NewBreakpoint(addr, len).value)
    ensures NewWatchpoint(addr, len, kind).Some? <==> len in {1, 2, 4, 8} && kind != Read
    ensures NewWatchpoint(addr, len, kind).Some? ==> Requested(NewWatchpoint(addr, len, kind).value)
  {
  }

  // ----- the register image -----

  const DR7_FLAGS: nat := 0x2300

  function ConditionBits(c: Condition): (r: nat)
    ensures r < 4
  {
    match c case InstructionExecution => 0 case DataWrites => 1 case IoReadsWrites => 2 case DataReadsWrites => 3
  }

  function SizeBits(s: Size): (r: nat)
    ensures r < 4
  {
    match s case Length1B => 0 case Length2B => 1 case Length8B => 2 case Length4B => 3
  }

  /** Sets bit `k`. */
  function SetBit(v: nat, k: nat): nat { if v / Pow2(k) % 2 == 1 then v else v + Pow2(k) }

  /** Replaces the two bits at `k`. */
  function SetField(v: nat, k: nat, x: nat): int
  {
    v - v / Pow2(k) % 4 * Pow2(k) + x * Pow2(k)
  }

  /** Replacing the quotient of a register by a position changes no bit below it. */
  lemma QuotientReplaced(v: nat, p: nat, w: nat)
    requires p > 0
    ensures var u := v + (w - v / p) * p; u >= 0 && u / p == w && u % p == v % p
  {
    var q, r := Split(v, p);
    assert (w - q) * p == w * p - q * p;
    assert w * p >= 0;
    DivModUnique(w * p + r, p, w, r);
  }

  /** Setting a bit sets it and changes no other. */
  lemma BitWritten(v: nat, k: nat)
    ensures var b := SetBit(v, k);
      b / Pow2(k) % 2 == 1 && b % Pow2(k) == v % Pow2(k) && b / Pow2(k) / 2 == v / Pow2(k) / 2
  {
    hide Pow2;
    QuotientReplaced(v, Pow2(k), v / Pow2(k) + 1);
  }

  /** A field reads back, and no other bit changes. */
  lemma FieldWritten(v: nat, k: nat, x: nat)
    requires x < 4
    ensures var f := SetField(v, k, x);
      f >= 0 && f / Pow2(k) % 4 == x && f % Pow2(k) == v % Pow2(k) && f / Pow2(k) / 4 == v / Pow2(k) / 4
  {
    hide Pow2;
    var p, q := Pow2(k), v / Pow2(k);
    var w := q - q % 4 + x;
    QuotientReplaced(v, p, w);
    Distributes(x, q % 4, p);
    assert SetField(v, k, x) == v + (w - q) * p;
    DivModUnique(w, 4, q / 4, x);
  }

  lemma Distributes(x: int, y: int, p: int)
    ensures (x - y) * p == x * p - y * p
  {
  }

  function SlotAddress(x: Option<HwBreakpoint>): nat
  {
    match x case Some(bp) => bp.addr case None => 0
  }

  function EnableBit(s: Slots, n: nat, j: nat): (r: nat)
    requires j < 4
    ensures r < 2
  {
    if j < n && s[j].Some? then 1 else 0
  }

  /** Condition and size of slot `j`, once the first `n` slots have been entered. */
  function Code(s: Slots, n: nat, j: nat): (r: nat)
    requires j < 4
    ensures r < 16
  {
    if j < n && s[j].Some? then ConditionBits(s[j].value.condition) + 4 * SizeBits(s[j].value.size) else 0
  }

  function ControlPrefix(s: Slots, n: nat): nat
  {
    DR7_FLAGS
    + 2 * (EnableBit(s, n, 0) + 4 * EnableBit(s, n, 1) + 16 * EnableBit(s, n, 2) + 64 * EnableBit(s, n, 3))
    + 0x1_0000 * (Code(s, n, 0) + 16 * Code(s, n, 1) + 256 * Code(s, n, 2) + 4096 * Code(s, n, 3))
  }

  function ControlImage(s: Slots): nat { ControlPrefix(s, 4) }

  function RegisterImage(s: Slots): seq<nat>
  {
    [SlotAddress(s[0]), SlotAddress(s[1]), SlotAddress(s[2]), SlotAddress(s[3]), 0, 0, 0, ControlImage(s)]
  }

  lemma Positions()
    ensures Pow2(1) == 2 && Pow2(3) == 8 && Pow2(5) == 32 && Pow2(7) == 128
    ensures Pow2(16) == 0x1_0000 && Pow2(18) == 0x4_0000 && Pow2(20) == 0x10_0000 && Pow2(22) == 0x40_0000
    ensures Pow2(24) == 0x100_0000 && Pow2(26) == 0x400_0000 && Pow2(28) == 0x1000_0000 && Pow2(30) == 0x4000_0000
  {
  }

  /** Writing a field above everything that is set so far adds it. */
  lemma FieldAbove(v: nat, k: nat, x: nat)
    requires v < Pow2(k)
    ensures SetField(v, k, x) == v + x * Pow2(k)
  {
    assert v / Pow2(k) == 0 by { DivModUnique(v, Pow2(k), 0, v); }
  }

  lemma ControlStep(s: Slots, n: nat, v: nat)
    requires n < 4 && s[n].Some? && v == ControlPrefix(s, n)
    ensures var bp := s[n].value;
      var enabled := SetBit(v, 2 * n + 1);
      var conditioned := SetField(enabled, 16 + 4 * n, ConditionBits(bp.condition));
      && conditioned >= 0
      && SetField(conditioned, 18 + 4 * n, SizeBits(bp.size)) == ControlPrefix(s, n + 1)
  {
    hide SetField, SetBit, Pow2, ControlPrefix, ConditionBits, SizeBits;
    var bp, p := s[n].value, Pow2(16 + 4 * n);
    var c, z := ConditionBits(bp.condition), SizeBits(bp.size);
    EnableStep(s, n, v);
    NextPosition(16 + 4 * n);
    FieldAbove(SetBit(v, 2 * n + 1), 16 + 4 * n, c);
    FieldAbove(v + Pow2(2 * n + 1) + c * p, 18 + 4 * n, z);
    PrefixStep(s, n);
  }

  lemma NextPosition(k: nat)
    ensures Pow2(k + 2) == 4 * Pow2(k)
  {
    assert Pow2(k + 2) == 2 * Pow2(k + 1);
  }

  lemma PrefixStep(s: Slots, n: nat)
    requires n < 4 && s[n].Some?
    ensures var p := Pow2(16 + 4 * n);
      ControlPrefix(s, n + 1) == ControlPrefix(s, n) + Pow2(2 * n + 1)
        + ConditionBits(s[n].value.condition) * p + SizeBits(s[n].value.size) * (4 * p)
  {
    hide Pow2, Code, EnableBit;
    Positions();
    OthersKept(s, n);
  }

  lemma OthersKept(s: Slots, n: nat)
    requires n < 4 && s[n].Some?
    ensures forall j :: 0 <= j < 4 && j != n ==>
      EnableBit(s, n + 1, j) == EnableBit(s, n, j) && Code(s, n + 1, j) == Code(s, n, j)
    ensures EnableBit(s, n, n) == 0 && Code(s, n, n) == 0 && EnableBit(s, n + 1, n) == 1
    ensures Code(s, n + 1, n) == ConditionBits(s[n].value.condition) + 4 * SizeBits(s[n].value.size)
  {
  }

  lemma ControlStart(s: Slots)
    ensures ControlPrefix(s, 0) == DR7_FLAGS
  {
  }

  lemma ControlSkip(s: Slots, n: nat)
    requires n < 4 && s[n].None?
    ensures ControlPrefix(s, n + 1) == ControlPrefix(s, n)
  {
  }

  lemma EnableStep(s: Slots, n: nat, v: nat)
    requires n < 4 && v == ControlPrefix(s, n)
    ensures SetBit(v, 2 * n + 1) == v + Pow2(2 * n + 1)
    ensures v + Pow2(2 * n + 1) < Pow2(16 + 4 * n)
  {
    hide Pow2, Code, EnableBit;
    Positions();
    var e := EnableBit(s, n, 0) + 4 * EnableBit(s, n, 1) + 16 * EnableBit(s, n, 2) + 64 * EnableBit(s, n, 3);
    var c := Code(s, n, 0) + 16 * Code(s, n, 1) + 256 * Code(s, n, 2) + 4096 * Code(s, n, 3);
    PrefixBounds(s, n);
    FreshBit(n, e, c);
  }

  lemma PrefixBounds(s: Slots, n: nat)
    requires n < 4
    ensures forall j :: n <= j < 4 ==> EnableBit(s, n, j) == 0 && Code(s, n, j) == 0
  {
  }

  /** The enable bit of the next slot is still clear, and everything lies below its field. */
  lemma FreshBit(n: nat, e: nat, c: nat)
    requires n < 4
    requires if n == 0 then e == 0 && c == 0 else if n == 1 then e < 2 && c < 16
             else if n == 2 then e < 6 && c < 256 else e < 22 && c < 4096
    ensures var v := DR7_FLAGS + 2 * e + 0x1_0000 * c;
      SetBit(v, 2 * n + 1) == v + Pow2(2 * n + 1) < Pow2(16 + 4 * n)
  {
    hide Pow2;
    Positions();
    var v := DR7_FLAGS + 2 * e + 0x1_0000 * c;
    if n == 1 { assert v / 8 == 2 * (0x230 + 0x1000 * c); }
    else if n == 2 { assert v / 32 == 2 * (0x8C + 0x400 * c); }
    else if n == 3 { assert v / 128 == 2 * (0x23 + 0x100 * c); }
  }

  // ----- what the processor reads from the registers -----

  function DecodeCondition(b: nat): Condition
  {
    if b == 0 then InstructionExecution else if b == 1 then DataWrites
    else if b == 2 then IoReadsWrites else DataReadsWrites
  }

  function DecodeSize(b: nat): Size
  {
    if b == 0 then Length1B else if b == 1 then Length2B else if b == 2 then Length8B else Length4B
  }

  /** Breakpoint `n` as DR0 to DR3 and DR7 describe it: enabled by its global enable bit. */
  function DecodeSlot(regs: seq<nat>, n: nat): Option<HwBreakpoint>
    requires |regs| == 8 && n < 4 && regs[n] < TWO64
  {
    if regs[7] / Pow2(2 * n + 1) % 2 == 1
    then
      var size, condition := regs[7] / Pow2(18 + 4 * n) % 4, regs[7] / Pow2(16 + 4 * n) % 4;
      Some(HwBreakpoint(regs[n], DecodeSize(size), DecodeCondition(condition)))
    else None
  }

  /** The register image describes exactly the occupied slots. */
  lemma RegistersDecode(s: Slots, n: nat)
    requires n < 4
    ensures DecodeSlot(RegisterImage(s), n) == s[n]
    ensures ControlImage(s) / 0x100 % 0x100 == 0x23
  {
    hide Pow2, ControlImage, DecodeCondition, DecodeSize, ConditionBits, SizeBits;
    var v := ControlImage(s);
    Positions();
    ImageDigits(s);
    if s[n].Some? { FieldsDecode(s[n].value); }
    if n == 0 { QuarterOf(v, 0x1_0000); Nibble(v / 0x1_0000); }
    else if n == 1 { QuarterOf(v, 0x10_0000); Nibble(v / 0x10_0000); }
    else if n == 2 { QuarterOf(v, 0x100_0000); Nibble(v / 0x100_0000); }
    else { QuarterOf(v, 0x1000_0000); Nibble(v / 0x1000_0000); }
  }

  lemma FieldsDecode(bp: HwBreakpoint)
    ensures DecodeCondition(ConditionBits(bp.condition)) == bp.condition && DecodeSize(SizeBits(bp.size)) == bp.size
    ensures var c := ConditionBits(bp.condition) + 4 * SizeBits(bp.size);
      c % 4 == ConditionBits(bp.condition) && c / 4 == SizeBits(bp.size)
  {
  }

  lemma Nibble(q: nat)
    ensures q % 4 == q % 16 % 4 && q / 4 % 4 == q % 16 / 4
  {
    var h, c := Split(q, 16);
    var x, y := Split(c, 4);
    DivModUnique(q, 4, h * 4 + x, y);
    DivModUnique(h * 4 + x, 4, h, x);
  }

  lemma QuarterOf(v: nat, p: nat)
    requires p > 0
    ensures v / (4 * p) == v / p / 4
  {
    var q, r := Split(v, p);
    var x, y := Split(q, 4);
    Regrouped(x, y, p, r);
    DivModUnique(v, 4 * p, x, y * p + r);
  }

  lemma Regrouped(x: nat, y: nat, p: nat, r: nat)
    requires y < 4 && r < p
    ensures (x * 4 + y) * p + r == x * (4 * p) + (y * p + r) && y * p + r < 4 * p
  {
    assert (x * 4 + y) * p == x * 4 * p + y * p;
    assert y * p <= 3 * p;
  }

  lemma ImageDigits(s: Slots)
    ensures var v := ControlImage(s);
      && v / 2 % 2 == EnableBit(s, 4, 0) && v / 8 % 2 == EnableBit(s, 4, 1)
      && v / 32 % 2 == EnableBit(s, 4, 2) && v / 128 % 2 == EnableBit(s, 4, 3)
      && v / 0x100 % 0x100 == 0x23
      && v / 0x1_0000 % 16 == Code(s, 4, 0) && v / 0x10_0000 % 16 == Code(s, 4, 1)
      && v / 0x100_0000 % 16 == Code(s, 4, 2) && v / 0x1000_0000 % 16 == Code(s, 4, 3)
  {
    hide Code, EnableBit;
    var c0, c1, c2, c3 := Code(s, 4, 0), Code(s, 4, 1), Code(s, 4, 2), Code(s, 4, 3);
    var e0, e1, e2, e3 := EnableBit(s, 4, 0), EnableBit(s, 4, 1), EnableBit(s, 4, 2), EnableBit(s, 4, 3);
    var high := c0 + 16 * c1 + 256 * c2 + 4096 * c3;
    LowDigits(e0, e1, e2, e3, high);
    HighDigits(2 * (e0 + 4 * e1 + 16 * e2 + 64 * e3), c0, c1, c2, c3);
  }

  lemma LowDigits(e0: nat, e1: nat, e2: nat, e3: nat, high: nat)
    requires e0 < 2 && e1 < 2 && e2 < 2 && e3 < 2
    ensures var v := DR7_FLAGS + 2 * (e0 + 4 * e1 + 16 * e2 + 64 * e3) + 0x1_0000 * high;
      && v / 2 % 2 == e0 && v / 8 % 2 == e1 && v / 32 % 2 == e2 && v / 128 % 2 == e3
      && v / 0x100 % 0x100 == 0x23
  {
    var v := DR7_FLAGS + 2 * (e0 + 4 * e1 + 16 * e2 + 64 * e3) + 0x1_0000 * high;
    Digit(v, 2, 2, 0x8C0 + 2 * e1 + 8 * e2 + 32 * e3 + 0x4000 * high, e0, 0);
    Digit(v, 8, 2, 0x230 + 2 * e2 + 8 * e3 + 0x1000 * high, e1, 2 * e0);
    Digit(v, 32, 2, 0x8C + 2 * e3 + 0x400 * high, e2, 2 * e0 + 8 * e1);
    Digit(v, 128, 2, 0x23 + 0x100 * high, e3, 2 * e0 + 8 * e1 + 32 * e2);
    Digit(v, 0x100, 0x100, high, 0x23, 2 * e0 + 8 * e1 + 32 * e2 + 128 * e3);
  }

  lemma Digit(v: nat, d: nat, b: nat, q: nat, x: nat, r: nat)
    requires d > 0 && x < b && r < d && v == (q * b + x) * d + r
    ensures v / d % b == x
  {
    DivModUnique(v, d, q * b + x, r);
    DivModUnique(q * b + x, b, q, x);
  }

  lemma HighDigits(low: nat, c0: nat, c1: nat, c2: nat, c3: nat)
    requires low < 0x100 && c0 < 16 && c1 < 16 && c2 < 16 && c3 < 16
    ensures var v := DR7_FLAGS + low + 0x1_0000 * (c0 + 16 * c1 + 256 * c2 + 4096 * c3);
      && v / 0x1_0000 % 16 == c0 && v / 0x10_0000 % 16 == c1
      && v / 0x100_0000 % 16 == c2 && v / 0x1000_0000 % 16 == c3
  {
    var v := DR7_FLAGS + low + 0x1_0000 * (c0 + 16 * c1 + 256 * c2 + 4096 * c3);
    var r := DR7_FLAGS + low;
    Digit(v, 0x1_0000, 16, c1 + 16 * c2 + 256 * c3, c0, r);
    Digit(v, 0x10_0000, 16, c2 + 16 * c3, c1, r + 0x1_0000 * c0);
    Digit(v, 0x100_0000, 16, c3, c2, r + 0x1_0000 * c0 + 0x10_0000 * c1);
    Digit(v, 0x1000_0000, 16, 0, c3, r + 0x1_0000 * c0 + 0x10_0000 * c1 + 0x100_0000 * c2);
  }

  // ----- stop reasons -----

  datatype StopResult = DoneStep | HwBreak | Watch(kind: WatchKind, addr: u64) | Panic

  /** The lowest of the four trap bits of DR6 that is set; 4 if none is. */
  function LowestTrap(dr6: nat): (n: nat)
    ensures n <= 4
  {
    if Bit(dr6, 0) then 0 else if Bit(dr6, 1) then 1 else if Bit(dr6, 2) then 2 else if Bit(dr6, 3) then 3 else 4
  }

  lemma LowestTrapIs(dr6: nat, n: nat)
    requires n <= 4 && (n < 4 ==> Bit(dr6, n)) && forall j :: 0 <= j < n ==> !Bit(dr6, j)
    ensures LowestTrap(dr6) == n
  {
  }

  function Stop(s: Slots, dr6: nat): StopResult
  {
    if Bit(dr6, 14) then DoneStep
    else
      var n := LowestTrap(dr6);
      if n == 4 || s[n].None? then Panic
      else
        match s[n].value.condition
        case InstructionExecution => HwBreak
        case DataWrites => Watch(Write, s[n].value.addr)
        case DataReadsWrites => Watch(ReadWrite, s[n].value.addr)
        case IoReadsWrites => Panic
  }

  /** What a debug exception on breakpoint `bp` means for the debugger. */
  function Reason(bp: HwBreakpoint): StopResult
  {
    match bp.condition
    case InstructionExecution => HwBreak
    case DataWrites => Watch(Write, bp.addr)
    case DataReadsWrites => Watch(ReadWrite, bp.addr)
    case IoReadsWrites => Panic
  }

  /** After any run from empty slots a debug exception is reported without a panic exactly when it is a step, or the
      debug registers enable the lowest trapped breakpoint; and then the reason is that of the breakpoint which the
      registers describe. */
  lemma StopReportsLowest(ops: seq<Op>, dr6: nat)
    requires forall k :: 0 <= k < |ops| ==> Requested(ops[k].bp)
    ensures var s := SlotRun([None, None, None, None], ops);
      var n := LowestTrap(dr6);
      && (Stop(s, dr6) != Panic <==> Bit(dr6, 14) || (n < 4 && DecodeSlot(RegisterImage(s), n).Some?))
      && (!Bit(dr6, 14) && n < 4 && DecodeSlot(RegisterImage(s), n).Some? ==>
            Stop(s, dr6) == Reason(DecodeSlot(RegisterImage(s), n).value))
  {
    hide Bit, SlotRun, DecodeSlot, RegisterImage;
    SlotsHoldRequested([None, None, None, None], ops);
    var s, n := SlotRun([None, None, None, None], ops), LowestTrap(dr6);
    if n < 4 {
      AddressesAreWords(s);
      RegistersDecode(s, n);
    }
  }

  lemma AddressesAreWords(s: Slots)
    ensures |RegisterImage(s)| == 8 && forall n :: 0 <= n < 4 ==> RegisterImage(s)[n] < TWO64
  {
    hide ControlImage;
  }

  /** When the processor traps only on breakpoints that DR7 enables, and on at least one, every run reports the
      lowest of them. */
  lemma EnabledTrapsReport(ops: seq<Op>, dr6: nat)
    requires forall k :: 0 <= k < |ops| ==> Requested(ops[k].bp)
    requires var s := SlotRun([None, None, None, None], ops);
      forall k :: 0 <= k < 4 && Bit(dr6, k) ==> DecodeSlot(RegisterImage(s), k).Some?
    requires !Bit(dr6, 14) && LowestTrap(dr6) < 4
    ensures var s, n := SlotRun([None, None, None, None], ops), LowestTrap(dr6);
      && n < 4 && Bit(dr6, n) && (forall j :: 0 <= j < n ==> !Bit(dr6, j))
      && DecodeSlot(RegisterImage(s), n).Some?
      && Stop(s, dr6) == Reason(DecodeSlot(RegisterImage(s), n).value) != Panic
  {
    hide Bit, SlotRun, DecodeSlot, RegisterImage, Stop, Reason;
    var n := LowestTrap(dr6);
    assert n < 4 && Bit(dr6, n);
    StopReportsLowest(ops, dr6);
  }
}
