/** The legacy virtio network device (src/linux/virtio.rs): status handshake, feature
    negotiation, queue registration, notification and link status.

    Creating the TAP interface and looking up its MAC address are outcomes that come with
    the status write.  `Step` is the device as a function of its state; the class performs
    it in place, and the theorems are about all runs of `Step`.
 */
module VirtioNet {
  import opened Bits
  import opened GuestMemory
  import opened Options
  import opened Virtqueues

  const ACKNOWLEDGE: byte := 0x01
  const DRIVER: byte := 0x02
  const DRIVER_OK: byte := 0x04
  const FEATURES_OK: byte := 0x08
  const NEEDS_RESET: byte := 0x40
  const FAILED: byte := 0x80

  /** The status values of the handshake: the accumulated bits after each stage. */
  const STAGE_ACKNOWLEDGE: byte := 0x01
  const STAGE_DRIVER: byte := 0x03
  const STAGE_FEATURES: byte := 0x0B
  const STAGE_OK: byte := 0x0F

  const STATUS_REGISTER: nat := 6
  const TX_QUEUE: nat := 1
  /** VIRTIO_NET_F_STATUS (bit 16) and VIRTIO_NET_F_MAC (bit 5). */
  const HOST_FEATURES: nat := 0x1_0020

  datatype Tap = NoTap | NoMac | WithMac(mac: seq<byte>)

  datatype QueueView = QueueView(base: nat, last: nat)

  datatype Device = Device(
    registers: seq<byte>, features: nat, selected: nat, queues: seq<QueueView>, iface: bool, mac: seq<byte>)
  {
    function Status(): byte
      requires |registers| == 64
    {
      registers[STATUS_REGISTER]
    }

    function WithStatus(s: byte): Device
      requires |registers| == 64
    {
      this.(registers := registers[STATUS_REGISTER := s])
    }
  }

  function InitialRegisters(): (r: seq<byte>)
    ensures |r| == 64 && r[STATUS_REGISTER] == NEEDS_RESET
  {
    [ 0xF4, 0x1A, 0x00, 0x10, 0, 0, NEEDS_RESET, 0, 0, 0, 0x00, 0x02, 0, 0, 0, 0,
      0x00, 0xC0, 0, 0, 0, 0, 0, 0, 0, 0, 0, 0, 0, 0, 0, 0 ]
    + seq(32, _ => 0)
  }

  function New(): Device { Device(InitialRegisters(), 0, 0, [], false, [0, 0, 0, 0, 0, 0]) }

  function WithBit(s: byte, bit: byte): byte { OrByte(s, bit); Or(s, bit) }

  lemma OrByte(x: nat, y: nat)
    requires x < 256 && y < 256
    ensures Or(x, y) < 256
  {
    OrBelow(x, y, 8);
  }

  // ----- the operations, as functions of the device state -----

  /** The last stage: bring up the interface; without it, or without its address, ask for a reset. */
  function HandshakeDone(d: Device, tap: Tap): Device
    requires |d.registers| == 64
  {
    match tap
    case NoTap => d.WithStatus(WithBit(STAGE_OK, NEEDS_RESET)).(iface := false)
    case NoMac => d.WithStatus(WithBit(STAGE_OK, NEEDS_RESET)).(iface := true)
    case WithMac(mac) => d.WithStatus(STAGE_OK).(iface := true, mac := mac)
  }

  function StatusWritten(d: Device, value: byte, tap: Tap): Device
    requires |d.registers| == 64
  {
    var status := d.Status();
    if value == 0 then d.WithStatus(0).(features := 0, selected := 0, queues := [], iface := false)
    else if status == NEEDS_RESET || status == 0 then if value == STAGE_ACKNOWLEDGE then d.WithStatus(value) else d
    else if status == STAGE_ACKNOWLEDGE then if value == STAGE_DRIVER then d.WithStatus(value) else d
    else if status == STAGE_DRIVER then if value == STAGE_FEATURES then d.WithStatus(value) else d
    else if status == STAGE_FEATURES then if value == STAGE_OK then HandshakeDone(d, tap) else d
    else d
  }

  function FeaturesWritten(d: Device, value: nat): Device
    requires |d.registers| == 64
  {
    if d.Status() == STAGE_DRIVER then d.(features := And(Or(d.features, value), HOST_FEATURES)) else d
  }

  predicate Registrable(d: Device)
    requires |d.registers| == 64
  {
    And(d.Status(), FEATURES_OK) != 0 && And(d.Status(), DRIVER_OK) == 0 && d.selected == |d.queues|
  }

  function PfnWritten(d: Device, gpa: nat): Device
    requires |d.registers| == 64
  {
    if Registrable(d) then d.(queues := d.queues + [QueueView(gpa, 0)]) else d
  }

  predicate Sends(d: Device, queue: nat)
    requires |d.registers| == 64
  {
    queue == 1 && And(d.Status(), DRIVER_OK) == DRIVER_OK
  }

  /** The device part of a notification that finds the available index at `avail`. */
  function Sent(d: Device, avail: nat): Device
    requires |d.registers| == 64 && TX_QUEUE < |d.queues|
  {
    var tx := d.queues[TX_QUEUE];
    var status := if !d.iface && tx.last != avail then WithBit(d.Status(), NEEDS_RESET) else d.Status();
    d.WithStatus(status).(queues := d.queues[TX_QUEUE := tx.(last := avail)])
  }

  function LinkStatus(d: Device): nat
    requires |d.registers| == 64
  {
    if And(d.Status(), FAILED) != 0 || And(d.Status(), NEEDS_RESET) != 0 then 0 else if d.iface then 1 else 0
  }

  /** A notification comes with the available index it finds, and whether some outstanding descriptor is shorter
      than a packet header. */
  datatype Op =
    | StatusWrite(value: byte, tap: Tap)
    | FeaturesWrite(features: nat)
    | QueueSelect(queue: nat)
    | PfnWrite(gpa: nat)
    | Notify(queue: nat, avail: nat, short: bool)
    | ConfigWrite(address: nat, data: seq<byte>)

  /** None: the thread panics, because an index is out of bounds or a packet length underflows. */
  function Step(d: Device, op: Op): Option<Device>
    requires |d.registers| == 64
  {
    match op
    case StatusWrite(value, tap) => Some(StatusWritten(d, value, tap))
    case FeaturesWrite(features) => Some(FeaturesWritten(d, features))
    case QueueSelect(queue) => Some(d.(selected := queue))
    case PfnWrite(gpa) => Some(PfnWritten(d, gpa))
    case Notify(queue, avail, short) =>
      if !Sends(d, queue) then Some(d)
      else if |d.queues| <= TX_QUEUE || (d.iface && short) then None
      else Some(Sent(d, avail))
    case ConfigWrite(address, data) =>
      if data == [] then Some(d)
      else if address + |data| > 64 then None
      else Some(d.(registers := d.registers[..address] + data + d.registers[address + |data|..]))
  }

  // ----- the device in place -----

  class VirtioNetPciDevice {
    const registers: array<byte>
    const mem: array<byte>
    var requestedFeatures: nat
    var selectedQueueNum: nat
    var virtQueues: seq<Virtqueue>
    var iface: bool
    var macAddr: seq<byte>

    ghost predicate Valid()
      reads this, registers, virtQueues
    {
      && registers.Length == 64 && registers != mem
      && (forall i :: 0 <= i < |virtQueues| ==> virtQueues[i].Valid() && virtQueues[i].mem == mem)
      && (forall i, j :: 0 <= i < j < |virtQueues| ==> virtQueues[i] != virtQueues[j])
    }

    ghost function Views(): (r: seq<QueueView>)
      reads this, virtQueues
      ensures |r| == |virtQueues|
    {
      seq(|virtQueues|, i requires 0 <= i < |virtQueues| reads this, virtQueues =>
        QueueView(virtQueues[i].base, virtQueues[i].lastSeenAvailable))
    }

    ghost function Abstract(): Device
      reads this, registers, virtQueues
    {
      Device(registers[..], requestedFeatures, selectedQueueNum, Views(), iface, macAddr)
    }

    constructor (mem: array<byte>)
      ensures Valid() && fresh(registers) && this.mem == mem && Abstract() == New()
    {
      var initial := InitialRegisters();
      registers := new byte[64](i requires 0 <= i < 64 => initial[i]);
      this.mem := mem;
      requestedFeatures, selectedQueueNum, virtQueues, iface := 0, 0, [], false;
      macAddr := [0, 0, 0, 0, 0, 0];
      new;
      assert registers[..] == initial;
    }

    method WriteStatus(value: byte, tap: Tap)
      requires Valid()
      modifies this, registers
      ensures Valid()
      ensures Abstract() == StatusWritten(old(Abstract()), value, tap)
    {
      hide Or;
      var status := registers[STATUS_REGISTER];
      if value == 0 {
        registers[STATUS_REGISTER] := 0;
        requestedFeatures := 0;
        selectedQueueNum := 0;
        virtQueues := [];
        iface := false;
      } else if status == NEEDS_RESET || status == 0 {
        if value == STAGE_ACKNOWLEDGE { registers[STATUS_REGISTER] := value; }
      } else if status == STAGE_ACKNOWLEDGE {
        if value == STAGE_DRIVER { registers[STATUS_REGISTER] := value; }
      } else if status == STAGE_DRIVER {
        if value == STAGE_FEATURES { registers[STATUS_REGISTER] := value; }
      } else if status == STAGE_FEATURES {
        if value == STAGE_OK {
          registers[STATUS_REGISTER] := value;
          iface := !tap.NoTap?;
          if tap.NoTap? {
            registers[STATUS_REGISTER] := WithBit(registers[STATUS_REGISTER], NEEDS_RESET);
          } else if tap.NoMac? {
            registers[STATUS_REGISTER] := WithBit(registers[STATUS_REGISTER], NEEDS_RESET);
          } else {
            macAddr := tap.mac;
          }
        }
      }
      assert Views() == StatusWritten(old(Abstract()), value, tap).queues;
    }

    method WriteRequestedFeatures(value: nat)
      requires Valid()
      modifies this`requestedFeatures
      ensures Valid()
      ensures Abstract() == FeaturesWritten(old(Abstract()), value)
    {
      if registers[STATUS_REGISTER] == STAGE_DRIVER {
        requestedFeatures := And(Or(requestedFeatures, value), HOST_FEATURES);
      }
      assert Views() == old(Views());
    }

    method WriteSelectedQueue(queue: nat)
      requires Valid()
      modifies this`selectedQueueNum
      ensures Valid()
      ensures Abstract() == old(Abstract()).(selected := queue)
    {
      selectedQueueNum := queue;
      assert Views() == old(Views());
    }

    /** Registers the next virtqueue at guest address `gpa`. */
    method WritePfn(gpa: nat)
      requires Valid()
      modifies this`virtQueues
      ensures Valid()
      ensures Abstract() == PfnWritten(old(Abstract()), gpa)
    {
      hide And;
      var status := registers[STATUS_REGISTER];
      if And(status, FEATURES_OK) != 0 && And(status, DRIVER_OK) == 0 && selectedQueueNum == |virtQueues| {
        var queue := new Virtqueue(mem, gpa);
        virtQueues := virtQueues + [queue];
        assert Views() == old(Views()) + [QueueView(gpa, 0)];
      }
    }

    /** A raw write to configuration space; false if it runs past the registers and panics. */
    method HandleWrite(address: nat, data: seq<byte>) returns (ok: bool)
      requires Valid()
      modifies registers
      ensures Valid()
      ensures ok <==> Step(old(Abstract()), ConfigWrite(address, data)).Some?
      ensures ok ==> Step(old(Abstract()), ConfigWrite(address, data)) == Some(Abstract())
    {
      ghost var before := registers[..];
      for i := 0 to |data|
        invariant Valid() && (address + i <= 64 || i == 0)
        invariant forall j :: 0 <= j < 64 ==>
          registers[j] == if address <= j < address + i then data[j - address] else before[j]
        invariant Views() == old(Views())
      {
        if address + i >= 64 {
          return false;
        }
        registers[address + i] := data[i];
      }
      if data == [] {
        assert registers[..] == before;
      } else {
        assert registers[..] == before[..address] + data + before[address + |data|..];
      }
      return true;
    }

    /** What one drain of the transmit queue does: the slots that are outstanding are recorded, up to the first that
        is too short for a header if there is an interface to send it. */
    ghost predicate Drained(d: Device, m: seq<byte>, panicked: bool)
      reads this, registers, mem, virtQueues
      requires |d.registers| == 64 && TX_QUEUE < |d.queues|
    {
      var tx := d.queues[TX_QUEUE];
      && tx.base + QUEUE_END <= |m| && tx.last < TWO16
      && var avail, used := AvailIndex(m, tx.base), UsedIndex(m, tx.base);
         var ids := Slots(tx.last, Outstanding(tx.last, avail));
         var n := if d.iface then FirstShort(m, tx.base, ids, 0) else |ids|;
         && panicked == (n < |ids|)
         && Abstract() == Sent(d, avail)
         && AllFit(RecordWrites(tx.base, used, ids, n), |m|)
         && mem[..] == Apply(m, RecordWrites(tx.base, used, ids, n))
    }

    /** `handle_notify_output` and `send_available_packets`; the packet contents are left out. */
    method HandleNotifyOutput(queue: nat) returns (panicked: bool)
      requires Valid()
      requires Sends(Abstract(), queue) && TX_QUEUE < |virtQueues| ==> virtQueues[TX_QUEUE].InMemory()
      modifies registers, mem, virtQueues
      ensures Valid()
      ensures !Sends(old(Abstract()), queue) ==>
        !panicked && Abstract() == old(Abstract()) && mem[..] == old(mem[..])
      ensures Sends(old(Abstract()), queue) && |virtQueues| <= TX_QUEUE ==>
        panicked && Abstract() == old(Abstract()) && mem[..] == old(mem[..])
      ensures Sends(old(Abstract()), queue) && TX_QUEUE < |virtQueues| ==>
        Drained(old(Abstract()), old(mem[..]), panicked)
    {
      hide And, Or, Drained;
      if queue == 1 && And(registers[STATUS_REGISTER], DRIVER_OK) == DRIVER_OK {
        if |virtQueues| <= TX_QUEUE {
          return true;
        }
        panicked := SendAvailablePackets();
        return;
      }
      return false;
    }

    method SendAvailablePackets() returns (panicked: bool)
      requires Valid() && TX_QUEUE < |virtQueues| && virtQueues[TX_QUEUE].InMemory()
      modifies registers, mem, virtQueues[TX_QUEUE]
      ensures Valid()
      ensures Drained(old(Abstract()), old(mem[..]), panicked)
    {
      hide Or, Apply, UsedWrites, AvailIndex, UsedIndex, Outstanding, RecordWrites, DescriptorLen, FirstShort, Slots,
        WithBit, AllFit;
      var tx := virtQueues[TX_QUEUE];
      ghost var m, used, last := mem[..], UsedIndex(mem[..], tx.base), tx.lastSeenAvailable;
      ghost var avail, status := AvailIndex(mem[..], tx.base), registers[STATUS_REGISTER];
      IndexBound(m, tx.base);
      var sendIndices := tx.Drain();
      NothingRecorded(m, tx.base, used, sendIndices);
      OrTwice(status, NEEDS_RESET);
      ghost var n := if iface then FirstShort(m, tx.base, sendIndices, 0) else |sendIndices|;
      panicked := false;
      var k := 0;
      while k < |sendIndices|
        invariant Valid() && tx.lastSeenAvailable == avail && 0 <= k <= n
        invariant AllFit(RecordWrites(tx.base, used, sendIndices, k), |m|)
        invariant mem[..] == Apply(m, RecordWrites(tx.base, used, sendIndices, k))
        invariant UsedIndex(mem[..], tx.base) == (used + k) % TWO16
        invariant registers[..] ==
          old(registers[..])[STATUS_REGISTER := if !iface && k > 0 then WithBit(status, NEEDS_RESET) else status]
      {
        RecordKeepsDescriptors(m, tx.base, used, sendIndices, k, sendIndices[k]);
        if iface {
          if DescriptorLen(mem[..], tx.base, sendIndices[k]) < NET_HDR_SIZE {
            panicked := true;
            break;
          }
        } else {
          registers[STATUS_REGISTER] := WithBit(registers[STATUS_REGISTER], NEEDS_RESET);
        }
        RecordStep(m, tx.base, used, sendIndices, k);
        tx.AddUsed(sendIndices[k], 1);
        k := k + 1;
      }
      NothingOutstanding(last, avail);
      assert Views() == old(Views())[TX_QUEUE := QueueView(tx.base, avail)];
    }
  }

  lemma NothingOutstanding(last: nat, index: nat)
    requires last < TWO16 && index < TWO16
    ensures Outstanding(last, index) == 0 <==> last == index
  {
  }

  lemma OrTwice(s: byte, bit: byte)
    ensures WithBit(WithBit(s, bit), bit) == WithBit(s, bit)
  {
    hide Or;
    OrAssoc(s, bit, bit);
    OrSelf(bit);
  }

  lemma {:induction false} OrSelf(x: nat)
    ensures Or(x, x) == x
  {
    if x > 0 { OrSelf(x / 2); }
  }

  // ----- every reachable state -----

  const STATUSES: set<byte> := {0x40, 0, STAGE_ACKNOWLEDGE, STAGE_DRIVER, STAGE_FEATURES, STAGE_OK, 0x4F}

  /** The bits of the seven status values. */
  lemma StatusBits(s: byte)
    requires s in STATUSES
    ensures And(s, DRIVER_OK) == (if s == STAGE_OK || s == 0x4F then DRIVER_OK else 0)
    ensures And(s, FEATURES_OK) == (if s in {STAGE_FEATURES, STAGE_OK, 0x4F} then FEATURES_OK else 0)
    ensures And(s, NEEDS_RESET) == (if s == 0x40 || s == 0x4F then NEEDS_RESET else 0)
    ensures And(s, FAILED) == 0
    ensures s == STAGE_OK || s == 0x4F ==> WithBit(s, NEEDS_RESET) == 0x4F
  {
    hide And, Or, Pow2;
    SmallPowers();
    BitValue(s, 2);
    BitValue(s, 3);
    BitValue(s, 6);
    BitValue(s, 7);
    NeedsResetSet();
  }

  lemma SmallPowers()
    ensures Pow2(2) == 4 && Pow2(3) == 8 && Pow2(6) == 0x40 && Pow2(7) == 0x80
  {
  }

  lemma BitValue(x: nat, k: nat)
    ensures And(x, Pow2(k)) == if x / Pow2(k) % 2 == 1 then Pow2(k) else 0
  {
    hide And, Pow2, Shr, Low;
    AndBit(x, k);
    Values(x, k);
  }

  lemma NeedsResetSet()
    ensures Or(0x0F, 0x40) == 0x4F && Or(0x4F, 0x40) == 0x4F
  {
    hide Or, Low;
    Values(0x40, 6);
    OrDisjoint(0x40, 0x0F, 6);
    OrSwap(0x0F, 0x40);
    OrAssoc(0x0F, 0x40, 0x40);
    OrSelf(0x40);
  }

  ghost predicate Inv(d: Device)
  {
    && |d.registers| == 64 && d.Status() in STATUSES
    && And(d.features, HOST_FEATURES) == d.features
    && (d.Status() in {0x40, 0, STAGE_ACKNOWLEDGE} ==> d.features == 0)
    && (d.queues != [] ==> And(d.Status(), FEATURES_OK) != 0)
    && |d.queues| <= 0x1_0000 && d.selected < 0x1_0000
    && (d.iface ==> And(d.Status(), DRIVER_OK) != 0)
    && (d.Status() == STAGE_OK ==> d.iface)
  }

  /** Guest operations: 16-bit queue numbers, and raw configuration writes that miss the status byte. */
  ghost predicate Ordinary(op: Op)
  {
    && (op.QueueSelect? ==> op.queue < 0x1_0000)
    && (op.ConfigWrite? ==> op.address + |op.data| <= STATUS_REGISTER || STATUS_REGISTER < op.address)
  }

  lemma {:induction false} AndTwice(x: nat, mask: nat)
    ensures And(And(x, mask), mask) == And(x, mask)
  {
    if x > 0 && mask > 0 { AndTwice(x / 2, mask / 2); }
  }

  lemma StepKeepsInv(d: Device, op: Op)
    requires Inv(d) && Ordinary(op) && Step(d, op).Some?
    ensures Inv(Step(d, op).value)
  {
    hide And, Or;
    var e := Step(d, op).value;
    StatusBits(d.Status());
    StatusBits(STAGE_OK);
    match op {
      case StatusWrite(value, tap) => ZeroFeatures(); StatusBits(e.Status());
      case FeaturesWrite(features) => AndTwice(Or(d.features, features), HOST_FEATURES);
      case QueueSelect(queue) =>
      case PfnWrite(gpa) =>
      case Notify(queue, avail, short) =>
      case ConfigWrite(address, data) => assert e.Status() == d.Status();
    }
  }

  lemma ZeroFeatures()
    ensures And(0, HOST_FEATURES) == 0
  {
  }

  /** The states of a run; it ends early if an operation panics. */
  ghost function Run(d: Device, ops: seq<Op>): Option<Device>
    requires Inv(d) && forall k :: 0 <= k < |ops| ==> Ordinary(ops[k])
    ensures Run(d, ops).Some? ==> Inv(Run(d, ops).value)
  {
    if ops == [] then Some(d)
    else
      match Run(d, ops[..|ops| - 1])
      case None => None
      case Some(e) =>
        var r := Step(e, ops[|ops| - 1]);
        if r.Some? then (StepKeepsInv(e, ops[|ops| - 1]); r) else None
  }

  lemma NewIsInv()
    ensures Inv(New())
  {
  }

  /** In every reachable state: the status is one of seven values, the negotiated features are offered ones
      and none before DRIVER, queues exist only with FEATURES_OK and at most 65536 of them, and the link
      reads up exactly when the status byte is 0xF. */
  lemma ReachableStates(ops: seq<Op>)
    requires forall k :: 0 <= k < |ops| ==> Ordinary(ops[k])
    ensures Inv(New())
    ensures var r := Run(New(), ops);
      r.Some? ==> Inv(r.value) && (LinkStatus(r.value) == 1 <==> r.value.Status() == STAGE_OK)
  {
    hide And, Or, Run;
    NewIsInv();
    var r := Run(New(), ops);
    if r.Some? { StatusBits(r.value.Status()); }
  }

  // ----- from one state to the next -----

  predicate IsReset(op: Op) { op.StatusWrite? && op.value == 0 }

  /** What no operation but a reset changes. */
  lemma StepFreezes(d: Device, op: Op)
    requires Inv(d) && Ordinary(op) && !IsReset(op) && Step(d, op).Some?
    ensures var e := Step(d, op).value;
      && (And(d.Status(), FEATURES_OK) != 0 ==> e.features == d.features && And(e.Status(), FEATURES_OK) != 0)
      && (And(d.Status(), DRIVER_OK) != 0 ==>
            And(e.Status(), DRIVER_OK) != 0 && |e.queues| == |d.queues| && e.iface == d.iface)
      && |d.queues| <= |e.queues| <= |d.queues| + 1
      && (forall i :: 0 <= i < |d.queues| ==> e.queues[i].base == d.queues[i].base)
      && (|e.queues| > |d.queues| ==>
            op.PfnWrite? && d.selected == |d.queues| && e.queues[|d.queues|] == QueueView(op.gpa, 0))
  {
    hide And, Or;
    var e := Step(d, op).value;
    StepKeepsInv(d, op);
    StatusBits(d.Status());
    StatusBits(e.Status());
    StatusBits(STAGE_OK);
    if op.ConfigWrite? { assert e.Status() == d.Status(); }
  }

  ghost predicate NoReset(ops: seq<Op>) { forall k :: 0 <= k < |ops| ==> !IsReset(ops[k]) }

  /** Until the next reset: features are frozen once FEATURES_OK is set, the queue list is frozen once DRIVER_OK is
      set, and registered queues are never dropped or moved. */
  lemma {:induction false} FrozenUntilReset(d: Device, ops: seq<Op>)
    requires Inv(d) && NoReset(ops) && forall k :: 0 <= k < |ops| ==> Ordinary(ops[k])
    ensures Run(d, ops).Some? ==>
      var e := Run(d, ops).value;
      && (And(d.Status(), FEATURES_OK) != 0 ==> e.features == d.features && And(e.Status(), FEATURES_OK) != 0)
      && (And(d.Status(), DRIVER_OK) != 0 ==>
            And(e.Status(), DRIVER_OK) != 0 && |e.queues| == |d.queues| && e.iface == d.iface)
      && |d.queues| <= |e.queues|
      && forall i :: 0 <= i < |d.queues| ==> e.queues[i].base == d.queues[i].base
  {
    hide And, Or, Step, Inv;
    if ops != [] {
      var front := ops[..|ops| - 1];
      FrozenUntilReset(d, front);
      if Run(d, ops).Some? { StepFreezes(Run(d, front).value, ops[|ops| - 1]); }
    }
  }

  /** From DRIVER_OK until the next reset a notification of the transmit queue panics if and only if fewer than two
      queues were registered by then, or there is an interface and the notification finds a descriptor that is
      shorter than a packet header.  Once two queues are registered, at any stage, only the latter can panic. */
  lemma NotifyPanicsIff(d: Device, ops: seq<Op>, queue: nat, avail: nat, short: bool)
    requires Inv(d) && NoReset(ops) && forall k :: 0 <= k < |ops| ==> Ordinary(ops[k])
    requires Run(d, ops).Some?
    ensures var e := Run(d, ops).value;
      && (And(d.Status(), DRIVER_OK) != 0 ==>
            (Step(e, Notify(1, avail, short)).None? <==> |d.queues| < 2 || (d.iface && short)))
      && (|d.queues| >= 2 ==> (Step(e, Notify(queue, avail, short)).None? ==> e.iface && short))
  {
    hide And, Or, Run;
    FrozenUntilReset(d, ops);
    StatusBits(Run(d, ops).value.Status());
  }

  /** The four status writes of a driver that registers no queue. */
  function BareHandshake(mac: seq<byte>): seq<Op>
  {
    [ StatusWrite(STAGE_ACKNOWLEDGE, NoTap), StatusWrite(STAGE_DRIVER, NoTap),
      StatusWrite(STAGE_FEATURES, NoTap), StatusWrite(STAGE_OK, WithMac(mac)) ]
  }

  function HandshakeState(mac: seq<byte>): Device { New().WithStatus(STAGE_OK).(iface := true, mac := mac) }

  lemma BareHandshakeReaches(mac: seq<byte>)
    ensures Inv(New()) && Run(New(), BareHandshake(mac)) == Some(HandshakeState(mac))
  {
    hide And, Or;
    NewIsInv();
    var ops := BareHandshake(mac);
    assert ops[..4] == ops && ops[..4][..3] == ops[..3] && ops[..3][..2] == ops[..2] && ops[..2][..1] == ops[..1];
    assert ops[..1][..0] == [];
    var registers := InitialRegisters();
    assert Run(New(), ops[..1]) == Some(New().WithStatus(STAGE_ACKNOWLEDGE));
    assert registers[STATUS_REGISTER := 1][STATUS_REGISTER := 3] == registers[STATUS_REGISTER := 3];
    assert Run(New(), ops[..2]) == Some(New().WithStatus(STAGE_DRIVER));
    assert registers[STATUS_REGISTER := 3][STATUS_REGISTER := 11] == registers[STATUS_REGISTER := 11];
    assert Run(New(), ops[..3]) == Some(New().WithStatus(STAGE_FEATURES));
    assert registers[STATUS_REGISTER := 11][STATUS_REGISTER := 15] == registers[STATUS_REGISTER := 15];
  }

  /** The notification after such a handshake panics. */
  lemma NotifyWithoutQueuesPanics(mac: seq<byte>, avail: nat, short: bool)
    ensures Inv(New()) && Run(New(), BareHandshake(mac)).Some?
    ensures Run(New(), BareHandshake(mac) + [Notify(1, avail, short)]) == None
  {
    hide And, Or, Run;
    BareHandshakeReaches(mac);
    RunNext(BareHandshake(mac), Notify(1, avail, short));
    StatusBits(STAGE_OK);
  }

  lemma RunNext(ops: seq<Op>, op: Op)
    requires (forall k :: 0 <= k < |ops| ==> Ordinary(ops[k])) && Ordinary(op)
    ensures Inv(New())
    ensures Run(New(), ops + [op]) == match Run(New(), ops) case None => None case Some(d) => Step(d, op)
  {
    hide Inv, Step;
    NewIsInv();
    assert (ops + [op])[..|ops|] == ops;
  }

  /** A handshake that registers two queues on the way. */
  function FullHandshake(rx: nat, tx: nat, mac: seq<byte>): seq<Op>
  {
    [ StatusWrite(STAGE_ACKNOWLEDGE, NoTap), StatusWrite(STAGE_DRIVER, NoTap), StatusWrite(STAGE_FEATURES, NoTap),
      PfnWrite(rx), QueueSelect(1), PfnWrite(tx), StatusWrite(STAGE_OK, WithMac(mac)) ]
  }

  lemma FullHandshakeReaches(rx: nat, tx: nat, mac: seq<byte>)
    ensures Inv(New())
    ensures var d := Run(New(), FullHandshake(rx, tx, mac));
      d.Some? && d.value.Status() == STAGE_OK && d.value.iface && d.value.queues == [QueueView(rx, 0), QueueView(tx, 0)]
  {
    hide And, Or, Run;
    NewIsInv();
    StatusBits(STAGE_FEATURES);
    var ops := FullHandshake(rx, tx, mac);
    assert Run(New(), ops[..0]) == Some(New()) by { RunNothing(); }
    RunNext(ops[..0], ops[0]);
    RunNext(ops[..1], ops[1]);
    RunNext(ops[..2], ops[2]);
    RunNext(ops[..3], ops[3]);
    RunNext(ops[..4], ops[4]);
    RunNext(ops[..5], ops[5]);
    RunNext(ops[..6], ops[6]);
    Prefixes(ops);
  }

  lemma RunNothing()
    ensures Inv(New()) && Run(New(), []) == Some(New())
  {
    NewIsInv();
  }

  lemma Prefixes(ops: seq<Op>)
    ensures forall k :: 0 <= k < |ops| ==> ops[..k] + [ops[k]] == ops[..k + 1]
    ensures ops[..|ops|] == ops && ops[..0] == []
  {
  }

  /** With two queues and an interface, a descriptor shorter than a packet header still panics. */
  lemma ShortDescriptorPanics(rx: nat, tx: nat, mac: seq<byte>, avail: nat)
    ensures Inv(New()) && Run(New(), FullHandshake(rx, tx, mac)).Some?
    ensures Run(New(), FullHandshake(rx, tx, mac) + [Notify(1, avail, true)]) == None
    ensures Run(New(), FullHandshake(rx, tx, mac) + [Notify(1, avail, false)]).Some?
  {
    hide And, Or, Run;
    FullHandshakeReaches(rx, tx, mac);
    RunNext(FullHandshake(rx, tx, mac), Notify(1, avail, true));
    RunNext(FullHandshake(rx, tx, mac), Notify(1, avail, false));
    StatusBits(STAGE_OK);
  }

  // ----- the handshake as a trace -----

  /** The state before operation `k`. */
  ghost function Before(ops: seq<Op>, k: nat): (r: Option<Device>)
    requires k <= |ops| && forall j :: 0 <= j < |ops| ==> Ordinary(ops[j])
    ensures r.Some? ==> |r.value.registers| == 64 && Inv(r.value)
  {
    NewIsInv();
    Run(New(), ops[..k])
  }

  /** Operation `k` writes `value` while the status is `from`. */
  ghost predicate Accepts(ops: seq<Op>, k: nat, from: set<byte>, value: byte)
    requires forall j :: 0 <= j < |ops| ==> Ordinary(ops[j])
  {
    && k < |ops| && ops[k].StatusWrite? && ops[k].value == value
    && Before(ops, k).Some? && Before(ops, k).value.Status() in from
  }

  /** No reset from operation `k` on. */
  ghost predicate NoResetFrom(ops: seq<Op>, k: nat) { forall j :: k <= j < |ops| ==> !IsReset(ops[j]) }

  /** The accepted writes 1, 3, 0xB and 0xF, in this order and after the last reset, as far as stage `s` needs. */
  ghost predicate Staged(ops: seq<Op>, s: byte, i1: nat, i2: nat, i3: nat, i4: nat)
    requires forall j :: 0 <= j < |ops| ==> Ordinary(ops[j])
  {
    && (s in {STAGE_ACKNOWLEDGE, STAGE_DRIVER, STAGE_FEATURES, STAGE_OK, 0x4F} ==>
          Accepts(ops, i1, {0x40, 0}, STAGE_ACKNOWLEDGE) && NoResetFrom(ops, i1))
    && (s in {STAGE_DRIVER, STAGE_FEATURES, STAGE_OK, 0x4F} ==>
          i1 < i2 && Accepts(ops, i2, {STAGE_ACKNOWLEDGE}, STAGE_DRIVER))
    && (s in {STAGE_FEATURES, STAGE_OK, 0x4F} ==> i2 < i3 && Accepts(ops, i3, {STAGE_DRIVER}, STAGE_FEATURES))
    && (s in {STAGE_OK, 0x4F} ==> i3 < i4 && Accepts(ops, i4, {STAGE_FEATURES}, STAGE_OK))
  }

  lemma AcceptsExtends(ops: seq<Op>, op: Op, k: nat, from: set<byte>, value: byte)
    requires (forall j :: 0 <= j < |ops| ==> Ordinary(ops[j])) && Ordinary(op)
    requires Accepts(ops, k, from, value)
    ensures Accepts(ops + [op], k, from, value)
  {
    assert (ops + [op])[..k] == ops[..k];
  }

  lemma AcceptsLast(ops: seq<Op>, op: Op, from: set<byte>)
    requires (forall j :: 0 <= j < |ops| ==> Ordinary(ops[j])) && Ordinary(op) && op.StatusWrite?
    requires Before(ops, |ops|).Some? && Before(ops, |ops|).value.Status() in from
    ensures Accepts(ops + [op], |ops|, from, op.value)
  {
    assert (ops + [op])[..|ops|] == ops[..|ops|];
  }

  /** How one operation moves the status of a reachable device. */
  lemma StatusMoves(d: Device, op: Op)
    requires Inv(d) && Ordinary(op) && Step(d, op).Some?
    ensures var s, t := d.Status(), Step(d, op).value.Status();
      || t == s
      || (IsReset(op) && t == 0)
      || (op.StatusWrite? && s in {0x40, 0} && op.value == t == STAGE_ACKNOWLEDGE)
      || (op.StatusWrite? && s == STAGE_ACKNOWLEDGE && op.value == t == STAGE_DRIVER)
      || (op.StatusWrite? && s == STAGE_DRIVER && op.value == t == STAGE_FEATURES)
      || (op.StatusWrite? && s == STAGE_FEATURES && op.value == STAGE_OK && t in {STAGE_OK, 0x4F})
      || (!op.StatusWrite? && s == STAGE_OK && t == 0x4F)
    ensures IsReset(op) ==> Step(d, op).value.Status() == 0
  {
    hide And, Or;
    StatusBits(d.Status());
    StatusBits(STAGE_OK);
  }

  /** Any run that reaches DRIVER_OK contains, after its last reset, the accepted status writes 1, 3, 0xB, 0xF in
      order. */
  lemma {:induction false} HandshakeTrace(ops: seq<Op>) returns (i1: nat, i2: nat, i3: nat, i4: nat)
    requires forall j :: 0 <= j < |ops| ==> Ordinary(ops[j])
    requires Before(ops, |ops|).Some?
    ensures Staged(ops, Before(ops, |ops|).value.Status(), i1, i2, i3, i4)
    decreases |ops|
  {
    hide And, Or, Step, Inv;
    NewIsInv();
    assert ops[..|ops|] == ops;
    if ops == [] {
      i1, i2, i3, i4 := 0, 0, 0, 0;
      NewStatus();
    } else {
      var front, op := ops[..|ops| - 1], ops[|ops| - 1];
      assert ops == front + [op] && front[..|front|] == front;
      var d := Run(New(), front).value;
      i1, i2, i3, i4 := HandshakeTrace(front);
      StatusMoves(d, op);
      i1, i2, i3, i4 := ExtendTrace(front, op, i1, i2, i3, i4);
    }
  }

  lemma NewStatus()
    ensures New().Status() == 0x40
  {
  }

  lemma ExtendTrace(ops: seq<Op>, op: Op, i1: nat, i2: nat, i3: nat, i4: nat)
    returns (j1: nat, j2: nat, j3: nat, j4: nat)
    requires (forall j :: 0 <= j < |ops| ==> Ordinary(ops[j])) && Ordinary(op)
    requires Before(ops, |ops|).Some? && Before(ops + [op], |ops| + 1).Some?
    requires Staged(ops, Before(ops, |ops|).value.Status(), i1, i2, i3, i4)
    ensures Staged(ops + [op], Before(ops + [op], |ops| + 1).value.Status(), j1, j2, j3, j4)
  {
    hide And, Or, Step, Run, Accepts, Before, Inv;
    var all := ops + [op];
    var s, t := Before(ops, |ops|).value.Status(), Before(all, |ops| + 1).value.Status();
    LastMove(ops, op);
    j1, j2, j3, j4 := i1, i2, i3, i4;
    if s in {STAGE_ACKNOWLEDGE, STAGE_DRIVER, STAGE_FEATURES, STAGE_OK, 0x4F} {
      AcceptsExtends(ops, op, i1, {0x40, 0}, STAGE_ACKNOWLEDGE);
    }
    if s in {STAGE_DRIVER, STAGE_FEATURES, STAGE_OK, 0x4F} {
      AcceptsExtends(ops, op, i2, {STAGE_ACKNOWLEDGE}, STAGE_DRIVER);
    }
    if s in {STAGE_FEATURES, STAGE_OK, 0x4F} { AcceptsExtends(ops, op, i3, {STAGE_DRIVER}, STAGE_FEATURES); }
    if s in {STAGE_OK, 0x4F} { AcceptsExtends(ops, op, i4, {STAGE_FEATURES}, STAGE_OK); }
    if t == s || IsReset(op) || (t == 0x4F && s == STAGE_OK) {
    } else if t == STAGE_ACKNOWLEDGE {
      j1 := |ops|;
      AcceptsLast(ops, op, {0x40, 0});
    } else if t == STAGE_DRIVER {
      j2 := |ops|;
      AcceptsLast(ops, op, {STAGE_ACKNOWLEDGE});
      AcceptedIndex(ops, i1, {0x40, 0}, STAGE_ACKNOWLEDGE);
    } else if t == STAGE_FEATURES {
      j3 := |ops|;
      AcceptsLast(ops, op, {STAGE_DRIVER});
      AcceptedIndex(ops, i2, {STAGE_ACKNOWLEDGE}, STAGE_DRIVER);
    } else {
      j4 := |ops|;
      AcceptsLast(ops, op, {STAGE_FEATURES});
      AcceptedIndex(ops, i3, {STAGE_DRIVER}, STAGE_FEATURES);
    }
  }

  lemma AcceptedIndex(ops: seq<Op>, k: nat, from: set<byte>, value: byte)
    requires (forall j :: 0 <= j < |ops| ==> Ordinary(ops[j])) && Accepts(ops, k, from, value)
    ensures k < |ops|
  {
  }

  lemma LastMove(ops: seq<Op>, op: Op)
    requires (forall j :: 0 <= j < |ops| ==> Ordinary(ops[j])) && Ordinary(op)
    requires Before(ops, |ops|).Some? && Before(ops + [op], |ops| + 1).Some?
    ensures var s, t := Before(ops, |ops|).value.Status(), Before(ops + [op], |ops| + 1).value.Status();
      && (|| t == s
          || (IsReset(op) && t == 0)
          || (op.StatusWrite? && s in {0x40, 0} && op.value == t == STAGE_ACKNOWLEDGE)
          || (op.StatusWrite? && s == STAGE_ACKNOWLEDGE && op.value == t == STAGE_DRIVER)
          || (op.StatusWrite? && s == STAGE_DRIVER && op.value == t == STAGE_FEATURES)
          || (op.StatusWrite? && s == STAGE_FEATURES && op.value == STAGE_OK && t in {STAGE_OK, 0x4F})
          || (!op.StatusWrite? && s == STAGE_OK && t == 0x4F))
      && (IsReset(op) ==> t == 0)
  {
    hide And, Or, Step, Inv;
    var all := ops + [op];
    assert all[..|all|] == all && all[..|ops|] == ops && ops[..|ops|] == ops;
    StatusMoves(Before(ops, |ops|).value, op);
  }
}
