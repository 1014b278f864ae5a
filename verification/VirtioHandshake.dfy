/** What each operation of the network device does to the state a driver can observe (src/linux/virtio.rs), and a whole
    initialisation as a driver performs it (section 3.1.1 of Virtio 1.1).
 */
module VirtioHandshake {
  import opened Bits
  import opened GuestMemory
  import opened Options
  import opened Virtqueues
  import opened VirtioNet

  /** The identity of a new device in configuration space: vendor, device, class, base address and status; every
      other register and the hardware address are zero. */
  lemma NewIdentifies(i: nat)
    requires i < 64
    ensures |New().registers| == 64
    ensures New().registers[0] == 0xF4 && New().registers[1] == 0x1A && New().registers[3] == 0x10
    ensures New().registers[6] == 0x40 && New().registers[11] == 0x02 && New().registers[17] == 0xC0
    ensures i !in {0, 1, 3, 6, 11, 17} ==> New().registers[i] == 0
    ensures |New().mac| == 6 && forall j :: 0 <= j < 6 ==> New().mac[j] == 0
  {
  }

  // ----- features -----

  /** In the DRIVER stage a feature is negotiated afterwards if and only if it is offered (bits 5 and 16) and was
      negotiated before or is asked for now; in any other stage nothing changes. */
  lemma FeatureBits(d: Device, value: nat, k: nat)
    requires |d.registers| == 64
    ensures d.registers[6] == 3 ==>
      (Bit(FeaturesWritten(d, value).features, k) <==> k in {5, 16} && (Bit(d.features, k) || Bit(value, k)))
    ensures d.registers[6] != 3 ==> FeaturesWritten(d, value) == d
    ensures FeaturesWritten(d, value).(features := d.features) == d
  {
    hide And, Or, Bit;
    if d.registers[6] == 3 {
      AndBits(Or(d.features, value), HOST_FEATURES, k);
      OrBits(d.features, value, k);
      OfferedBits(k);
    }
  }

  lemma OfferedBits(k: nat)
    ensures Bit(HOST_FEATURES, k) <==> k in {5, 16}
  {
    hide Shr, Low, Pow2;
    Values(HOST_FEATURES, k);
    if k <= 17 {
      SmallBits();
      assert k in {0, 1, 2, 3, 4, 5, 6, 7, 8, 9, 10, 11, 12, 13, 14, 15, 16, 17};
    } else {
      SmallBits();
      Pow2Mono(17, k);
      DivModUnique(HOST_FEATURES, Pow2(k), 0, HOST_FEATURES);
    }
  }

  lemma SmallBits()
    ensures Pow2(0) == 1 && Pow2(1) == 2 && Pow2(2) == 4 && Pow2(3) == 8 && Pow2(4) == 16 && Pow2(5) == 32
    ensures Pow2(6) == 64 && Pow2(7) == 128 && Pow2(8) == 256 && Pow2(9) == 512 && Pow2(10) == 1024
    ensures Pow2(11) == 2048 && Pow2(12) == 4096 && Pow2(13) == 8192 && Pow2(14) == 0x4000 && Pow2(15) == 0x8000
    ensures Pow2(16) == 0x1_0000 && Pow2(17) == 0x2_0000
  {
  }

  // ----- status -----

  /** Only the status byte differs. */
  predicate OnlyStatus(d: Device, e: Device, status: byte)
    requires |d.registers| == 64
  {
    e == d.(registers := d.registers[6 := status])
  }

  /** A reset clears status, features, selection, queues and interface; the rest of configuration space and the
      address stay. */
  lemma ResetClears(d: Device, tap: Tap)
    requires |d.registers| == 64
    ensures StatusWritten(d, 0, tap) == Device(d.registers[6 := 0], 0, 0, [], false, d.mac)
  {
  }

  /** The first three stages of the handshake change nothing but the status byte. */
  lemma StageAccepted(d: Device, value: byte, tap: Tap)
    requires |d.registers| == 64 && (d.registers[6], value) in {(0x40, 1), (0, 1), (1, 3), (3, 0xB)}
    ensures OnlyStatus(d, StatusWritten(d, value, tap), value)
  {
  }

  /** The last stage brings up the interface: status 0xF with its address, or 0x4F without interface or address. */
  lemma LastStage(d: Device, tap: Tap)
    requires |d.registers| == 64 && d.registers[6] == 0xB
    ensures tap.NoTap? ==> OnlyStatus(d.(iface := false), StatusWritten(d, 0xF, tap), 0x4F)
    ensures tap.NoMac? ==> OnlyStatus(d.(iface := true), StatusWritten(d, 0xF, tap), 0x4F)
    ensures tap.WithMac? ==> OnlyStatus(d.(iface := true, mac := tap.mac), StatusWritten(d, 0xF, tap), 0xF)
  {
    hide Or;
    NeedsResetSet();
  }

  /** Every other status write is ignored. */
  lemma StatusRefused(d: Device, value: byte, tap: Tap)
    requires |d.registers| == 64 && value != 0
    requires (d.registers[6], value) !in {(0x40, 1), (0, 1), (1, 3), (3, 0xB), (0xB, 0xF)}
    ensures StatusWritten(d, value, tap) == d
  {
  }

  // ----- queues and notifications -----

  /** A queue is registered, with its counter at zero, if and only if the device is in status 0xB and the selected
      number is the next one. */
  lemma QueueRegistered(d: Device, gpa: nat)
    requires Inv(d)
    ensures d.registers[6] == 0xB && d.selected == |d.queues| ==>
      PfnWritten(d, gpa) == d.(queues := d.queues + [QueueView(gpa, 0)])
    ensures !(d.registers[6] == 0xB && d.selected == |d.queues|) ==> PfnWritten(d, gpa) == d
  {
    hide And;
    StatusBits(d.registers[6]);
  }

  /** A notification that sends moves the counter of queue 1 to the available index, and asks for a reset exactly if
      there is something to send and no interface. */
  lemma NotificationSends(d: Device, avail: nat)
    requires Inv(d) && |d.queues| >= 2
    ensures var e := Sent(d, avail);
      && e.queues == d.queues[1 := QueueView(d.queues[1].base, avail)]
      && e == d.(queues := e.queues, registers := e.registers)
      && (forall i :: 0 <= i < 64 && i != 6 ==> e.registers[i] == d.registers[i])
      && e.registers[6] ==
           if !d.iface && d.queues[1].last != avail then WithBit(d.registers[6], 0x40) else d.registers[6]
  {
  }

  /** Only queue 1 of a device that has reached DRIVER_OK is served. */
  lemma ServedIff(d: Device, queue: nat)
    requires Inv(d)
    ensures Sends(d, queue) <==> queue == 1 && d.registers[6] in {0xF, 0x4F}
  {
    hide And;
    StatusBits(d.registers[6]);
  }

  /** A raw write to configuration space changes exactly the bytes it covers, and panics if it runs past the end. */
  lemma ConfigWritten(d: Device, address: nat, data: seq<byte>)
    requires |d.registers| == 64
    ensures Step(d, ConfigWrite(address, data)).None? <==> data != [] && address + |data| > 64
    ensures Step(d, ConfigWrite(address, data)).Some? ==>
      var e := Step(d, ConfigWrite(address, data)).value;
      && |e.registers| == 64 && e == d.(registers := e.registers)
      && forall i :: 0 <= i < 64 ==>
           e.registers[i] == if address <= i < address + |data| then data[i - address] else d.registers[i]
  {
  }

  /** The link reads up exactly with an interface and without FAILED (bit 7) and NEEDS_RESET (bit 6). */
  lemma LinkReads(d: Device)
    requires |d.registers| == 64
    ensures LinkStatus(d) ==
      if d.iface && d.registers[6] / 0x80 % 2 == 0 && d.registers[6] / 0x40 % 2 == 0 then 1 else 0
  {
    hide And, Pow2;
    VirtioNet.SmallPowers();
    BitValue(d.registers[6], 6);
    BitValue(d.registers[6], 7);
  }

  // ----- a whole initialisation -----

  /** Acknowledge, driver, features, two queues, driver OK. */
  function Initialisation(features: nat, rx: nat, tx: nat, mac: seq<byte>): seq<Op>
  {
    [ StatusWrite(0, NoTap), StatusWrite(1, NoTap), StatusWrite(3, NoTap), FeaturesWrite(features),
      StatusWrite(0xB, NoTap), QueueSelect(0), PfnWrite(rx), QueueSelect(1), PfnWrite(tx),
      StatusWrite(0xF, WithMac(mac)) ]
  }

  /** From any reachable device a driver that initialises it as the standard asks ends with the offered ones of its
      features, both queues, the address, and the link up. */
  lemma InitialisationSucceeds(d: Device, features: nat, rx: nat, tx: nat, mac: seq<byte>)
    requires Inv(d)
    ensures var r := Run(d, Initialisation(features, rx, tx, mac));
      && r.Some? && r.value == Device(d.registers[6 := 0xF], And(features, HOST_FEATURES), 1,
                                      [QueueView(rx, 0), QueueView(tx, 0)], true, mac)
      && LinkStatus(r.value) == 1
  {
    hide And, Or, Run, Inv;
    InvRegisters(d);
    ReadyForQueues(d, features, rx, tx, mac);
    var ops := Initialisation(features, rx, tx, mac);
    var d5 := Device(d.registers[6 := 0xB], And(features, HOST_FEATURES), 0, [], false, d.mac);
    RunNext(d, ops[..5], ops[5]);
    RunNext(d, ops[..6], ops[6]);
    RunNext(d, ops[..7], ops[7]);
    RunNext(d, ops[..8], ops[8]);
    RunNext(d, ops[..9], ops[9]);
    Prefixes(ops);
    StatusBits(0xB);
    StatusBits(0xF);
    var registers := d.registers;
    assert registers[6 := 0xB][6 := 0xF] == registers[6 := 0xF];
  }

  lemma ReadyForQueues(d: Device, features: nat, rx: nat, tx: nat, mac: seq<byte>)
    requires Inv(d)
    ensures |d.registers| == 64
    ensures Run(d, Initialisation(features, rx, tx, mac)[..5]) ==
      Some(Device(d.registers[6 := 0xB], And(features, HOST_FEATURES), 0, [], false, d.mac))
  {
    hide And, Run, Inv;
    InvRegisters(d);
    var ops := Initialisation(features, rx, tx, mac);
    RunNothing(d);
    RunNext(d, ops[..0], ops[0]);
    RunNext(d, ops[..1], ops[1]);
    RunNext(d, ops[..2], ops[2]);
    RunNext(d, ops[..3], ops[3]);
    RunNext(d, ops[..4], ops[4]);
    Prefixes(ops);
    var registers := d.registers;
    assert registers[6 := 0][6 := 1] == registers[6 := 1] && registers[6 := 1][6 := 3] == registers[6 := 3];
    assert registers[6 := 3][6 := 0xB] == registers[6 := 0xB];
  }

  lemma InvRegisters(d: Device)
    requires Inv(d)
    ensures |d.registers| == 64
  {
  }

  lemma RunNothing(d: Device)
    requires Inv(d)
    ensures Run(d, []) == Some(d)
  {
  }

  lemma RunNext(d: Device, ops: seq<Op>, op: Op)
    requires Inv(d) && (forall k :: 0 <= k < |ops| ==> Ordinary(ops[k])) && Ordinary(op)
    ensures Run(d, ops + [op]) == match Run(d, ops) case None => None case Some(e) => Step(e, op)
  {
    hide Inv, Step;
    assert (ops + [op])[..|ops|] == ops;
  }
}
