/** The link reading of the network device when the guest may also write the status byte through
    configuration space (`handle_write` of src/linux/virtio.rs).

    The device promises a link that reads up exactly when the handshake is complete.  A raw write
    to register 6 can break that at once or later; `Fits` says which ones do not.
 */
module VirtioLink {
  import opened Bits
  import opened GuestMemory
  import opened Options
  import opened VirtioNet

  /** The link reads up exactly when the status says that the handshake is complete. */
  predicate Exact(d: Device)
    requires |d.registers| == 64
  {
    LinkStatus(d) == 1 <==> d.Status() == STAGE_OK
  }

  /** A status byte that agrees with the presence of the interface, now and after any further operation. */
  predicate Fits(iface: bool, s: byte)
  {
    if iface then s == STAGE_OK || (s != NEEDS_RESET && (And(s, FAILED) != 0 || And(s, NEEDS_RESET) != 0))
    else s != STAGE_OK
  }

  predicate DeviceFits(d: Device) { |d.registers| == 64 && Fits(d.iface, d.Status()) }

  /** A configuration write that reaches the status byte. */
  predicate CoversStatus(op: Op)
  {
    op.ConfigWrite? && op.address <= STATUS_REGISTER < op.address + |op.data| <= 64
  }

  /** Any operation but a configuration write that puts a byte that does not fit into the status register. */
  predicate FittingOp(d: Device, op: Op)
  {
    CoversStatus(op) ==> Fits(d.iface, op.data[STATUS_REGISTER - op.address])
  }

  /** The state after a run; None if an operation panics. */
  ghost function After(d: Device, ops: seq<Op>): (r: Option<Device>)
    requires |d.registers| == 64
    ensures r.Some? ==> |r.value.registers| == 64
    decreases |ops|
  {
    if ops == [] then Some(d)
    else
      match Step(d, ops[0])
      case None => None
      case Some(e) => After(e, ops[1..])
  }

  ghost predicate FittingRun(d: Device, ops: seq<Op>)
    requires |d.registers| == 64
    decreases |ops|
  {
    ops == [] ||
    (FittingOp(d, ops[0]) && (Step(d, ops[0]).Some? ==> FittingRun(Step(d, ops[0]).value, ops[1..])))
  }

  /** The link is exact in every state of every continuation in which later raw writes fit as well. */
  ghost predicate AlwaysExact(d: Device)
    requires |d.registers| == 64
  {
    forall ops :: FittingRun(d, ops) && After(d, ops).Some? ==> Exact(After(d, ops).value)
  }

  lemma StageBits()
    ensures forall s: byte :: s in {0, STAGE_ACKNOWLEDGE, STAGE_DRIVER, STAGE_FEATURES, STAGE_OK} ==>
      And(s, FAILED) == 0 && And(s, NEEDS_RESET) == 0
    ensures WithBit(STAGE_OK, NEEDS_RESET) == 0x4F && And(0x4F, NEEDS_RESET) != 0
  {
    hide And, Or;
    forall s: byte | s in {0, STAGE_ACKNOWLEDGE, STAGE_DRIVER, STAGE_FEATURES, STAGE_OK}
      ensures And(s, FAILED) == 0 && And(s, NEEDS_RESET) == 0
    {
      StatusBits(s);
    }
    StatusBits(STAGE_OK);
    StatusBits(0x4F);
  }

  /** Every operation keeps the fit, whatever state it starts from. */
  lemma StepKeepsFit(d: Device, op: Op)
    requires DeviceFits(d) && FittingOp(d, op) && Step(d, op).Some?
    ensures DeviceFits(Step(d, op).value)
  {
    hide And, Or;
    StageBits();
  }

  lemma FitIsExact(d: Device)
    requires DeviceFits(d)
    ensures Exact(d)
  {
    hide And, Or;
    StageBits();
  }

  lemma {:induction false} RunIsExact(d: Device, ops: seq<Op>)
    requires DeviceFits(d) && FittingRun(d, ops) && After(d, ops).Some?
    ensures Exact(After(d, ops).value)
    decreases |ops|
  {
    hide Fits, Step, Exact;
    if ops == [] {
      FitIsExact(d);
    } else {
      StepKeepsFit(d, ops[0]);
      RunIsExact(Step(d, ops[0]).value, ops[1..]);
    }
  }

  /** A status byte that does not fit is wrong at once, except NEEDS_RESET with the interface present:
      then the next acknowledgement brings the link up in stage 1. */
  lemma MisfitBreaks(d: Device) returns (ops: seq<Op>)
    requires |d.registers| == 64 && !DeviceFits(d)
    ensures FittingRun(d, ops) && After(d, ops).Some? && !Exact(After(d, ops).value)
  {
    hide And, Or;
    StageBits();
    if d.iface && d.Status() == NEEDS_RESET {
      var op := StatusWrite(STAGE_ACKNOWLEDGE, NoTap);
      ops := [op];
      var e := Step(d, op).value;
      assert ops[1..] == [];
      assert e.Status() == STAGE_ACKNOWLEDGE && e.iface;
    } else {
      ops := [];
    }
  }

  /** From any state: the link is exact in every state of every continuation whose raw writes fit, if and only if
      the status byte fits now. */
  lemma AlwaysExactIff(d: Device)
    requires |d.registers| == 64
    ensures AlwaysExact(d) <==> Fits(d.iface, d.Status())
  {
    hide Fits, Step, Exact, FittingRun, After;
    if DeviceFits(d) {
      forall ops | FittingRun(d, ops) && After(d, ops).Some? ensures Exact(After(d, ops).value) { RunIsExact(d, ops); }
    } else {
      var ops := MisfitBreaks(d);
    }
  }

  /** A configuration write of any width over the status byte keeps the link exact, as long as later raw writes fit
      too, if and only if the byte it puts there fits the present interface. */
  lemma ConfigWriteKeepsLinkIff(d: Device, address: nat, data: seq<byte>)
    requires |d.registers| == 64 && CoversStatus(ConfigWrite(address, data))
    ensures Step(d, ConfigWrite(address, data)).Some? && |Step(d, ConfigWrite(address, data)).value.registers| == 64
    ensures AlwaysExact(Step(d, ConfigWrite(address, data)).value) <==> Fits(d.iface, data[STATUS_REGISTER - address])
  {
    hide AlwaysExact, Fits;
    AlwaysExactIff(Step(d, ConfigWrite(address, data)).value);
  }

  /** So the new device keeps it over all operations, as long as raw writes fit. */
  lemma NewIsAlwaysExact()
    ensures AlwaysExact(New())
  {
    hide AlwaysExact;
    AlwaysExactIff(New());
  }

  /** A raw write can claim a complete handshake while the link is down. */
  lemma RawStatusWriteBreaksLink()
    ensures After(New(), [ConfigWrite(STATUS_REGISTER, [STAGE_OK])]).Some?
    ensures !Exact(After(New(), [ConfigWrite(STATUS_REGISTER, [STAGE_OK])]).value)
  {
    hide And, Or;
    StageBits();
    var op := ConfigWrite(STATUS_REGISTER, [STAGE_OK]);
    var e := Step(New(), op).value;
    assert [op][1..] == [];
    assert e.Status() == STAGE_OK && !e.iface;
  }

  /** A raw write that is exact at once and breaks later: NEEDS_RESET, written four bytes wide over the device
      of a completed handshake, and then a new acknowledgement. */
  lemma RawResetBreaksLinkLater(mac: seq<byte>)
    ensures Inv(New()) && Run(New(), BareHandshake(mac)).Some?
    ensures var first, second := ConfigWrite(4, [0, 0, NEEDS_RESET, 0]), StatusWrite(STAGE_ACKNOWLEDGE, NoTap);
      var e := Step(Run(New(), BareHandshake(mac)).value, first);
      && e.Some? && |e.value.registers| == 64 && Exact(e.value)
      && Step(e.value, second).Some? && !Exact(Step(e.value, second).value)
  {
    hide And, Or, Run;
    BareHandshakeReaches(mac);
    StageBits();
    StatusBits(NEEDS_RESET);
  }
}
