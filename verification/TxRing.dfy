/** The transmit path (the writer thread of src/linux/uhyve.rs and the NETWRITE port of
    src/linux/vcpu.rs): the guest produces packets and notifies the host once per packet;
    the notification passes a token through a channel of capacity one, and the writer thread
    sends one packet for a token.

    Loads and stores of the two sides are separate steps that interleave in any order.
 */
module TxRing {
  import opened Bits
  import opened GuestMemory
  import opened SharedQueues

  const CHANNEL_CAPACITY: nat := 1

  datatype HostPc = RecvToken | LoadWritten | LoadRead | LoadLen | Send | StoreRead
  datatype GuestPc = CheckSpace | Fill | StoreLen | StoreWritten

  /** `pending` counts packets whose NETWRITE has not been completed, `channel` the tokens in the channel.
      `packets`, `sent`, `consumed`, `seen`, `notified` and `received` are history: what was published, what went
      to the interface, how often `read` was advanced, what the host's copy of `written` stands for, how many
      notifications were completed, and how many tokens the writer has received. */
  datatype State = State(
    read: nat, written: nat, slots: seq<Slot>, pending: nat, channel: nat,
    host: HostPc, hostWritten: nat, hostRead: nat, hostLen: nat,
    guest: GuestPc, packet: Packet,
    packets: seq<Packet>, sent: seq<seq<byte>>, consumed: nat, seen: nat, notified: nat, received: nat)

  datatype Action = HostStep | GuestStep(next: Packet) | NetWrite

  function Init(slots: seq<Slot>): State
  {
    State(0, 0, slots, 0, 0, RecvToken, 0, 0, 0, CheckSpace, [], [], [], 0, 0, 0, 0)
  }

  /** The next step of the writer thread; without a token it waits. */
  function HostNext(s: State): State
    requires ValidSlots(s.slots)
  {
    var idx := s.hostRead % QUEUE_SIZE;
    match s.host
    case RecvToken =>
      if s.channel > 0 then s.(channel := s.channel - 1, received := s.received + 1, host := LoadWritten) else s
    case LoadWritten => s.(hostWritten := s.written, seen := |s.packets|, host := LoadRead)
    case LoadRead =>
      if Distance(s.hostWritten, s.read) > 0 then s.(hostRead := s.read, host := LoadLen)
      else s.(hostRead := s.read, host := RecvToken)
    case LoadLen => s.(hostLen := s.slots[idx].len, host := Send)
    case Send =>
      var n := if s.hostLen <= SLOT_BYTES then s.hostLen else SLOT_BYTES;
      s.(sent := s.sent + [s.slots[idx].data[..n]], host := StoreRead)
    case StoreRead => s.(read := (s.hostRead + 1) % TWO64, consumed := s.consumed + 1, host := RecvToken)
  }

  /** The producer: it publishes only into a queue it has seen not to be full. */
  function GuestNext(s: State, next: Packet): State
    requires ValidSlots(s.slots)
  {
    var idx := s.written % QUEUE_SIZE;
    match s.guest
    case CheckSpace => if Distance(s.written, s.read) < QUEUE_SIZE then s.(packet := next, guest := Fill) else s
    case Fill => s.(slots := s.slots[idx := s.slots[idx].Filled(s.packet)], guest := StoreLen)
    case StoreLen => s.(slots := s.slots[idx := s.slots[idx].(len := |s.packet|)], guest := StoreWritten)
    case StoreWritten =>
      s.(written := (s.written + 1) % TWO64, packets := s.packets + [s.packet], pending := s.pending + 1,
         guest := CheckSpace)
  }

  /** A NETWRITE exit: the send blocks while the channel is full. */
  function NetWriteNext(s: State): State
  {
    if s.pending > 0 && s.channel < CHANNEL_CAPACITY
    then s.(pending := s.pending - 1, channel := s.channel + 1, notified := s.notified + 1) else s
  }

  function Step(s: State, a: Action): State
    requires ValidSlots(s.slots)
  {
    match a case HostStep => HostNext(s) case GuestStep(next) => GuestNext(s, next) case NetWrite => NetWriteNext(s)
  }

  // ----- the invariant -----

  /** The token that the writer has taken and not yet turned into an advanced `read`. */
  function InHand(s: State): nat { if s.host == RecvToken then 0 else 1 }

  ghost predicate Counters(s: State)
  {
    && ValidSlots(s.slots)
    && s.read == s.consumed % TWO64 && s.written == |s.packets| % TWO64
    && s.consumed <= |s.packets| <= s.consumed + QUEUE_SIZE
    && s.channel <= CHANNEL_CAPACITY
    && |s.sent| == s.consumed + (if s.host == StoreRead then 1 else 0)
  }

  /** Unsent packets are as many as outstanding tokens. */
  ghost predicate Conserved(s: State) { |s.packets| - s.consumed == s.pending + s.channel + InHand(s) }

  /** The token in the writer's hand for which nothing has been sent yet. */
  function Unspent(s: State): nat { if s.host in {LoadWritten, LoadRead, LoadLen, Send} then 1 else 0 }

  /** Every token that was received has sent one packet or is in the hand. */
  ghost predicate TokensCounted(s: State)
  {
    && s.notified == s.channel + s.received && |s.packets| == s.pending + s.notified
    && |s.sent| + Unspent(s) == s.received
  }

  ghost predicate UnsentIntact(s: State)
    requires |s.slots| == QUEUE_SIZE
  {
    forall k :: s.consumed <= k < |s.packets| ==> s.slots[k % QUEUE_SIZE].Holds(s.packets[k])
  }

  ghost predicate HostInv(s: State)
    requires Counters(s)
  {
    && (s.host in {LoadRead, LoadLen, Send, StoreRead} ==>
          s.hostWritten == s.seen % TWO64 && s.consumed < s.seen <= |s.packets|)
    && (s.host in {LoadLen, Send, StoreRead} ==> s.hostRead == s.read)
    && (s.host in {Send, StoreRead} ==> s.consumed < |s.packets| && s.hostLen == |s.packets[s.consumed]|)
    && s.sent <= s.packets
  }

  ghost predicate GuestInv(s: State)
    requires Counters(s)
  {
    && (s.guest != CheckSpace ==> |s.packets| < s.consumed + QUEUE_SIZE)
    && (s.guest in {StoreLen, StoreWritten} ==> s.slots[|s.packets| % QUEUE_SIZE].Carries(s.packet))
    && (s.guest == StoreWritten ==> s.slots[|s.packets| % QUEUE_SIZE].len == |s.packet|)
  }

  ghost predicate Inv(s: State)
  {
    Counters(s) && Conserved(s) && TokensCounted(s) && UnsentIntact(s) && HostInv(s) && GuestInv(s)
  }

  lemma InitInv(slots: seq<Slot>)
    requires ValidSlots(slots)
    ensures Inv(Init(slots))
  {
  }

  lemma GuestWriteKeepsUnsent(s: State, slot: Slot)
    requires Inv(s) && s.guest in {Fill, StoreLen}
    ensures var idx := s.written % QUEUE_SIZE;
      && idx == |s.packets| % QUEUE_SIZE
      && forall k :: s.consumed <= k < |s.packets| ==> s.slots[idx := slot][k % QUEUE_SIZE].Holds(s.packets[k])
  {
    SlotOf(|s.packets|);
    forall k | s.consumed <= k < |s.packets|
      ensures s.slots[s.written % QUEUE_SIZE := slot][k % QUEUE_SIZE].Holds(s.packets[k])
    {
      SlotsDiffer(|s.packets|, k);
    }
  }

  lemma GuestKeepsInv(s: State, next: Packet)
    requires Inv(s)
    ensures Inv(GuestNext(s, next))
  {
    SlotOf(|s.packets|);
    TrueDistance(|s.packets|, s.consumed);
    var idx := s.written % QUEUE_SIZE;
    match s.guest {
      case CheckSpace =>
      case Fill => GuestWriteKeepsUnsent(s, s.slots[idx].Filled(s.packet));
      case StoreLen => GuestWriteKeepsUnsent(s, s.slots[idx].(len := |s.packet|));
      case StoreWritten =>
    }
  }

  /** A writer that holds a token finds a packet: the token is never dropped. */
  lemma TokenFindsPacket(s: State)
    requires Inv(s) && s.host == LoadRead
    ensures Distance(s.hostWritten, s.read) == s.seen - s.consumed > 0
    ensures HostNext(s).host == LoadLen
  {
    TrueDistance(s.seen, s.consumed);
  }

  /** A token without a packet, which the notifications above never produce, sends nothing: the writer waits again. */
  lemma SpuriousTokenIgnored(s: State)
    requires ValidSlots(s.slots) && s.host == LoadRead && s.hostWritten == s.read < TWO64
    ensures var t := HostNext(s);
      t.host == RecvToken && t.sent == s.sent && t.read == s.read && t.channel == s.channel && t.consumed == s.consumed
  {
    assert Distance(s.hostWritten, s.read) == 0;
  }

  lemma HostKeepsInv(s: State)
    requires Inv(s)
    ensures Inv(HostNext(s))
  {
    SlotOf(s.consumed);
    if s.host == LoadRead { TokenFindsPacket(s); }
    if s.host in {LoadLen, Send, StoreRead} { assert s.slots[s.consumed % QUEUE_SIZE].Holds(s.packets[s.consumed]); }
  }

  ghost function Run(s: State, actions: seq<Action>): (r: State)
    requires Inv(s)
    ensures Inv(r)
  {
    if actions == [] then s
    else
      var t := Run(s, actions[..|actions| - 1]);
      match actions[|actions| - 1] {
        case HostStep => HostKeepsInv(t); HostNext(t)
        case GuestStep(next) => GuestKeepsInv(t, next); GuestNext(t, next)
        case NetWrite => NetWriteNext(t)
      }
  }

  /** In every reachable state the unsent packets equal the tokens that are not yet sent, in the channel or in the
      writer's hand; packets leave in order, and none is left behind when no token remains. */
  lemma TransmitConservation(slots: seq<Slot>, actions: seq<Action>)
    requires ValidSlots(slots)
    ensures Inv(Init(slots))
    ensures var s := Run(Init(slots), actions);
      && |s.packets| - s.consumed == s.pending + s.channel + InHand(s)
      && s.consumed <= |s.packets| <= s.consumed + QUEUE_SIZE && s.channel <= CHANNEL_CAPACITY
      && s.sent <= s.packets
      && (s.host == LoadRead ==> Distance(s.hostWritten, s.read) > 0)
      && (s.pending == 0 && s.channel == 0 && s.host == RecvToken ==> s.sent == s.packets)
  {
    InitInv(slots);
    var s := Run(Init(slots), actions);
    if s.host == LoadRead { TokenFindsPacket(s); }
  }

  /** One token sends exactly one packet, under every interleaving: whatever the guest does between the writer's
      steps, the packets sent are the oldest ones, one for each token received except one still in hand. */
  lemma OneTokenOnePacket(slots: seq<Slot>, actions: seq<Action>)
    requires ValidSlots(slots)
    ensures Inv(Init(slots))
    ensures var s := Run(Init(slots), actions);
      && |s.sent| == s.received - Unspent(s) && s.received - Unspent(s) <= |s.packets|
      && s.sent == s.packets[..s.received - Unspent(s)]
      && s.notified == s.channel + s.received && |s.packets| == s.pending + s.notified
      && (s.host == RecvToken ==> |s.sent| == s.received)
  {
    InitInv(slots);
    var s := Run(Init(slots), actions);
    assert s.sent <= s.packets;
  }

  // ----- progress -----

  lemma RunNext(s: State, actions: seq<Action>, a: Action)
    requires Inv(s)
    ensures ValidSlots(Run(s, actions).slots)
    ensures Run(s, actions + [a]) == Step(Run(s, actions), a)
  {
    InvSlots(Run(s, actions));
    hide Inv, HostNext, GuestNext, NetWriteNext, ValidSlots;
    assert (actions + [a])[..|actions|] == actions;
  }

  lemma InvSlots(s: State)
    requires Inv(s)
    ensures ValidSlots(s.slots)
  {
  }

  lemma RunNothing(s: State)
    requires Inv(s)
    ensures Run(s, []) == s
  {
  }

  /** In every reachable state with a packet to announce, the notification goes through if and only if the channel,
      which holds one token, is empty. */
  lemma NetWriteIff(slots: seq<Slot>, actions: seq<Action>)
    requires ValidSlots(slots)
    ensures Inv(Init(slots))
    ensures var s := Run(Init(slots), actions);
      && s.channel <= 1
      && (s.pending > 0 ==> (NetWriteNext(s).notified == s.notified + 1 <==> s.channel == 0))
  {
    InitInv(slots);
    var s := Run(Init(slots), actions);
    assert Inv(s);
  }

  /** The six steps of the writer from a token to the next wait. */
  function Pass(): seq<Action> { [HostStep] + [HostStep] + [HostStep] + [HostStep] + [HostStep] + [HostStep] }

  /** A writer that finds a token sends the oldest packet, and that one only. */
  lemma TokenIsSpent(s: State)
    requires Inv(s) && s.host == RecvToken && s.channel > 0
    ensures var t := Run(s, Pass());
      && t.host == RecvToken && t.channel == s.channel - 1 && t.consumed == s.consumed + 1 && t.packets == s.packets
      && s.consumed < |s.packets| && t.sent == s.sent + [s.packets[s.consumed]]
  {
    hide Inv, Run;
    RunNothing(s);
    assert [] + [HostStep] == [HostStep];
    RunNext(s, [], HostStep);
    RunNext(s, [HostStep], HostStep);
    var two := [HostStep] + [HostStep];
    RunNext(s, two, HostStep);
    TokenFindsPacket(Run(s, two));
    RunNext(s, two + [HostStep], HostStep);
    RunNext(s, two + [HostStep] + [HostStep], HostStep);
    RunNext(s, two + [HostStep] + [HostStep] + [HostStep], HostStep);
    SentInOrder(s);
    SentInOrder(Run(s, Pass()));
  }

  lemma SentInOrder(s: State)
    requires Inv(s)
    ensures s.sent <= s.packets && (s.host == RecvToken ==> |s.sent| == s.consumed)
  {
  }

  /** A producer that finds room publishes its packet in four steps. */
  lemma ProducerPublishes(s: State, p: Packet)
    requires Inv(s) && s.guest == CheckSpace && |s.packets| - s.consumed < 8
    ensures var g := GuestStep(p); var t := Run(s, [g] + [g] + [g] + [g]);
      && t.guest == CheckSpace && t.packets == s.packets + [p] && t.pending == s.pending + 1
      && t.host == s.host && t.channel == s.channel && t.sent == s.sent
  {
    hide Inv, Run;
    var g := GuestStep(p);
    RunNothing(s);
    assert [] + [g] == [g];
    RunNext(s, [], g);
    RunNext(s, [g], g);
    RunNext(s, [g] + [g], g);
    RunNext(s, [g] + [g] + [g], g);
    Room(s);
  }

  lemma Room(s: State)
    requires Inv(s)
    ensures Distance(s.written, s.read) == |s.packets| - s.consumed
  {
    TrueDistance(|s.packets|, s.consumed);
  }
}
