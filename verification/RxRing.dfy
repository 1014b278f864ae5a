/** The receive path (the reader thread of src/linux/uhyve.rs): the host produces packets into
    the shared queue while the guest consumes them.

    Every load and store of shared memory is a step of its own, and steps of the two sides
    interleave in any order.  The host keeps the copy of `written` and decides on a copy of
    `read` that may be out of date.  The guest advances `read` only over published entries,
    seen through its own copy of `written`.
 */
module RxRing {
  import opened Bits
  import opened GuestMemory
  import opened SharedQueues

  datatype HostPc = LoadWritten | LoadRead | Receive | StoreLen | StoreWritten
  datatype GuestPc = Poll | LoadLen | CopyData | StoreRead

  /** `published`, `received`, `delivered` and `seen` are history: what was made visible, what the interface
      handed over, what the guest took, and how many entries the guest's copy of `written` stands for. */
  datatype State = State(
    read: nat, written: nat, slots: seq<Slot>,
    host: HostPc, hostWritten: nat, hostLen: nat,
    guest: GuestPc, guestLen: nat, guestCopy: seq<byte>,
    published: nat, received: seq<Packet>, delivered: seq<seq<byte>>, seen: nat)

  datatype Action = HostStep(packet: Packet) | GuestStep

  function Init(slots: seq<Slot>): State
  {
    State(0, 0, slots, LoadWritten, 0, 0, Poll, 0, [], 0, [], [], 0)
  }

  /** The next step of the reader thread; `packet` is what the interface delivers if it is asked. */
  function HostNext(s: State, packet: Packet): State
    requires ValidSlots(s.slots)
  {
    var idx := s.hostWritten % QUEUE_SIZE;
    match s.host
    case LoadWritten => s.(hostWritten := s.written, host := LoadRead)
    case LoadRead =>
      if Distance(s.hostWritten, s.read) < QUEUE_SIZE then s.(host := Receive) else s.(host := LoadWritten)
    case Receive =>
      s.(slots := s.slots[idx := s.slots[idx].Filled(packet)], hostLen := |packet|,
         received := s.received + [packet], host := StoreLen)
    case StoreLen => s.(slots := s.slots[idx := s.slots[idx].(len := s.hostLen)], host := StoreWritten)
    case StoreWritten => s.(written := (s.hostWritten + 1) % TWO64, published := s.published + 1, host := LoadWritten)
  }

  /** The next step of the consumer. */
  function GuestNext(s: State): State
    requires ValidSlots(s.slots)
  {
    var idx := s.read % QUEUE_SIZE;
    match s.guest
    case Poll => if s.written != s.read then s.(seen := s.published, guest := LoadLen) else s.(seen := s.published)
    case LoadLen => s.(guestLen := s.slots[idx].len, guest := CopyData)
    case CopyData =>
      var n := if s.guestLen <= SLOT_BYTES then s.guestLen else SLOT_BYTES;
      s.(guestCopy := s.slots[idx].data[..n], guest := StoreRead)
    case StoreRead =>
      // the copy of `written` taken at the poll may announce more entries: go on without polling again
      s.(read := (s.read + 1) % TWO64, delivered := s.delivered + [s.guestCopy],
         guest := if |s.delivered| + 1 < s.seen then LoadLen else Poll)
  }

  function Step(s: State, a: Action): State
    requires ValidSlots(s.slots)
  {
    match a case HostStep(packet) => HostNext(s, packet) case GuestStep => GuestNext(s)
  }

  // ----- the invariant -----

  /** Entries between the two counters show the packets that were received, in order. */
  ghost predicate UnreadIntact(s: State)
    requires |s.slots| == QUEUE_SIZE && s.published <= |s.received|
  {
    forall k :: |s.delivered| <= k < s.published ==> s.slots[k % QUEUE_SIZE].Holds(s.received[k])
  }

  ghost predicate Counters(s: State)
  {
    && ValidSlots(s.slots)
    && s.read == |s.delivered| % TWO64 && s.written == s.published % TWO64
    && |s.delivered| <= s.published <= |s.delivered| + QUEUE_SIZE
    && |s.received| == s.published + (if s.host in {StoreLen, StoreWritten} then 1 else 0)
  }

  ghost predicate HostInv(s: State)
    requires Counters(s)
  {
    && (s.host != LoadWritten ==> s.hostWritten == s.written)
    && (s.host in {Receive, StoreLen, StoreWritten} ==> s.published < |s.delivered| + QUEUE_SIZE)
    && (s.host in {StoreLen, StoreWritten} ==>
          s.hostLen == |s.received[s.published]|
          && s.slots[s.published % QUEUE_SIZE].Carries(s.received[s.published]))
    && (s.host == StoreWritten ==> s.slots[s.published % QUEUE_SIZE].len == s.hostLen)
  }

  ghost predicate GuestInv(s: State)
    requires Counters(s)
  {
    && s.seen <= s.published
    && (s.guest != Poll ==> |s.delivered| < s.seen)
    && (s.guest in {CopyData, StoreRead} ==> s.guestLen == |s.received[|s.delivered|]|)
    && (s.guest == StoreRead ==> s.guestCopy == s.received[|s.delivered|])
    && s.delivered <= s.received
  }

  ghost predicate Inv(s: State)
  {
    Counters(s) && UnreadIntact(s) && HostInv(s) && GuestInv(s)
  }

  lemma InitInv(slots: seq<Slot>)
    requires ValidSlots(slots)
    ensures Inv(Init(slots))
  {
  }

  /** The slot the host writes is not one that the guest has still to read. */
  lemma HostSlotIsFree(s: State, k: nat)
    requires Inv(s) && s.host in {Receive, StoreLen} && |s.delivered| <= k < s.published
    ensures s.hostWritten % QUEUE_SIZE == s.published % QUEUE_SIZE != k % QUEUE_SIZE
  {
    SlotOf(s.published);
    SlotsDiffer(s.published, k);
  }

  /** Writing the host's slot leaves the unread entries alone. */
  lemma HostWriteKeepsUnread(s: State, slot: Slot)
    requires Inv(s) && s.host in {Receive, StoreLen}
    ensures var idx := s.hostWritten % QUEUE_SIZE;
      forall k :: |s.delivered| <= k < s.published ==> s.slots[idx := slot][k % QUEUE_SIZE].Holds(s.received[k])
  {
    forall k | |s.delivered| <= k < s.published
      ensures s.slots[s.hostWritten % QUEUE_SIZE := slot][k % QUEUE_SIZE].Holds(s.received[k])
    {
      HostSlotIsFree(s, k);
    }
  }

  lemma HostKeepsInv(s: State, packet: Packet)
    requires Inv(s)
    ensures Inv(HostNext(s, packet))
  {
    SlotOf(s.published);
    TrueDistance(s.published, |s.delivered|);
    var t := HostNext(s, packet);
    var idx := s.hostWritten % QUEUE_SIZE;
    match s.host {
      case LoadWritten =>
      case LoadRead =>
      case Receive => HostWriteKeepsUnread(s, s.slots[idx].Filled(packet));
      case StoreLen => HostWriteKeepsUnread(s, s.slots[idx].(len := s.hostLen));
      case StoreWritten =>
    }
  }

  lemma GuestKeepsInv(s: State)
    requires Inv(s)
    ensures Inv(GuestNext(s))
  {
    SlotOf(|s.delivered|);
    TrueDistance(s.published, |s.delivered|);
    if s.guest != Poll { assert s.slots[|s.delivered| % QUEUE_SIZE].Holds(s.received[|s.delivered|]); }
  }

  ghost function Run(s: State, actions: seq<Action>): (r: State)
    requires Inv(s)
    ensures Inv(r)
  {
    if actions == [] then s
    else
      var t := Run(s, actions[..|actions| - 1]);
      match actions[|actions| - 1] {
        case HostStep(packet) => HostKeepsInv(t, packet); HostNext(t, packet)
        case GuestStep => GuestKeepsInv(t); GuestNext(t)
      }
  }

  /** Under every interleaving: `read <= written <= read + 8` (as counts), the packets delivered are an in-order
      prefix of those received, every unread entry is intact, and the host never writes an unread slot. */
  lemma ReceiveSafety(slots: seq<Slot>, actions: seq<Action>)
    requires ValidSlots(slots)
    ensures Inv(Init(slots))
    ensures var s := Run(Init(slots), actions);
      && |s.delivered| <= s.published <= |s.delivered| + QUEUE_SIZE
      && Distance(s.written, s.read) == s.published - |s.delivered|
      && s.delivered <= s.received
      && UnreadIntact(s)
      && (s.host in {Receive, StoreLen} ==>
            forall k :: |s.delivered| <= k < s.published ==> k % QUEUE_SIZE != s.hostWritten % QUEUE_SIZE)
  {
    InitInv(slots);
    var s := Run(Init(slots), actions);
    TrueDistance(s.published, |s.delivered|);
    if s.host in {Receive, StoreLen} {
      forall k | |s.delivered| <= k < s.published ensures k % QUEUE_SIZE != s.hostWritten % QUEUE_SIZE {
        HostSlotIsFree(s, k);
      }
    }
  }

  /** A consumer that runs alone takes everything that has been published. */
  lemma NothingIsLost(s: State)
    requires Inv(s) && s.guest == Poll && s.written == s.read
    ensures s.delivered == s.received[..s.published]
  {
    TrueDistance(s.published, |s.delivered|);
  }

  // ----- progress of the reader thread -----

  /** In every reachable state in which the reader decides: it receives if and only if fewer than eight packets are
      unread. */
  lemma ReceivesIff(slots: seq<Slot>, actions: seq<Action>, packet: Packet)
    requires ValidSlots(slots)
    ensures Inv(Init(slots))
    ensures var s := Run(Init(slots), actions);
      s.host == LoadRead ==> (HostNext(s, packet).host == Receive <==> s.published - |s.delivered| < 8)
  {
    InitInv(slots);
    var s := Run(Init(slots), actions);
    DecidesRight(s, packet);
  }

  lemma DecidesRight(s: State, packet: Packet)
    requires Inv(s)
    ensures s.host == LoadRead ==> (HostNext(s, packet).host == Receive <==> s.published - |s.delivered| < 8)
  {
    TrueDistance(s.published, |s.delivered|);
  }

  lemma RunNext(s: State, actions: seq<Action>, packet: Packet)
    requires Inv(s)
    ensures ValidSlots(Run(s, actions).slots)
    ensures Run(s, actions + [HostStep(packet)]) == HostNext(Run(s, actions), packet)
  {
    InvSlots(Run(s, actions));
    hide Inv, HostNext, ValidSlots;
    assert (actions + [HostStep(packet)])[..|actions|] == actions;
  }

  lemma InvSlots(s: State)
    requires Inv(s)
    ensures ValidSlots(s.slots)
  {
  }

  /** One pass of the reader, with one packet waiting at the interface. */
  function Pass(packet: Packet): seq<Action>
  {
    var a := HostStep(packet);
    [a] + [a] + [a] + [a] + [a]
  }

  /** While there is room, the five steps of a pass receive and publish exactly that packet. */
  lemma PassPublishes(s: State, packet: Packet)
    requires Inv(s) && s.host == LoadWritten && s.published - |s.delivered| < 8
    ensures var t := Run(s, Pass(packet));
      && Inv(t) && t.host == LoadWritten && t.published == s.published + 1 && t.delivered == s.delivered
      && t.received == s.received + [packet]
  {
    hide Inv, Run;
    var a := HostStep(packet);
    RunNothing(s);
    assert [] + [a] == [a];
    RunNext(s, [], packet);
    RunNext(s, [a], packet);
    RunNext(s, [a] + [a], packet);
    RunNext(s, [a] + [a] + [a], packet);
    RunNext(s, [a] + [a] + [a] + [a], packet);
    DecidesRight(Run(s, [a]), packet);
  }

  lemma RunNothing(s: State)
    requires Inv(s)
    ensures Run(s, []) == s
  {
  }

  lemma {:induction false} RunConcat(s: State, first: seq<Action>, second: seq<Action>)
    requires Inv(s)
    ensures Run(s, first + second) == Run(Run(s, first), second)
    decreases |second|
  {
    hide Inv, HostNext, GuestNext;
    var all := first + second;
    if second == [] {
      assert all == first;
    } else {
      assert all[..|all| - 1] == first + second[..|second| - 1];
      RunConcat(s, first, second[..|second| - 1]);
    }
  }

  /** The reader alone fills the queue: from the beginning, any packets up to eight are received and published in turn,
      and with eight it is full. */
  lemma {:induction false} Fills(slots: seq<Slot>, packets: seq<Packet>) returns (actions: seq<Action>)
    requires ValidSlots(slots) && |packets| <= 8
    ensures Inv(Init(slots))
    ensures var s := Run(Init(slots), actions);
      && s.host == LoadWritten && s.received == packets && s.published == |packets| && s.delivered == []
    decreases |packets|
  {
    hide Inv, Pass;
    InitInv(slots);
    if packets == [] {
      actions := [];
    } else {
      var front, packet := packets[..|packets| - 1], packets[|packets| - 1];
      var first := Fills(slots, front);
      PassPublishes(Run(Init(slots), first), packet);
      actions := first + Pass(packet);
      RunConcat(Init(slots), first, Pass(packet));
      assert packets == front + [packet];
    }
  }

  /** The consumer, once an entry is published, takes the oldest one in four steps. */
  lemma ConsumerTakes(s: State)
    requires Inv(s) && s.guest == Poll && |s.delivered| < s.published
    ensures var s1 := GuestNext(s); ValidSlots(s1.slots)
    ensures var s2 := GuestNext(GuestNext(s)); ValidSlots(s2.slots)
    ensures var s3 := GuestNext(GuestNext(GuestNext(s))); ValidSlots(s3.slots)
    ensures var t := GuestNext(GuestNext(GuestNext(GuestNext(s))));
      |s.delivered| < |s.received| && t.delivered == s.delivered + [s.received[|s.delivered|]]
  {
    GuestKeepsInv(s);
    var s1 := GuestNext(s);
    TrueDistance(s.published, |s.delivered|);
    GuestKeepsInv(s1);
    var s2 := GuestNext(s1);
    GuestKeepsInv(s2);
    var s3 := GuestNext(s2);
    GuestKeepsInv(s3);
  }
}
