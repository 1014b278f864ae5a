/** The packet queue in shared memory (src/shared_queue.rs): eight slots between two
    free-running 64-bit counters.
 */
module SharedQueues {
  import opened Bits
  import opened GuestMemory

  const QUEUE_SIZE: nat := 8
  /** UHYVE_NET_MTU + 34 */
  const SLOT_BYTES: nat := 1534

  type Packet = p: seq<byte> | |p| <= SLOT_BYTES witness []

  datatype Slot = Slot(len: nat, data: seq<byte>) {
    predicate Valid() { |data| == SLOT_BYTES }

    /** The slot shows exactly the packet `p`. */
    predicate Holds(p: seq<byte>) { Valid() && len == |p| <= SLOT_BYTES && data[..len] == p }

    /** The bytes of `p` are in place; the length may not be. */
    predicate Carries(p: seq<byte>) { Valid() && |p| <= SLOT_BYTES && data[..|p|] == p }

    /** Overwrites the beginning of the buffer. */
    function Filled(p: Packet): Slot
      requires Valid()
    {
      this.(data := p + data[|p|..])
    }
  }

  ghost predicate ValidSlots(slots: seq<Slot>)
  {
    |slots| == QUEUE_SIZE && forall k :: 0 <= k < QUEUE_SIZE ==> slots[k].Valid()
  }

  class SharedQueue {
    var read: nat
    var written: nat
    const inner: array<Slot>

    constructor (inner: array<Slot>)
      ensures this.inner == inner
    {
      this.inner := inner;
      read, written := 0, 0;
    }

    /** Both counters and every length become zero; the buffers keep their bytes. */
    method Init()
      modifies this, inner
      ensures read == 0 && written == 0
      ensures forall k :: 0 <= k < inner.Length ==> inner[k] == old(inner[k]).(len := 0)
    {
      read := 0;
      written := 0;
      for i := 0 to inner.Length
        invariant read == 0 && written == 0
        invariant forall k :: 0 <= k < inner.Length ==>
          inner[k] == if k < i then old(inner[k]).(len := 0) else old(inner[k])
      {
        inner[i] := inner[i].(len := 0);
      }
    }
  }

  // ----- counters -----

  /** `x - y` on 64-bit counters. */
  function Distance(x: nat, y: nat): nat { (x - y) % TWO64 }

  /** Counters at most eight apart: their wrapped difference is the true one. */
  lemma TrueDistance(x: nat, y: nat)
    requires y <= x <= y + QUEUE_SIZE
    ensures Distance(x % TWO64, y % TWO64) == x - y
    ensures x % TWO64 == y % TWO64 <==> x == y
  {
    var a, b := x / TWO64, y / TWO64;
    assert x % TWO64 == x - TWO64 * a && y % TWO64 == y - TWO64 * b;
    assert x % TWO64 - y % TWO64 == (x - y) + TWO64 * (b - a);
  }

  lemma SlotOf(x: nat)
    ensures x % TWO64 % QUEUE_SIZE == x % QUEUE_SIZE
    ensures (x % TWO64 + 1) % TWO64 == (x + 1) % TWO64
  {
  }

  /** Fewer than eight apart, different counters use different slots. */
  lemma SlotsDiffer(x: nat, y: nat)
    requires y < x < y + QUEUE_SIZE
    ensures x % QUEUE_SIZE != y % QUEUE_SIZE
  {
  }
}
