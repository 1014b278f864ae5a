/** The split virtqueue of the network device (src/linux/virtqueue.rs): 256 descriptors, the
    available ring behind them, and the used ring on the next page boundary
    (section 2.6.2 of Virtio 1.1).  Ring indices are free-running 16-bit counters.
 */
module Virtqueues {
  import opened Bits
  import opened GuestMemory
  import opened Options

  const QUEUE_LIMIT: nat := 256
  const TWO16: nat := 0x1_0000
  const DESCRIPTOR_SIZE: nat := 16
  const USED_ELEM_SIZE: nat := 8

  // ----- layout -----

  function Align(addr: nat, boundary: nat): nat
    requires 0 < boundary < TWO64 && addr + boundary <= TWO64
  {
    And(addr + boundary - 1, Not(boundary - 1))
  }

  function AvailableRingOffset(): nat { DESCRIPTOR_SIZE * QUEUE_LIMIT }

  function UsedRingOffset(): nat { Align(AvailableRingOffset() + 2 * (QUEUE_LIMIT + 3), 4096) }

  /** The offset of ring element `index`, computed on 16 bits. */
  function RingElemOffset(index: nat, elemSize: nat): nat { (4 + index * elemSize % TWO16) % TWO16 }

  const AVAILABLE: nat := 4096
  const AVAILABLE_END: nat := AVAILABLE + 4 + 2 * QUEUE_LIMIT + 2
  const USED: nat := 8192
  const QUEUE_END: nat := USED + 4 + USED_ELEM_SIZE * QUEUE_LIMIT

  /** For a power of two, `align` yields the least multiple that is not below its argument. */
  lemma AlignIsLeast(addr: nat, k: nat)
    requires k < 64 && addr + Pow2(k) <= TWO64
    ensures Pow2(k) < TWO64
    ensures var r := Align(addr, Pow2(k)); r % Pow2(k) == 0 && addr <= r < addr + Pow2(k)
  {
    hide And, Low, High, Shr;
    Powers();
    Pow2Mono(k, 63);
    var x := addr + Pow2(k) - 1;
    AndHighMask(x, k, 64);
    Values(x, k);
    LowOfHigh(x, k);
    Values(High(x, k), k);
  }

  /** The three parts are where the constants say, do not overlap, and no element offset wraps. */
  lemma Layout()
    ensures AvailableRingOffset() == AVAILABLE && UsedRingOffset() == USED
    ensures DESCRIPTOR_SIZE * QUEUE_LIMIT <= AVAILABLE < AVAILABLE_END <= USED < QUEUE_END
    ensures forall i :: 0 <= i < QUEUE_LIMIT ==>
      RingElemOffset(i, USED_ELEM_SIZE) == 4 + USED_ELEM_SIZE * i && RingElemOffset(i, 2) == 4 + 2 * i
  {
    hide And, Align, Pow2, RingElemOffset;
    Powers();
    AlignIsLeast(4614, 12);
    assert UsedRingOffset() == Align(4614, 4096);
    forall i | 0 <= i < QUEUE_LIMIT
      ensures RingElemOffset(i, USED_ELEM_SIZE) == 4 + USED_ELEM_SIZE * i && RingElemOffset(i, 2) == 4 + 2 * i
    {
      NoWrap(i);
    }
  }

  lemma NoWrap(i: nat)
    requires i < QUEUE_LIMIT
    ensures RingElemOffset(i, USED_ELEM_SIZE) == 4 + USED_ELEM_SIZE * i && RingElemOffset(i, 2) == 4 + 2 * i
  {
  }

  // ----- ring memory -----

  function Half(m: seq<byte>, a: nat): nat
    requires a + 2 <= |m|
  {
    m[a] as nat + 256 * (m[a + 1] as nat)
  }

  function AvailIndex(m: seq<byte>, base: nat): nat
    requires base + QUEUE_END <= |m|
  {
    Half(m, base + AVAILABLE + 2)
  }

  function UsedIndex(m: seq<byte>, base: nat): nat
    requires base + QUEUE_END <= |m|
  {
    Half(m, base + USED + 2)
  }

  function AvailEntry(m: seq<byte>, base: nat, i: nat): nat
    requires base + QUEUE_END <= |m| && i < QUEUE_LIMIT
  {
    Half(m, base + AVAILABLE + 4 + 2 * i)
  }

  function UsedElemAt(base: nat, i: nat): nat { base + USED + 4 + USED_ELEM_SIZE * i }

  /** Slots `start`, `start + 1`, ... as the iterator reduces them. */
  function Slots(start: nat, n: nat): (s: seq<nat>)
    ensures |s| == n && forall j :: 0 <= j < n ==> s[j] == (start + j) % QUEUE_LIMIT
  {
    seq(n, j requires 0 <= j < n => (start + j) % QUEUE_LIMIT)
  }

  /** How many entries are outstanding between two 16-bit counters. */
  function Outstanding(last: nat, index: nat): nat
    requires last < TWO16 && index < TWO16
  {
    (index - last) % TWO16
  }

  /** The writes of one `add_used`: element, then index. */
  function UsedWrites(base: nat, used: nat, id: nat, len: nat): seq<Write>
  {
    [ Write(UsedElemAt(base, used % QUEUE_LIMIT), Le(id, 4)),
      Write(UsedElemAt(base, used % QUEUE_LIMIT) + 4, Le(len, 4)),
      Write(base + USED + 2, Le((used + 1) % TWO16, 2)) ]
  }

  function RecordWrites(base: nat, used: nat, ids: seq<nat>, k: nat): seq<Write>
    requires k <= |ids|
  {
    if k == 0 then []
    else RecordWrites(base, used, ids, k - 1) + UsedWrites(base, (used + k - 1) % TWO16, ids[k - 1], 1)
  }

  lemma HalfOfLe(m: seq<byte>, a: nat, v: nat)
    requires a + 2 <= |m| && m[a..a + 2] == Le(v, 2) && v < TWO16
    ensures Half(m, a) == v
  {
    assert Le(v, 2) == [v % 256, v / 256 % 256];
    assert m[a] == m[a..a + 2][0] && m[a + 1] == m[a..a + 2][1];
  }

  lemma UsedWritesFit(base: nat, used: nat, id: nat, len: nat, n: nat)
    requires base + QUEUE_END <= n
    ensures AllFit(UsedWrites(base, used, id, len), n)
    ensures Avoids(UsedWrites(base, used, id, len), 0, base + USED)
    ensures Avoids(UsedWrites(base, used, id, len), base + QUEUE_END, n)
  {
    hide Le;
  }

  /** Any sequence of `add_used` calls stays inside the used ring. */
  lemma {:induction false} RecordStaysInUsedRing(base: nat, used: nat, ids: seq<nat>, k: nat, n: nat)
    requires base + QUEUE_END <= n && k <= |ids|
    ensures AllFit(RecordWrites(base, used, ids, k), n)
    ensures Avoids(RecordWrites(base, used, ids, k), 0, base + USED)
    ensures Avoids(RecordWrites(base, used, ids, k), base + QUEUE_END, n)
  {
    hide UsedWrites;
    if k > 0 {
      RecordStaysInUsedRing(base, used, ids, k - 1, n);
      UsedWritesFit(base, (used + k - 1) % TWO16, ids[k - 1], 1, n);
    }
  }

  lemma UsedIndexAfter(m: seq<byte>, base: nat, used: nat, id: nat, len: nat)
    requires base + QUEUE_END <= |m|
    ensures AllFit(UsedWrites(base, used, id, len), |m|)
    ensures UsedIndex(Apply(m, UsedWrites(base, used, id, len)), base) == (used + 1) % TWO16
  {
    hide Le, Apply, LastWrite;
    var ws := UsedWrites(base, used, id, len);
    UsedWritesFit(base, used, id, len, |m|);
    var r, a := Apply(m, ws), base + USED + 2;
    forall i | a <= i < a + 2 ensures r[i] == Le((used + 1) % TWO16, 2)[i - a] {
      SurvivingWrite(ws, 2, i);
      ApplyAt(m, ws, i);
    }
    assert r[a..a + 2] == Le((used + 1) % TWO16, 2);
    HalfOfLe(r, a, (used + 1) % TWO16);
  }

  // ----- the queue -----

  class Virtqueue {
    const mem: array<byte>
    const base: nat
    const queueSize: nat
    var lastSeenAvailable: nat

    ghost predicate Valid()
      reads this
    {
      queueSize == QUEUE_LIMIT && lastSeenAvailable < TWO16
    }

    /** The rings lie in guest memory; the constructor computes addresses without looking. */
    ghost predicate InMemory() { base + QUEUE_END <= mem.Length }

    constructor (mem: array<byte>, base: nat)
      ensures Valid() && this.mem == mem && this.base == base && lastSeenAvailable == 0
    {
      this.mem := mem;
      this.base := base;
      queueSize := QUEUE_LIMIT;
      lastSeenAvailable := 0;
    }

    /** `AvailIter::next`: it yields the reduced counter itself, not what the ring holds there. */
    method NextAvailable() returns (r: Option<nat>)
      requires Valid() && InMemory()
      modifies this
      ensures Valid()
      ensures old(lastSeenAvailable) == AvailIndex(mem[..], base) ==>
        r == None && lastSeenAvailable == old(lastSeenAvailable)
      ensures old(lastSeenAvailable) != AvailIndex(mem[..], base) ==>
        r == Some(old(lastSeenAvailable) % QUEUE_LIMIT) && lastSeenAvailable == (old(lastSeenAvailable) + 1) % TWO16
    {
      if lastSeenAvailable == AvailIndex(mem[..], base) {
        return None;
      }
      var index := lastSeenAvailable % queueSize;
      lastSeenAvailable := (lastSeenAvailable + 1) % TWO16;
      return Some(index);
    }

    /** All entries that are outstanding, as `send_available_packets` collects them. */
    method Drain() returns (indices: seq<nat>)
      requires Valid() && InMemory()
      modifies this
      ensures Valid() && lastSeenAvailable == AvailIndex(mem[..], base)
      ensures indices == Slots(old(lastSeenAvailable), Outstanding(old(lastSeenAvailable), AvailIndex(mem[..], base)))
    {
      hide AvailIndex, Outstanding, Slots;
      ghost var start := lastSeenAvailable;
      ghost var index := AvailIndex(mem[..], base);
      IndexBound(mem[..], base);
      indices := [];
      DrainStep(start, index, 0);
      var next := NextAvailable();
      while next.Some?
        invariant Valid() && index == AvailIndex(mem[..], base)
        invariant |indices| <= Outstanding(start, index)
        invariant next.Some? ==>
          && |indices| < Outstanding(start, index)
          && next == Some((start + |indices|) % QUEUE_LIMIT)
          && lastSeenAvailable == (start + |indices| + 1) % TWO16
        invariant next.None? ==> |indices| == Outstanding(start, index) && lastSeenAvailable == index
        invariant indices == Slots(start, |indices|)
        decreases Outstanding(start, index) - |indices|, next.Some?
      {
        SlotsAppend(start, |indices|);
        indices := indices + [next.value];
        DrainStep(start, index, |indices|);
        next := NextAvailable();
      }
    }

    method AddUsed(id: nat, len: nat)
      requires Valid() && InMemory()
      modifies mem
      ensures AllFit(UsedWrites(base, UsedIndex(old(mem[..]), base), id, len), mem.Length)
      ensures mem[..] == Apply(old(mem[..]), UsedWrites(base, UsedIndex(old(mem[..]), base), id, len))
    {
      hide Le, Apply, Store;
      ghost var before := mem[..];
      var used := UsedIndex(mem[..], base);
      Layout();
      var target := used % queueSize;
      var elem := base + UsedRingOffset() + RingElemOffset(target, USED_ELEM_SIZE);
      StoreBytes(mem, Write(elem, Le(id, 4)));
      StoreBytes(mem, Write(elem + 4, Le(len, 4)));
      IndexUntouched(before, base, target, id, len);
      // advance_index: the counter is read again before it is incremented
      var newValue := (UsedIndex(mem[..], base) + 1) % TWO16;
      StoreBytes(mem, Write(base + UsedRingOffset() + 2, Le(newValue, 2)));
      ThreeStores(before, Write(elem, Le(id, 4)), Write(elem + 4, Le(len, 4)), Write(base + USED + 2, Le(newValue, 2)));
    }
  }

  /** Recording one more descriptor extends the list of writes and advances the used index. */
  lemma RecordStep(m: seq<byte>, base: nat, used: nat, ids: seq<nat>, k: nat)
    requires base + QUEUE_END <= |m| && k < |ids| && used < TWO16
    requires AllFit(RecordWrites(base, used, ids, k), |m|)
    requires UsedIndex(Apply(m, RecordWrites(base, used, ids, k)), base) == (used + k) % TWO16
    ensures AllFit(UsedWrites(base, (used + k) % TWO16, ids[k], 1), |m|)
    ensures AllFit(RecordWrites(base, used, ids, k + 1), |m|)
    ensures Apply(m, RecordWrites(base, used, ids, k + 1)) ==
      Apply(Apply(m, RecordWrites(base, used, ids, k)), UsedWrites(base, (used + k) % TWO16, ids[k], 1))
    ensures UsedIndex(Apply(m, RecordWrites(base, used, ids, k + 1)), base) == (used + k + 1) % TWO16
  {
    hide Apply, UsedWrites;
    var before, one := RecordWrites(base, used, ids, k), UsedWrites(base, (used + k) % TWO16, ids[k], 1);
    UsedWritesFit(base, (used + k) % TWO16, ids[k], 1, |m|);
    FitConcat(before, one, |m|);
    ApplyConcat(m, before, one);
    UsedIndexAfter(Apply(m, before), base, (used + k) % TWO16, ids[k], 1);
    Successor(used + k);
  }

  lemma Reduced(x: nat)
    ensures x % TWO16 % QUEUE_LIMIT == x % QUEUE_LIMIT
  {
  }

  /** The counter meets the index exactly after the outstanding number of steps. */
  lemma Meet(start: nat, index: nat, n: nat)
    requires start < TWO16 && index < TWO16 && n <= Outstanding(start, index)
    ensures (start + n) % TWO16 == index <==> n == Outstanding(start, index)
  {
  }

  /** After `n` steps the counter is `start + n`, reduced; it has met the index exactly at the outstanding number. */
  lemma DrainStep(start: nat, index: nat, n: nat)
    requires start < TWO16 && index < TWO16 && n <= Outstanding(start, index)
    ensures (start + n) % TWO16 == index <==> n == Outstanding(start, index)
    ensures (start + n) % TWO16 % QUEUE_LIMIT == (start + n) % QUEUE_LIMIT
    ensures ((start + n) % TWO16 + 1) % TWO16 == (start + n + 1) % TWO16
    ensures n == 0 ==> (start + n) % TWO16 == start && Slots(start, 0) == []
  {
    hide Outstanding;
    Meet(start, index, n);
    Reduced(start + n);
    Successor(start + n);
  }

  lemma Successor(x: nat)
    ensures (x % TWO16 + 1) % TWO16 == (x + 1) % TWO16
  {
  }

  lemma SlotsAppend(start: nat, n: nat)
    ensures Slots(start, n + 1) == Slots(start, n) + [(start + n) % QUEUE_LIMIT]
  {
  }

  lemma IndexBound(m: seq<byte>, base: nat)
    requires base + QUEUE_END <= |m|
    ensures AvailIndex(m, base) < TWO16 && UsedIndex(m, base) < TWO16
  {
  }

  lemma IndexUntouched(m: seq<byte>, base: nat, i: nat, id: nat, len: nat)
    requires base + QUEUE_END <= |m| && i < QUEUE_LIMIT
    ensures var once := Store(m, Write(UsedElemAt(base, i), Le(id, 4)));
      UsedIndex(Store(once, Write(UsedElemAt(base, i) + 4, Le(len, 4))), base) == UsedIndex(m, base)
  {
    hide Le;
  }

  lemma NothingRecorded(m: seq<byte>, base: nat, used: nat, ids: seq<nat>)
    ensures RecordWrites(base, used, ids, 0) == [] && AllFit([], |m|) && Apply(m, []) == m
  {
  }

  // ----- properties of a drain -----

  /** Two consecutive drains continue one another, also across the 16-bit wrap-around. */
  lemma DrainsContinue(start: nat, n: nat, k: nat)
    ensures Slots(start, n) + Slots((start + n) % TWO16, k) == Slots(start, n + k)
  {
    var first, second, both := Slots(start, n), Slots((start + n) % TWO16, k), Slots(start, n + k);
    forall j | 0 <= j < k ensures second[j] == both[n + j] { Shifted(start + n, j); }
    assert first == both[..n] && second == both[n..];
  }

  lemma Shifted(x: nat, j: nat)
    ensures (x % TWO16 + j) % QUEUE_LIMIT == (x + j) % QUEUE_LIMIT
  {
    var q := x / TWO16;
    assert x + j == QUEUE_LIMIT * (256 * q) + (x % TWO16 + j);
  }

  /** No slot is yielded twice while at most 256 entries are outstanding, and some slot is otherwise. */
  lemma DistinctIffWithinQueue(start: nat, n: nat)
    ensures (forall i, j :: 0 <= i < j < n ==> Slots(start, n)[i] != Slots(start, n)[j]) <==> n <= QUEUE_LIMIT
  {
    if n > QUEUE_LIMIT {
      assert Slots(start, n)[0] == Slots(start, n)[QUEUE_LIMIT];
    } else {
      forall i, j | 0 <= i < j < n ensures Slots(start, n)[i] != Slots(start, n)[j] { Apart(start + i, j - i); }
    }
  }

  lemma Apart(x: nat, d: nat)
    requires 0 < d < QUEUE_LIMIT
    ensures x % QUEUE_LIMIT != (x + d) % QUEUE_LIMIT
  {
  }

  /** Descriptor indices that section 2.6.6 of Virtio 1.1 reads from the available ring. */
  function RingContents(m: seq<byte>, base: nat, start: nat, n: nat): (s: seq<nat>)
    requires base + QUEUE_END <= |m|
    ensures |s| == n && forall j :: 0 <= j < n ==> s[j] == AvailEntry(m, base, (start + j) % QUEUE_LIMIT)
  {
    seq<nat>(n, j requires 0 <= j < n => AvailEntry(m, base, (start + j) % QUEUE_LIMIT))
  }

  /** The iterator agrees with the standard exactly for drivers that keep descriptor i in slot i. */
  lemma AgreesWithRingIff(m: seq<byte>, base: nat, start: nat, n: nat)
    requires base + QUEUE_END <= |m|
    ensures Slots(start, n) == RingContents(m, base, start, n) <==>
      forall i :: 0 <= i < QUEUE_LIMIT && i in Slots(start, n) ==> AvailEntry(m, base, i) == i
  {
    var s, r := Slots(start, n), RingContents(m, base, start, n);
    if s == r {
      forall i | 0 <= i < QUEUE_LIMIT && i in s ensures AvailEntry(m, base, i) == i {
        var j :| 0 <= j < n && s[j] == i;
        assert r[j] == s[j];
      }
    } else {
      var j :| 0 <= j < n && s[j] != r[j];
      assert s[j] in s && AvailEntry(m, base, s[j]) != s[j];
    }
  }

  /** A ring whose slot 0 holds descriptor 5: the iterator yields 0. */
  lemma IteratorIgnoresRing()
    ensures var m: seq<byte> := seq(QUEUE_END, i => if i == AVAILABLE + 4 then 5 else 0);
      Slots(0, 1) == [0] && RingContents(m, 0, 0, 1) == [5]
  {
    var m: seq<byte> := seq(QUEUE_END, i => if i == AVAILABLE + 4 then 5 else 0);
    assert AvailEntry(m, 0, 0) == 5;
  }

  // ----- descriptors -----

  /** The size of the packet header in front of every packet (section 5.1.6 of Virtio 1.1, legacy interface). */
  const NET_HDR_SIZE: nat := 10

  /** The length field of descriptor `i`. */
  function DescriptorLen(m: seq<byte>, base: nat, i: nat): nat
    requires base + QUEUE_END <= |m| && i < QUEUE_LIMIT
  {
    var a := base + DESCRIPTOR_SIZE * i + 8;
    FromLe(m[a..a + 4])
  }

  /** Where the first descriptor that is too short for a header stands in the list; its length if there is none. */
  function FirstShort(m: seq<byte>, base: nat, ids: seq<nat>, k: nat): (n: nat)
    requires base + QUEUE_END <= |m| && k <= |ids| && forall j :: 0 <= j < |ids| ==> ids[j] < QUEUE_LIMIT
    ensures k <= n <= |ids|
    ensures forall j :: k <= j < n ==> DescriptorLen(m, base, ids[j]) >= NET_HDR_SIZE
    ensures n < |ids| ==> DescriptorLen(m, base, ids[n]) < NET_HDR_SIZE
    decreases |ids| - k
  {
    if k == |ids| || DescriptorLen(m, base, ids[k]) < NET_HDR_SIZE then k else FirstShort(m, base, ids, k + 1)
  }

  /** Recording in the used ring leaves every descriptor as it is. */
  lemma RecordKeepsDescriptors(m: seq<byte>, base: nat, used: nat, ids: seq<nat>, k: nat, i: nat)
    requires base + QUEUE_END <= |m| && k <= |ids| && i < QUEUE_LIMIT
    ensures AllFit(RecordWrites(base, used, ids, k), |m|)
    ensures DescriptorLen(Apply(m, RecordWrites(base, used, ids, k)), base, i) == DescriptorLen(m, base, i)
  {
    hide Apply, RecordWrites, AllFit, Avoids, FromLe;
    RecordStaysInUsedRing(base, used, ids, k, |m|);
    var ws, a := RecordWrites(base, used, ids, k), base + DESCRIPTOR_SIZE * i + 8;
    AvoidsPart(ws, 0, base + USED, a, a + 4);
    AvoidedRange(m, ws, a, a + 4);
  }

  lemma AvoidsPart(ws: seq<Write>, lo: nat, hi: nat, a: nat, b: nat)
    requires Avoids(ws, lo, hi) && lo <= a && b <= hi
    ensures Avoids(ws, a, b)
  {
  }

  // ----- the used ring after a drain -----

  lemma {:induction false} RecordedByte(base: nat, used: nat, ids: seq<nat>, k: nat, j: nat, i: nat)
    requires j < k <= |ids| && k - j <= QUEUE_LIMIT
    requires var a := UsedElemAt(base, (used + j) % TWO16 % QUEUE_LIMIT); a <= i < a + 8
    ensures var a := UsedElemAt(base, (used + j) % TWO16 % QUEUE_LIMIT);
      LastWrite(RecordWrites(base, used, ids, k), i) == Some((Le(ids[j], 4) + Le(1, 4))[i - a])
  {
    hide LastWrite, Le;
    var last := UsedWrites(base, (used + k - 1) % TWO16, ids[k - 1], 1);
    LastWriteConcat(RecordWrites(base, used, ids, k - 1), last, i);
    if j == k - 1 {
      ElementByte(base, (used + j) % TWO16, ids[j], i);
    } else {
      OtherElement(base, used, ids[k - 1], j, k - 1, i);
      RecordedByte(base, used, ids, k - 1, j, i);
    }
  }

  lemma ElementByte(base: nat, u: nat, id: nat, i: nat)
    requires var a := UsedElemAt(base, u % QUEUE_LIMIT); a <= i < a + 8
    ensures LastWrite(UsedWrites(base, u, id, 1), i) ==
      Some((Le(id, 4) + Le(1, 4))[i - UsedElemAt(base, u % QUEUE_LIMIT)])
  {
    hide Le;
    var ws := UsedWrites(base, u, id, 1);
    if i < ws[1].addr { SurvivingWrite(ws, 0, i); } else { SurvivingWrite(ws, 1, i); }
  }

  lemma OtherElement(base: nat, used: nat, id: nat, j: nat, k: nat, i: nat)
    requires j < k && k - j < QUEUE_LIMIT
    requires var a := UsedElemAt(base, (used + j) % TWO16 % QUEUE_LIMIT); a <= i < a + 8
    ensures LastWrite(UsedWrites(base, (used + k) % TWO16, id, 1), i) == None
  {
    hide Le;
    Reduced(used + j);
    Reduced(used + k);
    Apart(used + j, k - j);
    var ws := UsedWrites(base, (used + k) % TWO16, id, 1);
    var a := UsedElemAt(base, (used + j) % QUEUE_LIMIT);
    assert Avoids(ws, a, a + 8);
    AvoidedByte(ws, a, a + 8, i);
  }

  /** Element `j` of a drain of `n` is in the used ring afterwards, with length 1, unless 256 later
      ones have gone round the ring. */
  lemma DrainIsRecorded(m: seq<byte>, base: nat, used: nat, ids: seq<nat>, j: nat)
    requires base + QUEUE_END <= |m| && j < |ids| <= j + QUEUE_LIMIT
    ensures AllFit(RecordWrites(base, used, ids, |ids|), |m|)
    ensures var a := UsedElemAt(base, (used + j) % QUEUE_LIMIT);
      a + 8 <= |m| && Apply(m, RecordWrites(base, used, ids, |ids|))[a..a + 8] == Le(ids[j], 4) + Le(1, 4)
  {
    hide LastWrite, Le, Apply, RecordWrites;
    RecordStaysInUsedRing(base, used, ids, |ids|, |m|);
    var ws := RecordWrites(base, used, ids, |ids|);
    Reduced(used + j);
    var a, r := UsedElemAt(base, (used + j) % QUEUE_LIMIT), Apply(m, ws);
    forall i | a <= i < a + 8 ensures r[i] == (Le(ids[j], 4) + Le(1, 4))[i - a] {
      RecordedByte(base, used, ids, |ids|, j, i);
      ApplyAt(m, ws, i);
    }
  }

  /** The descriptor table, the available ring and all memory outside the queue stay as they were. */
  lemma DrainFrame(m: seq<byte>, base: nat, used: nat, ids: seq<nat>)
    requires base + QUEUE_END <= |m|
    ensures AllFit(RecordWrites(base, used, ids, |ids|), |m|)
    ensures var r := Apply(m, RecordWrites(base, used, ids, |ids|));
      r[..base + USED] == m[..base + USED] && r[base + QUEUE_END..] == m[base + QUEUE_END..]
  {
    hide Apply, RecordWrites, AllFit, Avoids;
    RecordStaysInUsedRing(base, used, ids, |ids|, |m|);
    var ws := RecordWrites(base, used, ids, |ids|);
    AvoidedRange(m, ws, 0, base + USED);
    AvoidedRange(m, ws, base + QUEUE_END, |m|);
    Ends(m, Apply(m, ws), base + USED, base + QUEUE_END);
  }

  lemma Ends(m: seq<byte>, r: seq<byte>, lo: nat, hi: nat)
    requires lo <= hi <= |m| == |r| && r[0..lo] == m[0..lo] && r[hi..|m|] == m[hi..|m|]
    ensures r[..lo] == m[..lo] && r[hi..] == m[hi..]
  {
    assert r[..lo] == r[0..lo] && m[..lo] == m[0..lo];
    assert r[hi..] == r[hi..|r|] && m[hi..] == m[hi..|m|];
  }

  // ----- whole runs -----

  /** Between notifies the guest changes memory, but not the used index. */
  datatype Event = GuestWrites(m: seq<byte>) | Notified

  datatype Queue = Queue(m: seq<byte>, last: nat, drained: seq<nat>)

  ghost predicate Good(q: Queue, base: nat)
  {
    && base + QUEUE_END <= |q.m| && q.last < TWO16
    && q.last == |q.drained| % TWO16 && UsedIndex(q.m, base) == q.last
    && q.drained == Slots(0, |q.drained|)
  }

  ghost predicate Allowed(q: Queue, base: nat, e: Event)
    requires base + QUEUE_END <= |q.m|
  {
    e.GuestWrites? ==> |e.m| == |q.m| && UsedIndex(e.m, base) == UsedIndex(q.m, base)
  }

  lemma {:induction false} UsedIndexAfterRecord(m: seq<byte>, base: nat, ids: seq<nat>, k: nat)
    requires base + QUEUE_END <= |m| && k <= |ids|
    ensures AllFit(RecordWrites(base, UsedIndex(m, base), ids, k), |m|)
    ensures UsedIndex(Apply(m, RecordWrites(base, UsedIndex(m, base), ids, k)), base)
      == (UsedIndex(m, base) + k) % TWO16
  {
    hide Apply, UsedWrites, UsedIndex, AllFit;
    IndexBound(m, base);
    var used := UsedIndex(m, base);
    RecordStaysInUsedRing(base, used, ids, k, |m|);
    if k == 0 {
      NothingRecorded(m, base, used, ids);
    } else {
      Successor(used + k - 1);
      UsedIndexAfterRecord(m, base, ids, k - 1);
      var now := Apply(m, RecordWrites(base, used, ids, k - 1));
      UsedIndexAfter(now, base, (used + k - 1) % TWO16, ids[k - 1], 1);
      ApplyConcat(m, RecordWrites(base, used, ids, k - 1), UsedWrites(base, (used + k - 1) % TWO16, ids[k - 1], 1));
    }
  }

  /** One event: a notify drains and records what is outstanding. */
  ghost function QueueStep(q: Queue, base: nat, e: Event): Queue
    requires base + QUEUE_END <= |q.m| && q.last < TWO16
  {
    match e
    case GuestWrites(m) => Queue(m, q.last, q.drained)
    case Notified =>
      IndexBound(q.m, base);
      var index := AvailIndex(q.m, base);
      var ids := Slots(q.last, Outstanding(q.last, index));
      RecordStaysInUsedRing(base, UsedIndex(q.m, base), ids, |ids|, |q.m|);
      Queue(Apply(q.m, RecordWrites(base, UsedIndex(q.m, base), ids, |ids|)), index, q.drained + ids)
  }

  lemma QueueStepIsGood(q: Queue, base: nat, e: Event)
    requires Good(q, base) && Allowed(q, base, e)
    ensures Good(QueueStep(q, base, e), base) && q.drained <= QueueStep(q, base, e).drained
  {
    hide Apply, RecordWrites, AvailIndex, UsedIndex, Outstanding, Slots;
    if e.Notified? {
      IndexBound(q.m, base);
      var index := AvailIndex(q.m, base);
      var n, total := Outstanding(q.last, index), |q.drained|;
      var ids := Slots(q.last, n);
      UsedIndexAfterRecord(q.m, base, ids, n);
      DrainsContinue(0, total, n);
      Meet(q.last, index, n);
      Wrapped(total, n);
    }
  }

  lemma Wrapped(x: nat, n: nat)
    ensures (x % TWO16 + n) % TWO16 == (x + n) % TWO16
  {
    var q := x / TWO16;
    assert x + n == TWO16 * q + (x % TWO16 + n);
  }

  ghost predicate AllowedRun(q: Queue, base: nat, es: seq<Event>)
    requires Good(q, base)
    decreases |es|
  {
    es == [] ||
    (Allowed(q, base, es[0]) && (QueueStepIsGood(q, base, es[0]); AllowedRun(QueueStep(q, base, es[0]), base, es[1..])))
  }

  ghost function QueueRun(q: Queue, base: nat, es: seq<Event>): Queue
    requires Good(q, base) && AllowedRun(q, base, es)
    decreases |es|
  {
    if es == [] then q
    else
      QueueStepIsGood(q, base, es[0]);
      QueueRun(QueueStep(q, base, es[0]), base, es[1..])
  }

  lemma {:induction false} RunIsGood(q: Queue, base: nat, es: seq<Event>)
    requires Good(q, base) && AllowedRun(q, base, es)
    ensures Good(QueueRun(q, base, es), base) && q.drained <= QueueRun(q, base, es).drained
    decreases |es|
  {
    hide QueueStep;
    if es != [] {
      QueueStepIsGood(q, base, es[0]);
      RunIsGood(QueueStep(q, base, es[0]), base, es[1..]);
    }
  }

  /** Over every run from a newly registered queue whose used index the guest has zeroed and then leaves alone:
      everything drained so far is one uninterrupted sequence of slots, and both counters equal its length. */
  lemma CountersAgree(m: seq<byte>, base: nat, es: seq<Event>)
    requires base + QUEUE_END <= |m| && UsedIndex(m, base) == 0
    requires AllowedRun(Queue(m, 0, []), base, es)
    ensures var q := QueueRun(Queue(m, 0, []), base, es);
      && base + QUEUE_END <= |q.m|
      && q.drained == Slots(0, |q.drained|)
      && q.last == UsedIndex(q.m, base) == |q.drained| % TWO16
  {
    hide QueueStep, UsedIndex, Slots;
    RunIsGood(Queue(m, 0, []), base, es);
  }
}
