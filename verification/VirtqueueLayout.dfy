/** Where the parts of a virtqueue lie in guest memory (section 2.6 of Virtio 1.1, legacy layout for 256 entries), and
    what the guest's writes to them do to the next drain.
 */
module VirtqueueLayout {
  import opened Bits
  import opened GuestMemory
  import opened Virtqueues

  /** The two counters, the length of a descriptor and an entry of the available ring, byte by byte. */
  lemma FieldsAt(m: seq<byte>, base: nat, i: nat)
    requires base + 10244 <= |m| && i < 256
    ensures QUEUE_END == 10244
    ensures AvailIndex(m, base) == m[base + 4098] as nat + 256 * (m[base + 4099] as nat)
    ensures UsedIndex(m, base) == m[base + 8194] as nat + 256 * (m[base + 8195] as nat)
    ensures AvailEntry(m, base, i) == m[base + 4100 + 2 * i] as nat + 256 * (m[base + 4101 + 2 * i] as nat)
    ensures DescriptorLen(m, base, i) == FromLe(m[base + 16 * i + 8..base + 16 * i + 12])
  {
    hide FromLe;
  }

  /** After the guest stores `v` in the index of the available ring, the next drain yields exactly the entries from
      the device's counter up to `v`, modulo 65536. */
  lemma GuestPublishes(m: seq<byte>, base: nat, last: nat, v: nat)
    requires base + 10244 <= |m| && last < 0x1_0000 && v < 0x1_0000
    ensures AvailIndex(Store(m, Write(base + 4098, Le(v, 2))), base) == v
    ensures var slots := Slots(last, Outstanding(last, v));
      |slots| == (v - last) % 0x1_0000 && forall j :: 0 <= j < |slots| ==> slots[j] == (last + j) % 256
  {
    hide Outstanding, Le, Store;
    var r := Store(m, Write(base + 4098, Le(v, 2)));
    assert r[base + 4098] == Le(v, 2)[0] && r[base + 4099] == Le(v, 2)[1];
    FieldsAt(r, base, 0);
    TwoBytes(v);
    OutstandingIs(last, v);
  }

  lemma TwoBytes(v: nat)
    requires v < 0x1_0000
    ensures Le(v, 2)[0] as nat + 256 * (Le(v, 2)[1] as nat) == v
  {
    assert Le(v, 2) == [v % 256, v / 256 % 256];
  }

  lemma OutstandingIs(last: nat, v: nat)
    requires last < 0x1_0000 && v < 0x1_0000
    ensures Outstanding(last, v) == (v - last) % 0x1_0000
  {
  }

  /** A guest write to any other byte, the flags of the ring included, changes nothing of what is drained. */
  lemma OtherWritesDoNotPublish(m: seq<byte>, base: nat, w: Write)
    requires base + 10244 <= |m| && w.End() <= |m| && !w.Covers(base + 4098) && !w.Covers(base + 4099)
    ensures AvailIndex(Store(m, w), base) == AvailIndex(m, base)
  {
    hide Store;
    FieldsAt(m, base, 0);
    FieldsAt(Store(m, w), base, 0);
  }

  /** After a drain the guest finds entry `j` in the used ring: the slot, then length 1, four bytes each, at the element
      that the used index named. */
  lemma UsedElementAt(m: seq<byte>, base: nat, ids: seq<nat>, j: nat)
    requires base + 10244 <= |m| && j < |ids| <= j + 256
    ensures var used := UsedIndex(m, base);
      AllFit(RecordWrites(base, used, ids, |ids|), |m|)
    ensures var r, a := Apply(m, RecordWrites(base, UsedIndex(m, base), ids, |ids|)),
        base + 8196 + 8 * ((UsedIndex(m, base) + j) % 256);
      a + 8 <= |r| && r[a..a + 4] == Le(ids[j], 4) && r[a + 4..a + 8] == Le(1, 4)
  {
    hide Apply, RecordWrites, Le, UsedIndex;
    DrainIsRecorded(m, base, UsedIndex(m, base), ids, j);
    var a := base + 8196 + 8 * ((UsedIndex(m, base) + j) % 256);
    var r := Apply(m, RecordWrites(base, UsedIndex(m, base), ids, |ids|));
    var both := Le(ids[j], 4) + Le(1, 4);
    assert r[a..a + 8] == both;
    assert r[a..a + 4] == r[a..a + 8][..4] && r[a + 4..a + 8] == r[a..a + 8][4..];
  }
}
