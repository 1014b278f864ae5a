module Options {
  datatype Option<+T> = None | Some(value: T)
}

/** Guest memory as one array of bytes, and the writes the hypervisor makes to it.

    A component that fills guest memory is described by the list of writes it makes.
    `Apply` runs such a list; `LastWrite` says, for one address, which byte of the list
    survives.  The two agree on every address, and from that follow the framing and
    repetition facts the other modules use.
 */
module GuestMemory {
  import opened Bits
  import opened Literals
  import opened Options

  type byte = x: int | 0 <= x < 256

  /** The `n`-byte little-endian encoding of `v` (its low `8 * n` bits). */
  function Le(v: nat, n: nat): (r: seq<byte>)
    ensures |r| == n
  {
    if n == 0 then [] else [v % 256] + Le(v / 256, n - 1)
  }

  function FromLe(b: seq<byte>): nat
  {
    if b == [] then 0 else b[0] + 256 * FromLe(b[1..])
  }

  lemma {:induction false} LeRoundTrip(v: nat, n: nat)
    requires v < Pow2(8 * n)
    ensures FromLe(Le(v, n)) == v
  {
    if n > 0 {
      Pow2Add(8, 8 * (n - 1));
      assert Pow2(8) == 256;
      LeRoundTrip(v / 256, n - 1);
      assert Le(v, n)[1..] == Le(v / 256, n - 1);
    }
  }

  /** A value that is too large for its field is stored by its low bits. */
  lemma {:induction false} LeLow(v: nat, n: nat)
    ensures FromLe(Le(v, n)) == v % Pow2(8 * n)
  {
    if n > 0 {
      Pow2Add(8, 8 * (n - 1));
      assert Pow2(8) == 256;
      LeLow(v / 256, n - 1);
      assert Le(v, n)[1..] == Le(v / 256, n - 1);
      Joined(v, 256, Pow2(8 * (n - 1)));
    }
  }

  lemma {:induction false} FromLeBound(b: seq<byte>)
    ensures FromLe(b) < Pow2(8 * |b|)
  {
    if b != [] {
      Pow2Add(8, 8 * (|b| - 1));
      assert Pow2(8) == 256;
      FromLeBound(b[1..]);
    }
  }

  /** The 64-bit word at address `a`. */
  function Word(m: seq<byte>, a: nat): (r: nat)
    requires a + 8 <= |m|
    ensures r < TWO64
  {
    FromLeBound(m[a..a + 8]);
    Powers();
    FromLe(m[a..a + 8])
  }

  lemma {:induction false} FromLeInjective(a: seq<byte>, b: seq<byte>)
    requires |a| == |b| && FromLe(a) == FromLe(b)
    ensures a == b
  {
    if a != [] {
      FromLeInjective(a[1..], b[1..]);
      assert a == [a[0]] + a[1..] && b == [b[0]] + b[1..];
    }
  }

  /** Words are equal exactly when their bytes are. */
  lemma SameWord(m: seq<byte>, n: seq<byte>, a: nat)
    requires a + 8 <= |m| && a + 8 <= |n|
    ensures Word(m, a) == Word(n, a) <==> forall i :: a <= i < a + 8 ==> m[i] == n[i]
  {
    hide FromLe;
    var x, y := m[a..a + 8], n[a..a + 8];
    if FromLe(x) == FromLe(y) {
      FromLeInjective(x, y);
      forall i | a <= i < a + 8 ensures m[i] == n[i] { assert x[i - a] == y[i - a]; }
    } else {
      assert x != y;
    }
  }

  /** A word is `v` exactly when its bytes are the encoding of `v`. */
  lemma WordIs(m: seq<byte>, a: nat, v: nat)
    requires a + 8 <= |m| && v < TWO64
    ensures Word(m, a) == v <==> forall i :: a <= i < a + 8 ==> m[i] == Le(v, 8)[i - a]
  {
    hide FromLe, Le, Pow2;
    Powers();
    LeRoundTrip(v, 8);
    var x, y := m[a..a + 8], Le(v, 8);
    if FromLe(x) == FromLe(y) {
      FromLeInjective(x, y);
      forall i | a <= i < a + 8 ensures m[i] == y[i - a] { assert x[i - a] == y[i - a]; }
    } else {
      assert x != y;
    }
  }

  datatype Write = Write(addr: nat, bytes: seq<byte>) {
    function End(): nat { addr + |bytes| }
    predicate Covers(i: nat) { addr <= i < addr + |bytes| }
  }

  function WriteWord(a: nat, v: nat): Write { Write(a, Le(v, 8)) }

  ghost predicate AllFit(ws: seq<Write>, n: nat)
  {
    forall k :: 0 <= k < |ws| ==> ws[k].End() <= n
  }

  function Store(m: seq<byte>, w: Write): (r: seq<byte>)
    requires w.End() <= |m|
    ensures |r| == |m|
    ensures forall i :: 0 <= i < |m| ==> r[i] == if w.Covers(i) then w.bytes[i - w.addr] else m[i]
  {
    m[..w.addr] + w.bytes + m[w.End()..]
  }

  function Apply(m: seq<byte>, ws: seq<Write>): (r: seq<byte>)
    requires AllFit(ws, |m|)
    ensures |r| == |m|
  {
    if ws == [] then m else Store(Apply(m, ws[..|ws| - 1]), ws[|ws| - 1])
  }

  /** The byte that the list leaves at address `i`, if any of its writes covers `i`. */
  function LastWrite(ws: seq<Write>, i: nat): Option<byte>
  {
    if ws == [] then None
    else
      var w := ws[|ws| - 1];
      if w.Covers(i) then Some(w.bytes[i - w.addr]) else LastWrite(ws[..|ws| - 1], i)
  }

  lemma {:induction false} ApplyAt(m: seq<byte>, ws: seq<Write>, i: nat)
    requires AllFit(ws, |m|) && i < |m|
    ensures Apply(m, ws)[i] == match LastWrite(ws, i) case Some(b) => b case None => m[i]
  {
    if ws != [] { ApplyAt(m, ws[..|ws| - 1], i); }
  }

  lemma NoWrites(m: seq<byte>)
    ensures AllFit([], |m|) && Apply(m, []) == m
  {
  }

  lemma ApplyOne(m: seq<byte>, ws: seq<Write>, w: Write)
    requires AllFit(ws, |m|) && w.End() <= |m|
    ensures AllFit(ws + [w], |m|) && Apply(m, ws + [w]) == Store(Apply(m, ws), w)
  {
    assert (ws + [w])[..|ws|] == ws;
  }

  lemma ThreeStores(m: seq<byte>, a: Write, b: Write, c: Write)
    requires a.End() <= |m| && b.End() <= |m| && c.End() <= |m|
    ensures AllFit([a, b, c], |m|) && Apply(m, [a, b, c]) == Store(Store(Store(m, a), b), c)
  {
    hide Store, Apply;
    assert [a, b, c] == [a, b] + [c] && [a, b] == [a] + [b] && [a] == [] + [a];
    NoWrites(m);
    ApplyOne(m, [], a);
    ApplyOne(m, [a], b);
    ApplyOne(m, [a, b], c);
  }

  /** Making the same writes again changes nothing, whatever they overlap. */
  lemma ApplyTwice(m: seq<byte>, ws: seq<Write>)
    requires AllFit(ws, |m|)
    ensures Apply(Apply(m, ws), ws) == Apply(m, ws)
  {
    var once := Apply(m, ws);
    forall i | 0 <= i < |m| ensures Apply(once, ws)[i] == once[i] {
      ApplyAt(m, ws, i);
      ApplyAt(once, ws, i);
    }
  }

  lemma {:induction false} ApplyConcat(m: seq<byte>, us: seq<Write>, ws: seq<Write>)
    requires AllFit(us + ws, |m|)
    ensures AllFit(us, |m|) && AllFit(ws, |m|)
    ensures Apply(m, us + ws) == Apply(Apply(m, us), ws)
  {
    FitConcat(us, ws, |m|);
    if ws == [] {
      assert us + ws == us;
    } else {
      var front := ws[..|ws| - 1];
      assert (us + ws)[..|us + ws| - 1] == us + front;
      ApplyConcat(m, us, front);
    }
  }

  lemma FitConcat(us: seq<Write>, ws: seq<Write>, n: nat)
    ensures AllFit(us + ws, n) <==> AllFit(us, n) && AllFit(ws, n)
  {
    if AllFit(us + ws, n) {
      forall k | 0 <= k < |us| ensures us[k].End() <= n { assert us[k] == (us + ws)[k]; }
      forall k | 0 <= k < |ws| ensures ws[k].End() <= n { assert ws[k] == (us + ws)[|us| + k]; }
    }
  }

  /** No write of the list touches an address in `[lo, hi)`. */
  ghost predicate Avoids(ws: seq<Write>, lo: nat, hi: nat)
  {
    forall k :: 0 <= k < |ws| ==> ws[k].End() <= lo || hi <= ws[k].addr
  }

  lemma {:induction false} AvoidedByte(ws: seq<Write>, lo: nat, hi: nat, i: nat)
    requires Avoids(ws, lo, hi) && lo <= i < hi
    ensures LastWrite(ws, i) == None
  {
    if ws != [] { AvoidedByte(ws[..|ws| - 1], lo, hi, i); }
  }

  lemma AvoidedRange(m: seq<byte>, ws: seq<Write>, lo: nat, hi: nat)
    requires AllFit(ws, |m|) && Avoids(ws, lo, hi) && lo <= hi <= |m|
    ensures Apply(m, ws)[lo..hi] == m[lo..hi]
  {
    forall i | lo <= i < hi ensures Apply(m, ws)[i] == m[i] {
      AvoidedByte(ws, lo, hi, i);
      ApplyAt(m, ws, i);
    }
  }

  /** What the later list covers hides the earlier one. */
  lemma {:induction false} LastWriteConcat(us: seq<Write>, ws: seq<Write>, i: nat)
    ensures LastWrite(us + ws, i) == if LastWrite(ws, i).Some? then LastWrite(ws, i) else LastWrite(us, i)
  {
    if ws == [] {
      assert us + ws == us;
    } else {
      assert (us + ws)[..|us + ws| - 1] == us + ws[..|ws| - 1];
      LastWriteConcat(us, ws[..|ws| - 1], i);
    }
  }

  /** The k-th write survives on its own range when no later write touches that range. */
  lemma {:induction false} SurvivingWrite(ws: seq<Write>, k: nat, i: nat)
    requires k < |ws| && ws[k].Covers(i)
    requires forall j :: k < j < |ws| ==> !ws[j].Covers(i)
    ensures LastWrite(ws, i) == Some(ws[k].bytes[i - ws[k].addr])
  {
    if k < |ws| - 1 { SurvivingWrite(ws[..|ws| - 1], k, i); }
  }

  /** The bytes of a write that no later write touches. */
  lemma StoredRange(m: seq<byte>, ws: seq<Write>, k: nat)
    requires AllFit(ws, |m|) && k < |ws|
    requires forall j :: k < j < |ws| ==> ws[j].End() <= ws[k].addr || ws[k].End() <= ws[j].addr
    ensures ws[k].End() <= |m| && Apply(m, ws)[ws[k].addr..ws[k].End()] == ws[k].bytes
  {
    hide Apply, LastWrite;
    var w, r := ws[k], Apply(m, ws);
    forall i | w.addr <= i < w.End() ensures r[i] == w.bytes[i - w.addr] {
      SurvivingWrite(ws, k, i);
      ApplyAt(m, ws, i);
    }
    assert r[w.addr..w.End()] == w.bytes;
  }

  method StoreBytes(mem: array<byte>, w: Write)
    requires w.End() <= mem.Length
    modifies mem
    ensures mem[..] == Store(old(mem[..]), w)
  {
    ghost var before := mem[..];
    for k := 0 to |w.bytes|
      invariant forall i :: 0 <= i < mem.Length ==>
        mem[i] == if w.addr <= i < w.addr + k then w.bytes[i - w.addr] else before[i]
    {
      mem[w.addr + k] := w.bytes[k];
    }
  }
}
