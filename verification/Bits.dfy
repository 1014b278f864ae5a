/** Machine words as naturals, with every bitwise operation defined digit by digit.

    The hypervisor masks and shifts 64-bit words.  Here `And`, `Or`, `Shr`, `Low` and
    `High` are given by recursion on the binary digits, and the lemmas say what the masks
    used by the page-table walker, the descriptor builder and the alignment code select.
    `Values` turns digits into division and remainder where a literal size is at hand.
 */
module Bits {

  const TWO64: nat := 0x1_0000_0000_0000_0000

  type u64 = x: int | 0 <= x < TWO64

  function Pow2(k: nat): (r: nat)
    ensures r >= 1
  {
    if k == 0 then 1 else 2 * Pow2(k - 1)
  }

  /** `x & y` */
  function And(x: nat, y: nat): (r: nat)
    ensures r <= x && r <= y
  {
    if x == 0 || y == 0 then 0
    else 2 * And(x / 2, y / 2) + (if x % 2 == 1 && y % 2 == 1 then 1 else 0)
  }

  /** `x | y` */
  function Or(x: nat, y: nat): (r: nat)
    ensures x <= r && y <= r && r <= x + y
  {
    if x == 0 then y
    else if y == 0 then x
    else 2 * Or(x / 2, y / 2) + (if x % 2 == 1 || y % 2 == 1 then 1 else 0)
  }

  /** `!x` on 64 bits */
  function Not(x: u64): u64 { TWO64 - 1 - x }

  /** `x >> k` */
  function Shr(x: nat, k: nat): nat
  {
    if k == 0 then x else Shr(x / 2, k - 1)
  }

  /** `x << k` without a word size */
  function Up(x: nat, k: nat): (r: nat)
    ensures r >= x
  {
    if k == 0 then x else 2 * Up(x, k - 1)
  }

  /** `x << k` on 64 bits */
  function Shl(x: u64, k: nat): u64 { Up(x, k) % TWO64 }

  /** The low `k` bits of `x`. */
  function Low(x: nat, k: nat): (r: nat)
    ensures r <= x && r < Pow2(k)
  {
    if k == 0 then 0 else 2 * Low(x / 2, k - 1) + x % 2
  }

  /** `x` with its low `k` bits cleared. */
  function High(x: nat, k: nat): (r: nat)
    ensures r == x - Low(x, k)
  {
    if k == 0 then x else 2 * High(x / 2, k - 1)
  }

  predicate Bit(x: nat, k: nat) { Shr(x, k) % 2 == 1 }

  // ----- digits as division and remainder -----

  lemma DivModUnique(x: nat, d: nat, q: nat, r: nat)
    requires d > 0 && r < d && x == q * d + r
    ensures x / d == q && x % d == r
  {
    var e := x / d - q;
    assert e * d == r - x % d by {
      assert x == (x / d) * d + x % d;
      assert (e + q) * d == e * d + q * d;
    }
    assert e < 1 by { assert e * d == (e - 1) * d + d; }
    assert e > -1 by { assert e * d == (e + 1) * d - d; }
  }

  lemma Split(x: nat, d: nat) returns (q: nat, r: nat)
    requires d > 0
    ensures q == x / d && r == x % d && r < d && x == q * d + r
  {
    q, r := x / d, x % d;
  }

  lemma {:induction false} Values(x: nat, k: nat)
    ensures Low(x, k) == x % Pow2(k)
    ensures Shr(x, k) == x / Pow2(k)
    decreases k
  {
    if k > 0 {
      Values(x / 2, k - 1);
      DoubledDivision(x, Pow2(k - 1));
    }
  }

  lemma DoubledDivision(x: nat, p: nat)
    requires p > 0
    ensures x % (2 * p) == 2 * (x / 2 % p) + x % 2
    ensures x / (2 * p) == x / 2 / p
  {
    var h := x / 2;
    assert (h / p) * (2 * p) == 2 * ((h / p) * p) == 2 * (h - h % p);
    DivModUnique(x, 2 * p, h / p, 2 * (h % p) + x % 2);
  }

  lemma {:induction false} UpValue(x: nat, k: nat)
    ensures Up(x, k) == x * Pow2(k)
    decreases k
  {
    if k > 0 {
      UpValue(x, k - 1);
      assert 2 * (x * Pow2(k - 1)) == x * (2 * Pow2(k - 1));
    }
  }

  lemma {:induction false} Pow2Add(j: nat, k: nat)
    ensures Pow2(j + k) == Pow2(j) * Pow2(k)
  {
    if j > 0 {
      Pow2Add(j - 1, k);
      assert 2 * (Pow2(j - 1) * Pow2(k)) == (2 * Pow2(j - 1)) * Pow2(k);
    }
  }

  lemma {:induction false} Pow2Mono(j: nat, k: nat)
    requires j <= k
    ensures Pow2(j) <= Pow2(k)
  {
    if j < k { Pow2Mono(j, k - 1); }
  }

  lemma {:induction false} LowOfSmall(x: nat, k: nat)
    requires x < Pow2(k)
    ensures Low(x, k) == x
    decreases k
  {
    if k > 0 { LowOfSmall(x / 2, k - 1); }
  }

  /** Clearing the low `k` bits leaves a word whose low `k` bits are clear. */
  lemma {:induction false} LowOfHigh(x: nat, k: nat)
    ensures Low(High(x, k), k) == 0
    decreases k
  {
    if k > 0 {
      hide Pow2;
      assert High(x, k) / 2 == High(x / 2, k - 1) && High(x, k) % 2 == 0;
      LowOfHigh(x / 2, k - 1);
    }
  }

  lemma {:induction false} ShrAdd(x: nat, j: nat, k: nat)
    ensures Shr(x, j + k) == Shr(Shr(x, j), k)
    decreases j
  {
    if j > 0 { ShrAdd(x / 2, j - 1, k); }
  }

  /** The bits above `k` determine the word up to its low `k` bits. */
  lemma {:induction false} HighIsUp(x: nat, k: nat)
    ensures High(x, k) == Up(Shr(x, k), k)
    decreases k
  {
    if k > 0 { HighIsUp(x / 2, k - 1); }
  }

  // ----- masks -----

  lemma AndDigit(x: nat, y: nat)
    ensures And(x, y) == 2 * And(x / 2, y / 2) + (if x % 2 == 1 && y % 2 == 1 then 1 else 0)
  {
  }

  /** `x & ((1 << k) - 1)` */
  lemma {:induction false} AndLowMask(x: nat, k: nat)
    ensures And(x, Pow2(k) - 1) == Low(x, k)
    decreases k
  {
    if k > 0 {
      AndLowMask(x / 2, k - 1);
      assert (Pow2(k) - 1) / 2 == Pow2(k - 1) - 1;
    }
  }

  lemma Doubled(k: nat)
    requires k > 0
    ensures Pow2(k) == 2 * Pow2(k - 1)
  {
  }

  lemma HighDigit(x: nat, k: nat)
    requires k > 0
    ensures High(x, k) == 2 * High(x / 2, k - 1)
  {
  }

  /** `x & (!0 << k)` on an `n`-bit word */
  lemma {:induction false} AndHighMask(x: nat, k: nat, n: nat)
    requires k <= n && x < Pow2(n)
    ensures Pow2(k) <= Pow2(n)
    ensures And(x, Pow2(n) - Pow2(k)) == High(x, k)
    decreases k
  {
    hide And, Low, Pow2;
    Pow2Mono(k, n);
    if k == 0 {
      NoShift(x);
      AndLowMask(x, n);
      LowOfSmall(x, n);
    } else {
      hide High;
      Doubled(k);
      Doubled(n);
      HighDigit(x, k);
      var y := Pow2(n) - Pow2(k);
      assert y / 2 == Pow2(n - 1) - Pow2(k - 1) && y % 2 == 0;
      AndDigit(x, y);
      AndHighMask(x / 2, k - 1, n - 1);
    }
  }

  lemma NoShift(x: nat)
    ensures Pow2(0) == 1 && High(x, 0) == x
  {
  }

  /** `x & (1 << k)` */
  lemma {:induction false} AndBit(x: nat, k: nat)
    ensures And(x, Pow2(k)) == if Bit(x, k) then Pow2(k) else 0
    decreases k
  {
    if k > 0 {
      AndBit(x / 2, k - 1);
    } else {
      assert And(x / 2, 0) == 0;
    }
  }

  /** `&` and `|` bit by bit. */
  lemma {:induction false} AndBits(x: nat, y: nat, k: nat)
    ensures Bit(And(x, y), k) <==> Bit(x, k) && Bit(y, k)
    decreases k
  {
    AndDigit(x, y);
    if k > 0 {
      hide And;
      AndBits(x / 2, y / 2, k - 1);
    }
  }

  lemma {:induction false} OrBits(x: nat, y: nat, k: nat)
    ensures Bit(Or(x, y), k) <==> Bit(x, k) || Bit(y, k)
    decreases k
  {
    if x > 0 && y > 0 {
      hide Or;
      OrDigit(x, y);
      if k > 0 { OrBits(x / 2, y / 2, k - 1); }
    } else {
      ZeroBits(k);
    }
  }

  lemma {:induction false} ZeroBits(k: nat)
    ensures !Bit(0, k)
  {
    if k > 0 { ZeroBits(k - 1); }
  }

  /** Masking by two fields that do not share bits masks by each of them. */
  lemma {:induction false} AndSum(x: nat, hi: nat, lo: nat, k: nat)
    requires Low(hi, k) == 0 && lo < Pow2(k)
    ensures And(x, hi + lo) == And(x, hi) + And(x, lo)
    decreases k
  {
    hide And;
    if k == 0 {
      AndZero(x);
    } else {
      AndDigit(x, hi + lo);
      AndDigit(x, hi);
      AndDigit(x, lo);
      assert (hi + lo) / 2 == hi / 2 + lo / 2 && (hi + lo) % 2 == lo % 2;
      AndSum(x / 2, hi / 2, lo / 2, k - 1);
    }
  }

  lemma AndZero(x: nat)
    ensures And(x, 0) == 0
  {
  }

  /** `x & (((1 << w) - 1) << k)` is the `w`-bit field at bit `k`, left in place. */
  lemma {:induction false} AndField(x: nat, k: nat, w: nat)
    ensures And(x, Up(Pow2(w) - 1, k)) == Up(Low(Shr(x, k), w), k)
    decreases k
  {
    if k == 0 {
      AndLowMask(x, w);
    } else {
      hide And, Pow2;
      var mask := Up(Pow2(w) - 1, k);
      assert mask / 2 == Up(Pow2(w) - 1, k - 1) && mask % 2 == 0;
      AndField(x / 2, k - 1, w);
      AndDigit(x, mask);
    }
  }

  /** Fields that do not share bits are joined by `|` as by addition. */
  lemma {:induction false} OrDisjoint(hi: nat, lo: nat, k: nat)
    requires Low(hi, k) == 0 && lo < Pow2(k)
    ensures Or(hi, lo) == hi + lo
    decreases k
  {
    if k > 0 && hi > 0 && lo > 0 { OrDisjoint(hi / 2, lo / 2, k - 1); }
  }

  lemma {:induction false} OrBelow(x: nat, y: nat, k: nat)
    requires x < Pow2(k) && y < Pow2(k)
    ensures Or(x, y) < Pow2(k)
    decreases k
  {
    if k > 0 && x > 0 && y > 0 { OrBelow(x / 2, y / 2, k - 1); }
  }

  lemma {:induction false} OrSwap(x: nat, y: nat)
    ensures Or(x, y) == Or(y, x)
  {
    if x > 0 && y > 0 { OrSwap(x / 2, y / 2); }
  }

  lemma {:induction false} OrAssoc(x: nat, y: nat, z: nat)
    ensures Or(Or(x, y), z) == Or(x, Or(y, z))
  {
    if x > 0 && y > 0 && z > 0 {
      hide Or;
      OrDigit(x, y);
      OrDigit(y, z);
      OrDigit(Or(x, y), z);
      OrDigit(x, Or(y, z));
      OrAssoc(x / 2, y / 2, z / 2);
    }
  }

  lemma OrDigit(x: nat, y: nat)
    requires x > 0 && y > 0
    ensures Or(x, y) / 2 == Or(x / 2, y / 2) && Or(x, y) % 2 == if x % 2 == 1 || y % 2 == 1 then 1 else 0
  {
  }

  /** Words the code writes as literals. */
  lemma Powers()
    ensures Pow2(7) == 0x80 && Pow2(9) == 512 && Pow2(12) == 0x1000 && Pow2(21) == 0x20_0000
    ensures Pow2(30) == 0x4000_0000 && Pow2(39) == 0x80_0000_0000 && Pow2(52) == 0x10_0000_0000_0000
    ensures Pow2(63) == 0x8000_0000_0000_0000 && Pow2(64) == TWO64
  {
    hide Pow2;
    SmallPowers();
    Pow2Add(21, 9);
    Pow2Add(30, 9);
    Pow2Add(39, 13);
    Pow2Add(52, 11);
    Pow2Add(52, 12);
  }

  lemma SmallPowers()
    ensures Pow2(7) == 0x80 && Pow2(9) == 512 && Pow2(11) == 0x800 && Pow2(12) == 0x1000 && Pow2(13) == 0x2000
    ensures Pow2(21) == 0x20_0000
  {
    Pow2Add(12, 9);
  }
}

/** Division facts about the literal sizes of pages and words. */
module Literals {
  import opened Bits

  const TOP_BIT: nat := 0x8000_0000_0000_0000

  lemma PageNumber(w: nat)
    requires w < 2 * TOP_BIT
    ensures w % TOP_BIT / 0x1000 == w / 0x1000 % 0x8_0000_0000_0000
    ensures w % TOP_BIT < 0x10_0000_0000_0000 <==> w / 0x1000 % 0x8_0000_0000_0000 < 0x100_0000_0000
  {
  }

  lemma PageNumber52(w: nat)
    requires w < 2 * TOP_BIT
    ensures w % 0x10_0000_0000_0000 / 0x1000 == w / 0x1000 % 0x100_0000_0000
  {
  }

  lemma CoarserModulus(x: nat, a: nat, b: nat)
    requires a > 0 && b > 0
    ensures a * b > 0 && x % (a * b) % b == x % b
    ensures x % b == x % (a * b) <==> x % (a * b) < b
  {
    var m := Product(a, b);
    var q, r := x / m, x % m;
    var s, t := r / b, r % b;
    Regroup(q, a, s, b, t);
    DivModUnique(x, b, q * a + s, t);
    if r < b { DivModUnique(r, b, 0, r); }
  }

  lemma Product(a: nat, b: nat) returns (m: nat)
    requires a > 0 && b > 0
    ensures m == a * b > 0
  {
    m := a * b;
  }

  lemma Regroup(q: nat, a: nat, s: nat, b: nat, t: nat)
    ensures q * (a * b) + (s * b + t) == (q * a + s) * b + t
  {
    assert q * (a * b) == q * a * b;
  }

  /** Two neighbouring fields read together. */
  lemma Joined(x: nat, p: nat, w: nat)
    requires p > 0 && w > 0
    ensures w * p > 0 && x % p + x / p % w * p == x % (w * p)
  {
    var q, r := Split(x, p);
    var h, l := Split(q, w);
    Parts(h, w, l, p, r);
  }

  lemma Parts(h: nat, w: nat, l: nat, p: nat, r: nat)
    requires l < w && r < p
    ensures w * p > 0 && ((h * w + l) * p + r) % (w * p) == l * p + r
  {
    var m := Product(w, p);
    Regroup(h, w, l, p, r);
    Below(l, w, p, r);
    DivModUnique(h * m + (l * p + r), m, h, l * p + r);
  }

  lemma Below(l: nat, w: nat, p: nat, r: nat)
    requires l < w && r < p
    ensures l * p + r < w * p
  {
    assert w * p == l * p + (w - l) * p;
    assert (w - l) * p == p + (w - l - 1) * p;
  }

  lemma Remainders(e: nat)
    ensures e % TOP_BIT % 0x4000_0000 == e % 0x4000_0000
    ensures e % TOP_BIT % 0x20_0000 == e % 0x20_0000
    ensures e % TOP_BIT % 0x1000 == e % 0x1000
  {
    CoarserModulus(e, 0x2_0000_0000, 0x4000_0000);
    CoarserModulus(e, 0x400_0000_0000, 0x20_0000);
    CoarserModulus(e, 0x8_0000_0000_0000, 0x1000);
  }

  lemma BelowBit52(e: nat)
    requires e % TOP_BIT < 0x10_0000_0000_0000
    ensures e % 0x10_0000_0000_0000 % TOP_BIT == e % TOP_BIT
  {
    CoarserModulus(e, 0x800, 0x10_0000_0000_0000);
  }

  lemma LargeInGiant(e: nat)
    ensures e % 0x20_0000 == e % 0x4000_0000 <==> e % 0x4000_0000 < 0x20_0000
  {
    CoarserModulus(e, 512, 0x20_0000);
  }

  lemma BaseInLarge(e: nat)
    ensures e % 0x20_0000 == e % 0x1000 <==> e % 0x20_0000 < 0x1000
  {
    CoarserModulus(e, 512, 0x1000);
  }

  lemma TopBitKeepsBit7(w: nat)
    requires w < 2 * TOP_BIT
    ensures w % TOP_BIT / 0x80 % 2 == w / 0x80 % 2
  {
  }

  lemma AddBit7(e: nat)
    requires e / 0x80 % 2 == 0
    ensures (e + 0x80) / 0x1000 == e / 0x1000
    ensures (e + 0x80) / 0x80 % 2 == 1
  {
    assert e / 0x1000 == e / 0x80 / 32;
    assert (e + 0x80) / 0x80 == e / 0x80 + 1;
    assert (e + 0x80) / 0x1000 == (e + 0x80) / 0x80 / 32;
  }

  lemma ClearBit7(e: nat)
    requires e / 0x80 % 2 == 1
    ensures e >= 0x80 && (e - 0x80) / 0x80 % 2 == 0 && (e - 0x80) / 0x1000 == e / 0x1000
  {
    assert (e - 0x80) / 0x80 == e / 0x80 - 1;
    AddBit7(e - 0x80);
  }

  lemma RoundDown(x: nat)
    ensures (x - x % 0x1000) % TOP_BIT == x % TOP_BIT - x % TOP_BIT % 0x1000
    ensures (x - x % 0x20_0000) % TOP_BIT == x % TOP_BIT - x % TOP_BIT % 0x20_0000
  {
    RoundedTop(x, 0x8_0000_0000_0000, 0x1000);
    RoundedTop(x, 0x400_0000_0000, 0x20_0000);
  }

  lemma RoundedTop(x: nat, a: nat, p: nat)
    requires a > 0 && p > 0 && a * p == TOP_BIT
    ensures (x - x % p) % TOP_BIT == x % TOP_BIT - x % TOP_BIT % p
  {
    CoarserModulus(x, a, p);
    Rounded(x, a * p, p);
  }

  lemma Rounded(x: nat, m: nat, p: nat)
    requires m > 0 && p > 0 && x % m % p == x % p
    ensures (x - x % p) % m == x % m - x % p
  {
    var q, r := Split(x, m);
    var s, t := Split(r, p);
    NotAbove(s, p, t);
    DivModUnique(x - t, m, q, r - t);
  }

  lemma NotAbove(s: nat, p: nat, t: nat)
    ensures t <= s * p + t
  {
  }

  lemma SmallWord(x: nat)
    requires x < 0x10_0000_0000_0000
    ensures x % 0x10_0000_0000_0000 == x && x % TOP_BIT == x
  {
  }

  lemma LowBits(high: nat, low: nat)
    requires high % 0x1000 == 0 && low < 0x1000
    ensures (high + low) % 0x1000 == low
    ensures (high + low) / 0x80 % 2 == low / 0x80 % 2
    ensures high < TOP_BIT ==> high + low < TOP_BIT
    ensures high % 0x20_0000 == 0 ==> (high + low) % 0x20_0000 == low
  {
    assert (high + low) / 0x80 % 2 == low / 0x80 % 2 by { Bit7Of(high / 0x1000, low); }
  }

  lemma Bit7Of(q: nat, low: nat)
    ensures (0x1000 * q + low) / 0x80 % 2 == low / 0x80 % 2
  {
    assert (0x1000 * q + low) / 0x80 == 32 * q + low / 0x80;
  }

  lemma LeafNumber(i: nat)
    requires i < 512
    ensures var e := i * 0x20_0000 + 0x83;
      e % 0x20_0000 == 0x83 && e % 0x1000 == 0x83 && e < 0x4000_0000 && i * 0x20_0000 % 0x1000 == 0
  {
    var e := i * 0x20_0000 + 0x83;
    assert e == 0x1000 * (512 * i) + 0x83;
  }

  lemma SetLowBit(x: nat)
    ensures (x + (1 - x % 2)) / 0x80 == x / 0x80
  {
    var h := x / 2;
    assert x / 0x80 == h / 64 && (2 * h + 1) / 0x80 == h / 64;
  }

  lemma CoarseIsFine(x: nat)
    ensures x % 0x20_0000 == 0 ==> x % 0x1000 == 0
  {
    CoarserModulus(x, 512, 0x1000);
  }

  lemma TopAdded(x: nat, top: bool)
    requires x < TOP_BIT
    ensures var e := x + (if top then TOP_BIT else 0); e % TOP_BIT == x && e % 0x1000 == x % 0x1000 && e % 2 == x % 2
  {
    if top { DivModUnique(x + TOP_BIT, TOP_BIT, 1, x); }
  }

  lemma FrameOf(frame: nat, low: nat, top: bool)
    requires frame % 0x1000 == 0 && frame < TOP_BIT && low < 0x1000
    ensures var e := frame + low + (if top then TOP_BIT else 0);
      e % 0x1000 == low && e % TOP_BIT - e % TOP_BIT % 0x1000 == frame
  {
  }
}
