/** Passing the command line and the environment to the guest (`cmdsize` and `cmdval` of
    src/vm.rs): the guest first asks for the sizes, reserves buffers, and then has the strings
    copied to the pointers it provides.
 */
module Arguments {
  import opened GuestMemory

  const MAX_ARGC: nat := 128
  const MAX_ENVC: nat := 128

  type Str = seq<byte>

  const SEPARATOR: Str := [0x2D, 0x2D]

  datatype Variable = Variable(key: Str, value: Str)

  /** The index of the first `--`; the length if there is none. */
  function SeparatorIndex(args: seq<Str>): (k: nat)
    ensures k <= |args| && (k < |args| ==> args[k] == SEPARATOR)
    ensures forall j :: 0 <= j < k ==> args[j] != SEPARATOR
  {
    if args == [] || args[0] == SEPARATOR then 0 else 1 + SeparatorIndex(args[1..])
  }

  /** The arguments behind the first `--`. */
  function AppArgs(args: seq<Str>): seq<Str>
  {
    var k := SeparatorIndex(args);
    if k < |args| then args[k + 1..] else []
  }

  /** The kernel path and the application's arguments. */
  function ArgStrings(path: Str, args: seq<Str>): seq<Str> { [path] + AppArgs(args) }

  function EnvString(v: Variable): Str { v.key + [0x3D] + v.value }

  function EnvCount(env: seq<Variable>): nat { if |env| <= MAX_ENVC then |env| else MAX_ENVC }

  function EnvStrings(env: seq<Variable>): (s: seq<Str>)
    ensures |s| == EnvCount(env)
  {
    seq(EnvCount(env), i requires 0 <= i < EnvCount(env) => EnvString(env[i]))
  }

  lemma SeparatorIs(args: seq<Str>, k: nat)
    requires k <= |args| && (k < |args| ==> args[k] == SEPARATOR) && forall j :: 0 <= j < k ==> args[j] != SEPARATOR
    ensures SeparatorIndex(args) == k
  {
    var i := SeparatorIndex(args);
    assert i < |args| ==> args[i] == SEPARATOR;
  }

  /** What one more argument adds to the strings for the guest. */
  lemma NextArgument(args: seq<Str>, c: nat)
    requires c < |args|
    ensures SeparatorIndex(args[..c]) < c ==>
      SeparatorIndex(args[..c + 1]) == SeparatorIndex(args[..c])
      && AppArgs(args[..c + 1]) == AppArgs(args[..c]) + [args[c]]
    ensures SeparatorIndex(args[..c]) == c ==> AppArgs(args[..c + 1]) == []
    ensures SeparatorIndex(args[..c]) == c ==>
      SeparatorIndex(args[..c + 1]) == if args[c] == SEPARATOR then c else c + 1
  {
    var now, next := args[..c], args[..c + 1];
    assert next == now + [args[c]];
    var k := SeparatorIndex(now);
    if k < c {
      SeparatorIs(next, k);
      assert next[k + 1..] == now[k + 1..] + [args[c]];
    } else {
      SeparatorIs(next, if args[c] == SEPARATOR then c else c + 1);
    }
  }

  // ----- the sizes -----

  const TWO31: nat := 0x8000_0000

  /** The value that a conversion to `i32`, or arithmetic on `i32`, leaves. */
  function I32(x: int): int { (x + TWO31) % (2 * TWO31) - TWO31 }

  lemma I32Add(x: int, k: int)
    ensures I32(I32(x) + k) == I32(x + k)
  {
    var q := (x + TWO31) / (2 * TWO31);
    assert I32(x) == x - q * (2 * TWO31);
    ShiftedModulus(x + k + TWO31, q);
  }

  lemma ShiftedModulus(y: int, q: int)
    ensures (y - q * (2 * TWO31)) % (2 * TWO31) == y % (2 * TWO31)
  {
  }

  lemma I32Exact(n: nat)
    ensures I32(n) == n <==> n < TWO31
  {
  }

  /** What the guest reads from the answer to the first call. */
  datatype Sizes = Sizes(argc: int, argsz: seq<int>, envc: int, envsz: seq<int>) {
    predicate Valid() { 0 <= argc <= |argsz| && 0 <= envc <= |envsz| }

    /** Arguments first, then the environment. */
    function Count(): nat
      requires Valid()
    {
      argc + envc
    }

    function Size(k: nat): int
      requires Valid() && k < Count()
    {
      if k < argc then argsz[k] else envsz[k - argc]
    }
  }

  /** The answer counts the strings and announces the size of each with its terminator. */
  ghost predicate Announces(z: Sizes, path: Str, args: seq<Str>, env: seq<Variable>)
  {
    && z.Valid() && z.argc == |ArgStrings(path, args)| && z.envc == |EnvStrings(env)|
    && (forall i :: 0 <= i < z.argc ==> z.argsz[i] == I32(|ArgStrings(path, args)[i]| + 1))
    && (forall i :: 0 <= i < z.envc ==> z.envsz[i] == I32(|EnvStrings(env)[i]| + 1))
  }

  class SysCmdsize {
    var argc: int
    const argsz: array<int>
    var envc: int
    const envsz: array<int>

    ghost predicate Valid() { argsz.Length == MAX_ARGC && envsz.Length == MAX_ENVC && argsz != envsz }

    ghost function Answer(): Sizes
      reads this, argsz, envsz
    {
      Sizes(argc, argsz[..], envc, envsz[..])
    }

    constructor (argsz: array<int>, envsz: array<int>)
      ensures this.argsz == argsz && this.envsz == envsz
    {
      this.argsz, this.envsz := argsz, envsz;
      argc, envc := 0, 0;
    }

    /** False: more arguments than `argsz` has room for, and the thread panics. */
    method Cmdsize(path: Str, args: seq<Str>, env: seq<Variable>) returns (ok: bool)
      requires Valid()
      modifies this, argsz, envsz
      ensures ok <==> |ArgStrings(path, args)| <= MAX_ARGC
      ensures ok ==> Announces(Answer(), path, args, env)
      ensures ok ==> forall i :: 0 <= i < MAX_ARGC ==>
        argsz[i] == if i < |ArgStrings(path, args)| then I32(|ArgStrings(path, args)[i]| + 1) else old(argsz[i])
      ensures ok ==> forall i :: 0 <= i < MAX_ENVC ==>
        envsz[i] == if i < |EnvStrings(env)| then I32(|EnvStrings(env)[i]| + 1) else old(envsz[i])
    {
      hide AppArgs, I32;
      argc := 0;
      envc := 0;
      ok := ArgumentSizes(path, args);
      if ok { EnvironmentSizes(env); }
    }

    method ArgumentSizes(path: Str, args: seq<Str>) returns (ok: bool)
      requires Valid()
      modifies this`argc, argsz
      ensures ok <==> |ArgStrings(path, args)| <= MAX_ARGC
      ensures ok ==> argc == |ArgStrings(path, args)|
      ensures ok ==> forall i :: 0 <= i < MAX_ARGC ==>
        argsz[i] == if i < |ArgStrings(path, args)| then I32(|ArgStrings(path, args)[i]| + 1) else old(argsz[i])
    {
      hide SeparatorIndex, AppArgs, I32;
      var counter := 0;
      var separatorPos := 0;
      var foundSeparator := false;
      I32Add(|path|, 1);
      argsz[0] := I32(I32(|path|) + 1);
      assert args[..0] == [];
      NoArguments();
      while counter < |args|
        invariant 0 <= counter <= |args|
        invariant foundSeparator <==> SeparatorIndex(args[..counter]) < counter
        invariant foundSeparator ==>
          separatorPos == SeparatorIndex(args[..counter]) + 1 && |AppArgs(args[..counter])| == counter - separatorPos
        invariant !foundSeparator ==> AppArgs(args[..counter]) == []
        invariant |ArgStrings(path, args[..counter])| <= MAX_ARGC
        invariant forall i :: 0 <= i < MAX_ARGC ==>
          argsz[i] == (if i < |ArgStrings(path, args[..counter])|
                       then I32(|ArgStrings(path, args[..counter])[i]| + 1) else old(argsz[i]))
      {
        var argument := args[counter];
        NextArgument(args, counter);
        if !foundSeparator && argument == SEPARATOR {
          separatorPos := counter + 1;
          foundSeparator := true;
        }
        if foundSeparator && counter >= separatorPos {
          var i := counter - separatorPos + 1;
          if i >= MAX_ARGC {
            MoreArguments(args, counter + 1);
            return false;
          }
          I32Add(|argument|, 1);
          argsz[i] := I32(I32(|argument|) + 1);
        }
        counter := counter + 1;
      }
      assert args[..counter] == args;
      if foundSeparator && counter >= separatorPos {
        argc := counter - separatorPos + 1;
      } else {
        argc := 1;
      }
      return true;
    }

    method EnvironmentSizes(env: seq<Variable>)
      requires Valid()
      modifies this`envc, envsz
      ensures envc == |EnvStrings(env)|
      ensures forall i :: 0 <= i < MAX_ENVC ==>
        envsz[i] == if i < |EnvStrings(env)| then I32(|EnvStrings(env)[i]| + 1) else old(envsz[i])
    {
      hide I32;
      var counter := 0;
      for k := 0 to |env|
        invariant counter == if k <= MAX_ENVC then k else MAX_ENVC
        invariant forall i :: 0 <= i < MAX_ENVC ==>
          envsz[i] == if i < counter then I32(|EnvString(env[i])| + 1) else old(envsz[i])
      {
        if counter < MAX_ENVC {
          I32Add(|env[k].key| + |env[k].value|, 2);
          envsz[counter] := I32(I32(|env[k].key| + |env[k].value|) + 2);
          counter := counter + 1;
        }
      }
      envc := counter;
    }
  }

  lemma NoArguments()
    ensures SeparatorIndex([]) == 0 && AppArgs([]) == []
  {
  }

  /** Later arguments never shorten the list. */
  lemma {:induction false} MoreArguments(args: seq<Str>, c: nat)
    requires c <= |args|
    ensures |AppArgs(args[..c])| <= |AppArgs(args)|
    decreases |args| - c
  {
    if c < |args| {
      NextArgument(args, c);
      assert SeparatorIndex(args[..c]) == c ==> AppArgs(args[..c]) == [];
      MoreArguments(args, c + 1);
    } else {
      assert args[..c] == args;
    }
  }

  // ----- the strings -----

  /** A string and the place where the guest keeps the pointer to its buffer. */
  datatype Item = Item(slot: nat, str: Str) {
    function Bytes(): Str { str + [0] }
  }

  function Items(table: nat, strs: seq<Str>): (s: seq<Item>)
    ensures |s| == |strs|
    ensures forall i :: 0 <= i < |strs| ==> s[i] == Item(table + 8 * i, strs[i])
  {
    seq(|strs|, i requires 0 <= i < |strs| => Item(table + 8 * i, strs[i]))
  }

  /** The pointer is read from memory as it is when its turn comes. */
  ghost predicate Deliverable(m: seq<byte>, items: seq<Item>, k: nat)
    requires k <= |items|
    decreases m, k, 0
  {
    k == 0 ||
    (&& Deliverable(m, items, k - 1)
     && items[k - 1].slot + 8 <= |m|
     && Word(Delivered(m, items, k - 1), items[k - 1].slot) + |items[k - 1].Bytes()| <= |m|)
  }

  ghost function Delivered(m: seq<byte>, items: seq<Item>, k: nat): (r: seq<byte>)
    requires k <= |items| && Deliverable(m, items, k)
    ensures |r| == |m|
    decreases m, k, 1
  {
    if k == 0 then m
    else
      var now := Delivered(m, items, k - 1);
      Store(now, Write(Word(now, items[k - 1].slot), items[k - 1].Bytes()))
  }

  function AllItems(argv: nat, envp: nat, path: Str, args: seq<Str>, env: seq<Variable>): seq<Item>
  {
    Items(argv, ArgStrings(path, args)) + Items(envp, EnvStrings(env))
  }

  method CopyString(
    mem: array<byte>, ghost before: seq<byte>, ghost items: seq<Item>, ghost k: nat, slot: nat, bytes: Str)
    requires |before| == mem.Length && k < |items| && Deliverable(before, items, k + 1)
    requires mem[..] == Delivered(before, items, k) && items[k].slot == slot && items[k].Bytes() == bytes
    modifies mem
    ensures mem[..] == Delivered(before, items, k + 1)
  {
    hide Word, Store;
    var pointer := Word(mem[..], slot);
    StoreBytes(mem, Write(pointer, bytes));
  }

  lemma {:induction false} DeliverablePrefix(m: seq<byte>, items: seq<Item>, n: nat, k: nat)
    requires k <= n <= |items| && Deliverable(m, items, n)
    ensures Deliverable(m, items, k)
    decreases n
  {
    if k < n { DeliverablePrefix(m, items, n - 1, k); }
  }

  method Cmdval(mem: array<byte>, argv: nat, envp: nat, path: Str, args: seq<Str>, env: seq<Variable>)
    requires var items := AllItems(argv, envp, path, args, env); Deliverable(mem[..], items, |items|)
    modifies mem
    ensures var items := AllItems(argv, envp, path, args, env);
      mem[..] == Delivered(old(mem[..]), items, |items|)
  {
    hide Delivered, Deliverable, SeparatorIndex, AppArgs;
    ghost var before, items := mem[..], AllItems(argv, envp, path, args, env);
    ghost var n := |ArgStrings(path, args)|;
    DeliveredNothing(before, items);

    // argv[0] is the path of the kernel
    DeliverablePrefix(before, items, |items|, 1);
    CopyString(mem, before, items, 0, argv, path + [0]);

    // what follows the separator
    var counter := 0;
    var foundSeparator := false;
    var separatorPos := 0;
    assert args[..0] == [];
    NoArguments();
    while counter < |args|
      invariant 0 <= counter <= |args|
      invariant foundSeparator <==> SeparatorIndex(args[..counter]) < counter
      invariant foundSeparator ==>
        separatorPos == SeparatorIndex(args[..counter]) + 1 && |AppArgs(args[..counter])| == counter - separatorPos
      invariant !foundSeparator ==> AppArgs(args[..counter]) == []
      invariant 1 + |AppArgs(args[..counter])| <= n && Deliverable(before, items, 1 + |AppArgs(args[..counter])|)
      invariant mem[..] == Delivered(before, items, 1 + |AppArgs(args[..counter])|)
    {
      var argument := args[counter];
      NextArgument(args, counter);
      if !foundSeparator && argument == SEPARATOR {
        separatorPos := counter + 1;
        foundSeparator := true;
      }
      MoreArguments(args, counter + 1);
      if foundSeparator && counter >= separatorPos {
        var i := counter - separatorPos + 1;
        ArgumentAt(args, counter);
        DeliverablePrefix(before, items, |items|, i + 1);
        CopyString(mem, before, items, i, argv + 8 * i, argument + [0]);
      }
      counter := counter + 1;
    }
    assert args[..counter] == args;

    // at most MAX_ENVC variables
    counter := 0;
    for k := 0 to |env|
      invariant counter == if k <= MAX_ENVC then k else MAX_ENVC
      invariant Deliverable(before, items, n + counter) && mem[..] == Delivered(before, items, n + counter)
    {
      if counter < MAX_ENVC {
        DeliverablePrefix(before, items, |items|, n + counter + 1);
        CopyString(mem, before, items, n + counter, envp + 8 * counter, env[k].key + [0x3D] + env[k].value + [0]);
        counter := counter + 1;
      }
    }
  }

  lemma DeliveredNothing(m: seq<byte>, items: seq<Item>)
    ensures Deliverable(m, items, 0) && Delivered(m, items, 0) == m
  {
  }

  /** An argument behind the separator has the same place in the whole list. */
  lemma ArgumentAt(args: seq<Str>, c: nat)
    requires c < |args| && SeparatorIndex(args[..c]) < c
    ensures SeparatorIndex(args) == SeparatorIndex(args[..c])
    ensures var i := c - SeparatorIndex(args[..c]) - 1; i < |AppArgs(args)| && AppArgs(args)[i] == args[c]
  {
    var k := SeparatorIndex(args[..c]);
    assert forall j :: 0 <= j < c ==> args[..c][j] == args[j];
    SeparatorIs(args, k);
  }

  // ----- with buffers that do not overlap -----

  ghost function Pointer(m: seq<byte>, item: Item): nat
    requires item.slot + 8 <= |m|
  {
    Word(m, item.slot)
  }

  ghost predicate PointersInMemory(m: seq<byte>, items: seq<Item>)
  {
    forall k :: 0 <= k < |items| ==> items[k].slot + 8 <= |m|
  }

  /** Buffers of the announced sizes lie in memory, apart from each other and from every pointer. */
  ghost predicate Reserved(m: seq<byte>, items: seq<Item>)
  {
    && PointersInMemory(m, items)
    && (forall k :: 0 <= k < |items| ==> Pointer(m, items[k]) + |items[k].str| + 1 <= |m|)
    && (forall j, k :: 0 <= j < k < |items| ==> BuffersApart(m, items[j], items[k]))
    && (forall j, k :: 0 <= j < |items| && 0 <= k < |items| ==> PointerApart(m, items[j], items[k]))
  }

  ghost predicate BuffersApart(m: seq<byte>, a: Item, b: Item)
    requires a.slot + 8 <= |m| && b.slot + 8 <= |m|
  {
    || Pointer(m, a) + |a.str| + 1 <= Pointer(m, b)
    || Pointer(m, b) + |b.str| + 1 <= Pointer(m, a)
  }

  /** The pointer of `b` is outside the buffer of `a`. */
  ghost predicate PointerApart(m: seq<byte>, a: Item, b: Item)
    requires a.slot + 8 <= |m|
  {
    Pointer(m, a) + |a.str| + 1 <= b.slot || b.slot + 8 <= Pointer(m, a)
  }

  ghost function Deliveries(m: seq<byte>, items: seq<Item>, k: nat): seq<Write>
    requires k <= |items| && PointersInMemory(m, items)
  {
    seq(k, j requires 0 <= j < k => Write(Pointer(m, items[j]), items[j].Bytes()))
  }

  /** With reserved buffers no pointer changes on the way, so the copies are a fixed list of writes. */
  lemma {:induction false} ReservedDelivers(m: seq<byte>, items: seq<Item>, k: nat)
    requires Reserved(m, items) && k <= |items|
    ensures AllFit(Deliveries(m, items, k), |m|)
    ensures Deliverable(m, items, k) && Delivered(m, items, k) == Apply(m, Deliveries(m, items, k))
  {
    hide Word, Store, Reserved;
    ReservedIn(m, items);
    var ws := Deliveries(m, items, k);
    if k > 0 {
      ReservedDelivers(m, items, k - 1);
      ReservedAt(m, items, k - 1);
      assert ws[..k - 1] == Deliveries(m, items, k - 1);
      PointerKept(m, items, k - 1, k - 1);
    }
  }

  lemma ReservedIn(m: seq<byte>, items: seq<Item>)
    requires Reserved(m, items)
    ensures PointersInMemory(m, items)
  {
  }

  lemma PointerKept(m: seq<byte>, items: seq<Item>, n: nat, k: nat)
    requires Reserved(m, items) && n <= |items| && k < |items| && AllFit(Deliveries(m, items, n), |m|)
    ensures Word(Apply(m, Deliveries(m, items, n)), items[k].slot) == Pointer(m, items[k])
  {
    hide Apply, Reserved, AllFit, Word;
    ReservedIn(m, items);
    var ws, a := Deliveries(m, items, n), items[k].slot;
    forall j | 0 <= j < |ws| ensures ws[j].End() <= a || a + 8 <= ws[j].addr {
      ReservedPointer(m, items, j, k);
    }
    AvoidedRange(m, ws, a, a + 8);
    var r := Apply(m, ws);
    assert forall i :: a <= i < a + 8 ==> r[i] == r[a..a + 8][i - a] && m[i] == m[a..a + 8][i - a];
    SameWord(m, r, a);
  }

  lemma ReservedPointer(m: seq<byte>, items: seq<Item>, j: nat, k: nat)
    requires Reserved(m, items) && j < |items| && k < |items|
    ensures PointersInMemory(m, items) && PointerApart(m, items[j], items[k])
  {
  }

  /** Every buffer ends up with its NUL-terminated string, `argsz[i]` or `envsz[i]` bytes long, and no other
      byte of guest memory changes. */
  lemma StringsDelivered(m: seq<byte>, items: seq<Item>)
    requires Reserved(m, items)
    ensures Deliverable(m, items, |items|)
    ensures var r := Delivered(m, items, |items|);
      && (forall k :: 0 <= k < |items| ==>
            var p := Pointer(m, items[k]); r[p..p + |items[k].str| + 1] == items[k].str + [0])
      && (forall i :: 0 <= i < |m| && OutsideBuffers(m, items, i) ==> r[i] == m[i])
  {
    hide Apply, Deliverable, Delivered, Word;
    ReservedDelivers(m, items, |items|);
    var ws := Deliveries(m, items, |items|);
    var r := Apply(m, ws);
    forall k | 0 <= k < |items|
      ensures var p := Pointer(m, items[k]); r[p..p + |items[k].str| + 1] == items[k].str + [0]
    {
      StringAt(m, items, k);
    }
    forall i | 0 <= i < |m| && OutsideBuffers(m, items, i) ensures r[i] == m[i] {
      forall j | 0 <= j < |ws| ensures ws[j].End() <= i || i + 1 <= ws[j].addr {
        assert !InBuffer(m, items[j], i);
      }
      AvoidedRange(m, ws, i, i + 1);
      assert r[i..i + 1][0] == m[i..i + 1][0];
    }
  }

  ghost predicate InBuffer(m: seq<byte>, item: Item, i: nat)
    requires item.slot + 8 <= |m|
  {
    Pointer(m, item) <= i < Pointer(m, item) + |item.str| + 1
  }

  ghost predicate OutsideBuffers(m: seq<byte>, items: seq<Item>, i: nat)
    requires PointersInMemory(m, items)
  {
    forall k :: 0 <= k < |items| ==> !InBuffer(m, items[k], i)
  }

  lemma ReservedAt(m: seq<byte>, items: seq<Item>, k: nat)
    requires Reserved(m, items) && k < |items|
    ensures PointersInMemory(m, items) && Pointer(m, items[k]) + |items[k].str| + 1 <= |m|
  {
  }

  lemma ReservedApart(m: seq<byte>, items: seq<Item>, k: nat, i: nat)
    requires Reserved(m, items) && k < |items| && InBuffer(m, items[k], i)
    ensures PointersInMemory(m, items) && forall j :: k < j < |items| ==> !InBuffer(m, items[j], i)
  {
    forall j | k < j < |items| ensures !InBuffer(m, items[j], i) {
      assert BuffersApart(m, items[k], items[j]);
    }
  }

  lemma StringAt(m: seq<byte>, items: seq<Item>, k: nat)
    requires Reserved(m, items) && k < |items| && AllFit(Deliveries(m, items, |items|), |m|)
    ensures var p := Pointer(m, items[k]);
      Apply(m, Deliveries(m, items, |items|))[p..p + |items[k].str| + 1] == items[k].str + [0]
  {
    hide Apply, Deliveries, Word, AllFit, Reserved;
    ReservedAt(m, items, k);
    var p, s := Pointer(m, items[k]), items[k].str + [0];
    var r := Apply(m, Deliveries(m, items, |items|));
    forall i | p <= i < p + |s| ensures r[i] == s[i - p] { StringByte(m, items, k, i); }
    assert r[p..p + |s|] == s;
  }

  lemma StringByte(m: seq<byte>, items: seq<Item>, k: nat, i: nat)
    requires Reserved(m, items) && k < |items| && AllFit(Deliveries(m, items, |items|), |m|) && InBuffer(m, items[k], i)
    ensures i < |m| && Apply(m, Deliveries(m, items, |items|))[i] == (items[k].str + [0])[i - Pointer(m, items[k])]
  {
    hide Apply, LastWrite, Word, AllFit, Reserved;
    ReservedAt(m, items, k);
    ReservedApart(m, items, k, i);
    var ws := Deliveries(m, items, |items|);
    assert ws[k] == Write(Pointer(m, items[k]), items[k].Bytes());
    SurvivingWrite(ws, k, i);
    ApplyAt(m, ws, i);
  }

  // ----- both phases together -----

  /** Where the guest keeps the pointer to buffer `k`. */
  function SlotOf(z: Sizes, argv: nat, envp: nat, k: nat): nat
    requires z.Valid()
  {
    if k < z.argc then argv + 8 * k else envp + 8 * (k - z.argc)
  }

  ghost function BufferOf(m: seq<byte>, z: Sizes, argv: nat, envp: nat, k: nat): nat
    requires z.Valid() && SlotOf(z, argv, envp, k) + 8 <= |m|
  {
    Word(m, SlotOf(z, argv, envp, k))
  }

  ghost predicate TablesInMemory(m: seq<byte>, z: Sizes, argv: nat, envp: nat)
    requires z.Valid()
  {
    forall k :: 0 <= k < z.Count() ==> SlotOf(z, argv, envp, k) + 8 <= |m|
  }

  /** The guest has set up buffers of the announced sizes, apart from each other and from both pointer arrays. */
  ghost predicate RoomFor(m: seq<byte>, z: Sizes, argv: nat, envp: nat)
    requires z.Valid()
  {
    && TablesInMemory(m, z, argv, envp)
    && (forall k :: 0 <= k < z.Count() ==> BufferOf(m, z, argv, envp, k) + z.Size(k) <= |m|)
    && (forall j, k :: 0 <= j < k < z.Count() ==> RoomApart(m, z, argv, envp, j, k))
    && (forall j, k :: 0 <= j < z.Count() && 0 <= k < z.Count() ==> RoomOffTable(m, z, argv, envp, j, k))
  }

  ghost predicate RoomApart(m: seq<byte>, z: Sizes, argv: nat, envp: nat, j: nat, k: nat)
    requires z.Valid() && j < z.Count() && k < z.Count() && TablesInMemory(m, z, argv, envp)
  {
    var a, b := BufferOf(m, z, argv, envp, j), BufferOf(m, z, argv, envp, k);
    a + z.Size(j) <= b || b + z.Size(k) <= a
  }

  ghost predicate RoomOffTable(m: seq<byte>, z: Sizes, argv: nat, envp: nat, j: nat, k: nat)
    requires z.Valid() && j < z.Count() && k < z.Count() && TablesInMemory(m, z, argv, envp)
  {
    var a, slot := BufferOf(m, z, argv, envp, j), SlotOf(z, argv, envp, k);
    a + z.Size(j) <= slot || slot + 8 <= a
  }

  /** Address `i` is in none of the buffers. */
  ghost predicate OffBuffers(m: seq<byte>, z: Sizes, argv: nat, envp: nat, i: nat)
    requires z.Valid() && TablesInMemory(m, z, argv, envp)
  {
    forall k :: 0 <= k < z.Count() ==>
      var a := BufferOf(m, z, argv, envp, k); i < a || a + z.Size(k) <= i
  }

  /** An `i32` can hold the size of the string. */
  predicate Short(s: Str) { |s| + 1 < TWO31 }

  /** The strings in the order of their buffers. */
  function StringOf(path: Str, args: seq<Str>, env: seq<Variable>, k: nat): Str
    requires k < |ArgStrings(path, args)| + |EnvStrings(env)|
  {
    var n := |ArgStrings(path, args)|;
    if k < n then ArgStrings(path, args)[k] else EnvStrings(env)[k - n]
  }

  ghost predicate AllShort(path: Str, args: seq<Str>, env: seq<Variable>)
  {
    forall k :: 0 <= k < |ArgStrings(path, args)| + |EnvStrings(env)| ==> Short(StringOf(path, args, env, k))
  }

  lemma ItemOf(z: Sizes, argv: nat, envp: nat, path: Str, args: seq<Str>, env: seq<Variable>, k: nat)
    requires Announces(z, path, args, env) && k < z.Count()
    ensures |AllItems(argv, envp, path, args, env)| == z.Count()
    ensures AllItems(argv, envp, path, args, env)[k] == Item(SlotOf(z, argv, envp, k), StringOf(path, args, env, k))
    ensures z.Size(k) == I32(|StringOf(path, args, env, k)| + 1)
  {
    hide AppArgs, I32;
  }

  /** The first call announces the very number of bytes that the second one writes, for every string, if and only
      if no string is too long for an `i32`. */
  lemma SizesMatchDeliveries(z: Sizes, argv: nat, envp: nat, path: Str, args: seq<Str>, env: seq<Variable>)
    requires Announces(z, path, args, env)
    ensures |AllItems(argv, envp, path, args, env)| == z.Count()
    ensures (forall k :: 0 <= k < z.Count() ==> z.Size(k) == |AllItems(argv, envp, path, args, env)[k].Bytes()|)
      <==> AllShort(path, args, env)
  {
    hide AppArgs, I32, Announces, ArgStrings, EnvStrings, AllItems, StringOf, Sizes.Size, Short;
    CountOf(z, argv, envp, path, args, env);
    forall k | 0 <= k < z.Count()
      ensures z.Size(k) == |AllItems(argv, envp, path, args, env)[k].Bytes()| <==> Short(StringOf(path, args, env, k))
    {
      MatchesIffShort(z, argv, envp, path, args, env, k);
    }
  }

  lemma MatchesIffShort(z: Sizes, argv: nat, envp: nat, path: Str, args: seq<Str>, env: seq<Variable>, k: nat)
    requires Announces(z, path, args, env) && k < z.Count()
    ensures |AllItems(argv, envp, path, args, env)| == z.Count()
    ensures z.Size(k) == |AllItems(argv, envp, path, args, env)[k].Bytes()| <==> Short(StringOf(path, args, env, k))
  {
    hide AppArgs, I32;
    ItemOf(z, argv, envp, path, args, env, k);
    I32Exact(|StringOf(path, args, env, k)| + 1);
  }

  lemma CountOf(z: Sizes, argv: nat, envp: nat, path: Str, args: seq<Str>, env: seq<Variable>)
    requires Announces(z, path, args, env)
    ensures z.Valid() && z.Count() == |ArgStrings(path, args)| + |EnvStrings(env)|
    ensures |AllItems(argv, envp, path, args, env)| == z.Count()
  {
    hide AppArgs, I32;
  }

  /** A variable of 4 GiB would be announced as one byte; Linux hands no program a string of more than 128 KiB. */
  lemma LongVariableIsCut(z: Sizes, argv: nat, envp: nat, path: Str, args: seq<Str>, v: Variable)
    requires Announces(z, path, args, [v]) && |EnvString(v)| == 2 * TWO31
    ensures var items, n := AllItems(argv, envp, path, args, [v]), |ArgStrings(path, args)|;
      z.envsz[0] == 1 && |items| == n + 1 && |items[n].Bytes()| == 2 * TWO31 + 1
  {
    hide AppArgs;
    ItemOf(z, argv, envp, path, args, [v], |ArgStrings(path, args)|);
  }

  lemma RoomIsReserved(m: seq<byte>, z: Sizes, argv: nat, envp: nat, path: Str, args: seq<Str>, env: seq<Variable>)
    requires Announces(z, path, args, env) && AllShort(path, args, env) && RoomFor(m, z, argv, envp)
    ensures Reserved(m, AllItems(argv, envp, path, args, env))
  {
    hide AppArgs, I32, Word, AllShort, Announces;
    var items := AllItems(argv, envp, path, args, env);
    CountOf(z, argv, envp, path, args, env);
    SizesMatchDeliveries(z, argv, envp, path, args, env);
    forall k | 0 <= k < |items|
      ensures items[k].slot == SlotOf(z, argv, envp, k) && |items[k].str| + 1 == z.Size(k)
    {
      ItemOf(z, argv, envp, path, args, env, k);
    }
    assert PointersInMemory(m, items);
    forall j, k | 0 <= j < k < |items| ensures BuffersApart(m, items[j], items[k]) {
      assert RoomApart(m, z, argv, envp, j, k);
    }
    forall j, k | 0 <= j < |items| && 0 <= k < |items| ensures PointerApart(m, items[j], items[k]) {
      assert RoomOffTable(m, z, argv, envp, j, k);
    }
  }

  /** Once the sizes have been announced and the guest has made room for them, the second call fills each buffer
      with exactly its NUL-terminated string and changes no other byte. */
  lemma TwoPhases(m: seq<byte>, z: Sizes, argv: nat, envp: nat, path: Str, args: seq<Str>, env: seq<Variable>)
    requires Announces(z, path, args, env) && AllShort(path, args, env) && RoomFor(m, z, argv, envp)
    ensures var items := AllItems(argv, envp, path, args, env); Deliverable(m, items, |items|)
    ensures PassedOn(m, Final(m, argv, envp, path, args, env), z, argv, envp, path, args, env)
  {
    hide AppArgs, I32, Word, AllShort, Announces, RoomFor, Reserved, Deliverable, Delivered;
    RoomIsReserved(m, z, argv, envp, path, args, env);
    var items := AllItems(argv, envp, path, args, env);
    StringsDelivered(m, items);
    CountOf(z, argv, envp, path, args, env);
    SizesMatchDeliveries(z, argv, envp, path, args, env);
    RoomTables(m, z, argv, envp);
    ReservedIn(m, items);
    var r := Delivered(m, items, |items|);
    forall k | 0 <= k < z.Count() ensures Filled(m, r, z, argv, envp, path, args, env, k) {
      ItemOf(z, argv, envp, path, args, env, k);
      ReservedAt(m, items, k);
    }
    forall i | 0 <= i < |m| && OffBuffers(m, z, argv, envp, i) ensures r[i] == m[i] {
      forall k | 0 <= k < |items| ensures !InBuffer(m, items[k], i) {
        ItemOf(z, argv, envp, path, args, env, k);
        assert var a := BufferOf(m, z, argv, envp, k); i < a || a + z.Size(k) <= i;
      }
      assert OutsideBuffers(m, items, i);
    }
  }

  lemma RoomTables(m: seq<byte>, z: Sizes, argv: nat, envp: nat)
    requires z.Valid() && RoomFor(m, z, argv, envp)
    ensures TablesInMemory(m, z, argv, envp)
  {
  }

  /** Guest memory after the second call. */
  ghost function Final(
    m: seq<byte>, argv: nat, envp: nat, path: Str, args: seq<Str>, env: seq<Variable>): (r: seq<byte>)
    requires var items := AllItems(argv, envp, path, args, env); Deliverable(m, items, |items|)
    ensures |r| == |m|
  {
    var items := AllItems(argv, envp, path, args, env);
    Delivered(m, items, |items|)
  }

  /** Buffer `k` holds its string in exactly the announced number of bytes. */
  ghost predicate Filled(
    m: seq<byte>, r: seq<byte>, z: Sizes, argv: nat, envp: nat, path: Str, args: seq<Str>, env: seq<Variable>, k: nat)
    requires z.Valid() && k < z.Count() == |ArgStrings(path, args)| + |EnvStrings(env)|
    requires TablesInMemory(m, z, argv, envp)
  {
    var a := BufferOf(m, z, argv, envp, k);
    0 <= z.Size(k) && a + z.Size(k) <= |r| && r[a..a + z.Size(k)] == StringOf(path, args, env, k) + [0]
  }

  ghost predicate PassedOn(
    m: seq<byte>, r: seq<byte>, z: Sizes, argv: nat, envp: nat, path: Str, args: seq<Str>, env: seq<Variable>)
  {
    && z.Valid() && z.Count() == |ArgStrings(path, args)| + |EnvStrings(env)|
    && TablesInMemory(m, z, argv, envp) && |r| == |m|
    && (forall k :: 0 <= k < z.Count() ==> Filled(m, r, z, argv, envp, path, args, env, k))
    && (forall i :: 0 <= i < |m| && OffBuffers(m, z, argv, envp, i) ==> r[i] == m[i])
  }

  /** The second call, for a guest that has prepared its memory by the answer to the first. */
  method CmdvalAfterCmdsize(
    sizes: SysCmdsize, mem: array<byte>, argv: nat, envp: nat, path: Str, args: seq<Str>, env: seq<Variable>)
    requires sizes.Valid() && Announces(sizes.Answer(), path, args, env) && AllShort(path, args, env)
    requires RoomFor(mem[..], sizes.Answer(), argv, envp)
    modifies mem
    ensures PassedOn(old(mem[..]), mem[..], sizes.Answer(), argv, envp, path, args, env)
  {
    hide Announces, AllShort, RoomFor, PassedOn, Delivered, Deliverable;
    TwoPhases(mem[..], sizes.Answer(), argv, envp, path, args, env);
    Cmdval(mem, argv, envp, path, args, env);
  }
}
