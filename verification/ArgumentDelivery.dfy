/** What the guest finds in its buffers after `cmdsize` and `cmdval` of src/vm.rs, string by string. */
module ArgumentDelivery {
  import opened Bits
  import opened GuestMemory
  import opened Arguments

  /** The arguments behind the first `--` are passed on, and none without it. */
  lemma BehindSeparator(args: seq<Str>, before: seq<Str>, after: seq<Str>)
    requires args == before + [[0x2D, 0x2D]] + after && [0x2D, 0x2D] !in before
    ensures AppArgs(args) == after
  {
    SeparatorIs(args, |before|);
    assert args[|before| + 1..] == after;
  }

  lemma NoSeparator(args: seq<Str>)
    requires [0x2D, 0x2D] !in args
    ensures AppArgs(args) == []
  {
    SeparatorIs(args, |args|);
  }

  predicate BytesAt(r: seq<byte>, a: int, s: seq<byte>) { 0 <= a && a + |s| <= |r| && r[a..a + |s|] == s }

  /** The pointer at `slot` of the guest's memory `m` leads to the bytes `s` of `r`. */
  predicate PointsTo(m: seq<byte>, r: seq<byte>, slot: nat, s: seq<byte>)
  {
    slot + 8 <= |m| && BytesAt(r, Word(m, slot), s)
  }

  /** The strings behind the separator: the counts and sizes that are announced for them. */
  lemma AnnouncedArguments(
    z: Sizes, path: Str, args: seq<Str>, before: seq<Str>, after: seq<Str>, env: seq<Variable>)
    requires Announces(z, path, args, env) && AllShort(path, args, env)
    requires args == before + [[0x2D, 0x2D]] + after && [0x2D, 0x2D] !in before
    ensures z.Valid() && z.argc == 1 + |after| && z.argsz[0] == |path| + 1
    ensures forall i :: 0 <= i < |after| ==> z.argsz[1 + i] == |after[i]| + 1
  {
    hide AppArgs, SeparatorIndex, I32, Short;
    BehindSeparator(args, before, after);
    var strs := ArgStrings(path, args);
    forall i | 0 <= i < |strs| ensures z.argsz[i] == |strs[i]| + 1 {
      assert StringOf(path, args, env, i) == strs[i];
      SizeIsExact(strs[i]);
    }
  }

  lemma SizeIsExact(s: Str)
    requires Short(s)
    ensures I32(|s| + 1) == |s| + 1
  {
    I32Exact(|s| + 1);
  }

  /** The environment: at most 128 variables, each with room for `=` and the terminator. */
  lemma AnnouncedEnvironment(z: Sizes, path: Str, args: seq<Str>, env: seq<Variable>)
    requires Announces(z, path, args, env) && AllShort(path, args, env)
    ensures z.Valid() && z.envc == if |env| <= 128 then |env| else 128
    ensures forall i :: 0 <= i < z.envc ==> i < |env| && z.envsz[i] == |env[i].key| + |env[i].value| + 2
  {
    hide AppArgs, SeparatorIndex, I32, Short;
    var strs, n := EnvStrings(env), |ArgStrings(path, args)|;
    forall i | 0 <= i < |strs| ensures z.envsz[i] == |strs[i]| + 1 {
      assert StringOf(path, args, env, n + i) == strs[i];
      SizeIsExact(strs[i]);
    }
  }

  /** The first pointer leads to the path of the kernel, and pointer `1 + i` to argument `i` behind the separator, each
      with its terminator. */
  lemma ArgumentsArrive(
    m: seq<byte>, r: seq<byte>, z: Sizes, argv: nat, envp: nat, path: Str, args: seq<Str>, env: seq<Variable>,
    before: seq<Str>, after: seq<Str>)
    requires Announces(z, path, args, env) && PassedOn(m, r, z, argv, envp, path, args, env)
    requires args == before + [[0x2D, 0x2D]] + after && [0x2D, 0x2D] !in before
    ensures PointsTo(m, r, argv, path + [0])
    ensures forall i :: 0 <= i < |after| ==> PointsTo(m, r, argv + 8 * (1 + i), after[i] + [0])
  {
    hide AppArgs, SeparatorIndex, I32, Word;
    BehindSeparator(args, before, after);
    BufferHolds(m, r, z, argv, envp, path, args, env, 0);
    forall i | 0 <= i < |after| ensures PointsTo(m, r, argv + 8 * (1 + i), after[i] + [0]) {
      BufferHolds(m, r, z, argv, envp, path, args, env, 1 + i);
    }
  }

  lemma BufferHolds(
    m: seq<byte>, r: seq<byte>, z: Sizes, argv: nat, envp: nat, path: Str, args: seq<Str>, env: seq<Variable>, k: nat)
    requires Announces(z, path, args, env) && PassedOn(m, r, z, argv, envp, path, args, env) && k < z.Count()
    ensures SlotOf(z, argv, envp, k) + 8 <= |m|
    ensures BytesAt(r, Word(m, SlotOf(z, argv, envp, k)), StringOf(path, args, env, k) + [0])
  {
    hide Word, StringOf, I32;
    assert Filled(m, r, z, argv, envp, path, args, env, k);
    var a := BufferOf(m, z, argv, envp, k);
    assert |r[a..a + z.Size(k)]| == z.Size(k);
  }

  /** Pointer `i` of the environment leads to the key, `=`, the value and the terminator of variable `i`, for the first
      128 variables. */
  lemma EnvironmentArrives(
    m: seq<byte>, r: seq<byte>, z: Sizes, argv: nat, envp: nat, path: Str, args: seq<Str>, env: seq<Variable>, i: nat)
    requires Announces(z, path, args, env) && PassedOn(m, r, z, argv, envp, path, args, env)
    requires i < |env| && i < 128
    ensures envp + 8 * i + 8 <= |m|
    ensures var a, key, value := Word(m, envp + 8 * i), env[i].key, env[i].value;
      && BytesAt(r, a, key) && BytesAt(r, a + |key|, [0x3D])
      && BytesAt(r, a + |key| + 1, value) && BytesAt(r, a + |key| + 1 + |value|, [0])
  {
    hide AppArgs, I32, Word, PassedOn, BytesAt;
    var n := |ArgStrings(path, args)|;
    assert SlotOf(z, argv, envp, n + i) == envp + 8 * i;
    BufferHolds(m, r, z, argv, envp, path, args, env, n + i);
    assert StringOf(path, args, env, n + i) == EnvString(env[i]);
    SplitBytes(r, Word(m, envp + 8 * i), env[i].key, env[i].value);
  }

  lemma SplitBytes(r: seq<byte>, a: nat, key: Str, value: Str)
    requires BytesAt(r, a, key + [0x3D] + value + [0])
    ensures BytesAt(r, a, key) && BytesAt(r, a + |key|, [0x3D])
    ensures BytesAt(r, a + |key| + 1, value) && BytesAt(r, a + |key| + 1 + |value|, [0])
  {
    var s := key + [0x3D] + value + [0];
    var k, v := |key|, |value|;
    assert s[..k] == key && s[k..k + 1] == [0x3D] && s[k + 1..k + 1 + v] == value && s[k + 1 + v..] == [0];
    PartAt(r, a, s, 0, k);
    PartAt(r, a, s, k, k + 1);
    PartAt(r, a, s, k + 1, k + 1 + v);
    PartAt(r, a, s, k + 1 + v, k + 2 + v);
  }

  lemma PartAt(r: seq<byte>, a: nat, s: seq<byte>, lo: nat, hi: nat)
    requires BytesAt(r, a, s) && lo <= hi <= |s|
    ensures BytesAt(r, a + lo, s[lo..hi])
  {
    var x, y := r[a..a + |s|], r[a + lo..a + hi];
    assert x == s;
    forall j | 0 <= j < hi - lo ensures y[j] == s[lo + j] { assert x[lo + j] == r[a + lo + j]; }
    assert y == s[lo..hi];
  }
}
