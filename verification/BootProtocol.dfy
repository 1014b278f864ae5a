/** Boot and exit of the virtual CPUs (`run_no_gdb` of src/linux/mod.rs).

    One thread per core spins until `cpu_online` equals its number, enters the guest, and
    ends with an exit code, a kick or a crash.  A thread that has an exit code meets the main
    thread, or another such thread, at a barrier for two.  The main thread then kicks and
    joins all threads and collects the codes.  Each core's guest startup code increments
    `cpu_online` once.  All threads take their steps in any order.
 */
module BootProtocol {
  import opened Options

  /** Startup: in the guest, `cpu_online` not yet incremented.  Waiting: at the barrier since generation `gen`. */
  datatype Cpu = Spinning | Startup | Running | Waiting(code: int, gen: nat) | Finished(result: Option<int>)

  datatype Main = Spawned | AtBarrier(gen: nat) | Kicking(next: nat) | Joining(next: nat, codes: seq<int>)
                | Returned(code: int) | Panicked

  /** `count` and `generation` are the state of the reusable barrier; `kicks` is history: the cores that were sent
      the kick signal. */
  datatype State = State(cpus: seq<Cpu>, online: nat, main: Main, count: nat, generation: nat, kicks: seq<nat>)

  datatype Action =
    | Admit(cpu: nat)
    | Increment(cpu: nat)
    | Exit(cpu: nat, code: int)
    | Stop(cpu: nat)
    | Wake(cpu: nat)
    | MainStep

  function Init(n: nat): State { State(seq(n, _ => Spinning), 0, Spawned, 0, 0, []) }

  predicate InGuest(c: Cpu) { c.Startup? || c.Running? }

  /** `barrier.wait()` of a core: the first of two waits, the second opens the next generation and goes on. */
  function CpuArrives(s: State, i: nat, code: int): State
    requires i < |s.cpus|
  {
    if s.count == 0 then s.(cpus := s.cpus[i := Waiting(code, s.generation)], count := 1)
    else s.(cpus := s.cpus[i := Finished(Some(code))], count := 0, generation := s.generation + 1)
  }

  function MainNext(s: State): State
  {
    match s.main
    case Spawned =>
      if s.count == 0 then s.(main := AtBarrier(s.generation), count := 1)
      else s.(main := Kicking(0), count := 0, generation := s.generation + 1)
    case AtBarrier(gen) => if gen != s.generation then s.(main := Kicking(0)) else s
    case Kicking(next) =>
      if next < |s.cpus| then s.(main := Kicking(next + 1), kicks := s.kicks + [next])
      else s.(main := Joining(0, []))
    case Joining(next, codes) =>
      if next < |s.cpus| then
        match s.cpus[next]
        case Finished(Some(code)) => s.(main := Joining(next + 1, codes + [code]))
        case Finished(None) => s.(main := Joining(next + 1, codes))
        case _ => s
      else if |codes| == 1 then s.(main := Returned(codes[0]))
      else s.(main := Panicked)
    case Returned(_) => s
    case Panicked => s
  }

  /** One step; an action whose guard is false changes nothing. */
  function Step(s: State, a: Action): State
  {
    match a
    case Admit(i) =>
      if i < |s.cpus| && s.cpus[i].Spinning? && i == s.online then s.(cpus := s.cpus[i := Startup]) else s
    case Increment(i) =>
      if i < |s.cpus| && s.cpus[i].Startup? then s.(cpus := s.cpus[i := Running], online := s.online + 1) else s
    case Exit(i, code) => if i < |s.cpus| && InGuest(s.cpus[i]) then CpuArrives(s, i, code) else s
    case Stop(i) => if i < |s.cpus| && InGuest(s.cpus[i]) then s.(cpus := s.cpus[i := Finished(None)]) else s
    case Wake(i) =>
      if i < |s.cpus| && s.cpus[i].Waiting? && s.cpus[i].gen != s.generation
      then s.(cpus := s.cpus[i := Finished(Some(s.cpus[i].code))]) else s
    case MainStep => MainNext(s)
  }

  // ----- admission -----

  /** Cores below `online` have been admitted, cores above it have not, and only core `online` can be in startup. */
  ghost predicate Admission(s: State)
  {
    && s.online <= |s.cpus|
    && (forall i :: 0 <= i < s.online ==> !s.cpus[i].Spinning?)
    && (forall i :: s.online < i < |s.cpus| ==> s.cpus[i].Spinning?)
    && (forall i :: 0 <= i < |s.cpus| && s.cpus[i].Startup? ==> i == s.online)
  }

  // ----- the barrier -----

  predicate Arrived(c: Cpu) { c.Waiting? || (c.Finished? && c.result.Some?) }

  function ArrivedCpus(cpus: seq<Cpu>): nat
  {
    if cpus == [] then 0 else (if Arrived(cpus[0]) then 1 else 0) + ArrivedCpus(cpus[1..])
  }

  predicate MainArrived(m: Main) { !m.Spawned? }

  predicate MainPassed(m: Main) { !m.Spawned? && !m.AtBarrier? }

  ghost predicate SomeoneWaits(s: State)
  {
    || s.main == AtBarrier(s.generation)
    || exists i :: 0 <= i < |s.cpus| && CurrentWaiter(s, i)
  }

  ghost predicate CurrentWaiter(s: State, i: nat)
    requires i < |s.cpus|
  {
    s.cpus[i].Waiting? && s.cpus[i].gen == s.generation
  }

  ghost predicate BarrierInv(s: State)
  {
    && s.count <= 1
    && (s.count == 1 <==> SomeoneWaits(s))
    && (forall i :: 0 <= i < |s.cpus| && s.cpus[i].Waiting? ==> s.cpus[i].gen <= s.generation)
    && (s.main.AtBarrier? ==> s.main.gen <= s.generation)
    && ArrivedCpus(s.cpus) + (if MainArrived(s.main) then 1 else 0) == 2 * s.generation + s.count
    && (MainPassed(s.main) ==> s.generation >= 1)
  }

  // ----- joining -----

  function ExitCodes(cpus: seq<Cpu>): seq<int>
  {
    if cpus == [] then []
    else
      var last := cpus[|cpus| - 1];
      ExitCodes(cpus[..|cpus| - 1]) + (if last.Finished? && last.result.Some? then [last.result.value] else [])
  }

  ghost predicate AllFinished(cpus: seq<Cpu>) { forall i :: 0 <= i < |cpus| ==> cpus[i].Finished? }

  ghost predicate JoinInv(s: State)
  {
    match s.main
    case Joining(next, codes) =>
      next <= |s.cpus| && AllFinished(s.cpus[..next]) && codes == ExitCodes(s.cpus[..next])
    case Returned(code) => AllFinished(s.cpus) && ExitCodes(s.cpus) == [code]
    case Panicked => AllFinished(s.cpus) && |ExitCodes(s.cpus)| != 1
    case _ => true
  }

  ghost predicate Inv(s: State) { Admission(s) && BarrierInv(s) && JoinInv(s) }

  lemma InitInv(n: nat)
    ensures Inv(Init(n))
  {
    NobodyArrived(Init(n).cpus);
  }

  lemma {:induction false} NobodyArrived(cpus: seq<Cpu>)
    requires forall i :: 0 <= i < |cpus| ==> !Arrived(cpus[i])
    ensures ArrivedCpus(cpus) == 0
  {
    if cpus != [] { NobodyArrived(cpus[1..]); }
  }

  lemma {:induction false} ArrivedUpdate(cpus: seq<Cpu>, i: nat, c: Cpu)
    requires i < |cpus|
    ensures ArrivedCpus(cpus[i := c]) + (if Arrived(cpus[i]) then 1 else 0)
      == ArrivedCpus(cpus) + (if Arrived(c) then 1 else 0)
  {
    if i == 0 {
      assert cpus[i := c][1..] == cpus[1..];
    } else {
      assert cpus[i := c][1..] == cpus[1..][i - 1 := c];
      ArrivedUpdate(cpus[1..], i - 1, c);
    }
  }

  /** A core that is not finished lies outside the joined prefix, so changing it keeps what was collected. */
  lemma JoinedPrefix(s: State, i: nat, c: Cpu)
    requires JoinInv(s) && i < |s.cpus| && !s.cpus[i].Finished?
    ensures JoinInv(s.(cpus := s.cpus[i := c]))
  {
    if s.main.Joining? {
      var next := s.main.next;
      forall j | 0 <= j < next ensures s.cpus[j].Finished? { assert s.cpus[..next][j] == s.cpus[j]; }
      assert s.cpus[i := c][..next] == s.cpus[..next];
    }
  }

  lemma AdmitKeeps(s: State, i: nat)
    requires Inv(s) && i < |s.cpus| && s.cpus[i].Spinning? && i == s.online
    ensures Inv(s.(cpus := s.cpus[i := Startup]))
  {
    var t := s.(cpus := s.cpus[i := Startup]);
    ArrivedUpdate(s.cpus, i, Startup);
    JoinedPrefix(s, i, Startup);
    WaitersKept(s, t, i);
  }

  lemma IncrementKeeps(s: State, i: nat)
    requires Inv(s) && i < |s.cpus| && s.cpus[i].Startup?
    ensures Inv(s.(cpus := s.cpus[i := Running], online := s.online + 1))
  {
    var t := s.(cpus := s.cpus[i := Running], online := s.online + 1);
    ArrivedUpdate(s.cpus, i, Running);
    JoinedPrefix(s, i, Running);
    WaitersKept(s, t, i);
  }

  /** Replacing a core that is not a current waiter by one that is not keeps whether someone waits. */
  lemma WaitersKept(s: State, t: State, i: nat)
    requires i < |s.cpus| == |t.cpus| && t.cpus == s.cpus[i := t.cpus[i]]
    requires t.generation == s.generation && t.main == s.main
    requires !CurrentWaiter(s, i) && !CurrentWaiter(t, i)
    ensures SomeoneWaits(t) <==> SomeoneWaits(s)
  {
    forall k | 0 <= k < |s.cpus| ensures CurrentWaiter(s, k) <==> CurrentWaiter(t, k) { }
  }

  lemma StopKeeps(s: State, i: nat)
    requires Inv(s) && i < |s.cpus| && InGuest(s.cpus[i])
    ensures Inv(s.(cpus := s.cpus[i := Finished(None)]))
  {
    var t := s.(cpus := s.cpus[i := Finished(None)]);
    ArrivedUpdate(s.cpus, i, Finished(None));
    JoinedPrefix(s, i, Finished(None));
    WaitersKept(s, t, i);
  }

  lemma WakeKeeps(s: State, i: nat)
    requires Inv(s) && i < |s.cpus| && s.cpus[i].Waiting? && s.cpus[i].gen != s.generation
    ensures Inv(s.(cpus := s.cpus[i := Finished(Some(s.cpus[i].code))]))
  {
    var c := Finished(Some(s.cpus[i].code));
    var t := s.(cpus := s.cpus[i := c]);
    ArrivedUpdate(s.cpus, i, c);
    JoinedPrefix(s, i, c);
    WaitersKept(s, t, i);
  }

  lemma ExitKeeps(s: State, i: nat, code: int)
    requires Inv(s) && i < |s.cpus| && InGuest(s.cpus[i])
    ensures Inv(CpuArrives(s, i, code))
  {
    hide ArrivedCpus;
    var t := CpuArrives(s, i, code);
    ArrivedUpdate(s.cpus, i, t.cpus[i]);
    JoinedPrefix(s, i, t.cpus[i]);
    if s.count == 0 {
      assert CurrentWaiter(t, i);
    } else {
      forall k | 0 <= k < |t.cpus| ensures !CurrentWaiter(t, k) { }
    }
  }

  lemma MainKeeps(s: State)
    requires Inv(s)
    ensures Inv(MainNext(s))
  {
    hide ArrivedCpus;
    var t := MainNext(s);
    match s.main {
      case Spawned => MainArrives(s);
      case AtBarrier(gen) => SameWaiters(s, t);
      case Kicking(next) => SameWaiters(s, t); assert s.cpus[..0] == [];
      case Joining(next, codes) =>
        SameWaiters(s, t);
        if next < |s.cpus| {
          assert s.cpus[..next + 1][..next] == s.cpus[..next];
        } else {
          assert s.cpus[..next] == s.cpus;
        }
      case Returned(_) =>
      case Panicked =>
    }
  }

  lemma MainArrives(s: State)
    requires Inv(s) && s.main.Spawned?
    ensures Inv(MainNext(s))
  {
    hide ArrivedCpus;
    var t := MainNext(s);
    if s.count != 0 {
      forall k | 0 <= k < |t.cpus| ensures !CurrentWaiter(t, k) { }
    }
  }

  lemma SameWaiters(s: State, t: State)
    requires t.cpus == s.cpus && t.generation == s.generation
    requires s.main == AtBarrier(s.generation) <==> t.main == AtBarrier(t.generation)
    ensures SomeoneWaits(t) <==> SomeoneWaits(s)
  {
    forall k | 0 <= k < |s.cpus| ensures CurrentWaiter(s, k) <==> CurrentWaiter(t, k) { }
  }

  lemma StepKeepsInv(s: State, a: Action)
    requires Inv(s)
    ensures Inv(Step(s, a)) && |Step(s, a).cpus| == |s.cpus|
  {
    hide Inv;
    match a {
      case Admit(i) =>
      if i < |s.cpus| && s.cpus[i].Spinning? && i == s.online { AdmitKeeps(s, i); }
      case Increment(i) => if i < |s.cpus| && s.cpus[i].Startup? { IncrementKeeps(s, i); }
      case Exit(i, code) => if i < |s.cpus| && InGuest(s.cpus[i]) { ExitKeeps(s, i, code); }
      case Stop(i) => if i < |s.cpus| && InGuest(s.cpus[i]) { StopKeeps(s, i); }
      case Wake(i) => if i < |s.cpus| && s.cpus[i].Waiting? && s.cpus[i].gen != s.generation { WakeKeeps(s, i); }
      case MainStep => MainKeeps(s);
    }
  }

  function Run(s: State, actions: seq<Action>): State
  {
    if actions == [] then s else Step(Run(s, actions[..|actions| - 1]), actions[|actions| - 1])
  }

  lemma {:induction false} RunKeepsInv(s: State, actions: seq<Action>)
    requires Inv(s)
    ensures Inv(Run(s, actions)) && |Run(s, actions).cpus| == |s.cpus|
  {
    hide Inv, Step;
    if actions != [] {
      RunKeepsInv(s, actions[..|actions| - 1]);
      StepKeepsInv(Run(s, actions[..|actions| - 1]), actions[|actions| - 1]);
    }
  }

  // ----- what holds of every run -----

  /** Admitted cores are always a prefix, and at most one core is in its startup code. */
  lemma AdmissionInOrder(n: nat, actions: seq<Action>)
    ensures var s := Run(Init(n), actions);
      && |s.cpus| == n
      && (forall i, j :: 0 <= i < j < n && s.cpus[i].Spinning? ==> s.cpus[j].Spinning?)
      && (forall i, j :: 0 <= i < n && 0 <= j < n && s.cpus[i].Startup? && s.cpus[j].Startup? ==> i == j)
  {
    hide Run;
    InitInv(n);
    RunKeepsInv(Init(n), actions);
  }

  /** How many cores the main thread has kicked. */
  function Kicked(s: State): nat
  {
    match s.main
    case Spawned => 0
    case AtBarrier(_) => 0
    case Kicking(next) => next
    case _ => |s.cpus|
  }

  ghost predicate KickInv(s: State)
  {
    |s.kicks| == Kicked(s) <= |s.cpus| && forall i :: 0 <= i < |s.kicks| ==> s.kicks[i] == i
  }

  lemma {:induction false} RunKeepsKicks(s: State, actions: seq<Action>)
    requires KickInv(s)
    ensures KickInv(Run(s, actions)) && |Run(s, actions).cpus| == |s.cpus|
  {
    hide Step, KickInv;
    if actions != [] {
      RunKeepsKicks(s, actions[..|actions| - 1]);
      StepKeepsKicks(Run(s, actions[..|actions| - 1]), actions[|actions| - 1]);
    }
  }

  lemma StepKeepsKicks(s: State, a: Action)
    requires KickInv(s)
    ensures KickInv(Step(s, a)) && |Step(s, a).cpus| == |s.cpus|
  {
  }

  /** In every run no core is kicked before the main thread passes the barrier, the cores are kicked in order and
      once each, and all of them have been kicked when the joins begin. */
  lemma AllKickedBeforeJoins(n: nat, actions: seq<Action>)
    ensures var s := Run(Init(n), actions);
      && |s.kicks| <= n && (forall i :: 0 <= i < |s.kicks| ==> s.kicks[i] == i)
      && (!MainPassed(s.main) ==> s.kicks == [])
      && (s.main.Joining? || s.main.Returned? || s.main.Panicked? ==> |s.kicks| == n)
  {
    RunKeepsKicks(Init(n), actions);
  }

  /** The main thread passes the barrier only after a core has exited with a code. */
  lemma PassesAfterExit(n: nat, actions: seq<Action>)
    ensures var s := Run(Init(n), actions);
      MainPassed(s.main) ==> exists i :: 0 <= i < |s.cpus| && Arrived(s.cpus[i])
  {
    hide Run, ArrivedCpus;
    InitInv(n);
    RunKeepsInv(Init(n), actions);
    var s := Run(Init(n), actions);
    if MainPassed(s.main) { SomeArrived(s.cpus); }
  }

  lemma {:induction false} SomeArrived(cpus: seq<Cpu>)
    requires ArrivedCpus(cpus) > 0
    ensures exists i :: 0 <= i < |cpus| && Arrived(cpus[i])
  {
    if Arrived(cpus[0]) {
    } else {
      SomeArrived(cpus[1..]);
      var i :| 0 <= i < |cpus[1..]| && Arrived(cpus[1..][i]);
      assert Arrived(cpus[i + 1]);
    }
  }

  lemma {:induction false} CodesCountArrived(cpus: seq<Cpu>)
    requires AllFinished(cpus)
    ensures |ExitCodes(cpus)| == ArrivedCpus(cpus)
  {
    if cpus != [] {
      var front, last := cpus[..|cpus| - 1], cpus[|cpus| - 1];
      CodesCountArrived(front);
      ArrivedAppend(front, last);
      assert cpus == front + [last];
    }
  }

  lemma {:induction false} ArrivedAppend(cpus: seq<Cpu>, c: Cpu)
    ensures ArrivedCpus(cpus + [c]) == ArrivedCpus(cpus) + (if Arrived(c) then 1 else 0)
  {
    if cpus == [] {
      assert [] + [c] == [c];
    } else {
      assert (cpus + [c])[1..] == cpus[1..] + [c];
      ArrivedAppend(cpus[1..], c);
    }
  }

  /** Joining all threads succeeds only with an odd number of exit codes: arrivals at the barrier pair up, and the
      main thread is one of them. */
  lemma OddNumberOfCodes(s: State)
    requires Inv(s) && MainPassed(s.main) && AllFinished(s.cpus)
    ensures |ExitCodes(s.cpus)| % 2 == 1
  {
    hide ArrivedCpus, ExitCodes;
    CodesCountArrived(s.cpus);
    assert !SomeoneWaits(s) by {
      forall k | 0 <= k < |s.cpus| ensures !CurrentWaiter(s, k) { }
    }
  }

  /** Once all joins are done an odd number of codes has been collected.  The main thread returns only the code of
      the one core that exited with a code, after every core was admitted and has ended, and all but the last have
      been through their startup code; it panics only when at least three cores exited with a code. */
  lemma ReturnsTheUniqueCode(n: nat, actions: seq<Action>)
    ensures var s := Run(Init(n), actions);
      && (s.main.Joining? && s.main.next == n ==> |s.main.codes| % 2 == 1)
      && (s.main.Returned? ==>
            && ExitCodes(s.cpus) == [s.main.code] && n <= s.online + 1
            && forall i :: 0 <= i < n ==> i < |s.cpus| && s.cpus[i].Finished?)
      && (s.main.Panicked? ==> |ExitCodes(s.cpus)| >= 3)
  {
    hide Run, ExitCodes, ArrivedCpus;
    InitInv(n);
    RunKeepsInv(Init(n), actions);
    var s := Run(Init(n), actions);
    assert s.cpus[..n] == s.cpus;
    if s.main.Panicked? || s.main.Returned? || (s.main.Joining? && s.main.next == n) { OddNumberOfCodes(s); }
    assert s.online + 1 < n ==> s.cpus[s.online + 1].Spinning?;
  }
}
