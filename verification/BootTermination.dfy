/** When the main thread of `run_no_gdb` (src/linux/mod.rs) comes to its end.

    It waits for a partner at the barrier, and then joins every thread.  Two things can keep it
    waiting for ever: a core that leaves before it has let its successor in, and an even number
    of cores that exit with a code, since the barrier pairs them off.  `EndsIff` shows that
    there is nothing else.
 */
module BootTermination {
  import opened BootProtocol
  import opened Options

  predicate Done(m: Main) { m.Returned? || m.Panicked? }

  /** Every core is at the barrier or has ended. */
  ghost predicate Quiet(s: State) { forall i :: 0 <= i < |s.cpus| ==> s.cpus[i].Waiting? || s.cpus[i].Finished? }

  /** The codes of the cores that exited with one, those still at the barrier included. */
  function ArrivedCodes(cpus: seq<Cpu>): seq<int>
  {
    if cpus == [] then []
    else
      var last := cpus[|cpus| - 1];
      ArrivedCodes(cpus[..|cpus| - 1]) +
      (if last.Waiting? then [last.code] else if last.Finished? && last.result.Some? then [last.result.value] else [])
  }

  lemma {:induction false} CodesArrived(cpus: seq<Cpu>)
    ensures |ArrivedCodes(cpus)| == ArrivedCpus(cpus)
    ensures AllFinished(cpus) ==> ArrivedCodes(cpus) == ExitCodes(cpus)
  {
    if cpus != [] {
      var front, last := cpus[..|cpus| - 1], cpus[|cpus| - 1];
      CodesArrived(front);
      ArrivedAppend(front, last);
      assert cpus == front + [last];
      assert AllFinished(cpus) ==> AllFinished(front) && last.Finished?;
    }
  }

  /** Waking up does not change a core's code. */
  lemma {:induction false} WakeKeepsCodes(cpus: seq<Cpu>, i: nat)
    requires i < |cpus| && cpus[i].Waiting?
    ensures ArrivedCodes(cpus[i := Finished(Some(cpus[i].code))]) == ArrivedCodes(cpus)
  {
    var woken, n := cpus[i := Finished(Some(cpus[i].code))], |cpus| - 1;
    if i < n {
      WakeKeepsCodes(cpus[..n], i);
      assert woken[..n] == cpus[..n][i := Finished(Some(cpus[i].code))];
    } else {
      assert woken[..n] == cpus[..n];
    }
  }

  // ----- runs -----

  lemma {:induction false} RunFrom(s: State, a: Action, rest: seq<Action>)
    ensures Run(s, [a] + rest) == Run(Step(s, a), rest)
    decreases |rest|
  {
    hide Step;
    var all := [a] + rest;
    if rest == [] {
      assert all[..0] == [];
    } else {
      var front := rest[..|rest| - 1];
      assert all[..|all| - 1] == [a] + front;
      RunFrom(s, a, front);
    }
  }

  // ----- an even number of codes -----

  lemma QuietStep(s: State, a: Action)
    requires Inv(s) && Quiet(s)
    ensures Quiet(Step(s, a)) && ArrivedCodes(Step(s, a).cpus) == ArrivedCodes(s.cpus)
  {
    hide Inv, ArrivedCodes;
    match a {
      case Wake(i) =>
        if i < |s.cpus| && s.cpus[i].Waiting? && s.cpus[i].gen != s.generation { WakeKeepsCodes(s.cpus, i); }
      case _ =>
    }
  }

  lemma {:induction false} QuietRun(s: State, later: seq<Action>)
    requires Inv(s) && Quiet(s)
    ensures var t := Run(s, later); Inv(t) && Quiet(t) && ArrivedCodes(t.cpus) == ArrivedCodes(s.cpus)
  {
    hide Inv, ArrivedCodes, Step, Quiet;
    if later != [] {
      var front, a := later[..|later| - 1], later[|later| - 1];
      QuietRun(s, front);
      QuietStep(Run(s, front), a);
      StepKeepsInv(Run(s, front), a);
    }
  }

  /** When the main thread is done, the codes are odd in number, and decide how it ended. */
  lemma DoneIsRight(s: State)
    requires Inv(s) && Done(s.main)
    ensures var codes := ArrivedCodes(s.cpus);
      |codes| % 2 == 1 && s.main == if |codes| == 1 then Returned(codes[0]) else Panicked
  {
    hide ExitCodes, ArrivedCpus, ArrivedCodes;
    CodesArrived(s.cpus);
    OddNumberOfCodes(s);
  }

  // ----- an odd number of codes -----

  /** How far the cores and the main thread are from their end. */
  function Weight(c: Cpu): nat
  {
    match c
    case Spinning => 4
    case Startup => 3
    case Running => 2
    case Waiting(_, _) => 1
    case Finished(_) => 0
  }

  function Work(cpus: seq<Cpu>): nat { if cpus == [] then 0 else Weight(cpus[0]) + Work(cpus[1..]) }

  lemma {:induction false} WorkUpdate(cpus: seq<Cpu>, i: nat, c: Cpu)
    requires i < |cpus|
    ensures Work(cpus[i := c]) + Weight(cpus[i]) == Work(cpus) + Weight(c)
  {
    if i == 0 {
      assert cpus[i := c][1..] == cpus[1..];
    } else {
      assert cpus[i := c][1..] == cpus[1..][i - 1 := c];
      WorkUpdate(cpus[1..], i - 1, c);
    }
  }

  function Remaining(s: State): nat
  {
    var n := |s.cpus|;
    match s.main
    case Spawned => 2 * n + 5
    case AtBarrier(_) => 2 * n + 4
    case Kicking(next) => n + 3 + (if next <= n then n - next else 0)
    case Joining(next, _) => 1 + (if next <= n then n - next else 0)
    case Returned(_) => 0
    case Panicked => 0
  }

  /** With an odd number of arrivals and the main thread among them, nobody is left waiting for a partner. */
  lemma NobodyWaits(s: State)
    requires Inv(s) && MainArrived(s.main) && ArrivedCpus(s.cpus) % 2 == 1
    ensures s.main != AtBarrier(s.generation)
    ensures forall i :: 0 <= i < |s.cpus| && s.cpus[i].Waiting? ==> s.cpus[i].gen != s.generation
  {
    hide ArrivedCpus, ExitCodes;
    assert !SomeoneWaits(s);
    forall i | 0 <= i < |s.cpus| && s.cpus[i].Waiting? ensures s.cpus[i].gen != s.generation {
      assert !CurrentWaiter(s, i);
    }
  }

  lemma MainProgress(s: State)
    requires Inv(s) && AllFinished(s.cpus) && MainArrived(s.main) && s.main != AtBarrier(s.generation) && !Done(s.main)
    ensures Remaining(MainNext(s)) < Remaining(s) && MainNext(s).cpus == s.cpus && MainArrived(MainNext(s).main)
  {
    hide ExitCodes, ArrivedCpus;
  }

  /** The joins, once all cores have ended. */
  lemma {:induction false} JoinsEnd(s: State) returns (later: seq<Action>)
    requires Inv(s) && MainArrived(s.main) && AllFinished(s.cpus) && ArrivedCpus(s.cpus) % 2 == 1
    ensures Done(Run(s, later).main)
    decreases Remaining(s)
  {
    hide ExitCodes, ArrivedCpus, Inv;
    if Done(s.main) {
      later := [];
    } else {
      StepKeepsInv(s, MainStep);
      NobodyWaits(s);
      MainProgress(s);
      var rest := JoinsEnd(Step(s, MainStep));
      later := [MainStep] + rest;
      RunFrom(s, MainStep, rest);
    }
  }

  /** Cores that have been released wake up, and then the joins end. */
  lemma {:induction false} WakesEnd(s: State) returns (later: seq<Action>)
    requires Inv(s) && Quiet(s) && MainArrived(s.main) && ArrivedCpus(s.cpus) % 2 == 1
    ensures Done(Run(s, later).main)
    decreases Work(s.cpus)
  {
    hide ExitCodes, ArrivedCpus, Inv, Work;
    if AllFinished(s.cpus) {
      later := JoinsEnd(s);
    } else {
      var i :| 0 <= i < |s.cpus| && !s.cpus[i].Finished?;
      NobodyWaits(s);
      var c := Finished(Some(s.cpus[i].code));
      StepKeepsInv(s, Wake(i));
      ArrivedUpdate(s.cpus, i, c);
      WorkUpdate(s.cpus, i, c);
      var rest := WakesEnd(Step(s, Wake(i)));
      later := [Wake(i)] + rest;
      RunFrom(s, Wake(i), rest);
    }
  }

  /** When all cores are at the barrier or have ended, and an odd number of them has a code, the main thread can end. */
  lemma OddEnds(s: State) returns (later: seq<Action>)
    requires Inv(s) && Quiet(s) && ArrivedCpus(s.cpus) % 2 == 1
    ensures Done(Run(s, later).main)
  {
    hide ExitCodes, ArrivedCpus, Inv;
    if MainArrived(s.main) {
      later := WakesEnd(s);
    } else {
      StepKeepsInv(s, MainStep);
      MainNextArrives(s);
      var rest := WakesEnd(Step(s, MainStep));
      later := [MainStep] + rest;
      RunFrom(s, MainStep, rest);
    }
  }

  lemma MainNextArrives(s: State)
    requires s.main.Spawned?
    ensures MainArrived(MainNext(s).main) && MainNext(s).cpus == s.cpus
  {
  }

  /** What becomes of the main thread once every core is at the barrier or has ended: with an even number of codes it
      never ends; with an odd number it can end, and every end is the same, the return of the one code or the failed
      assertion. */
  lemma QuietOutcome(s: State)
    requires Inv(s) && Quiet(s)
    ensures (exists later :: Done(Run(s, later).main)) <==> |ArrivedCodes(s.cpus)| % 2 == 1
    ensures forall later :: Done(Run(s, later).main) ==>
      var codes := ArrivedCodes(s.cpus);
      Run(s, later).main == if |codes| == 1 then Returned(codes[0]) else Panicked
  {
    hide Inv, ArrivedCodes, Run, Quiet, ArrivedCpus;
    CodesArrived(s.cpus);
    forall later | Done(Run(s, later).main)
      ensures var codes := ArrivedCodes(s.cpus);
        |codes| % 2 == 1 && Run(s, later).main == if |codes| == 1 then Returned(codes[0]) else Panicked
    {
      QuietRun(s, later);
      DoneIsRight(Run(s, later));
    }
    if |ArrivedCodes(s.cpus)| % 2 == 1 {
      var later := OddEnds(s);
      assert Done(Run(s, later).main);
    }
  }

  // ----- cores that are still to come -----

  /** The core whose turn it is has left without incrementing `cpu_online`, and others come after it. */
  ghost predicate LeftEarly(s: State)
  {
    s.online + 1 < |s.cpus| && !s.cpus[s.online].Spinning? && !s.cpus[s.online].Startup?
  }

  /** Then the later cores spin for ever, and the main thread never gets through its joins. */
  lemma {:induction false} EarlyExitBlocks(s: State, actions: seq<Action>)
    requires Inv(s) && LeftEarly(s)
    ensures var t := Run(s, actions);
      && Inv(t) && LeftEarly(t) && t.online == s.online && |t.cpus| == |s.cpus|
      && (forall i :: s.online < i < |t.cpus| ==> t.cpus[i].Spinning?)
      && !Done(t.main)
  {
    hide Step, Inv;
    if actions != [] {
      var front := actions[..|actions| - 1];
      EarlyExitBlocks(s, front);
      StepKeepsInv(Run(s, front), actions[|actions| - 1]);
      StaysLeft(Run(s, front), actions[|actions| - 1]);
    }
    NotDone(Run(s, actions));
  }

  lemma StaysLeft(s: State, a: Action)
    requires Inv(s) && LeftEarly(s)
    ensures LeftEarly(Step(s, a)) && Step(s, a).online == s.online
  {
    hide BarrierInv, JoinInv;
  }

  lemma NotDone(s: State)
    requires Inv(s) && LeftEarly(s)
    ensures (forall i :: s.online < i < |s.cpus| ==> s.cpus[i].Spinning?) && !Done(s.main)
  {
    hide BarrierInv;
    assert s.cpus[s.online + 1].Spinning?;
  }

  /** The next core can still be admitted if and only if the core whose turn it is has not left early. */
  lemma NextAdmittedIff(s: State)
    requires Inv(s) && s.online + 1 < |s.cpus|
    ensures (exists actions :: Admitted(Run(s, actions), s.online + 1)) <==> !LeftEarly(s)
  {
    hide Run, Inv;
    if LeftEarly(s) {
      forall actions ensures !Admitted(Run(s, actions), s.online + 1) { EarlyExitBlocks(s, actions); }
    } else {
      var actions := AdmitsNext(s);
      assert Admitted(Run(s, actions), s.online + 1);
    }
  }

  predicate Admitted(s: State, i: nat) { i < |s.cpus| && !s.cpus[i].Spinning? }

  lemma AdmitsNext(s: State) returns (actions: seq<Action>)
    requires Inv(s) && s.online + 1 < |s.cpus| && !LeftEarly(s)
    ensures Admitted(Run(s, actions), s.online + 1)
  {
    hide BarrierInv, JoinInv;
    var i := s.online;
    assert s.cpus[i + 1].Spinning?;
    var tail := [Increment(i), Admit(i + 1)];
    var started := Step(s, Admit(i));
    assert s.cpus[i].Spinning? ==> started.cpus[i].Startup?;
    var from := if s.cpus[i].Spinning? then started else s;
    RunFrom(from, Increment(i), [Admit(i + 1)]);
    assert tail == [Increment(i)] + [Admit(i + 1)];
    RunFrom(Step(from, Increment(i)), Admit(i + 1), []);
    assert [Admit(i + 1)] == [Admit(i + 1)] + [];
    if s.cpus[i].Spinning? {
      actions := [Admit(i)] + tail;
      RunFrom(s, Admit(i), tail);
    } else {
      actions := tail;
    }
  }

  predicate Active(c: Cpu) { c.Spinning? || InGuest(c) }

  ghost predicate SomeActive(s: State) { exists i :: 0 <= i < |s.cpus| && Active(s.cpus[i]) }

  /** The main thread can still end as far as the cores go. */
  ghost predicate Open(s: State)
  {
    !LeftEarly(s) && (SomeActive(s) || ArrivedCpus(s.cpus) % 2 == 1)
  }

  /** The next step of the cores towards an odd number of codes. */
  lemma OpenStep(s: State) returns (a: Action)
    requires Inv(s) && Open(s) && SomeActive(s)
    ensures Open(Step(s, a)) && Work(Step(s, a).cpus) < Work(s.cpus)
  {
    hide ArrivedCpus, Work, BarrierInv, JoinInv;
    var i := s.online;
    if i < |s.cpus| && s.cpus[i].Spinning? {
      a := Admit(i);
      WorkUpdate(s.cpus, i, Startup);
      assert Active(Step(s, a).cpus[i]);
    } else if i < |s.cpus| && s.cpus[i].Startup? {
      a := Increment(i);
      WorkUpdate(s.cpus, i, Running);
      assert Active(Step(s, a).cpus[i]);
    } else {
      a := LastSteps(s);
    }
  }

  /** All cores have been admitted: end one of them, with a code exactly if the number of codes is even. */
  lemma LastSteps(s: State) returns (a: Action)
    requires Inv(s) && Open(s) && SomeActive(s)
    requires s.online < |s.cpus| ==> !s.cpus[s.online].Spinning? && !s.cpus[s.online].Startup?
    ensures Open(Step(s, a)) && Work(Step(s, a).cpus) < Work(s.cpus)
  {
    hide ArrivedCpus, Work, BarrierInv, JoinInv;
    var i :| 0 <= i < |s.cpus| && Active(s.cpus[i]);
    if ArrivedCpus(s.cpus) % 2 == 1 {
      a := Stop(i);
    } else {
      a := Exit(i, 0);
    }
    var c := Step(s, a).cpus[i];
    WorkUpdate(s.cpus, i, c);
    ArrivedUpdate(s.cpus, i, c);
  }

  lemma {:induction false} OpenEnds(s: State) returns (later: seq<Action>)
    requires Inv(s) && Open(s)
    ensures Done(Run(s, later).main)
    decreases Work(s.cpus)
  {
    hide ArrivedCpus, Work, Inv, LeftEarly, Step;
    if SomeActive(s) {
      var a := OpenStep(s);
      StepKeepsInv(s, a);
      var rest := OpenEnds(Step(s, a));
      later := [a] + rest;
      RunFrom(s, a, rest);
    } else {
      assert Quiet(s) by {
        forall i | 0 <= i < |s.cpus| ensures s.cpus[i].Waiting? || s.cpus[i].Finished? { assert !Active(s.cpus[i]); }
      }
      later := OddEnds(s);
    }
  }

  /** In every run, at every point: the main thread can still come to its end if and only if no core has left before
      letting its successor in, and some core is still to exit or an odd number has exited with a code. */
  lemma EndsIff(n: nat, actions: seq<Action>)
    ensures var s := Run(Init(n), actions);
      (exists later :: Done(Run(s, later).main)) <==>
      !LeftEarly(s) && (SomeActive(s) || ArrivedCpus(s.cpus) % 2 == 1)
  {
    hide Run, Inv, ArrivedCpus, LeftEarly, SomeActive;
    InitInv(n);
    RunKeepsInv(Init(n), actions);
    StateEndsIff(Run(Init(n), actions));
  }

  lemma StateEndsIff(s: State)
    requires Inv(s)
    ensures (exists later :: Done(Run(s, later).main)) <==> Open(s)
  {
    hide Run, Inv, ArrivedCpus, LeftEarly, Done, ArrivedCodes;
    if Open(s) {
      var later := OpenEnds(s);
      assert Done(Run(s, later).main);
    } else if LeftEarly(s) {
      forall later ensures !Done(Run(s, later).main) { EarlyExitBlocks(s, later); }
    } else {
      assert Quiet(s) by {
        forall i | 0 <= i < |s.cpus| ensures s.cpus[i].Waiting? || s.cpus[i].Finished? { assert !Active(s.cpus[i]); }
      }
      CodesArrived(s.cpus);
      QuietOutcome(s);
    }
  }

  // ----- the hangs, as runs -----

  /** The main thread never ends, and neither do the joins. */
  ghost predicate Hangs(s: State) { forall later :: !Done(Run(s, later).main) }

  lemma EvenHangs(s: State)
    requires Inv(s) && Quiet(s) && |ArrivedCodes(s.cpus)| % 2 == 0
    ensures Hangs(s)
  {
    hide Inv, Quiet, Run, ArrivedCodes, Done;
    forall later ensures !Done(Run(s, later).main) {
      QuietRun(s, later);
      if Done(Run(s, later).main) { DoneIsRight(Run(s, later)); }
    }
  }

  /** Two cores exit before the main thread reaches the barrier: they let each other through, and it waits alone. */
  function TwoExits(c: int, d: int): seq<Action>
  {
    [Admit(0), Increment(0), Admit(1), Exit(0, c), Exit(1, d), Wake(0), MainStep]
  }

  lemma TwoExitersHang(c: int, d: int)
    ensures var s := Run(Init(2), TwoExits(c, d));
      s.cpus == [Finished(Some(c)), Finished(Some(d))] && s.main == AtBarrier(s.generation) && Hangs(s)
  {
    hide Hangs, ArrivedCodes, Inv, Run;
    InitInv(2);
    RunKeepsInv(Init(2), TwoExits(c, d));
    RunSeven(Init(2), TwoExits(c, d));
    assert Init(2).cpus == [Spinning, Spinning];
    TwoCodes(Finished(Some(c)), Finished(Some(d)));
    var s := Run(Init(2), TwoExits(c, d));
    assert s.cpus == [Finished(Some(c)), Finished(Some(d))];
    EvenHangs(s);
  }

  /** One core pairs with the main thread, and the next one to exit waits for a partner that never comes: the main
      thread blocks in its join. */
  function LateExit(c: int, d: int): seq<Action>
  {
    [Admit(0), Increment(0), Admit(1), MainStep, Exit(0, c), MainStep, Exit(1, d)]
  }

  lemma LateExiterHangs(c: int, d: int)
    ensures var s := Run(Init(2), LateExit(c, d));
      && |s.cpus| == 2 && s.cpus[0] == Finished(Some(c)) && CurrentWaiter(s, 1) && MainPassed(s.main) && Hangs(s)
      && forall later :: |Run(s, later).cpus| == 2 && Run(s, later).cpus[1].Waiting?
  {
    hide Hangs, ArrivedCodes, Inv, Run;
    InitInv(2);
    RunKeepsInv(Init(2), LateExit(c, d));
    RunSeven(Init(2), LateExit(c, d));
    assert Init(2).cpus == [Spinning, Spinning];
    var s := Run(Init(2), LateExit(c, d));
    assert s.cpus == [Finished(Some(c)), Waiting(d, 1)];
    TwoCodes(Finished(Some(c)), Waiting(d, 1));
    EvenHangs(s);
    forall later ensures Run(s, later).cpus == s.cpus && Run(s, later).generation == s.generation {
      StillWaiting(s, later);
    }
  }

  /** With one core ended and the other the current waiter, only the main thread moves, and not to the barrier. */
  lemma {:induction false} StillWaiting(s: State, later: seq<Action>)
    requires |s.cpus| == 2 && s.cpus[0].Finished? && CurrentWaiter(s, 1) && MainPassed(s.main)
    ensures var t := Run(s, later); t.cpus == s.cpus && t.generation == s.generation && MainPassed(t.main)
  {
    hide Step;
    if later != [] {
      StillWaiting(s, later[..|later| - 1]);
      OnlyMainMoves(Run(s, later[..|later| - 1]), later[|later| - 1]);
    }
  }

  lemma OnlyMainMoves(s: State, a: Action)
    requires |s.cpus| == 2 && s.cpus[0].Finished? && CurrentWaiter(s, 1) && MainPassed(s.main)
    ensures var t := Step(s, a); t.cpus == s.cpus && t.generation == s.generation && MainPassed(t.main)
  {
  }

  lemma TwoCodes(a: Cpu, b: Cpu)
    requires Arrived(a) && Arrived(b)
    ensures |ArrivedCodes([a, b])| == 2
  {
    CodesArrived([a, b]);
    assert [a, b][1..] == [b] && [b][1..] == [];
    assert ArrivedCpus([b]) == 1;
  }

  lemma RunSeven(s: State, a: seq<Action>)
    requires |a| == 7
    ensures Run(s, a) == Step(Step(Step(Step(Step(Step(Step(s, a[0]), a[1]), a[2]), a[3]), a[4]), a[5]), a[6])
  {
    hide Step;
    forall k | 0 <= k < 7 ensures a[..k + 1][..k] == a[..k] { }
    assert a[..7] == a;
    assert Run(s, a[..0]) == s;
    assert Run(s, a[..1]) == Step(s, a[0]);
    assert Run(s, a[..2]) == Step(Run(s, a[..1]), a[1]);
    assert Run(s, a[..3]) == Step(Run(s, a[..2]), a[2]);
    assert Run(s, a[..4]) == Step(Run(s, a[..3]), a[3]);
    assert Run(s, a[..5]) == Step(Run(s, a[..4]), a[4]);
    assert Run(s, a[..6]) == Step(Run(s, a[..5]), a[5]);
  }

  /** A core that exits during its startup code. */
  lemma EarlyExitHappens(c: int)
    ensures var s := Run(Init(2), [Admit(0), Exit(0, c)]); LeftEarly(s) && Hangs(s)
  {
    hide Run, Inv, Done;
    InitInv(2);
    RunKeepsInv(Init(2), [Admit(0), Exit(0, c)]);
    RunTwo(Init(2), Admit(0), Exit(0, c));
    assert Init(2).cpus == [Spinning, Spinning];
    var s := Run(Init(2), [Admit(0), Exit(0, c)]);
    forall later ensures !Done(Run(s, later).main) { EarlyExitBlocks(s, later); }
  }

  lemma RunTwo(s: State, a: Action, b: Action)
    ensures Run(s, [a, b]) == Step(Step(s, a), b)
  {
    hide Step;
    RunFrom(s, a, [b]);
    RunFrom(Step(s, a), b, []);
    assert [a, b] == [a] + [b] && [b] == [b] + [];
    assert Run(Step(Step(s, a), b), []) == Step(Step(s, a), b);
  }
}
