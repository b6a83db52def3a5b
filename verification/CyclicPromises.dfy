/** What the callers of the cyclic worker rely on: what a cleared flag says, that it is cleared, and that
    the thread can be joined. */
module CyclicPromises {
  import opened CyclicWorker

  // ----- What a cleared flag says -----

  /** The flag was set all the time before the last action. */
  ghost predicate PendingBefore(s: System, acts: seq<Action>) {
    forall k | 0 <= k < |acts| :: Run(s, acts[..k]).pending
  }

  /** A pending request for `target`, which no other command but `terminate` can redirect. */
  ghost predicate Awaiting(s: System, target: State) {
    && s.pending && s.req == target
    && (s.at.InHook? ==> Reached(s.at.h) == target)
    && forall c | Accepts(c, s.cur) :: Target(c) == target
  }

  lemma DispatchAwaiting(s: System, second: bool, target: State)
    requires Inv(s) && s.at == Dispatch(second) && Awaiting(s, target)
    ensures Awaiting(Dispatched(s, second), target)
  {
    hide Follows, Hooks, QuietAfterTerminate, NotYetTerminated, Settled;
  }

  lemma WorkerAwaiting(s: System, flag: bool, target: State)
    requires Inv(s) && Awaiting(s, target) && !s.at.Dispatch?
    ensures var t := WorkerStep(s, flag); if t.pending then Awaiting(t, target) else t.cur == target
  {
    hide Follows, Hooks, QuietAfterTerminate, NotYetTerminated, Settled, Asking, Dispatched, Compatible, Target;
  }

  lemma CommandAwaiting(s: System, a: Action, target: State)
    requires Enabled(s, a) && a != Terminate && !a.Proceed? && Awaiting(s, target)
    ensures Awaiting(Next(s, a), target)
  {
    hide WorkerStep;
  }

  lemma StepAwaiting(s: System, a: Action, target: State)
    requires Inv(s) && Enabled(s, a) && a != Terminate && Awaiting(s, target)
    ensures var t := Next(s, a); if t.pending then Awaiting(t, target) else t.cur == target
  {
    hide Inv, Awaiting, Enabled, Dispatched;
    IsPending(s, target);
    if !a.Proceed? {
      CommandAwaiting(s, a, target);
    } else if s.at.Dispatch? {
      DispatchAwaiting(s, s.at.second, target);
      DispatchKeepsPending(s, s.at.second);
    } else {
      WorkerAwaiting(s, a.flag, target);
    }
  }

  lemma DispatchKeepsPending(s: System, second: bool)
    ensures Dispatched(s, second).pending == s.pending
  {
  }

  lemma {:induction false} RunAwaiting(s: System, acts: seq<Action>, target: State)
    requires Inv(s) && Possible(s, acts) && Terminate !in acts && PendingBefore(s, acts) && Awaiting(s, target)
    ensures var t := Run(s, acts); Inv(t) && if t.pending then Awaiting(t, target) else t.cur == target
  {
    hide Inv, Next, Enabled, Awaiting;
    if acts == [] {
      IsPending(s, target);
    } else {
      var (front, a) := (acts[..|acts| - 1], acts[|acts| - 1]);
      forall k | 0 <= k < |front| ensures Run(s, front[..k]).pending {
        assert front[..k] == acts[..k];
      }
      assert a in acts && forall b | b in front :: b in acts;
      assert Run(s, acts[..|front|]).pending;
      RunAwaiting(s, front, target);
      StepKeepsInv(Run(s, front), a);
      StepAwaiting(Run(s, front), a, target);
    }
  }

  lemma IsPending(s: System, target: State)
    requires Awaiting(s, target)
    ensures s.pending
  {
  }

  lemma AcceptedIsAwaited(s: System, c: Command)
    requires Inv(s) && Enabled(s, Execute(c)) && Accepts(c, s.cur)
    ensures Awaiting(Next(s, Execute(c)), Target(c))
  {
    hide Follows, Hooks, QuietAfterTerminate, NotYetTerminated, Settled;
  }

  /** Once a command was accepted, the flag is next cleared in the state that was asked for, whatever other
      `run`, `pause` and `resume` commands take effect meanwhile. */
  lemma AcceptedIsCarriedOut(s: System, c: Command, acts: seq<Action>)
    requires Inv(s) && Enabled(s, Execute(c)) && Accepts(c, s.cur)
    requires var u := Next(s, Execute(c)); Possible(u, acts) && Terminate !in acts && PendingBefore(u, acts)
    ensures var v := Run(Next(s, Execute(c)), acts); !v.pending ==> v.cur == Target(c)
  {
    hide Inv, Run, Possible, PendingBefore;
    StepKeepsInv(s, Execute(c));
    AcceptedIsAwaited(s, c);
    RunAwaiting(Next(s, Execute(c)), acts, Target(c));
  }

  // ----- Progress -----

  /** The number of steps of the worker thread after which a pending flag is cleared. */
  function StepsLeft(at: Position): nat {
    match at
    case InHook(_, _) => 1
    case Dispatch(_) => 2
    case Working => 3
    case Top => 4
    case Start | Waiting => 5
    case Measure => 6
    case Done | Threw => 0
  }

  function Proceeds(acts: seq<Action>): nat {
    if acts == [] then 0
    else Proceeds(acts[..|acts| - 1]) + if acts[|acts| - 1].Proceed? then 1 else 0
  }

  lemma StepProgresses(s: System, a: Action)
    requires Inv(s) && s.pending && !s.quit && Enabled(s, a) && a != ForceQuit
    ensures var t := Next(s, a);
      && StepsLeft(s.at) > 0 && Enabled(s, Proceed(true)) && !t.quit
      && (t.pending ==> StepsLeft(t.at) + (if a.Proceed? then 1 else 0) <= StepsLeft(s.at))
  {
    hide Follows, Hooks, QuietAfterTerminate, NotYetTerminated, Settled, Dispatched;
    if s.at.Dispatch? {
      PendingDispatches(s, s.at.second);
    }
  }

  lemma PendingDispatches(s: System, second: bool)
    requires Inv(s) && s.pending && s.at == Dispatch(second)
    ensures Dispatched(s, second).at.InHook? && Dispatched(s, second).quit == s.quit
  {
    hide Follows, Hooks, QuietAfterTerminate, NotYetTerminated, Settled;
  }

  ghost predicate StaysPending(s: System, acts: seq<Action>) {
    forall k | 0 <= k <= |acts| :: Run(s, acts[..k]).pending
  }

  /** As long as the flag has been set all the time, the steps made and those left are at most as many as
      were left at first. */
  lemma {:induction false} RunProgresses(s: System, acts: seq<Action>)
    requires Inv(s) && !s.quit && Possible(s, acts) && ForceQuit !in acts
    requires StaysPending(s, acts)
    ensures var t := Run(s, acts);
      Inv(t) && !t.quit && Proceeds(acts) + StepsLeft(t.at) <= StepsLeft(s.at)
  {
    hide Inv, Next, Enabled;
    assert acts[..|acts|] == acts;
    if acts != [] {
      var (front, a) := (acts[..|acts| - 1], acts[|acts| - 1]);
      forall k | 0 <= k <= |front| ensures Run(s, front[..k]).pending {
        assert front[..k] == acts[..k];
      }
      assert a in acts && forall b | b in front :: b in acts;
      RunProgresses(s, front);
      assert front[..|front|] == front;
      StepKeepsInv(Run(s, front), a);
      StepProgresses(Run(s, front), a);
    }
  }

  /** While a transition is pending and the destructor has not begun, the worker thread can always make a
      step, and its steps clear the flag: six are enough from anywhere, whatever the clock does and
      whatever other commands come in between. */
  lemma FlagIsCleared(s: System, acts: seq<Action>)
    requires Inv(s) && s.pending && !s.quit
    requires Possible(s, acts) && ForceQuit !in acts && Proceeds(acts) >= StepsLeft(s.at)
    ensures 1 <= StepsLeft(s.at) <= 6 && Enabled(s, Proceed(true))
    ensures exists k | 0 <= k <= |acts| :: !Run(s, acts[..k]).pending
  {
    hide Inv, Run, Possible, Next;
    CanProceed(s);
    if StaysPending(s, acts) {
      RunProgresses(s, acts);
      var t := Run(s, acts);
      assert acts[..|acts|] == acts;
      CanProceed(t);
    }
  }

  lemma {:induction false} PossiblePrefix(s: System, acts: seq<Action>, k: nat)
    requires Possible(s, acts) && k <= |acts|
    ensures Possible(s, acts[..k])
  {
    hide Enabled, Next;
    if k == |acts| {
      assert acts[..k] == acts;
    } else {
      PossiblePrefix(s, acts[..|acts| - 1], k);
      assert acts[..|acts| - 1][..k] == acts[..k];
    }
  }

  lemma CanProceed(s: System)
    requires Inv(s) && s.pending && !s.quit
    ensures 1 <= StepsLeft(s.at) <= 6 && Enabled(s, Proceed(true))
  {
    hide Follows, Hooks, QuietAfterTerminate, NotYetTerminated, Settled;
  }

  /** The first moment at which the flag is clear. */
  lemma FirstClear(s: System, acts: seq<Action>, n: nat) returns (k: nat)
    requires n <= |acts| && !Run(s, acts[..n]).pending
    ensures k <= n && !Run(s, acts[..k]).pending && PendingBefore(s, acts[..k])
  {
    hide Run;
    k := 0;
    while Run(s, acts[..k]).pending
      invariant k <= n && forall j | 0 <= j < k :: Run(s, acts[..j]).pending
      decreases n - k
    {
      k := k + 1;
    }
    forall j | 0 <= j < k ensures Run(s, acts[..k][..j]).pending {
      assert acts[..k][..j] == acts[..j];
    }
  }

  /** Waiting for an accepted command ends, and at the first moment at which the flag is clear the state is
      the one that was asked for, unless the thread is terminated. */
  lemma WaitEnds(s: System, c: Command, acts: seq<Action>)
    requires Inv(s) && !s.quit && Enabled(s, Execute(c)) && Accepts(c, s.cur)
    requires Possible(Next(s, Execute(c)), acts) && Terminate !in acts && ForceQuit !in acts && Proceeds(acts) >= 6
    ensures var u := Next(s, Execute(c));
      exists k | 0 <= k <= |acts| ::
        PendingBefore(u, acts[..k]) && !Run(u, acts[..k]).pending && Run(u, acts[..k]).cur == Target(c)
  {
    hide Inv, Run, Possible, StepsLeft, Proceeds, Accepts, Target, PendingBefore;
    var u := Next(s, Execute(c));
    StepKeepsInv(s, Execute(c));
    CanProceed(u);
    FlagIsCleared(u, acts);
    var n :| 0 <= n <= |acts| && !Run(u, acts[..n]).pending;
    var k := FirstClear(u, acts, n);
    PossiblePrefix(u, acts, k);
    assert Terminate !in acts[..k];
    AcceptedIsCarriedOut(s, c, acts[..k]);
  }

  /** `run` brings the thread from its initial state, and from suspension, to running; `pause` from running
      to suspension; and `resume` from suspension to running. */
  lemma CommandsTakeEffect(s: System, c: Command, acts: seq<Action>, reached: State)
    requires Inv(s) && !s.quit && Enabled(s, Execute(c))
    requires (c, s.cur, reached) in {
      (DoRun, Initialized, Running), (DoRun, Suspended, Running), (DoPause, Running, Suspended), (DoResume, Suspended, Running)}
    requires Possible(Next(s, Execute(c)), acts) && Terminate !in acts && ForceQuit !in acts && Proceeds(acts) >= 6
    ensures var u := Next(s, Execute(c));
      exists k | 0 <= k <= |acts| ::
        PendingBefore(u, acts[..k]) && !Run(u, acts[..k]).pending && Run(u, acts[..k]).cur == reached
  {
    hide Inv, Run, Possible, Proceeds, PendingBefore, Enabled, Next;
    WaitEnds(s, c, acts);
  }

  /** In all other states these commands change nothing. */
  lemma OtherwiseNothing(s: System, c: Command)
    requires c == DoRun ==> s.cur != Initialized && s.cur != Suspended
    requires c == DoPause ==> s.cur != Running
    requires c == DoResume ==> s.cur != Suspended
    ensures Next(s, Execute(c)) == s.(armed := s.armed - multiset{c})
  {
  }

  // ----- Termination -----

  /** The request for termination is pending, or carried out; no armed command can take its place. */
  ghost predicate Terminated(s: System) {
    && s.req == Finished && (forall c | c in s.armed :: !Accepts(c, s.cur))
    && (s.at.InHook? ==> s.at.h == OnTerminate)
    && (!s.pending ==> s.cur == Finished)
  }

  lemma DispatchTerminated(s: System, second: bool)
    requires Inv(s) && s.at == Dispatch(second) && Terminated(s)
    ensures Terminated(Dispatched(s, second))
  {
    hide Follows, Hooks, QuietAfterTerminate, NotYetTerminated, Settled, Asking, Compatible;
  }

  lemma WorkerTerminated(s: System, flag: bool)
    requires Inv(s) && Terminated(s) && !s.at.Dispatch?
    ensures Terminated(WorkerStep(s, flag))
  {
    hide Follows, Hooks, QuietAfterTerminate, NotYetTerminated, Settled, Asking, Compatible, Dispatched, Target;
  }

  lemma CommandTerminated(s: System, a: Action)
    requires Inv(s) && Terminated(s) && Enabled(s, a) && !a.Proceed?
    ensures Terminated(Next(s, a))
  {
    hide Follows, Hooks, QuietAfterTerminate, NotYetTerminated, Settled, Asking, Compatible, Placed, WorkerStep, Target;
  }

  lemma StepTerminated(s: System, a: Action)
    requires Inv(s) && Enabled(s, a) && Terminated(s)
    ensures Terminated(Next(s, a))
  {
    hide Inv, Terminated, Enabled, Dispatched;
    if !a.Proceed? {
      CommandTerminated(s, a);
    } else if s.at.Dispatch? {
      DispatchTerminated(s, s.at.second);
    } else {
      WorkerTerminated(s, a.flag);
    }
  }

  lemma {:induction false} RunTerminated(s: System, acts: seq<Action>)
    requires Inv(s) && Possible(s, acts) && Terminated(s)
    ensures Inv(Run(s, acts)) && Terminated(Run(s, acts))
  {
    hide Inv, Next, Enabled, Terminated;
    if acts != [] {
      var front := acts[..|acts| - 1];
      RunTerminated(s, front);
      StepKeepsInv(Run(s, front), acts[|acts| - 1]);
      StepTerminated(Run(s, front), acts[|acts| - 1]);
    }
  }

  lemma RunMore(s: System, acts: seq<Action>, a: Action)
    requires Possible(s, acts) && Enabled(Run(s, acts), a)
    ensures Possible(s, acts + [a]) && Run(s, acts + [a]) == Next(Run(s, acts), a)
  {
    hide Next, Enabled;
    assert (acts + [a])[..|acts|] == acts;
  }

  lemma RunNone(s: System)
    ensures Possible(s, []) && Run(s, []) == s
  {
  }

  /** The steps of the worker thread alone carry a pending request out. */
  lemma {:induction false} CarriedOut(s: System, before: seq<Action>, target: State) returns (acts: seq<Action>)
    requires Possible(s, before) && Inv(Run(s, before)) && !Run(s, before).quit && Awaiting(Run(s, before), target)
    ensures Possible(s, acts) && !Run(s, acts).pending && Run(s, acts).cur == target
    decreases StepsLeft(Run(s, before).at)
  {
    hide Inv, Run, Possible, Next, Enabled, Awaiting;
    var t := Run(s, before);
    IsPending(t, target);
    CanProceed(t);
    RunMore(s, before, Proceed(true));
    StepKeepsInv(t, Proceed(true));
    StepProgresses(t, Proceed(true));
    StepAwaiting(t, Proceed(true), target);
    acts := before + [Proceed(true)];
    if Run(s, acts).pending {
      acts := CarriedOut(s, acts, target);
    }
  }

  /** No continuation clears the flag before the termination is carried out. */
  ghost predicate SurelyTerminated(u: System) {
    forall acts | Possible(u, acts) :: !Run(u, acts).pending ==> Run(u, acts).cur == Finished
  }

  /** After `terminate` the flag is cleared only in the final state, in every continuation, exactly if it
      does not come during one of the other hooks, and no command that has already passed its test without
      the lock would be accepted, unless the destructor stops the thread before it sees the command. */
  lemma TerminationIsCarriedOut(s: System)
    requires Inv(s) && Enabled(s, Terminate) && s.cur != Finished
    ensures SurelyTerminated(Next(s, Terminate)) <==>
      && !(s.at.InHook? && s.at.h != OnTerminate)
      && ((forall c | c in s.armed :: !Accepts(c, s.cur)) || (s.quit && s.at != Waiting))
  {
    hide Inv, Run, Possible, Accepts, Stopped, Enabled, Terminated;
    var u := Next(s, Terminate);
    StepKeepsInv(s, Terminate);
    if s.at.InHook? && s.at.h != OnTerminate {
      HookClearsFlag(s, u);
    } else if forall c | c in s.armed :: !Accepts(c, s.cur) {
      TerminateStarts(s);
      forall acts | Possible(u, acts) ensures !Run(u, acts).pending ==> Run(u, acts).cur == Finished {
        RunTerminated(u, acts);
        TerminatedClear(Run(u, acts));
      }
    } else {
      var c :| c in s.armed && Accepts(c, s.cur);
      WhereAccepted(s, c);
      if s.at == Waiting {
        ArmedWakesUp(s, u, c);
      } else if s.quit {
        StoppedNow(s, u);
        forall acts | Possible(u, acts) ensures Run(u, acts).pending {
          RunStopped(u, acts);
          StoppedPending(Run(u, acts));
        }
      } else {
        ArmedTakesOver(s, u, c);
      }
    }
  }

  lemma TerminatedClear(s: System)
    requires Terminated(s)
    ensures !s.pending ==> s.cur == Finished
  {
  }

  lemma WhereAccepted(s: System, c: Command)
    requires Inv(s) && Accepts(c, s.cur) && Enabled(s, Terminate)
    ensures s.at == Start || s.at == Working || s.at == Waiting || s.at == Done
  {
    hide Follows, Hooks, QuietAfterTerminate, NotYetTerminated, Settled, Asking, Compatible;
  }

  /** The destructor's flag will stop the thread before it looks at the request. */
  predicate Stopped(s: System) {
    s.quit && s.pending && (s.at == Start || s.at == Top || s.at == Working || s.at == Done)
  }

  lemma StoppedNow(s: System, u: System)
    requires s.quit && s.cur != Finished && u == Next(s, Terminate)
    requires s.at == Start || s.at == Working || s.at == Done
    ensures Stopped(u)
  {
  }

  lemma StoppedPending(s: System)
    requires Stopped(s)
    ensures s.pending
  {
  }

  lemma StepStopped(s: System, a: Action)
    requires Stopped(s) && Enabled(s, a)
    ensures Stopped(Next(s, a))
  {
    hide Dispatched, Accepts, Target;
  }

  lemma {:induction false} RunStopped(s: System, acts: seq<Action>)
    requires Stopped(s) && Possible(s, acts)
    ensures Stopped(Run(s, acts))
  {
    hide Stopped, Next, Enabled;
    if acts != [] {
      RunStopped(s, acts[..|acts| - 1]);
      StepStopped(Run(s, acts[..|acts| - 1]), acts[|acts| - 1]);
    }
  }

  /** A thread that waits sees a command that was armed before `terminate`, whether it has to stop or not. */
  lemma ArmedWakesUp(s: System, u: System, c: Command)
    requires Inv(s) && s.at == Waiting && u == Next(s, Terminate) && Inv(u)
    requires c in s.armed && Accepts(c, s.cur)
    ensures !SurelyTerminated(u)
  {
    hide Run, Possible, Inv, WorkerStep;
    var acts := [] + [Execute(c)];
    RunNone(u);
    RunMore(u, [], Execute(c));
    WakeAndDispatch(Next(u, Execute(c)), c, s.cur);
    RunMore(u, acts, Proceed(false));
    RunMore(u, acts + [Proceed(false)], Proceed(true));
    RunMore(u, acts + [Proceed(false)] + [Proceed(true)], Proceed(true));
    assert !Run(u, acts + [Proceed(false)] + [Proceed(true)] + [Proceed(true)]).pending;
  }

  lemma WakeAndDispatch(s: System, c: Command, cur: State)
    requires s.at == Waiting && s.cur == cur && Accepts(c, cur) && s.req == Target(c) && s.pending
    ensures var t := WorkerStep(s, false); var w := WorkerStep(t, true);
      && t.at != Done && t.at != Threw && w.at != Done && w.at != Threw
      && !WorkerStep(w, true).pending && WorkerStep(w, true).cur == Target(c)
    ensures Target(c) != Finished
  {
  }

  lemma TerminateStarts(s: System)
    requires Inv(s) && s.cur != Finished && !(s.at.InHook? && s.at.h != OnTerminate)
    requires forall c | c in s.armed :: !Accepts(c, s.cur)
    ensures Terminated(Next(s, Terminate))
  {
    hide Follows, Hooks, QuietAfterTerminate, NotYetTerminated;
  }

  /** The end of the hook clears the flag that `terminate` has set. */
  lemma HookClearsFlag(s: System, u: System)
    requires s.at.InHook? && s.at.h != OnTerminate && u == Next(s, Terminate) && Inv(s)
    ensures !SurelyTerminated(u)
  {
    hide Follows, Hooks, QuietAfterTerminate, NotYetTerminated, Possible, Run;
    RunNone(u);
    RunMore(u, [], Proceed(true));
    assert [] + [Proceed(true)] == [Proceed(true)];
  }

  /** A command that was armed before `terminate` and gets the lock after it replaces the request. */
  lemma ArmedTakesOver(s: System, u: System, c: Command)
    requires Inv(s) && !s.quit && Enabled(s, Terminate) && u == Next(s, Terminate) && Inv(u)
    requires c in s.armed && Accepts(c, s.cur)
    ensures !SurelyTerminated(u)
  {
    hide Inv, Run, Possible, Awaiting;
    RunNone(u);
    RunMore(u, [], Execute(c));
    StepKeepsInv(u, Execute(c));
    AcceptedIsAwaited(u, c);
    var acts := CarriedOut(u, [] + [Execute(c)], Target(c));
    assert Target(c) != Finished;
  }

  /** With one controller no command is armed when it calls `terminate`. */
  lemma OneController(s: System)
    requires Inv(s) && Enabled(s, Terminate) && s.cur != Finished && s.armed == multiset{}
    ensures SurelyTerminated(Next(s, Terminate)) <==> !(s.at.InHook? && s.at.h != OnTerminate)
  {
    hide SurelyTerminated, Inv, Enabled, Next;
    TerminationIsCarriedOut(s);
  }

  /** A termination can come during the first hook. */
  lemma FirstHookOccurs()
    ensures exists acts | Possible(INITIAL, acts) :: Run(INITIAL, acts).at == InHook(OnFirstRun, false)
  {
    hide Run, Possible, Next, Enabled;
    var (a, p) := ([] + [Arm(DoRun)] + [Execute(DoRun)], [Proceed(true)]);
    RunNone(INITIAL);
    ToFirstHook();
    RunMore(INITIAL, [], Arm(DoRun));
    RunMore(INITIAL, [] + [Arm(DoRun)], Execute(DoRun));
    RunMore(INITIAL, a, Proceed(true));
    RunMore(INITIAL, a + p, Proceed(true));
    RunMore(INITIAL, a + p + p, Proceed(true));
    RunMore(INITIAL, a + p + p + p, Proceed(true));
    assert Run(INITIAL, a + p + p + p + p).at == InHook(OnFirstRun, false);
  }

  lemma ToFirstHook()
    ensures var (s1, go) := (Next(INITIAL, Arm(DoRun)), Proceed(true));
      var s2 := Next(s1, Execute(DoRun));
      var (s3, s4) := (Next(s2, go), Next(Next(s2, go), go));
      && Enabled(INITIAL, Arm(DoRun)) && Enabled(s1, Execute(DoRun)) && Enabled(s2, go) && Enabled(s3, go)
      && Enabled(s4, go) && Enabled(Next(s4, go), go) && Next(Next(s4, go), go).at == InHook(OnFirstRun, false)
  {
  }

  /** It can also come while a command is armed that would be accepted. */
  lemma ArmedCommandOccurs()
    ensures exists acts | Possible(INITIAL, acts) :: var s := Run(INITIAL, acts);
      DoRun in s.armed && Accepts(DoRun, s.cur) && Enabled(s, Terminate)
  {
    hide Run, Possible;
    RunNone(INITIAL);
    RunMore(INITIAL, [], Arm(DoRun));
    assert DoRun in Run(INITIAL, [] + [Arm(DoRun)]).armed;
  }

  // ----- Joining the thread -----

  /** The most steps the thread makes once the destructor has set its flag. */
  function QuitSteps(at: Position): nat {
    match at
    case Done | Threw => 0
    case Top | Working => 1
    case Start => 2
    case InHook(_, second) => if second then 2 else 6
    case Dispatch(second) => if second then 3 else 7
    case Waiting => 4
    case Measure => 5
  }

  lemma QuitStep(s: System, a: Action)
    requires s.quit && Enabled(s, a)
    ensures var t := Next(s, a);
      t.quit && QuitSteps(t.at) + (if a.Proceed? then 1 else 0) <= QuitSteps(s.at)
  {
    hide Dispatched, HookFor, Accepts;
    if s.at.Dispatch? {
      DispatchQuits(s, s.at.second);
    }
  }

  lemma DispatchQuits(s: System, second: bool)
    requires s.quit && s.at == Dispatch(second)
    ensures var t := Dispatched(s, second); t.quit && QuitSteps(t.at) < QuitSteps(s.at)
  {
    hide Dispatched;
    DispatchedTo(s, second);
  }

  lemma DispatchedTo(s: System, second: bool)
    ensures var t := Dispatched(s, second);
      && t.quit == s.quit
      && (t.at == Threw || t.at == (if second then Top else Measure) || (t.at.InHook? && t.at.second == second))
  {
    hide HookFor, During, QuitSteps;
  }

  /** Behind the destructor's flag the thread makes at most seven more steps, whatever commands come in
      between; before its end it can always make one. So the join returns. */
  lemma {:induction false} DestructorJoins(s: System, acts: seq<Action>)
    requires Inv(s) && s.quit && Possible(s, acts)
    ensures var t := Run(s, acts);
      && t.quit && Proceeds(acts) + QuitSteps(t.at) <= QuitSteps(s.at) <= 7
      && (t.at == Done || Enabled(t, Proceed(true))) && (Proceeds(acts) == QuitSteps(s.at) ==> t.at == Done)
      && Inv(t)
  {
    hide Inv, Next, QuitSteps, Enabled;
    StepsBound(s);
    if acts == [] {
      NotThrew(s);
    } else {
      var (front, a) := (acts[..|acts| - 1], acts[|acts| - 1]);
      DestructorJoins(s, front);
      QuitStep(Run(s, front), a);
      StepKeepsInv(Run(s, front), a);
      NotThrew(Run(s, acts));
    }
  }

  /** So it is after the destructor has set its flag. */
  lemma DestructorEnds(s: System, acts: seq<Action>)
    requires Inv(s) && Possible(Next(s, ForceQuit), acts)
    ensures var t := Run(Next(s, ForceQuit), acts);
      (t.at == Done || Enabled(t, Proceed(true))) && (Proceeds(acts) >= 7 ==> t.at == Done)
  {
    hide Inv, Run, Possible, Proceeds;
    StepKeepsInv(s, ForceQuit);
    DestructorJoins(Next(s, ForceQuit), acts);
  }

  lemma StepsBound(s: System)
    ensures QuitSteps(s.at) <= 7
  {
  }

  lemma NotThrew(s: System)
    requires Inv(s)
    ensures s.at == Done || Enabled(s, Proceed(true))
    ensures QuitSteps(s.at) == 0 ==> s.at == Done
    ensures TerminateSteps(s) == 0 ==> s.at == Done
  {
    hide Follows, Hooks, QuietAfterTerminate, NotYetTerminated, Settled, Asking, Compatible;
  }

  /** The most steps the thread makes once termination is requested. */
  function TerminateSteps(s: System): nat {
    match s.at
    case Done | Threw => 0
    case InHook(h, second) =>
      if h == OnTerminate then if second then 2 else 5 else if second then 8 else 10
    case _ => if s.cur == Finished then FinishedSteps(s.at) else WaitingSteps(s.at)
  }

  /** In the final state. */
  function FinishedSteps(at: Position): nat {
    match at
    case Top | Working => 1
    case Dispatch(second) => if second then 2 else 5
    case Start => 2
    case Waiting => 3
    case Measure => 4
    case _ => 0
  }

  /** In another stable state. */
  function WaitingSteps(at: Position): nat {
    match at
    case Dispatch(second) => if second then 3 else 6
    case Top | Working => 7
    case Start | Waiting => 8
    case Measure => 9
    case _ => 0
  }

  lemma TerminateStep(s: System, a: Action)
    requires Inv(s) && s.req == Finished && Enabled(s, a) && !a.Execute?
    ensures var t := Next(s, a);
      t.req == Finished && TerminateSteps(t) + (if a.Proceed? then 1 else 0) <= TerminateSteps(s)
  {
    hide Follows, Hooks, QuietAfterTerminate, NotYetTerminated, Settled, Asking, Compatible, Dispatched, WorkerStep;
    if a.Proceed? {
      if s.at.Dispatch? {
        DispatchTerminates(s, s.at.second, a.flag);
      } else if s.at.InHook? {
        HookTerminates(s, a.flag);
      } else {
        OtherTerminates(s, a.flag);
      }
    }
  }

  lemma DispatchTerminates(s: System, second: bool, flag: bool)
    requires Inv(s) && s.req == Finished && s.at == Dispatch(second)
    ensures var t := WorkerStep(s, flag); t.req == Finished && TerminateSteps(t) < TerminateSteps(s)
  {
    hide Follows, Hooks, QuietAfterTerminate, NotYetTerminated, Settled, Asking, Compatible;
  }

  lemma HookTerminates(s: System, flag: bool)
    requires Inv(s) && s.req == Finished && s.at.InHook?
    ensures var t := WorkerStep(s, flag); t.req == Finished && TerminateSteps(t) < TerminateSteps(s)
  {
    hide Follows, Hooks, QuietAfterTerminate, NotYetTerminated, Settled, Asking, Compatible, Dispatched;
  }

  lemma OtherTerminates(s: System, flag: bool)
    requires Inv(s) && s.req == Finished && !s.at.Dispatch? && !s.at.InHook? && s.at != Done
    ensures var t := WorkerStep(s, flag); t.req == Finished && TerminateSteps(t) < TerminateSteps(s)
  {
    hide Follows, Hooks, QuietAfterTerminate, NotYetTerminated, Settled, Asking, Compatible, Dispatched;
  }

  /** Once termination is requested and no `run`, `pause` or `resume` takes effect any more, the thread makes
      at most ten more steps, and before its end it can always make one. So the join returns. */
  lemma {:induction false} TerminateJoins(s: System, acts: seq<Action>)
    requires Inv(s) && s.req == Finished && Possible(s, acts) && forall a | a in acts :: !a.Execute?
    ensures var t := Run(s, acts);
      && t.req == Finished && Proceeds(acts) + TerminateSteps(t) <= TerminateSteps(s) <= 10
      && (t.at == Done || Enabled(t, Proceed(true))) && (Proceeds(acts) == TerminateSteps(s) ==> t.at == Done)
      && Inv(t)
  {
    hide Inv, Next, TerminateSteps, Enabled;
    TenSteps(s);
    if acts == [] {
      NotThrew(s);
    } else {
      var (front, a) := (acts[..|acts| - 1], acts[|acts| - 1]);
      assert a in acts && forall b | b in front :: b in acts;
      TerminateJoins(s, front);
      TerminateStep(Run(s, front), a);
      StepKeepsInv(Run(s, front), a);
      NotThrew(Run(s, acts));
    }
  }

  lemma TenSteps(s: System)
    ensures TerminateSteps(s) <= 10
  {
  }

  lemma TerminateRequests(s: System)
    requires Inv(s) && Enabled(s, Terminate)
    ensures Next(s, Terminate).req == Finished
  {
    hide Follows, Hooks, QuietAfterTerminate, NotYetTerminated;
  }
}
