/** The worker of a running thread is called again and again, and once in a cycle only. */
module CyclicCycles {
  import opened CyclicPromises
  import opened CyclicWorker

  /** The number of worker calls. */
  function Works(trace: seq<Event>): nat {
    if trace == [] then 0 else Works(trace[..|trace| - 1]) + if trace[|trace| - 1] == Work then 1 else 0
  }

  lemma WorksPush(trace: seq<Event>, e: Event)
    ensures Works(trace + [e]) == Works(trace) + if e == Work then 1 else 0
  {
    assert (trace + [e])[..|trace|] == trace;
  }

  // ----- Calls come -----

  /** The thread runs, as requested, and is not to stop. */
  ghost predicate Busy(s: System) {
    Inv(s) && s.cur == Running && s.req == Running && !s.quit
  }

  /** Of the commands only `pause` and `terminate` change something while the thread runs. */
  predicate Undisturbed(acts: seq<Action>) {
    Terminate !in acts && ForceQuit !in acts && Execute(DoPause) !in acts
  }

  /** Every wait times out. */
  predicate TimesOut(s: System, acts: seq<Action>) {
    acts == [] ||
    (TimesOut(s, acts[..|acts| - 1]) && (Run(s, acts[..|acts| - 1]).at == Waiting ==> acts[|acts| - 1] != Proceed(false)))
  }

  /** The number of steps until the worker is called. */
  function Distance(s: System): nat {
    match s.at
    case Top => if s.newCycle then 1 else 5
    case Waiting => 2
    case Measure => 3
    case Dispatch(second) => if second then 6 else 4
    case Working => 5
    case Start => 6
    case _ => 0
  }

  lemma BusyStep(s: System, a: Action)
    requires Busy(s) && Enabled(s, a) && Undisturbed([a]) && (s.at == Waiting ==> a != Proceed(false))
    ensures var t := Next(s, a);
      && Busy(t)
      && (if a.Proceed? then 1 else 0) + Distance(t) + 5 * Works(s.trace) <= Distance(s) + 5 * Works(t.trace)
  {
    hide Inv, Works, QuietAfterTerminate, Follows, Hooks;
    StepKeepsInv(s, a);
    BusyAt(s);
    WorksPush(s.trace, Work);
    assert a in [a];
  }

  lemma BusyAt(s: System)
    requires Busy(s)
    ensures !s.at.InHook? && s.at != Done && s.at != Threw && !s.pending
    ensures 1 <= Distance(s) <= 6 && Enabled(s, Proceed(true))
  {
    hide Follows, Hooks, QuietAfterTerminate;
  }

  /** While the thread runs and its waits time out, every five of its steps contain a call of the worker, up
      to the first few; and it can always make a step. */
  lemma {:induction false} WorkerIsCalled(s: System, acts: seq<Action>)
    requires Busy(s) && Possible(s, acts) && Undisturbed(acts) && TimesOut(s, acts)
    ensures var t := Run(s, acts);
      && Busy(t) && Enabled(t, Proceed(true))
      && Proceeds(acts) <= 5 * (Works(t.trace) - Works(s.trace)) + 5
      && Proceeds(acts) + Distance(t) <= Distance(s) + 5 * (Works(t.trace) - Works(s.trace))
  {
    hide Busy, Next, Enabled, Distance, Works;
    BusyAt(s);
    if acts != [] {
      var (front, a) := (acts[..|acts| - 1], acts[|acts| - 1]);
      assert a in acts && forall b | b in front :: b in acts;
      WorkerIsCalled(s, front);
      BusyStep(Run(s, front), a);
    }
    BusyAt(Run(s, acts));
  }

  // ----- No call without a new cycle -----

  /** Behind the worker call of a cycle. */
  predicate CycleUnderWay(s: System) {
    s.at != Start && s.at != Working && (s.at == Top ==> !s.newCycle)
  }

  /** No wait times out, and there is always time left to wait. */
  predicate StaysInCycle(s: System, acts: seq<Action>) {
    acts == [] ||
    (StaysInCycle(s, acts[..|acts| - 1]) &&
     var at := Run(s, acts[..|acts| - 1]).at;
     && (at == Waiting ==> acts[|acts| - 1] != Proceed(true))
     && (at == Measure ==> acts[|acts| - 1] != Proceed(false)))
  }

  /** Until the time of the cycle is over the worker is not called a second time, however often the thread
      wakes up, by commands or spuriously, and whatever hooks are called. */
  lemma {:induction false} OneCallInCycle(s: System, acts: seq<Action>)
    requires CycleUnderWay(s) && StaysInCycle(s, acts)
    ensures CycleUnderWay(Run(s, acts)) && Works(Run(s, acts).trace) == Works(s.trace)
  {
    hide Next, CycleUnderWay, Works;
    if acts != [] {
      var front := acts[..|acts| - 1];
      OneCallInCycle(s, front);
      CycleStep(Run(s, front), acts[|acts| - 1]);
    }
  }

  lemma CycleStep(s: System, a: Action)
    requires CycleUnderWay(s) && (s.at == Waiting ==> a != Proceed(true)) && (s.at == Measure ==> a != Proceed(false))
    ensures CycleUnderWay(Next(s, a)) && Works(Next(s, a).trace) == Works(s.trace)
  {
    hide Works, HookFor, During, Accepts, Target, MustStop;
    forall h: Hook ensures Works(s.trace + [Called(h)]) == Works(s.trace) {
      WorksPush(s.trace, Called(h));
    }
  }

  // ----- No call without a request -----

  /** Running is never requested before the last action. */
  predicate NeverRequested(s: System, acts: seq<Action>) {
    acts == [] || (NeverRequested(s, acts[..|acts| - 1]) && Run(s, acts[..|acts| - 1]).req != Running)
  }

  /** While running is not requested, as after an accepted `pause` or `terminate`, the worker is not called. */
  lemma {:induction false} NotCalledUnlessRequested(s: System, acts: seq<Action>)
    requires NeverRequested(s, acts)
    ensures Works(Run(s, acts).trace) == Works(s.trace)
  {
    hide Next, Works;
    if acts != [] {
      var front := acts[..|acts| - 1];
      NotCalledUnlessRequested(s, front);
      UnrequestedStep(Run(s, front), acts[|acts| - 1]);
    }
  }

  lemma UnrequestedStep(s: System, a: Action)
    requires s.req != Running
    ensures Works(Next(s, a).trace) == Works(s.trace)
  {
    hide Works;
    forall h: Hook ensures Works(s.trace + [Called(h)]) == Works(s.trace) {
      WorksPush(s.trace, Called(h));
    }
  }
}
