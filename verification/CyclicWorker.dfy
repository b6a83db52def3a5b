/** The state machine of a thread that calls a worker in cycles, stepped at the granularity of its lock.
    Any number of controlling threads may send commands. */
module CyclicWorker {
  import opened Results

  datatype State =
    | Initialized | Preparing | Running | Suspending | Suspended | Resuming | Terminating | Finished

  datatype Hook = OnFirstRun | OnSuspend | OnResume | OnTerminate

  datatype Event = Called(h: Hook) | Work

  /** The commands that look at the pending flag before they take the lock. */
  datatype Command = DoRun | DoPause | DoResume

  /** Where the worker thread is. It holds the lock in `Top`, `Dispatch` and `Measure`. `second` tells
      the call of the state machine behind the wait from the one in front of it. */
  datatype Position =
    | Start | Top | Working | Dispatch(second: bool) | InHook(h: Hook, second: bool)
    | Measure | Waiting | Done | Threw

  /** `armed` holds the commands that have seen no pending transition and still wait for the lock. */
  datatype System = System(
    cur: State, req: State, pending: bool, quit: bool,
    at: Position, newCycle: bool, armed: multiset<Command>, trace: seq<Event>)

  const INITIAL := System(Initialized, Initialized, false, false, Start, true, multiset{}, [])

  // ----- The tables -----

  predicate Accepts(c: Command, cur: State) {
    match c
    case DoRun => cur == Initialized || cur == Suspended
    case DoPause => cur == Running
    case DoResume => cur == Suspended
  }

  function Target(c: Command): State {
    if c == DoPause then Suspended else Running
  }

  /** The state while the hook is executed, and the one behind it. */
  function During(h: Hook): State {
    match h
    case OnFirstRun => Preparing
    case OnSuspend => Suspending
    case OnResume => Resuming
    case OnTerminate => Terminating
  }

  function Reached(h: Hook): State {
    match h
    case OnFirstRun => Running
    case OnSuspend => Suspended
    case OnResume => Running
    case OnTerminate => Finished
  }

  function HookFor(cur: State, req: State): Option<Hook> {
    if req == Finished then Some(OnTerminate)
    else if cur == Initialized && req == Running then Some(OnFirstRun)
    else if cur == Running && req == Suspended then Some(OnSuspend)
    else if cur == Suspended && req == Running then Some(OnResume)
    else None
  }

  predicate Stable(cur: State) {
    cur == Initialized || cur == Running || cur == Suspended || cur == Finished
  }

  // ----- Steps -----

  /** `Proceed` is a step of the worker thread; its flag decides what depends on the clock: in `Measure`
      whether there is time left to wait, in `Waiting` whether the wait timed out. */
  datatype Action = Arm(c: Command) | Execute(c: Command) | Terminate | ForceQuit | Proceed(flag: bool)

  predicate Locked(at: Position) {
    at == Top || at.Dispatch? || at == Measure
  }

  predicate Enabled(s: System, a: Action) {
    match a
    case Arm(_) => !s.pending
    case Execute(c) => c in s.armed && !Locked(s.at)
    case Terminate => !Locked(s.at)
    case ForceQuit => true
    case Proceed(_) => s.at != Done && s.at != Threw
  }

  /** Behind a call of the state machine. */
  function Returned(s: System, second: bool): System {
    if second then s.(at := Top, newCycle := false) else s.(at := Measure)
  }

  function Dispatched(s: System, second: bool): System {
    if s.req == s.cur then Returned(s, second)
    else match HookFor(s.cur, s.req)
      case None => s.(at := Threw)
      case Some(h) => s.(cur := During(h), at := InHook(h, second), trace := s.trace + [Called(h)])
  }

  predicate MustStop(s: System) {
    s.quit || s.cur == Finished
  }

  function WorkerStep(s: System, flag: bool): System {
    match s.at
    case Start => s.(at := Top)
    case Top =>
      if MustStop(s) then s.(at := Done)
      else if s.req == Running && s.newCycle then s.(at := Working, trace := s.trace + [Work])
      else s.(at := Dispatch(false))
    case Working => if MustStop(s) then s.(at := Done) else s.(at := Dispatch(false))
    case Dispatch(second) => Dispatched(s, second)
    case InHook(h, second) => Returned(s.(cur := Reached(h), pending := false), second)
    case Measure => if flag then s.(at := Waiting) else s.(at := Top, newCycle := true)
    case Waiting => if flag then s.(at := Top, newCycle := true) else s.(at := Dispatch(true))
    case _ => s
  }

  function Next(s: System, a: Action): System {
    match a
    case Arm(c) => s.(armed := s.armed + multiset{c})
    case Execute(c) =>
      var t := s.(armed := s.armed - multiset{c});
      if Accepts(c, s.cur) then t.(req := Target(c), pending := true) else t
    case Terminate => if s.cur == Finished then s else s.(req := Finished, pending := true)
    case ForceQuit => s.(quit := true)
    case Proceed(flag) => WorkerStep(s, flag)
  }

  function Run(s: System, acts: seq<Action>): System {
    if acts == [] then s else Next(Run(s, acts[..|acts| - 1]), acts[|acts| - 1])
  }

  /** Every action is enabled where it happens. */
  predicate Possible(s: System, acts: seq<Action>) {
    acts == [] || (Possible(s, acts[..|acts| - 1]) && Enabled(Run(s, acts[..|acts| - 1]), acts[|acts| - 1]))
  }

  // ----- The hook trace -----

  function Hooks(trace: seq<Event>): seq<Hook> {
    if trace == [] then []
    else
      var e := trace[|trace| - 1];
      Hooks(trace[..|trace| - 1]) + if e.Called? then [e.h] else []
  }

  /** onFirstRun, and then `n` times onSuspend and onResume. */
  function Cycles(n: nat): seq<Hook> {
    if n == 0 then [OnFirstRun] else Cycles(n - 1) + [OnSuspend, OnResume]
  }

  ghost predicate Active(hooks: seq<Hook>) {
    exists n: nat :: hooks == Cycles(n)
  }

  ghost predicate Paused(hooks: seq<Hook>) {
    exists n: nat :: hooks == Cycles(n) + [OnSuspend]
  }

  ghost predicate Body(hooks: seq<Hook>) {
    hooks == [] || Active(hooks) || Paused(hooks)
  }

  ghost predicate Over(hooks: seq<Hook>) {
    hooks != [] && hooks[|hooks| - 1] == OnTerminate && Body(hooks[..|hooks| - 1])
  }

  /** The prefixes of: onFirstRun, any number of onSuspend and onResume, perhaps an onSuspend, or nothing
      of this; then onTerminate. */
  ghost predicate Regular(hooks: seq<Hook>) {
    Body(hooks) || Over(hooks)
  }

  predicate QuietAfterTerminate(trace: seq<Event>) {
    forall i, j | 0 <= i < j < |trace| :: trace[i] == Called(OnTerminate) ==> trace[j] != Work
  }

  // ----- The invariant -----

  /** What may be requested in which state. */
  predicate Compatible(cur: State, req: State) {
    match cur
    case Initialized => req == Initialized || req == Running || req == Finished
    case Running | Suspended => req == Running || req == Suspended || req == Finished
    case Preparing | Resuming => req == Running || req == Finished
    case Suspending => req == Suspended || req == Finished
    case Terminating | Finished => req == Finished
  }

  ghost predicate Follows(cur: State, hooks: seq<Hook>) {
    match cur
    case Initialized => hooks == []
    case Preparing | Running | Resuming => Active(hooks)
    case Suspending | Suspended => Paused(hooks)
    case Terminating | Finished => Over(hooks)
  }

  predicate Placed(s: System) {
    && (s.at.InHook? ==> s.cur == During(s.at.h))
    && (!s.at.InHook? ==> Stable(s.cur))
    && s.at != Threw && (s.at == Done ==> MustStop(s))
  }

  /** Without a pending transition, a stable state is the requested one, or termination was requested. */
  predicate Settled(s: System) {
    Stable(s.cur) && !s.pending ==> s.req == s.cur || s.req == Finished
  }

  /** A pending transition out of a stable state leads to another one. */
  predicate Asking(s: System) {
    Stable(s.cur) && s.pending ==> s.req != s.cur
  }

  predicate NotYetTerminated(s: System) {
    s.cur != Terminating && s.cur != Finished ==> Called(OnTerminate) !in s.trace
  }

  ghost predicate Inv(s: System) {
    && Compatible(s.cur, s.req) && Placed(s) && Settled(s) && Asking(s)
    && Follows(s.cur, Hooks(s.trace))
    && NotYetTerminated(s) && QuietAfterTerminate(s.trace)
  }

  lemma HooksPush(trace: seq<Event>, e: Event)
    ensures Hooks(trace + [e]) == Hooks(trace) + if e.Called? then [e.h] else []
  {
    assert (trace + [e])[..|trace|] == trace;
  }

  /** Calling the hook that the table gives continues the hook trace. */
  lemma FollowsHook(cur: State, req: State, hooks: seq<Hook>)
    requires Follows(cur, hooks) && Compatible(cur, req) && Stable(cur) && cur != req
    ensures var h := HookFor(cur, req); h.Some? && Follows(During(h.value), hooks + [h.value])
  {
    hide Cycles;
    var h := HookFor(cur, req).value;
    assert (hooks + [h])[..|hooks|] == hooks;
    match h
    case OnFirstRun =>
      FirstCycle();
      assert hooks + [h] == [OnFirstRun];
    case OnSuspend =>
    case OnResume =>
      var n: nat :| hooks == Cycles(n) + [OnSuspend];
      NextCycle(n);
      assert hooks + [h] == Cycles(n) + [OnSuspend, OnResume];
    case OnTerminate =>
  }

  lemma FirstCycle()
    ensures Cycles(0) == [OnFirstRun]
  {
  }

  lemma NextCycle(n: nat)
    ensures Cycles(n + 1) == Cycles(n) + [OnSuspend, OnResume]
  {
  }

  lemma WorkKeepsInv(s: System)
    requires Inv(s) && s.at == Top && !MustStop(s)
    ensures Inv(s.(at := Working, trace := s.trace + [Work]))
  {
    hide Follows;
    HooksPush(s.trace, Work);
    assert Hooks(s.trace) + [] == Hooks(s.trace);
  }

  lemma DispatchKeepsInv(s: System, second: bool)
    requires Inv(s) && s.at == Dispatch(second)
    ensures Inv(Dispatched(s, second))
  {
    hide Follows, Hooks;
    if s.req != s.cur {
      FollowsHook(s.cur, s.req, Hooks(s.trace));
      var h := HookFor(s.cur, s.req).value;
      HooksPush(s.trace, Called(h));
    }
  }

  lemma HookEndKeepsInv(s: System, flag: bool)
    requires Inv(s) && s.at.InHook?
    ensures Inv(WorkerStep(s, flag))
  {
    hide Hooks;
  }

  lemma WorkerKeepsInv(s: System, flag: bool)
    requires Inv(s)
    ensures Inv(WorkerStep(s, flag))
  {
    hide Follows, Hooks, Dispatched, Compatible, QuietAfterTerminate;
    if s.at == Top && !MustStop(s) {
      WorkKeepsInv(s);
    } else if s.at.Dispatch? {
      DispatchKeepsInv(s, s.at.second);
    } else if s.at.InHook? {
      HookEndKeepsInv(s, flag);
    }
  }

  lemma CommandKeepsInv(s: System, c: Command)
    requires Inv(s) && Accepts(c, s.cur)
    ensures Inv(s.(req := Target(c), pending := true))
  {
    hide Follows, Hooks, QuietAfterTerminate;
  }

  lemma TerminateKeepsInv(s: System)
    requires Inv(s) && s.cur != Finished
    ensures Inv(s.(req := Finished, pending := true))
  {
    hide Follows, Hooks, QuietAfterTerminate;
  }

  lemma StepKeepsInv(s: System, a: Action)
    requires Inv(s) && Enabled(s, a)
    ensures Inv(Next(s, a))
  {
    hide Follows, Hooks, WorkerStep, QuietAfterTerminate, Compatible, Accepts, Target, Stable, During;
    match a
    case Proceed(flag) =>
      WorkerKeepsInv(s, flag);
    case Execute(c) =>
      if Accepts(c, s.cur) {
        CommandKeepsInv(s, c);
      }
    case Terminate =>
      if s.cur != Finished {
        TerminateKeepsInv(s);
      }
    case _ =>
  }

  lemma {:induction false} RunKeepsInv(acts: seq<Action>)
    requires Possible(INITIAL, acts)
    ensures Inv(Run(INITIAL, acts))
  {
    hide Inv, Next, Enabled;
    if acts == [] {
      InitialInv();
    } else {
      var front := acts[..|acts| - 1];
      RunKeepsInv(front);
      StepKeepsInv(Run(INITIAL, front), acts[|acts| - 1]);
    }
  }

  lemma InitialInv()
    ensures Inv(INITIAL)
  {
  }

  /** In every interleaving: the state machine never meets a missing transition, the hooks are called in
      the regular order, no worker call follows onTerminate, and without a pending transition a stable
      state is the requested one unless termination was requested. */
  lemma Safety(acts: seq<Action>)
    requires Possible(INITIAL, acts)
    ensures var s := Run(INITIAL, acts);
      && s.at != Threw && Regular(Hooks(s.trace)) && QuietAfterTerminate(s.trace)
      && (Stable(s.cur) && !s.pending ==> s.req == s.cur || s.req == Finished)
  {
    hide Run, Possible, Hooks, Active, Paused;
    RunKeepsInv(acts);
  }

  /** The actions without a command that takes effect. */
  predicate Quiet(acts: seq<Action>) {
    forall a | a in acts :: !a.Execute? && !a.Terminate?
  }

  /** In a state that is the requested one and does not run, nothing is called before the next command
      takes effect, and after the end nothing is called at all. */
  lemma {:induction false} IdleCallsNothing(s: System, acts: seq<Action>)
    requires Inv(s) && Possible(s, acts)
    requires s.cur == s.req != Running && (Quiet(acts) || s.cur == Finished)
    ensures var v := Run(s, acts); Inv(v) && v.trace == s.trace && v.cur == v.req == s.cur
  {
    hide Inv, Next, Enabled;
    if acts != [] {
      var front := acts[..|acts| - 1];
      var (u, a) := (Run(s, front), acts[|acts| - 1]);
      assert Quiet(acts) ==> Quiet(front);
      assert a in acts;
      IdleCallsNothing(s, front);
      StepKeepsInv(u, a);
      IdleStep(u, a);
    }
  }

  lemma IdleStep(s: System, a: Action)
    requires Inv(s) && Enabled(s, a)
    requires s.cur == s.req != Running && ((!a.Execute? && !a.Terminate?) || s.cur == Finished)
    ensures Next(s, a).trace == s.trace && Next(s, a).cur == Next(s, a).req == s.cur
  {
    hide Follows, Hooks, QuietAfterTerminate, NotYetTerminated, Settled, HookFor, Target;
    assert !s.at.InHook?;
  }

  // ----- The class -----

  class CyclicWorkerThread {
    var curState: State
    var reqState: State
    var isTransitionPending: bool
    var forceQuitThreadFromDtor: bool
    var isNewWorkerCycle: bool
    var position: Position
    ghost var armed: multiset<Command>
    ghost var trace: seq<Event>

    ghost function View(): System
      reads this
    {
      System(curState, reqState, isTransitionPending, forceQuitThreadFromDtor, position, isNewWorkerCycle, armed, trace)
    }

    constructor ()
      ensures View() == INITIAL
    {
      curState, reqState, isTransitionPending, forceQuitThreadFromDtor := Initialized, Initialized, false, false;
      isNewWorkerCycle, position := true, Start;
      armed, trace := multiset{}, [];
    }

    /** The test without the lock at the start of `run`, `pause` and `resume`. */
    method Check(ghost c: Command) returns (goOn: bool)
      modifies this`armed
      ensures goOn <==> Enabled(old(View()), Arm(c))
      ensures View() == if goOn then Next(old(View()), Arm(c)) else old(View())
    {
      if isTransitionPending {
        return false;
      }
      armed := armed + multiset{c};
      return true;
    }

    method RunLocked() returns (ok: bool)
      requires Enabled(View(), Execute(DoRun))
      modifies this
      ensures View() == Next(old(View()), Execute(DoRun))
      ensures ok <==> old(curState) == Running || Accepts(DoRun, old(curState))
    {
      armed := armed - multiset{DoRun};
      if curState == Running {
        return true;
      }
      if curState != Initialized && curState != Suspended {
        return false;
      }
      reqState := Running;
      isTransitionPending := true;
      return true;
    }

    method PauseLocked() returns (ok: bool)
      requires Enabled(View(), Execute(DoPause))
      modifies this
      ensures View() == Next(old(View()), Execute(DoPause))
      ensures ok <==> old(curState) == Suspended || Accepts(DoPause, old(curState))
    {
      armed := armed - multiset{DoPause};
      if curState == Suspended {
        return true;
      }
      if curState != Running {
        return false;
      }
      reqState := Suspended;
      isTransitionPending := true;
      return true;
    }

    method ResumeLocked() returns (ok: bool)
      requires Enabled(View(), Execute(DoResume))
      modifies this
      ensures View() == Next(old(View()), Execute(DoResume))
      ensures ok <==> old(curState) == Running || Accepts(DoResume, old(curState))
    {
      armed := armed - multiset{DoResume};
      if curState == Running {
        return true;
      }
      if curState != Suspended {
        return false;
      }
      reqState := Running;
      isTransitionPending := true;
      return true;
    }

    method RequestTermination()
      requires Enabled(View(), Terminate)
      modifies this
      ensures View() == Next(old(View()), Terminate)
    {
      if curState == Finished {
        return;
      }
      reqState := Finished;
      isTransitionPending := true;
    }

    /** What the destructor does before it joins the thread. */
    method QuitFromDtor()
      modifies this
      ensures View() == Next(old(View()), ForceQuit)
    {
      forceQuitThreadFromDtor := true;
    }

    method LoopTop()
      requires position == Top
      modifies this
      ensures View() == WorkerStep(old(View()), true) == WorkerStep(old(View()), false)
    {
      if !forceQuitThreadFromDtor && curState != Finished {
        if reqState == Running && isNewWorkerCycle {
          trace := trace + [Work];
          position := Working;
        } else {
          position := Dispatch(false);
        }
      } else {
        position := Done;
      }
    }

    method AfterWorker()
      requires position == Working
      modifies this
      ensures View() == WorkerStep(old(View()), true) == WorkerStep(old(View()), false)
    {
      if forceQuitThreadFromDtor || curState == Finished {
        position := Done;
        return;
      }
      position := Dispatch(false);
    }

    method EnterHook(during: State, h: Hook, second: bool)
      modifies this`curState, this`position, this`trace
      ensures View() == old(View()).(cur := during, at := InHook(h, second), trace := old(trace) + [Called(h)])
    {
      curState := during;
      position := InHook(h, second);
      trace := trace + [Called(h)];
    }

    /** `doStateMachine` up to the call of the hook. */
    method StateMachineBegin(second: bool)
      requires position == Dispatch(second)
      modifies this
      ensures View() == Dispatched(old(View()), second)
    {
      if reqState == curState {
        StateMachineReturn(second);
        return;
      }
      if reqState == Finished {
        EnterHook(Terminating, OnTerminate, second);
        return;
      }
      if curState == Initialized && reqState == Running {
        EnterHook(Preparing, OnFirstRun, second);
        return;
      }
      if curState == Running && reqState == Suspended {
        EnterHook(Suspending, OnSuspend, second);
        return;
      }
      if curState == Suspended && reqState == Running {
        EnterHook(Resuming, OnResume, second);
        return;
      }
      position := Threw;
    }

    /** The rest of `doStateMachine`, with the lock taken again behind the hook. */
    method StateMachineEnd(h: Hook, second: bool)
      requires position == InHook(h, second)
      modifies this
      ensures View() == WorkerStep(old(View()), true) == WorkerStep(old(View()), false)
    {
      if h == OnTerminate {
        curState := Finished;
      } else if h == OnSuspend {
        curState := Suspended;
      } else {
        curState := Running;
      }
      isTransitionPending := false;
      StateMachineReturn(second);
    }

    method StateMachineReturn(second: bool)
      modifies this`position, this`isNewWorkerCycle
      ensures View() == Returned(old(View()), second)
    {
      if second {
        isNewWorkerCycle := false;
        position := Top;
      } else {
        position := Measure;
      }
    }

    /** Time left or not, and the end of the wait. */
    method AfterStateMachine(timeLeft: bool)
      requires position == Measure
      modifies this
      ensures View() == WorkerStep(old(View()), timeLeft)
    {
      if timeLeft {
        position := Waiting;
      } else {
        isNewWorkerCycle := true;
        position := Top;
      }
    }

    method AfterWait(timedOut: bool)
      requires position == Waiting
      modifies this
      ensures View() == WorkerStep(old(View()), timedOut)
    {
      if timedOut {
        isNewWorkerCycle := true;
        position := Top;
      } else {
        position := Dispatch(true);
      }
    }
  }
}
