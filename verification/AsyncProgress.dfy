/** A worker thread that is neither suspended nor joined processes every item that was put. */
module AsyncProgress {
  import opened AsyncWorker
  import opened SafeQueue

  /** The thread is not to stop, and has not. */
  predicate Going<A, B>(s: Async<A, B>) {
    !s.suspendRequested && !s.joinRequested && !s.at.Ended?
  }

  /** No request to stop comes. */
  ghost predicate Unstopped<A>(acts: seq<Action<A>>) {
    forall a | a in acts :: !a.Suspend? && !a.RequestJoin?
  }

  /** The steps of the thread. */
  function Steps<A>(acts: seq<Action<A>>): nat {
    if acts == [] then 0 else Steps(acts[..|acts| - 1]) + if acts[|acts| - 1].Proceed? then 1 else 0
  }

  /** How many steps from here an item that is next is ahead of one that has just been finished. */
  function Offset<A, B>(at: Place<A, B>): int {
    match at
    case Counting | Ended => 0
    case Head => -1
    case Asking => -2
    case Ready => -3
    case Called(_) => 2
    case Computed(_) => 1
  }

  /** The number of steps until `n` items are finished. */
  function StepsLeft<A, B>(s: Async<A, B>, n: nat): int {
    if |Finished(s)| >= n then 0 else 6 * (n - |s.input.consumed|) + Offset(s.at)
  }

  /** The first `n` items are put, and the thread works on them. */
  ghost predicate Working<A, B>(f: A -> B, s: Async<A, B>, n: nat) {
    Inv(f, s) && Going(s) && n <= |s.input.puts|
  }

  lemma Counts<A, B>(f: A -> B, s: Async<A, B>, n: nat)
    requires Working(f, s, n)
    ensures |s.input.consumed| + |s.input.queue| == |s.input.puts|
    ensures |s.input.consumed| == |Finished(s)| + (if InProgress(s.at) then 1 else 0)
    ensures StepsLeft(s, |s.input.puts|) <= 6 * |s.input.queue| + 2
    ensures StepsLeft(s, n) >= 0 && (StepsLeft(s, n) == 0 ==> |Finished(s)| >= n)
  {
    assert |s.input.consumed + s.input.queue| == |s.input.puts|;
  }

  /** With items left to finish, a step of the thread brings them nearer, however its waits end. */
  lemma ProceedWorks<A, B>(f: A -> B, s: Async<A, B>, flag: bool, n: nat)
    requires Working(f, s, n)
    ensures var t := WorkerStep(f, s, flag);
      && Going(t) && t.input.puts == s.input.puts
      && (|Finished(s)| < n ==> StepsLeft(t, n) < StepsLeft(s, n))
      && |Finished(t)| >= |Finished(s)|
  {
    hide Map;
    Counts(f, s, n);
  }

  lemma StepWorks<A, B>(f: A -> B, s: Async<A, B>, a: Action<A>, n: nat)
    requires Working(f, s, n) && Unstopped([a])
    ensures var t := Next(f, s, a);
      && Working(f, t, n) && s.input.puts <= t.input.puts
      && |Finished(t)| >= |Finished(s)|
      && (|Finished(t)| >= n || StepsLeft(t, n) + (if a.Proceed? then 1 else 0) <= StepsLeft(s, n))
  {
    hide WorkerStep, Inv, Map;
    assert a in [a];
    StepKeepsInv(f, s, a);
    if a.Proceed? {
      ProceedWorks(f, s, a.flag, n);
    }
  }

  lemma {:induction false} RunWorks<A, B>(f: A -> B, s: Async<A, B>, acts: seq<Action<A>>, n: nat)
    requires Working(f, s, n) && Unstopped(acts)
    ensures var t := Run(f, s, acts);
      && Working(f, t, n) && s.input.puts <= t.input.puts
      && (|Finished(t)| >= n || StepsLeft(t, n) + Steps(acts) <= StepsLeft(s, n))
  {
    hide Next, Working, Finished, StepsLeft;
    if acts != [] {
      var (front, a) := (acts[..|acts| - 1], acts[|acts| - 1]);
      assert a in acts && forall b | b in front :: b in acts;
      RunWorks(f, s, front, n);
      StepWorks(f, Run(f, s, front), a, n);
    }
  }

  /** Once a thread is resumed, and not suspended again or joined, every item put so far is processed within
      six steps for each item queued and two more, whatever the preemption time; the results come out in
      order. */
  lemma EveryItemIsProcessed<A, B>(f: A -> B, s: Async<A, B>, acts: seq<Action<A>>)
    requires Inv(f, s) && !s.joinRequested && !s.at.Ended? && Unstopped(acts)
    requires Steps(acts) >= 6 * |s.input.queue| + 2
    ensures var t := Run(f, Next(f, s, Resume), acts);
      && |Finished(t)| >= |s.input.puts| && Finished(t)[..|s.input.puts|] == s.input.puts
      && (s.hasOut ==> |t.output| >= |s.input.puts| && t.output[..|s.input.puts|] == Map(f, s.input.puts))
  {
    var (u, n) := (Next(f, s, Resume), |s.input.puts|);
    StepKeepsInv(f, s, Resume);
    Counts(f, u, n);
    RunWorks(f, u, acts, n);
    var t := Run(f, u, acts);
    Counts(f, t, n);
    OutRun(f, u, acts);
    FinishedArePuts(f, t);
    MapFront(f, Finished(t), n);
  }

  /** The items put. */
  function Items<A>(acts: seq<Action<A>>): seq<A> {
    if acts == [] then []
    else
      var (front, a) := (Items(acts[..|acts| - 1]), acts[|acts| - 1]);
      if a.PutIn? then front + [a.x] else front
  }

  /** What the thread is to process are the items put, in their order. */
  lemma {:induction false} PutsAreItems<A, B>(f: A -> B, s: Async<A, B>, acts: seq<Action<A>>)
    ensures Run(f, s, acts).input.puts == s.input.puts + Items(acts)
  {
    hide Next;
    if acts != [] {
      PutsAreItems(f, s, acts[..|acts| - 1]);
      StepPuts(f, Run(f, s, acts[..|acts| - 1]), acts[|acts| - 1]);
    }
  }

  lemma StepPuts<A, B>(f: A -> B, s: Async<A, B>, a: Action<A>)
    ensures Next(f, s, a).input.puts == if a.PutIn? then s.input.puts + [a.x] else s.input.puts
  {
  }

  /** After `suspend`, without a `resume`, at most one more item is taken. */
  lemma SuspendStops<A, B>(f: A -> B, s: Async<A, B>, acts: seq<Action<A>>)
    requires Resume !in acts
    ensures |Run(f, Next(f, s, Suspend), acts).input.consumed| <= |s.input.consumed| + 1
  {
    StopsSoon(f, Next(f, s, Suspend), acts, false);
  }

  /** After `join` at most one more item is taken, and the thread ends within six steps if its waits time
      out. */
  lemma JoinStops<A, B>(f: A -> B, s: Async<A, B>, acts: seq<Action<A>>)
    requires Possible(f, Next(f, s, RequestJoin), acts)
    ensures var t := Run(f, Next(f, s, RequestJoin), acts);
      |t.input.consumed| <= |s.input.consumed| + 1 && (Timed(acts) >= 6 ==> t.at.Ended?)
  {
    StopsSoon(f, Next(f, s, RequestJoin), acts, true);
    JoinReturns(f, Next(f, s, RequestJoin), acts);
  }

  /** The flag for the outside tells whether the thread goes on to ask for an item. */
  lemma RunningShown<A, B>(f: A -> B, s: Async<A, B>, flag: bool)
    requires s.at.Head? && !s.joinRequested
    ensures var t := Next(f, s, Proceed(flag)); t.isRunning <==> t.at.Asking?
  {
  }

  /** It can always step. */
  lemma CanStep<A, B>(f: A -> B, s: Async<A, B>, n: nat)
    requires Working(f, s, n)
    ensures Enabled(s, Proceed(true)) && Enabled(s, Proceed(false))
  {
  }

  lemma {:induction false} OutRun<A, B>(f: A -> B, s: Async<A, B>, acts: seq<Action<A>>)
    ensures Run(f, s, acts).hasOut == s.hasOut
  {
    hide Next;
    if acts != [] {
      OutRun(f, s, acts[..|acts| - 1]);
      OutKept(f, Run(f, s, acts[..|acts| - 1]), acts[|acts| - 1]);
    }
  }

  lemma FinishedArePuts<A, B>(f: A -> B, s: Async<A, B>)
    requires Inv(f, s)
    ensures Finished(s) <= s.input.puts && (s.hasOut ==> s.output == Map(f, Finished(s)))
  {
    hide Map;
  }

  lemma MapFront<A, B>(f: A -> B, xs: seq<A>, n: nat)
    requires n <= |xs|
    ensures |Map(f, xs)| == |xs| && Map(f, xs)[..n] == Map(f, xs[..n])
  {
    hide Map;
    MapAt(f, xs);
    MapAt(f, xs[..n]);
  }
}
