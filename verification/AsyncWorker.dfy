/** A worker thread between two queues. Writers, readers and the owner of the thread act in between its
    steps; the worker function is `f`. */
module AsyncWorker {
  import opened SafeQueue

  /** Where the thread is: at the loop's head, asking for data, about to take it, in the worker function,
      behind it, before the update of the statistics, at the end. */
  datatype Place<A, B> = Head | Asking | Ready | Called(x: A) | Computed(y: B) | Counting | Ended

  /** `output` holds what the thread has put into the output queue, if there is one. */
  datatype Async<A, B> = Async(
    input: CvQueue<A>, hasOut: bool, output: seq<B>,
    at: Place<A, B>, suspendRequested: bool, joinRequested: bool, isRunning: bool, nCalls: nat)

  /** The flag of `Proceed` tells whether a wait without data has timed out. */
  datatype Action<A> = PutIn(x: A) | Suspend | Resume | RequestJoin | Proceed(flag: bool)

  function Start<A, B>(hasOut: bool): Async<A, B> {
    Async(CvStart(), hasOut, [], Head, false, false, true, 0)
  }

  predicate Enabled<A, B>(s: Async<A, B>, a: Action<A>) {
    a.Proceed? ==> !s.at.Ended?
  }

  function WorkerStep<A, B>(f: A -> B, s: Async<A, B>, flag: bool): Async<A, B> {
    match s.at
    case Head =>
      if s.joinRequested then s.(at := Ended)
      else s.(isRunning := !s.suspendRequested, at := if s.suspendRequested then Head else Asking)
    case Asking =>
      if s.input.queue != [] then s.(input := CvNext(s.input, CvSee), at := Ready)
      else if flag then s.(at := Head)
      else s
    case Ready =>
      if s.input.queue == [] then s.(input := CvNext(s.input, CvPop), at := Ended)
      else s.(input := CvNext(s.input, CvPop), at := Called(s.input.queue[0]))
    case Called(x) => s.(at := Computed(f(x)))
    case Computed(y) => s.(output := if s.hasOut then s.output + [y] else s.output, at := Counting)
    case Counting => s.(nCalls := s.nCalls + 1, at := Head)
    case Ended => s
  }

  function Next<A, B>(f: A -> B, s: Async<A, B>, a: Action<A>): Async<A, B> {
    match a
    case PutIn(x) => s.(input := CvNext(s.input, CvPut(x)))
    case Suspend => s.(suspendRequested := true)
    case Resume => s.(suspendRequested := false)
    case RequestJoin => s.(joinRequested := true)
    case Proceed(flag) => WorkerStep(f, s, flag)
  }

  function Run<A, B>(f: A -> B, s: Async<A, B>, acts: seq<Action<A>>): Async<A, B> {
    if acts == [] then s else Next(f, Run(f, s, acts[..|acts| - 1]), acts[|acts| - 1])
  }

  predicate Possible<A, B>(f: A -> B, s: Async<A, B>, acts: seq<Action<A>>) {
    acts == [] ||
    (Possible(f, s, acts[..|acts| - 1]) && Enabled(Run(f, s, acts[..|acts| - 1]), acts[|acts| - 1]))
  }

  function Map<A, B>(f: A -> B, xs: seq<A>): seq<B> {
    if xs == [] then [] else Map(f, xs[..|xs| - 1]) + [f(xs[|xs| - 1])]
  }

  predicate InProgress<A, B>(at: Place<A, B>) {
    at.Called? || at.Computed?
  }

  /** The items taken, without the one in progress. */
  function Finished<A, B>(s: Async<A, B>): seq<A> {
    if InProgress(s.at) && s.input.consumed != [] then s.input.consumed[..|s.input.consumed| - 1]
    else s.input.consumed
  }

  ghost predicate Inv<A, B>(f: A -> B, s: Async<A, B>) {
    && CvInv(s.input) && s.input.ready == (if s.at.Ready? then 1 else 0)
    && (InProgress(s.at) ==> s.input.consumed != [] && Carries(f, s.at, s.input.consumed[|s.input.consumed| - 1]))
    && s.output == (if s.hasOut then Map(f, Finished(s)) else [])
    && s.nCalls + (if s.at.Counting? then 1 else 0) == |Finished(s)|
  }

  ghost predicate Carries<A, B>(f: A -> B, at: Place<A, B>, x: A) {
    match at
    case Called(x') => x' == x
    case Computed(y) => y == f(x)
    case _ => true
  }

  lemma MapMore<A, B>(f: A -> B, xs: seq<A>)
    requires xs != []
    ensures Map(f, xs) == Map(f, xs[..|xs| - 1]) + [f(xs[|xs| - 1])]
  {
  }

  lemma TakeKeepsInv<A, B>(f: A -> B, s: Async<A, B>, flag: bool)
    requires Inv(f, s) && s.at.Ready?
    ensures Inv(f, WorkerStep(f, s, flag))
  {
    hide Map;
    var t := WorkerStep(f, s, flag);
    CvStepKeepsInv(s.input, CvPop, 1);
    assert t.input.consumed[..|s.input.consumed|] == s.input.consumed;
  }

  lemma PutKeepsInv<A, B>(f: A -> B, s: Async<A, B>, flag: bool)
    requires Inv(f, s) && s.at.Computed?
    ensures Inv(f, WorkerStep(f, s, flag))
  {
    hide Map, CvInv;
    MapMore(f, s.input.consumed);
  }

  lemma AskKeepsInv<A, B>(f: A -> B, s: Async<A, B>, flag: bool)
    requires Inv(f, s) && s.at.Asking?
    ensures Inv(f, WorkerStep(f, s, flag))
  {
    hide Map;
  }

  lemma WorkerKeepsInv<A, B>(f: A -> B, s: Async<A, B>, flag: bool)
    requires Inv(f, s)
    ensures Inv(f, WorkerStep(f, s, flag))
  {
    hide Map, CvInv, CvNext;
    match s.at
    case Ready => TakeKeepsInv(f, s, flag);
    case Computed(y) => PutKeepsInv(f, s, flag);
    case Asking => AskKeepsInv(f, s, flag);
    case _ =>
  }

  lemma StepKeepsInv<A, B>(f: A -> B, s: Async<A, B>, a: Action<A>)
    requires Inv(f, s)
    ensures Inv(f, Next(f, s, a))
  {
    hide Map, WorkerStep;
    match a
    case PutIn(x) => CvStepKeepsInv(s.input, CvPut(x), 1);
    case Proceed(flag) => WorkerKeepsInv(f, s, flag);
    case _ =>
  }

  lemma {:induction false} RunKeepsInv<A, B>(f: A -> B, hasOut: bool, acts: seq<Action<A>>)
    requires Possible(f, Start(hasOut), acts)
    ensures Inv(f, Run(f, Start(hasOut), acts)) && Run(f, Start(hasOut), acts).hasOut == hasOut
  {
    hide Inv, Next, Enabled;
    if acts == [] {
      StartInv(f, hasOut);
    } else {
      var front := acts[..|acts| - 1];
      RunKeepsInv(f, hasOut, front);
      StepKeepsInv(f, Run(f, Start(hasOut), front), acts[|acts| - 1]);
      OutKept(f, Run(f, Start(hasOut), front), acts[|acts| - 1]);
    }
  }

  lemma OutKept<A, B>(f: A -> B, s: Async<A, B>, a: Action<A>)
    ensures Next(f, s, a).hasOut == s.hasOut
  {
  }

  lemma StartInv<A, B>(f: A -> B, hasOut: bool)
    ensures Inv(f, Start(hasOut))
  {
    assert [] + [] == CvStart<A>().puts;
  }

  /** In every run: the results are the worker function mapped over the items in the order they were put,
      up to those still queued and the one in progress; after the end none is in progress. */
  lemma OutputIsMapOfInput<A, B>(f: A -> B, hasOut: bool, acts: seq<Action<A>>)
    requires Possible(f, Start(hasOut), acts)
    ensures var s := Run(f, Start(hasOut), acts);
      && !s.input.broken && s.input.consumed + s.input.queue == s.input.puts
      && |Finished(s)| <= |s.input.puts| && Finished(s) == s.input.puts[..|Finished(s)|]
      && |s.input.consumed| == |Finished(s)| + (if InProgress(s.at) then 1 else 0)
      && s.output == (if hasOut then Map(f, Finished(s)) else [])
      && (s.at.Ended? ==> s.nCalls == |s.input.consumed| == |Finished(s)|)
  {
    hide Run, Possible, Map;
    RunKeepsInv(f, hasOut, acts);
  }

  // ----- What a request to suspend or join stops -----

  predicate Stopping<A, B>(s: Async<A, B>, resumable: bool) {
    s.joinRequested || (s.suspendRequested && !resumable)
  }

  /** The items the thread still takes after it was asked to stop. */
  function Budget<A, B>(s: Async<A, B>): nat {
    if s.at.Asking? || s.at.Ready? then 1 else 0
  }

  lemma StepStops<A, B>(f: A -> B, s: Async<A, B>, a: Action<A>, resumable: bool)
    requires Stopping(s, resumable) && (a.Resume? ==> resumable)
    ensures var t := Next(f, s, a);
      Stopping(t, resumable) && |t.input.consumed| + Budget(t) <= |s.input.consumed| + Budget(s)
  {
  }

  /** After a request to join, or to suspend without a resume behind it, at most one more item is taken,
      and none if the thread is not just asking for one. */
  lemma {:induction false} StopsSoon<A, B>(f: A -> B, s: Async<A, B>, acts: seq<Action<A>>, resumable: bool)
    requires Stopping(s, resumable) && (Resume in acts ==> resumable)
    ensures var t := Run(f, s, acts);
      Stopping(t, resumable) && |t.input.consumed| + Budget(t) <= |s.input.consumed| + Budget(s)
  {
    hide Next, Stopping, Budget;
    if acts != [] {
      var front := acts[..|acts| - 1];
      StopsSoon(f, s, front, resumable);
      StepStops(f, Run(f, s, front), acts[|acts| - 1], resumable);
    }
  }

  // ----- Joining the thread -----

  /** The most steps the thread makes once it was asked to join, not counting wake-ups without data. */
  function JoinSteps<A, B>(at: Place<A, B>): nat {
    match at
    case Ended => 0
    case Head => 1
    case Counting => 2
    case Computed(_) => 3
    case Called(_) => 4
    case Ready => 5
    case Asking => 6
  }

  /** The steps in which a wait without data, if it is one, times out. */
  function Timed<A>(acts: seq<Action<A>>): nat {
    if acts == [] then 0
    else Timed(acts[..|acts| - 1]) + if acts[|acts| - 1] == Proceed(true) then 1 else 0
  }

  lemma JoinStep<A, B>(f: A -> B, s: Async<A, B>, a: Action<A>)
    requires s.joinRequested && Enabled(s, a)
    ensures var t := Next(f, s, a);
      t.joinRequested && JoinSteps(t.at) + (if a == Proceed(true) then 1 else 0) <= JoinSteps(s.at)
  {
    hide CvNext;
  }

  /** If waits time out, the thread ends within six steps after a request to join, whatever else happens,
      and before its end it can always make one. So the join returns. */
  lemma {:induction false} JoinReturns<A, B>(f: A -> B, s: Async<A, B>, acts: seq<Action<A>>)
    requires s.joinRequested && Possible(f, s, acts)
    ensures var t := Run(f, s, acts);
      && t.joinRequested && Timed(acts) + JoinSteps(t.at) <= JoinSteps(s.at) <= 6
      && (t.at.Ended? || Enabled(t, Proceed(true))) && (Timed(acts) == JoinSteps(s.at) ==> t.at.Ended?)
  {
    hide Next, Enabled;
    StepsToJoin(s);
    StepsToJoin(Run(f, s, acts));
    if acts != [] {
      var front := acts[..|acts| - 1];
      JoinReturns(f, s, front);
      JoinStep(f, Run(f, s, front), acts[|acts| - 1]);
    }
  }

  lemma StepsToJoin<A, B>(s: Async<A, B>)
    ensures JoinSteps(s.at) <= 6 && (JoinSteps(s.at) == 0 ==> s.at.Ended?) && (s.at.Ended? || Enabled(s, Proceed(true)))
  {
  }

  /** If waits never time out, as with a negative preemption time, a thread that has begun to wait for data
      does so until some comes, even when it is asked to join. */
  lemma {:induction false} WaitsForEver<A, B>(f: A -> B, s: Async<A, B>, acts: seq<Action<A>>)
    requires s.at.Asking? && s.input.queue == []
    requires forall a | a in acts :: !a.PutIn? && a != Proceed(true)
    ensures var t := Run(f, s, acts); t.at.Asking? && t.input.queue == []
  {
    if acts != [] {
      assert acts[|acts| - 1] in acts && forall a | a in acts[..|acts| - 1] :: a in acts;
      WaitsForEver(f, s, acts[..|acts| - 1]);
    }
  }

  /** It gets there: the first step of a new thread leads to the wait. */
  lemma WaitOccurs<A, B>(f: A -> B, hasOut: bool)
    ensures var s := Run(f, Start(hasOut), [Proceed(false)]);
      Possible(f, Start(hasOut), [Proceed(false)]) && s.at.Asking? && s.input.queue == []
  {
    var acts: seq<Action<A>> := [Proceed(false)];
    assert acts[..0] == [];
  }

  /** Each result belongs to the item at its position. */
  lemma {:induction false} MapAt<A, B>(f: A -> B, xs: seq<A>)
    ensures |Map(f, xs)| == |xs| && forall k | 0 <= k < |xs| :: Map(f, xs)[k] == f(xs[k])
  {
    if xs != [] {
      MapAt(f, xs[..|xs| - 1]);
    }
  }

  // ----- The class -----

  class AsyncWorker<A(0), B(0)> {
    const f: A -> B
    const inPtr: ThreadSafeQueue<A>
    const outPtr: ThreadSafeQueue?<B>
    const preemptionTime: int
    var suspendRequested: bool
    var joinRequested: bool
    var isRunning: bool
    var nCalls: nat
    var position: Place<A, B>
    ghost var produced: seq<B>

    ghost function View(): Async<A, B>
      reads this, inPtr
    {
      Async(inPtr.View(), outPtr != null, produced, position, suspendRequested, joinRequested, isRunning, nCalls)
    }

    constructor (f: A -> B, input: ThreadSafeQueue<A>, output: ThreadSafeQueue?<B>, preemption: int)
      requires input.View() == CvStart()
      ensures View() == Start(output != null)
      ensures this.f == f && inPtr == input && outPtr == output && preemptionTime == preemption
    {
      this.f, inPtr, outPtr, preemptionTime := f, input, output, preemption;
      suspendRequested, joinRequested, isRunning, nCalls := false, false, true, 0;
      position, produced := Head, [];
    }

    method RequestSuspend()
      modifies this
      ensures View() == Next(f, old(View()), Suspend)
    {
      suspendRequested := true;
    }

    method RequestResume()
      modifies this
      ensures View() == Next(f, old(View()), Resume)
    {
      suspendRequested := false;
    }

    method Join()
      modifies this
      ensures View() == Next(f, old(View()), RequestJoin)
    {
      joinRequested := true;
    }

    method LoopHead()
      requires position.Head?
      modifies this
      ensures View() == WorkerStep(f, old(View()), true) == WorkerStep(f, old(View()), false)
    {
      if !joinRequested {
        isRunning := !suspendRequested;
        if !isRunning {
          return;
        }
        position := Asking;
      } else {
        position := Ended;
      }
    }

    /** The call of `get` up to its first look at the queue. */
    method Ask() returns (w: Wait)
      requires position.Asking?
      modifies this, inPtr
      ensures View() == WorkerStep(f, old(View()), w == TimedOut)
      ensures w == TimedOut ==> preemptionTime == 0
    {
      w := inPtr.WaitForData(preemptionTime);
      Answered(w);
    }

    /** Awake again in the same call. */
    method AskAgain(elapsed: bool) returns (w: Wait)
      requires position.Asking? && preemptionTime != 0
      modifies this, inPtr
      ensures View() == WorkerStep(f, old(View()), w == TimedOut)
      ensures w == TimedOut ==> preemptionTime > 0 && elapsed
    {
      w := inPtr.WakeUp(preemptionTime, elapsed);
      Answered(w);
    }

    method Answered(w: Wait)
      modifies this`position
      ensures position == match w case HasData => Ready case TimedOut => Head case MustWait => old(position)
    {
      if w == HasData {
        position := Ready;
      } else if w == TimedOut {
        position := Head;
      }
    }

    method TakeItem()
      requires position.Ready? && Inv(f, View())
      modifies this, inPtr
      ensures View() == WorkerStep(f, old(View()), true) == WorkerStep(f, old(View()), false)
    {
      var x := inPtr.Take();
      position := Called(x);
    }

    method CallWorker()
      requires position.Called?
      modifies this
      ensures View() == WorkerStep(f, old(View()), true) == WorkerStep(f, old(View()), false)
    {
      var outData := f(position.x);
      position := Computed(outData);
    }

    /** The step of the machine, unless the result goes back into the input queue. */
    method PutResult()
      requires position.Computed?
      modifies this, outPtr
      ensures outPtr as object? != inPtr ==>
        View() == WorkerStep(f, old(View()), true) == WorkerStep(f, old(View()), false)
      ensures outPtr != null ==> outPtr.View() == CvNext(old(outPtr.View()), CvPut(old(position.y)))
      ensures position == Counting
      ensures produced == if outPtr != null then old(produced) + [old(position.y)] else old(produced)
      ensures unchanged(`suspendRequested, `joinRequested, `isRunning, `nCalls)
    {
      if outPtr != null {
        outPtr.Put(position.y);
        produced := produced + [position.y];
      }
      position := Counting;
    }

    method UpdateStats()
      requires position.Counting?
      modifies this
      ensures View() == WorkerStep(f, old(View()), true) == WorkerStep(f, old(View()), false)
    {
      nCalls := nCalls + 1;
      position := Head;
    }
  }
}
