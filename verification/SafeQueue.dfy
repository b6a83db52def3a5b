/** Queues between threads, stepped at the granularity of their lock: the one with a condition variable
    and the one with a pipe that holds a token for each item. */
module SafeQueue {

  // ----- The queue with a condition variable -----

  /** `ready` counts the readers that have seen data and have not taken it yet. */
  datatype CvQueue<T> = CvQueue(queue: seq<T>, ready: nat, consumed: seq<T>, puts: seq<T>, broken: bool)

  datatype CvAction<T> = CvPut(x: T) | CvSee | CvPop

  function CvStart<T>(): CvQueue<T> {
    CvQueue([], 0, [], [], false)
  }

  predicate CvEnabled<T>(q: CvQueue<T>, a: CvAction<T>, readers: nat) {
    match a
    case CvPut(_) => true
    case CvSee => q.ready < readers && q.queue != []
    case CvPop => q.ready > 0
  }

  /** Taking the first item of an empty queue breaks it. */
  function CvNext<T>(q: CvQueue<T>, a: CvAction<T>): CvQueue<T> {
    match a
    case CvPut(x) => q.(queue := q.queue + [x], puts := q.puts + [x])
    case CvSee => q.(ready := q.ready + 1)
    case CvPop =>
      var ready := if q.ready > 0 then q.ready - 1 else 0;
      if q.queue == [] then q.(ready := ready, broken := true)
      else q.(ready := ready, queue := q.queue[1..], consumed := q.consumed + [q.queue[0]])
  }

  function CvRun<T>(q: CvQueue<T>, acts: seq<CvAction<T>>): CvQueue<T> {
    if acts == [] then q else CvNext(CvRun(q, acts[..|acts| - 1]), acts[|acts| - 1])
  }

  predicate CvPossible<T>(q: CvQueue<T>, acts: seq<CvAction<T>>, readers: nat) {
    acts == [] ||
    (CvPossible(q, acts[..|acts| - 1], readers) &&
     CvEnabled(CvRun(q, acts[..|acts| - 1]), acts[|acts| - 1], readers))
  }

  ghost predicate CvInv<T>(q: CvQueue<T>) {
    && q.consumed + q.queue == q.puts && !q.broken
    && q.ready <= |q.queue|
  }

  lemma {:induction false} CvRunKeepsInv<T>(acts: seq<CvAction<T>>, readers: nat)
    requires readers <= 1 && CvPossible(CvStart(), acts, readers)
    ensures CvInv(CvRun(CvStart(), acts))
  {
    if acts == [] {
      assert [] + [] == CvStart<T>().puts;
    } else {
      CvRunKeepsInv(acts[..|acts| - 1], readers);
      CvStepKeepsInv(CvRun(CvStart(), acts[..|acts| - 1]), acts[|acts| - 1], readers);
    }
  }

  lemma CvStepKeepsInv<T>(q: CvQueue<T>, a: CvAction<T>, readers: nat)
    requires CvInv(q) && readers <= 1 && CvEnabled(q, a, readers)
    ensures CvInv(CvNext(q, a))
  {
    match a
    case CvPut(x) => assert q.consumed + (q.queue + [x]) == q.consumed + q.queue + [x];
    case CvSee =>
    case CvPop => assert q.consumed + [q.queue[0]] + q.queue[1..] == q.consumed + q.queue;
  }

  ghost predicate CvNeverBreaks<T(!new)>(readers: nat) {
    forall acts: seq<CvAction<T>> | CvPossible(CvStart(), acts, readers) :: !CvRun(CvStart(), acts).broken
  }

  /** No reader ever takes from an empty queue, in any interleaving, exactly if there is one reader at
      most: the test for data and the taking of it are separate locked sections. */
  lemma CvSafeForOneReader<T(!new)>(readers: nat, x: T)
    ensures CvNeverBreaks<T>(readers) <==> readers <= 1
  {
    hide CvRun, CvPossible;
    if readers <= 1 {
      forall acts: seq<CvAction<T>> | CvPossible(CvStart(), acts, readers)
        ensures !CvRun(CvStart(), acts).broken
      {
        CvRunKeepsInv(acts, readers);
      }
    } else {
      TwoReadersBreak(readers, x);
    }
  }

  lemma CvMore<T>(acts: seq<CvAction<T>>, a: CvAction<T>, readers: nat)
    requires CvPossible(CvStart(), acts, readers) && CvEnabled(CvRun(CvStart(), acts), a, readers)
    ensures CvPossible(CvStart(), acts + [a], readers)
    ensures CvRun(CvStart(), acts + [a]) == CvNext(CvRun(CvStart(), acts), a)
  {
    hide CvNext, CvEnabled;
    assert (acts + [a])[..|acts|] == acts;
  }

  /** One item, and two readers that both see it. */
  lemma TwoReadersBreak<T>(readers: nat, x: T)
    requires readers >= 2
    ensures var acts := [CvPut(x)] + [CvSee] + [CvSee] + [CvPop] + [CvPop];
      CvPossible(CvStart(), acts, readers) && CvRun(CvStart(), acts).broken
  {
    hide CvRun, CvPossible;
    CvNothing<T>(readers);
    CvMore<T>([], CvPut(x), readers);
    assert [] + [CvPut(x)] == [CvPut(x)];
    CvMore([CvPut(x)], CvSee, readers);
    CvMore([CvPut(x)] + [CvSee], CvSee, readers);
    CvMore([CvPut(x)] + [CvSee] + [CvSee], CvPop, readers);
    CvMore([CvPut(x)] + [CvSee] + [CvSee] + [CvPop], CvPop, readers);
  }

  lemma CvNothing<T>(readers: nat)
    ensures CvPossible(CvStart<T>(), [], readers) && CvRun(CvStart<T>(), []) == CvStart()
  {
  }

  /** The items put in, in the order in which the writers get the lock. */
  function CvItems<T>(acts: seq<CvAction<T>>): seq<T> {
    if acts == [] then []
    else
      var (front, a) := (CvItems(acts[..|acts| - 1]), acts[|acts| - 1]);
      if a.CvPut? then front + [a.x] else front
  }

  function CvPops<T>(acts: seq<CvAction<T>>): nat {
    if acts == [] then 0 else CvPops(acts[..|acts| - 1]) + if acts[|acts| - 1].CvPop? then 1 else 0
  }

  lemma {:induction false} CvTraffic<T>(acts: seq<CvAction<T>>)
    ensures CvRun(CvStart(), acts).puts == CvItems(acts)
    ensures !CvRun(CvStart(), acts).broken ==> |CvRun(CvStart(), acts).consumed| == CvPops(acts)
  {
    if acts != [] {
      CvTraffic(acts[..|acts| - 1]);
    }
  }

  /** In order: what one reader has taken, one item each time, followed by what is queued, is what was put
      in. */
  lemma CvKeepsOrder<T>(acts: seq<CvAction<T>>, readers: nat)
    requires readers <= 1 && CvPossible(CvStart(), acts, readers)
    ensures var q := CvRun(CvStart(), acts);
      q.consumed + q.queue == CvItems(acts) && |q.consumed| == CvPops(acts) && (q.ready > 0 ==> q.queue != [])
  {
    hide CvRun, CvPossible, CvItems, CvPops;
    CvRunKeepsInv(acts, readers);
    CvTraffic(acts);
  }

  // ----- The queue with a pipe -----

  /** `writing` is set between the push of a writer and its write to the pipe; the writer holds the lock
      then. `held` counts the readers that have taken a token and not yet their item. */
  datatype PipeQueue<T> =
    PipeQueue(queue: seq<T>, tokens: nat, writing: bool, held: nat, consumed: seq<T>, puts: seq<T>, broken: bool)

  datatype PipeAction<T> = Push(x: T) | Notify | TakeToken | Pop

  function PipeStart<T>(): PipeQueue<T> {
    PipeQueue([], 0, false, 0, [], [], false)
  }

  /** Taking a token needs no lock. */
  predicate PipeEnabled<T>(q: PipeQueue<T>, a: PipeAction<T>) {
    match a
    case Push(_) => !q.writing
    case Notify => q.writing
    case TakeToken => q.tokens > 0
    case Pop => q.held > 0 && !q.writing
  }

  function PipeNext<T>(q: PipeQueue<T>, a: PipeAction<T>): PipeQueue<T> {
    match a
    case Push(x) => q.(queue := q.queue + [x], puts := q.puts + [x], writing := true)
    case Notify => q.(tokens := q.tokens + 1, writing := false)
    case TakeToken => q.(tokens := if q.tokens > 0 then q.tokens - 1 else 0, held := q.held + 1)
    case Pop =>
      var held := if q.held > 0 then q.held - 1 else 0;
      if q.queue == [] then q.(held := held, broken := true)
      else q.(held := held, queue := q.queue[1..], consumed := q.consumed + [q.queue[0]])
  }

  function PipeRun<T>(acts: seq<PipeAction<T>>): PipeQueue<T> {
    if acts == [] then PipeStart() else PipeNext(PipeRun(acts[..|acts| - 1]), acts[|acts| - 1])
  }

  predicate PipePossible<T>(acts: seq<PipeAction<T>>) {
    acts == [] || (PipePossible(acts[..|acts| - 1]) && PipeEnabled(PipeRun(acts[..|acts| - 1]), acts[|acts| - 1]))
  }

  /** Nobody has taken from an empty queue, items come out in the order of the puts, and every queued
      item has its token: in the pipe, in the hands of a reader, or about to be written. */
  ghost predicate PipeInv<T>(q: PipeQueue<T>) {
    && !q.broken && q.consumed + q.queue == q.puts
    && q.tokens + q.held + (if q.writing then 1 else 0) == |q.queue|
  }

  /** The items pushed, in the order in which the writers get the lock. */
  function PipeItems<T>(acts: seq<PipeAction<T>>): seq<T> {
    if acts == [] then []
    else
      var (front, a) := (PipeItems(acts[..|acts| - 1]), acts[|acts| - 1]);
      if a.Push? then front + [a.x] else front
  }

  function PipePops<T>(acts: seq<PipeAction<T>>): nat {
    if acts == [] then 0 else PipePops(acts[..|acts| - 1]) + if acts[|acts| - 1].Pop? then 1 else 0
  }

  /** Every item pushed is queued, every reader takes one. */
  lemma {:induction false} PipeTraffic<T>(acts: seq<PipeAction<T>>)
    requires PipePossible(acts)
    ensures PipeRun(acts).consumed + PipeRun(acts).queue == PipeItems(acts)
    ensures |PipeRun(acts).consumed| == PipePops(acts)
  {
    hide PipeEnabled, PipeNext, PipeInv;
    if acts == [] {
      assert PipeRun(acts) == PipeStart<T>();
    } else {
      var front := acts[..|acts| - 1];
      PipeTraffic(front);
      PipeSafe(front);
      PipeStepTraffic(PipeRun(front), acts[|acts| - 1]);
    }
  }

  lemma PipeStepTraffic<T>(q: PipeQueue<T>, a: PipeAction<T>)
    requires PipeInv(q) && PipeEnabled(q, a)
    ensures var r := PipeNext(q, a);
      && r.consumed + r.queue == (if a.Push? then q.consumed + q.queue + [a.x] else q.consumed + q.queue)
      && |r.consumed| == |q.consumed| + if a.Pop? then 1 else 0
  {
    PipeStep(q, a);
  }

  /** Any interleaving of any number of writers and readers. */
  lemma {:induction false} PipeSafe<T>(acts: seq<PipeAction<T>>)
    requires PipePossible(acts)
    ensures PipeInv(PipeRun(acts))
  {
    if acts == [] {
      assert [] + [] == PipeStart<T>().puts;
    } else {
      PipeSafe(acts[..|acts| - 1]);
      PipeStep(PipeRun(acts[..|acts| - 1]), acts[|acts| - 1]);
    }
  }

  lemma PipeStep<T>(q: PipeQueue<T>, a: PipeAction<T>)
    requires PipeInv(q) && PipeEnabled(q, a)
    ensures PipeInv(PipeNext(q, a))
  {
    match a
    case Push(x) => assert q.consumed + (q.queue + [x]) == q.consumed + q.queue + [x];
    case Notify =>
    case TakeToken =>
    case Pop => assert q.consumed + [q.queue[0]] + q.queue[1..] == q.consumed + q.queue;
  }

  /** With no writer and no reader in between, a reader finds a token exactly if there is an item. */
  lemma TokenForItem<T>(acts: seq<PipeAction<T>>)
    requires PipePossible(acts) && !PipeRun(acts).writing && PipeRun(acts).held == 0
    ensures PipeEnabled(PipeRun(acts), TakeToken) <==> PipeRun(acts).queue != []
  {
    hide PipeRun, PipePossible;
    PipeSafe(acts);
  }

  // ----- The classes -----

  /** How far a reader has got that waits for data. */
  datatype Wait = HasData | TimedOut | MustWait

  class ThreadSafeQueue<T> {
    var queue: seq<T>
    ghost var ready: nat
    ghost var consumed: seq<T>
    ghost var puts: seq<T>

    ghost function View(): CvQueue<T>
      reads this
    {
      CvQueue(queue, ready, consumed, puts, false)
    }

    constructor ()
      ensures View() == CvStart()
    {
      queue, ready, consumed, puts := [], 0, [], [];
    }

    method Put(x: T)
      modifies this
      ensures View() == CvNext(old(View()), CvPut(x))
    {
      queue := queue + [x];
      puts := puts + [x];
    }

    /** The first look at the queue; a negative timeout waits for ever, and zero does not wait. */
    method WaitForData(timeout: int) returns (w: Wait)
      modifies this`ready
      ensures w == HasData <==> old(queue) != []
      ensures timeout < 0 ==> w != TimedOut
      ensures timeout == 0 ==> w != MustWait
      ensures timeout > 0 ==> w != TimedOut
      ensures View() == if w == HasData then CvNext(old(View()), CvSee) else old(View())
    {
      var hasData := queue != [];
      if timeout < 0 {
        w := if hasData then HasData else MustWait;
      } else if timeout == 0 {
        w := if hasData then HasData else TimedOut;
      } else {
        w := if hasData then HasData else MustWait;
      }
      if hasData {
        ready := ready + 1;
      }
    }

    /** Awake again after a wait, by a notification, spuriously or because the time has `elapsed`. */
    method WakeUp(timeout: int, elapsed: bool) returns (w: Wait)
      requires timeout != 0
      modifies this`ready
      ensures w == HasData <==> old(queue) != []
      ensures w == TimedOut <==> old(queue) == [] && timeout > 0 && elapsed
      ensures View() == if w == HasData then CvNext(old(View()), CvSee) else old(View())
    {
      if queue != [] {
        ready := ready + 1;
        return HasData;
      }
      if timeout > 0 && elapsed {
        return TimedOut;
      }
      return MustWait;
    }

    method Take() returns (x: T)
      requires CvEnabled(View(), CvPop, 1) && CvInv(View())
      modifies this
      ensures View() == CvNext(old(View()), CvPop)
      ensures x == old(queue)[0]
    {
      x := queue[0];
      queue := queue[1..];
      ready := ready - 1;
      consumed := consumed + [x];
    }
  }

  class PipeSyncedQueue<T> {
    var queue: seq<T>
    var tokens: nat
    ghost var writing: bool
    ghost var held: nat
    ghost var consumed: seq<T>
    ghost var puts: seq<T>

    ghost function View(): PipeQueue<T>
      reads this
    {
      PipeQueue(queue, tokens, writing, held, consumed, puts, false)
    }

    constructor ()
      ensures View() == PipeStart()
    {
      queue, tokens, writing, held, consumed, puts := [], 0, false, 0, [], [];
    }

    method PushBack(x: T)
      requires PipeEnabled(View(), Push(x))
      modifies this
      ensures View() == PipeNext(old(View()), Push(x))
    {
      queue := queue + [x];
      puts := puts + [x];
      writing := true;
    }

    method WriteToken()
      requires PipeEnabled(View(), Notify)
      modifies this
      ensures View() == PipeNext(old(View()), Notify)
    {
      tokens := tokens + 1;
      writing := false;
    }

    method WaitForData() returns (hasData: bool)
      modifies this
      ensures hasData <==> PipeEnabled(old(View()), TakeToken)
      ensures View() == if hasData then PipeNext(old(View()), TakeToken) else old(View())
    {
      if tokens == 0 {
        return false;
      }
      tokens := tokens - 1;
      held := held + 1;
      return true;
    }

    method Take() returns (x: T)
      requires PipeEnabled(View(), Pop) && PipeInv(View())
      modifies this
      ensures View() == PipeNext(old(View()), Pop)
      ensures x == old(queue)[0]
    {
      x := queue[0];
      queue := queue[1..];
      held := held - 1;
      consumed := consumed + [x];
    }
  }
}
