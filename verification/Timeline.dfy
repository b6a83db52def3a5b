/** Increasing instants cut the time line into consecutive half-open intervals. */
module Timeline {

  /** An interval of time with one offset from UTC. */
  datatype SysInfo = SysInfo(begin: int, end: int, offset: int, save: int, abbrev: string)

  ghost predicate Increasing(ts: seq<int>) {
    forall i, j | 0 <= i < j < |ts| :: ts[i] < ts[j]
  }

  /** The number of instants at or before `t`: the number of the interval that contains `t`. */
  function Locate(ts: seq<int>, t: int): (n: nat)
    ensures n <= |ts|
    ensures n > 0 ==> ts[n - 1] <= t
    ensures forall k | n <= k < |ts| :: t < ts[k]
  {
    if ts == [] then 0
    else if ts[|ts| - 1] <= t then |ts|
    else Locate(ts[..|ts| - 1], t)
  }

  lemma LocateIs(ts: seq<int>, t: int, n: nat)
    requires Increasing(ts) && n <= |ts|
    requires (n > 0 ==> ts[n - 1] <= t) && (n < |ts| ==> t < ts[n])
    ensures Locate(ts, t) == n
  {
  }

  function Begin(ts: seq<int>, n: nat, min: int): int
    requires n <= |ts|
  {
    if n == 0 then min else ts[n - 1]
  }

  function End(ts: seq<int>, n: nat, max: int): int
    requires n <= |ts|
  {
    if n == |ts| then max else ts[n]
  }

  ghost predicate Within(ts: seq<int>, min: int, max: int) {
    forall k | 0 <= k < |ts| :: min <= ts[k] < max
  }

  /** Every instant lies in the interval that is found for it, and in no other: the intervals tile
      the time line. */
  lemma Tiling(ts: seq<int>, min: int, max: int, t: int, n: nat)
    requires Increasing(ts) && Within(ts, min, max) && min <= t < max && n <= |ts|
    ensures Begin(ts, n, min) <= t < End(ts, n, max) <==> n == Locate(ts, t)
  {
    if Begin(ts, n, min) <= t < End(ts, n, max) {
      LocateIs(ts, t, n);
    }
  }

  // ----- Searching from the front -----

  /** Where a search from the front ends that goes on behind an instant before `t`, unless it is the last. */
  function Search(ts: seq<int>, t: int): (n: nat)
    requires ts != []
    ensures n <= |ts|
    ensures n > 0 ==> ts[n - 1] <= t
  {
    if ts[0] < t && |ts| > 1 then 1 + Search(ts[1..], t) else if ts[0] <= t then 1 else 0
  }

  lemma {:induction false} SearchIs(ts: seq<int>, t: int, k: nat)
    requires k < |ts| && (t <= ts[k] || k == |ts| - 1)
    requires forall j | 0 <= j < k :: ts[j] < t
    ensures Search(ts, t) == if t < ts[k] then k else k + 1
    decreases k
  {
    if k > 0 {
      SearchIs(ts[1..], t, k - 1);
    }
  }

  lemma {:induction false} SearchIsLocate(ts: seq<int>, t: int)
    requires ts != [] && Increasing(ts)
    ensures Search(ts, t) == Locate(ts, t)
  {
    var n := Locate(ts, t);
    if n > 0 && (ts[n - 1] == t || n == |ts|) {
      SearchIs(ts, t, n - 1);
    } else {
      SearchIs(ts, t, n);
    }
  }

  /** The first instant that is not followed by a later one. */
  lemma {:induction false} FirstDescent(ts: seq<int>) returns (k: nat)
    requires !Increasing(ts)
    ensures k + 1 < |ts| && ts[k + 1] <= ts[k] && forall j | 0 <= j < k :: ts[j] < ts[k]
  {
    var front := ts[..|ts| - 1];
    assert forall h | 0 <= h < |front| :: front[h] == ts[h];
    if Increasing(front) {
      k := |ts| - 2;
      var i, j :| 0 <= i < j < |ts| && ts[i] >= ts[j];
      assert j == |ts| - 1 && (i < k ==> front[i] < front[k]);
      assert forall h | 0 <= h < k :: front[h] < front[k];
    } else {
      k := FirstDescent(front);
      assert front[k + 1] <= front[k];
      forall h | 0 <= h < k ensures ts[h] < ts[k] {
        assert front[h] < front[k];
      }
    }
  }

  /** The interval behind which the search ends contains the instant, as far as it has an end. */
  ghost predicate Found(ts: seq<int>, t: int)
    requires ts != []
  {
    var n := Search(ts, t);
    n < |ts| ==> t < ts[n]
  }

  /** The search finds the right interval for every instant exactly if the instants strictly increase. */
  lemma FoundAlways(ts: seq<int>)
    requires ts != []
    ensures (forall t :: Found(ts, t)) <==> Increasing(ts)
  {
    hide Search;
    if Increasing(ts) {
      forall t ensures Found(ts, t) {
        SearchIsLocate(ts, t);
      }
    } else {
      var k := FirstDescent(ts);
      SearchIs(ts, ts[k], k);
      assert !Found(ts, ts[k]);
    }
  }
}
