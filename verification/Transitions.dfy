/** A zone as a sorted sequence of transitions: removing duplicates, and looking up an instant or a
    local time. */
module TzTransitions {
  import opened Timeline

  const DAY := 86400
  const MINUTE := 60

  datatype Info = Info(offset: int, abbrev: string, isDst: bool)

  datatype Transition = Transition(timepoint: int, info: Info)

  /** The information an interval carries. */
  function Information(x: SysInfo): Info {
    Info(x.offset, x.abbrev, x.save != 0)
  }

  datatype LocalResult = Unique | Nonexistent | Ambiguous

  const NOTHING := SysInfo(0, 0, 0, 0, "")

  datatype LocalInfo = LocalInfo(result: LocalResult, first: SysInfo, second: SysInfo)

  function Times(s: seq<Transition>): (ts: seq<int>)
    ensures |ts| == |s|
  {
    seq(|s|, i requires 0 <= i < |s| => s[i].timepoint)
  }

  ghost predicate Sorted(s: seq<Transition>) {
    forall i, j | 0 <= i < j < |s| :: s[i].timepoint <= s[j].timepoint
  }

  ghost predicate StrictlySorted(s: seq<Transition>) {
    forall i, j | 0 <= i < j < |s| :: s[i].timepoint < s[j].timepoint
  }

  /** The information in force at instant `t`: that of the last transition at or before `t`, and
      that of the first one earlier than that. */
  function InfoAt(s: seq<Transition>, t: int): Info
    requires s != []
  {
    var last := s[|s| - 1];
    if |s| == 1 || last.timepoint <= t then last.info else InfoAt(s[..|s| - 1], t)
  }

  // ----- Removing duplicates -----

  /** Drops each transition that carries the same information as the one before it. */
  function Distinct(s: seq<Transition>): (d: seq<Transition>) {
    if |s| <= 1 then s
    else
      var front := s[..|s| - 1];
      if s[|s| - 1].info == s[|s| - 2].info then Distinct(front) else Distinct(front) + [s[|s| - 1]]
  }

  lemma {:induction false} DistinctShape(s: seq<Transition>)
    requires s != []
    ensures Distinct(s) != [] && Distinct(s)[0] == s[0]
    ensures Distinct(s)[|Distinct(s)| - 1].info == s[|s| - 1].info
    ensures NoRepeats(Distinct(s))
  {
    if |s| > 1 {
      DistinctShape(s[..|s| - 1]);
    }
  }

  lemma {:induction false} DistinctSorted(s: seq<Transition>)
    requires s != [] && StrictlySorted(s)
    ensures StrictlySorted(Distinct(s))
    ensures forall x | x in Distinct(s) :: x.timepoint <= s[|s| - 1].timepoint
  {
    if |s| > 1 {
      var front, last := s[..|s| - 1], s[|s| - 1];
      DistinctSorted(front);
      assert front[|front| - 1] == s[|s| - 2] && s[|s| - 2].timepoint < last.timepoint;
      AppendSorted(Distinct(front), last);
    }
  }

  lemma AppendSorted(d: seq<Transition>, x: Transition)
    requires StrictlySorted(d) && forall y | y in d :: y.timepoint < x.timepoint
    ensures StrictlySorted(d + [x])
  {
    assert forall k | 0 <= k < |d| :: d[k] in d;
  }

  /** Removing duplicates does not change the information in force at any instant. */
  lemma {:induction false} DistinctKeepsInfo(s: seq<Transition>, t: int)
    requires s != [] && Sorted(s)
    ensures Distinct(s) != [] && InfoAt(Distinct(s), t) == InfoAt(s, t)
  {
    DistinctShape(s);
    if |s| > 1 {
      var front, last := s[..|s| - 1], s[|s| - 1];
      DistinctShape(front);
      DistinctKeepsInfo(front, t);
      var d := Distinct(front);
      assert (d + [last])[..|d|] == d;
    }
  }

  // ----- Looking up an instant -----

  ghost predicate NonDecreasing(keys: seq<int>) {
    forall i, j | 0 <= i < j < |keys| :: keys[i] <= keys[j]
  }

  /** `std::upper_bound`: the first position whose key is greater than `x`. */
  method UpperBound(keys: seq<int>, x: int) returns (n: nat)
    requires NonDecreasing(keys)
    ensures n <= |keys|
    ensures forall k | 0 <= k < |keys| :: k < n <==> keys[k] <= x
  {
    var hi := |keys|;
    n := 0;
    while n < hi
      invariant n <= hi <= |keys|
      invariant forall k | 0 <= k < n :: keys[k] <= x
      invariant forall k | hi <= k < |keys| :: keys[k] > x
    {
      var mid := (n + hi) / 2;
      if x < keys[mid] {
        hi := mid;
      } else {
        n := mid + 1;
      }
    }
  }

  /** The interval that ends at transition `i`; before the first transition, its information is
      extended back to the beginning of time and up to the second transition. */
  function LoadSysInfo(s: seq<Transition>, i: nat, min: int, max: int): SysInfo
    requires s != [] && i <= |s|
  {
    if i != 0 then
      var info := s[i - 1].info;
      SysInfo(s[i - 1].timepoint, if i != |s| then s[i].timepoint else max,
              info.offset, if info.isDst then MINUTE else 0, info.abbrev)
    else
      var info := s[0].info;
      SysInfo(min, if 1 != |s| then s[1].timepoint else max,
              info.offset, if info.isDst then MINUTE else 0, info.abbrev)
  }

  lemma {:induction false} InfoAtPosition(s: seq<Transition>, t: int, n: nat)
    requires s != [] && CutAt(s, t, n)
    ensures InfoAt(s, t) == if n == 0 then s[0].info else s[n - 1].info
  {
    if |s| > 1 && n < |s| {
      InfoAtPosition(s[..|s| - 1], t, n);
    }
  }

  /** The interval found for an instant is the longest one around it with constant information. */
  ghost predicate MaximalInterval(s: seq<Transition>, x: SysInfo, t: int, max: int)
    requires s != []
  {
    && x.begin <= t < x.end && (x.save == 0 || x.save == 60)
    && (forall u | x.begin <= u < x.end :: InfoAt(s, u) == Information(x))
    && (x.begin <= s[0].timepoint || InfoAt(s, x.begin - 1) != Information(x))
    && (x.end == max || InfoAt(s, x.end) != Information(x))
  }

  lemma LookupIsMaximal(s: seq<Transition>, t: int, n: nat, min: int, max: int)
    requires s != [] && StrictlySorted(s) && CutAt(s, t, n) && NoRepeats(s) && Covers(s, t, min, max)
    ensures MaximalInterval(s, LoadSysInfo(s, n, min, max), t, max)
  {
    var x := LoadSysInfo(s, n, min, max);
    var m := if n == 0 then 1 else n;
    assert Information(x) == s[m - 1].info && x.end == if m == |s| then max else s[m].timepoint;
    forall u | x.begin <= u < x.end ensures InfoAt(s, u) == s[m - 1].info {
      InfoAtPosition(s, u, if u < s[0].timepoint then 0 else m);
    }
    if n > 1 {
      InfoAtPosition(s, x.begin - 1, n - 1);
      assert s[n - 2].info != s[n - 2 + 1].info;
    }
    if m < |s| {
      InfoAtPosition(s, x.end, m + 1);
      assert s[m - 1].info != s[m - 1 + 1].info;
    }
  }

  /** Time begins at `min` and ends at `max`, around all transitions and `t`. */
  predicate Covers(s: seq<Transition>, t: int, min: int, max: int)
    requires s != []
  {
    min <= t < max && min <= s[0].timepoint && s[|s| - 1].timepoint < max
  }

  ghost predicate NoRepeats(s: seq<Transition>) {
    forall k | 0 <= k < |s| - 1 :: s[k].info != s[k + 1].info
  }

  /** On the transitions as loaded, removing the duplicates first makes every lookup return the maximal
      interval of constant information of the original ones. */
  lemma LookupAfterRemoval(s: seq<Transition>, t: int, n: nat, min: int, max: int)
    requires s != [] && StrictlySorted(s) && Covers(s, t, min, max) && CutAt(Distinct(s), t, n)
    ensures Distinct(s) != [] && MaximalInterval(s, LoadSysInfo(Distinct(s), n, min, max), t, max)
  {
    var d := Distinct(s);
    DistinctShape(s);
    DistinctSorted(s);
    assert d[|d| - 1] in d;
    LookupIsMaximal(d, t, n, min, max);
    forall u ensures InfoAt(d, u) == InfoAt(s, u) {
      DistinctKeepsInfo(s, u);
    }
  }

  // ----- Looking up a local time -----

  /** The local time at which segment `k` starts. */
  function LocalStart(s: seq<Transition>, k: nat): int
    requires k < |s|
  {
    s[k].timepoint + s[k].info.offset
  }

  function LocalStarts(s: seq<Transition>): (ts: seq<int>)
    ensures |ts| == |s| && forall k | 0 <= k < |s| :: ts[k] == LocalStart(s, k)
  {
    seq(|s|, i requires 0 <= i < |s| => LocalStart(s, i))
  }

  function EndOf(s: seq<Transition>, k: nat, max: int): int
    requires k < |s|
  {
    if k + 1 < |s| then s[k + 1].timepoint else max
  }

  /** The local time at which segment `k` ends. */
  function LocalEnd(s: seq<Transition>, k: nat, max: int): int
    requires k < |s|
  {
    EndOf(s, k, max) + s[k].info.offset
  }

  /** Segment `k`, read with its own offset, contains the local time `x`. */
  predicate Contains(s: seq<Transition>, k: nat, x: int, max: int) {
    k < |s| && LocalStart(s, k) <= x < LocalEnd(s, k, max)
  }

  /** The transitions are in order, also by the local clock, as `upper_bound` demands. */
  ghost predicate InOrder(s: seq<Transition>, max: int) {
    s != [] && StrictlySorted(s) && s[|s| - 1].timepoint < max && NonDecreasing(LocalStarts(s))
  }

  /** What a local lookup has to answer; `k` is the segment the answer is about. */
  ghost predicate Classified(s: seq<Transition>, x: int, min: int, max: int, r: LocalInfo, k: nat)
    requires k < |s|
  {
    match r.result
    case Unique =>
      && Contains(s, k, x, max)
      && (forall j: nat | Contains(s, j, x, max) :: j == k)
      && r.first == LoadSysInfo(s, k + 1, min, max) && r.second == NOTHING
    case Ambiguous =>
      && Contains(s, k, x, max)
      && k > 0 && Contains(s, k - 1, x, max)
      && (forall j: nat | Contains(s, j, x, max) :: j <= k)
      && r.first == LoadSysInfo(s, k, min, max) && r.second == LoadSysInfo(s, k + 1, min, max)
    case Nonexistent =>
      && (forall j: nat :: !Contains(s, j, x, max))
      && k + 1 < |s| && InGap(s, k, x)
      && r.first == LoadSysInfo(s, k + 1, min, max) && r.second == LoadSysInfo(s, k + 2, min, max)
  }

  /** The local time `x` is after the end of segment `k` and before the start of the next one. */
  predicate InGap(s: seq<Transition>, k: nat, x: int) {
    k + 1 < |s| && s[k + 1].timepoint + s[k].info.offset <= x < s[k + 1].timepoint + s[k + 1].info.offset
  }

  /** The transitions at or before `t` are the first `n`. */
  ghost predicate CutAt(s: seq<Transition>, t: int, n: nat) {
    n <= |s| && forall k | 0 <= k < |s| :: k < n <==> s[k].timepoint <= t
  }

  /** When a local time is classified rightly: it is not in a gap within a day of the start of the segment
      before the gap; and if an earlier segment than the last one begun contains it, the segment before the
      last one does, and the last one has begun less than a day ago. */
  predicate Clear(s: seq<Transition>, x: int, k: nat, max: int)
    requires k < |s|
  {
    var day := LocalStart(s, k) + DAY;
    && (x < LocalEnd(s, k, max) || x >= day)
    && forall j | 0 <= j < k :: x < LocalEnd(s, j, max) ==> x < LocalEnd(s, k - 1, max) && x < day
  }

  /** Segment `k` is the last that has begun at the local time `x`. */
  ghost predicate LastBegun(s: seq<Transition>, x: int, k: nat)
    requires k < |s|
  {
    LocalStart(s, k) <= x && forall j | k < j < |s| :: LocalStart(s, j) > x
  }

  /** Of the segments begun, exactly those contain the time that have not ended. */
  lemma Containing(s: seq<Transition>, x: int, k: nat, max: int)
    requires InOrder(s, max) && k < |s| && LastBegun(s, x, k)
    ensures forall j: nat :: Contains(s, j, x, max) <==> j <= k && x < LocalEnd(s, j, max)
    ensures k < |s| - 1 ==> (x >= LocalEnd(s, k, max) <==> InGap(s, k, x))
    ensures x < LocalEnd(s, |s| - 1, max) && x >= LocalEnd(s, k, max) ==> k < |s| - 1
  {
    assert k + 1 < |s| ==> LocalStart(s, k + 1) > x;
  }

  /** The answers of the lookup: two segments, a gap, or one segment. */
  function LocalAnswer(s: seq<Transition>, k: nat, min: int, max: int, result: LocalResult): LocalInfo
    requires k < |s| && (result == Nonexistent ==> k + 1 < |s|)
  {
    match result
    case Unique => LocalInfo(Unique, LoadSysInfo(s, k + 1, min, max), NOTHING)
    case Ambiguous => LocalInfo(Ambiguous, LoadSysInfo(s, k, min, max), LoadSysInfo(s, k + 1, min, max))
    case Nonexistent => LocalInfo(Nonexistent, LoadSysInfo(s, k + 1, min, max), LoadSysInfo(s, k + 2, min, max))
  }

  /** Which of them it is. */
  lemma AnswerIsClassified(s: seq<Transition>, x: int, k: nat, min: int, max: int, result: LocalResult)
    requires InOrder(s, max) && k < |s| && LastBegun(s, x, k) && x < LocalEnd(s, |s| - 1, max)
    requires var early := x < LocalStart(s, k) + DAY;
      && (result == Ambiguous <==> early && k > 0 && x < LocalEnd(s, k - 1, max))
      && (result == Nonexistent <==> !early && x >= LocalEnd(s, k, max) && k + 1 < |s|)
    ensures Classified(s, x, min, max, LocalAnswer(s, k, min, max, result), k) <==> Clear(s, x, k, max)
  {
    hide LocalStart, LocalEnd, Contains, InGap, LastBegun, InOrder, LoadSysInfo;
    Containing(s, x, k, max);
    assert Contains(s, k, x, max) <==> x < LocalEnd(s, k, max);
    assert k > 0 ==> (Contains(s, k - 1, x, max) <==> x < LocalEnd(s, k - 1, max));
    if Clear(s, x, k, max) {
    } else if x >= LocalEnd(s, k, max) && x < LocalStart(s, k) + DAY {
    } else {
      var j :| 0 <= j < k && x < LocalEnd(s, j, max) && !(x < LocalEnd(s, k - 1, max) && x < LocalStart(s, k) + DAY);
      assert Contains(s, j, x, max);
    }
  }

  // ----- The tables for which every local time is classified rightly -----

  function Min(a: int, b: int): int {
    if a < b then a else b
  }

  function Max(a: int, b: int): int {
    if a < b then b else a
  }

  /** The local time up to which segment `k` is the last one begun. */
  function BegunUntil(s: seq<Transition>, k: nat, max: int): int
    requires k < |s|
  {
    if k + 1 < |s| then LocalStart(s, k + 1) else LocalEnd(s, k, max)
  }

  /** A segment with a gap behind it lasts at least a day; and while a segment is the last one begun, no
      earlier one contains a time that is not also in the previous one and in the first day. */
  predicate Unhurried(s: seq<Transition>, max: int) {
    && (forall k | 0 <= k < |s| - 1 :: s[k].info.offset < s[k + 1].info.offset ==> EndOf(s, k, max) - s[k].timepoint >= DAY)
    && forall j, k | 0 <= j < k < |s| :: Settled(s, j, k, max)
  }

  predicate Settled(s: seq<Transition>, j: nat, k: nat, max: int)
    requires j < k < |s|
  {
    Min(LocalEnd(s, j, max), BegunUntil(s, k, max)) <=
      Max(LocalStart(s, k), Min(LocalEnd(s, k - 1, max), LocalStart(s, k) + DAY))
  }

  lemma BegunIs(s: seq<Transition>, x: int, k: nat, max: int)
    requires InOrder(s, max) && k < |s| && LocalStart(s, k) <= x < BegunUntil(s, k, max)
    ensures LastBegun(s, x, k) && x < LocalEnd(s, |s| - 1, max)
  {
    hide StrictlySorted;
    var ts := LocalStarts(s);
    forall j | k < j < |s| ensures LocalStart(s, j) > x {
      assert k + 1 < j ==> ts[k + 1] <= ts[j];
    }
    assert k + 1 < |s| ==> LocalStart(s, |s| - 1) > x;
  }

  /** Every local time of the table is classified rightly exactly if the table is unhurried. */
  lemma ClearEverywhere(s: seq<Transition>, max: int)
    requires InOrder(s, max)
    ensures (forall x, k: nat | k < |s| && LastBegun(s, x, k) && x < LocalEnd(s, |s| - 1, max) :: Clear(s, x, k, max)) <==>
      Unhurried(s, max)
  {
    hide InOrder, LastBegun, Clear, Unhurried;
    assert s != [] by {
      NotEmpty(s, max);
    }
    if Unhurried(s, max) {
      forall x, k: nat | k < |s| && LastBegun(s, x, k) && x < LocalEnd(s, |s| - 1, max) ensures Clear(s, x, k, max) {
        UnhurriedIsClear(s, x, k, max);
      }
    } else {
      var x, k := HurriedIsUnclear(s, max);
      assert !Clear(s, x, k, max);
    }
  }

  lemma NotEmpty(s: seq<Transition>, max: int)
    requires InOrder(s, max)
    ensures s != []
  {
  }

  lemma UnhurriedIsClear(s: seq<Transition>, x: int, k: nat, max: int)
    requires Unhurried(s, max) && k < |s| && LastBegun(s, x, k) && x < LocalEnd(s, |s| - 1, max)
    ensures Clear(s, x, k, max)
  {
    assert k + 1 < |s| ==> LocalStart(s, k + 1) > x;
    forall j | 0 <= j < k && x < LocalEnd(s, j, max) ensures x < LocalEnd(s, k - 1, max) && x < LocalStart(s, k) + DAY {
      assert Settled(s, j, k, max);
    }
  }

  lemma HurriedIsUnclear(s: seq<Transition>, max: int) returns (x: int, k: nat)
    requires InOrder(s, max) && !Unhurried(s, max)
    ensures k < |s| && LastBegun(s, x, k) && x < LocalEnd(s, |s| - 1, max) && !Clear(s, x, k, max)
  {
    hide LastBegun;
    NotEmpty(s, max);
    if h :| 0 <= h < |s| - 1 && s[h].info.offset < s[h + 1].info.offset && EndOf(s, h, max) - s[h].timepoint < DAY {
      x, k := LocalEnd(s, h, max), h;
      assert s[h].timepoint < s[h + 1].timepoint;
    } else {
      var j, h :| 0 <= j < h < |s| && !Settled(s, j, h, max);
      x, k := Max(LocalStart(s, h), Min(LocalEnd(s, h - 1, max), LocalStart(s, h) + DAY)), h;
    }
    BegunIs(s, x, k, max);
  }

  /** Segments last at least a day and the offset never drops by more than a day. */
  ghost predicate Regular(s: seq<Transition>, max: int) {
    && (forall k | 0 <= k < |s| :: EndOf(s, k, max) - s[k].timepoint >= 86400)
    && (forall k | 0 <= k < |s| - 1 :: s[k].info.offset - s[k + 1].info.offset <= 86400)
  }

  lemma {:induction false} LocalStartsInOrder(s: seq<Transition>, max: int, i: nat, j: nat)
    requires Regular(s, max) && i <= j < |s|
    ensures LocalStart(s, i) <= LocalStart(s, j) && s[i].timepoint <= s[j].timepoint
    ensures i < j ==> s[i].timepoint < s[j].timepoint && LocalEnd(s, i, max) <= LocalStart(s, j) + DAY
    decreases j
  {
    if i < j {
      LocalStartsInOrder(s, max, i, j - 1);
      assert EndOf(s, j - 1, max) == s[j - 1 + 1].timepoint;
      assert s[j - 1].info.offset - s[j - 1 + 1].info.offset <= DAY;
    }
  }

  lemma {:induction false} LocalEndsInOrder(s: seq<Transition>, max: int, i: nat, j: nat)
    requires Regular(s, max) && i <= j < |s|
    ensures LocalEnd(s, i, max) <= LocalEnd(s, j, max)
    decreases j
  {
    if i < j {
      LocalEndsInOrder(s, max, i, j - 1);
      assert s[j - 1].info.offset - s[j - 1 + 1].info.offset <= DAY;
      assert EndOf(s, j, max) - s[j].timepoint >= DAY;
    }
  }

  /** A regular table, as those of real zones are, is in order and unhurried. */
  lemma RegularIsUnhurried(s: seq<Transition>, max: int)
    requires s != [] && Regular(s, max)
    ensures InOrder(s, max) && Unhurried(s, max)
  {
    hide Regular, InOrder, LocalStart, LocalEnd, EndOf, BegunUntil;
    RegularInOrder(s, max);
    forall k | 0 <= k < |s| - 1 ensures EndOf(s, k, max) - s[k].timepoint >= DAY {
      SegmentLength(s, max, k);
    }
    forall j, k | 0 <= j < k < |s| ensures Settled(s, j, k, max) {
      LocalStartsInOrder(s, max, j, k);
      LocalEndsInOrder(s, max, j, k - 1);
    }
  }

  lemma SegmentLength(s: seq<Transition>, max: int, k: nat)
    requires Regular(s, max) && k < |s|
    ensures EndOf(s, k, max) - s[k].timepoint >= DAY
  {
  }

  lemma RegularInOrder(s: seq<Transition>, max: int)
    requires s != [] && Regular(s, max)
    ensures InOrder(s, max)
  {
    hide Regular, LocalStart;
    SegmentLength(s, max, |s| - 1);
    var ts := LocalStarts(s);
    forall i, j | 0 <= i < j < |s| ensures s[i].timepoint < s[j].timepoint && ts[i] <= ts[j] {
      LocalStartsInOrder(s, max, i, j);
    }
  }

  /** What the code compares, in terms of local times. */
  lemma LookupFacts(s: seq<Transition>, x: int, n: nat, min: int, max: int)
    requires InOrder(s, max) && n <= |s|
    requires forall k | 0 <= k < |s| :: k < n <==> LocalStart(s, k) <= x
    ensures n == 0 ==> x < LocalStart(s, 0) && x - s[0].info.offset < EndOf(s, 0, max)
    ensures n > 0 ==>
      && LastBegun(s, x, n - 1)
      && LocalStart(s, n - 1) == s[n - 1].timepoint + s[n - 1].info.offset
      && LoadSysInfo(s, n, min, max).end == EndOf(s, n - 1, max)
      && LoadSysInfo(s, n - 1, min, max).offset == s[if n == 1 then 0 else n - 2].info.offset
      && LoadSysInfo(s, n - 1, min, max).end == EndOf(s, if n == 1 then 0 else n - 2, max)
    ensures n > 1 ==> EndOf(s, n - 2, max) == s[n - 1].timepoint < EndOf(s, n - 1, max)
    ensures 0 < n < |s| ==> x < s[n].timepoint + s[n].info.offset
  {
    assert n < |s| ==> LocalStart(s, n) > x;
  }

  lemma EraseOrKeep<T>(s: seq<T>, i: nat, kept: seq<T>)
    requires i < |s|
    ensures var v := s[..i + 1] + kept;
      v[..i] + v[i + 1..] == s[..i] + kept && v == s[..i] + ([s[i]] + kept)
    ensures forall d: seq<T> :: d + [s[i]] + kept == d + ([s[i]] + kept)
  {
  }

  lemma DistinctOne(s: seq<Transition>)
    requires |s| <= 1
    ensures Distinct(s) == s
  {
  }

  lemma DistinctStep(s: seq<Transition>, i: nat)
    requires 0 < i < |s|
    ensures Distinct(s[..i + 1]) == Distinct(s[..i]) + if s[i].info == s[i - 1].info then [] else [s[i]]
  {
    assert s[..i + 1][..i] == s[..i];
  }

  class TimeZone {
    var transitions: seq<Transition>

    constructor (transitions: seq<Transition>)
      ensures this.transitions == transitions
    {
      this.transitions := transitions;
    }

    /** Removes, from the back, transitions that repeat the one before them. */
    method RemoveDuplicates()
      modifies this
      ensures transitions == Distinct(old(transitions))
      ensures NoRepeats(transitions)
    {
      if transitions == [] {
        return;
      }
      hide Distinct, NoRepeats;
      ghost var s := transitions;
      ghost var kept: seq<Transition> := [];
      var i := |transitions| - 1;
      assert s[..i + 1] == s && s + kept == s;
      while i != 0
        invariant 0 <= i < |s| && transitions == s[..i + 1] + kept
        invariant Distinct(s) == Distinct(s[..i + 1]) + kept
      {
        DistinctStep(s, i);
        EraseOrKeep(s, i, kept);
        if transitions[i].info == transitions[i - 1].info {
          transitions := transitions[..i] + transitions[i + 1..];
        } else {
          kept := [s[i]] + kept;
        }
        i := i - 1;
      }
      DistinctShape(s);
      assert Distinct(s[..1]) == s[..1] by {
        DistinctOne(s[..1]);
      }
    }

    /** `get_info` for an instant. */
    method GetInfo(t: int, min: int, max: int) returns (x: SysInfo, ghost n: nat)
      requires transitions != [] && StrictlySorted(transitions)
      ensures CutAt(transitions, t, n) && x == LoadSysInfo(transitions, n, min, max)
      ensures NoRepeats(transitions) && Covers(transitions, t, min, max) ==> MaximalInterval(transitions, x, t, max)
    {
      hide MaximalInterval, NoRepeats, Covers;
      var keys := Times(transitions);
      var i := UpperBound(keys, t);
      n := i;
      x := LoadSysInfo(transitions, i, min, max);
      assert forall k | 0 <= k < |transitions| :: keys[k] == transitions[k].timepoint;
      if NoRepeats(transitions) && Covers(transitions, t, min, max) {
        LookupIsMaximal(transitions, t, n, min, max);
      }
    }

    /** `get_info` for a local time. */
    method GetLocalInfo(x: int, min: int, max: int) returns (r: LocalInfo, ghost k: nat)
      requires InOrder(transitions, max)
      ensures k < |transitions|
      ensures x < LocalStart(transitions, 0) ==>
        r == LocalInfo(Unique, LoadSysInfo(transitions, 0, min, max), NOTHING)
      ensures x >= LocalStart(transitions, 0) ==> LastBegun(transitions, x, k)
      ensures LocalStart(transitions, 0) <= x < LocalEnd(transitions, |transitions| - 1, max) ==>
        (Classified(transitions, x, min, max, r, k) <==> Clear(transitions, x, k, max))
    {
      hide Classified, Clear, LastBegun, LocalStarts;
      var tr := UpperBound(LocalStarts(transitions), x);
      ghost var n := tr;
      k := if tr == 0 then 0 else tr - 1;
      LookupFacts(transitions, x, n, min, max);
      var first := LoadSysInfo(transitions, tr, min, max);
      r := LocalInfo(Unique, first, NOTHING);
      var tps := x - first.offset;
      if tps < first.begin + DAY && tr != 0 {
        tr := tr - 1;
        var second := LoadSysInfo(transitions, tr, min, max);
        tps := x - second.offset;
        if tps < second.end && first.end != second.end {
          r := LocalInfo(Ambiguous, second, first);
        }
      } else if tps >= first.end && tr != |transitions| {
        tr := tr + 1;
        var second := LoadSysInfo(transitions, tr, min, max);
        tps := x - second.offset;
        if tps < second.begin {
          r := LocalInfo(Nonexistent, first, second);
        }
      }
      if n > 0 && x < LocalEnd(transitions, |transitions| - 1, max) {
        AnswerIsClassified(transitions, x, k, min, max, r.result);
      }
    }
  }
}
