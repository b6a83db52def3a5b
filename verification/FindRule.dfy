/** Finding the offset interval that contains an instant, by walking the rules of a zone. */
module FindRule {
  import opened Results
  import opened TzRule
  import opened RuleWalk
  import opened Timeline

  /** The day number of a day rule in a given year. */
  type Calendar = (DayRule, int) -> int

  /** The part of a zone in which one set of rules applies; `min` and `max` bound the time line. */
  datatype Zonelet = Zonelet(first: Option<Occurrence>, last: Option<Occurrence>, offset: int,
                             initialSave: int, initialAbbrev: string, min: int, max: int)

  /** The instant at which a month/day/time falls in year `y`. */
  function ToSys(at: MonthDayTime, y: int, offset: int, save: int, cal: Calendar): int {
    var tp := cal(at.on, y) * 86400 + at.time;
    match at.zone
    case Utc => tp
    case Standard => tp - offset
    case Local => tp - (offset + save)
  }

  /** A day later is 86400 seconds later and a second later one second; standard time is ahead of UTC by the
      offset, and local time of standard time by the save. */
  lemma InstantsMove(at: MonthDayTime, y: int, offset: int, save: int, cal: Calendar, days: int, seconds: int)
    ensures ToSys(at.(time := at.time + seconds), y, offset, save, (d, y) => cal(d, y) + days) ==
      ToSys(at, y, offset, save, cal) + 86400 * days + seconds
    ensures ToSys(at.(zone := Standard), y, offset, save, cal) == ToSys(at.(zone := Utc), y, offset, save, cal) - offset
    ensures ToSys(at.(zone := Local), y, offset, save, cal) == ToSys(at.(zone := Standard), y, offset, save, cal) - save
  {
  }

  /** Short of `last` there is a next occurrence, and it is not past `last`. */
  lemma NotPast(rules: seq<Rule>, first: Occurrence, last: Occurrence)
    requires Ready(rules) && In(rules, first) && Of(rules, rules[first.rule].name, last)
    requires !Before(last, first) && first != last
    ensures var next := Next(rules, first);
      && next.Some? && In(rules, next.value) && Of(rules, rules[next.value.rule].name, last)
      && !Before(last, next.value) && Before(first, next.value) && next.value.year <= MaxYear(rules)
  {
    hide Ready, Next;
    NextIsSuccessor(rules, first, last);
    assert rules[Next(rules, first).value.rule] in rules;
  }

  /** The occurrences `find_next_rule` runs through from `first` to `last`. */
  ghost function Path(rules: seq<Rule>, first: Occurrence, last: Occurrence): (path: seq<Occurrence>)
    requires Ready(rules) && In(rules, first) && Of(rules, rules[first.rule].name, last) && !Before(last, first)
    ensures path != [] && path[0] == first && path[|path| - 1] == last
    ensures forall k | 0 <= k < |path| :: In(rules, path[k])
    decreases MaxYear(rules) - first.year, |rules| - first.rule
  {
    hide Ready, Next, MaxYear, Of;
    if first == last then [first]
    else
      NotPast(rules, first, last);
      [first] + Path(rules, Next(rules, first).value, last)
  }

  lemma {:induction false} PathLinks(rules: seq<Rule>, first: Occurrence, last: Occurrence, k: nat)
    requires Ready(rules) && In(rules, first) && Of(rules, rules[first.rule].name, last) && !Before(last, first)
    requires k + 1 < |Path(rules, first, last)|
    ensures var path := Path(rules, first, last);
      && Next(rules, path[k]) == Some(path[k + 1])
      && Previous(rules, path[k + 1]) == Some(path[k])
      && path[k + 1] != first && path[k] != last && Before(path[k], path[k + 1])
    decreases k
  {
    hide Ready, Next, Previous;
    var path := Path(rules, first, last);
    NextIsSuccessor(rules, first, last);
    var n := Next(rules, first).value;
    var rest := Path(rules, n, last);
    PreviousUndoesNext(rules, first);
    if k > 0 {
      PathLinks(rules, n, last, k - 1);
      assert path[k] == rest[k - 1] && path[k + 1] == rest[k];
      PathAfter(rules, n, last, k);
    }
  }

  lemma {:induction false} PathAfter(rules: seq<Rule>, first: Occurrence, last: Occurrence, k: nat)
    requires Ready(rules) && In(rules, first) && Of(rules, rules[first.rule].name, last) && !Before(last, first)
    requires k < |Path(rules, first, last)|
    ensures k == 0 || Before(first, Path(rules, first, last)[k])
    decreases k
  {
    hide Ready, Next;
    if k > 0 {
      NextIsSuccessor(rules, first, last);
      PathAfter(rules, Next(rules, first).value, last, k - 1);
    }
  }

  ghost predicate WellFormed(rules: seq<Rule>, z: Zonelet) {
    && Ready(rules) && z.first.Some? && z.last.Some?
    && In(rules, z.first.value) && Of(rules, rules[z.first.value.rule].name, z.last.value)
    && !Before(z.last.value, z.first.value)
  }

  ghost function PathOf(rules: seq<Rule>, z: Zonelet): (path: seq<Occurrence>)
    requires WellFormed(rules, z)
    ensures path != [] && path[0] == z.first.value && path[|path| - 1] == z.last.value
  {
    Path(rules, z.first.value, z.last.value)
  }

  /** The save in effect just before the `k`-th occurrence of the path. */
  ghost function SaveBefore(rules: seq<Rule>, z: Zonelet, k: nat): int
    requires WellFormed(rules, z) && k <= |PathOf(rules, z)|
  {
    if k == 0 then z.initialSave else rules[PathOf(rules, z)[k - 1].rule].save
  }

  ghost function Transition(rules: seq<Rule>, z: Zonelet, cal: Calendar, k: nat): int
    requires WellFormed(rules, z) && k < |PathOf(rules, z)|
  {
    var o := PathOf(rules, z)[k];
    ToSys(rules[o.rule].at, o.year, z.offset, SaveBefore(rules, z, k), cal)
  }

  /** The transition instants of the zonelet, each computed with the save of the rule before it. */
  ghost function Transitions(rules: seq<Rule>, z: Zonelet, cal: Calendar): seq<int>
    requires WellFormed(rules, z)
  {
    seq(|PathOf(rules, z)|, k requires 0 <= k < |PathOf(rules, z)| => Transition(rules, z, cal, k))
  }

  /** The answer for instants in interval `n`: after `n` transitions. */
  ghost function Answer(rules: seq<Rule>, z: Zonelet, cal: Calendar, n: nat): SysInfo
    requires WellFormed(rules, z) && n <= |PathOf(rules, z)|
  {
    var ts := Transitions(rules, z, cal);
    SysInfo(Begin(ts, n, z.min), End(ts, n, z.max), 0, SaveBefore(rules, z, n),
            if n == 0 then z.initialAbbrev else rules[PathOf(rules, z)[n - 1].rule].abbrev)
  }

  /** What the walk sees at the `k`-th occurrence of the path. */
  lemma AtOccurrence(rules: seq<Rule>, z: Zonelet, cal: Calendar, k: nat)
    requires WellFormed(rules, z) && k < |PathOf(rules, z)|
    ensures var path := PathOf(rules, z);
      && In(rules, path[k])
      && |Transitions(rules, z, cal)| == |path|
      && Transitions(rules, z, cal)[k] ==
        ToSys(rules[path[k].rule].at, path[k].year, z.offset, SaveBefore(rules, z, k), cal)
      && (path[k] == z.first.value <==> k == 0)
      && (path[k] == z.last.value <==> k == |path| - 1)
      && (k > 0 ==> Previous(rules, path[k]) == Some(path[k - 1]))
      && (k < |path| - 1 ==> Next(rules, path[k]) == Some(path[k + 1]))
      && SaveBefore(rules, z, k + 1) == rules[path[k].rule].save
  {
    hide Next, Previous, Ready;
    if k > 0 {
      PathLinks(rules, z.first.value, z.last.value, k - 1);
    }
    if k < |PathOf(rules, z)| - 1 {
      PathLinks(rules, z.first.value, z.last.value, k);
    }
  }

  lemma AnswerParts(rules: seq<Rule>, z: Zonelet, cal: Calendar, n: nat)
    requires WellFormed(rules, z) && n <= |PathOf(rules, z)|
    ensures var path, ts, x := PathOf(rules, z), Transitions(rules, z, cal), Answer(rules, z, cal, n);
      && |ts| == |path|
      && x.begin == (if n == 0 then z.min else ts[n - 1])
      && x.end == (if n == |ts| then z.max else ts[n])
      && x.offset == 0 && x.save == SaveBefore(rules, z, n)
      && x.abbrev == (if n == 0 then z.initialAbbrev else rules[path[n - 1].rule].abbrev)
      && SaveBefore(rules, z, 0) == z.initialSave
  {
  }

  // ----- Queries by any clock -----

  /** What a clock of the given kind shows. */
  function Clock(mdt: MonthDayTime, y: int, cal: Calendar): int {
    cal(mdt.on, y) * 86400 + mdt.time
  }

  /** How far a clock of the given kind is ahead of UTC just before the `k`-th occurrence. */
  ghost function Ahead(rules: seq<Rule>, z: Zonelet, zone: Zone, k: nat): int
    requires WellFormed(rules, z) && k <= |PathOf(rules, z)|
  {
    match zone
    case Utc => 0
    case Standard => z.offset
    case Local => z.offset + SaveBefore(rules, z, k)
  }

  /** What the clock shows at the transitions, as it goes before each of them. */
  ghost function ClockTransitions(rules: seq<Rule>, z: Zonelet, cal: Calendar, zone: Zone): (ts: seq<int>)
    requires WellFormed(rules, z)
    ensures |ts| == |PathOf(rules, z)|
  {
    seq(|PathOf(rules, z)|, k requires 0 <= k < |PathOf(rules, z)| =>
      Transition(rules, z, cal, k) + Ahead(rules, z, zone, k))
  }

  lemma ClockTransition(rules: seq<Rule>, z: Zonelet, cal: Calendar, mdt: MonthDayTime, y: int, k: nat)
    requires WellFormed(rules, z) && k < |PathOf(rules, z)|
    ensures var ts := Transitions(rules, z, cal);
      |ts| == |PathOf(rules, z)| &&
      ToSys(mdt, y, z.offset, SaveBefore(rules, z, k), cal) - ts[k] ==
        Clock(mdt, y, cal) - ClockTransitions(rules, z, cal, mdt.zone)[k]
  {
  }

  lemma UtcTransitions(rules: seq<Rule>, z: Zonelet, cal: Calendar)
    requires WellFormed(rules, z)
    ensures ClockTransitions(rules, z, cal, Utc) == Transitions(rules, z, cal)
  {
  }

  /** The interval that starts at `o`, whose predecessor in the path decides the save it is timed with. */
  method IntervalFrom(rules: seq<Rule>, z: Zonelet, cal: Calendar, o: Occurrence, ghost k: nat) returns (x: SysInfo)
    requires WellFormed(rules, z) && k < |PathOf(rules, z)| && o == PathOf(rules, z)[k]
    ensures x == Answer(rules, z, cal, k + 1)
    ensures x.save == rules[o.rule].save && x.abbrev == rules[o.rule].abbrev
  {
    hide Ready, Next, Previous, Transitions, Answer, ToSys, PathOf, SaveBefore;
    AtOccurrence(rules, z, cal, k);
    AnswerParts(rules, z, cal, k + 1);
    AnswerParts(rules, z, cal, 0);
    var prevSave := z.initialSave;
    if Some(o) != z.first {
      AtOccurrence(rules, z, cal, k - 1);
      var p := FindPreviousRule(rules, o);
      prevSave := rules[p.value.rule].save;
    }
    var (save, begin) := (rules[o.rule].save, ToSys(rules[o.rule].at, o.year, z.offset, prevSave, cal));
    var end := z.max;
    if Some(o) != z.last {
      AtOccurrence(rules, z, cal, k + 1);
      var n := FindNextRule(rules, o);
      end := ToSys(rules[n.value.rule].at, n.value.year, z.offset, save, cal);
    }
    return SysInfo(begin, end, 0, save, rules[o.rule].abbrev);
  }

  /** `find_rule`: the interval in which the search among the transitions, as the queried clock shows them,
      ends. */
  method FindRule(rules: seq<Rule>, z: Zonelet, y: int, mdt: MonthDayTime, cal: Calendar) returns (x: SysInfo)
    requires z.first.Some? ==> WellFormed(rules, z)
    ensures z.first.None? ==> x == SysInfo(z.min, z.max, 0, z.initialSave, z.initialAbbrev)
    ensures z.first.Some? ==>
      x == Answer(rules, z, cal, Search(ClockTransitions(rules, z, cal, mdt.zone), Clock(mdt, y, cal)))
  {
    hide Ready, Next, Previous, Transitions, ClockTransitions, Answer, ToSys, PathOf, SaveBefore, Clock, Search;
    x := SysInfo(z.min, z.max, 0, z.initialSave, z.initialAbbrev);
    if z.first.None? {
      return;
    }
    var r := z.first.value;
    ghost var k: nat, t := 0, Clock(mdt, y, cal);
    ghost var path, ts := PathOf(rules, z), ClockTransitions(rules, z, cal, mdt.zone);
    AnswerParts(rules, z, cal, 0);
    while true
      invariant k < |path| && r == path[k]
      invariant x == SysInfo(z.min, z.max, 0, SaveBefore(rules, z, k), z.initialAbbrev)
      invariant forall j | 0 <= j < k :: ts[j] < t
      decreases |path| - k
    {
      AtOccurrence(rules, z, cal, k);
      ClockTransition(rules, z, cal, mdt, y, k);
      var tr := ToSys(rules[r.rule].at, r.year, z.offset, x.save, cal);
      var tx := ToSys(mdt, y, z.offset, x.save, cal);
      // the transition after the instant, or the last one, ends the search
      if tx <= tr || Some(r) == z.last {
        SearchIs(ts, t, k);
        if tx < tr && Some(r) == z.first {
          return x.(end := ToSys(rules[r.rule].at, r.year, z.offset, x.save, cal));
        }
        if tx < tr {
          var p := FindPreviousRule(rules, r);
          r := p.value;
          k := k - 1;
        }
        x := IntervalFrom(rules, z, cal, r, k);
        return;
      }
      x := x.(save := rules[r.rule].save);
      var n := FindNextRule(rules, r);
      r := n.value;
      k := k + 1;
    }
  }

  /** The answer fits the query: it has begun by the clock with the save before it, and by the clock with
      its own save it has not ended. */
  ghost predicate Fits(rules: seq<Rule>, z: Zonelet, cal: Calendar, zone: Zone, q: int)
    requires WellFormed(rules, z)
  {
    var n := Search(ClockTransitions(rules, z, cal, zone), q);
    var x := Answer(rules, z, cal, n);
    && (n > 0 ==> x.begin <= q - Ahead(rules, z, zone, n - 1))
    && (n < |PathOf(rules, z)| ==> q - Ahead(rules, z, zone, n) < x.end)
  }

  lemma FitsIfFound(rules: seq<Rule>, z: Zonelet, cal: Calendar, zone: Zone, q: int)
    requires WellFormed(rules, z)
    ensures Fits(rules, z, cal, zone, q) <==> Found(ClockTransitions(rules, z, cal, zone), q)
  {
    hide Ready, PathOf, SaveBefore, Ahead, ToSys, Transitions, ClockTransitions, Answer, Search;
    var n := Search(ClockTransitions(rules, z, cal, zone), q);
    AnswerParts(rules, z, cal, n);
    if n > 0 {
      ClockAt(rules, z, cal, zone, n - 1);
    }
    if n < |PathOf(rules, z)| {
      ClockAt(rules, z, cal, zone, n);
    }
  }

  /** By any clock, every query gets an answer that fits exactly if what the clock shows at the transitions
      strictly increases. */
  lemma AnswersFit(rules: seq<Rule>, z: Zonelet, cal: Calendar, zone: Zone)
    requires WellFormed(rules, z)
    ensures (forall q :: Fits(rules, z, cal, zone, q)) <==> Increasing(ClockTransitions(rules, z, cal, zone))
  {
    hide PathOf, WellFormed, ClockTransitions, Found, Fits, Increasing;
    var ts := ClockTransitions(rules, z, cal, zone);
    FoundAlways(ts);
    forall q ensures Fits(rules, z, cal, zone, q) <==> Found(ts, q) {
      FitsIfFound(rules, z, cal, zone, q);
    }
  }

  lemma ClockAt(rules: seq<Rule>, z: Zonelet, cal: Calendar, zone: Zone, k: nat)
    requires WellFormed(rules, z) && k < |PathOf(rules, z)|
    ensures |Transitions(rules, z, cal)| == |PathOf(rules, z)|
    ensures ClockTransitions(rules, z, cal, zone)[k] == Transitions(rules, z, cal)[k] + Ahead(rules, z, zone, k)
  {
  }

  /** In UTC the answers tile the time line: the interval answered for `t` contains `t`, and exactly the
      instants inside it get the same answer. */
  lemma AnswersTile(rules: seq<Rule>, z: Zonelet, cal: Calendar, t: int)
    requires WellFormed(rules, z) && z.min <= t < z.max
    requires Increasing(Transitions(rules, z, cal)) && Within(Transitions(rules, z, cal), z.min, z.max)
    ensures var ts := Transitions(rules, z, cal);
      ts == ClockTransitions(rules, z, cal, Utc) &&
      var x := Answer(rules, z, cal, Search(ts, t));
      && x.begin <= t < x.end
      && forall u | z.min <= u < z.max :: x.begin <= u < x.end <==> Search(ts, u) == Search(ts, t)
  {
    hide WellFormed, Transitions, ClockTransitions, Increasing, Within, PathOf, Search, Answer;
    UtcTransitions(rules, z, cal);
    var ts := Transitions(rules, z, cal);
    SearchIsLocate(ts, t);
    AnswerParts(rules, z, cal, Locate(ts, t));
    forall u | z.min <= u < z.max
      ensures Begin(ts, Locate(ts, t), z.min) <= u < End(ts, Locate(ts, t), z.max) <==> Search(ts, u) == Search(ts, t)
    {
      SearchIsLocate(ts, u);
      Tiling(ts, z.min, z.max, u, Locate(ts, t));
    }
  }
}
