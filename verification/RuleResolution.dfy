/** Resolving the days of the one-year rules does not move a single transition. */
module RuleResolution {
  import opened FindRule
  import opened Results
  import opened RuleTable
  import opened RuleWalk
  import opened TzRule

  /** The day by month and day is the same day of the year as the rule's own. It is not if the rule's day
      falls into a neighbouring year, because the month and the day do not tell. */
  predicate DayKept(r: Rule, canon: (DayRule, int) -> DayRule, cal: Calendar) {
    r.startYear == r.endYear ==> cal(canon(r.at.on, r.startYear), r.startYear) == cal(r.at.on, r.startYear)
  }

  /** The two rules cover the same years and take effect at the same instants, whatever the offset and the
      save before; and they switch to the same saving. */
  ghost predicate SameEffect(x: Rule, y: Rule, cal: Calendar) {
    && SameRange(x, y) && x.name == y.name && x.save == y.save && x.abbrev == y.abbrev
    && forall year, offset, save | x.startYear <= year <= x.endYear ::
      ToSys(x.at, year, offset, save, cal) == ToSys(y.at, year, offset, save, cal)
  }

  /** A resolved rule has the same effect exactly if its day is kept. */
  lemma ResolvedRule(r: Rule, canon: (DayRule, int) -> DayRule, cal: Calendar)
    ensures SameEffect(r, Canonical(r, canon), cal) <==> DayKept(r, canon, cal)
  {
    var c := Canonical(r, canon);
    if r.startYear == r.endYear {
      assert ToSys(r.at, r.startYear, 0, 0, cal) - ToSys(c.at, r.startYear, 0, 0, cal) ==
        (cal(r.at.on, r.startYear) - cal(c.at.on, r.startYear)) * 86400;
    }
  }

  ghost predicate SameEffects(s: seq<Rule>, t: seq<Rule>, cal: Calendar) {
    |s| == |t| && forall i | 0 <= i < |s| :: SameEffect(s[i], t[i], cal)
  }

  lemma ResolvedRules(s: seq<Rule>, canon: (DayRule, int) -> DayRule, cal: Calendar)
    requires forall r | r in s :: DayKept(r, canon, cal)
    ensures SameEffects(s, Resolved(s, canon), cal)
  {
    hide Canonical, DayKept, SameEffect;
    forall i | 0 <= i < |s| ensures SameEffect(s[i], Resolved(s, canon)[i], cal) {
      assert s[i] in s;
      ResolvedRule(s[i], canon, cal);
    }
  }

  /** After resolution every rule for a single year names its day by month and day, and no other has
      changed. */
  lemma ResolvedDays(s: seq<Rule>, canon: (DayRule, int) -> DayRule)
    requires forall d, y :: canon(d, y).MonthDay?
    ensures forall i | 0 <= i < |s| ::
      if s[i].startYear == s[i].endYear then Resolved(s, canon)[i].at.on.MonthDay? else Resolved(s, canon)[i] == s[i]
  {
  }

  // ----- The walk looks at names and years only -----

  ghost predicate SameYears(s: seq<Rule>, t: seq<Rule>) {
    |s| == |t| && forall i | 0 <= i < |s| :: SameRange(s[i], t[i]) && s[i].name == t[i].name
  }

  lemma {:induction false} SameGroupFirst(s: seq<Rule>, t: seq<Rule>, r: nat)
    requires SameYears(s, t) && r < |s|
    ensures GroupFirst(s, r) == GroupFirst(t, r)
    decreases r
  {
    if r > 0 {
      SameGroupFirst(s, t, r - 1);
    }
  }

  lemma SameNext(s: seq<Rule>, t: seq<Rule>, o: Occurrence)
    requires SameYears(s, t) && In(s, o)
    ensures In(t, o) && Next(s, o) == Next(t, o)
  {
    SameGroupFirst(s, t, o.rule);
  }

  lemma SameReady(s: seq<Rule>, t: seq<Rule>)
    requires SameYears(s, t) && Ready(s)
    ensures Ready(t)
  {
    forall r | r in t ensures r.Valid() {
      var i :| 0 <= i < |t| && t[i] == r;
      assert s[i] in s;
    }
  }

  lemma {:induction false} SamePath(s: seq<Rule>, t: seq<Rule>, first: Occurrence, last: Occurrence)
    requires SameYears(s, t) && Ready(s) && Ready(t)
    requires In(s, first) && Of(s, s[first.rule].name, last) && !Before(last, first)
    ensures In(t, first) && Of(t, t[first.rule].name, last) && Path(s, first, last) == Path(t, first, last)
    decreases MaxYear(s) - first.year, |s| - first.rule
  {
    hide Ready, Next, MaxYear, SameYears;
    SameIn(s, t, first);
    SameIn(s, t, last);
    if first != last {
      NotPast(s, first, last);
      SameNext(s, t, first);
      SamePath(s, t, Next(s, first).value, last);
    }
  }

  lemma SameIn(s: seq<Rule>, t: seq<Rule>, o: Occurrence)
    requires SameYears(s, t) && In(s, o)
    ensures In(t, o) && t[o.rule].name == s[o.rule].name
  {
  }

  // ----- The theorem -----

  lemma SameTransition(s: seq<Rule>, t: seq<Rule>, z: Zonelet, cal: Calendar, k: nat)
    requires SameEffects(s, t, cal) && WellFormed(s, z) && WellFormed(t, z) && PathOf(s, z) == PathOf(t, z)
    requires k < |PathOf(s, z)|
    ensures Transition(s, z, cal, k) == Transition(t, z, cal, k)
    ensures SaveBefore(s, z, k) == SaveBefore(t, z, k) && SaveBefore(s, z, k + 1) == SaveBefore(t, z, k + 1)
    ensures s[PathOf(s, z)[k].rule].abbrev == t[PathOf(s, z)[k].rule].abbrev
  {
    hide ToSys, Ready, Path;
    var o := PathOf(s, z)[k];
    assert In(s, o) && SameEffect(s[o.rule], t[o.rule], cal);
    if k > 0 {
      assert In(s, PathOf(s, z)[k - 1]);
    }
  }

  /** With the days of the one-year rules resolved, and kept, a zone has the same transitions, every query
      ends its search in the same interval, and the intervals are the same. */
  lemma ResolvedTransitions(all: seq<Rule>, canon: (DayRule, int) -> DayRule, z: Zonelet, cal: Calendar)
    requires WellFormed(all, z) && forall r | r in all :: DayKept(r, canon, cal)
    ensures var t := Resolved(all, canon);
      && WellFormed(t, z) && PathOf(t, z) == PathOf(all, z)
      && Transitions(t, z, cal) == Transitions(all, z, cal)
      && ClockTransitions(t, z, cal, Standard) == ClockTransitions(all, z, cal, Standard)
      && ClockTransitions(t, z, cal, Local) == ClockTransitions(all, z, cal, Local)
      && forall n: nat | n <= |PathOf(all, z)| :: Answer(t, z, cal, n) == Answer(all, z, cal, n)
  {
    hide DayKept, Resolved, Canonical, Ready, Transition, SaveBefore, PathOf, SameEffect;
    var t := Resolved(all, canon);
    ResolvedRules(all, canon, cal);
    EffectsHaveYears(all, t, cal);
    SameReady(all, t);
    SamePathOf(all, t, z);
    forall k: nat | k < |PathOf(all, z)|
      ensures Transition(t, z, cal, k) == Transition(all, z, cal, k)
      ensures SaveBefore(t, z, k) == SaveBefore(all, z, k)
    {
      SameTransition(all, t, z, cal, k);
    }
    forall n: nat | n <= |PathOf(all, z)| ensures Answer(t, z, cal, n) == Answer(all, z, cal, n) {
      SameAnswerParts(all, t, z, cal, n);
    }
  }

  lemma SameAnswerParts(s: seq<Rule>, t: seq<Rule>, z: Zonelet, cal: Calendar, n: nat)
    requires SameEffects(s, t, cal) && WellFormed(s, z) && WellFormed(t, z) && PathOf(s, z) == PathOf(t, z)
    requires n <= |PathOf(s, z)|
    ensures SaveBefore(s, z, n) == SaveBefore(t, z, n)
    ensures n > 0 ==> In(s, PathOf(s, z)[n - 1]) && In(t, PathOf(s, z)[n - 1])
    ensures n > 0 ==> s[PathOf(s, z)[n - 1].rule].abbrev == t[PathOf(s, z)[n - 1].rule].abbrev
  {
    hide PathOf, Ready;
    if n > 0 {
      PathIn(s, z, n - 1);
      PathIn(t, z, n - 1);
      SameTransition(s, t, z, cal, n - 1);
    }
  }

  lemma PathIn(s: seq<Rule>, z: Zonelet, k: nat)
    requires WellFormed(s, z) && k < |PathOf(s, z)|
    ensures In(s, PathOf(s, z)[k])
  {
  }

  lemma EffectsHaveYears(s: seq<Rule>, t: seq<Rule>, cal: Calendar)
    requires SameEffects(s, t, cal)
    ensures SameYears(s, t)
  {
  }

  lemma SamePathOf(s: seq<Rule>, t: seq<Rule>, z: Zonelet)
    requires SameYears(s, t) && Ready(t) && WellFormed(s, z)
    ensures WellFormed(t, z) && PathOf(s, z) == PathOf(t, z)
  {
    hide SameYears, Ready;
    SamePath(s, t, z.first.value, z.last.value);
  }
}
