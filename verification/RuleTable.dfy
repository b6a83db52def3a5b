/** The rule table, rewritten in place. */
module RuleTable {
  import opened RuleOrder
  import opened RuleSplit
  import opened Sequences
  import opened TzRule

  /** Resolving the day of a one-year rule to a month and a day; `canon` is the calendar. */
  function Canonical(r: Rule, canon: (DayRule, int) -> DayRule): Rule {
    if r.startYear == r.endYear then r.(at := r.at.(on := canon(r.at.on, r.startYear))) else r
  }

  /** The whole table after the pieces of rules `i` and `k` took their places. */
  function TableAfterSplit(rules: seq<Rule>, i: nat, k: nat): seq<Rule>
    requires i < k < |rules| && Splittable(rules[i], rules[k])
  {
    var (a', p) := Pieces(rules[i], rules[k]);
    rules[..i] + [a'] + rules[i + 1..k] + p + rules[k + 1..]
  }

  function Inserted<T>(s: seq<T>, p: nat, x: T): (t: seq<T>)
    requires p <= |s|
    ensures |t| == |s| + 1
    ensures forall j | 0 <= j < p :: t[j] == s[j]
    ensures forall j | p < j < |t| :: t[j] == s[j - 1]
  {
    s[..p] + [x] + s[p..]
  }

  function WithEnd(s: seq<Rule>, p: nat, year: int): (t: seq<Rule>)
    requires p < |s|
    ensures |t| == |s| && t[p] == s[p].(endYear := year)
    ensures forall j | 0 <= j < |s| && j != p :: t[j] == s[j]
  {
    s[p := s[p].(endYear := year)]
  }

  /** The five branches of the split, written as insertions and updates of the table. */
  lemma SplitBranches(s: seq<Rule>, i: nat, k: nat)
    requires i < k < |s| && Splittable(s[i], s[k])
    ensures var (a, b) := (s[i], s[k]);
      && (a.startYear == b.startYear && b.endYear < a.endYear ==>
        TableAfterSplit(s, i, k) == WithEnd(Inserted(s, k + 1, a.For(b.endYear + 1, a.endYear)), i, b.endYear))
      && (a.startYear == b.startYear && b.endYear > a.endYear ==>
        TableAfterSplit(s, i, k) == WithEnd(Inserted(s, k + 1, b.For(a.endYear + 1, b.endYear)), k, a.endYear))
  {
    var (a, b) := (s[i], s[k]);
    if a.startYear == b.startYear {
      if b.endYear < a.endYear {
        InsertAfter(s, i, k, a.For(a.startYear, b.endYear), b, a.For(b.endYear + 1, a.endYear));
      } else {
        InsertAfter(s, i, k, a, b.For(b.startYear, a.endYear), b.For(a.endYear + 1, b.endYear));
      }
    }
  }

  lemma SplitBranchesLater(s: seq<Rule>, i: nat, k: nat)
    requires i < k < |s| && Splittable(s[i], s[k]) && s[i].startYear < s[k].startYear
    ensures var (a, b) := (s[i], s[k]);
      && (b.endYear < a.endYear ==>
        TableAfterSplit(s, i, k) == WithEnd(
          Inserted(Inserted(s, k, a.For(b.startYear, b.endYear)), k + 2, a.For(b.endYear + 1, a.endYear)), i, b.startYear - 1))
      && (b.endYear > a.endYear ==>
        TableAfterSplit(s, i, k) == WithEnd(WithEnd(
          Inserted(Inserted(s, k, a.For(b.startYear, a.endYear)), k + 2, b.For(a.endYear + 1, b.endYear)),
          k + 1, a.endYear), i, b.startYear - 1))
      && (b.endYear == a.endYear ==>
        TableAfterSplit(s, i, k) == WithEnd(Inserted(s, k, a.For(b.startYear, a.endYear)), i, b.startYear - 1))
  {
    var (a, b) := (s[i], s[k]);
    var a' := a.For(a.startYear, b.startYear - 1);
    if b.endYear < a.endYear {
      InsertBoth(s, i, k, a', a.For(b.startYear, b.endYear), b, a.For(b.endYear + 1, a.endYear));
    } else if b.endYear > a.endYear {
      InsertBoth(s, i, k, a', a.For(b.startYear, a.endYear), b.For(b.startYear, a.endYear), b.For(a.endYear + 1, b.endYear));
    } else {
      InsertBefore(s, i, k, a', a.For(b.startYear, a.endYear));
    }
  }

  lemma SplitInside(left: seq<Rule>, s: seq<Rule>, right: seq<Rule>, k: nat)
    requires 0 < k < |s| && Splittable(s[0], s[k])
    ensures Splittable((left + s + right)[|left|], (left + s + right)[|left| + k])
    ensures TableAfterSplit(left + s + right, |left|, |left| + k) == left + SplitTail(s, k) + right
    ensures |SplitTail(s, k)| > |s|
  {
  }

  function Resolved(s: seq<Rule>, canon: (DayRule, int) -> DayRule): (t: seq<Rule>)
    ensures |t| == |s|
  {
    seq(|s|, i requires 0 <= i < |s| => Canonical(s[i], canon))
  }

  lemma ResolvedReady(s: seq<Rule>, canon: (DayRule, int) -> DayRule)
    requires Ready(s)
    ensures Ready(Resolved(s, canon))
  {
    forall r | r in Resolved(s, canon) ensures r.Valid() {
      var i :| 0 <= i < |s| && Resolved(s, canon)[i] == r;
      assert s[i] in s;
    }
  }

  lemma ResolvedInside(left: seq<Rule>, s: seq<Rule>, right: seq<Rule>, canon: (DayRule, int) -> DayRule,
                       before: seq<Rule>, after: seq<Rule>)
    requires before == left + s + right && |after| == |before|
    requires forall n | 0 <= n < |after| ::
      after[n] == if |left| <= n < |left| + |s| then Canonical(before[n], canon) else before[n]
    ensures after == left + Resolved(s, canon) + right
  {
    ThreeParts(left, s, right);
  }

  // ----- All runs -----

  ghost predicate NamesBefore(s: seq<Rule>, t: seq<Rule>) {
    forall i, j | 0 <= i < |s| && 0 <= j < |t| :: s[i].name < t[j].name
  }

  lemma AppendRun(all: seq<Rule>, done: seq<Rule>, run: seq<Rule>, rest: seq<Rule>)
    requires Ready(all) && Sorted(all) && NamesBefore(all, run + rest) && run != []
    requires OverlapFree(done) && OneName(done) && AllValid(done) && Sorted(done)
    requires done != [] ==> done[0].name == run[0].name
    ensures Ready(all + done) && Sorted(all + done)
  {
    assert (run + rest)[0] == run[0];
    var s := all + done;
    forall i, j | 0 <= i < j < |s|
      ensures !Less(s[j], s[i])
      ensures s[i].name == s[j].name ==> SameRange(s[i], s[j]) || s[i].endYear < s[j].startYear
    {
      if j >= |all| {
        assert s[j] == done[j - |all|] && s[j].name == done[0].name;
        if i >= |all| {
          assert s[i] == done[i - |all|];
        } else {
          assert s[i] == all[i];
        }
      } else {
        assert s[i] == all[i] && s[j] == all[j];
      }
    }
  }

  /** The rules of one name at the front of a sorted sequence. */
  lemma FrontRun(rest: seq<Rule>, n: nat)
    requires Sorted(rest) && AllValid(rest) && 0 < n <= |rest|
    requires forall j | 0 <= j < |rest| :: j < n <==> rest[j].name <= rest[0].name
    ensures Sorted(rest[..n]) && OneName(rest[..n]) && AllValid(rest[..n])
    ensures Sorted(rest[n..]) && AllValid(rest[n..]) && NamesBefore(rest[..n], rest[n..])
  {
    forall j | 0 < j < n ensures rest[j].name == rest[0].name {
      assert !Less(rest[j], rest[0]);
    }
  }

  /** The rules `s` apply no (rule body, year) pair that `t` does not, and all of those in `lo` to `hi`. */
  ghost predicate Keeps(s: seq<Rule>, t: seq<Rule>, lo: int, hi: int) {
    && (lo <= hi ==> KeepsStart(s, t, lo))
    && forall body, year ::
      && Sum(s, InYear(body, year)) <= Sum(t, InYear(body, year))
      && (lo <= year <= hi ==> Sum(s, InYear(body, year)) == Sum(t, InYear(body, year)))
  }

  predicate StartsBefore(s: seq<Rule>, name: int, year: int) {
    exists i | 0 <= i < |s| :: s[i].name == name && s[i].startYear < year
  }

  /** If a rule of a name has taken effect before `year`, one has in `s`. */
  ghost predicate KeepsStart(s: seq<Rule>, t: seq<Rule>, year: int) {
    forall name | StartsBefore(t, name, year) :: StartsBefore(s, name, year)
  }

  lemma StartsBeforeConcat(s: seq<Rule>, t: seq<Rule>, name: int, year: int)
    ensures StartsBefore(s + t, name, year) <==> StartsBefore(s, name, year) || StartsBefore(t, name, year)
  {
    assert forall i | 0 <= i < |s| :: (s + t)[i] == s[i];
    assert forall i | 0 <= i < |t| :: (s + t)[|s| + i] == t[i];
  }

  lemma KeepsTrans(s: seq<Rule>, t: seq<Rule>, u: seq<Rule>, lo: int, hi: int)
    requires Keeps(s, t, lo, hi) && Keeps(t, u, lo, hi)
    ensures Keeps(s, u, lo, hi)
  {
    hide StartsBefore;
  }

  lemma SameKeeps(s: seq<Rule>, t: seq<Rule>, lo: int, hi: int)
    requires SameOccurrences(s, t) && AllValid(t)
    ensures Keeps(s, t, lo, hi)
  {
    forall name | StartsBefore(t, name, lo) ensures StartsBefore(s, name, lo) {
      var i :| 0 <= i < |t| && t[i].name == name && t[i].startYear < lo;
      assert t[i] in t;
      OccurrenceName(t, i);
      SumNonNegative(s, t[i], t[i].startYear);
      assert Sum(s, InYear(t[i], t[i].startYear)) == Sum(t, InYear(t[i], t[i].startYear));
    }
  }

  /** If all years are within the bounds, nothing is lost at all. */
  lemma KeepsEverything(s: seq<Rule>, t: seq<Rule>, lo: int, hi: int)
    requires Keeps(s, t, lo, hi) && forall r | r in t :: lo <= r.startYear && r.endYear <= hi
    ensures SameOccurrences(s, t)
  {
    forall body, year ensures Sum(s, InYear(body, year)) == Sum(t, InYear(body, year)) {
      SumNonNegative(s, body, year);
      if !(lo <= year <= hi) {
        SumElsewhere(t, body, year);
      }
    }
  }

  lemma {:induction false} SumElsewhere(s: seq<Rule>, body: Rule, year: int)
    requires forall r | r in s :: year < r.startYear || r.endYear < year
    ensures Sum(s, InYear(body, year)) == 0
  {
    if s != [] {
      SumElsewhere(s[1..], body, year);
      assert s[0] in s;
    }
  }

  lemma KeepsStartInside(left: seq<Rule>, s: seq<Rule>, t: seq<Rule>, right: seq<Rule>, year: int)
    requires KeepsStart(s, t, year)
    ensures KeepsStart(left + s + right, left + t + right, year)
  {
    hide StartsBefore;
    forall name | StartsBefore(left + t + right, name, year) ensures StartsBefore(left + s + right, name, year) {
      StartsBeforeConcat(left + t, right, name, year);
      StartsBeforeConcat(left, t, name, year);
      StartsBeforeConcat(left + s, right, name, year);
      StartsBeforeConcat(left, s, name, year);
    }
  }

  lemma KeepsInside(left: seq<Rule>, s: seq<Rule>, t: seq<Rule>, right: seq<Rule>, lo: int, hi: int)
    requires Keeps(s, t, lo, hi)
    ensures Keeps(left + s + right, left + t + right, lo, hi)
  {
    if lo <= hi {
      KeepsStartInside(left, s, t, right, lo);
    }
    forall body, year
      ensures Sum(left + s + right, InYear(body, year)) - Sum(s, InYear(body, year)) ==
        Sum(left + t + right, InYear(body, year)) - Sum(t, InYear(body, year))
    {
      SumConcat(left + s, right, InYear(body, year));
      SumConcat(left, s, InYear(body, year));
      SumConcat(left + t, right, InYear(body, year));
      SumConcat(left, t, InYear(body, year));
    }
  }

  lemma {:induction false} OccurrenceName(s: seq<Rule>, i: nat)
    requires i < |s| && s[i].Valid()
    ensures Sum(s, InYear(s[i], s[i].startYear)) > 0
  {
    var w := InYear(s[i], s[i].startYear);
    SumRemove(s, i, w);
    SumNonNegative(s[..i] + s[i + 1..], s[i], s[i].startYear);
  }

  lemma {:induction false} SumNonNegative(s: seq<Rule>, body: Rule, year: int)
    ensures Sum(s, InYear(body, year)) >= 0
    ensures Sum(s, InYear(body, year)) > 0 ==>
      exists i | 0 <= i < |s| :: s[i].name == body.name && s[i].startYear <= year
  {
    if s != [] {
      SumNonNegative(s[1..], body, year);
      if i :| 0 <= i < |s[1..]| && s[1..][i].name == body.name && s[1..][i].startYear <= year {
        assert s[i + 1].name == body.name && s[i + 1].startYear <= year;
      }
    }
  }

  /** A rewritten run keeps its name. */
  lemma RunName(done: seq<Rule>, run: seq<Rule>)
    requires SameOccurrences(done, run) && done != [] && run != [] && AllValid(done) && OneName(run)
    ensures done[0].name == run[0].name
  {
    assert done[0] in done;
    OccurrenceName(done, 0);
    SumNonNegative(run, done[0], done[0].startYear);
    assert Sum(done, InYear(done[0], done[0].startYear)) == Sum(run, InYear(done[0], done[0].startYear));
  }

  lemma NextRun(all: seq<Rule>, done: seq<Rule>, run: seq<Rule>, rest: seq<Rule>, canon: (DayRule, int) -> DayRule)
    requires NamesBefore(all, run + rest) && NamesBefore(run, rest)
    requires OneName(done) && run != [] && (done != [] ==> done[0].name == run[0].name)
    ensures NamesBefore(all + done, rest)
    ensures Resolved(all, canon) + Resolved(done, canon) == Resolved(all + done, canon)
  {
    forall i, j | 0 <= i < |all + done| && 0 <= j < |rest| ensures (all + done)[i].name < rest[j].name {
      assert rest[j] == (run + rest)[|run| + j];
    }
  }

  // ----- Trimming to the years of interest -----

  /** Of a run, the rules `a..b` are kept: `p` rules end before the minimal year, of which the last one
      stays unless the next rule has started by then, and no kept rule starts after the maximal year. */
  ghost predicate Trimmed(run: seq<Rule>, p: nat, a: nat, b: nat, minYear: int, maxYear: int) {
    && p <= |run| && (forall j | 0 <= j < |run| :: j < p <==> run[j].endYear < minYear)
    && a == (if p <= 1 then 0 else if p == |run| || run[p].startYear >= minYear then p - 1 else p)
    && a <= b <= |run| && (forall j | a <= j < |run| :: j < b <==> run[j].startYear <= maxYear)
  }

  /** Of the rules that have taken effect before the minimal year, trimming keeps one at the front; of those
      that have also ended by then, at most one. */
  lemma TrimKeepsStart(run: seq<Rule>, p: nat, a: nat, b: nat, minYear: int, maxYear: int)
    requires Trimmed(run, p, a, b, minYear, maxYear) && YearsGrow(run) && AllValid(run) && OneName(run)
    ensures minYear <= maxYear ==> KeepsStart(run[a..b], run, minYear)
    ensures forall j | 0 < j < |run[a..b]| :: run[a..b][j].endYear >= minYear
  {
    if minYear <= maxYear {
      forall name | StartsBefore(run, name, minYear) ensures StartsBefore(run[a..b], name, minYear) {
        var j :| 0 <= j < |run| && run[j].name == name && run[j].startYear < minYear;
        assert run[0].startYear <= run[j].startYear && run[0].name == name;
        assert a < |run| && run[a] in run && run[a].startYear < minYear;
        assert run[a..b][0] == run[a];
      }
    }
  }

  lemma TrimKeepsSums(run: seq<Rule>, p: nat, a: nat, b: nat, minYear: int, maxYear: int, body: Rule, year: int)
    requires Trimmed(run, p, a, b, minYear, maxYear)
    ensures Sum(run[a..b], InYear(body, year)) <= Sum(run, InYear(body, year))
    ensures minYear <= year <= maxYear ==> Sum(run[a..b], InYear(body, year)) == Sum(run, InYear(body, year))
  {
    assert run == run[..a] + run[a..b] + run[b..];
    SumConcat(run[..a] + run[a..b], run[b..], InYear(body, year));
    SumConcat(run[..a], run[a..b], InYear(body, year));
    SumNonNegative(run[..a], body, year);
    SumNonNegative(run[b..], body, year);
    if minYear <= year <= maxYear {
      SumElsewhere(run[..a], body, year);
      SumElsewhere(run[b..], body, year);
    }
  }

  /** Trimming loses nothing between the minimal and the maximal year, and no effect of earlier years. */
  lemma TrimKeepsYears(run: seq<Rule>, p: nat, a: nat, b: nat, minYear: int, maxYear: int)
    requires Trimmed(run, p, a, b, minYear, maxYear) && YearsGrow(run) && AllValid(run) && OneName(run)
    ensures Keeps(run[a..b], run, minYear, maxYear)
  {
    hide Trimmed, YearsGrow, AllValid, OneName, KeepsStart;
    TrimmedBounds(run, p, a, b, minYear, maxYear);
    TrimKeepsStart(run, p, a, b, minYear, maxYear);
    forall body, year
      ensures Sum(run[a..b], InYear(body, year)) <= Sum(run, InYear(body, year))
      ensures minYear <= year <= maxYear ==> Sum(run[a..b], InYear(body, year)) == Sum(run, InYear(body, year))
    {
      TrimKeepsSums(run, p, a, b, minYear, maxYear, body, year);
    }
  }

  lemma SliceOfRun(run: seq<Rule>, a: nat, b: nat, canon: (DayRule, int) -> DayRule)
    requires a <= b <= |run| && OverlapFree(run) && OneName(run) && AllValid(run) && Sorted(run)
    ensures var r := run[a..b]; OverlapFree(r) && OneName(r) && AllValid(r) && Sorted(r)
    ensures run[a..b] != [] ==> run[a..b][0].name == run[0].name
    ensures Resolved(run, canon)[a..b] == Resolved(run[a..b], canon)
  {
    hide Less, Canonical;
    var r := run[a..b];
    forall i, j | 0 <= i < j < |r|
      ensures !Less(r[j], r[i]) && r[i].name == r[j].name
      ensures SameRange(r[i], r[j]) || r[i].endYear < r[j].startYear
    {
      assert r[i] == run[a + i] && r[j] == run[a + j];
    }
    assert forall x | x in r :: x in run;
  }

  /** In an overlap-free run the years grow, so `std::lower_bound` and `std::upper_bound` apply. */
  ghost predicate YearsGrow(run: seq<Rule>) {
    forall i, j | 0 <= i < j < |run| :: run[i].startYear <= run[j].startYear && run[i].endYear <= run[j].endYear
  }

  lemma OverlapFreeGrows(done: seq<Rule>)
    requires OverlapFree(done) && OneName(done) && AllValid(done)
    ensures YearsGrow(done)
  {
    forall i, j | 0 <= i < j < |done|
      ensures done[i].startYear <= done[j].startYear && done[i].endYear <= done[j].endYear
    {
      assert done[i] in done && done[j] in done && done[i].name == done[j].name;
    }
  }

  lemma RunGrows(done: seq<Rule>, canon: (DayRule, int) -> DayRule)
    requires OverlapFree(done) && OneName(done) && AllValid(done)
    ensures YearsGrow(Resolved(done, canon))
  {
    OverlapFreeGrows(done);
  }

  lemma TrimmedResolved(done: seq<Rule>, canon: (DayRule, int) -> DayRule, p: nat, a: nat, b: nat, minYear: int, maxYear: int)
    requires Trimmed(Resolved(done, canon), p, a, b, minYear, maxYear)
    ensures Trimmed(done, p, a, b, minYear, maxYear)
  {
    assert forall j | 0 <= j < |done| :: SameRange(Resolved(done, canon)[j], done[j]);
  }

  lemma EmptyFront(rest: seq<Rule>, canon: (DayRule, int) -> DayRule)
    ensures rest == Resolved([], canon) + rest && [] + rest == rest
    ensures Ready([]) && Sorted([]) && NamesBefore([], rest) && SameOccurrences(rest, rest)
  {
  }

  class RuleTable {
    var rules: seq<Rule>

    constructor (rules: seq<Rule>)
      ensures this.rules == rules
    {
      this.rules := rules;
    }

    /** Splits rules `i` and `k` of a run that ends before `e`; returns the new end of the run. */
    method Split(i: nat, k0: nat, e: nat) returns (e': nat)
      requires i < k0 < e <= |rules| && Splittable(rules[i], rules[k0])
      modifies this
      ensures e' == e + |rules| - |old(rules)|
      ensures rules == TableAfterSplit(old(rules), i, k0)
    {
      hide TableAfterSplit, Pieces, Inserted, WithEnd;
      var k := k0;
      e' := e;
      if rules[i].startYear == rules[k].startYear {
        SplitBranches(rules, i, k);
        if rules[k].endYear < rules[i].endYear {
          rules := Inserted(rules, k + 1, rules[i].For(rules[k].endYear + 1, rules[i].endYear));
          e' := e' + 1;
          rules := WithEnd(rules, i, rules[k].endYear);
        } else {
          rules := Inserted(rules, k + 1, rules[k].For(rules[i].endYear + 1, rules[k].endYear));
          e' := e' + 1;
          rules := WithEnd(rules, k, rules[i].endYear);
        }
      } else {
        SplitBranchesLater(rules, i, k);
        if rules[k].endYear < rules[i].endYear {
          rules := Inserted(rules, k, rules[i].For(rules[k].startYear, rules[k].endYear));
          k := k + 1;
          rules := Inserted(rules, k + 1, rules[i].For(rules[k].endYear + 1, rules[i].endYear));
          rules := WithEnd(rules, i, rules[k].startYear - 1);
          e' := e' + 2;
        } else if rules[k].endYear > rules[i].endYear {
          rules := Inserted(rules, k, rules[i].For(rules[k].startYear, rules[i].endYear));
          k := k + 1;
          rules := Inserted(rules, k + 1, rules[k].For(rules[i].endYear + 1, rules[k].endYear));
          e' := e' + 2;
          rules := WithEnd(rules, k, rules[i].endYear);
          rules := WithEnd(rules, i, rules[k].startYear - 1);
        } else {
          rules := Inserted(rules, k, rules[i].For(rules[k].startYear, rules[i].endYear));
          k := k + 1;
          e' := e' + 1;
          rules := WithEnd(rules, i, rules[k].startYear - 1);
        }
      }
    }

    /** Splits rules `i` and `k` and sorts the run again from `i` on. */
    method SplitAndSort(i: nat, k: nat, e: nat, ghost left: seq<Rule>, ghost s: seq<Rule>, ghost right: seq<Rule>)
      returns (e': nat, t: seq<Rule>)
      requires rules == left + s + right && i == |left| && e == i + |s|
      requires i < k < e && Splittable(s[0], s[k - i])
      modifies this
      ensures rules == left + t + right && e' == i + |t| && |t| >= |s|
      ensures Sorted(t) && multiset(t) == multiset(SplitTail(s, k - i))
    {
      hide *;
      ghost var u := SplitTail(s, k - i);
      SplitInside(left, s, right, k - i);
      e' := Split(i, k, e);
      ThreeParts(left, u, right);
      t := StdSort(rules[i..e']);
      SameLength(t, u);
      rules := rules[..i] + t + rules[e'..];
    }

    /** The inner loop: cuts rule `i` until nothing later in the run `i..e0` stands in its way. */
    method ComparePass(i: nat, e0: nat, ghost left: seq<Rule>, ghost front: seq<Rule>, ghost s0: seq<Rule>,
                       ghost right: seq<Rule>) returns (e: nat, ghost s: seq<Rule>)
      requires rules == left + s0 + right && i == |left| && e0 == i + |s0|
      requires |s0| > 1 && PassInv(front, s0, 1) && InDayOrder(front, s0, 1)
      modifies this
      ensures rules == left + s + right && e == i + |s| && |s| > 1
      ensures PassInv(front, s, |s|) && InDayOrder(front, s, |s|)
      ensures SameOccurrences(front + s, front + s0)
      ensures Sum(front + s, Years()) == Sum(front + s0, Years())
    {
      hide PassInv, InDayOrder, SplitTail, SameOccurrences, Pieces, AllValid, OneName, Sorted;
      e, s := e0, s0;
      ghost var total := Sum(front + s, Years());
      PassLength(front, s, 1);
      SameOccurrencesTrans(front + s, front + s, front + s);
      var k := i + 1;
      while k < e
        invariant rules == left + s + right && e == i + |s| && i < k <= e && |s| > 1
        invariant PassInv(front, s, k - i) && InDayOrder(front, s, k - i)
        invariant SameOccurrences(front + s, front + s0) && Sum(front + s, Years()) == total
        invariant |front| + |s| <= total
        decreases total + i - k
      {
        PassComparable(front, s, k - i, k - i);
        if Overlaps(rules[i], rules[k]) {
          var t;
          e, t := SplitAndSort(i, k, e, left, s, right);
          OrderAfterSplit(front, s, k - i, t);
          PassStep(front, s, k - i, t);
          SameOccurrencesTrans(front + t, front + s, front + s0);
          PassLength(front, t, k - i + 1);
          s := t;
        } else {
          OrderNextCheck(front, s, k - i);
          PassNextCheck(front, s, k - i);
        }
        k := k + 1;
      }
    }

    /** Removes all overlaps from the run `i0..e0` of rules of one name; returns the new end. */
    method RemoveOverlaps(i0: nat, e0: nat, ghost left: seq<Rule>, ghost run: seq<Rule>, ghost right: seq<Rule>)
      returns (e: nat, ghost done: seq<Rule>)
      requires rules == left + run + right && i0 == |left| && e0 == i0 + |run| && run != []
      requires Sorted(run) && OneName(run) && AllValid(run)
      modifies this
      ensures rules == left + done + right && e == i0 + |done| && done != []
      ensures OverlapFree(done) && OneName(done) && AllValid(done) && Sorted(done)
      ensures SameOccurrences(done, run)
      ensures |done| <= Sum(run, Years())
    {
      hide *;
      ghost var front: seq<Rule>, s := [], run;
      var i := i0;
      e := e0;
      FirstPass(run);
      NothingInOrder(run);
      ghost var total := Sum(run, Years());
      while i + 1 < e
        invariant rules == left + (front + s) + right && i == |left + front| && e == i + |s|
        invariant PassInv(front, s, 1) && InDayOrder(front, s, 1) && s != []
        invariant SameOccurrences(front + s, run) && Sum(front + s, Years()) == total
        invariant |front| + |s| <= total
        decreases total - |front|
      {
        ghost var s1;
        assert left + (front + s) + right == (left + front) + s + right;
        e, s1 := ComparePass(i, e, left + front, front, s, right);
        SameOccurrencesTrans(front + s1, front + s, run);
        NextPass(front, s1);
        OrderNextPass(front, s1);
        assert front + [s1[0]] + s1[1..] == front + s1;
        PassLength(front, s1, |s1|);
        front, s := front + [s1[0]], s1[1..];
        i := i + 1;
      }
      done := front + s;
      LastPass(front, s);
      OrderMeansSorted(front, s);
    }

    /** Resolves the days of the one-year rules of the run `i0..e`. */
    method ResolveDays(i0: nat, e: nat, canon: (DayRule, int) -> DayRule)
      requires i0 <= e <= |rules|
      modifies this
      ensures |rules| == |old(rules)|
      ensures forall n | 0 <= n < |rules| ::
        rules[n] == if i0 <= n < e then Canonical(old(rules)[n], canon) else old(rules)[n]
    {
      var j := i0;
      while j < e
        invariant i0 <= j <= e && |rules| == |old(rules)|
        invariant forall n | 0 <= n < |rules| ::
          rules[n] == if i0 <= n < j then Canonical(old(rules)[n], canon) else old(rules)[n]
      {
        if rules[j].startYear == rules[j].endYear {
          rules := rules[j := Canonical(rules[j], canon)];
        }
        j := j + 1;
      }
    }

    /** Removes all overlaps from the run `i0..e0` of rules of one name and resolves the days of its
        one-year rules; `done` is the run before the days are resolved. */
    method SplitRun(i0: nat, e0: nat, canon: (DayRule, int) -> DayRule, ghost left: seq<Rule>, ghost run: seq<Rule>,
                    ghost right: seq<Rule>)
      returns (e: nat, ghost done: seq<Rule>)
      requires rules == left + run + right && i0 == |left| && e0 == i0 + |run| && run != []
      requires Sorted(run) && OneName(run) && AllValid(run)
      modifies this
      ensures rules == left + Resolved(done, canon) + right && e == i0 + |done| && done != []
      ensures OverlapFree(done) && OneName(done) && AllValid(done) && Sorted(done)
      ensures SameOccurrences(done, run)
      ensures |done| <= Sum(run, Years())
    {
      hide *;
      e, done := RemoveOverlaps(i0, e0, left, run, right);
      ghost var before := rules;
      ResolveDays(i0, e, canon);
      ResolvedInside(left, done, right, canon, before, rules);
    }

    /** `std::upper_bound` by name from rule `i` on: callers rely on the partition point only. */
    method UpperBoundByName(i: nat, name: int, ghost rest: seq<Rule>) returns (e: nat)
      requires i < |rules| && rest == rules[i..] && Sorted(rest) && name == rules[i].name
      ensures i < e <= |rules|
      ensures forall j | 0 <= j < |rest| :: j < e - i <==> rest[j].name <= name
    {
      e := i + 1;
      while e < |rules| && rules[e].name <= name
        invariant i < e <= |rules|
        invariant forall j | 0 <= j < e - i :: rest[j].name <= name
      {
        e := e + 1;
      }
      assert e < |rules| ==> rest[e - i] == rules[e];
    }

    /** Erases the rules of the run `i..e0` that end before the minimal year, except for the last of
        them, and those that start after the maximal year; returns the new end. */
    method TrimRun(i: nat, e0: nat, minYear: int, maxYear: int, ghost left: seq<Rule>, ghost run: seq<Rule>,
                   ghost right: seq<Rule>)
      returns (e: nat, ghost p: nat, ghost a: nat, ghost b: nat)
      requires rules == left + run + right && i == |left| && e0 == i + |run| && YearsGrow(run)
      modifies this
      ensures Trimmed(run, p, a, b, minYear, maxYear)
      ensures rules == left + run[a..b] + right && e == i + (b - a)
    {
      hide *;
      e, p, a := TrimFront(i, e0, minYear, left, run, right);
      GrowsOn(run, a);
      ghost var n;
      e, n := TrimBack(i, e, maxYear, left, run[a..], right);
      b := a + n;
      TrimmedBy(run, p, a, b, minYear, maxYear);
    }

    method TrimFront(i: nat, e0: nat, minYear: int, ghost left: seq<Rule>, ghost run: seq<Rule>, ghost right: seq<Rule>)
      returns (e: nat, ghost p: nat, ghost a: nat)
      requires rules == left + run + right && i == |left| && e0 == i + |run| && YearsGrow(run)
      modifies this
      ensures p <= |run| && forall j | 0 <= j < |run| :: j < p <==> run[j].endYear < minYear
      ensures a == (if p <= 1 then 0 else if p == |run| || run[p].startYear >= minYear then p - 1 else p)
      ensures rules == left + run[a..] + right && e == i + |run[a..]|
    {
      hide *;
      e := e0;
      var t := LowerBoundByYear(i, e, minYear, left, run, right);
      p := t - i;
      a := 0;
      InRun(left, run, right, p);
      if t > i + 1 {
        if t == e || rules[t].startYear >= minYear {
          t := t - 1;
        }
        a := t - i;
        rules := rules[..i] + rules[t..];
        e := e - (t - i);
      }
      EraseFront(left, run, right, a);
    }

    method TrimBack(i: nat, e0: nat, maxYear: int, ghost left: seq<Rule>, ghost run: seq<Rule>, ghost right: seq<Rule>)
      returns (e: nat, ghost n: nat)
      requires rules == left + run + right && i == |left| && e0 == i + |run| && YearsGrow(run)
      modifies this
      ensures n <= |run| && forall j | 0 <= j < |run| :: j < n <==> run[j].startYear <= maxYear
      ensures rules == left + run[..n] + right && e == i + n
    {
      hide *;
      e := e0;
      var t := UpperBoundByYear(i, e, maxYear, left, run, right);
      n := t - i;
      EraseBack(left, run, right, n);
      if t != e {
        rules := rules[..t] + rules[e..];
        e := t;
      } else {
        assert run[..n] == run;
      }
    }

    method LowerBoundByYear(i: nat, e: nat, year: int, ghost left: seq<Rule>, ghost run: seq<Rule>, ghost right: seq<Rule>)
      returns (t: nat)
      requires rules == left + run + right && i == |left| && e == i + |run| && YearsGrow(run)
      ensures i <= t <= e && forall j | 0 <= j < |run| :: j < t - i <==> run[j].endYear < year
    {
      t := i;
      while t < e && rules[t].endYear < year
        invariant i <= t <= e && forall j | 0 <= j < t - i :: run[j].endYear < year
      {
        t := t + 1;
      }
      assert t < e ==> run[t - i] == rules[t];
    }

    method UpperBoundByYear(i: nat, e: nat, year: int, ghost left: seq<Rule>, ghost run: seq<Rule>, ghost right: seq<Rule>)
      returns (t: nat)
      requires rules == left + run + right && i == |left| && e == i + |run| && YearsGrow(run)
      ensures i <= t <= e && forall j | 0 <= j < |run| :: j < t - i <==> run[j].startYear <= year
    {
      t := i;
      while t < e && rules[t].startYear <= year
        invariant i <= t <= e && forall j | 0 <= j < t - i :: run[j].startYear <= year
      {
        t := t + 1;
      }
      assert t < e ==> run[t - i] == rules[t];
    }

    /** One turn of the loop over the runs: rewrites the run that starts at `i`. */
    method SplitNextRun(i: nat, canon: (DayRule, int) -> DayRule, minYear: int, maxYear: int, ghost all: seq<Rule>,
                        ghost rest: seq<Rule>)
      returns (e: nat, ghost all': seq<Rule>, ghost rest': seq<Rule>)
      requires rules == Resolved(all, canon) + rest && i == |all| && rest != []
      requires Ready(all) && Sorted(all) && NamesBefore(all, rest) && Sorted(rest) && AllValid(rest)
      modifies this
      ensures rules == Resolved(all', canon) + rest' && e == |all'| && |rest'| < |rest|
      ensures Ready(all') && Sorted(all') && NamesBefore(all', rest') && Sorted(rest') && AllValid(rest')
      ensures Keeps(all' + rest', all + rest, minYear, maxYear)
    {
      hide *;
      assert rules[i..] == rest && rules[i] == rest[0];
      e := UpperBoundByName(i, rules[i].name, rest);
      ghost var run := rest[..e - i];
      rest' := rest[e - i..];
      FrontRun(rest, e - i);
      assert run + rest' == rest;
      ghost var done, p, a, b;
      e, done := SplitRun(i, e, canon, Resolved(all, canon), run, rest');
      RunGrows(done, canon);
      e, p, a, b := TrimRun(i, e, minYear, maxYear, Resolved(all, canon), Resolved(done, canon), rest');
      RunTrimmed(all, done, run, rest', canon, p, a, b, minYear, maxYear);
      all' := all + done[a..b];
      assert all + run + rest' == all + rest;
    }

    /** Removes the overlaps of every run of rules of one name and trims the run. `all` is the resulting
        table before the days of its one-year rules are resolved. */
    method SplitOverlaps(canon: (DayRule, int) -> DayRule, minYear: int, maxYear: int) returns (ghost all: seq<Rule>)
      requires Sorted(rules) && AllValid(rules)
      modifies this
      ensures rules == Resolved(all, canon)
      ensures Ready(all) && Sorted(all) && Keeps(all, old(rules), minYear, maxYear)
      ensures Ready(rules)
    {
      all := [];
      ghost var rest := rules;
      var i := 0;
      EmptyFront(rest, canon);
      SameKeeps(rest, rest, minYear, maxYear);
      while i < |rules|
        invariant rules == Resolved(all, canon) + rest && i == |all|
        invariant Ready(all) && Sorted(all) && NamesBefore(all, rest) && Sorted(rest) && AllValid(rest)
        invariant Keeps(all + rest, old(rules), minYear, maxYear)
        decreases |rest|
      {
        hide *;
        ghost var all', rest';
        i, all', rest' := SplitNextRun(i, canon, minYear, maxYear, all, rest);
        KeepsTrans(all' + rest', all + rest, old(rules), minYear, maxYear);
        all, rest := all', rest';
      }
      assert rest == [] && all + rest == all && Resolved(all, canon) + rest == Resolved(all, canon);
      ResolvedReady(all, canon);
    }
  }

  lemma NothingInOrder(run: seq<Rule>)
    ensures InDayOrder([], run, 1)
  {
  }

  lemma GrowsOn(run: seq<Rule>, a: nat)
    requires YearsGrow(run) && a <= |run|
    ensures YearsGrow(run[a..])
  {
  }

  lemma TrimmedBy(run: seq<Rule>, p: nat, a: nat, b: nat, minYear: int, maxYear: int)
    requires p <= |run| && (forall j | 0 <= j < |run| :: j < p <==> run[j].endYear < minYear)
    requires a == (if p <= 1 then 0 else if p == |run| || run[p].startYear >= minYear then p - 1 else p)
    requires a <= b <= |run| && forall j | 0 <= j < |run[a..]| :: j < b - a <==> run[a..][j].startYear <= maxYear
    ensures Trimmed(run, p, a, b, minYear, maxYear)
    ensures run[a..][..b - a] == run[a..b] && (b == |run| ==> run[a..] == run[a..b])
  {
    forall j | a <= j < |run| ensures j < b <==> run[j].startYear <= maxYear {
      assert run[a..][j - a] == run[j];
    }
  }

  /** What one turn over the runs has done to the table. */
  lemma RunTrimmed(all: seq<Rule>, done: seq<Rule>, run: seq<Rule>, rest: seq<Rule>, canon: (DayRule, int) -> DayRule,
                   p: nat, a: nat, b: nat, minYear: int, maxYear: int)
    requires Ready(all) && Sorted(all) && NamesBefore(all, run + rest) && NamesBefore(run, rest) && run != []
    requires OverlapFree(done) && OneName(done) && AllValid(done) && Sorted(done) && done != []
    requires SameOccurrences(done, run) && OneName(run) && AllValid(run)
    requires Trimmed(Resolved(done, canon), p, a, b, minYear, maxYear)
    ensures a <= b <= |done|
    ensures Ready(all + done[a..b]) && Sorted(all + done[a..b]) && NamesBefore(all + done[a..b], rest)
    ensures Resolved(all, canon) + Resolved(done, canon)[a..b] == Resolved(all + done[a..b], canon)
    ensures Keeps(all + done[a..b] + rest, all + run + rest, minYear, maxYear)
  {
    TrimmedResolved(done, canon, p, a, b, minYear, maxYear);
    hide *;
    TrimmedBounds(done, p, a, b, minYear, maxYear);
    OverlapFreeGrows(done);
    RunName(done, run);
    SliceOfRun(done, a, b, canon);
    AppendRun(all, done[a..b], run, rest);
    NextRun(all, done[a..b], run, rest, canon);
    TrimKeepsYears(done, p, a, b, minYear, maxYear);
    SameKeeps(done, run, minYear, maxYear);
    KeepsTrans(done[a..b], done, run, minYear, maxYear);
    KeepsInside(all, done[a..b], run, rest, minYear, maxYear);
  }

  lemma TrimmedBounds(run: seq<Rule>, p: nat, a: nat, b: nat, minYear: int, maxYear: int)
    requires Trimmed(run, p, a, b, minYear, maxYear)
    ensures a <= b <= |run|
  {
  }
}
