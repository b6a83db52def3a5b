/** Cutting rules leaves those of one starting year in the order of their month and day. */
module RuleOrder {
  import opened RuleSplit
  import opened TzRule

  predicate DayLess(x: Rule, y: Rule) {
    x.at.on.month < y.at.on.month || (x.at.on.month == y.at.on.month && x.at.on.DayKey() < y.at.on.DayKey())
  }

  /** A later rule `x` that starts with `c` does not take effect earlier in the year. */
  predicate Behind(c: Rule, x: Rule) {
    x.startYear == c.startYear ==> !DayLess(x, c)
  }

  ghost predicate AllBehind(c: Rule, later: seq<Rule>) {
    forall x | x in later :: Behind(c, x)
  }

  /** The outer loop stands at `s[0]` with `front` behind it; the inner loop is about to look at `s[k]`. */
  ghost predicate InDayOrder(front: seq<Rule>, s: seq<Rule>, k: nat) {
    && (forall i | 0 <= i < |front| :: AllBehind(front[i], front[i + 1..] + s))
    && (forall q | 0 < q < k && q < |s| :: Behind(s[0], s[q]))
  }

  lemma PiecesBehind(c: Rule, a: Rule, b: Rule, x: Rule)
    requires Splittable(a, b) && a.Valid() && b.Valid() && c.Valid()
    requires Clear(c, a) && Clear(c, b) && Behind(c, a) && Behind(c, b)
    requires x == Pieces(a, b).0 || x in Pieces(a, b).1
    ensures Behind(c, x)
  {
  }

  lemma AllBehindAfterSplit(c: Rule, pre: seq<Rule>, s: seq<Rule>, k: nat, t: seq<Rule>)
    requires 0 < k < |s| && Splittable(s[0], s[k]) && s[0].Valid() && s[k].Valid() && c.Valid()
    requires multiset(t) == multiset(SplitTail(s, k))
    requires Done(c, pre + s) && AllBehind(c, pre + s)
    ensures AllBehind(c, pre + t)
  {
    hide Behind, Clear, SplitTail, Pieces, Splittable, Outlasts;
    SplitMembers(s, k, t);
    assert s[0] in pre + s && s[k] in pre + s;
    forall x | x in pre + t && x !in pre + s ensures Behind(c, x) {
      PiecesBehind(c, s[0], s[k], x);
    }
  }

  /** A rule with the range of the first one that sorts first takes effect first. */
  lemma FirstIsLeast(t: seq<Rule>, m: Rule, x: Rule)
    requires Sorted(t) && m in t && x in t && SameRange(t[0], m) && t[0].name == m.name == x.name
    ensures !DayLess(m, t[0])
    ensures x.startYear == t[0].startYear && DayLess(x, t[0]) ==>
      x.endYear > m.endYear && x.at.on.month == t[0].at.on.month && DayLess(x, m)
  {
    var i :| 0 <= i < |t| && t[i] == m;
    var j :| 0 <= j < |t| && t[j] == x;
    assert i == 0 || !Less(m, t[0]);
    assert j == 0 || !Less(x, t[0]);
  }

  /** A rule from behind position `k` that takes effect before the first one comes after everything
      compared so far. */
  lemma EarlierDayIsLater(s: seq<Rule>, k: nat, j: nat, i: nat)
    requires 0 < k < j < |s| && Splittable(s[0], s[k]) && i <= k
    requires AllValid(s) && Sorted(s) && OneName(s)
    requires forall q | 0 < q < k :: Behind(s[0], s[q])
    requires s[j].startYear == s[0].startYear && s[j].endYear > Pieces(s[0], s[k]).0.endYear && DayLess(s[j], s[0])
    ensures Less(SplitTail(s, k)[i], s[j])
  {
    hide Sorted, AllValid, OneName, Behind;
    var (a, b, x) := (s[0], s[k], s[j]);
    OrderedTriple(s, 0, k, j);
    if 0 < i < k {
      OrderedTriple(s, 0, i, j);
      assert Behind(a, s[i]);
      SameStartLess(a, s[i], x);
      assert SplitTail(s, k)[i] == s[i];
    } else {
      FirstPieceLess(a, b, x);
      assert SplitTail(s, k)[i] == if i == 0 then Pieces(a, b).0 else Pieces(a, b).1[0];
    }
  }

  lemma OrderedTriple(s: seq<Rule>, i: nat, k: nat, j: nat)
    requires i < k < j < |s| && Sorted(s) && OneName(s) && AllValid(s)
    ensures !Less(s[k], s[i]) && !Less(s[j], s[k]) && !Less(s[j], s[i])
    ensures s[i].name == s[k].name == s[j].name && s[i].Valid() && s[k].Valid() && s[j].Valid()
  {
    assert s[i] in s && s[k] in s && s[j] in s;
  }

  lemma SameStartLess(a: Rule, y: Rule, x: Rule)
    requires a.name == y.name == x.name && x.startYear == a.startYear && DayLess(x, a) && Behind(a, y)
    requires !Less(y, a) && !Less(x, y) && !Less(x, a)
    ensures Less(y, x)
  {
  }

  lemma FirstPieceLess(a: Rule, b: Rule, x: Rule)
    requires Splittable(a, b) && a.Valid() && b.Valid() && a.name == b.name == x.name
    requires !Less(b, a) && !Less(x, b) && !Less(x, a)
    requires x.startYear == a.startYear && x.endYear > Pieces(a, b).0.endYear && DayLess(x, a)
    ensures Less(Pieces(a, b).0, x) && Less(Pieces(a, b).1[0], x)
  {
  }

  /** The pieces that start with the first rule do not outlast it. */
  lemma PiecesEnd(a: Rule, b: Rule, x: Rule)
    requires Splittable(a, b) && a.Valid() && b.Valid()
    requires x == Pieces(a, b).0 || x in Pieces(a, b).1
    requires x.startYear == Pieces(a, b).0.startYear
    ensures x.endYear <= Pieces(a, b).0.endYear
  {
  }

  lemma BehindAfterSplit(s: seq<Rule>, k: nat, t: seq<Rule>, q: nat)
    requires 0 < k < |s| && Splittable(s[0], s[k]) && AllValid(s) && Sorted(s) && OneName(s)
    requires forall q | 0 < q < k :: Behind(s[0], s[q])
    requires Sorted(t) && multiset(t) == multiset(SplitTail(s, k)) && q <= k && q < |t|
    ensures t != [] && Behind(t[0], t[q])
  {
    hide Sorted, AllValid, OneName, SplitTail, Pieces, Less, DayLess, Splittable, SameRange;
    var (a', p) := Pieces(s[0], s[k]);
    FirstTwo(s, k);
    FirstRange(s, k, t);
    NameKept(s, k, t);
    SplitMembers(s, k, t);
    var x := t[q];
    FirstIsLeast(t, a', x);
    if x.startYear == t[0].startYear && DayLess(x, t[0]) {
      SameStart(t[0], a', s[0], s[k]);
      if x == a' || x in p {
        PiecesEnd(s[0], s[k], x);
      } else if x !in s[1..k] {
        var j :| k < j < |s| && s[j] == x;
        TailLength(s, k);
        forall i | 0 <= i < k + 1 ensures Less(SplitTail(s, k)[i], x) {
          EarlierDayIsLater(s, k, j, i);
        }
        PositionBound(SplitTail(s, k), t, k + 1, q);
      }
    }
  }

  lemma TailLength(s: seq<Rule>, k: nat)
    requires 0 < k < |s| && Splittable(s[0], s[k])
    ensures |SplitTail(s, k)| > k
  {
  }

  lemma FirstTwo(s: seq<Rule>, k: nat)
    requires 0 < k < |s| && AllValid(s) && OneName(s)
    ensures s[0].Valid() && s[k].Valid() && s[0].name == s[k].name
  {
    assert s[0] in s && s[k] in s;
  }

  lemma SameStart(x: Rule, a': Rule, a: Rule, b: Rule)
    requires Splittable(a, b) && a' == Pieces(a, b).0 && SameRange(x, a')
    ensures x.startYear == a'.startYear == a.startYear
    ensures forall y :: DayLess(y, a') <==> DayLess(y, a)
  {
  }

  lemma NameKept(s: seq<Rule>, k: nat, t: seq<Rule>)
    requires 0 < k < |s| && Splittable(s[0], s[k]) && AllValid(s) && OneName(s)
    requires multiset(t) == multiset(SplitTail(s, k))
    ensures Pieces(s[0], s[k]).0 in t
    ensures forall x | x in t :: x.name == Pieces(s[0], s[k]).0.name
  {
    SplitMembers(s, k, t);
    FirstTwo(s, k);
    forall x | x in t ensures x.name == s[0].name {
      if x !in s {
        PiecesStayClear(s[0], s[0], s[k], x);
      }
    }
  }

  /** Cutting against position `k` and sorting keeps the order of the days, as far as it goes. */
  lemma OrderAfterSplit(front: seq<Rule>, s: seq<Rule>, k: nat, t: seq<Rule>)
    requires PassInv(front, s, k) && InDayOrder(front, s, k) && 0 < k < |s| && Splittable(s[0], s[k])
    requires Sorted(t) && multiset(t) == multiset(SplitTail(s, k))
    ensures InDayOrder(front, t, k + 1)
  {
    hide Sorted, AllValid, OneName, Checked, Done, SplitTail, Pieces, Splittable, AllBehind, Behind;
    InsideFront(front, s);
    FirstTwo(s, k);
    forall q: nat | 0 < q < k + 1 && q < |t| ensures Behind(t[0], t[q]) {
      BehindAfterSplit(s, k, t, q);
    }
    forall i | 0 <= i < |front| ensures AllBehind(front[i], front[i + 1..] + t) {
      FrontValid(front, s, i);
      AllBehindAfterSplit(front[i], front[i + 1..], s, k, t);
    }
  }

  lemma FrontValid(front: seq<Rule>, s: seq<Rule>, i: nat)
    requires AllValid(front + s) && i < |front|
    ensures front[i].Valid()
  {
    assert front[i] in front + s;
  }

  lemma InsideFront(front: seq<Rule>, s: seq<Rule>)
    requires AllValid(front + s) && OneName(front + s)
    ensures AllValid(s) && OneName(s)
  {
    assert forall x | x in s :: x in front + s;
    forall i, j | 0 <= i < j < |s| ensures s[i].name == s[j].name {
      assert (front + s)[|front| + i] == s[i] && (front + s)[|front| + j] == s[j];
    }
  }

  lemma OrderNextCheck(front: seq<Rule>, s: seq<Rule>, k: nat)
    requires PassInv(front, s, k) && InDayOrder(front, s, k) && 0 < k < |s|
    requires s[0].startYear <= s[k].startYear && !Overlaps(s[0], s[k])
    ensures InDayOrder(front, s, k + 1)
  {
    hide Checked, Done, AllBehind;
    InsideFront(front, s);
    FirstTwo(s, k);
    assert !Less(s[k], s[0]);
  }

  lemma OrderNextPass(front: seq<Rule>, s: seq<Rule>)
    requires InDayOrder(front, s, |s|) && |s| > 1
    ensures InDayOrder(front + [s[0]], s[1..], 1)
  {
    hide Behind;
    var front' := front + [s[0]];
    forall i | 0 <= i < |front'| ensures AllBehind(front'[i], front'[i + 1..] + s[1..]) {
      if i < |front| {
        assert front'[i + 1..] + s[1..] == front[i + 1..] + s;
      } else {
        assert front'[i + 1..] + s[1..] == s[1..];
        assert forall x | x in s[1..] :: exists q | 0 < q < |s| :: s[q] == x;
      }
    }
  }

  /** Once the outer loop has ended, the run is sorted. */
  lemma OrderMeansSorted(front: seq<Rule>, s: seq<Rule>)
    requires PassInv(front, s, 1) && InDayOrder(front, s, 1) && |s| == 1
    ensures Sorted(front + s)
  {
    hide Sorted, Checked, Behind, Clear, Outlasts, CutOff;
    var all := front + s;
    forall i: nat, j: nat | i < j < |all| ensures !Less(all[j], all[i]) {
      assert all[i] == front[i] && all[j] == (front[i + 1..] + s)[j - i - 1];
      assert all[j] in front[i + 1..] + s;
      assert all[i].name == all[j].name;
      ClearBehind(all[i], all[j]);
    }
    SortedIf(all);
  }

  lemma SortedIf(s: seq<Rule>)
    requires forall i: nat, j: nat | i < j < |s| :: !Less(s[j], s[i])
    ensures Sorted(s)
  {
  }

  lemma ClearBehind(c: Rule, x: Rule)
    requires Clear(c, x) && Behind(c, x) && c.name == x.name && c.Valid()
    ensures !Less(x, c)
  {
  }

  /** In a sorted table without overlaps, the positions of the rules that cover a year follow their
      months and days. */
  lemma PositionIsDayOrder(rules: seq<Rule>, i: nat, j: nat, year: int)
    requires Sorted(rules) && OverlapFree(rules) && i < j < |rules| && rules[i].name == rules[j].name
    requires rules[i].startYear <= year <= rules[i].endYear && rules[j].startYear <= year <= rules[j].endYear
    ensures !DayLess(rules[j], rules[i])
  {
    assert SameRange(rules[i], rules[j]) && !Less(rules[j], rules[i]);
  }

  /** Among the rules of one month, one on the last of some weekday stands behind one before the 31st. */
  lemma LastWeekdayIsLate(rules: seq<Rule>, i: nat, j: nat, year: int)
    requires Sorted(rules) && OverlapFree(rules) && i < |rules| && j < |rules| && rules[i].name == rules[j].name
    requires rules[i].startYear <= year <= rules[i].endYear && rules[j].startYear <= year <= rules[j].endYear
    requires var (x, y) := (rules[i].at.on, rules[j].at.on);
      x.month == y.month && x.LastWeekday? && !y.LastWeekday? && y.day < 31
    ensures j < i
  {
    if i < j {
      PositionIsDayOrder(rules, i, j, year);
    }
  }
}
