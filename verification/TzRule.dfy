/** The timezone rule: a year range, a month/day/time at which it takes effect, and the saving it
    switches to. Rule names are represented by their rank in string order, because the code only
    ever compares them; durations are seconds. */
module TzRule {

  datatype Zone = Utc | Local | Standard

  /** The four ways a rule names a day of the year. */
  datatype DayRule =
    | MonthDay(month: int, day: int)
    | LastWeekday(month: int, weekday: int)
    | OnOrBefore(month: int, day: int, weekday: int)
    | OnOrAfter(month: int, day: int, weekday: int)
  {
    /** The day used for ordering; a "last weekday" counts as the 31st. */
    function DayKey(): int {
      if LastWeekday? then 31 else day
    }
  }

  datatype MonthDayTime = MonthDayTime(on: DayRule, time: int, zone: Zone)

  datatype Rule = Rule(name: int, startYear: int, endYear: int, at: MonthDayTime, save: int, abbrev: string)
  {
    /** Every rule covers at least one year. */
    predicate Valid() {
      startYear <= endYear
    }

    /** The copy of this rule for another range of years. */
    function For(first: int, last: int): Rule {
      this.(startYear := first, endYear := last)
    }
  }

  predicate SameRange(x: Rule, y: Rule) {
    x.startYear == y.startYear && x.endYear == y.endYear
  }

  /** `operator<` on rules: name, starting year, month, ending year, day. */
  predicate Less(x: Rule, y: Rule) {
    if x.name != y.name then x.name < y.name
    else if x.startYear != y.startYear then x.startYear < y.startYear
    else if x.at.on.month != y.at.on.month then x.at.on.month < y.at.on.month
    else if x.endYear != y.endYear then x.endYear < y.endYear
    else x.at.on.DayKey() < y.at.on.DayKey()
  }

  ghost predicate Sorted(s: seq<Rule>) {
    forall i, j | 0 <= i < j < |s| :: !Less(s[j], s[i])
  }

  /** Two rules of one name never cover part of the same years: the ranges are equal or disjoint,
      and rules come in order of their starting year. */
  ghost predicate OverlapFree(s: seq<Rule>) {
    forall i, j | 0 <= i < j < |s| && s[i].name == s[j].name ::
      SameRange(s[i], s[j]) || s[i].endYear < s[j].startYear
  }

  /** Rules come grouped by name, and by starting year within a name. */
  ghost predicate Grouped(s: seq<Rule>) {
    forall i, j | 0 <= i < j < |s| ::
      s[i].name < s[j].name || (s[i].name == s[j].name && s[i].startYear <= s[j].startYear)
  }

  ghost predicate AllValid(s: seq<Rule>) {
    forall x | x in s :: x.Valid()
  }

  /** The form of the table that the lookups rely on. */
  ghost predicate Ready(s: seq<Rule>) {
    OverlapFree(s) && Grouped(s) && AllValid(s)
  }

  lemma SortedCons(x: Rule, s: seq<Rule>)
    requires Sorted(s)
    requires forall j | 0 <= j < |s| :: !Less(s[j], x)
    ensures Sorted([x] + s)
  {
    var t := [x] + s;
    forall i, j | 0 <= i < j < |t| ensures !Less(t[j], t[i]) {
      assert t[j] == s[j - 1];
      if i > 0 {
        assert t[i] == s[i - 1];
      }
    }
  }

  function Insert(x: Rule, s: seq<Rule>): seq<Rule> {
    if s == [] || !Less(s[0], x) then [x] + s else [s[0]] + Insert(x, s[1..])
  }

  lemma {:induction false} InsertSorts(x: Rule, s: seq<Rule>)
    requires Sorted(s)
    ensures Sorted(Insert(x, s)) && multiset(Insert(x, s)) == multiset(s) + multiset{x}
  {
    hide Less;
    if s == [] {
    } else if !Less(s[0], x) {
      NotLessAll(x, s);
      SortedCons(x, s);
    } else {
      InsertSorts(x, s[1..]);
      var rest := Insert(x, s[1..]);
      assert s == [s[0]] + s[1..];
      forall j | 0 <= j < |rest| ensures !Less(rest[j], s[0]) {
        assert rest[j] in multiset(rest);
        LessAsymmetric(s[0], x);
      }
      SortedCons(s[0], rest);
    }
  }

  lemma LessAsymmetric(x: Rule, y: Rule)
    ensures Less(x, y) ==> !Less(y, x)
  {
  }

  lemma NotLessAll(x: Rule, s: seq<Rule>)
    requires Sorted(s) && s != [] && !Less(s[0], x)
    ensures forall j | 0 <= j < |s| :: !Less(s[j], x)
  {
    forall j | 0 <= j < |s| ensures !Less(s[j], x) {
      assert j == 0 || !Less(s[j], s[0]);
    }
  }

  /** `std::sort`: callers may rely on nothing but a sorted permutation. */
  method StdSort(s: seq<Rule>) returns (t: seq<Rule>)
    ensures Sorted(t) && multiset(t) == multiset(s)
  {
    t := [];
    for n := 0 to |s|
      invariant Sorted(t) && multiset(t) == multiset(s[..n])
    {
      assert s[..n + 1] == s[..n] + [s[n]];
      InsertSorts(s[n], t);
      t := Insert(s[n], t);
    }
    assert s[..|s|] == s;
  }
}
