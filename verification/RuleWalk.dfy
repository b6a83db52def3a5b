/** Walking the (rule, year) occurrences of one name in chronological order. */
module RuleWalk {
  import opened TzRule
  import opened Results

  /** Position `rule` of the table in one of the years it covers. */
  datatype Occurrence = Occurrence(rule: nat, year: int)

  predicate In(rules: seq<Rule>, o: Occurrence) {
    o.rule < |rules| && rules[o.rule].startYear <= o.year <= rules[o.rule].endYear
  }

  /** An occurrence of rules with a given name. */
  predicate Of(rules: seq<Rule>, name: int, o: Occurrence) {
    In(rules, o) && rules[o.rule].name == name
  }

  /** Chronological order: by year, and within a year by position. In the table as it is left by the
      removal of overlaps, positions within a year follow month and day, as long as the days are not
      resolved. */
  predicate Before(o: Occurrence, p: Occurrence) {
    o.year < p.year || (o.year == p.year && o.rule < p.rule)
  }

  predicate SameGroup(x: Rule, y: Rule) {
    x.name == y.name && x.startYear == y.startYear
  }

  function GroupFirst(rules: seq<Rule>, r: nat): (g: nat)
    requires r < |rules|
    ensures g <= r && forall j | g <= j <= r :: SameGroup(rules[j], rules[r])
    ensures g == 0 || !SameGroup(rules[g - 1], rules[g])
  {
    if r > 0 && SameGroup(rules[r - 1], rules[r]) then GroupFirst(rules, r - 1) else r
  }

  function GroupLast(rules: seq<Rule>, r: nat): (g: nat)
    requires r < |rules|
    ensures r <= g < |rules| && forall j | r <= j <= g :: SameGroup(rules[j], rules[r])
    ensures g == |rules| - 1 || !SameGroup(rules[g], rules[g + 1])
    decreases |rules| - r
  {
    if r + 1 < |rules| && SameGroup(rules[r], rules[r + 1]) then GroupLast(rules, r + 1) else r
  }

  predicate LastOfName(rules: seq<Rule>, r: nat)
    requires r < |rules|
  {
    r == |rules| - 1 || rules[r].name != rules[r + 1].name
  }

  predicate FirstOfName(rules: seq<Rule>, r: nat)
    requires r < |rules|
  {
    r == 0 || rules[r].name != rules[r - 1].name
  }

  /** The occurrence `find_next_rule` steps to; `None` where it returns a null rule. */
  function Next(rules: seq<Rule>, o: Occurrence): Option<Occurrence>
    requires In(rules, o)
  {
    var (r, y) := (o.rule, o.year);
    if y == rules[r].endYear then
      if LastOfName(rules, r) then None
      else if y == rules[r + 1].endYear then Some(Occurrence(r + 1, y))
      else Some(Occurrence(r + 1, rules[r + 1].startYear))
    else if LastOfName(rules, r) || rules[r].endYear < rules[r + 1].endYear then
      Some(Occurrence(GroupFirst(rules, r), y + 1))
    else
      Some(Occurrence(r + 1, y))
  }

  /** The occurrence `find_previous_rule` steps to; `None` where it terminates the program. */
  function Previous(rules: seq<Rule>, o: Occurrence): Option<Occurrence>
    requires In(rules, o)
  {
    var (r, y) := (o.rule, o.year);
    if y == rules[r].startYear then
      if FirstOfName(rules, r) then None
      else if y == rules[r - 1].startYear then Some(Occurrence(r - 1, y))
      else Some(Occurrence(r - 1, rules[r - 1].endYear))
    else if FirstOfName(rules, r) || rules[r - 1].startYear < rules[r].startYear then
      Some(Occurrence(GroupLast(rules, r), y - 1))
    else
      Some(Occurrence(r - 1, y))
  }

  // ----- The loops -----

  method FindNextRule(rules: seq<Rule>, o: Occurrence) returns (n: Option<Occurrence>)
    requires In(rules, o)
    ensures n == Next(rules, o)
  {
    var r, y := o.rule, o.year;
    if y == rules[r].endYear {
      if r == |rules| - 1 || rules[r].name != rules[r + 1].name {
        return None;
      }
      r := r + 1;
      if y == rules[r].endYear {
        return Some(Occurrence(r, y));
      }
      return Some(Occurrence(r, rules[r].startYear));
    }
    if r == |rules| - 1 || rules[r].name != rules[r + 1].name || rules[r].endYear < rules[r + 1].endYear {
      while r > 0 && rules[r].name == rules[r - 1].name && rules[r].startYear == rules[r - 1].startYear
        invariant r <= o.rule && GroupFirst(rules, r) == GroupFirst(rules, o.rule)
      {
        r := r - 1;
      }
      return Some(Occurrence(r, y + 1));
    }
    return Some(Occurrence(r + 1, y));
  }

  /** The variant that is given the bounds of the run of equal names. */
  method FindNextRuleIn(rules: seq<Rule>, first: nat, last: nat, o: Occurrence) returns (n: Option<Occurrence>)
    requires In(rules, o) && first <= o.rule < last <= |rules|
    requires forall j | first <= j < last :: rules[j].name == rules[o.rule].name
    requires FirstOfName(rules, first) && LastOfName(rules, last - 1)
    ensures n == Next(rules, o)
  {
    var r, y := o.rule, o.year;
    if y == rules[r].endYear {
      if r == last - 1 {
        return None;
      }
      r := r + 1;
      if y == rules[r].endYear {
        return Some(Occurrence(r, y));
      }
      return Some(Occurrence(r, rules[r].startYear));
    }
    if r == last - 1 || rules[r].endYear < rules[r + 1].endYear {
      while r > first && rules[r].startYear == rules[r - 1].startYear
        invariant first <= r <= o.rule && GroupFirst(rules, r) == GroupFirst(rules, o.rule)
      {
        r := r - 1;
      }
      return Some(Occurrence(r, y + 1));
    }
    return Some(Occurrence(r + 1, y));
  }

  method FindPreviousRule(rules: seq<Rule>, o: Occurrence) returns (p: Option<Occurrence>)
    requires In(rules, o)
    ensures p == Previous(rules, o)
  {
    var r, y := o.rule, o.year;
    if y == rules[r].startYear {
      if r == 0 || rules[r].name != rules[r - 1].name {
        return None;
      }
      r := r - 1;
      if y == rules[r].startYear {
        return Some(Occurrence(r, y));
      }
      return Some(Occurrence(r, rules[r].endYear));
    }
    if r == 0 || rules[r].name != rules[r - 1].name || rules[r - 1].startYear < rules[r].startYear {
      while r < |rules| - 1 && rules[r].name == rules[r + 1].name && rules[r].startYear == rules[r + 1].startYear
        invariant o.rule <= r < |rules| && GroupLast(rules, r) == GroupLast(rules, o.rule)
      {
        r := r + 1;
      }
      return Some(Occurrence(r, y - 1));
    }
    return Some(Occurrence(r - 1, y));
  }

  // ----- Next and Previous are the immediate neighbours -----

  lemma Neighbours(rules: seq<Rule>, i: nat, j: nat)
    requires Ready(rules) && i < |rules| && j < |rules| && rules[i].name == rules[j].name
    ensures rules[i].Valid() && rules[j].Valid()
    ensures i < j ==> SameRange(rules[i], rules[j]) || rules[i].endYear < rules[j].startYear
    ensures j < i ==> SameRange(rules[i], rules[j]) || rules[j].endYear < rules[i].startYear
    ensures forall k | i <= k <= j || j <= k <= i :: rules[k].name == rules[i].name
  {
    assert rules[i] in rules && rules[j] in rules;
    forall k | i <= k <= j || j <= k <= i ensures rules[k].name == rules[i].name {
      if k != i && k != j {
        var (lo, hi) := if i < j then (i, j) else (j, i);
        assert rules[lo].name <= rules[k].name <= rules[hi].name;
      }
    }
  }

  /** No occurrence of the name lies strictly between `o` and `Next(o)`, and none follows `o` when
      there is no next one. */
  lemma NextIsSuccessor(rules: seq<Rule>, o: Occurrence, m: Occurrence)
    requires Ready(rules) && In(rules, o)
    ensures var n := Next(rules, o);
      && (n.Some? ==> Of(rules, rules[o.rule].name, n.value) && Before(o, n.value))
      && (Of(rules, rules[o.rule].name, m) && Before(o, m) ==> n.Some? && (m == n.value || Before(n.value, m)))
  {
    hide Ready;
    var r := o.rule;
    if !LastOfName(rules, r) {
      Neighbours(rules, r, r + 1);
    }
    var g := GroupFirst(rules, r);
    Neighbours(rules, g, r);
    if Of(rules, rules[r].name, m) && Before(o, m) {
      Neighbours(rules, r, m.rule);
      if m.rule > r {
        Neighbours(rules, r + 1, m.rule);
      }
      if m.rule < g {
        Neighbours(rules, m.rule, g - 1);
        Neighbours(rules, g - 1, g);
      }
    }
  }

  lemma PreviousIsPredecessor(rules: seq<Rule>, o: Occurrence, m: Occurrence)
    requires Ready(rules) && In(rules, o)
    ensures var p := Previous(rules, o);
      && (p.Some? ==> Of(rules, rules[o.rule].name, p.value) && Before(p.value, o))
      && (Of(rules, rules[o.rule].name, m) && Before(m, o) ==> p.Some? && (m == p.value || Before(m, p.value)))
  {
    hide Ready;
    var r := o.rule;
    if !FirstOfName(rules, r) {
      Neighbours(rules, r - 1, r);
    }
    var g := GroupLast(rules, r);
    Neighbours(rules, r, g);
    if Of(rules, rules[r].name, m) && Before(m, o) {
      Neighbours(rules, r, m.rule);
      if m.rule < r {
        Neighbours(rules, m.rule, r - 1);
      }
      if m.rule > g {
        Neighbours(rules, g + 1, m.rule);
        Neighbours(rules, g, g + 1);
      }
    }
  }

  /** `find_previous_rule` undoes `find_next_rule`. */
  lemma PreviousUndoesNext(rules: seq<Rule>, o: Occurrence)
    requires Ready(rules) && In(rules, o) && Next(rules, o).Some?
    ensures In(rules, Next(rules, o).value)
    ensures Previous(rules, Next(rules, o).value) == Some(o)
  {
    var n := Next(rules, o).value;
    NextIsSuccessor(rules, o, o);
    PreviousIsPredecessor(rules, n, o);
    NextIsSuccessor(rules, o, Previous(rules, n).value);
  }

  /** `find_next_rule` undoes `find_previous_rule`. */
  lemma NextUndoesPrevious(rules: seq<Rule>, o: Occurrence)
    requires Ready(rules) && In(rules, o) && Previous(rules, o).Some?
    ensures In(rules, Previous(rules, o).value)
    ensures Next(rules, Previous(rules, o).value) == Some(o)
  {
    var p := Previous(rules, o).value;
    PreviousIsPredecessor(rules, o, o);
    NextIsSuccessor(rules, p, o);
    PreviousIsPredecessor(rules, o, Next(rules, p).value);
  }

  // ----- The whole walk -----

  function MaxYear(rules: seq<Rule>): (y: int)
    ensures forall r | r in rules :: r.endYear <= y
  {
    if rules == [] then 0
    else
      var rest := MaxYear(rules[1..]);
      assert forall r | r in rules :: r == rules[0] || r in rules[1..];
      if rules[0].endYear > rest then rules[0].endYear else rest
  }

  /** Everything met by calling `find_next_rule` over and over, starting with `o`. */
  ghost function Walk(rules: seq<Rule>, o: Occurrence): seq<Occurrence>
    requires Ready(rules) && In(rules, o)
    decreases MaxYear(rules) - o.year, |rules| - o.rule
  {
    NextIsSuccessor(rules, o, o);
    var n := Next(rules, o);
    if n.None? then [o]
    else
      assert rules[n.value.rule] in rules;
      [o] + Walk(rules, n.value)
  }

  /** The walk is in strictly increasing order and meets exactly the occurrences that are not before `o`. */
  lemma {:induction false} WalkMeetsAll(rules: seq<Rule>, o: Occurrence)
    requires Ready(rules) && In(rules, o)
    ensures forall i, j | 0 <= i < j < |Walk(rules, o)| :: Before(Walk(rules, o)[i], Walk(rules, o)[j])
    ensures forall m :: m in Walk(rules, o) <==> Of(rules, rules[o.rule].name, m) && !Before(m, o)
    decreases MaxYear(rules) - o.year, |rules| - o.rule
  {
    hide Ready, Next;
    NextIsSuccessor(rules, o, o);
    var n := Next(rules, o);
    if n.Some? {
      assert rules[n.value.rule] in rules;
      WalkMeetsAll(rules, n.value);
    }
    forall m ensures m in Walk(rules, o) <==> Of(rules, rules[o.rule].name, m) && !Before(m, o) {
      NextIsSuccessor(rules, o, m);
      assert m in Walk(rules, o) <==> m == o || (n.Some? && m in Walk(rules, n.value));
    }
  }

  /** Starting at the first rule of a name in its first year, the walk meets every (rule, year) pair
      of the name exactly once, in order, and then ends. */
  lemma WalkFromFirst(rules: seq<Rule>, first: nat)
    requires Ready(rules) && first < |rules| && FirstOfName(rules, first)
    ensures var o := Occurrence(first, rules[first].startYear);
      && In(rules, o)
      && (forall i, j | 0 <= i < j < |Walk(rules, o)| :: Before(Walk(rules, o)[i], Walk(rules, o)[j]))
      && (forall m :: m in Walk(rules, o) <==> Of(rules, rules[first].name, m))
  {
    assert rules[first] in rules;
    var o := Occurrence(first, rules[first].startYear);
    WalkMeetsAll(rules, o);
    forall m | Of(rules, rules[first].name, m) ensures !Before(m, o) {
      Neighbours(rules, first, m.rule);
    }
  }
}
