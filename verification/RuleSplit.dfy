/** Rewriting a sorted run of rules of one name until no two of them overlap. The lemmas work on a
    `tail`: the part of the run that starts at the rule the outer loop is looking at. */
module RuleSplit {
  import opened Sequences
  import opened TzRule

  predicate Overlaps(x: Rule, y: Rule)
    requires x.startYear <= y.startYear
  {
    y.startYear <= x.endYear && !SameRange(x, y)
  }

  /** What `split` asserts about the two rules it is called with. */
  predicate Splittable(a: Rule, b: Rule) {
    a.startYear <= b.startYear <= a.endYear && !SameRange(a, b)
  }

  /** What becomes of the earlier rule `a`, and of the later rule `b` with the rules inserted
      around it. */
  function Pieces(a: Rule, b: Rule): (p: (Rule, seq<Rule>))
    requires Splittable(a, b)
  {
    if a.startYear == b.startYear then
      if b.endYear < a.endYear then
        (a.For(a.startYear, b.endYear), [b, a.For(b.endYear + 1, a.endYear)])
      else
        (a, [b.For(b.startYear, a.endYear), b.For(a.endYear + 1, b.endYear)])
    else
      var a' := a.For(a.startYear, b.startYear - 1);
      if b.endYear < a.endYear then
        (a', [a.For(b.startYear, b.endYear), b, a.For(b.endYear + 1, a.endYear)])
      else if b.endYear > a.endYear then
        (a', [a.For(b.startYear, a.endYear), b.For(b.startYear, a.endYear), b.For(a.endYear + 1, b.endYear)])
      else
        (a', [a.For(b.startYear, a.endYear), b])
  }

  function SplitTail(s: seq<Rule>, k: nat): seq<Rule>
    requires 0 < k < |s| && Splittable(s[0], s[k])
  {
    var (a', p) := Pieces(s[0], s[k]);
    [a'] + s[1..k] + p + s[k + 1..]
  }

  // ----- Conservation -----

  /** A quantity measured on one rule. */
  type Weight = Rule -> int

  ghost predicate CutKeeps(w: Weight, r: Rule, lo: int, mid: int, hi: int) {
    w(r.For(lo, mid)) + w(r.For(mid + 1, hi)) == w(r.For(lo, hi))
  }

  /** Cutting the years of a rule in two does not change the total. */
  ghost predicate Additive(w: Weight) {
    forall r, lo, mid, hi | lo <= mid < hi :: CutKeeps(w, r, lo, mid, hi)
  }

  function Sum(s: seq<Rule>, w: Weight): int {
    if s == [] then 0 else w(s[0]) + Sum(s[1..], w)
  }

  /** Counts whether a rule applies the body of `body` in `year`. */
  function InYear(body: Rule, year: int): Weight {
    (r: Rule) => if r.For(0, 0) == body.For(0, 0) && r.startYear <= year <= r.endYear then 1 else 0
  }

  function Years(): Weight {
    (r: Rule) => r.endYear - r.startYear + 1
  }

  /** Every (rule body, year) pair occurs equally often in both sequences. */
  ghost predicate SameOccurrences(s: seq<Rule>, t: seq<Rule>) {
    forall body, year :: Sum(s, InYear(body, year)) == Sum(t, InYear(body, year))
  }

  lemma InYearAdditive(body: Rule, year: int)
    ensures Additive(InYear(body, year))
  {
    forall r: Rule, lo, mid, hi | lo <= mid < hi ensures CutKeeps(InYear(body, year), r, lo, mid, hi) {
      assert forall x, y :: r.For(x, y).For(0, 0) == r.For(0, 0);
    }
  }

  lemma {:induction false} SumConcat(s: seq<Rule>, t: seq<Rule>, w: Weight)
    ensures Sum(s + t, w) == Sum(s, w) + Sum(t, w)
  {
    if s == [] {
      assert s + t == t;
    } else {
      assert (s + t)[1..] == s[1..] + t;
      SumConcat(s[1..], t, w);
    }
  }

  lemma SumRemove(t: seq<Rule>, j: nat, w: Weight)
    requires j < |t|
    ensures Sum(t, w) == w(t[j]) + Sum(t[..j] + t[j + 1..], w)
  {
    SumConcat(t[..j], t[j..], w);
    SumConcat(t[..j], t[j + 1..], w);
    assert t[..j] + t[j..] == t;
    assert t[j..][1..] == t[j + 1..];
  }

  lemma {:induction false} SumPermutation(s: seq<Rule>, t: seq<Rule>, w: Weight)
    requires multiset(s) == multiset(t)
    ensures Sum(s, w) == Sum(t, w)
  {
    if s == [] {
      assert |multiset(t)| == 0;
    } else {
      var j := PositionOf(s[0], t, s);
      DropOne(s, t, j);
      SumPermutation(s[1..], t[..j] + t[j + 1..], w);
      SumRemove(t, j, w);
    }
  }

  /** Rules cover at least one year each, so their number is bounded by the years they cover. */
  lemma {:induction false} LengthBound(s: seq<Rule>)
    requires forall r | r in s :: r.Valid()
    ensures |s| <= Sum(s, Years())
  {
    if s != [] {
      assert s[0] in s;
      LengthBound(s[1..]);
    }
  }

  /** A split keeps every additive quantity, hence the (rule body, year) pairs. */
  lemma PiecesConserve(a: Rule, b: Rule, w: Weight)
    requires a.Valid() && b.Valid() && Splittable(a, b) && Additive(w)
    ensures w(Pieces(a, b).0) + Sum(Pieces(a, b).1, w) == w(a) + w(b)
  {
    assert a.For(a.startYear, a.endYear) == a && b.For(b.startYear, b.endYear) == b;
    if a.startYear < b.startYear {
      assert CutKeeps(w, a, a.startYear, b.startYear - 1, a.endYear);
    }
    if b.endYear < a.endYear {
      assert CutKeeps(w, a, b.startYear, b.endYear, a.endYear);
    } else if b.endYear > a.endYear {
      assert CutKeeps(w, b, b.startYear, a.endYear, b.endYear);
    }
    SumOfFew(Pieces(a, b).1, w);
  }

  lemma SumOfFew(p: seq<Rule>, w: Weight)
    requires |p| == 2 || |p| == 3
    ensures Sum(p, w) == w(p[0]) + w(p[1]) + if |p| == 3 then w(p[2]) else 0
  {
    var q := p[1..][1..];
    assert Sum(p, w) == w(p[0]) + Sum(p[1..], w);
    assert Sum(p[1..], w) == w(p[1]) + Sum(q, w);
    if |p| == 3 {
      assert q[1..] == [];
      assert Sum(q, w) == w(q[0]) + Sum(q[1..], w);
    }
  }

  lemma SumAround(x: Rule, mid: seq<Rule>, p: seq<Rule>, rest: seq<Rule>, w: Weight)
    ensures Sum([x] + mid + p + rest, w) == w(x) + Sum(mid, w) + Sum(p, w) + Sum(rest, w)
  {
    SumConcat([x] + mid + p, rest, w);
    SumConcat([x] + mid, p, w);
    assert ([x] + mid)[1..] == mid;
  }

  lemma SplitConserves(s: seq<Rule>, k: nat, w: Weight)
    requires 0 < k < |s| && Splittable(s[0], s[k]) && s[0].Valid() && s[k].Valid() && Additive(w)
    ensures Sum(SplitTail(s, k), w) == Sum(s, w)
  {
    hide Pieces, Additive, Sum;
    var (a', p) := Pieces(s[0], s[k]);
    PiecesConserve(s[0], s[k], w);
    SumAround(a', s[1..k], p, s[k + 1..], w);
    SumAround(s[0], s[1..k], [s[k]], s[k + 1..], w);
    AroundIndex(s, k);
    SumOfOne(s[k], w);
  }

  lemma SumOfOne(r: Rule, w: Weight)
    ensures Sum([r], w) == w(r)
  {
  }

  // ----- What one pass of the outer loop establishes -----

  /** `x` is no obstacle for the earlier rule `a`: it starts after `a` ends, or it starts with `a`
      and lasts at least as long. */
  predicate Clear(a: Rule, x: Rule) {
    x.startYear > a.endYear || (x.startYear == a.startYear && x.endYear >= a.endYear)
  }

  /** Some later rule starts in the year after `a` ends, which forces every later rule that
      outlasts `a` to be cut there too. */
  ghost predicate CutOff(a: Rule, later: seq<Rule>) {
    exists m | m in later :: m.startYear == a.endYear + 1
  }

  predicate Outlasts(a: Rule, x: Rule) {
    x.startYear == a.startYear && x.endYear > a.endYear
  }

  ghost predicate Done(a: Rule, later: seq<Rule>) {
    && (forall x | x in later :: Clear(a, x))
    && ((exists x | x in later :: Outlasts(a, x)) ==> CutOff(a, later))
  }

  ghost predicate DoneAt(s: seq<Rule>, i: nat)
    requires i < |s|
  {
    Done(s[i], s[i + 1..])
  }

  /** The inner loop has compared `s[0]` with the rules before position `k`. */
  ghost predicate Checked(s: seq<Rule>, k: nat)
    requires s != []
  {
    && (forall q | 0 < q < k && q < |s| :: Clear(s[0], s[q]))
    && (CutOff(s[0], s[1..]) || forall q | 0 < q < k && q < |s| :: !Outlasts(s[0], s[q]))
  }

  ghost predicate OneName(s: seq<Rule>) {
    forall i, j | 0 <= i < j < |s| :: s[i].name == s[j].name
  }

  /** What the sorted pieces `t` contain. */
  lemma SplitMembers(s: seq<Rule>, k: nat, t: seq<Rule>)
    requires 0 < k < |s| && Splittable(s[0], s[k])
    requires multiset(t) == multiset(SplitTail(s, k))
    ensures var (a', p) := Pieces(s[0], s[k]);
      forall x :: x in t <==> x == a' || x in s[1..k] || x in p || x in s[k + 1..]
    ensures forall x :: x in s <==> x == s[0] || x in s[1..k] || x == s[k] || x in s[k + 1..]
  {
    var (a', p) := Pieces(s[0], s[k]);
    SameMembers(t, SplitTail(s, k));
    MembersAround(a', s[1..k], p, s[k + 1..]);
    MembersAround(s[0], s[1..k], [s[k]], s[k + 1..]);
    assert s == [s[0]] + s[1..k] + [s[k]] + s[k + 1..];
  }

  lemma PiecesStayClear(c: Rule, a: Rule, b: Rule, x: Rule)
    requires Splittable(a, b) && a.Valid() && b.Valid() && c.Valid()
    requires x == Pieces(a, b).0 || x in Pieces(a, b).1
    ensures x.Valid() && x.name in {a.name, b.name}
    ensures Clear(c, a) && Clear(c, b) ==> Clear(c, x)
    ensures Clear(c, a) && Clear(c, b) && Outlasts(c, x) ==> Outlasts(c, a) || Outlasts(c, b)
    ensures Pieces(a, b).0.startYear == a.startYear && Pieces(a, b).1[0].startYear == b.startYear
  {
  }

  lemma DoneAfterSplit(c: Rule, pre: seq<Rule>, s: seq<Rule>, k: nat, t: seq<Rule>)
    requires 0 < k < |s| && Splittable(s[0], s[k]) && s[0].Valid() && s[k].Valid()
    requires multiset(t) == multiset(SplitTail(s, k))
    requires c.Valid() && Done(c, pre + s)
    ensures Done(c, pre + t)
  {
    SplitMembers(s, k, t);
    var (a', p) := Pieces(s[0], s[k]);
    assert s[0] in pre + s && s[k] in pre + s;
    forall x | x in pre + t && x !in pre + s
      ensures Clear(c, x) && (Outlasts(c, x) ==> Outlasts(c, s[0]) || Outlasts(c, s[k]))
    {
      PiecesStayClear(c, s[0], s[k], x);
    }
    if x :| x in pre + t && Outlasts(c, x) {
      assert CutOff(c, pre + s);
      var m :| m in pre + s && m.startYear == c.endYear + 1;
      PiecesStayClear(c, s[0], s[k], a');
      assert a' in pre + t && p[0] in pre + t;
      assert m in pre + t || m == s[0] || m == s[k];
    }
  }

  /** The rule that ends up first has the range the split gave to the first rule. */
  lemma FirstRange(s: seq<Rule>, k: nat, t: seq<Rule>)
    requires 0 < k < |s| && Splittable(s[0], s[k]) && s[0].Valid() && s[k].Valid()
    requires Sorted(s) && s[0].name == s[k].name
    requires Sorted(t) && multiset(t) == multiset(SplitTail(s, k))
    ensures t != [] && SameRange(t[0], Pieces(s[0], s[k]).0)
  {
    var (a', p) := Pieces(s[0], s[k]);
    var m := if Less(p[0], a') then p[0] else a';
    assert m in t && t[0] in t by {
      SplitMembers(s, k, t);
    }
    MemberCase(s, k, t, t[0]);
    PiecesLeast(s[0], s[k], t[0]);
    SortedFirst(t, m);
  }

  lemma SortedFirst(t: seq<Rule>, m: Rule)
    requires Sorted(t) && m in t && !Less(t[0], m)
    ensures SameRange(t[0], m)
  {
    var j :| 0 <= j < |t| && t[j] == m;
    assert j == 0 || !Less(t[j], t[0]);
  }

  lemma MemberCase(s: seq<Rule>, k: nat, t: seq<Rule>, x: Rule)
    requires 0 < k < |s| && Splittable(s[0], s[k]) && Sorted(s)
    requires multiset(t) == multiset(SplitTail(s, k)) && x in t
    ensures x == Pieces(s[0], s[k]).0 || x in Pieces(s[0], s[k]).1 || !Less(x, s[0])
  {
    SplitMembers(s, k, t);
  }

  lemma PiecesLeast(a: Rule, b: Rule, x: Rule)
    requires Splittable(a, b) && a.Valid() && b.Valid() && a.name == b.name && !Less(b, a)
    requires x == Pieces(a, b).0 || x in Pieces(a, b).1 || !Less(x, a)
    ensures var (a', p) := Pieces(a, b);
      var m := if Less(p[0], a') then p[0] else a';
      !Less(x, m) && SameRange(m, a')
  {
  }

  /** If the first `n` rules of `u` all come before each rule marked `bad`, then in the sorted
      order no bad rule sits among the first `n`. */
  lemma PositionBound(u: seq<Rule>, t: seq<Rule>, n: nat, q: nat)
    requires n <= |u| && q < |t| && Sorted(t) && multiset(t) == multiset(u)
    requires forall j | 0 <= j < n :: Less(u[j], t[q])
    ensures q >= n
  {
    var first, before := multiset(u[..n]), multiset(t[..q]);
    assert u == u[..n] + u[n..] && t == t[..q] + t[q..];
    assert multiset(u) == first + multiset(u[n..]) && multiset(t) == before + multiset(t[q..]);
    forall y | y in first ensures first[y] <= before[y] {
      assert y in u[..n];
      assert Less(y, t[q]);
      assert y !in t[q..];
      assert y !in multiset(t[q..]);
      assert multiset(u)[y] == first[y] + multiset(u[n..])[y];
      assert multiset(t)[y] == before[y] + multiset(t[q..])[y];
    }
    assert first <= before;
    assert before == first + (before - first);
  }

  lemma PiecesClear(a: Rule, b: Rule, x: Rule)
    requires Splittable(a, b) && a.Valid() && b.Valid()
    requires x in Pieces(a, b).1 || x == Pieces(a, b).0
    ensures Clear(Pieces(a, b).0, x)
  {
  }

  lemma PiecesCutOff(a: Rule, b: Rule) returns (m: Rule)
    requires Splittable(a, b) && a.Valid() && b.Valid()
    ensures m in Pieces(a, b).1 && m.startYear == Pieces(a, b).0.endYear + 1
  {
    var p := Pieces(a, b).1;
    m := if a.startYear == b.startYear then p[1] else p[0];
  }

  /** A rule that still has to be compared comes after everything compared so far. */
  lemma UncheckedIsLater(s: seq<Rule>, k: nat, j: nat, i: nat)
    requires 0 < k < |s| && Splittable(s[0], s[k]) && AllValid(s)
    requires Sorted(s) && OneName(s) && Checked(s, k)
    requires 0 < j < |s| && !Clear(Pieces(s[0], s[k]).0, s[j]) && i <= k
    ensures j > k && Less(SplitTail(s, k)[i], s[j])
  {
    var (a, b, x) := (s[0], s[k], s[j]);
    var (a', p) := Pieces(a, b);
    assert a in s && b in s && x in s;
    assert a.name == b.name == x.name;
    assert !Less(x, a);
    PiecesClear(a, b, p[0]);
    if j > k {
      assert !Less(x, b);
      if 0 < i < k {
        assert s[i] in s && Clear(a, s[i]);
        assert !Less(x, s[i]) && !Less(b, s[i]) && s[i].name == x.name;
      }
    }
  }

  lemma ClearAfterSplit(s: seq<Rule>, k: nat, t: seq<Rule>, q: nat)
    requires 0 < k < |s| && Splittable(s[0], s[k]) && AllValid(s)
    requires Sorted(s) && OneName(s) && Checked(s, k)
    requires Sorted(t) && multiset(t) == multiset(SplitTail(s, k)) && q <= k && q < |t|
    ensures Clear(Pieces(s[0], s[k]).0, t[q])
  {
    assert s[0] in s && s[k] in s;
    if !Clear(Pieces(s[0], s[k]).0, t[q]) {
      var j := FromTheTail(s, k, t, t[q]);
      forall i | 0 <= i < k + 1 ensures Less(SplitTail(s, k)[i], t[q]) {
        UncheckedIsLater(s, k, j, i);
      }
      PositionBound(SplitTail(s, k), t, k + 1, q);
    }
  }

  lemma FromTheTail(s: seq<Rule>, k: nat, t: seq<Rule>, x: Rule) returns (j: nat)
    requires 0 < k < |s| && Splittable(s[0], s[k]) && s[0].Valid() && s[k].Valid()
    requires multiset(t) == multiset(SplitTail(s, k)) && x in t && !Clear(Pieces(s[0], s[k]).0, x)
    ensures 0 < j < |s| && s[j] == x
  {
    SplitMembers(s, k, t);
    PiecesClearAll(s[0], s[k]);
    assert x in s[1..k] || x in s[k + 1..];
    j :| 0 < j < |s| && s[j] == x;
  }

  lemma CheckedAfterSplit(s: seq<Rule>, k: nat, t: seq<Rule>)
    requires 0 < k < |s| && Splittable(s[0], s[k]) && AllValid(s)
    requires Sorted(s) && OneName(s) && Checked(s, k)
    requires Sorted(t) && multiset(t) == multiset(SplitTail(s, k))
    ensures t != [] && Checked(t, k + 1)
  {
    var (a, b) := (s[0], s[k]);
    assert a in s && b in s && a.name == b.name;
    FirstRange(s, k, t);
    forall q | 0 < q < k + 1 && q < |t| ensures Clear(t[0], t[q]) {
      ClearAfterSplit(s, k, t, q);
    }
    var m := PiecesCutOff(a, b);
    assert m in t by {
      SplitMembers(s, k, t);
    }
    assert m in t[1..] by {
      FirstNotLater(a, b, t[0], m);
      assert t == [t[0]] + t[1..];
    }
  }

  lemma PiecesClearAll(a: Rule, b: Rule)
    requires Splittable(a, b) && a.Valid() && b.Valid()
    ensures forall x | x in Pieces(a, b).1 || x == Pieces(a, b).0 :: Clear(Pieces(a, b).0, x)
  {
  }

  lemma FirstNotLater(a: Rule, b: Rule, x: Rule, m: Rule)
    requires Splittable(a, b) && a.Valid() && b.Valid()
    requires SameRange(x, Pieces(a, b).0) && m.startYear == Pieces(a, b).0.endYear + 1
    ensures x != m
  {
  }

  // ----- The loops -----

  /** The outer loop stands at `s[0]`, with `front` behind it; the inner loop is about to look at `s[k]`. */
  ghost predicate PassInv(front: seq<Rule>, s: seq<Rule>, k: nat) {
    && s != [] && Sorted(s) && OneName(front + s) && AllValid(front + s) && Checked(s, k)
    && forall i | 0 <= i < |front| :: Done(front[i], front[i + 1..] + s)
  }

  lemma SplitKeepsShape(front: seq<Rule>, s: seq<Rule>, k: nat, t: seq<Rule>)
    requires 0 < k < |s| && Splittable(s[0], s[k]) && OneName(front + s) && AllValid(front + s)
    requires multiset(t) == multiset(SplitTail(s, k))
    ensures OneName(front + t) && AllValid(front + t)
  {
    SplitMembers(s, k, t);
    var name := s[0].name;
    assert (front + s)[|front|] == s[0] && (front + s)[|front| + k] == s[k];
    assert forall x | x in front + s :: x.name == name;
    forall x | x in front + t ensures x.name == name && x.Valid() {
      if x !in front + s {
        assert s[0] in front + s && s[k] in front + s;
        PiecesStayClear(s[0], s[0], s[k], x);
      }
    }
    assert forall i | 0 <= i < |front + t| :: (front + t)[i] in front + t;
  }

  lemma SplitKeepsSum(front: seq<Rule>, s: seq<Rule>, k: nat, t: seq<Rule>, w: Weight)
    requires 0 < k < |s| && Splittable(s[0], s[k]) && AllValid(s) && Additive(w)
    requires multiset(t) == multiset(SplitTail(s, k))
    ensures Sum(front + t, w) == Sum(front + s, w)
  {
    assert s[0] in s && s[k] in s;
    SplitConserves(s, k, w);
    SumPermutation(SplitTail(s, k), t, w);
    SumConcat(front, s, w);
    SumConcat(front, t, w);
  }

  lemma PassStep(front: seq<Rule>, s: seq<Rule>, k: nat, t: seq<Rule>)
    requires PassInv(front, s, k) && 0 < k < |s| && Splittable(s[0], s[k])
    requires Sorted(t) && multiset(t) == multiset(SplitTail(s, k))
    ensures PassInv(front, t, k + 1)
    ensures SameOccurrences(front + t, front + s)
    ensures Sum(front + t, Years()) == Sum(front + s, Years())
  {
    SplitKeepsShape(front, s, k, t);
    assert forall x | x in s :: x in front + s;
    forall i, j | 0 <= i < j < |s| ensures s[i].name == s[j].name {
      assert (front + s)[|front| + i] == s[i] && (front + s)[|front| + j] == s[j];
    }
    CheckedAfterSplit(s, k, t);
    forall i | 0 <= i < |front| ensures Done(front[i], front[i + 1..] + t) {
      assert front[i] in front + s && s[0] in s && s[k] in s;
      DoneAfterSplit(front[i], front[i + 1..], s, k, t);
    }
    forall body, year ensures Sum(front + t, InYear(body, year)) == Sum(front + s, InYear(body, year)) {
      InYearAdditive(body, year);
      SplitKeepsSum(front, s, k, t, InYear(body, year));
    }
    assert Additive(Years());
    SplitKeepsSum(front, s, k, t, Years());
  }

  lemma PassEnd(front: seq<Rule>, s: seq<Rule>)
    requires PassInv(front, s, |s|)
    ensures forall i | 0 <= i <= |front| :: DoneAt(front + s, i)
  {
    assert Done(s[0], s[1..]) by {
      assert forall x | x in s[1..] :: exists q | 0 < q < |s| :: s[q] == x;
    }
    forall i | 0 <= i <= |front| ensures DoneAt(front + s, i) {
      assert (front + s)[i + 1..] == if i < |front| then front[i + 1..] + s else s[1..];
    }
  }

  lemma NextPass(front: seq<Rule>, s: seq<Rule>)
    requires PassInv(front, s, |s|) && |s| > 1
    ensures PassInv(front + [s[0]], s[1..], 1)
  {
    PassEnd(front, s);
    var front' := front + [s[0]];
    assert front' + s[1..] == front + s;
    forall i | 0 <= i < |front'| ensures Done(front'[i], front'[i + 1..] + s[1..]) {
      assert DoneAt(front + s, i);
      assert front'[i + 1..] + s[1..] == (front + s)[i + 1..] && front'[i] == (front + s)[i];
    }
  }

  lemma ClearOf(s: seq<Rule>, i: nat, j: nat)
    requires i < j < |s| && DoneAt(s, i)
    ensures Clear(s[i], s[j])
    ensures Outlasts(s[i], s[j]) ==> exists q | i < q < |s| :: s[q].startYear == s[i].endYear + 1
  {
    assert s[j] in s[i + 1..];
    if Outlasts(s[i], s[j]) {
      var m :| m in s[i + 1..] && m.startYear == s[i].endYear + 1;
    }
  }

  lemma DoneMeansApart(s: seq<Rule>, i: nat, j: nat)
    requires forall n | 0 <= n < |s| :: DoneAt(s, n)
    requires AllValid(s) && i < j < |s|
    ensures SameRange(s[i], s[j]) || s[i].endYear < s[j].startYear
    ensures s[i].startYear <= s[j].startYear
  {
    assert DoneAt(s, i) && DoneAt(s, j) && s[i] in s && s[j] in s;
    ClearOf(s, i, j);
    if Outlasts(s[i], s[j]) {
      var q :| i < q < |s| && s[q].startYear == s[i].endYear + 1;
      assert s[q] in s && DoneAt(s, q);
      if q < j {
        ClearOf(s, q, j);
      } else if j < q {
        ClearOf(s, j, q);
      }
    }
  }

  /** Once every rule is done, no two rules overlap and the run is ordered by starting year. */
  lemma DoneMeansOverlapFree(s: seq<Rule>)
    requires forall i | 0 <= i < |s| :: DoneAt(s, i)
    requires AllValid(s)
    ensures OverlapFree(s)
    ensures forall i, j | 0 <= i < j < |s| :: s[i].startYear <= s[j].startYear
  {
    forall i: nat, j: nat | i < j < |s|
      ensures SameRange(s[i], s[j]) || s[i].endYear < s[j].startYear
      ensures s[i].startYear <= s[j].startYear
    {
      DoneMeansApart(s, i, j);
    }
  }

  lemma SameOccurrencesTrans(s: seq<Rule>, t: seq<Rule>, u: seq<Rule>)
    requires s == t || SameOccurrences(s, t)
    requires t == u || SameOccurrences(t, u)
    ensures SameOccurrences(s, u)
  {
  }

  lemma PassComparable(front: seq<Rule>, s: seq<Rule>, k: nat, q: nat)
    requires PassInv(front, s, k) && 0 < q < |s|
    ensures s[0].startYear <= s[q].startYear
    ensures forall x | x in front + s :: x.Valid()
  {
    assert (front + s)[|front|] == s[0] && (front + s)[|front| + q] == s[q];
    assert !Less(s[q], s[0]);
  }

  lemma PassNextCheck(front: seq<Rule>, s: seq<Rule>, k: nat)
    requires PassInv(front, s, k) && 0 < k < |s|
    requires s[0].startYear <= s[k].startYear && !Overlaps(s[0], s[k])
    ensures PassInv(front, s, k + 1)
  {
    assert (front + s)[|front|] == s[0] && s[0] in front + s;
    assert Clear(s[0], s[k]) && !Outlasts(s[0], s[k]);
    forall q | 0 < q < k + 1 && q < |s| && (Outlasts(s[0], s[q]) || !Clear(s[0], s[q]))
      ensures CutOff(s[0], s[1..]) && Clear(s[0], s[q])
    {
      assert q < k;
    }
  }

  lemma FirstPass(run: seq<Rule>)
    requires run != [] && Sorted(run) && OneName(run) && AllValid(run)
    ensures PassInv([], run, 1) && [] + run == run && |run| <= Sum(run, Years()) && SameOccurrences(run, run)
  {
    assert [] + run == run;
    LengthBound(run);
  }

  lemma LastPass(front: seq<Rule>, s: seq<Rule>)
    requires PassInv(front, s, 1) && |s| == 1
    ensures OverlapFree(front + s) && OneName(front + s) && AllValid(front + s)
    ensures forall i, j | 0 <= i < j < |front + s| :: (front + s)[i].startYear <= (front + s)[j].startYear
  {
    PassEnd(front, s);
    DoneMeansOverlapFree(front + s);
  }

  lemma PassLength(front: seq<Rule>, s: seq<Rule>, k: nat)
    requires PassInv(front, s, k)
    ensures s != [] && |front| + |s| <= Sum(front + s, Years())
  {
    LengthBound(front + s);
  }
}
