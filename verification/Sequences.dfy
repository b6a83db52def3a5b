/** Cutting, joining and permuting sequences of anything. */
module Sequences {

  /** A sequence as what is in front and its last element. */
  lemma FrontAndLast<T>(s: seq<T>)
    requires s != []
    ensures var (front, last) := (s[..|s| - 1], s[|s| - 1]);
      s == front + [last] && forall x :: x in s <==> x in front || x == last
  {
  }

  lemma AroundIndex<T>(s: seq<T>, k: nat)
    requires 0 < k < |s|
    ensures s == [s[0]] + s[1..k] + [s[k]] + s[k + 1..]
  {
  }

  lemma AroundSlice<T>(done: seq<T>, front: seq<T>, key: seq<T>, tail: seq<T>)
    ensures var (data, i) := (done + (front + key + tail), |done| + |front|);
      data[..i] == done + front && data[i + |key|..] == tail
  {
  }

  lemma RegroupFour<T>(a: seq<T>, b: seq<T>, c: seq<T>, d: seq<T>)
    ensures a + (b + c + d) == a + b + c + d
  {
  }

  lemma RegroupNested<T>(a: seq<T>, b: seq<T>, c: seq<T>, d: seq<T>)
    ensures a + (b + (c + d)) == a + b + c + d
  {
  }

  lemma RegroupThree<T>(a: seq<T>, b: seq<T>, c: seq<T>)
    ensures a + b + c == a + (b + c)
  {
  }

  lemma SliceFront<T>(s: seq<T>, i: nat, j: nat, rest: seq<T>)
    requires i < j <= |s|
    ensures s[i..j] + rest == [s[i]] + (s[i + 1..j] + rest)
  {
  }

  lemma RegroupSix<T>(a: seq<T>, b: seq<T>, c: seq<T>, d: seq<T>, e: seq<T>, f: seq<T>)
    ensures a + b + c + d + e + f == a + (b + c + d + e + f)
  {
  }

  lemma ThreeParts<T>(left: seq<T>, mid: seq<T>, right: seq<T>)
    ensures var s, n := left + mid + right, |left + mid|;
      s[..|left|] == left && s[|left|..n] == mid && s[n..] == right
  {
  }

  lemma SameLength<T>(s: seq<T>, t: seq<T>)
    requires multiset(s) == multiset(t)
    ensures |s| == |t|
  {
    assert |multiset(s)| == |s| && |multiset(t)| == |t|;
  }

  lemma InsertAfter<T>(s: seq<T>, i: nat, k: nat, x: T, y: T, z: T)
    requires i < k < |s|
    ensures (s[..k + 1] + [z] + s[k + 1..])[k := y][i := x] == s[..i] + [x] + s[i + 1..k] + [y, z] + s[k + 1..]
  {
    assert (s[..k + 1] + [z] + s[k + 1..])[k := y] == s[..k] + [y, z] + s[k + 1..];
    assert s[..k][i := x] == s[..i] + [x] + s[i + 1..k];
  }

  lemma InsertBefore<T>(s: seq<T>, i: nat, k: nat, x: T, y: T)
    requires i < k < |s|
    ensures (s[..k] + [y] + s[k..])[i := x] == s[..i] + [x] + s[i + 1..k] + [y, s[k]] + s[k + 1..]
  {
    assert s[..k][i := x] == s[..i] + [x] + s[i + 1..k];
  }

  lemma InsertBoth<T>(s: seq<T>, i: nat, k: nat, x: T, y: T, w: T, z: T)
    requires i < k < |s|
    ensures var u := s[..k] + [y] + s[k..];
      (u[..k + 2] + [z] + u[k + 2..])[k + 1 := w][i := x] == s[..i] + [x] + s[i + 1..k] + [y, w, z] + s[k + 1..]
  {
    var u := s[..k] + [y] + s[k..];
    assert (u[..k + 2] + [z] + u[k + 2..])[k + 1 := w] == s[..k] + [y, w, z] + s[k + 1..];
    assert s[..k][i := x] == s[..i] + [x] + s[i + 1..k];
  }

  lemma InRun<T>(left: seq<T>, run: seq<T>, right: seq<T>, j: nat)
    ensures j < |run| ==> (left + run + right)[|left| + j] == run[j]
  {
  }

  lemma EraseFront<T>(left: seq<T>, run: seq<T>, right: seq<T>, a: nat)
    requires a <= |run|
    ensures var s := left + run + right;
      s[..|left|] + s[|left| + a..] == left + run[a..] + right
    ensures left + run[0..] + right == left + run + right
  {
    assert (left + run + right)[..|left|] == left && (left + run + right)[|left| + a..] == run[a..] + right;
    assert run[0..] == run && left + (run[a..] + right) == left + run[a..] + right;
  }

  lemma EraseBack<T>(left: seq<T>, run: seq<T>, right: seq<T>, n: nat)
    requires n <= |run|
    ensures var s := left + run + right;
      s[..|left| + n] + s[|left| + |run|..] == left + run[..n] + right
  {
    var s := left + run + right;
    assert s[..|left| + n] == left + run[..n] && s[|left| + |run|..] == right;
  }

  lemma AppendIff<X>(a: seq<X>, x: X, b: seq<X>, y: X)
    requires |a| == |b|
    ensures a + [x] == b + [y] <==> a == b && x == y
  {
    assert (a + [x])[..|a|] == a && (b + [y])[..|b|] == b;
  }

  lemma SameMembers<T>(t: seq<T>, u: seq<T>)
    requires multiset(t) == multiset(u)
    ensures forall x :: x in t <==> x in u
  {
    assert forall x :: x in t <==> x in multiset(t);
  }

  lemma DropOne<T>(s: seq<T>, t: seq<T>, j: nat)
    requires multiset(s) == multiset(t) && s != [] && j < |t| && t[j] == s[0]
    ensures multiset(s[1..]) == multiset(t[..j] + t[j + 1..])
  {
    assert s == [s[0]] + s[1..];
    assert t == t[..j] + ([t[j]] + t[j + 1..]);
    assert multiset(s) - multiset{s[0]} == multiset(s[1..]);
    assert multiset(t) - multiset{t[j]} == multiset(t[..j] + t[j + 1..]);
  }

  lemma PositionOf<T>(x: T, t: seq<T>, s: seq<T>) returns (j: nat)
    requires x in s && multiset(s) == multiset(t)
    ensures j < |t| && t[j] == x
  {
    assert x in multiset(t);
    j :| j < |t| && t[j] == x;
  }

  lemma MembersAround<T>(x: T, mid: seq<T>, p: seq<T>, rest: seq<T>)
    ensures forall y :: y in [x] + mid + p + rest <==> y == x || y in mid || y in p || y in rest
  {
  }
}
