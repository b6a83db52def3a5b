/** Searching, splitting and joining of strings, as the string class needs it. */
module Strings {

  // ----- White space and digits -----

  predicate IsSpace(c: char) {
    c == ' ' || c == '\t' || c == '\n' || c == '\U{0B}' || c == '\U{0C}' || c == '\r'
  }

  predicate IsDigit(c: char) {
    '0' <= c <= '9'
  }

  /** The value of a string of decimal digits. */
  function Number(digits: string): nat
    requires forall k | 0 <= k < |digits| :: IsDigit(digits[k])
  {
    if digits == "" then 0
    else
      var c := digits[|digits| - 1];
      assert IsDigit(c);
      10 * Number(digits[..|digits| - 1]) + (c as int - '0' as int)
  }

  function TrimLeft(s: string): string {
    if s != "" && IsSpace(s[0]) then TrimLeft(s[1..]) else s
  }

  function TrimRight(s: string): string {
    if s != "" && IsSpace(s[|s| - 1]) then TrimRight(s[..|s| - 1]) else s
  }

  function Trim(s: string): string {
    TrimRight(TrimLeft(s))
  }

  // ----- Finding -----

  predicate OccursAt(s: string, key: string, p: nat) {
    p + |key| <= |s| && s[p..p + |key|] == key
  }

  /** `std::string::find`: the first occurrence at or after `from`, or -1. */
  function Find(s: string, key: string, from: nat): (p: int)
    ensures p == -1 || from <= p <= |s| - |key|
    decreases |s| - from
  {
    if from + |key| > |s| then -1
    else if s[from..from + |key|] == key then from
    else Find(s, key, from + 1)
  }

  lemma {:induction false} FindFirst(s: string, key: string, from: nat)
    ensures var p := Find(s, key, from);
      && (p != -1 ==> OccursAt(s, key, p))
      && forall q: nat | from <= q && (p == -1 || q < p) :: !OccursAt(s, key, q)
    decreases |s| - from
  {
    if from + |key| <= |s| && s[from..from + |key|] != key {
      FindFirst(s, key, from + 1);
    }
  }

  lemma OccursShift(a: string, b: string, key: string, p: nat)
    ensures OccursAt(a + b, key, |a| + p) <==> OccursAt(b, key, p)
  {
    if |a| + p + |key| <= |a + b| {
      assert (a + b)[|a| + p..|a| + p + |key|] == b[p..p + |key|];
    }
  }

  /** Searching behind a prefix is searching the rest. */
  lemma {:induction false} FindShift(a: string, b: string, key: string, k: nat)
    ensures Find(a + b, key, |a| + k) == if Find(b, key, k) == -1 then -1 else |a| + Find(b, key, k)
    decreases |b| - k
  {
    OccursShift(a, b, key, k);
    if k + |key| <= |b| && b[k..k + |key|] != key {
      FindShift(a, b, key, k + 1);
    }
  }

  // ----- Parts between delimiters -----

  /** The parts of `s` between the occurrences of `d`, found from left to right without overlap. */
  function Parts(s: string, d: string): (parts: seq<string>)
    requires d != ""
    ensures parts != []
    decreases |s|
  {
    var p := Find(s, d, 0);
    if p == -1 then [s] else [s[..p]] + Parts(s[p + |d|..], d)
  }

  /** The parts with `d` between any two neighbours. */
  function Interleave(parts: seq<string>, d: string): string
    requires parts != []
  {
    if |parts| == 1 then parts[0] else parts[0] + d + Interleave(parts[1..], d)
  }

  /** Leftmost, non-overlapping substitution of `value` for `key`. */
  function Substitute(s: string, key: string, value: string): string
    requires key != ""
    decreases |s|
  {
    var p := Find(s, key, 0);
    if p == -1 then s else s[..p] + value + Substitute(s[p + |key|..], key, value)
  }

  /** Interleaving the parts with the delimiter gives the string back, and no part contains it. */
  lemma {:induction false} PartsRestore(s: string, d: string)
    requires d != ""
    ensures Interleave(Parts(s, d), d) == s
    ensures forall part | part in Parts(s, d) :: Find(part, d, 0) == -1
    decreases |s|
  {
    hide Find;
    var p := Find(s, d, 0);
    FindFirst(s, d, 0);
    if p == -1 {
      assert Interleave([s], d) == s;
    } else {
      var rest := Parts(s[p + |d|..], d);
      PartsRestore(s[p + |d|..], d);
      assert s == s[..p] + d + s[p + |d|..];
      assert Parts(s, d)[1..] == rest;
      BeforeFirst(s, d, p);
    }
  }

  lemma BeforeFirst(s: string, d: string, p: nat)
    requires d != "" && p <= |s| && forall q: nat | q < p :: !OccursAt(s, d, q)
    ensures Find(s[..p], d, 0) == -1
  {
    var q := Find(s[..p], d, 0);
    FindFirst(s[..p], d, 0);
    if q != -1 {
      OccursInPrefix(s, p, d, q);
    }
  }

  lemma OccursInPrefix(s: string, p: nat, d: string, q: nat)
    requires p <= |s| && OccursAt(s[..p], d, q)
    ensures OccursAt(s, d, q)
  {
    assert s[..p][q..q + |d|] == s[q..q + |d|];
  }

  /** Substitution is splitting at the key and putting the value between the parts. */
  lemma {:induction false} SubstituteIsInterleave(s: string, key: string, value: string)
    requires key != ""
    ensures Substitute(s, key, value) == Interleave(Parts(s, key), value)
    decreases |s|
  {
    var p := Find(s, key, 0);
    if p != -1 {
      SubstituteIsInterleave(s[p + |key|..], key, value);
      var parts := Parts(s, key);
      assert parts[1..] == Parts(s[p + |key|..], key);
    }
  }

  function NonEmpty(parts: seq<string>): seq<string> {
    if parts == [] then [] else (if parts[0] == "" then [] else [parts[0]]) + NonEmpty(parts[1..])
  }

  // ----- Joining -----

  /** What the joining constructor builds: the delimiter is put in only behind non-empty text. */
  function Joined(parts: seq<string>, d: string): string {
    if parts == [] then ""
    else
      var front := Joined(parts[..|parts| - 1], d);
      (if front == "" then "" else front + d) + parts[|parts| - 1]
  }

  lemma {:induction false} InterleaveLast(parts: seq<string>, d: string)
    requires |parts| > 1
    ensures Interleave(parts, d) == Interleave(parts[..|parts| - 1], d) + d + parts[|parts| - 1]
  {
    var front := parts[..|parts| - 1];
    if |parts| > 2 {
      InterleaveLast(parts[1..], d);
      assert parts[1..][..|parts| - 2] == front[1..];
    } else {
      assert parts[1..] == [parts[1]] && front == [parts[0]];
    }
  }

  lemma {:induction false} JoinedIsInterleave(parts: seq<string>, d: string)
    requires parts != [] && parts[0] != ""
    ensures Joined(parts, d) == Interleave(parts, d) != ""
  {
    if |parts| > 1 {
      JoinedIsInterleave(parts[..|parts| - 1], d);
      InterleaveLast(parts, d);
    }
  }

  lemma {:induction false} JoinedDropsDelimiters(parts: seq<string>, d: string)
    requires |parts| > 1 && parts[0] == "" && d != ""
    ensures |Joined(parts, d)| < |Interleave(parts, d)|
  {
    var front := parts[..|parts| - 1];
    InterleaveLast(parts, d);
    if |parts| > 2 {
      JoinedDropsDelimiters(front, d);
    } else {
      assert front == [""] && Joined(front, d) == "";
    }
  }

  /** Joining the parts of a non-empty string restores it exactly when it does not start with the
      delimiter. */
  lemma JoinRestores(s: string, d: string)
    requires s != "" && d != ""
    ensures Joined(Parts(s, d), d) == s <==> !OccursAt(s, d, 0)
  {
    var parts := Parts(s, d);
    PartsRestore(s, d);
    if parts[0] != "" {
      JoinedIsInterleave(parts, d);
    } else {
      JoinedDropsDelimiters(parts, d);
    }
    FindFirst(s, d, 0);
  }
}
