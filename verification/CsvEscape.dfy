/** Escaping of CSV cell values in sequential rewriting passes. */
module CsvEscape {
  import opened Results

  // ----- The passes -----

  /** One pass of `escapeStringForCSV`: every `c` becomes `put`. */
  function ReplaceChar(s: string, c: char, put: string): string {
    if s == "" then "" else (if s[0] == c then put else [s[0]]) + ReplaceChar(s[1..], c, put)
  }

  /** One pass of `unescapeStringForCSV`: from the left, every backslash with `b` behind it becomes `put`. */
  function ReplacePair(s: string, b: char, put: char): string {
    if |s| >= 2 && s[0] == '\\' && s[1] == b then [put] + ReplacePair(s[2..], b, put)
    else if s == "" then ""
    else [s[0]] + ReplacePair(s[1..], b, put)
  }

  function Escape(s: string, addQuotes: bool): string {
    var r := ReplaceChar(s, '\\', "\\\\");
    var r := ReplaceChar(r, '"', "\\\"");
    var r := ReplaceChar(r, ',', "\\,");
    var r := ReplaceChar(r, '\n', "\\n");
    if addQuotes then "\"" + r + "\"" else r
  }

  /** Every comma has a backslash in front of it. */
  predicate CommasEscaped(s: string) {
    forall i | 0 <= i < |s| && s[i] == ',' :: i > 0 && s[i - 1] == '\\'
  }

  function UnescapePasses(s: string): string {
    var r := ReplacePair(s, 'n', '\n');
    var r := ReplacePair(r, ',', ',');
    var r := ReplacePair(r, '"', '"');
    ReplacePair(r, '\\', '\\')
  }

  function Unescape(s: string): Result<string> {
    if s == "" then Ok("")
    else if !CommasEscaped(s) then Err
    else Ok(UnescapePasses(s))
  }

  // ----- Escaping in one pass -----

  /** What stands for `c` while the first `stage` unescaping passes have been made. */
  function Code(c: char, stage: nat): (e: string)
    ensures 1 <= |e| <= 2
  {
    if c == '\n' && stage < 1 then "\\n"
    else if c == ',' && stage < 2 then "\\,"
    else if c == '"' && stage < 3 then "\\\""
    else if c == '\\' && stage < 4 then "\\\\"
    else [c]
  }

  function Coded(s: string, stage: nat): string {
    if s == "" then "" else Code(s[0], stage) + Coded(s[1..], stage)
  }

  lemma {:induction false} ReplaceCharConcat(s: string, t: string, c: char, put: string)
    ensures ReplaceChar(s + t, c, put) == ReplaceChar(s, c, put) + ReplaceChar(t, c, put)
  {
    if s == "" {
      assert s + t == t;
    } else {
      assert (s + t)[1..] == s[1..] + t;
      ReplaceCharConcat(s[1..], t, c, put);
    }
  }

  lemma EscapeConcat(s: string, t: string)
    ensures Escape(s + t, false) == Escape(s, false) + Escape(t, false)
  {
    var (s1, t1) := (ReplaceChar(s, '\\', "\\\\"), ReplaceChar(t, '\\', "\\\\"));
    var (s2, t2) := (ReplaceChar(s1, '"', "\\\""), ReplaceChar(t1, '"', "\\\""));
    var (s3, t3) := (ReplaceChar(s2, ',', "\\,"), ReplaceChar(t2, ',', "\\,"));
    ReplaceCharConcat(s, t, '\\', "\\\\");
    ReplaceCharConcat(s1, t1, '"', "\\\"");
    ReplaceCharConcat(s2, t2, ',', "\\,");
    ReplaceCharConcat(s3, t3, '\n', "\\n");
  }

  lemma ReplaceOne(a: char, c: char, put: string)
    ensures ReplaceChar([a], c, put) == if a == c then put else [a]
  {
    assert ReplaceChar([a][1..], c, put) == "";
  }

  lemma ReplaceTwo(a: char, b: char, c: char, put: string)
    requires a != c && b != c
    ensures ReplaceChar([a, b], c, put) == [a, b]
  {
    assert [a, b][1..] == [b];
    ReplaceOne(b, c, put);
  }

  lemma EscapeOne(c: char)
    ensures Escape([c], false) == Code(c, 0)
  {
    ReplaceOne(c, '\\', "\\\\");
    if c == '\\' {
      ReplaceTwo('\\', '\\', '"', "\\\"");
      ReplaceTwo('\\', '\\', ',', "\\,");
      ReplaceTwo('\\', '\\', '\n', "\\n");
    } else {
      ReplaceOne(c, '"', "\\\"");
      if c == '"' {
        ReplaceTwo('\\', '"', ',', "\\,");
        ReplaceTwo('\\', '"', '\n', "\\n");
      } else {
        ReplaceOne(c, ',', "\\,");
        if c == ',' {
          ReplaceTwo('\\', ',', '\n', "\\n");
        } else {
          ReplaceOne(c, '\n', "\\n");
        }
      }
    }
  }

  /** The four escaping passes amount to one substitution for each character. */
  lemma {:induction false} EscapeIsOnePass(s: string)
    ensures Escape(s, false) == Coded(s, 0)
  {
    hide Escape, Code;
    if s == "" {
      EscapeNone();
    } else {
      assert s == [s[0]] + s[1..];
      EscapeConcat([s[0]], s[1..]);
      EscapeOne(s[0]);
      EscapeIsOnePass(s[1..]);
    }
  }

  lemma EscapeNone()
    ensures Escape("", false) == ""
  {
  }

  // ----- The unescaping passes, one by one -----

  /** The character behind the backslash that pass `stage` looks for, and what it puts there. */
  function Marker(stage: nat): char
    requires 1 <= stage <= 4
  {
    if stage == 1 then 'n' else if stage == 2 then ',' else if stage == 3 then '"' else '\\'
  }

  function Resolved(stage: nat): char
    requires 1 <= stage <= 4
  {
    if stage == 1 then '\n' else Marker(stage)
  }

  predicate NoBackslashN(s: string) {
    forall i | 0 <= i < |s| - 1 :: s[i] == '\\' ==> s[i + 1] != 'n'
  }

  predicate EndsInBackslash(s: string) {
    s != "" && s[|s| - 1] == '\\'
  }

  /** A code in front of `rest`, in pass `stage`: it goes through to the next stage, unless it is that
      of a backslash which gets paired with the first character of `rest`. */
  lemma PassOne(c: char, rest: string, stage: nat)
    requires 1 <= stage <= 4
    requires c == '\\' && stage < 4 ==> rest == "" || rest[0] != Marker(stage)
    ensures ReplacePair(Code(c, stage - 1) + rest, Marker(stage), Resolved(stage)) ==
      Code(c, stage) + ReplacePair(rest, Marker(stage), Resolved(stage))
  {
    hide ReplacePair;
    var (e, b, r) := (Code(c, stage - 1), Marker(stage), Resolved(stage));
    if |e| == 1 {
      PairSkip(c, rest, b, r);
    } else {
      assert e + rest == [e[0]] + ([e[1]] + rest);
      if e[1] == b {
        PairMatch(rest, b, r);
      } else {
        PairSkip('\\', [e[1]] + rest, b, r);
        PairSkip(e[1], rest, b, r);
        assert [e[0]] + ([e[1]] + ReplacePair(rest, b, r)) == e + ReplacePair(rest, b, r);
      }
    }
  }

  lemma PairMatch(rest: string, b: char, r: char)
    ensures ReplacePair(['\\'] + ([b] + rest), b, r) == [r] + ReplacePair(rest, b, r)
  {
    assert (['\\'] + ([b] + rest))[2..] == rest;
  }

  lemma PairSkip(c: char, rest: string, b: char, r: char)
    requires c == '\\' ==> rest == "" || rest[0] != b
    ensures ReplacePair([c] + rest, b, r) == [c] + ReplacePair(rest, b, r)
  {
    assert ([c] + rest)[1..] == rest;
  }

  /** Pass `stage` resolves exactly its own codes. A tail without a leading marker may follow. */
  lemma {:induction false} Pass(s: string, tail: string, stage: nat)
    requires 1 <= stage <= 4 && NoBackslashN(s)
    requires tail == "" || (tail == "\"" && !EndsInBackslash(s))
    ensures ReplacePair(Coded(s, stage - 1) + tail, Marker(stage), Resolved(stage)) == Coded(s, stage) + tail
  {
    hide ReplacePair;
    if s == "" {
      assert Coded(s, stage - 1) + tail == tail && Coded(s, stage) + tail == tail;
      PassTail(tail, stage);
    } else {
      var rest := Coded(s[1..], stage - 1) + tail;
      assert Coded(s, stage - 1) + tail == Code(s[0], stage - 1) + rest;
      Pass(s[1..], tail, stage);
      PassOne(s[0], rest, stage);
      assert Coded(s, stage) + tail == Code(s[0], stage) + (Coded(s[1..], stage) + tail);
    }
  }

  lemma PassTail(tail: string, stage: nat)
    requires 1 <= stage <= 4 && (tail == "" || tail == "\"")
    ensures ReplacePair(tail, Marker(stage), Resolved(stage)) == tail
  {
    assert tail != "" ==> ReplacePair(tail[1..], Marker(stage), Resolved(stage)) == "";
  }

  lemma {:induction false} CodedFully(s: string)
    ensures Coded(s, 4) == s
  {
    if s != "" {
      CodedFully(s[1..]);
    }
  }

  lemma QuoteFirst(x: string, stage: nat)
    requires 1 <= stage <= 4
    ensures ReplacePair("\"" + x, Marker(stage), Resolved(stage)) == "\"" + ReplacePair(x, Marker(stage), Resolved(stage))
  {
    assert ("\"" + x)[1..] == x;
  }

  /** Unescaping an escaped string, possibly with a raw quotation mark in front and behind. */
  lemma PassesRestore(s: string, quoted: bool)
    requires NoBackslashN(s) && (quoted ==> !EndsInBackslash(s))
    ensures UnescapePasses(Wrapped(Coded(s, 0), quoted)) == Wrapped(s, quoted)
  {
    hide ReplacePair, Coded;
    var tail := if quoted then "\"" else "";
    Pass(s, tail, 1);
    Pass(s, tail, 2);
    Pass(s, tail, 3);
    Pass(s, tail, 4);
    CodedFully(s);
    if quoted {
      QuoteFirst(Coded(s, 0) + tail, 1);
      QuoteFirst(Coded(s, 1) + tail, 2);
      QuoteFirst(Coded(s, 2) + tail, 3);
      QuoteFirst(Coded(s, 3) + tail, 4);
      assert forall x :: "\"" + x + tail == "\"" + (x + tail);
    } else {
      assert forall x: string :: x + tail == x;
    }
  }

  lemma CommasConcat(a: string, b: string)
    requires CommasEscaped(a) && CommasEscaped(b)
    ensures CommasEscaped(a + b)
  {
    var s := a + b;
    forall i | 0 <= i < |s| && s[i] == ',' ensures i > 0 && s[i - 1] == '\\' {
      if i >= |a| {
        assert b[i - |a|] == ',';
      }
    }
  }

  lemma {:induction false} CodedCommas(s: string)
    ensures CommasEscaped(Coded(s, 0))
  {
    if s != "" {
      CodedCommas(s[1..]);
      CommasConcat(Code(s[0], 0), Coded(s[1..], 0));
    }
  }

  // ----- When unescaping undoes escaping -----

  function Count(s: string, c: char): nat {
    if s == "" then 0 else (if s[0] == c then 1 else 0) + Count(s[1..], c)
  }

  lemma {:induction false} CountConcat(a: string, b: string, c: char)
    ensures Count(a + b, c) == Count(a, c) + Count(b, c)
  {
    if a == "" {
      assert a + b == b;
    } else {
      assert (a + b)[1..] == a[1..] + b;
      CountConcat(a[1..], b, c);
    }
  }

  lemma CountCons(x: char, s: string, c: char)
    ensures Count([x] + s, c) == (if x == c then 1 else 0) + Count(s, c)
  {
    assert ([x] + s)[1..] == s;
  }

  lemma CountNone(c: char)
    ensures Count("", c) == 0
  {
  }

  lemma {:induction false} LaterPassesKeepCount(s: string, stage: nat, c: char)
    requires 2 <= stage <= 4 && (c == '\n' || c == 'n')
    ensures Count(ReplacePair(s, Marker(stage), Resolved(stage)), c) == Count(s, c)
  {
    var (b, r) := (Marker(stage), Resolved(stage));
    if |s| >= 2 && s[0] == '\\' && s[1] == b {
      LaterPassesKeepCount(s[2..], stage, c);
      assert s[1..][1..] == s[2..];
      assert ([r] + ReplacePair(s[2..], b, r))[1..] == ReplacePair(s[2..], b, r);
    } else if s != "" {
      LaterPassesKeepCount(s[1..], stage, c);
      assert ([s[0]] + ReplacePair(s[1..], b, r))[1..] == ReplacePair(s[1..], b, r);
    }
  }

  /** The text `t` has at least so many more newlines, and fewer letters n, than `s`. */
  predicate Mistaken(s: string, t: string, more: nat) {
    Count(t, '\n') >= Count(s, '\n') + more && Count(t, 'n') + more <= Count(s, 'n')
  }

  /** The first pass takes the backslash of an escaped backslash and an `n` behind it for a newline. */
  lemma {:induction false} FirstPassMistakes(s: string)
    ensures Mistaken(s, ReplacePair(Coded(s, 0), 'n', '\n'), if NoBackslashN(s) then 0 else 1)
  {
    hide ReplacePair, Count, Code, Mistaken;
    if s == "" {
      NothingToReplace();
    } else if |s| >= 2 && s[0] == '\\' && s[1] == 'n' {
      var rest := Coded(s[2..], 0);
      FirstPassMistakes(s[2..]);
      BackslashN(s, rest);
      TakenForNewline(rest);
      MoreMistaken(s[2..], ReplacePair(rest, 'n', '\n'), if NoBackslashN(s[2..]) then 0 else 1);
      assert s == ['\\'] + (['n'] + s[2..]);
    } else {
      var rest := Coded(s[1..], 0);
      FirstPassMistakes(s[1..]);
      FirstOfCoded(s[1..]);
      PassOne(s[0], rest, 1);
      SameMistaken(s[0], s[1..], ReplacePair(rest, 'n', '\n'), if NoBackslashN(s[1..]) then 0 else 1);
      assert s == [s[0]] + s[1..];
      assert NoBackslashN(s[1..]) ==> NoBackslashN(s) by {
        assert forall i | 0 < i < |s| - 1 :: s[i] == s[1..][i - 1] && s[i + 1] == s[1..][i];
      }
    }
  }

  lemma NothingToReplace()
    ensures Mistaken("", ReplacePair(Coded("", 0), 'n', '\n'), 0)
  {
  }

  lemma MoreMistaken(s: string, t: string, more: nat)
    requires Mistaken(s, t, more)
    ensures Mistaken(['\\'] + (['n'] + s), ['\\'] + ("\n" + t), more + 1)
    ensures Mistaken(['\\'] + (['n'] + s), ['\\'] + ("\n" + t), 1)
  {
    hide Count;
    forall c | c == '\n' || c == 'n'
      ensures Count(['\\'] + (['n'] + s), c) == (if c == 'n' then 1 else 0) + Count(s, c)
      ensures Count(['\\'] + ("\n" + t), c) == (if c == '\n' then 1 else 0) + Count(t, c)
    {
      CountCons('\\', ['n'] + s, c);
      CountCons('n', s, c);
      CountCons('\\', "\n" + t, c);
      CountCons('\n', t, c);
    }
  }

  lemma SameMistaken(x: char, s: string, t: string, more: nat)
    requires Mistaken(s, t, more)
    ensures Mistaken([x] + s, Code(x, 1) + t, more)
  {
    hide Count;
    forall c | c == '\n' || c == 'n' ensures Count([x] + s, c) - Count(s, c) == Count(Code(x, 1) + t, c) - Count(t, c) {
      CountCons(x, s, c);
      CountConcat(Code(x, 1), t, c);
      CodeCount(x, c);
    }
  }

  lemma FirstOfCoded(s: string)
    ensures Coded(s, 0) != "" && Coded(s, 0)[0] == 'n' ==> s != "" && s[0] == 'n'
  {
  }

  lemma BackslashN(s: string, rest: string)
    requires |s| >= 2 && s[0] == '\\' && s[1] == 'n' && rest == Coded(s[2..], 0)
    ensures Coded(s, 0) == "\\\\" + ("n" + rest)
  {
    assert s[1..][1..] == s[2..] && Coded(s[1..], 0) == "n" + rest;
  }

  lemma CodeCount(x: char, c: char)
    requires c == '\n' || c == 'n'
    ensures Count(Code(x, 1), c) == if x == c then 1 else 0
  {
    hide Count;
    var e := Code(x, 1);
    CountNone(c);
    if |e| == 1 {
      CountCons(x, "", c);
      assert e == [x] + "";
    } else {
      CountCons(e[0], [e[1]], c);
      CountCons(e[1], "", c);
      assert e == [e[0]] + [e[1]] && [e[1]] == [e[1]] + "";
    }
  }

  lemma TakenForNewline(rest: string)
    ensures ReplacePair("\\\\" + ("n" + rest), 'n', '\n') == ['\\'] + ("\n" + ReplacePair(rest, 'n', '\n'))
  {
    hide ReplacePair;
    var tail := ['\\'] + (['n'] + rest);
    assert "\\\\" + ("n" + rest) == ['\\'] + tail;
    PairSkip('\\', tail, 'n', '\n');
    PairMatch(rest, 'n', '\n');
  }

  /** A raw quotation mark behind the text takes no part in the first pass. */
  lemma {:induction false} FirstPassQuote(x: string)
    ensures ReplacePair(x + "\"", 'n', '\n') == ReplacePair(x, 'n', '\n') + "\""
  {
    hide ReplacePair;
    if x == "" {
      PairSkip('"', "", 'n', '\n');
      PairNone('n', '\n');
      assert x + "\"" == ['"'] + "";
    } else if |x| >= 2 && x[0] == '\\' && x[1] == 'n' {
      FirstPassQuote(x[2..]);
      PairMatch(x[2..], 'n', '\n');
      PairMatch(x[2..] + "\"", 'n', '\n');
      assert x == ['\\'] + (['n'] + x[2..]) && x + "\"" == ['\\'] + (['n'] + (x[2..] + "\""));
    } else {
      FirstPassQuote(x[1..]);
      PairSkip(x[0], x[1..], 'n', '\n');
      PairSkip(x[0], x[1..] + "\"", 'n', '\n');
      assert x == [x[0]] + x[1..] && x + "\"" == [x[0]] + (x[1..] + "\"");
    }
  }

  lemma PairNone(b: char, r: char)
    ensures ReplacePair("", b, r) == ""
  {
  }

  function Wrapped(s: string, quoted: bool): string {
    if quoted then "\"" + s + "\"" else s
  }

  /** More newlines, and fewer letters n, come out of unescaping an escaped string than went in, if the
      string has a backslash with an `n` behind it. */
  lemma MistakenNewline(s: string, quoted: bool)
    requires !NoBackslashN(s)
    ensures Mistaken(s, UnescapePasses(Wrapped(Coded(s, 0), quoted)), 1)
  {
    hide ReplacePair, Count;
    FirstPassMistakes(s);
    var e := Coded(s, 0);
    var r := ReplacePair(Wrapped(e, quoted), 'n', '\n');
    forall c | c == '\n' || c == 'n'
      ensures Count(UnescapePasses(Wrapped(e, quoted)), c) == Count(ReplacePair(e, 'n', '\n'), c)
    {
      WrappedCount(e, quoted, c);
      LaterPassesKeepCount(r, 2, c);
      var r2 := ReplacePair(r, ',', ',');
      LaterPassesKeepCount(r2, 3, c);
      LaterPassesKeepCount(ReplacePair(r2, '"', '"'), 4, c);
    }
  }

  lemma WrappedCount(e: string, quoted: bool, c: char)
    requires c == '\n' || c == 'n'
    ensures Count(ReplacePair(Wrapped(e, quoted), 'n', '\n'), c) == Count(ReplacePair(e, 'n', '\n'), c)
  {
    hide ReplacePair, Count;
    if quoted {
      FirstPassQuote(e);
      QuoteFirst(e + "\"", 1);
      assert "\"" + e + "\"" == "\"" + (e + "\"");
      CountCons('"', ReplacePair(e, 'n', '\n') + "\"", c);
      CountConcat(ReplacePair(e, 'n', '\n'), "\"", c);
      CountCons('"', "", c);
      CountNone(c);
      assert "\"" == ['"'] + "";
    }
  }

  /** Unescaping undoes escaping exactly for strings without a backslash followed by the letter n. */
  lemma EscapeRoundTrip(s: string)
    ensures Unescape(Escape(s, false)) == Ok(s) <==> NoBackslashN(s)
  {
    hide Escape, ReplacePair, UnescapePasses;
    EscapeIsOnePass(s);
    CodedCommas(s);
    if NoBackslashN(s) {
      PassesRestore(s, false);
    } else {
      MistakenNewline(s, false);
    }
  }
}
