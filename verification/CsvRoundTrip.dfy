/** When parsing a printed row gives the row back. */
module CsvRoundTrip {
  import opened CsvEscape
  import opened CsvRow
  import opened Results
  import opened Strings

  /** The string ends so that its closing quotation mark would look escaped. */
  predicate BadEnd(v: Value, mode: Mode) {
    v.String? && mode.UsesEscaping() && EndsInBackslash(v.s)
  }

  predicate HasQuote(s: string) {
    exists i | 0 <= i < |s| :: s[i] == '"'
  }

  /** The strings that survive: in Quoted mode those without a quotation mark, in QuotedAndEscaped mode
      those that do not end in a backslash and have no backslash followed by the letter n. */
  predicate Safe(v: Value, mode: Mode) {
    v.String? ==>
      if mode.UsesEscaping() then NoBackslashN(v.s) && !EndsInBackslash(v.s) else !HasQuote(v.s)
  }

  function Texts(row: seq<Value>, mode: Mode): (t: seq<string>)
    requires AllPrintable(row)
    ensures |t| == |row|
  {
    if row == [] then [] else [Text(row[0], mode)] + Texts(row[1..], mode)
  }

  // ----- Scanning one field -----

  lemma {:induction false} ScanPlain(st: Scan, s: string, mode: Mode)
    requires st.Scan? && st.quotes <= 2
    requires forall k | 0 <= k < |s| :: s[k] != '"' && (s[k] != ',' || st.quotes == 1) && s[k] != '\\'
    ensures var r := Run(st, s, mode);
      && r.Scan? && r.done == st.done && r.cur == st.cur + s && r.quotes == st.quotes
      && (st.prev != '\\' ==> r.prev != '\\')
    decreases |s|
  {
    if s != "" {
      ScanPlain(Step(st, s[0], mode), s[1..], mode);
      assert st.cur + [s[0]] + s[1..] == st.cur + s;
    } else {
      assert st.cur + s == st.cur;
    }
  }

  lemma RunOne(st: Scan, c: char, mode: Mode)
    ensures Run(st, [c], mode) == Step(st, c, mode)
  {
    assert Run(Step(st, c, mode), [c][1..], mode) == Step(st, c, mode);
  }

  lemma ScanCode(st: Scan, c: char, mode: Mode)
    requires mode.UsesEscaping() && st.Scan? && st.quotes <= 2
    ensures var r := Run(st, Code(c, 0), mode);
      && r.Scan? && r.done == st.done && r.cur == st.cur + Code(c, 0) && r.quotes == st.quotes
      && (r.prev == '\\' <==> c == '\\')
  {
    var e := Code(c, 0);
    if |e| == 1 {
      RunOne(st, c, mode);
    } else {
      var mid := Step(st, '\\', mode);
      RunOne(mid, e[1], mode);
      assert e[1..] == [e[1]];
      assert Run(st, e, mode) == Run(mid, e[1..], mode);
      assert st.cur + ['\\'] + [e[1]] == st.cur + e;
    }
  }

  /** Escaped text holds no effective quotation mark and no separator. */
  lemma {:induction false} ScanCoded(st: Scan, s: string, mode: Mode)
    requires mode.UsesEscaping() && st.Scan? && st.quotes <= 2
    ensures var r := Run(st, Coded(s, 0), mode);
      && r.Scan? && r.done == st.done && r.cur == st.cur + Coded(s, 0) && r.quotes == st.quotes
      && (r.prev == '\\' <==> if s == "" then st.prev == '\\' else EndsInBackslash(s))
    decreases |s|
  {
    hide Step, Code, Run, Coded;
    CodedParts(s);
    if s == "" {
      RunNothing(st, mode);
      assert st.cur + "" == st.cur;
    } else {
      ScanCode(st, s[0], mode);
      ScanCoded(Run(st, Code(s[0], 0), mode), s[1..], mode);
      RunConcat(st, Code(s[0], 0), Coded(s[1..], 0), mode);
      assert st.cur + Code(s[0], 0) + Coded(s[1..], 0) == st.cur + Coded(s, 0);
    }
  }

  lemma CodedParts(s: string)
    ensures Coded(s, 0) == if s == "" then "" else Code(s[0], 0) + Coded(s[1..], 0)
  {
  }

  lemma {:induction false} ScanQuoted(st: Scan, s: string)
    requires st.Scan? && st.quotes == 1 && !HasQuote(s)
    ensures var r := Run(st, s, Quoted);
      r.Scan? && r.done == st.done && r.cur == st.cur + s && r.quotes == 1
    decreases |s|
  {
    if s == "" {
      assert st.cur + s == st.cur;
    } else {
      assert s[0] != '"' && !HasQuote(s[1..]) by {
        assert forall k | 0 <= k < |s[1..]| :: s[1..][k] == s[k + 1];
      }
      ScanQuoted(Step(st, s[0], Quoted), s[1..]);
      assert st.cur + [s[0]] + s[1..] == st.cur + s;
    }
  }

  /** A printed string: the opening mark, the content, the closing mark. */
  lemma ScanString(st: Scan, s: string, mode: Mode)
    requires mode.UsesQuotes() && st.Scan? && st.quotes <= 2 && (mode.UsesEscaping() ==> st.prev != '\\')
    requires !mode.UsesEscaping() ==> st.quotes == 0 && !HasQuote(s)
    ensures var r := Run(st, Text(String(s), mode), mode);
      && (r.Scan? ==>
        && r.done == st.done && r.cur == st.cur + Text(String(s), mode) && r.quotes <= 2
        && (mode.UsesEscaping() ==> r.prev != '\\'))
      && (st.quotes == 0 ==> r.Scan? && r.quotes == if BadEnd(String(s), mode) then 1 else 2)
  {
    hide Code, Coded, Escape;
    var content := if mode.UsesEscaping() then Escape(s, false) else s;
    EscapeIsOnePass(s);
    var text := "\"" + content + "\"";
    RunConcat(st, "\"" + content, "\"", mode);
    RunConcat(st, "\"", content, mode);
    RunOne(st, '"', mode);
    var st1 := Step(st, '"', mode);
    if st1.Failed? {
      RunFailed(content, mode);
      RunFailed("\"", mode);
    } else {
      if mode.UsesEscaping() {
        ScanCoded(st1, s, mode);
      } else {
        ScanQuoted(st1, s);
      }
      var st2 := Run(st1, content, mode);
      RunOne(st2, '"', mode);
      assert st.cur + ['"'] + content + ['"'] == st.cur + text;
    }
  }

  /** Any printed value: no separator inside, and the mark count tells whether it is closed. */
  lemma ScanField(st: Scan, v: Value, mode: Mode)
    requires Printable(v) && mode.UsesQuotes()
    requires st.Scan? && st.quotes <= 2 && (mode.UsesEscaping() ==> st.prev != '\\')
    requires !mode.UsesEscaping() ==> st.quotes == 0 && Safe(v, mode)
    ensures var r := Run(st, Text(v, mode), mode);
      && (r.Scan? ==>
        && r.done == st.done && r.cur == st.cur + Text(v, mode) && r.quotes <= 2
        && (mode.UsesEscaping() ==> r.prev != '\\'))
      && (st.quotes == 0 ==> r.Scan? && (r.quotes == 1 <==> BadEnd(v, mode)))
  {
    hide Step, IntText, Run;
    match v
    case Null =>
      RunNothing(st, mode);
      assert st.cur + "" == st.cur;
    case Long(n) =>
      IntTextShape(n);
      ScanPlain(st, IntText(n), mode);
    case String(s) =>
      ScanString(st, s, mode);
  }

  lemma RunNothing(st: Scan, mode: Mode)
    ensures Run(st, "", mode) == st
  {
  }

  // ----- Scanning a row -----

  /** Behind a closed field, the comma is a separator. */
  lemma {:induction false} ScanRow(st: Scan, row: seq<Value>, mode: Mode)
    requires row != [] && AllPrintable(row) && mode.UsesQuotes()
    requires st.Scan? && st.quotes == 0 && st.cur == "" && (mode.UsesEscaping() ==> st.prev != '\\')
    requires !mode.UsesEscaping() ==> forall v | v in row :: Safe(v, mode)
    requires forall i | 0 <= i < |row| - 1 :: !BadEnd(row[i], mode)
    ensures var r := Run(st, RowText(row, mode), mode);
      r.Scan? && r.done + [r.cur] == st.done + Texts(row, mode)
    decreases |row|
  {
    hide Text, Safe, BadEnd, Run;
    assert row[0] in row;
    var t := Text(row[0], mode);
    ScanField(st, row[0], mode);
    assert "" + t == t;
    if |row| == 1 {
      assert Texts(row, mode) == [t];
    } else {
      var st1 := Run(st, t, mode);
      var st2 := Step(st1, ',', mode);
      RunComma(st, t, RowText(row[1..], mode), mode);
      ScanRow(st2, row[1..], mode);
      assert st.done + [t] + Texts(row[1..], mode) == st.done + Texts(row, mode);
    }
  }

  lemma RunComma(st: Scan, t: string, rest: string, mode: Mode)
    ensures Run(st, t + "," + rest, mode) == Run(Step(Run(st, t, mode), ',', mode), rest, mode)
  {
    hide Step;
    RunConcat(st, t + ",", rest, mode);
    RunConcat(st, t, ",", mode);
    RunOne(Run(st, t, mode), ',', mode);
  }

  /** With escaping, there are never more separators than the printer has put in, and one less if a
      field before the last has a bad end. */
  lemma {:induction false} FewSeparators(st: Scan, row: seq<Value>)
    requires row != [] && AllPrintable(row) && st.Scan? && st.quotes <= 2 && st.prev != '\\'
    ensures var r := Run(st, RowText(row, QuotedAndEscaped), QuotedAndEscaped);
      && (r.Scan? ==> |r.done| <= |st.done| + |row| - 1)
      && (st.quotes == 0 && (exists i | 0 <= i < |row| - 1 :: BadEnd(row[i], QuotedAndEscaped)) && r.Scan?
          ==> |r.done| <= |st.done| + |row| - 2)
    decreases |row|
  {
    hide Text, BadEnd, Run;
    var mode := QuotedAndEscaped;
    assert row[0] in row;
    var t := Text(row[0], mode);
    ScanField(st, row[0], mode);
    if |row| > 1 {
      var st1 := Run(st, t, mode);
      RunComma(st, t, RowText(row[1..], mode), mode);
      if st1.Failed? {
        RunFailed(RowText(row[1..], mode), mode);
      } else {
        var st2 := Step(st1, ',', mode);
        FewSeparators(st2, row[1..]);
        LaterBadEnd(row, mode);
      }
    }
  }

  lemma LaterBadEnd(row: seq<Value>, mode: Mode)
    requires |row| > 1
    ensures (exists i | 0 <= i < |row| - 1 :: BadEnd(row[i], mode)) && !BadEnd(row[0], mode) ==>
      exists i | 0 <= i < |row[1..]| - 1 :: BadEnd(row[1..][i], mode)
  {
    hide BadEnd;
    if i :| 0 < i < |row| - 1 && BadEnd(row[i], mode) {
      assert row[1..][i - 1] == row[i];
    }
  }

  // ----- Parsing one printed field -----

  lemma TrimKeeps(s: string)
    requires s != "" && !IsSpace(s[0]) && !IsSpace(s[|s| - 1])
    ensures Trim(s) == s
  {
  }

  lemma {:induction false} CodedEnd(s: string)
    ensures EndsInBackslash(Coded(s, 0)) <==> EndsInBackslash(s)
  {
    if s == "" {
      assert Coded(s, 0) == "";
    } else {
      CodedEnd(s[1..]);
      var (e, rest) := (Code(s[0], 0), Coded(s[1..], 0));
      assert rest == "" <==> s[1..] == "";
      if rest != "" {
        assert (e + rest)[|e + rest| - 1] == rest[|rest| - 1];
      }
    }
  }

  /** The text of a string is neither trimmed nor taken for a number. */
  lemma StringChunk(content: string, mode: Mode)
    requires mode.UsesQuotes()
    ensures var t := "\"" + content + "\"";
      ChunkOf(t, mode) == Some(t) && Trim(t) == t && !IsInt(t) && !IsDouble(t)
  {
    hide Trim;
    var t := "\"" + content + "\"";
    TrimKeeps(t);
    assert t[0] == '"' && !IsDigit(t[0]);
    assert !DigitOrDot(t[0]);
  }

  lemma QuotedStripped(s: string)
    ensures Stripped("\"" + s + "\"") == s
  {
  }

  lemma QuotedCommas(s: string)
    ensures CommasEscaped("\"" + Coded(s, 0) + "\"")
  {
    hide CommasEscaped;
    CodedCommas(s);
    OnlyQuote();
    CommasConcat("\"", Coded(s, 0));
    CommasConcat("\"" + Coded(s, 0), "\"");
  }

  lemma OnlyQuote()
    ensures CommasEscaped("\"")
  {
  }

  /** Parsing the text of a string, with escaping: what the unescaping passes make of it, unless its
      closing mark looks escaped. */
  lemma ParseEscaped(s: string, dbl: Doubles)
    ensures var t := Text(String(s), QuotedAndEscaped);
      ParseChunk(ChunkOf(t, QuotedAndEscaped), QuotedAndEscaped, dbl) ==
        if EndsInBackslash(s) then Err else Ok(String(Stripped(UnescapePasses(Wrapped(Coded(s, 0), true)))))
  {
    hide UnescapePasses, Coded, Escape, Trim, IsInt, IsDouble, IsDouble, CommasEscaped, ChunkOf, Stripped;
    var e := Coded(s, 0);
    var t := "\"" + e + "\"";
    EscapeIsOnePass(s);
    StringChunk(e, QuotedAndEscaped);
    QuotedCommas(s);
    CodedEnd(s);
    assert |t| > 2 && t[|t| - 2] == '\\' <==> EndsInBackslash(e);
  }

  lemma ParsePlain(s: string, dbl: Doubles)
    ensures var t := Text(String(s), Quoted);
      ParseChunk(ChunkOf(t, Quoted), Quoted, dbl) == Ok(String(s))
  {
    hide Trim, IsInt, IsDouble, ChunkOf, Stripped;
    StringChunk(s, Quoted);
    QuotedStripped(s);
  }

  lemma ParseLong(n: int, mode: Mode, dbl: Doubles)
    requires Printable(Long(n))
    ensures ParseChunk(ChunkOf(IntText(n), mode), mode, dbl) == Ok(Long(n))
  {
    hide IntText, Trim;
    IntTextShape(n);
    TrimKeeps(IntText(n));
  }

  lemma {:induction false} LastKept(s: string, stage: nat)
    requires 2 <= stage <= 4 && s != "" && s[|s| - 1] != '\n'
    ensures var r := ReplacePair(s, Marker(stage), Resolved(stage)); r != "" && r[|r| - 1] != '\n'
  {
    var (b, r) := (Marker(stage), Resolved(stage));
    if |s| >= 2 && s[0] == '\\' && s[1] == b {
      if |s| > 2 {
        LastKept(s[2..], stage);
      } else {
        PairNone(b, r);
      }
    } else if |s| > 1 {
      LastKept(s[1..], stage);
    } else {
      PairNone(b, r);
    }
  }

  /** Unescaping a quoted text leaves the opening mark, and no newline at the end. */
  lemma PassesEnds(e: string)
    ensures var u := UnescapePasses("\"" + e + "\"");
      u != "" && u[0] == '"' && u[|u| - 1] != '\n'
  {
    hide ReplacePair;
    var t := e + "\"";
    assert "\"" + e + "\"" == "\"" + t;
    var t1 := ReplacePair(t, 'n', '\n');
    var t2 := ReplacePair(t1, ',', ',');
    var t3 := ReplacePair(t2, '"', '"');
    QuoteFirst(t, 1);
    QuoteFirst(t1, 2);
    QuoteFirst(t2, 3);
    QuoteFirst(t3, 4);
    FirstPassQuote(e);
    LastKept(t1, 2);
    LastKept(t2, 3);
    LastKept(t3, 4);
  }

  lemma StrippedCount(u: string, c: char)
    requires u != ""
    ensures Count(Stripped(u), c) <= Count(u, c)
    ensures u[0] != c && u[|u| - 1] != c ==> Count(Stripped(u), c) == Count(u, c)
  {
    hide Count;
    CountNone(c);
    if |u| == 1 {
      assert u == [u[0]] + "";
      CountCons(u[0], "", c);
    } else {
      var (mid, last) := (u[1..|u| - 1], u[|u| - 1]);
      assert u == [u[0]] + (mid + [last]) && [last] == [last] + "";
      CountCons(u[0], mid + [last], c);
      CountConcat(mid, [last], c);
      CountCons(last, "", c);
    }
  }

  lemma EscapedStringIff(s: string, dbl: Doubles)
    ensures var t := Text(String(s), QuotedAndEscaped);
      ParseChunk(ChunkOf(t, QuotedAndEscaped), QuotedAndEscaped, dbl) == Ok(String(s)) <==> Safe(String(s), QuotedAndEscaped)
  {
    hide UnescapePasses, Coded, Text, Stripped, ParseChunk, ChunkOf;
    ParseEscaped(s, dbl);
    var u := UnescapePasses(Wrapped(Coded(s, 0), true));
    if !EndsInBackslash(s) {
      if NoBackslashN(s) {
        PassesRestore(s, true);
        QuotedStripped(s);
      } else {
        MistakenNewline(s, true);
        PassesEnds(Coded(s, 0));
        StrippedCount(u, '\n');
      }
    }
  }

  /** A field by itself comes back exactly if it is safe; without escaping it always does. */
  lemma ParseField(v: Value, mode: Mode, dbl: Doubles)
    requires Printable(v) && mode.UsesQuotes()
    ensures var r := ParseChunk(ChunkOf(Text(v, mode), mode), mode, dbl);
      if mode.UsesEscaping() then r == Ok(v) <==> Safe(v, mode) else r == Ok(v)
  {
    match v
    case Null =>
    case Long(n) =>
      hide *;
      ParseLong(n, mode, dbl);
    case String(s) =>
      if mode.UsesEscaping() {
        EscapedStringIff(s, dbl);
      } else {
        ParsePlain(s, dbl);
      }
  }

  // ----- Parsing a printed row -----

  lemma {:induction false} ParseEach(chunks: seq<Option<string>>, row: seq<Value>, mode: Mode, dbl: Doubles)
    ensures ParseChunks(chunks, mode, dbl) == Ok(row) <==>
      |chunks| == |row| && forall i | 0 <= i < |row| :: ParseChunk(chunks[i], mode, dbl) == Ok(row[i])
  {
    hide ParseChunk;
    if chunks != [] && row != [] {
      ParseEach(chunks[1..], row[1..], mode, dbl);
      assert row == [row[0]] + row[1..];
      if |chunks| == |row| {
        assert (forall i | 0 <= i < |row| :: ParseChunk(chunks[i], mode, dbl) == Ok(row[i])) <==>
          ParseChunk(chunks[0], mode, dbl) == Ok(row[0]) &&
          forall i | 0 <= i < |row[1..]| :: ParseChunk(chunks[1..][i], mode, dbl) == Ok(row[1..][i]) by {
          assert forall i | 0 < i < |row| :: chunks[i] == chunks[1..][i - 1] && row[i] == row[1..][i - 1];
        }
      }
    }
  }

  lemma {:induction false} ChunksAt(pieces: seq<string>, mode: Mode)
    ensures |ChunksOf(pieces, mode)| == |pieces|
    ensures forall i | 0 <= i < |pieces| :: ChunksOf(pieces, mode)[i] == ChunkOf(pieces[i], mode)
  {
    hide ChunkOf;
    if pieces != [] {
      ChunksAt(pieces[1..], mode);
    }
  }

  lemma {:induction false} TextsAt(row: seq<Value>, mode: Mode)
    requires AllPrintable(row)
    ensures forall i | 0 <= i < |row| :: Printable(row[i]) && Texts(row, mode)[i] == Text(row[i], mode)
  {
    hide Text;
    if row != [] {
      TextsAt(row[1..], mode);
    }
  }

  lemma RowTextEmpty(row: seq<Value>, mode: Mode)
    requires row != [] && row != [Null] && AllPrintable(row) && mode.UsesQuotes()
    ensures RowText(row, mode) != ""
  {
    hide RowText, IntText, Escape;
    RowTextUnfold(row, mode);
    if |row| == 1 {
      assert row == [row[0]] && row[0] in row;
      if row[0].Long? {
        IntTextShape(row[0].n);
      }
    }
  }

  lemma RowTextUnfold(row: seq<Value>, mode: Mode)
    requires row != [] && AllPrintable(row) && mode.UsesQuotes()
    ensures if |row| == 1 then row[0] in row && RowText(row, mode) == Text(row[0], mode) else RowText(row, mode) != ""
  {
    hide Text;
  }

  /** When the splitter finds the printed fields, each field decides for itself. */
  lemma ParseWhenSplit(row: seq<Value>, mode: Mode, dbl: Doubles)
    requires row != [] && row != [Null] && AllPrintable(row) && mode.UsesQuotes()
    requires !mode.UsesEscaping() ==> forall v | v in row :: Safe(v, mode)
    requires forall i | 0 <= i < |row| - 1 :: !BadEnd(row[i], mode)
    ensures ParseRow(RowText(row, mode), mode, dbl) == Ok(row) <==> forall v | v in row :: Safe(v, mode)
  {
    hide RowText, Run, Text, ParseChunk, ChunkOf, Safe, BadEnd, Printable, ParseChunks, ChunksOf, Texts;
    RowTextEmpty(row, mode);
    ScanRow(START, row, mode);
    var pieces := Texts(row, mode);
    TextsAt(row, mode);
    ChunksAt(pieces, mode);
    var chunks := ChunksOf(pieces, mode);
    ParseEach(chunks, row, mode, dbl);
    assert [] + pieces == pieces;
    forall i | 0 <= i < |row|
      ensures ParseChunk(chunks[i], mode, dbl) == Ok(row[i]) <==> Safe(row[i], mode)
    {
      ParseField(row[i], mode, dbl);
      assert row[i] in row;
    }
    assert forall v | v in row :: exists i | 0 <= i < |row| :: row[i] == v;
  }

  /** A field before the last with a bad end swallows its separator. */
  lemma ParseWhenMerged(row: seq<Value>, dbl: Doubles)
    requires row != [] && row != [Null] && AllPrintable(row)
    requires exists i | 0 <= i < |row| - 1 :: BadEnd(row[i], QuotedAndEscaped)
    ensures ParseRow(RowText(row, QuotedAndEscaped), QuotedAndEscaped, dbl) != Ok(row)
  {
    hide RowText, Run, ParseChunk, ChunkOf, BadEnd, Printable, ParseChunks, ChunksOf;
    var mode := QuotedAndEscaped;
    RowTextEmpty(row, mode);
    FewSeparators(START, row);
    var st := Run(START, RowText(row, mode), mode);
    if st.Scan? {
      ChunksAt(st.done + [st.cur], mode);
      ParseEach(ChunksOf(st.done + [st.cur], mode), row, mode, dbl);
    }
  }

  // ----- Without escaping, no string with a quotation mark can be parsed -----

  ghost predicate FewQuotes(pieces: seq<string>) {
    forall p | p in pieces :: Count(p, '"') <= 2
  }

  lemma {:induction false} PiecesHaveFewQuotes(st: Scan, s: string)
    requires st.Scan? && FewQuotes(st.done) && st.quotes == Count(st.cur, '"') <= 2
    ensures var r := Run(st, s, Quoted); r.Scan? ==> FewQuotes(r.done + [r.cur])
    decreases |s|
  {
    hide Count;
    if s != "" {
      var next := Step(st, s[0], Quoted);
      if next.Failed? {
        RunFailed(s[1..], Quoted);
      } else {
        CountConcat(st.cur, [s[0]], '"');
        CountCons(s[0], "", '"');
        CountNone('"');
        assert [s[0]] == [s[0]] + "";
        PiecesHaveFewQuotes(next, s[1..]);
      }
    }
  }

  lemma {:induction false} TrimLeftCount(s: string, c: char)
    ensures Count(TrimLeft(s), c) <= Count(s, c)
  {
    if s != "" && IsSpace(s[0]) {
      TrimLeftCount(s[1..], c);
    }
  }

  lemma {:induction false} TrimRightCount(s: string, c: char)
    ensures Count(TrimRight(s), c) <= Count(s, c)
  {
    hide Count;
    if s != "" && IsSpace(s[|s| - 1]) {
      TrimRightCount(s[..|s| - 1], c);
      CountConcat(s[..|s| - 1], s[|s| - 1..], c);
      assert s == s[..|s| - 1] + s[|s| - 1..];
    }
  }

  lemma {:induction false} NoneCounted(s: string)
    requires Count(s, '"') == 0
    ensures !HasQuote(s)
  {
    if s != "" {
      NoneCounted(s[1..]);
      assert forall i | 0 < i < |s| :: s[i] == s[1..][i - 1];
    }
  }

  lemma StrippedQuotes(s: string)
    requires |s| >= 2 && s[0] == '"' && s[|s| - 1] == '"' && Count(s, '"') <= 2
    ensures !HasQuote(Stripped(s))
  {
    hide Count;
    var mid := s[1..|s| - 1];
    assert s == "\"" + mid + "\"";
    CountConcat("\"" + mid, "\"", '"');
    CountConcat("\"", mid, '"');
    CountCons('"', "", '"');
    assert "\"" == ['"'] + "";
    NoneCounted(mid);
  }

  lemma ParsedChunkSafe(piece: string, dbl: Doubles)
    requires Count(piece, '"') <= 2
    ensures var r := ParseChunk(ChunkOf(piece, Quoted), Quoted, dbl); r.Ok? ==> Safe(r.value, Quoted)
  {
    hide Count, TrimLeft, TrimRight, HasQuote, Stripped, IsInt, IsDouble;
    var t := Trim(piece);
    TrimLeftCount(piece, '"');
    TrimRightCount(TrimLeft(piece), '"');
    if |t| >= 2 && t[0] == '"' && t[|t| - 1] == '"' {
      StrippedQuotes(t);
    }
  }

  /** Whatever text is parsed in Quoted mode, no string in the row holds a quotation mark. */
  lemma ParsedRowSafe(input: string, row: seq<Value>, dbl: Doubles)
    requires ParseRow(input, Quoted, dbl) == Ok(row)
    ensures forall v | v in row :: Safe(v, Quoted)
  {
    hide Run, ParseChunk, ChunkOf, Safe, ParseChunks, ChunksOf, Count;
    if input == "" {
      ParseEach([], row, Quoted, dbl);
    } else {
      var st := Run(START, input, Quoted);
      CountNone('"');
      PiecesHaveFewQuotes(START, input);
      var pieces := st.done + [st.cur];
      ChunksAt(pieces, Quoted);
      ParseEach(ChunksOf(pieces, Quoted), row, Quoted, dbl);
      forall i | 0 <= i < |row| ensures Safe(row[i], Quoted) {
        assert pieces[i] in pieces;
        ParsedChunkSafe(pieces[i], dbl);
      }
    }
  }

  // ----- The theorem -----

  /** For a non-empty row other than a single NULL, parsing the printed row gives the row back exactly
      if every string in it is safe. */
  lemma RowRoundTrip(row: seq<Value>, mode: Mode, dbl: Doubles)
    requires row != [] && row != [Null] && AllPrintable(row) && mode.UsesQuotes()
    ensures ParseRow(RowText(row, mode), mode, dbl) == Ok(row) <==> forall v | v in row :: Safe(v, mode)
  {
    hide RowText, ParseRow, Printable;
    if mode == QuotedAndEscaped {
      if forall i | 0 <= i < |row| - 1 :: !BadEnd(row[i], mode) {
        ParseWhenSplit(row, mode, dbl);
      } else {
        ParseWhenMerged(row, dbl);
        var i :| 0 <= i < |row| - 1 && BadEnd(row[i], mode);
        assert row[i] in row && !Safe(row[i], mode);
      }
    } else if forall v | v in row :: Safe(v, mode) {
      ParseWhenSplit(row, mode, dbl);
    } else if ParseRow(RowText(row, mode), mode, dbl) == Ok(row) {
      ParsedRowSafe(RowText(row, mode), row, dbl);
    }
  }

  /** The two rows the theorem leaves out are not told apart: both print as the empty text. */
  lemma EmptyAndNull(mode: Mode, dbl: Doubles)
    requires mode.UsesQuotes()
    ensures RowText([Null], mode) == "" && ParseRow("", mode, dbl) == Ok([])
  {
  }
}
