/** When a printed table is read back. */
module CsvTextRoundTrip {
  import opened CsvEscape
  import opened CsvRoundTrip
  import opened CsvRow
  import opened CsvText
  import opened Results
  import opened Sequences
  import opened Strings
  import E = EString
  import T = CsvTable

  // ----- The text as lines -----

  lemma {:induction false} UnlinesFront(line: string, lines: seq<string>)
    ensures Unlines([line] + lines) == line + "\n" + Unlines(lines)
  {
    if lines == [] {
      assert [line] + lines == [] + [line];
      UnlinesMore([], line);
    } else {
      var (front, last) := (lines[..|lines| - 1], lines[|lines| - 1]);
      UnlinesFront(line, front);
      assert [line] + lines == ([line] + front) + [last];
      UnlinesMore([line] + front, last);
    }
  }

  lemma FirstNewline(line: string, rest: string)
    requires '\n' !in line
    ensures Parts(line + "\n" + rest, "\n") == [line] + Parts(rest, "\n")
  {
    hide Find, Parts;
    var s := line + "\n" + rest;
    FindFirst(s, "\n", 0);
    assert OccursAt(s, "\n", |line|);
    forall q: nat | q < |line| ensures !OccursAt(s, "\n", q) {
      assert s[q] == line[q] && s[q..q + 1] == [s[q]];
    }
    E.FirstPart(s, "\n");
    assert s[..|line|] == line && s[|line| + 1..] == rest;
  }

  /** Splitting the lines of a text, without the empty ones. */
  lemma {:induction false} LinesRestored(lines: seq<string>)
    requires forall line | line in lines :: '\n' !in line
    ensures E.Kept(Parts(Unlines(lines), "\n"), false, false) == NonEmpty(lines)
  {
    hide Parts, Unlines;
    if lines == [] {
      E.FirstPart("", "\n");
      E.FindInEmpty("\n");
      E.KeptSingle("", false, false);
      NoHeaderLines(Quoted);
    } else {
      UnlinesFront(lines[0], lines[1..]);
      assert lines == [lines[0]] + lines[1..];
      assert lines[0] in lines;
      FirstNewline(lines[0], Unlines(lines[1..]));
      E.KeptOne(lines[0], Parts(Unlines(lines[1..]), "\n"), false, false);
      LinesRestored(lines[1..]);
    }
  }

  lemma {:induction false} NonEmptyConcat(a: seq<string>, b: seq<string>)
    ensures NonEmpty(a + b) == NonEmpty(a) + NonEmpty(b)
  {
    if a == [] {
      assert a + b == b;
    } else {
      assert (a + b)[1..] == a[1..] + b;
      NonEmptyConcat(a[1..], b);
    }
  }

  // ----- Safe tables -----

  /** A value that survives in a line of its own. */
  ghost predicate ValueSafe(v: Value, mode: Mode) {
    Safe(v, mode) && (v.String? && !mode.UsesEscaping() ==> '\n' !in v.s)
  }

  ghost predicate AllSafe(row: seq<Value>, mode: Mode) {
    forall v | v in row :: ValueSafe(v, mode)
  }

  ghost predicate RowsSafe(rows: seq<seq<Value>>, mode: Mode) {
    forall row | row in rows :: AllSafe(row, mode)
  }

  /** A name that is a number, and is printed again as it was. */
  predicate NumberName(name: string, dbl: Doubles) {
    if IsInt(name) then INT64_MIN <= IntValue(name) <= INT64_MAX && IntText(IntValue(name)) == name
    else IsDouble(name) && dbl.fits(name) && Trim(dbl.shown(name)) == name
  }

  /** With escaping a name is safe like any string; without it, it is printed bare. */
  ghost predicate NameSafe(name: string, mode: Mode, dbl: Doubles) {
    if mode.UsesEscaping() then Safe(String(name), mode) else NumberName(name, dbl)
  }

  ghost predicate NamesSafe(names: seq<string>, mode: Mode, dbl: Doubles) {
    forall name | name in names :: NameSafe(name, mode, dbl)
  }

  // ----- The printed lines -----

  /** A line that the parser takes as it was printed. */
  predicate Clean(line: string) {
    '\n' !in line && (line != "" ==> line[|line| - 1] != '\r')
  }

  lemma {:induction false} CodedHasNoNewline(s: string)
    ensures '\n' !in Coded(s, 0)
  {
    if s != "" {
      CodedHasNoNewline(s[1..]);
      assert '\n' !in Code(s[0], 0);
    }
  }

  /** Without escaping, only strings without newlines are printed in one line. */
  ghost predicate OneLine(row: seq<Value>, mode: Mode) {
    mode.UsesEscaping() || forall v | v in row && v.String? :: '\n' !in v.s
  }

  lemma TextClean(v: Value, mode: Mode)
    requires Printable(v) && mode.UsesQuotes() && OneLine([v], mode)
    ensures Clean(Text(v, mode))
  {
    hide Escape, IntText;
    match v
    case Null =>
    case Long(n) =>
      IntTextShape(n);
      assert forall k | 0 <= k < |IntText(n)| :: IntText(n)[k] != '\n' && IntText(n)[k] != '\r';
    case String(s) =>
      assert v in [v];
      EscapeIsOnePass(s);
      CodedHasNoNewline(s);
  }

  lemma {:induction false} RowTextClean(row: seq<Value>, mode: Mode)
    requires row != [] && AllPrintable(row) && mode.UsesQuotes() && OneLine(row, mode)
    ensures Clean(RowText(row, mode))
  {
    hide Text, Printable, RowText;
    var last := row[|row| - 1];
    assert last in row;
    TextClean(last, mode);
    if |row| == 1 {
      assert row == [last];
      RowTextOne(last, mode);
    } else {
      RowTextLast(row, mode);
      RowTextClean(row[..|row| - 1], mode);
    }
  }

  lemma SafeIsOneLine(row: seq<Value>, mode: Mode)
    requires AllSafe(row, mode)
    ensures OneLine(row, mode)
  {
  }

  /** The rows that are printed as something. */
  function Dropped(rows: seq<seq<Value>>): seq<seq<Value>> {
    if rows == [] then []
    else Dropped(rows[..|rows| - 1]) + if rows[|rows| - 1] == [Null] then [] else [rows[|rows| - 1]]
  }

  lemma DroppedNone()
    ensures Dropped([]) == []
  {
  }

  lemma DroppedMore(rows: seq<seq<Value>>)
    requires rows != []
    ensures Dropped(rows) ==
      Dropped(rows[..|rows| - 1]) + if rows[|rows| - 1] == [Null] then [] else [rows[|rows| - 1]]
  {
  }

  lemma {:induction false} DroppedRows(rows: seq<seq<Value>>)
    ensures forall row | row in Dropped(rows) :: row in rows && row != [Null]
    ensures |Dropped(rows)| <= |rows|
    ensures if [Null] in rows then |Dropped(rows)| < |rows| else Dropped(rows) == rows
  {
    hide Dropped;
    if rows == [] {
      DroppedNone();
    } else {
      DroppedRows(rows[..|rows| - 1]);
      DroppedMore(rows);
      FrontAndLast(rows);
    }
  }

  lemma LastLine(rows: seq<seq<Value>>, mode: Mode)
    requires rows != [] && Printables(rows) && mode.UsesQuotes()
    ensures var (front, last) := (rows[..|rows| - 1], rows[|rows| - 1]);
      && Printables(front) && AllPrintable(last)
      && RowLines(rows, mode) == RowLines(front, mode) + [if last == [] then "" else RowText(last, mode)]
  {
    hide RowText, AllPrintable;
    FrontAndLast(rows);
  }

  lemma NoRowLines(mode: Mode)
    requires mode.UsesQuotes()
    ensures Printables([]) && RowLines([], mode) == [] && NonEmpty([]) == []
  {
  }

  /** A row of a single NULL leaves an empty line, and no other row does. */
  lemma {:induction false} PrintedLines(rows: seq<seq<Value>>, mode: Mode)
    requires Printables(rows) && [] !in rows && mode.UsesQuotes()
    ensures Printables(Dropped(rows)) && NonEmpty(RowLines(rows, mode)) == RowLines(Dropped(rows), mode)
  {
    hide RowText, AllPrintable, Dropped, RowLines, NonEmpty;
    DroppedRows(rows);
    if rows == [] {
      DroppedNone();
      NoRowLines(mode);
    } else {
      var (front, last) := (rows[..|rows| - 1], rows[|rows| - 1]);
      FrontAndLast(rows);
      LastLine(rows, mode);
      DroppedMore(rows);
      PrintedLines(front, mode);
      NonEmptyConcat(RowLines(front, mode), [RowText(last, mode)]);
      OnlyLine(RowText(last, mode));
      if last == [Null] {
        RowTextOne(Null, mode);
        NullText(mode);
        assert Dropped(rows) == Dropped(front);
      } else {
        RowTextEmpty(last, mode);
        LastLine(Dropped(rows), mode);
        assert Dropped(rows)[..|Dropped(rows)| - 1] == Dropped(front);
      }
    }
  }

  lemma NullText(mode: Mode)
    requires mode.UsesQuotes()
    ensures Text(Null, mode) == ""
  {
  }

  lemma OnlyLine(line: string)
    ensures NonEmpty([line]) == if line == "" then [] else [line]
  {
    assert [line][1..] == [];
  }

  lemma {:induction false} RowLinesClean(rows: seq<seq<Value>>, mode: Mode)
    requires Printables(rows) && mode.UsesQuotes() && forall row | row in rows :: OneLine(row, mode)
    ensures forall line | line in RowLines(rows, mode) :: '\n' !in line
  {
    hide RowText, AllPrintable, OneLine;
    if rows != [] {
      var (front, last) := (rows[..|rows| - 1], rows[|rows| - 1]);
      assert last in rows && forall row | row in front :: row in rows;
      RowLinesClean(front, mode);
      if last != [] {
        RowTextClean(last, mode);
      }
    }
  }

  // ----- Parsing the lines of the rows -----

  lemma {:induction false} WithLinesConcat(t: T.Table, a: seq<string>, b: seq<string>, hasHeader: bool, mode: Mode, dbl: Doubles)
    ensures var front := WithLines(t, a, hasHeader, mode, dbl);
      WithLines(t, a + b, hasHeader, mode, dbl) ==
        if front.Err? then Err else WithLines(front.value, b, hasHeader, mode, dbl)
  {
    hide WithLine;
    if b == [] {
      assert a + b == a;
    } else {
      WithLinesConcat(t, a, b[..|b| - 1], hasHeader, mode, dbl);
      assert (a + b)[..|a + b| - 1] == a + b[..|b| - 1];
    }
  }

  lemma AddsRow(t: T.Table, line: string, hasHeader: bool, mode: Mode, dbl: Doubles)
    requires Clean(line) && !(hasHeader && t.colCount == 0)
    ensures var (p, q) := (ParseRow(line, mode, dbl), WithLine(t, line, hasHeader, mode, dbl));
      && (q.Ok? <==> p.Ok? && (t.colCount == 0 || |p.value| == t.colCount))
      && (q.Ok? ==>
        q.value == T.Table(t.rows + [p.value], if t.colCount == 0 then |p.value| else t.colCount, t.header))
  {
    hide ParseRow;
  }

  lemma FrontOfRows(rows: seq<seq<Value>>, n: nat, mode: Mode)
    requires rows != [] && Printables(rows) && mode.UsesQuotes()
    requires forall row | row in rows :: |row| == n && row != [Null] && OneLine(row, mode)
    ensures var (front, last) := (rows[..|rows| - 1], rows[|rows| - 1]);
      && rows == front + [last] && |last| == n && last != [Null] && AllPrintable(last) && OneLine(last, mode)
      && Printables(front) && (forall row | row in front :: |row| == n && row != [Null] && OneLine(row, mode))
      && (RowsSafe(rows, mode) <==> RowsSafe(front, mode) && AllSafe(last, mode))
      && var lines := RowLines(rows, mode);
        lines[..|lines| - 1] == RowLines(front, mode) &&
        lines[|lines| - 1] == if last == [] then "" else RowText(last, mode)
  {
    hide AllSafe, AllPrintable, RowText, OneLine, RowLines;
    FrontAndLast(rows);
    LastLine(rows, mode);
  }

  lemma RowComesBack(row: seq<Value>, mode: Mode, dbl: Doubles)
    requires row != [] && row != [Null] && AllPrintable(row) && mode.UsesQuotes() && OneLine(row, mode)
    ensures ParseRow(RowText(row, mode), mode, dbl) == Ok(row) <==> AllSafe(row, mode)
  {
    hide RowText, ParseRow, Safe;
    RowRoundTrip(row, mode, dbl);
  }

  /** The rows come back exactly if all their strings are safe. */
  lemma {:induction false} RowsParsed(t: T.Table, rows: seq<seq<Value>>, n: nat, hasHeader: bool, mode: Mode, dbl: Doubles)
    requires t.rows == [] && n > 0 && (t.colCount == n || (t.colCount == 0 && !hasHeader))
    requires Printables(rows) && mode.UsesQuotes()
    requires forall row | row in rows :: |row| == n && row != [Null] && OneLine(row, mode)
    ensures var r := WithLines(t, RowLines(rows, mode), hasHeader, mode, dbl);
      && (r.Ok? && r.value.rows == rows <==> RowsSafe(rows, mode))
      && (r.Ok? ==> |r.value.rows| == |rows| && r.value.header == t.header)
      && (r.Ok? && ((rows != [] && r.value.rows == rows) || t.colCount == n) ==> r.value.colCount == n)
      && (r.Ok? && rows == [] ==> r.value == t)
  {
    hide RowText, ParseRow, WithLine, RowsSafe, AllSafe, Clean, AllPrintable, Printables, RowLines, OneLine;
    if rows == [] {
      NothingToParse(mode);
    } else {
      var (front, last) := (rows[..|rows| - 1], rows[|rows| - 1]);
      FrontOfRows(rows, n, mode);
      RowsParsed(t, front, n, hasHeader, mode, dbl);
      var r := WithLines(t, RowLines(front, mode), hasHeader, mode, dbl);
      if r.Ok? {
        RowParsed(r.value, front, last, hasHeader, mode, dbl);
      }
    }
  }

  /** One more row behind those parsed so far. */
  lemma RowParsed(t: T.Table, front: seq<seq<Value>>, last: seq<Value>, hasHeader: bool, mode: Mode, dbl: Doubles)
    requires !(hasHeader && t.colCount == 0) && |t.rows| == |front|
    requires last != [] && last != [Null] && AllPrintable(last) && mode.UsesQuotes() && OneLine(last, mode)
    ensures var r := WithLine(t, RowText(last, mode), hasHeader, mode, dbl);
      && (r.Ok? ==> |r.value.rows| == |front| + 1 && r.value.header == t.header)
      && (r.Ok? && t.colCount > 0 ==> r.value.colCount == t.colCount)
      && (r.Ok? && r.value.rows == front + [last] ==> t.rows == front && AllSafe(last, mode) && r.value.colCount == |last|)
      && (t.rows == front && AllSafe(last, mode) && (t.colCount == 0 || t.colCount == |last|) ==>
        r.Ok? && r.value.rows == front + [last])
  {
    hide RowText, ParseRow, WithLine, AllSafe, Clean, AllPrintable, OneLine;
    var line := RowText(last, mode);
    RowTextClean(last, mode);
    RowComesBack(last, mode, dbl);
    AddsRow(t, line, hasHeader, mode, dbl);
    var p := ParseRow(line, mode, dbl);
    if p.Ok? {
      AppendIff(t.rows, p.value, front, last);
    }
  }

  lemma NothingToParse(mode: Mode)
    requires mode.UsesQuotes()
    ensures Printables([]) && RowLines([], mode) == [] && RowsSafe([], mode)
  {
  }

  lemma AnyLineIsRow(t: T.Table, line: string, mode: Mode, dbl: Doubles)
    requires t.colCount > 0
    ensures var (p, q) := (ParseRow(Chopped(line), mode, dbl), WithLine(t, line, true, mode, dbl));
      q.Ok? ==> p.Ok? && q.value == t.(rows := t.rows + [p.value])
  {
    hide ParseRow, Chopped;
  }

  /** Once there are columns, the names stay and every line is a row. */
  lemma {:induction false} HeaderStays(t: T.Table, lines: seq<string>, mode: Mode, dbl: Doubles)
    requires t.colCount > 0
    ensures var r := WithLines(t, lines, true, mode, dbl);
      r.Ok? ==>
        && r.value.header == t.header && r.value.colCount == t.colCount
        && |r.value.rows| == |t.rows| + |lines| && r.value.rows[..|t.rows|] == t.rows
        && forall i | 0 <= i < |lines| :: ParseRow(Chopped(lines[i]), mode, dbl) == Ok(r.value.rows[|t.rows| + i])
  {
    hide ParseRow, WithLine, Chopped;
    if lines != [] {
      var front := WithLines(t, lines[..|lines| - 1], true, mode, dbl);
      HeaderStays(t, lines[..|lines| - 1], mode, dbl);
      if front.Ok? {
        AnyLineIsRow(front.value, lines[|lines| - 1], mode, dbl);
      }
    }
  }

  // ----- Whatever is parsed without escaping -----

  ghost predicate NoNewlines(row: seq<Value>) {
    forall v | v in row && v.String? :: '\n' !in v.s
  }

  lemma {:induction false} PiecesWithoutNewline(st: Scan, s: string)
    requires st.Scan? && '\n' !in st.cur && '\n' !in s && forall p | p in st.done :: '\n' !in p
    ensures var r := CsvRow.Run(st, s, Quoted); r.Scan? ==> forall p | p in r.done + [r.cur] :: '\n' !in p
    decreases |s|
  {
    if s != "" {
      var next := Step(st, s[0], Quoted);
      if next.Failed? {
        RunFailed(s[1..], Quoted);
      } else {
        PiecesWithoutNewline(next, s[1..]);
      }
    }
  }

  lemma {:induction false} TrimLeftPart(s: string, c: char)
    requires c !in s
    ensures c !in TrimLeft(s)
  {
    if s != "" && IsSpace(s[0]) {
      TrimLeftPart(s[1..], c);
    }
  }

  lemma {:induction false} TrimRightPart(s: string, c: char)
    requires c !in s
    ensures c !in TrimRight(s)
  {
    if s != "" && IsSpace(s[|s| - 1]) {
      TrimRightPart(s[..|s| - 1], c);
    }
  }

  lemma ParsedChunkOneLine(piece: string, dbl: Doubles)
    requires '\n' !in piece
    ensures var r := ParseChunk(ChunkOf(piece, Quoted), Quoted, dbl); r.Ok? && r.value.String? ==> '\n' !in r.value.s
  {
    hide TrimLeft, TrimRight, IsInt, IsDouble;
    TrimLeftPart(piece, '\n');
    TrimRightPart(TrimLeft(piece), '\n');
  }

  lemma ParsedRowOneLine(line: string, row: seq<Value>, dbl: Doubles)
    requires '\n' !in line && ParseRow(line, Quoted, dbl) == Ok(row)
    ensures NoNewlines(row)
  {
    hide CsvRow.Run, ParseChunk, ChunkOf, ParseChunks, ChunksOf;
    if line == "" {
      ParseEach([], row, Quoted, dbl);
    } else {
      var st := CsvRow.Run(START, line, Quoted);
      PiecesWithoutNewline(START, line);
      var pieces := st.done + [st.cur];
      ChunksAt(pieces, Quoted);
      ParseEach(ChunksOf(pieces, Quoted), row, Quoted, dbl);
      forall i | 0 <= i < |row| && row[i].String? ensures '\n' !in row[i].s {
        assert pieces[i] in pieces;
        ParsedChunkOneLine(pieces[i], dbl);
      }
    }
  }

  lemma ParsedRowIsSafe(line: string, row: seq<Value>, dbl: Doubles)
    requires '\n' !in line && ParseRow(line, Quoted, dbl) == Ok(row)
    ensures AllSafe(row, Quoted)
  {
    hide ParseRow, Safe;
    ParsedRowOneLine(line, row, dbl);
    ParsedRowSafe(line, row, dbl);
  }

  lemma LineKeepsSafe(t: T.Table, line: string, hasHeader: bool, dbl: Doubles)
    requires '\n' !in line && RowsSafe(t.rows, Quoted)
    ensures var r := WithLine(t, line, hasHeader, Quoted, dbl); r.Ok? ==> RowsSafe(r.value.rows, Quoted)
  {
    hide ParseRow, AllSafe, T.NamesAccepted, PlainTexts;
    var row := ParseRow(Chopped(line), Quoted, dbl);
    if row.Ok? {
      ParsedRowIsSafe(Chopped(line), row.value, dbl);
    }
  }

  lemma {:induction false} LinesKeepSafe(lines: seq<string>, hasHeader: bool, dbl: Doubles)
    requires forall line | line in lines :: '\n' !in line
    ensures var r := WithLines(T.EMPTY, lines, hasHeader, Quoted, dbl); r.Ok? ==> RowsSafe(r.value.rows, Quoted)
  {
    hide WithLine, AllSafe;
    if lines != [] {
      var front := lines[..|lines| - 1];
      LinesKeepSafe(front, hasHeader, dbl);
      var r := WithLines(T.EMPTY, front, hasHeader, Quoted, dbl);
      if r.Ok? {
        LineKeepsSafe(r.value, lines[|lines| - 1], hasHeader, dbl);
      }
    }
  }

  lemma {:induction false} PartsAreLines(s: string)
    ensures forall part | part in Parts(s, "\n") :: '\n' !in part
  {
    hide Parts, Find;
    PartsRestore(s, "\n");
    forall part | part in Parts(s, "\n") ensures '\n' !in part {
      FindFirst(part, "\n", 0);
      forall q | 0 <= q < |part| ensures part[q] != '\n' {
        assert !OccursAt(part, "\n", q) && part[q..q + 1] == [part[q]];
      }
    }
  }

  lemma {:induction false} KeptParts(parts: seq<string>)
    ensures forall part | part in E.Kept(parts, false, false) :: part in parts && part != ""
    ensures E.Kept(parts, false, false) == NonEmpty(parts)
  {
    if parts != [] {
      KeptParts(parts[1..]);
    }
  }

  /** No string in a table that was parsed without escaping holds a quotation mark or a newline. */
  lemma ParsedTableIsSafe(text: string, hasHeader: bool, dbl: Doubles)
    ensures var r := TableOf(text, hasHeader, Quoted, dbl); r.Ok? ==> RowsSafe(r.value.rows, Quoted)
  {
    hide WithLines, Parts, E.Kept, AllSafe;
    PartsAreLines(text);
    KeptParts(Parts(text, "\n"));
    LinesKeepSafe(E.Kept(Parts(text, "\n"), false, false), hasHeader, dbl);
  }

  // ----- Parsing the header line -----

  lemma NumberedInjective(a: seq<string>, b: seq<string>)
    requires T.GoodNames(a) && T.GoodNames(b) && T.Numbered(a) == T.Numbered(b)
    ensures a == b
  {
    NumberedSize(a);
    NumberedSize(b);
    T.NumberedNames(a);
    T.NumberedNames(b);
    forall i | 0 <= i < |a| ensures a[i] == b[i] {
      assert T.Named(T.Numbered(a), a[i], i);
    }
  }

  lemma {:induction false} PlainTextsAt(row: seq<Value>, dbl: Doubles)
    requires Null !in row
    ensures forall i | 0 <= i < |row| :: PlainTexts(row, dbl)[i] == PlainText(row[i], dbl)
  {
    hide PlainText;
    if row != [] {
      PlainTextsAt(row[..|row| - 1], dbl);
    }
  }

  lemma {:induction false} TrimAllAt(names: seq<string>)
    ensures forall i | 0 <= i < |names| :: T.TrimAll(names)[i] == Trim(names[i])
  {
    hide Trim;
    if names != [] {
      TrimAllAt(names[..|names| - 1]);
    }
  }

  /** A name whose cell is parsed, and is the name after trimming, is safe. */
  lemma NameIsSafe(name: string, v: Value, dbl: Doubles)
    requires ParseChunk(ChunkOf(Text(String(name), QuotedAndEscaped), QuotedAndEscaped), QuotedAndEscaped, dbl) == Ok(v)
    requires !v.Null? && Trim(PlainText(v, dbl)) == name
    ensures Safe(String(name), QuotedAndEscaped)
  {
    hide ParseChunk, ChunkOf, Text, UnescapePasses, Count, TrimLeft, TrimRight, Stripped, NoBackslashN, Coded;
    ParseEscaped(name, dbl);
    var u := UnescapePasses(Wrapped(Coded(name, 0), true));
    var x := Stripped(u);
    if !NoBackslashN(name) {
      MistakenNewline(name, true);
      PassesEnds(Coded(name, 0));
      StrippedCount(u, 'n');
      TrimLeftCount(x, 'n');
      TrimRightCount(TrimLeft(x), 'n');
    }
  }

  function NameRow(names: seq<string>): (row: seq<Value>)
    ensures |row| == |names|
  {
    if names == [] then [] else NameRow(names[..|names| - 1]) + [String(names[|names| - 1])]
  }

  lemma {:induction false} NameRowAt(names: seq<string>)
    ensures forall i | 0 <= i < |names| :: NameRow(names)[i] == String(names[i])
    ensures AllPrintable(NameRow(names))
  {
    if names != [] {
      NameRowAt(names[..|names| - 1]);
    }
  }

  lemma HeaderCellIsText(name: string)
    ensures HeaderCell(name, QuotedAndEscaped) == Text(String(name), QuotedAndEscaped) != ""
  {
    hide ReplaceChar;
  }

  /** With escaping, the header line is the text of the row of the names. */
  lemma {:induction false} HeaderIsRow(names: seq<string>)
    requires names != []
    ensures AllPrintable(NameRow(names))
    ensures Joined(HeaderCells(names, QuotedAndEscaped), ",") == RowText(NameRow(names), QuotedAndEscaped) != ""
  {
    hide HeaderCell, Text, RowText, Joined;
    NameRowAt(names);
    var (n, row) := (|names| - 1, NameRow(names));
    HeaderCellIsText(names[n]);
    JoinedMore(names, n, QuotedAndEscaped);
    assert names[..n + 1] == names;
    if n == 0 {
      assert names[..0] == [];
      JoinedNone(",");
      RowTextOne(row[0], QuotedAndEscaped);
      assert row == [row[0]];
    } else {
      HeaderIsRow(names[..n]);
      RowTextLast(row, QuotedAndEscaped);
      assert row[..n] == NameRow(names[..n]);
    }
  }

  /** The header line is parsed into a row of as many values as names only if no closing mark before the
      last looks escaped; then each value comes from its own cell. */
  lemma HeaderCellsParsed(names: seq<string>, h: seq<Value>, i: nat, dbl: Doubles)
    requires names != [] && |h| == |names| && i < |names| && AllPrintable(NameRow(names))
    requires ParseRow(RowText(NameRow(names), QuotedAndEscaped), QuotedAndEscaped, dbl) == Ok(h)
    ensures ParseChunk(ChunkOf(Text(String(names[i]), QuotedAndEscaped), QuotedAndEscaped), QuotedAndEscaped, dbl) == Ok(h[i])
  {
    hide *;
    var (row, mode) := (NameRow(names), QuotedAndEscaped);
    NameRowAt(names);
    HeaderIsRow(names);
    AllCellsFound(row, h, dbl);
    CellsOfRow(row, h, i, dbl);
  }

  /** If as many values are parsed as were printed, no closing mark before the last looked escaped. */
  lemma AllCellsFound(row: seq<Value>, h: seq<Value>, dbl: Doubles)
    requires row != [] && |h| == |row| && AllPrintable(row) && RowText(row, QuotedAndEscaped) != ""
    requires ParseRow(RowText(row, QuotedAndEscaped), QuotedAndEscaped, dbl) == Ok(h)
    ensures forall k | 0 <= k < |row| - 1 :: !BadEnd(row[k], QuotedAndEscaped)
  {
    hide RowText, CsvRow.Run, ChunkOf, BadEnd, Printable, ParseChunks, ChunksOf, ParseChunk;
    FewSeparators(START, row);
    var st := CsvRow.Run(START, RowText(row, QuotedAndEscaped), QuotedAndEscaped);
    var pieces := st.done + [st.cur];
    ChunksAt(pieces, QuotedAndEscaped);
    ParseEach(ChunksOf(pieces, QuotedAndEscaped), h, QuotedAndEscaped, dbl);
  }

  lemma CellsOfRow(row: seq<Value>, h: seq<Value>, i: nat, dbl: Doubles)
    requires |h| == |row| && i < |row| && AllPrintable(row) && RowText(row, QuotedAndEscaped) != ""
    requires ParseRow(RowText(row, QuotedAndEscaped), QuotedAndEscaped, dbl) == Ok(h)
    requires forall k | 0 <= k < |row| - 1 :: !BadEnd(row[k], QuotedAndEscaped)
    ensures Printable(row[i])
    ensures ParseChunk(ChunkOf(Text(row[i], QuotedAndEscaped), QuotedAndEscaped), QuotedAndEscaped, dbl) == Ok(h[i])
  {
    hide RowText, CsvRow.Run, ParseChunk, ChunkOf, BadEnd, Printable, ParseChunks, ChunksOf, Texts, Text;
    var texts := Texts(row, QuotedAndEscaped);
    ScanRow(START, row, QuotedAndEscaped);
    TextsAt(row, QuotedAndEscaped);
    assert [] + texts == texts;
    ChunksAt(texts, QuotedAndEscaped);
    ParseEach(ChunksOf(texts, QuotedAndEscaped), h, QuotedAndEscaped, dbl);
  }

  lemma NamesOfRow(names: seq<string>, dbl: Doubles)
    ensures Null !in NameRow(names) && PlainTexts(NameRow(names), dbl) == names
  {
    NameRowAt(names);
    PlainTextsAt(NameRow(names), dbl);
  }

  lemma NamesAreSafe(names: seq<string>, h: seq<Value>, dbl: Doubles)
    requires names != [] && AllPrintable(NameRow(names)) && Null !in h
    requires ParseRow(RowText(NameRow(names), QuotedAndEscaped), QuotedAndEscaped, dbl) == Ok(h)
    requires T.TrimAll(PlainTexts(h, dbl)) == names
    ensures NamesSafe(names, QuotedAndEscaped, dbl)
  {
    hide RowText, ParseRow, Safe, ParseChunk, ChunkOf, Text, Trim, PlainText, AllPrintable, NameRow, T.TrimAll, PlainTexts;
    PlainTextsAt(h, dbl);
    TrimAllAt(PlainTexts(h, dbl));
    forall i | 0 <= i < |names| ensures Safe(String(names[i]), QuotedAndEscaped) {
      HeaderCellsParsed(names, h, i, dbl);
      NameIsSafe(names[i], h[i], dbl);
    }
  }

  /** What the parser makes of a name: the row of the header line must be of that kind for the names to
      come back. */
  ghost predicate GivesNames(h: Result<seq<Value>>, names: seq<string>, dbl: Doubles) {
    h.Ok? && Null !in h.value && T.TrimAll(PlainTexts(h.value, dbl)) == names
  }

  lemma EscapedHeader(names: seq<string>, dbl: Doubles)
    requires names != [] && T.TrimAll(names) == names && AllPrintable(NameRow(names))
    ensures var line := RowText(NameRow(names), QuotedAndEscaped);
      GivesNames(ParseRow(line, QuotedAndEscaped, dbl), names, dbl) <==> NamesSafe(names, QuotedAndEscaped, dbl)
  {
    hide RowText, ParseRow, Safe, NameRow, T.TrimAll, PlainTexts, AllPrintable;
    var (row, mode) := (NameRow(names), QuotedAndEscaped);
    NameRowAt(names);
    assert row != [Null] by { assert row[0] == String(names[0]); }
    RowRoundTrip(row, mode, dbl);
    NamesOfRow(names, dbl);
    if NamesSafe(names, mode, dbl) {
      forall v | v in row ensures Safe(v, mode) {
        var i :| 0 <= i < |row| && row[i] == v;
        assert names[i] in names;
      }
    }
    var h := ParseRow(RowText(row, mode), mode, dbl);
    if GivesNames(h, names, dbl) {
      NamesAreSafe(names, h.value, dbl);
    }
  }

  // ----- Bare names -----

  lemma {:induction false} BareCells(names: seq<string>)
    ensures HeaderCells(names, Quoted) == names
  {
    if names != [] {
      BareCells(names[..|names| - 1]);
    }
  }

  /** Without quotation marks and commas, everything is text of the piece. */
  lemma {:induction false} ScanBare(st: Scan, s: string)
    requires st.Scan? && st.quotes == 0 && '"' !in s && ',' !in s
    ensures var r := CsvRow.Run(st, s, Quoted);
      r.Scan? && r.done == st.done && r.cur == st.cur + s && r.quotes == 0
    decreases |s|
  {
    if s == "" {
      assert st.cur + s == st.cur;
    } else {
      ScanBare(Step(st, s[0], Quoted), s[1..]);
      assert st.cur + [s[0]] + s[1..] == st.cur + s;
    }
  }

  /** The commas between bare names separate them. */
  lemma {:induction false} ScanNames(names: seq<string>)
    requires names != [] && T.GoodNames(names)
    ensures var (line, r) := (Joined(names, ","), CsvRow.Run(START, Joined(names, ","), Quoted));
      line != "" && r.Scan? && r.done + [r.cur] == names && r.quotes == 0
  {
    hide CsvRow.Run, Joined;
    var (front, last) := (names[..|names| - 1], names[|names| - 1]);
    JoinedLast(names);
    if front == [] {
      JoinedNone(",");
      ScanBare(START, last);
      assert "" + last == last && names == [last];
    } else {
      ScanNames(front);
      var st := CsvRow.Run(START, Joined(front, ","), Quoted);
      RunComma(START, Joined(front, ","), last, Quoted);
      var st2 := Step(st, ',', Quoted);
      ScanBare(st2, last);
      assert st2.cur + last == last && names == front + [last];
    }
  }

  lemma JoinedLast(parts: seq<string>)
    requires parts != []
    ensures var front := Joined(parts[..|parts| - 1], ",");
      Joined(parts, ",") == if front == "" then "" + parts[|parts| - 1] else front + "," + parts[|parts| - 1]
  {
  }

  lemma BareChunk(name: string, mode: Mode)
    requires name != "" && Trim(name) == name && mode.UsesQuotes()
    ensures ChunkOf(name, mode) == Some(name)
  {
  }

  function NumberValue(name: string): Value {
    if IsInt(name) then Long(IntValue(name)) else Double(name)
  }

  lemma TrimmedNumber(n: int)
    ensures Trim(IntText(n)) == IntText(n)
  {
    hide IntText, Trim;
    IntTextShape(n);
    TrimKeeps(IntText(n));
  }

  /** A bare name gives itself back exactly if it is a number that is printed again as it was. */
  lemma BareName(name: string, v: Value, dbl: Doubles)
    requires name != "" && Trim(name) == name && '"' !in name
    ensures var r := ParseChunk(ChunkOf(name, Quoted), Quoted, dbl);
      && (r == Ok(v) && !v.Null? && Trim(PlainText(v, dbl)) == name ==> NumberName(name, dbl))
      && (NumberName(name, dbl) ==>
        r == Ok(NumberValue(name)) && Trim(PlainText(NumberValue(name), dbl)) == name)
  {
    hide Trim, IsDouble, IntText, ChunkOf;
    BareChunk(name, Quoted);
    if IsInt(name) {
      TrimmedNumber(IntValue(name));
    }
    assert name[0] in name;
  }

  function NumberRow(names: seq<string>): (row: seq<Value>)
    ensures |row| == |names|
  {
    if names == [] then [] else NumberRow(names[..|names| - 1]) + [NumberValue(names[|names| - 1])]
  }

  lemma {:induction false} NumberRowAt(names: seq<string>)
    ensures Null !in NumberRow(names)
    ensures forall i | 0 <= i < |names| :: NumberRow(names)[i] == NumberValue(names[i])
  {
    if names != [] {
      NumberRowAt(names[..|names| - 1]);
    }
  }

  lemma BareHeader(names: seq<string>, dbl: Doubles)
    requires names != [] && T.GoodNames(names) && T.TrimAll(names) == names
    ensures GivesNames(ParseRow(Joined(names, ","), Quoted, dbl), names, dbl) <==> NamesSafe(names, Quoted, dbl)
  {
    hide CsvRow.Run, ParseChunk, ChunkOf, ParseChunks, ChunksOf, Joined, Trim, PlainText, PlainTexts, T.TrimAll, NumberName, NumberValue, NumberRow;
    ScanNames(names);
    TrimAllAt(names);
    ChunksAt(names, Quoted);
    var r := ParseRow(Joined(names, ","), Quoted, dbl);
    if GivesNames(r, names, dbl) {
      var h := r.value;
      ParseEach(ChunksOf(names, Quoted), h, Quoted, dbl);
      PlainTextsAt(h, dbl);
      TrimAllAt(PlainTexts(h, dbl));
      forall i | 0 <= i < |names| ensures NumberName(names[i], dbl) {
        BareName(names[i], h[i], dbl);
      }
    }
    if NamesSafe(names, Quoted, dbl) {
      var h := NumberRow(names);
      NumberRowAt(names);
      forall i | 0 <= i < |names|
        ensures ParseChunk(ChunkOf(names[i], Quoted), Quoted, dbl) == Ok(h[i]) && Trim(PlainText(h[i], dbl)) == names[i]
      {
        assert names[i] in names;
        BareName(names[i], h[i], dbl);
      }
      ParseEach(ChunksOf(names, Quoted), h, Quoted, dbl);
      PlainTextsAt(h, dbl);
      TrimAllAt(PlainTexts(h, dbl));
      assert T.TrimAll(PlainTexts(h, dbl)) == names;
    }
  }

  /** The header line, once it is read as one line. */
  lemma HeaderAccepted(names: seq<string>, line: string, mode: Mode, dbl: Doubles)
    requires names != [] && T.GoodNames(names) && line != "" && Chopped(line) == line
    ensures var r := WithLine(T.EMPTY, line, true, mode, dbl);
      && (r.Ok? && r.value.header == T.Numbered(names) <==> GivesNames(ParseRow(line, mode, dbl), names, dbl))
      && (r.Ok? ==> r.value.rows == [] && r.value.colCount > 0)
      && (r.Ok? && r.value.header == T.Numbered(names) ==> r.value.colCount == |names|)
  {
    hide ParseRow, T.Numbered, T.TrimAll, PlainTexts, T.GoodNames, Chopped;
    ParsedNotEmpty(line, mode, dbl);
    var h := ParseRow(line, mode, dbl);
    if h.Ok? && Null !in h.value {
      var ns := T.TrimAll(PlainTexts(h.value, dbl));
      if T.GoodNames(ns) && T.Numbered(ns) == T.Numbered(names) {
        NumberedInjective(ns, names);
      }
    }
  }

  // ----- The ends of names and lines -----

  lemma ProperEnds(name: string)
    requires name != "" && Trim(name) == name
    ensures !IsSpace(name[0]) && !IsSpace(name[|name| - 1])
  {
    hide TrimLeft, TrimRight;
    TrimLeftEnd(name);
    TrimRightEnds(TrimLeft(name));
  }

  /** A line of names starts and ends like them, and has no characters but theirs and commas. */
  lemma {:induction false} JoinedEnds(names: seq<string>)
    requires names != [] && T.GoodNames(names) && forall name | name in names :: Trim(name) == name
    ensures var line := Joined(names, ",");
      && line != "" && !IsSpace(line[0]) && !IsSpace(line[|line| - 1]) && line[|line| - 1] != ','
      && forall c | c in line :: c == ',' || exists name | name in names :: c in name
  {
    hide Trim, Joined;
    var (front, last) := (names[..|names| - 1], names[|names| - 1]);
    assert last in names && names == front + [last];
    ProperEnds(last);
    JoinedLast(names);
    if front == [] {
      JoinedNone(",");
      assert "" + last == last;
    } else {
      JoinedEnds(front);
    }
    assert last[|last| - 1] != ',' by {
      assert last[|last| - 1] in last;
    }
  }

  lemma NoSuchNumber(name: string, dbl: Doubles)
    requires NumberName(name, dbl)
    ensures '\n' !in name
  {
    hide Trim, IntText;
  }

  // ----- The lines of the text -----

  lemma {:induction false} UnlinesConcat(a: seq<string>, b: seq<string>)
    ensures Unlines(a + b) == Unlines(a) + Unlines(b)
  {
    hide Unlines;
    if b == [] {
      NoHeaderLines(Quoted);
      assert a + b == a && Unlines(a) + "" == Unlines(a);
    } else {
      var (front, last) := (b[..|b| - 1], b[|b| - 1]);
      UnlinesConcat(a, front);
      assert a + b == (a + front) + [last] && b == front + [last];
      UnlinesMore(a + front, last);
      UnlinesMore(front, last);
      RegroupFour(Unlines(a), Unlines(front), last, "\n");
    }
  }

  lemma {:induction false} UnlinesInterleave(parts: seq<string>)
    requires parts != []
    ensures Unlines(parts) == Interleave(parts, "\n") + "\n"
  {
    hide Unlines;
    assert parts == [parts[0]] + parts[1..];
    UnlinesFront(parts[0], parts[1..]);
    if |parts| == 1 {
      NoHeaderLines(Quoted);
      assert parts[1..] == [];
    } else {
      UnlinesInterleave(parts[1..]);
    }
  }

  /** A text of several lines, printed as one. */
  lemma BrokenLine(line: string)
    ensures Unlines([line]) == Unlines(Parts(line, "\n"))
  {
    hide Parts;
    PartsRestore(line, "\n");
    UnlinesInterleave(Parts(line, "\n"));
    UnlinesMore([], line);
    assert [] + [line] == [line];
  }

  /** The lines a header is read as. */
  function HeaderParts(names: seq<string>, mode: Mode): seq<string> {
    if names == [] then [] else NonEmpty(Parts(Joined(HeaderCells(names, mode), ","), "\n"))
  }

  lemma TextLines(names: seq<string>, rows: seq<seq<Value>>, mode: Mode)
    requires Printables(rows) && [] !in rows && mode.UsesQuotes() && forall row | row in rows :: OneLine(row, mode)
    ensures Printables(Dropped(rows))
    ensures E.Kept(Parts(TextOf(names, rows, mode), "\n"), false, false) ==
      HeaderParts(names, mode) + RowLines(Dropped(rows), mode)
  {
    hide RowLines, Parts, E.Kept, NonEmpty, Unlines, Joined, HeaderCells, OneLine, Dropped, AllPrintable;
    var lines := RowLines(rows, mode);
    RowLinesClean(rows, mode);
    PrintedLines(rows, mode);
    if names == [] {
      assert [] + lines == lines && [] + NonEmpty(lines) == NonEmpty(lines);
      LinesRestored(lines);
    } else {
      var line := Joined(HeaderCells(names, mode), ",");
      var parts := Parts(line, "\n");
      UnlinesConcat([line], lines);
      UnlinesConcat(parts, lines);
      BrokenLine(line);
      PartsAreLines(line);
      LinesRestored(parts + lines);
      NonEmptyConcat(parts, lines);
    }
  }

  /** What the parser makes of the text: the table of its lines. */
  lemma TextTable(names: seq<string>, rows: seq<seq<Value>>, mode: Mode, dbl: Doubles)
    requires Printables(rows) && [] !in rows && mode.UsesQuotes() && forall row | row in rows :: OneLine(row, mode)
    ensures Printables(Dropped(rows))
    ensures TableOf(TextOf(names, rows, mode), names != [], mode, dbl) ==
      WithLines(T.EMPTY, HeaderParts(names, mode) + RowLines(Dropped(rows), mode), names != [], mode, dbl)
  {
    hide RowLines, Parts, E.Kept, WithLine, HeaderParts, TextOf, OneLine, Dropped, AllPrintable;
    TextLines(names, rows, mode);
    NothingKept();
  }

  lemma NothingKept()
    ensures E.Kept(Parts("", "\n"), false, false) == []
  {
    hide Parts, E.Kept;
    E.FirstPart("", "\n");
    E.FindInEmpty("\n");
    E.KeptSingle("", false, false);
  }

  /** A header line without a newline is read as one line. */
  lemma HeaderInOneLine(names: seq<string>, mode: Mode)
    requires names != []
    requires var line := Joined(HeaderCells(names, mode), ","); line != "" && '\n' !in line
    ensures HeaderParts(names, mode) == [Joined(HeaderCells(names, mode), ",")]
  {
    hide Parts, Joined, HeaderCells, Find;
    var line := Joined(HeaderCells(names, mode), ",");
    FindFirst(line, "\n", 0);
    E.FirstPart(line, "\n");
    forall p: nat ensures !OccursAt(line, "\n", p) {
      if p < |line| {
        assert line[p] in line && line[p..p + 1] == [line[p]];
      }
    }
    OnlyLine(line);
  }

  lemma HeaderParsed(names: seq<string>, mode: Mode, dbl: Doubles)
    requires names != [] && T.GoodNames(names) && T.TrimAll(names) == names && mode.UsesQuotes()
    requires '\n' !in Joined(HeaderCells(names, mode), ",")
    ensures var r := WithLines(T.EMPTY, HeaderParts(names, mode), true, mode, dbl);
      && (r.Ok? && r.value.header == T.Numbered(names) <==> NamesSafe(names, mode, dbl))
      && (r.Ok? ==> r.value.rows == [] && r.value.colCount > 0)
      && (r.Ok? && r.value.header == T.Numbered(names) ==> r.value.colCount == |names|)
  {
    hide Joined, HeaderCells, HeaderParts, WithLine, NamesSafe, GivesNames, T.Numbered, T.TrimAll, T.GoodNames, RowText, NameRow, AllPrintable, Chopped;
    var line := Joined(HeaderCells(names, mode), ",");
    if mode.UsesEscaping() {
      HeaderIsRow(names);
      EscapedHeader(names, dbl);
      RowTextClean(NameRow(names), mode);
    } else {
      BareCells(names);
      NamesTrimmed(names);
      JoinedEnds(names);
      BareHeader(names, dbl);
    }
    ChoppedClean(line);
    HeaderInOneLine(names, mode);
    HeaderAccepted(names, line, mode, dbl);
    assert [line][..0] == [];
  }

  lemma NamesTrimmed(names: seq<string>)
    requires T.TrimAll(names) == names
    ensures forall name | name in names :: Trim(name) == name
  {
    TrimAllAt(names);
  }

  // ----- A header that is broken into several lines -----

  lemma LastCharKept(s: string)
    requires s != "" && !IsSpace(s[|s| - 1])
    ensures Trim(s) != ""
  {
    LeftKeepsEnd(s);
  }

  lemma {:induction false} LeftKeepsEnd(s: string)
    requires s != "" && !IsSpace(s[|s| - 1])
    ensures TrimLeft(s) != "" && TrimLeft(s)[|TrimLeft(s)| - 1] == s[|s| - 1]
  {
    if IsSpace(s[0]) {
      LeftKeepsEnd(s[1..]);
    }
  }

  /** A line that ends in text is not a single NULL. */
  lemma LineNotNull(line: string, dbl: Doubles)
    requires line != "" && !IsSpace(line[|line| - 1]) && line[|line| - 1] != ','
    ensures ParseRow(line, Quoted, dbl) != Ok([Null])
  {
    hide CsvRow.Run, Trim, IsInt, IsDouble, ChunksOf, ParseChunks;
    var (front, c) := (line[..|line| - 1], line[|line| - 1]);
    RunMore(START, front, c, Quoted);
    assert line == front + [c];
    var st := CsvRow.Run(START, line, Quoted);
    if st.Scan? {
      var pieces := st.done + [st.cur];
      LastCharKept(st.cur);
      ChunksAt(pieces, Quoted);
      ParseEach(ChunksOf(pieces, Quoted), [Null], Quoted, dbl);
      if |pieces| == 1 {
        assert pieces[0] == st.cur;
        assert ParseChunk(ChunksOf(pieces, Quoted)[0], Quoted, dbl) != Ok(Null);
      }
    }
  }

  lemma {:induction false} NonEmptyEnd(lines: seq<string>)
    requires lines != [] && lines[|lines| - 1] != ""
    ensures var r := NonEmpty(lines); r != [] && r[|r| - 1] == lines[|lines| - 1]
  {
    if |lines| > 1 {
      NonEmptyEnd(lines[1..]);
    } else {
      OnlyLine(lines[0]);
      assert lines == [lines[0]];
    }
  }

  /** A text that starts and ends without a space but holds a newline is read as several lines. */
  lemma SeveralLines(line: string)
    requires line != "" && '\n' in line && !IsSpace(line[0]) && !IsSpace(line[|line| - 1])
    ensures var lines := NonEmpty(Parts(line, "\n"));
      && |lines| >= 2 && lines[0] != "" && lines[0][0] == line[0]
      && var last := lines[|lines| - 1]; last != "" && last[|last| - 1] == line[|line| - 1]
  {
    hide Parts, Interleave;
    var parts := Parts(line, "\n");
    PartsRestore(line, "\n");
    PartsAreLines(line);
    InterleaveOnce(parts);
    assert parts[0] in parts;
    InterleaveLast(parts, "\n");
    var (front, last) := (Interleave(parts[..|parts| - 1], "\n"), parts[|parts| - 1]);
    assert line == front + "\n" + last;
    assert last != "";
    NonEmptyEnd(parts[1..]);
    assert NonEmpty(parts) == [parts[0]] + NonEmpty(parts[1..]);
  }

  lemma InterleaveOnce(parts: seq<string>)
    requires parts != []
    ensures |parts| == 1 ==> Interleave(parts, "\n") == parts[0]
    ensures |parts| > 1 ==> Interleave(parts, "\n") == parts[0] + "\n" + Interleave(parts[1..], "\n")
  {
  }

  lemma {:induction false} DroppedConcat(a: seq<seq<Value>>, b: seq<seq<Value>>)
    ensures Dropped(a + b) == Dropped(a) + Dropped(b)
  {
    hide Dropped;
    if b == [] {
      DroppedNone();
      assert a + b == a;
    } else {
      DroppedConcat(a, b[..|b| - 1]);
      assert (a + b)[..|a + b| - 1] == a + b[..|b| - 1];
      DroppedMore(b);
      DroppedMore(a + b);
      RegroupThree(Dropped(a), Dropped(b[..|b| - 1]), if b[|b| - 1] == [Null] then [] else [b[|b| - 1]]);
    }
  }

  /** Extra rows in front cannot make up for dropped ones, if the last of them is not dropped itself. */
  lemma NoMakeUp(extra: seq<seq<Value>>, rows: seq<seq<Value>>)
    requires rows == extra + Dropped(rows)
    ensures extra == [] || extra[|extra| - 1] == [Null]
  {
    hide Dropped;
    DroppedConcat(extra, Dropped(rows));
    DroppedRows(rows);
    DroppedRows(Dropped(rows));
    if extra != [] && extra[|extra| - 1] != [Null] {
      DroppedLast(extra);
    }
  }

  lemma DroppedLast(rows: seq<seq<Value>>)
    requires rows != [] && rows[|rows| - 1] != [Null]
    ensures Dropped(rows) != []
  {
  }

  lemma {:induction false} RowLinesAt(rows: seq<seq<Value>>, mode: Mode, i: nat)
    requires Printables(rows) && mode.UsesQuotes() && [] !in rows && i < |rows|
    ensures AllPrintable(rows[i]) && RowLines(rows, mode)[i] == RowText(rows[i], mode)
  {
    hide RowText, AllPrintable;
    assert rows[i] in rows;
    if i < |rows| - 1 {
      assert forall row | row in rows[..|rows| - 1] :: row in rows;
      RowLinesAt(rows[..|rows| - 1], mode, i);
    }
  }

  lemma SafeRowBack(row: seq<Value>, dbl: Doubles)
    requires row != [] && row != [Null] && AllPrintable(row) && AllSafe(row, Quoted)
    ensures ParseRow(Chopped(RowText(row, Quoted)), Quoted, dbl) == Ok(row)
  {
    hide RowText, ParseRow, AllSafe, AllPrintable;
    SafeIsOneLine(row, Quoted);
    RowTextClean(row, Quoted);
    ChoppedClean(RowText(row, Quoted));
    RowComesBack(row, Quoted, dbl);
  }

  /** The rest of a broken header is read as rows, and these do not fit. */
  lemma BrokenHeader(names: seq<string>, rows: seq<seq<Value>>, dbl: Doubles)
    requires names != [] && T.GoodNames(names) && T.TrimAll(names) == names
    requires '\n' in Joined(HeaderCells(names, Quoted), ",")
    requires Printables(rows) && [] !in rows && RowsSafe(rows, Quoted)
    ensures Printables(Dropped(rows))
    ensures var r := WithLines(T.EMPTY, HeaderParts(names, Quoted) + RowLines(Dropped(rows), Quoted), true, Quoted, dbl);
      r.Ok? ==> r.value.rows != rows
  {
    hide Joined, HeaderCells, WithLine, WithLines, NonEmpty, Parts, RowLines, T.TrimAll, T.GoodNames, ParseRow, AllSafe, AllPrintable, RowText, Chopped, Dropped;
    PrintedLines(rows, Quoted);
    var line := Joined(HeaderCells(names, Quoted), ",");
    var (head, tail) := (HeaderParts(names, Quoted), RowLines(Dropped(rows), Quoted));
    BareCells(names);
    NamesTrimmed(names);
    JoinedEnds(names);
    SeveralLines(line);
    var extra := head[1..];
    assert head + tail == [head[0]] + (extra + tail);
    WithLinesConcat(T.EMPTY, [head[0]], extra + tail, true, Quoted, dbl);
    FirstHeaderLine(head[0], dbl);
    var t := WithLines(T.EMPTY, [head[0]], true, Quoted, dbl);
    if t.Ok? {
      HeaderStays(t.value, extra + tail, Quoted, dbl);
      var r := WithLines(t.value, extra + tail, true, Quoted, dbl);
      if r.Ok? && r.value.rows == rows {
        ExtraRows(rows, extra, tail, dbl);
      }
    }
  }

  lemma FirstHeaderLine(line: string, dbl: Doubles)
    requires line != "" && !IsSpace(line[0])
    ensures var t := WithLines(T.EMPTY, [line], true, Quoted, dbl);
      t.Ok? ==> t.value.rows == [] && t.value.colCount > 0
  {
    hide ParseRow, PlainTexts, T.TrimAll, T.Numbered;
    assert [line][..0] == [];
    assert Chopped(line) != "" by {
      assert line != "\r";
    }
    ParsedNotEmpty(Chopped(line), Quoted, dbl);
  }

  lemma ExtraRows(rows: seq<seq<Value>>, extra: seq<string>, tail: seq<string>, dbl: Doubles)
    requires Printables(rows) && Printables(Dropped(rows)) && [] !in rows && RowsSafe(rows, Quoted)
    requires tail == RowLines(Dropped(rows), Quoted) && extra != []
    requires var last := extra[|extra| - 1];
      last != "" && !IsSpace(last[|last| - 1]) && last[|last| - 1] != ','
    ensures !ParsedAs(extra + tail, rows, dbl)
  {
    hide ParseRow, RowText, AllSafe, AllPrintable, Dropped, Chopped, RowLines;
    var (m, d, last) := (|extra|, Dropped(rows), extra[|extra| - 1]);
    DroppedRows(rows);
    ChoppedClean(last);
    LineNotNull(last, dbl);
    if ParsedAs(extra + tail, rows, dbl) {
      forall i | 0 <= i < |d| ensures rows[m + i] == d[i] {
        assert (extra + tail)[m + i] == tail[i] && d[i] in d;
        RowLinesAt(d, Quoted, i);
        SafeRowBack(d[i], dbl);
      }
      assert rows == rows[..m] + d;
      assert (extra + tail)[m - 1] == last;
      NoMakeUp(rows[..m], rows);
    }
  }

  /** The rows that the lines are parsed into. */
  ghost predicate ParsedAs(lines: seq<string>, rows: seq<seq<Value>>, dbl: Doubles) {
    |rows| == |lines| && forall i | 0 <= i < |lines| :: ParseRow(Chopped(lines[i]), Quoted, dbl) == Ok(rows[i])
  }

  // ----- The theorem -----

  /** The tables that are read back: no empty table with columns but without names, no row of a single
      NULL, and only safe strings and names. */
  ghost predicate Readable(t: T.Table, names: seq<string>, mode: Mode, dbl: Doubles) {
    && (t.rows != [] || names != [] || t.colCount == 0) && [Null] !in t.rows
    && RowsSafe(t.rows, mode) && NamesSafe(names, mode, dbl)
  }

  ghost predicate NamedTable(t: T.Table, names: seq<string>) {
    T.Valid(t) && t.header == T.Numbered(names) && T.GoodNames(names) && T.TrimAll(names) == names
  }

  lemma RowLengths(t: T.Table, names: seq<string>)
    requires NamedTable(t, names)
    ensures [] !in t.rows && (forall row | row in t.rows :: |row| == t.colCount)
    ensures names != [] ==> |names| == t.colCount
    ensures t.header == map[] <==> names == []
    ensures t.colCount == 0 ==> t.rows == [] && names == []
  {
    hide T.TrimAll, T.GoodNames, T.Numbered;
    NumberedSize(names);
    T.NoColumnsNoNames(t);
    if names != [] {
      SameSize(t, names);
    }
  }

  lemma SameSize(t: T.Table, names: seq<string>)
    requires NamedTable(t, names) && names != []
    ensures |names| == t.colCount
  {
    hide T.TrimAll, T.Numbered;
    T.NumberedNames(names);
    NumberedSize(names);
    if |names| > t.colCount {
      assert T.Named(T.Numbered(names), names[t.colCount], t.colCount);
      T.BijectionBound(t, names[t.colCount]);
    }
    assert |names| < t.colCount ==> T.HasName(t.header, |names|);
  }

  lemma WithoutNames(t: T.Table, mode: Mode, dbl: Doubles)
    requires NamedTable(t, []) && Printables(t.rows) && mode.UsesQuotes() && forall row | row in t.rows :: OneLine(row, mode)
    ensures Printables(Dropped(t.rows))
    ensures WithLines(T.EMPTY, RowLines(Dropped(t.rows), mode), false, mode, dbl) == Ok(t) <==> Readable(t, [], mode, dbl)
  {
    hide WithLines, RowLines, Dropped, RowsSafe, OneLine, AllPrintable, NameSafe, T.Bijection;
    RowLengths(t, []);
    DroppedRows(t.rows);
    PrintedLines(t.rows, mode);
    RowsParsed(T.EMPTY, Dropped(t.rows), if t.colCount == 0 then 1 else t.colCount, false, mode, dbl);
  }

  lemma WithNames(t: T.Table, names: seq<string>, mode: Mode, dbl: Doubles)
    requires NamedTable(t, names) && names != [] && Printables(t.rows) && mode.UsesQuotes()
    requires (forall row | row in t.rows :: OneLine(row, mode)) && '\n' !in Joined(HeaderCells(names, mode), ",")
    ensures Printables(Dropped(t.rows))
    ensures WithLines(T.EMPTY, HeaderParts(names, mode) + RowLines(Dropped(t.rows), mode), true, mode, dbl) == Ok(t) <==>
      Readable(t, names, mode, dbl)
  {
    hide WithLines, RowLines, Dropped, RowsSafe, NamesSafe, OneLine, AllPrintable, T.Bijection, HeaderParts, Joined, HeaderCells, T.GoodNames, T.TrimAll, T.Numbered;
    RowLengths(t, names);
    DroppedRows(t.rows);
    PrintedLines(t.rows, mode);
    var (head, lines) := (HeaderParts(names, mode), RowLines(Dropped(t.rows), mode));
    WithLinesConcat(T.EMPTY, head, lines, true, mode, dbl);
    HeaderParsed(names, mode, dbl);
    var h := WithLines(T.EMPTY, head, true, mode, dbl);
    if h.Ok? {
      HeaderStays(h.value, lines, mode, dbl);
      if h.value.header == t.header {
        RowsParsed(h.value, Dropped(t.rows), t.colCount, true, mode, dbl);
      }
    }
  }

  lemma BrokenNames(names: seq<string>, dbl: Doubles)
    requires names != [] && T.GoodNames(names) && T.TrimAll(names) == names
    requires '\n' in Joined(HeaderCells(names, Quoted), ",")
    ensures !NamesSafe(names, Quoted, dbl)
  {
    hide Joined, HeaderCells, T.GoodNames, T.TrimAll, NumberName;
    BareCells(names);
    NamesTrimmed(names);
    JoinedEnds(names);
    var name :| name in names && '\n' in name;
    if NumberName(name, dbl) {
      NoSuchNumber(name, dbl);
    }
  }

  lemma EscapedHeaderLine(names: seq<string>, mode: Mode)
    requires names != [] && mode == QuotedAndEscaped
    ensures '\n' !in Joined(HeaderCells(names, mode), ",")
  {
    hide Joined, HeaderCells, RowText, NameRow, AllPrintable;
    HeaderIsRow(names);
    RowTextClean(NameRow(names), mode);
  }

  /** A valid table, with or without names, is read back from its printed text exactly if it is readable,
      in both modes with quotes. */
  lemma TableRoundTrip(t: T.Table, names: seq<string>, mode: Mode, dbl: Doubles)
    requires NamedTable(t, names) && Printables(t.rows) && mode.UsesQuotes()
    ensures TableOf(TextOf(names, t.rows, mode), names != [], mode, dbl) == Ok(t) <==> Readable(t, names, mode, dbl)
  {
    hide TableOf, TextOf, WithLines, RowLines, Dropped, AllSafe, NamesSafe, OneLine, AllPrintable, T.Valid, HeaderParts, Joined, HeaderCells, T.GoodNames, T.TrimAll, T.Numbered;
    RowLengths(t, names);
    if mode == Quoted {
      ParsedTableIsSafe(TextOf(names, t.rows, mode), names != [], dbl);
    }
    if RowsSafe(t.rows, mode) || mode.UsesEscaping() {
      forall row | row in t.rows ensures OneLine(row, mode) {
        RowIsOneLine(row, mode);
      }
      TextTable(names, t.rows, mode, dbl);
      if names == [] {
        NoHeaderParts(mode, RowLines(Dropped(t.rows), mode));
        WithoutNames(t, mode, dbl);
      } else if '\n' in Joined(HeaderCells(names, mode), ",") {
        if mode == QuotedAndEscaped {
          EscapedHeaderLine(names, mode);
        } else {
          BrokenHeader(names, t.rows, dbl);
          BrokenNames(names, dbl);
        }
      } else {
        WithNames(t, names, mode, dbl);
      }
    }
  }

  lemma RowIsOneLine(row: seq<Value>, mode: Mode)
    requires AllSafe(row, mode) || mode.UsesEscaping()
    ensures OneLine(row, mode)
  {
  }

  lemma NoHeaderParts(mode: Mode, lines: seq<string>)
    ensures HeaderParts([], mode) + lines == lines
  {
  }

  // ----- Every table that can be built -----

  /** What the table demands of a name, after trimming it. */
  predicate Proper(name: string) {
    name != "" && !T.BadChar(name) && Trim(name) == name
  }

  ghost predicate AllProper(header: map<string, nat>) {
    forall name | name in header :: Proper(name)
  }

  lemma {:induction false} TrimLeftEnd(s: string)
    ensures TrimLeft(s) == "" || !IsSpace(TrimLeft(s)[0])
  {
    if s != "" && IsSpace(s[0]) {
      TrimLeftEnd(s[1..]);
    }
  }

  lemma {:induction false} TrimRightEnds(s: string)
    ensures var r := TrimRight(s); r == "" || (s != "" && !IsSpace(r[|r| - 1]) && r[0] == s[0])
  {
    if s != "" && IsSpace(s[|s| - 1]) {
      TrimRightEnds(s[..|s| - 1]);
    }
  }

  lemma TrimTwice(s: string)
    ensures Trim(Trim(s)) == Trim(s)
  {
    hide TrimLeft, TrimRight;
    TrimLeftEnd(s);
    TrimRightEnds(TrimLeft(s));
    if Trim(s) == "" {
      TrimNothing();
    } else {
      TrimKeeps(Trim(s));
    }
  }

  lemma TrimNothing()
    ensures Trim("") == ""
  {
  }

  lemma StepProper(t: T.Table, op: T.Op)
    requires AllProper(t.header)
    ensures AllProper(T.After(t, op).header)
  {
    hide Trim, T.BadChar, T.TrimAll, T.Numbered;
    match op
    case SetName(idx, name) => TrimTwice(name);
    case SetNames(names) =>
      var ns := T.TrimAll(names);
      if T.NamesAccepted(t, ns) {
        T.NumberedNames(ns);
        TrimAllAt(names);
        forall i | 0 <= i < |names| ensures Proper(ns[i]) {
          TrimTwice(names[i]);
        }
      }
    case _ =>
  }

  lemma {:induction false} RunProper(t: T.Table, ops: seq<T.Op>)
    requires AllProper(t.header)
    ensures AllProper(T.Run(t, ops).header)
    decreases |ops|
  {
    hide T.After, AllProper;
    if ops != [] {
      StepProper(t, ops[0]);
      RunProper(T.After(t, ops[0]), ops[1..]);
    }
  }

  /** The names of a bijection, in the order of their indices. */
  lemma {:induction false} NamesInOrder(header: map<string, nat>, n: nat, k: nat) returns (names: seq<string>)
    requires T.Bijection(header, n) && k <= n
    ensures |names| == k && forall i | 0 <= i < k :: T.Named(header, names[i], i)
  {
    names := [];
    if k > 0 {
      var front := NamesInOrder(header, n, k - 1);
      assert T.HasName(header, k - 1);
      var name :| T.Named(header, name, k - 1);
      names := front + [name];
    }
  }

  lemma NamesOf(t: T.Table) returns (names: seq<string>)
    requires T.Valid(t) && AllProper(t.header)
    ensures t.header == T.Numbered(names) && T.GoodNames(names) && T.TrimAll(names) == names
    ensures names != [] ==> |names| == t.colCount > 0
  {
    hide Trim, T.BadChar, T.TrimAll, T.Numbered;
    if t.header == map[] {
      names := [];
      NumberedSize([]);
      TrimAllAt([]);
      assert T.TrimAll([]) == [];
    } else {
      names := NamesInOrder(t.header, t.colCount, t.colCount);
      forall i | 0 <= i < |names| ensures Proper(names[i]) {
        assert T.Named(t.header, names[i], i);
      }
      T.NumberedNames(names);
      TrimAllAt(names);
      forall name | name in t.header ensures T.Named(T.Numbered(names), name, t.header[name]) {
        T.BijectionBound(t, name);
        assert T.Named(t.header, names[t.header[name]], t.header[name]);
      }
      forall name | name in T.Numbered(names) ensures name in t.header {
        assert T.Named(t.header, names[T.Numbered(names)[name]], T.Numbered(names)[name]);
      }
      assert T.TrimAll(names) == names;
    }
  }

  /** Every table that allowed operations can build is read back from its printed text exactly if it is
      readable. */
  lemma BuiltTableRoundTrip(ops: seq<T.Op>, mode: Mode, dbl: Doubles) returns (names: seq<string>)
    requires T.AllAllowed(T.EMPTY, ops) && Printables(T.Run(T.EMPTY, ops).rows) && mode.UsesQuotes()
    ensures var t := T.Run(T.EMPTY, ops);
      && NamedTable(t, names)
      && (TableOf(TextOf(names, t.rows, mode), names != [], mode, dbl) == Ok(t) <==> Readable(t, names, mode, dbl))
  {
    hide T.Run, T.AllAllowed, TableOf, TextOf, Readable, T.Numbered, T.GoodNames, T.TrimAll, Proper, AllPrintable;
    var t := T.Run(T.EMPTY, ops);
    T.RunValid(T.EMPTY, ops);
    RunProper(T.EMPTY, ops);
    names := NamesOf(t);
    TableRoundTrip(t, names, mode, dbl);
  }

  // ----- A table with rows of different lengths -----

  /** Behind a lone carriage return a row of one cell is accepted. */
  lemma RaggedTableOccurs(dbl: Doubles)
    ensures var r := TableOf("\r\n1\n", false, Quoted, dbl); r.Ok? && !T.Rectangular(r.value)
  {
    hide WithLine, WithLines, Parts, E.Kept, T.Rectangular;
    RaggedLines();
    FirstRagged(dbl);
    SecondRagged(dbl);
    RaggedRows();
    OneMore(T.EMPTY, "\r", dbl);
    OneMore(T.Table([[]], 0, map[]), "1", dbl);
    WithLinesConcat(T.EMPTY, ["\r"], ["1"], false, Quoted, dbl);
    assert ["\r"] + ["1"] == ["\r", "1"];
  }

  lemma OneMore(t: T.Table, line: string, dbl: Doubles)
    ensures WithLines(t, [line], false, Quoted, dbl) == WithLine(t, line, false, Quoted, dbl)
  {
    hide WithLine;
    assert [line][..0] == [];
  }

  lemma FirstRagged(dbl: Doubles)
    ensures WithLine(T.EMPTY, "\r", false, Quoted, dbl) == Ok(T.Table([[]], 0, map[]))
  {
    hide ParseRow;
    EmptyRow(Quoted, dbl);
    assert Chopped("\r") == "";
    assert T.EMPTY.rows + [[]] == [[]];
  }

  lemma SecondRagged(dbl: Doubles)
    ensures WithLine(T.Table([[]], 0, map[]), "1", false, Quoted, dbl) == Ok(T.Table([[], [Long(1)]], 1, map[]))
  {
    hide ParseRow;
    OneParsed(dbl);
    assert Chopped("1") == "1";
    assert [[]] + [[Long(1)]] == [[], [Long(1)]];
  }

  lemma RaggedLines()
    ensures E.Kept(Parts("\r\n1\n", "\n"), false, false) == ["\r", "1"]
  {
    hide Parts, E.Kept, Unlines;
    NoHeaderLines(Quoted);
    UnlinesMore([], "\r");
    UnlinesMore(["\r"], "1");
    assert [] + ["\r"] == ["\r"] && ["\r"] + ["1"] == ["\r", "1"];
    assert "" + "\r" + "\n" + "1" + "\n" == "\r\n1\n";
    LinesRestored(["\r", "1"]);
    OnlyLine("1");
    assert ["\r", "1"][1..] == ["1"] && NonEmpty(["\r", "1"]) == ["\r"] + NonEmpty(["1"]);
  }

  lemma OneParsed(dbl: Doubles)
    ensures ParseRow("1", Quoted, dbl) == Ok([Long(1)])
  {
    hide ParseRow;
    assert IntText(1) == "1";
    RowTextOne(Long(1), Quoted);
    RowRoundTrip([Long(1)], Quoted, dbl);
  }

  lemma RaggedRows()
    ensures !T.Rectangular(T.Table([[], [Long(1)]], 1, map[]))
  {
    var t := T.Table([[], [Long(1)]], 1, map[]);
    assert |t.rows[0]| == 0;
  }
}
