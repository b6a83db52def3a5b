/** Printing a whole table with its header line, and parsing it back. */
module CsvText {
  import opened CsvEscape
  import opened CsvRoundTrip
  import opened CsvRow
  import opened Results
  import opened Strings
  import E = EString
  import T = CsvTable

  // ----- Printing -----

  /** In the quoted mode without escaping, names are printed without quotation marks. */
  function HeaderCell(name: string, mode: Mode): string {
    if mode.UsesEscaping() then Escape(name, mode.UsesQuotes()) else name
  }

  function HeaderCells(names: seq<string>, mode: Mode): (cells: seq<string>)
    ensures |cells| == |names|
  {
    if names == [] then [] else HeaderCells(names[..|names| - 1], mode) + [HeaderCell(names[|names| - 1], mode)]
  }

  ghost predicate Printables(rows: seq<seq<Value>>) {
    forall row | row in rows :: AllPrintable(row)
  }

  function RowLines(rows: seq<seq<Value>>, mode: Mode): (lines: seq<string>)
    requires Printables(rows) && mode.UsesQuotes()
    ensures |lines| == |rows|
  {
    if rows == [] then []
    else
      var last := rows[|rows| - 1];
      RowLines(rows[..|rows| - 1], mode) + [if last == [] then "" else RowText(last, mode)]
  }

  function Unlines(lines: seq<string>): string {
    if lines == [] then "" else Unlines(lines[..|lines| - 1]) + lines[|lines| - 1] + "\n"
  }

  function HeaderLines(names: seq<string>, mode: Mode): seq<string> {
    if names == [] then [] else [Joined(HeaderCells(names, mode), ",")]
  }

  function RowStrings(rows: seq<seq<Value>>, mode: Mode, dbl: Doubles): Result<seq<string>> {
    if rows == [] then Ok([])
    else
      var (front, last) := (RowStrings(rows[..|rows| - 1], mode, dbl), RowString(rows[|rows| - 1], mode, dbl));
      if front.Err? || last.Err? then Err else Ok(front.value + [last.value])
  }

  /** The printed table, or the exception. */
  function TableString(names: seq<string>, rows: seq<seq<Value>>, mode: Mode, dbl: Doubles): Result<string> {
    var lines := RowStrings(rows, mode, dbl);
    if lines.Err? then Err else Ok(Unlines(HeaderLines(names, mode) + lines.value))
  }

  /** The printed table in the modes with quotes, without doubles. */
  function TextOf(names: seq<string>, rows: seq<seq<Value>>, mode: Mode): string
    requires Printables(rows) && mode.UsesQuotes()
  {
    Unlines(HeaderLines(names, mode) + RowLines(rows, mode))
  }

  // ----- Parsing -----

  function Chopped(line: string): string {
    if line != "" && line[|line| - 1] == '\r' then line[..|line| - 1] else line
  }

  /** `asString` of a value in the plain mode; `shown` prints doubles. */
  function PlainText(v: Value, dbl: Doubles): string
    requires !v.Null?
  {
    match v
    case Long(n) => IntText(n)
    case Double(text) => dbl.shown(text)
    case String(s) => s
  }

  function PlainTexts(row: seq<Value>, dbl: Doubles): (texts: seq<string>)
    requires Null !in row
    ensures |texts| == |row|
  {
    if row == [] then [] else PlainTexts(row[..|row| - 1], dbl) + [PlainText(row[|row| - 1], dbl)]
  }

  /** The table after one more line, or the exception. */
  ghost function WithLine(t: T.Table, line: string, hasHeader: bool, mode: Mode, dbl: Doubles): Result<T.Table> {
    var r := ParseRow(Chopped(line), mode, dbl);
    if r.Err? then Err
    else if hasHeader && t.colCount == 0 then
      if Null in r.value then Err
      else
        var names := PlainTexts(r.value, dbl);
        if T.NamesAccepted(t, T.TrimAll(names)) then Ok(T.After(t, T.SetNames(names))) else Err
    else if t.colCount == 0 || |r.value| == t.colCount then Ok(T.After(t, T.Append(r.value)))
    else Err
  }

  ghost function WithLines(t: T.Table, lines: seq<string>, hasHeader: bool, mode: Mode, dbl: Doubles)
    : Result<T.Table>
  {
    if lines == [] then Ok(t)
    else
      var front := WithLines(t, lines[..|lines| - 1], hasHeader, mode, dbl);
      if front.Err? then Err else WithLine(front.value, lines[|lines| - 1], hasHeader, mode, dbl)
  }

  ghost function TableOf(text: string, hasHeader: bool, mode: Mode, dbl: Doubles): Result<T.Table> {
    if text == "" then Ok(T.EMPTY)
    else WithLines(T.EMPTY, E.Kept(Parts(text, "\n"), false, false), hasHeader, mode, dbl)
  }

  // ----- The methods -----

  /** The header line. */
  method PrintHeader(t: T.CsvTable, mode: Mode, ghost names: seq<string>) returns (r: string)
    requires t.header == T.Numbered(names) && T.GoodNames(names) && names != []
    ensures r == Unlines(HeaderLines(names, mode))
  {
    hide Joined, HeaderCell, T.Numbered, T.GoodNames;
    NumberedSize(names);
    assert names[..0] == [];
    JoinedNone(",");
    r := "";
    for colIdx := 0 to |t.header|
      invariant r == Joined(HeaderCells(names[..colIdx], mode), ",")
    {
      var hdr := t.FindHeader(colIdx);
      NumberedAt(names, colIdx, hdr);
      JoinedMore(names, colIdx, mode);
      if r != "" {
        r := r + ",";
      }
      r := r + HeaderCell(hdr.value, mode);
    }
    assert names[..|names|] == names;
    r := r + "\n";
    UnlinesMore([], Joined(HeaderCells(names, mode), ","));
    assert [] + HeaderLines(names, mode) == HeaderLines(names, mode);
  }

  /** `CSV_Table::asString`; `names` are the column names in the order of the columns. */
  method PrintTable(t: T.CsvTable, includeHeaders: bool, mode: Mode, dbl: Doubles, ghost names: seq<string>)
    returns (r: Result<string>)
    requires t.header == T.Numbered(names) && T.GoodNames(names)
    ensures r == TableString(if includeHeaders then names else [], t.rows, mode, dbl)
  {
    hide RowString, HeaderLines, T.Numbered, T.GoodNames, Unlines;
    NumberedSize(names);
    NoHeaderLines(mode);
    var text := "";
    if includeHeaders && t.header != map[] {
      text := PrintHeader(t, mode, names);
    }
    ghost var header := HeaderLines(if includeHeaders then names else [], mode);
    ghost var lines: seq<string> := [];
    assert t.rows[..0] == [] && header + [] == header;
    for i := 0 to |t.rows|
      invariant RowStrings(t.rows[..i], mode, dbl) == Ok(lines)
      invariant text == Unlines(header + lines)
    {
      RowStringsMore(t.rows, i, mode, dbl);
      var line := RowAsString(t.rows[i], mode, dbl);
      if line.Err? {
        RowStringsFail(t.rows, i + 1, mode, dbl);
        return Err;
      }
      assert header + (lines + [line.value]) == header + lines + [line.value];
      UnlinesMore(header + lines, line.value);
      lines := lines + [line.value];
      text := text + line.value;
      text := text + "\n";
    }
    assert t.rows[..|t.rows|] == t.rows;
    return Ok(text);
  }

  lemma RowStringsMore(rows: seq<seq<Value>>, i: nat, mode: Mode, dbl: Doubles)
    requires i < |rows|
    ensures RowStrings(rows[..i + 1], mode, dbl) ==
      (var (front, last) := (RowStrings(rows[..i], mode, dbl), RowString(rows[i], mode, dbl));
       if front.Err? || last.Err? then Err else Ok(front.value + [last.value]))
  {
    assert rows[..i + 1][..i] == rows[..i];
  }

  lemma {:induction false} RowStringsFail(rows: seq<seq<Value>>, i: nat, mode: Mode, dbl: Doubles)
    requires i <= |rows| && RowStrings(rows[..i], mode, dbl).Err?
    ensures RowStrings(rows, mode, dbl).Err?
    decreases |rows|
  {
    if i == |rows| {
      assert rows[..i] == rows;
    } else {
      assert rows[..|rows| - 1][..i] == rows[..i];
      RowStringsFail(rows[..|rows| - 1], i, mode, dbl);
    }
  }

  /** With quotes and without doubles, printing gives the text of the table. */
  lemma {:induction false} TableStringIsText(names: seq<string>, rows: seq<seq<Value>>, mode: Mode, dbl: Doubles)
    requires Printables(rows) && mode.UsesQuotes()
    ensures RowStrings(rows, mode, dbl) == Ok(RowLines(rows, mode))
    ensures TableString(names, rows, mode, dbl) == Ok(TextOf(names, rows, mode))
    decreases |rows|
  {
    hide RowString, RowText, AllPrintable, Unlines, HeaderLines;
    if rows != [] {
      var last := rows[|rows| - 1];
      assert last in rows && forall row | row in rows[..|rows| - 1] :: row in rows;
      TableStringIsText(names, rows[..|rows| - 1], mode, dbl);
      RowStringIsText(last, mode, dbl);
    }
  }

  lemma NoHeaderLines(mode: Mode)
    ensures HeaderLines([], mode) == [] && Unlines([]) == ""
  {
  }

  lemma NumberedSize(names: seq<string>)
    requires T.GoodNames(names)
    ensures |T.Numbered(names)| == |names|
    ensures T.Numbered(names) == map[] <==> names == []
  {
    if names != [] {
      var front := names[..|names| - 1];
      NumberedSize(front);
      T.NumberedNames(front);
      assert names[|names| - 1] !in T.Numbered(front);
    }
  }

  lemma NumberedAt(names: seq<string>, i: nat, found: Option<string>)
    requires T.GoodNames(names) && i < |names|
    requires found.Some? ==> T.Named(T.Numbered(names), found.value, i)
    requires found.None? ==> forall name | name in T.Numbered(names) :: T.Numbered(names)[name] != i
    ensures found == Some(names[i])
  {
    hide T.Numbered;
    T.NumberedNames(names);
    assert T.Named(T.Numbered(names), names[i], i);
  }

  lemma JoinedNone(d: string)
    ensures Joined([], d) == ""
  {
  }

  lemma JoinedMore(names: seq<string>, i: nat, mode: Mode)
    requires i < |names|
    ensures var r := Joined(HeaderCells(names[..i], mode), ",");
      Joined(HeaderCells(names[..i + 1], mode), ",") == (if r == "" then "" else r + ",") + HeaderCell(names[i], mode)
    ensures HeaderCells([], mode) == []
  {
    hide HeaderCell;
    assert names[..i + 1][..i] == names[..i];
    var cells := HeaderCells(names[..i + 1], mode);
    assert cells[..|cells| - 1] == HeaderCells(names[..i], mode);
  }

  lemma UnlinesMore(lines: seq<string>, line: string)
    ensures Unlines(lines + [line]) == Unlines(lines) + line + "\n"
  {
    assert (lines + [line])[..|lines|] == lines;
  }

  /** `setHeader` with a row. */
  method SetHeaderRow(t: T.CsvTable, row: seq<Value>, dbl: Doubles) returns (ok: bool)
    modifies t
    ensures ok <==> Null !in row && T.NamesAccepted(old(t.State()), T.TrimAll(PlainTexts(row, dbl)))
    ensures t.State() == if ok then T.After(old(t.State()), T.SetNames(PlainTexts(row, dbl))) else old(t.State())
  {
    hide PlainText, T.TrimAll, T.NamesAccepted, T.Numbered;
    var v: seq<string> := [];
    assert row[..0] == [];
    for i := 0 to |row|
      invariant Null !in row[..i] && v == PlainTexts(row[..i], dbl)
      invariant t.State() == old(t.State())
    {
      if row[i].Null? {
        return false;
      }
      assert row[..i + 1][..i] == row[..i];
      v := v + [PlainText(row[i], dbl)];
    }
    assert row[..|row|] == row;
    ok := t.SetHeaders(v);
  }

  lemma {:induction false} LinesFail(t: T.Table, lines: seq<string>, i: nat, hasHeader: bool, mode: Mode, dbl: Doubles)
    requires i <= |lines| && WithLines(t, lines[..i], hasHeader, mode, dbl).Err?
    ensures WithLines(t, lines, hasHeader, mode, dbl).Err?
    decreases |lines|
  {
    hide WithLine;
    if i == |lines| {
      assert lines[..i] == lines;
    } else {
      assert lines[..|lines| - 1][..i] == lines[..i];
      LinesFail(t, lines[..|lines| - 1], i, hasHeader, mode, dbl);
    }
  }

  lemma NextLine(t: T.Table, lines: seq<string>, i: nat, hasHeader: bool, mode: Mode, dbl: Doubles)
    requires i < |lines| && WithLines(t, lines[..i], hasHeader, mode, dbl).Ok?
    ensures WithLines(t, lines[..i + 1], hasHeader, mode, dbl) ==
      WithLine(WithLines(t, lines[..i], hasHeader, mode, dbl).value, lines[i], hasHeader, mode, dbl)
  {
    hide WithLine;
    assert lines[..i + 1][..i] == lines[..i];
  }

  /** One turn of the constructor's loop. */
  method AddLine(t: T.CsvTable, line: string, hasHeader: bool, mode: Mode, dbl: Doubles) returns (ok: bool)
    modifies t
    ensures ok <==> WithLine(old(t.State()), line, hasHeader, mode, dbl).Ok?
    ensures ok ==> Ok(t.State()) == WithLine(old(t.State()), line, hasHeader, mode, dbl)
  {
    hide ParseRow, PlainTexts, T.TrimAll, T.NamesAccepted, T.Numbered;
    var chopped := line;
    if line != "" && line[|line| - 1] == '\r' {
      chopped := line[..|line| - 1];
    }
    var row := NewRow(chopped, mode, dbl);
    if row.Err? {
      return false;
    }
    if hasHeader && t.colCount == 0 {
      ok := SetHeaderRow(t, row.value, dbl);
    } else {
      ok := t.Add(row.value);
    }
  }

  /** The constructor of a table from its text; its exceptions are the errors. */
  method ParseTable(text: string, hasHeader: bool, mode: Mode, dbl: Doubles)
    returns (r: Result<T.CsvTable>)
    ensures r.Ok? <==> TableOf(text, hasHeader, mode, dbl).Ok?
    ensures r.Ok? ==> fresh(r.value) && Ok(r.value.State()) == TableOf(text, hasHeader, mode, dbl)
  {
    hide WithLine, E.Kept, Parts;
    var t := new T.CsvTable();
    if text == "" {
      return Ok(t);
    }
    var data := new E.EString.FromString(text);
    var split := data.Split("\n", false, false);
    var lines := split.value;
    assert lines[..0] == [];
    for i := 0 to |lines|
      invariant fresh(t) && WithLines(T.EMPTY, lines[..i], hasHeader, mode, dbl) == Ok(t.State())
    {
      NextLine(T.EMPTY, lines, i, hasHeader, mode, dbl);
      var ok := AddLine(t, lines[i], hasHeader, mode, dbl);
      if !ok {
        LinesFail(T.EMPTY, lines, i + 1, hasHeader, mode, dbl);
        return Err;
      }
    }
    assert lines[..|lines|] == lines;
    return Ok(t);
  }

  lemma ChoppedClean(line: string)
    requires line != "" ==> line[|line| - 1] != '\r'
    ensures Chopped(line) == line
  {
  }

  lemma ParsedNotEmpty(line: string, mode: Mode, dbl: Doubles)
    requires line != ""
    ensures ParseRow(line, mode, dbl) != Ok([])
  {
    hide CsvRow.Run, ChunkOf, ParseChunk;
    var st := CsvRow.Run(START, line, mode);
    if st.Scan? {
      ChunksAt(st.done + [st.cur], mode);
      ParseEach(ChunksOf(st.done + [st.cur], mode), [], mode, dbl);
    }
  }

  // ----- Every table that can be parsed -----

  ghost predicate StartsBlank(lines: seq<string>) {
    lines != [] && lines[0] == "\r"
  }

  ghost predicate AllBlank(lines: seq<string>) {
    forall line | line in lines :: line == "\r"
  }

  /** What parsing some lines without a header has led to. */
  ghost predicate Grown(t: T.Table, lines: seq<string>) {
    if lines == [] then t == T.EMPTY
    else if StartsBlank(lines) then
      && t.rows != [] && t.rows[0] == []
      && if AllBlank(lines) then t.colCount == 0 && T.Rectangular(t) else t.colCount > 0
    else T.Valid(t) && t.colCount > 0
  }

  lemma ChoppedEmpty(line: string)
    requires line != ""
    ensures Chopped(line) == "" <==> line == "\r"
  {
  }

  lemma LineGrows(t: T.Table, lines: seq<string>, line: string, mode: Mode, dbl: Doubles)
    requires Grown(t, lines) && line != ""
    requires WithLine(t, line, false, mode, dbl).Ok?
    ensures Grown(WithLine(t, line, false, mode, dbl).value, lines + [line])
  {
    hide ParseRow, Chopped, T.Bijection;
    var row := ParseRow(Chopped(line), mode, dbl).value;
    ChoppedEmpty(line);
    if Chopped(line) == "" {
      EmptyRow(mode, dbl);
    } else {
      ParsedNotEmpty(Chopped(line), mode, dbl);
    }
    if lines == [] {
      assert T.Valid(T.EMPTY);
    } else {
      assert (lines + [line])[0] == lines[0];
    }
    assert AllBlank(lines + [line]) <==> AllBlank(lines) && line == "\r" by {
      assert line in lines + [line] && forall l | l in lines :: l in lines + [line];
    }
    if T.Valid(t) {
      T.StepValid(t, T.Append(row));
    }
  }

  lemma EmptyRow(mode: Mode, dbl: Doubles)
    ensures ParseRow("", mode, dbl) == Ok([])
  {
  }

  lemma {:induction false} LinesGrow(lines: seq<string>, mode: Mode, dbl: Doubles)
    requires "" !in lines && WithLines(T.EMPTY, lines, false, mode, dbl).Ok?
    ensures Grown(WithLines(T.EMPTY, lines, false, mode, dbl).value, lines)
  {
    hide WithLine, Grown;
    if lines == [] {
      NothingGrown();
    } else {
      var (front, last) := (lines[..|lines| - 1], lines[|lines| - 1]);
      LinesGrow(front, mode, dbl);
      LineGrows(WithLines(T.EMPTY, front, false, mode, dbl).value, front, last, mode, dbl);
      assert lines == front + [last];
    }
  }

  lemma NothingGrown()
    ensures Grown(T.EMPTY, [])
  {
  }

  lemma {:induction false} HeaderLinesValid(lines: seq<string>, mode: Mode, dbl: Doubles)
    ensures var r := WithLines(T.EMPTY, lines, true, mode, dbl); r.Ok? ==> T.Valid(r.value)
  {
    hide ParseRow, T.Valid, T.NamesAccepted, PlainTexts, T.TrimAll, T.Numbered;
    if lines == [] {
      EmptyValid();
    } else {
      var front := WithLines(T.EMPTY, lines[..|lines| - 1], true, mode, dbl);
      HeaderLinesValid(lines[..|lines| - 1], mode, dbl);
      var line := lines[|lines| - 1];
      if front.Ok? {
        var row := ParseRow(Chopped(line), mode, dbl);
        if row.Ok? {
          if front.value.colCount > 0 {
            T.StepValid(front.value, T.Append(row.value));
          } else if Null !in row.value {
            T.StepValid(front.value, T.SetNames(PlainTexts(row.value, dbl)));
          }
        }
      }
    }
  }

  lemma EmptyValid()
    ensures T.Valid(T.EMPTY)
  {
  }

  /** A parsed table is valid exactly if it was parsed with a header, or does not start with a line that
      holds nothing but a carriage return: that line becomes a row without cells. */
  lemma ParsedTableIsValid(text: string, hasHeader: bool, mode: Mode, dbl: Doubles)
    requires TableOf(text, hasHeader, mode, dbl).Ok?
    ensures T.Valid(TableOf(text, hasHeader, mode, dbl).value) <==>
      hasHeader || text == "" || !StartsBlank(E.Kept(Parts(text, "\n"), false, false))
  {
    hide WithLines, E.Kept, Parts, T.Bijection;
    EmptyValid();
    if text != "" {
      var lines := E.Kept(Parts(text, "\n"), false, false);
      if hasHeader {
        HeaderLinesValid(lines, mode, dbl);
      } else {
        KeptNonEmpty(Parts(text, "\n"));
        LinesGrow(lines, mode, dbl);
      }
    }
  }

  /** A parsed table has rows of equal length exactly if, besides that, only such lines are there. */
  lemma ParsedTableIsRectangular(text: string, hasHeader: bool, mode: Mode, dbl: Doubles)
    requires TableOf(text, hasHeader, mode, dbl).Ok?
    ensures var lines := E.Kept(Parts(text, "\n"), false, false);
      T.Rectangular(TableOf(text, hasHeader, mode, dbl).value) <==>
        hasHeader || text == "" || !StartsBlank(lines) || AllBlank(lines)
  {
    hide WithLines, E.Kept, Parts, T.Bijection;
    ParsedTableIsValid(text, hasHeader, mode, dbl);
    var lines := E.Kept(Parts(text, "\n"), false, false);
    if !hasHeader && text != "" {
      KeptNonEmpty(Parts(text, "\n"));
      LinesGrow(lines, mode, dbl);
    }
  }

  lemma {:induction false} KeptNonEmpty(parts: seq<string>)
    ensures "" !in E.Kept(parts, false, false)
  {
    if parts != [] {
      KeptNonEmpty(parts[1..]);
    }
  }
}
