/** What the operations of a table and its texts do, one by one. */
module CsvTableFacts {
  import opened CsvEscape
  import opened CsvRow
  import opened CsvText
  import opened CsvTextRoundTrip
  import opened Results
  import opened Strings
  import E = EString
  import T = CsvTable

  // ----- Operations -----

  /** Appending puts the row behind all others, which stay. */
  lemma AppendedRow(t: T.Table, row: seq<Value>)
    requires t.colCount == 0 || |row| == t.colCount
    ensures var u := T.After(t, T.Append(row));
      |u.rows| == |t.rows| + 1 && u.rows[|t.rows|] == row && u.rows[..|t.rows|] == t.rows && u.header == t.header
  {
  }

  /** Erasing rows keeps those in front of the range and those behind it, in their order. */
  lemma ErasedRows(t: T.Table, first: nat, last: nat)
    requires first <= last <= |t.rows|
    ensures var u := T.After(t, T.EraseRows(first, last));
      && |u.rows| == |t.rows| - (last - first) && u.header == t.header && u.colCount == t.colCount
      && forall k | 0 <= k < |u.rows| :: u.rows[k] == t.rows[if k < first then k else k + (last - first)]
  {
  }

  /** A column with a name takes every other name that has no comma and no quotation mark and that no column
      has; surrounding white space is dropped. */
  lemma NewNameTaken(t: T.Table, idx: nat, name: string)
    requires T.HasName(t.header, idx) && Trim(name) != "" && Trim(name) !in t.header
    requires forall c | c in Trim(name) :: c != ',' && c != '"'
    ensures T.Named(T.After(t, T.SetName(idx, name)).header, Trim(name), idx)
  {
    hide Trim;
    var present :| T.Named(t.header, present, idx);
    var gone := set n | n in t.header && t.header[n] == idx;
    assert present in gone;
  }

  /** Any distinct names without commas and quotation marks are taken, one for each column. */
  lemma NewNamesTaken(t: T.Table, names: seq<string>)
    requires t.colCount == 0 || |names| == t.colCount
    requires forall i | 0 <= i < |names| :: Trim(names[i]) != "" && forall c | c in Trim(names[i]) :: c != ',' && c != '"'
    requires forall i, j | 0 <= i < j < |names| :: Trim(names[i]) != Trim(names[j])
    ensures forall i | 0 <= i < |names| :: T.Named(T.After(t, T.SetNames(names)).header, Trim(names[i]), i)
  {
    hide Trim, T.Numbered;
    TrimAllAt(names);
    T.NumberedNames(T.TrimAll(names));
  }

  // ----- Printing names -----

  /** Without escaping names are printed as they are; with escaping, and perhaps quotation marks, so that
      they are read back exactly if they have no backslash followed by the letter n. */
  lemma HeaderCellRead(name: string, mode: Mode)
    ensures !mode.UsesEscaping() ==> HeaderCell(name, mode) == name
    ensures mode == Escaped ==> (Unescape(HeaderCell(name, mode)) == Ok(name) <==> NoBackslashN(name))
    ensures mode == QuotedAndEscaped ==> HeaderCell(name, mode) == "\"" + HeaderCell(name, Escaped) + "\""
  {
    EscapeRoundTrip(name);
  }

  // ----- Lines and rows -----

  /** The rows behind the first `skip` lines. */
  ghost predicate RowsOf(rows: seq<seq<Value>>, lines: seq<string>, skip: nat, mode: Mode, dbl: Doubles) {
    && |lines| >= skip && |rows| == |lines| - skip
    && forall i | 0 <= i < |rows| :: ParseRow(Chopped(lines[skip + i]), mode, dbl) == Ok(rows[i])
  }

  lemma RowAdded(t: T.Table, lines: seq<string>, line: string, skip: nat, hasHeader: bool, mode: Mode, dbl: Doubles)
    requires RowsOf(t.rows, lines, skip, mode, dbl) && (hasHeader ==> t.colCount > 0)
    requires WithLine(t, line, hasHeader, mode, dbl).Ok?
    ensures var u := WithLine(t, line, hasHeader, mode, dbl).value;
      RowsOf(u.rows, lines + [line], skip, mode, dbl) && (hasHeader ==> u.colCount == t.colCount)
  {
    hide ParseRow, Chopped;
    var row := ParseRow(Chopped(line), mode, dbl);
    var u := WithLine(t, line, hasHeader, mode, dbl).value;
    assert u.rows == t.rows + [row.value];
  }

  /** Without a header every line becomes a row: none is skipped. */
  lemma {:induction false} LinesAreRows(lines: seq<string>, mode: Mode, dbl: Doubles)
    requires WithLines(T.EMPTY, lines, false, mode, dbl).Ok?
    ensures RowsOf(WithLines(T.EMPTY, lines, false, mode, dbl).value.rows, lines, 0, mode, dbl)
  {
    hide WithLine, ParseRow, Chopped;
    if lines != [] {
      var (front, line) := (lines[..|lines| - 1], lines[|lines| - 1]);
      LinesAreRows(front, mode, dbl);
      RowAdded(WithLines(T.EMPTY, front, false, mode, dbl).value, front, line, 0, false, mode, dbl);
      assert front + [line] == lines;
    }
  }

  /** With a header, so does every line behind the first one, unless that is a lone carriage return. */
  lemma {:induction false} LinesBehindHeader(lines: seq<string>, mode: Mode, dbl: Doubles)
    requires WithLines(T.EMPTY, lines, true, mode, dbl).Ok? && lines != [] && Chopped(lines[0]) != ""
    ensures var t := WithLines(T.EMPTY, lines, true, mode, dbl).value;
      t.colCount > 0 && RowsOf(t.rows, lines, 1, mode, dbl)
  {
    hide WithLine, ParseRow, Chopped;
    var (front, line) := (lines[..|lines| - 1], lines[|lines| - 1]);
    if front == [] {
      HeaderTaken(line, mode, dbl);
    } else {
      LinesBehindHeader(front, mode, dbl);
      RowAdded(WithLines(T.EMPTY, front, true, mode, dbl).value, front, line, 1, true, mode, dbl);
      assert front + [line] == lines;
    }
  }

  lemma HeaderTaken(line: string, mode: Mode, dbl: Doubles)
    requires WithLine(T.EMPTY, line, true, mode, dbl).Ok? && Chopped(line) != ""
    ensures var t := WithLine(T.EMPTY, line, true, mode, dbl).value; t.colCount > 0 && t.rows == []
  {
    hide ParseRow, Chopped, PlainTexts, T.TrimAll, T.Numbered, T.GoodNames;
    ParsedNotEmpty(Chopped(line), mode, dbl);
  }

  // ----- Line ends -----

  /** The lines with a carriage return at each end. */
  function Returned(lines: seq<string>): (r: seq<string>)
    ensures |r| == |lines| && forall i | 0 <= i < |lines| :: r[i] == lines[i] + "\r"
  {
    seq(|lines|, i requires 0 <= i < |lines| => lines[i] + "\r")
  }

  /** Lines with something in them, and without line ends. */
  ghost predicate ProperLines(lines: seq<string>) {
    forall line | line in lines :: line != "" && '\n' !in line && line[|line| - 1] != '\r'
  }

  lemma {:induction false} SameLines(t: T.Table, lines: seq<string>, hasHeader: bool, mode: Mode, dbl: Doubles)
    requires ProperLines(lines)
    ensures WithLines(t, Returned(lines), hasHeader, mode, dbl) == WithLines(t, lines, hasHeader, mode, dbl)
  {
    hide WithLine;
    if lines != [] {
      var (front, line) := (lines[..|lines| - 1], lines[|lines| - 1]);
      assert line in lines && forall l | l in front :: l in lines;
      SameLines(t, front, hasHeader, mode, dbl);
      assert Returned(lines)[..|lines| - 1] == Returned(front);
      var u := WithLines(t, front, hasHeader, mode, dbl);
      if u.Ok? {
        SameLine(u.value, line, hasHeader, mode, dbl);
      }
    }
  }

  lemma SameLine(t: T.Table, line: string, hasHeader: bool, mode: Mode, dbl: Doubles)
    requires line != "" && line[|line| - 1] != '\r'
    ensures WithLine(t, line + "\r", hasHeader, mode, dbl) == WithLine(t, line, hasHeader, mode, dbl)
  {
    hide ParseRow, T.After, PlainTexts, T.NamesAccepted;
    assert Chopped(line + "\r") == line == Chopped(line);
  }

  lemma {:induction false} AllNonEmpty(lines: seq<string>)
    requires "" !in lines
    ensures NonEmpty(lines) == lines
  {
    if lines != [] {
      AllNonEmpty(lines[1..]);
    }
  }

  lemma UnlinesEmpty(lines: seq<string>)
    ensures Unlines(lines) == "" <==> lines == []
  {
  }

  /** A text is read in the same way with the line ends of either kind. */
  lemma EitherLineEnd(lines: seq<string>, hasHeader: bool, mode: Mode, dbl: Doubles)
    requires ProperLines(lines)
    ensures TableOf(Unlines(Returned(lines)), hasHeader, mode, dbl) == TableOf(Unlines(lines), hasHeader, mode, dbl)
  {
    hide Unlines, WithLines, Parts, E.Kept, NonEmpty;
    var r := Returned(lines);
    forall line | line in r ensures '\n' !in line && line != "" {
      var i :| 0 <= i < |r| && r[i] == line;
      assert lines[i] in lines;
    }
    LinesRestored(lines);
    LinesRestored(r);
    AllNonEmpty(lines);
    AllNonEmpty(r);
    UnlinesEmpty(lines);
    UnlinesEmpty(r);
    SameLines(T.EMPTY, lines, hasHeader, mode, dbl);
  }
}
