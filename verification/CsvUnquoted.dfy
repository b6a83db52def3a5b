/** When parsing a row that was printed without quotation marks gives the row back. */
module CsvUnquoted {
  import opened CsvEscape
  import opened CsvRoundTrip
  import opened CsvRow
  import opened Results
  import opened Strings

  /** The strings that survive as one field: those that are neither taken for a NULL nor for a number,
      and that have no backslash followed by the letter n (escaped) or no comma (plain). */
  predicate Legible(v: Value, mode: Mode)
    requires Printable(v)
  {
    v.String? ==>
      && v.s != "" && !IsInt(Trim(Text(v, mode))) && !IsDouble(Trim(Text(v, mode)))
      && if mode.UsesEscaping() then NoBackslashN(v.s) else ',' !in v.s
  }

  // ----- Scanning without quotation marks -----

  /** Where a field begins. */
  predicate AtField(st: Scan, mode: Mode) {
    st.Scan? && st.quotes == 0 && (mode.UsesEscaping() ==> st.prev != '\\')
  }

  /** Text without a comma stays in its field. */
  lemma {:induction false} ScanCommaFree(st: Scan, s: string)
    requires st.Scan? && st.quotes == 0 && ',' !in s
    ensures var r := Run(st, s, Plain);
      r.Scan? && r.quotes == 0 && r.done == st.done && r.cur == st.cur + s
    decreases |s|
  {
    if s == "" {
      assert st.cur + s == st.cur;
    } else {
      assert s[0] in s;
      ScanCommaFree(Step(st, s[0], Plain), s[1..]);
      assert st.cur + [s[0]] + s[1..] == st.cur + s;
    }
  }

  /** Without escaping, every comma separates. */
  lemma {:induction false} ScanCommas(st: Scan, s: string)
    requires st.Scan? && st.quotes == 0
    ensures var r := Run(st, s, Plain); r.Scan? && |r.done| == |st.done| + Count(s, ',')
    decreases |s|
  {
    if s != "" {
      ScanCommas(Step(st, s[0], Plain), s[1..]);
    }
  }

  /** The text of a field stays in one piece, and with escaping its end tells whether the comma behind it
      separates. */
  lemma ScanBare(st: Scan, v: Value, mode: Mode)
    requires Printable(v) && !mode.UsesQuotes() && AtField(st, mode)
    requires v.String? && !mode.UsesEscaping() ==> ',' !in v.s
    ensures var r := Run(st, Text(v, mode), mode);
      && r.Scan? && r.quotes == 0 && r.done == st.done && r.cur == st.cur + Text(v, mode)
      && (mode.UsesEscaping() ==> (r.prev == '\\' <==> BadEnd(v, mode)))
  {
    hide Step, IntText, Run, Coded, Escape;
    match v
    case Null =>
      RunNothing(st, mode);
      assert st.cur + "" == st.cur;
    case Long(n) =>
      IntTextShape(n);
      ScanPlain(st, IntText(n), mode);
    case String(s) =>
      if mode.UsesEscaping() {
        EscapeIsOnePass(s);
        ScanCoded(st, s, mode);
      } else {
        ScanCommaFree(st, s);
      }
  }

  /** The comma behind a field separates, unless it looks escaped. */
  lemma CommaBehind(st: Scan, mode: Mode)
    requires st.Scan? && st.quotes == 0 && !mode.UsesQuotes()
    ensures Step(st, ',', mode) ==
      if mode.UsesEscaping() && st.prev == '\\' then Scan(st.done, st.cur + [','], 0, ',')
      else Scan(st.done + [st.cur], "", 0, ',')
  {
  }

  /** The splitter finds the printed fields if none before the last ends in a backslash. */
  lemma {:induction false} ScanBareRow(st: Scan, row: seq<Value>, mode: Mode)
    requires row != [] && AllPrintable(row) && !mode.UsesQuotes() && AtField(st, mode) && st.cur == ""
    requires !mode.UsesEscaping() ==> forall v | v in row :: v.String? ==> ',' !in v.s
    requires forall i | 0 <= i < |row| - 1 :: !BadEnd(row[i], mode)
    ensures var r := Run(st, RowText(row, mode), mode);
      r.Scan? && r.done + [r.cur] == st.done + Texts(row, mode)
    decreases |row|
  {
    hide Text, BadEnd, Run, Step;
    assert row[0] in row;
    var t := Text(row[0], mode);
    ScanBare(st, row[0], mode);
    assert "" + t == t;
    if |row| == 1 {
      assert Texts(row, mode) == [t];
    } else {
      var st1 := Run(st, t, mode);
      RunComma(st, t, RowText(row[1..], mode), mode);
      CommaBehind(st1, mode);
      ScanBareRow(Step(st1, ',', mode), row[1..], mode);
      assert st.done + [t] + Texts(row[1..], mode) == st.done + Texts(row, mode);
    }
  }

  /** Escaped, a field before the last that ends in a backslash swallows its separator. */
  lemma {:induction false} FewBareSeparators(st: Scan, row: seq<Value>)
    requires row != [] && AllPrintable(row) && AtField(st, Escaped)
    ensures var r := Run(st, RowText(row, Escaped), Escaped);
      && r.Scan? && |r.done| <= |st.done| + |row| - 1
      && ((exists i | 0 <= i < |row| - 1 :: BadEnd(row[i], Escaped)) ==> |r.done| <= |st.done| + |row| - 2)
    decreases |row|
  {
    hide Text, BadEnd, Run, Step;
    assert row[0] in row;
    var t := Text(row[0], Escaped);
    ScanBare(st, row[0], Escaped);
    if |row| > 1 {
      var st1 := Run(st, t, Escaped);
      RunComma(st, t, RowText(row[1..], Escaped), Escaped);
      CommaBehind(st1, Escaped);
      FewBareSeparators(Step(st1, ',', Escaped), row[1..]);
      LaterBadEnd(row, Escaped);
    }
  }

  lemma {:induction false} CommaCounted(s: string)
    requires ',' in s
    ensures Count(s, ',') > 0
  {
    if s[0] != ',' {
      CommaCounted(s[1..]);
    }
  }

  /** Plain, a comma inside a field is one separator too many. */
  lemma {:induction false} ManyCommas(row: seq<Value>)
    requires row != [] && AllPrintable(row)
    ensures Count(RowText(row, Plain), ',') >= |row| - 1
    ensures (exists v | v in row :: v.String? && ',' in v.s) ==> Count(RowText(row, Plain), ',') >= |row|
  {
    hide Count;
    assert row[0] in row;
    var t := Text(row[0], Plain);
    if row[0].String? && ',' in row[0].s {
      CommaCounted(t);
    }
    if |row| > 1 {
      ManyCommas(row[1..]);
      CountConcat(t + ",", RowText(row[1..], Plain), ',');
      CountConcat(t, ",", ',');
      CommaCounted(",");
    }
    assert forall v | v in row :: v == row[0] || v in row[1..];
  }

  // ----- Parsing -----

  /** A field by itself comes back exactly if it is legible. */
  lemma ParseBare(v: Value, mode: Mode, dbl: Doubles)
    requires Printable(v) && v != Null && !mode.UsesQuotes()
    requires v.String? && !mode.UsesEscaping() ==> ',' !in v.s
    ensures ParseChunk(ChunkOf(Text(v, mode), mode), mode, dbl) == Ok(v) <==> Legible(v, mode)
  {
    hide IntText, Trim, Escape, Unescape, IsInt, IsDouble, Coded;
    if v.Long? {
      ParseLong(v.n, mode, dbl);
    } else {
      EscapeRoundTrip(v.s);
      EscapedEmpty(v.s);
    }
  }

  lemma EscapedEmpty(s: string)
    ensures Escape(s, false) == "" <==> s == ""
  {
    hide Escape, Code;
    EscapeIsOnePass(s);
  }

  lemma BareTextEmpty(row: seq<Value>, mode: Mode)
    requires row != [] && AllPrintable(row) && Null !in row && !mode.UsesQuotes() && RowText(row, mode) == ""
    ensures exists v | v in row :: !Legible(v, mode)
  {
    hide IntText, Escape, Trim, IsInt, IsDouble;
    assert row[0] in row && row[0] != Null && |row| == 1;
    if row[0].Long? {
      IntTextShape(row[0].n);
    } else {
      EscapedEmpty(row[0].s);
      assert !Legible(row[0], mode);
    }
  }

  lemma ParseBareSplit(row: seq<Value>, mode: Mode, dbl: Doubles)
    requires row != [] && AllPrintable(row) && Null !in row && !mode.UsesQuotes() && RowText(row, mode) != ""
    requires !mode.UsesEscaping() ==> forall v | v in row :: v.String? ==> ',' !in v.s
    requires forall i | 0 <= i < |row| - 1 :: !BadEnd(row[i], mode)
    ensures ParseRow(RowText(row, mode), mode, dbl) == Ok(row) <==> forall v | v in row :: Legible(v, mode)
  {
    hide RowText, Run, Text, ParseChunk, ChunkOf, Legible, BadEnd, Printable, ParseChunks, ChunksOf, Texts;
    ScanBareRow(START, row, mode);
    var pieces := Texts(row, mode);
    TextsAt(row, mode);
    ChunksAt(pieces, mode);
    var chunks := ChunksOf(pieces, mode);
    ParseEach(chunks, row, mode, dbl);
    assert [] + pieces == pieces;
    forall i | 0 <= i < |row|
      ensures ParseChunk(chunks[i], mode, dbl) == Ok(row[i]) <==> Legible(row[i], mode)
    {
      assert row[i] in row;
      ParseBare(row[i], mode, dbl);
    }
    assert forall v | v in row :: exists i | 0 <= i < |row| :: row[i] == v;
  }

  /** With one separator too many or too few the row cannot come back. */
  lemma WrongCount(text: string, row: seq<Value>, mode: Mode, dbl: Doubles)
    requires text != "" && Run(START, text, mode).Scan? && |Run(START, text, mode).done| != |row| - 1
    ensures ParseRow(text, mode, dbl) != Ok(row)
  {
    hide Run, ParseChunk, ChunkOf, ParseChunks, ChunksOf;
    var st := Run(START, text, mode);
    ChunksAt(st.done + [st.cur], mode);
    ParseEach(ChunksOf(st.done + [st.cur], mode), row, mode, dbl);
  }

  // ----- The theorem -----

  /** Without quotation marks, a printed row is parsed back exactly if all its strings are legible and,
      escaped, none before the last ends in a backslash. */
  lemma BareRowRoundTrip(row: seq<Value>, mode: Mode, dbl: Doubles)
    requires row != [] && AllPrintable(row) && Null !in row && !mode.UsesQuotes()
    ensures ParseRow(RowText(row, mode), mode, dbl) == Ok(row) <==>
      (forall v | v in row :: Legible(v, mode)) && forall i | 0 <= i < |row| - 1 :: !BadEnd(row[i], mode)
  {
    hide RowText, ParseRow, Printable, IsInt, IsDouble, Trim, Text;
    var text := RowText(row, mode);
    if text == "" {
      BareTextEmpty(row, mode);
      NothingParsed(mode, dbl);
    } else if mode == Escaped && exists i | 0 <= i < |row| - 1 :: BadEnd(row[i], mode) {
      FewBareSeparators(START, row);
      WrongCount(text, row, mode, dbl);
    } else if mode == Plain && exists v | v in row :: v.String? && ',' in v.s {
      ManyCommas(row);
      ScanCommas(START, text);
      WrongCount(text, row, mode, dbl);
    } else {
      ParseBareSplit(row, mode, dbl);
    }
  }

  lemma NothingParsed(mode: Mode, dbl: Doubles)
    ensures ParseRow("", mode, dbl) == Ok([])
  {
  }
}
