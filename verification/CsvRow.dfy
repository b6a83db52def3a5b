/** Printing a CSV row and parsing it back. */
module CsvRow {
  import opened CsvEscape
  import opened Results
  import opened Strings

  /** How strings appear in the text. */
  datatype Mode = Plain | Quoted | Escaped | QuotedAndEscaped {
    predicate UsesEscaping() {
      this == Escaped || this == QuotedAndEscaped
    }

    predicate UsesQuotes() {
      this == Quoted || this == QuotedAndEscaped
    }
  }

  /** A cell; a double is known by its text only. */
  datatype Value = Null | Long(n: int) | Double(text: string) | String(s: string)

  /** What becomes of the text of a decimal number: whether it is in the range of a double, and how the
      double is printed again. */
  datatype Doubles = Doubles(fits: string -> bool, shown: string -> string)

  const INT64_MIN := -0x8000_0000_0000_0000
  const INT64_MAX := 0x7fff_ffff_ffff_ffff

  // ----- Integers as text -----

  function Digit(d: nat): char
    requires d < 10
  {
    '0' + d as char
  }

  function Decimal(n: nat): string {
    if n < 10 then [Digit(n)] else Decimal(n / 10) + [Digit(n % 10)]
  }

  /** `std::to_string` of an integer. */
  function IntText(n: int): string {
    if n < 0 then "-" + Decimal(-n) else Decimal(n)
  }

  predicate AllDigits(s: string) {
    forall k | 0 <= k < |s| :: IsDigit(s[k])
  }

  /** `estring::isInt` on a non-empty string. */
  predicate IsInt(s: string) {
    s != "" && if s[0] == '-' then |s| >= 2 && AllDigits(s[1..]) else AllDigits(s)
  }

  predicate DigitOrDot(c: char) {
    IsDigit(c) || c == '.'
  }

  /** `estring::isDouble` on a non-empty string. */
  predicate IsDouble(s: string) {
    && s != "" && (s[0] == '-' ==> |s| >= 2) && s !in {".", "-.", ".-"}
    && (forall i, j | 0 <= i < j < |s| :: !(s[i] == '.' && s[j] == '.'))
    && forall k | (if s[0] == '-' then 1 else 0) <= k < |s| :: DigitOrDot(s[k])
  }

  function IntValue(s: string): int
    requires IsInt(s)
  {
    if s[0] == '-' then 0 - Number(s[1..]) else Number(s)
  }

  lemma {:induction false} DecimalShape(n: nat)
    ensures Decimal(n) != "" && AllDigits(Decimal(n)) && Number(Decimal(n)) == n
  {
    if n < 10 {
      assert Number([Digit(n)][..0]) == 0;
    } else {
      DecimalShape(n / 10);
      var (front, last) := (Decimal(n / 10), Digit(n % 10));
      assert Decimal(n)[..|front|] == front;
    }
  }

  /** Reading the text of an integer gives the integer. */
  lemma IntTextShape(n: int)
    ensures IsInt(IntText(n)) && IntValue(IntText(n)) == n
    ensures forall k | 0 <= k < |IntText(n)| :: IsDigit(IntText(n)[k]) || IntText(n)[k] == '-'
  {
    DecimalShape(if n < 0 then -n else n);
    if n < 0 {
      assert IntText(n)[1..] == Decimal(-n);
    } else {
      assert IsDigit(Decimal(n)[0]);
    }
  }

  // ----- Printing -----

  /** The values whose text does not lose anything, other than doubles. */
  predicate Printable(v: Value) {
    !v.Double? && (v.Long? ==> INT64_MIN <= v.n <= INT64_MAX)
  }

  /** `asString` of a value, other than that of a NULL without quotes. */
  function Text(v: Value, mode: Mode): string
    requires Printable(v)
  {
    match v
    case Null => ""
    case Long(n) => IntText(n)
    case String(s) =>
      var e := if mode.UsesEscaping() then Escape(s, false) else s;
      if mode.UsesQuotes() then "\"" + e + "\"" else e
  }

  ghost predicate AllPrintable(row: seq<Value>) {
    forall v | v in row :: Printable(v)
  }

  function RowText(row: seq<Value>, mode: Mode): string
    requires row != [] && AllPrintable(row)
  {
    if |row| == 1 then Text(row[0], mode) else Text(row[0], mode) + "," + RowText(row[1..], mode)
  }

  lemma {:induction false} RowTextLast(row: seq<Value>, mode: Mode)
    requires |row| > 1 && AllPrintable(row)
    ensures AllPrintable(row[..|row| - 1])
    ensures RowText(row, mode) == RowText(row[..|row| - 1], mode) + "," + Text(row[|row| - 1], mode)
  {
    hide Text, Printable;
    var front := row[..|row| - 1];
    if |row| > 2 {
      RowTextLast(row[1..], mode);
      assert row[1..][..|row| - 2] == front[1..];
    } else {
      assert row[1..] == [row[1]] && front == [row[0]];
    }
  }

  /** `asString` of a value in any mode; the exception is that of a NULL without quotes. */
  function AsString(v: Value, mode: Mode, dbl: Doubles): Result<string> {
    match v
    case Null => if mode.UsesQuotes() then Ok("") else Err
    case Long(n) => Ok(IntText(n))
    case Double(text) => Ok(dbl.shown(text))
    case String(s) =>
      var e := if mode.UsesEscaping() then Escape(s, false) else s;
      Ok(if mode.UsesQuotes() then "\"" + e + "\"" else e)
  }

  function RowString(row: seq<Value>, mode: Mode, dbl: Doubles): Result<string> {
    if row == [] then Ok("")
    else if |row| == 1 then AsString(row[0], mode, dbl)
    else
      var (front, last) := (RowString(row[..|row| - 1], mode, dbl), AsString(row[|row| - 1], mode, dbl));
      if front.Err? || last.Err? then Err else Ok(front.value + "," + last.value)
  }

  /** Printing fails exactly on a NULL without quotes. */
  lemma {:induction false} RowStringFails(row: seq<Value>, mode: Mode, dbl: Doubles)
    ensures RowString(row, mode, dbl).Err? <==> !mode.UsesQuotes() && Null in row
  {
    if |row| > 1 {
      RowStringFails(row[..|row| - 1], mode, dbl);
      assert row == row[..|row| - 1] + [row[|row| - 1]];
    }
  }

  /** Without doubles, and without NULLs if there are no quotes, printing gives the text of the row. */
  lemma {:induction false} RowStringIsText(row: seq<Value>, mode: Mode, dbl: Doubles)
    requires AllPrintable(row) && (mode.UsesQuotes() || Null !in row)
    ensures RowString(row, mode, dbl) == Ok(if row == [] then "" else RowText(row, mode))
  {
    hide RowText, IntText, Escape;
    if row != [] {
      var last := row[|row| - 1];
      assert last in row && AsString(last, mode, dbl) == Ok(Text(last, mode));
      if |row| == 1 {
        RowTextOne(last, mode);
        assert row == [last];
      } else {
        RowTextLast(row, mode);
        RowStringIsText(row[..|row| - 1], mode, dbl);
      }
    }
  }

  lemma RowStringMore(row: seq<Value>, i: nat, mode: Mode, dbl: Doubles)
    requires 0 < i < |row|
    ensures RowString(row[..i + 1], mode, dbl) ==
      (var (front, last) := (RowString(row[..i], mode, dbl), AsString(row[i], mode, dbl));
       if front.Err? || last.Err? then Err else Ok(front.value + "," + last.value))
  {
    assert row[..i + 1][..i] == row[..i];
  }

  /** `CSV_Row::asString`. */
  method RowAsString(row: seq<Value>, mode: Mode, dbl: Doubles) returns (r: Result<string>)
    ensures r == RowString(row, mode, dbl)
    ensures r.Err? <==> !mode.UsesQuotes() && Null in row
  {
    hide AsString;
    RowStringFails(row, mode, dbl);
    if row == [] {
      return Ok("");
    }
    var cell := AsString(row[0], mode, dbl);
    assert row[..1] == [row[0]];
    if cell.Err? {
      RowStringFails([row[0]], mode, dbl);
      return Err;
    }
    var text := cell.value;
    for i := 1 to |row|
      invariant RowString(row[..i], mode, dbl) == Ok(text)
    {
      RowStringMore(row, i, mode, dbl);
      text := text + ",";
      cell := AsString(row[i], mode, dbl);
      if cell.Err? {
        RowStringFails(row[..i + 1], mode, dbl);
        return Err;
      }
      text := text + cell.value;
    }
    assert row[..|row|] == row;
    return Ok(text);
  }

  lemma RowTextOne(v: Value, mode: Mode)
    requires Printable(v)
    ensures RowText([v], mode) == Text(v, mode)
  {
  }

  // ----- Splitting the input into chunks -----

  /** The splitter: the pieces before the separators found so far, the piece it is in, the number of
      effective quotation marks in it, and the previous character. */
  datatype Scan = Scan(done: seq<string>, cur: string, quotes: nat, prev: char) | Failed

  function Step(st: Scan, c: char, mode: Mode): Scan {
    match st
    case Failed => Failed
    case Scan(done, cur, quotes, prev) =>
      var effective := !mode.UsesEscaping() || prev != '\\';
      var q := if mode.UsesQuotes() && c == '"' && effective then quotes + 1 else quotes;
      if q > 2 then Failed
      else if c == ',' && q != 1 && effective then Scan(done + [cur], "", 0, c)
      else Scan(done, cur + [c], q, c)
  }

  function Run(st: Scan, s: string, mode: Mode): Scan
    decreases |s|
  {
    if s == "" then st else Run(Step(st, s[0], mode), s[1..], mode)
  }

  const START := Scan([], "", 0, '\0')

  /** What becomes of a piece: nothing left of it means NULL. */
  function ChunkOf(piece: string, mode: Mode): Option<string> {
    var p := if mode.UsesQuotes() && piece != "" then Trim(piece) else piece;
    if p == "" then None else Some(p)
  }

  function ChunksOf(pieces: seq<string>, mode: Mode): seq<Option<string>> {
    if pieces == [] then [] else [ChunkOf(pieces[0], mode)] + ChunksOf(pieces[1..], mode)
  }

  function Chunks(input: string, mode: Mode): Result<seq<Option<string>>> {
    if input == "" then Ok([])
    else match Run(START, input, mode)
      case Failed => Err
      case Scan(done, cur, _, _) => Ok(ChunksOf(done + [cur], mode))
  }

  // ----- Parsing the chunks -----

  /** The value of one chunk, or the exception. */
  function ParseChunk(chunk: Option<string>, mode: Mode, dbl: Doubles): Result<Value> {
    match chunk
    case None => Ok(Null)
    case Some(s) =>
      var trimmed := Trim(s);
      if IsInt(trimmed) then
        var n := IntValue(trimmed);
        if INT64_MIN <= n <= INT64_MAX then Ok(Long(n)) else Err
      else if IsDouble(trimmed) then
        if dbl.fits(trimmed) then Ok(Double(trimmed)) else Err
      else if mode.UsesQuotes() && |s| < 2 then Err
      else if mode.UsesQuotes() && (s[0] != '"' || s[|s| - 1] != '"') then Err
      else if mode == QuotedAndEscaped && |s| > 2 && s[|s| - 2] == '\\' then Err
      else
        var raw := if mode.UsesEscaping() then Unescape(s) else Ok(s);
        if raw.Err? then Err
        else Ok(String(if mode.UsesQuotes() then Stripped(raw.value) else raw.value))
  }

  /** Without the first and the last character. */
  function Stripped(s: string): string {
    if |s| <= 2 then "" else s[1..|s| - 1]
  }

  function ParseChunks(chunks: seq<Option<string>>, mode: Mode, dbl: Doubles): Result<seq<Value>> {
    if chunks == [] then Ok([])
    else
      var v := ParseChunk(chunks[0], mode, dbl);
      if v.Err? then Err
      else
        var rest := ParseChunks(chunks[1..], mode, dbl);
        if rest.Err? then Err else Ok([v.value] + rest.value)
  }

  function ParseRow(input: string, mode: Mode, dbl: Doubles): Result<seq<Value>> {
    var chunks := Chunks(input, mode);
    if chunks.Err? then Err else ParseChunks(chunks.value, mode, dbl)
  }

  // ----- The splitter and the row constructor -----

  /** The separators found in `input[..idx]` cut it into the pieces of the scan. */
  ghost predicate CutAt(input: string, idx: nat, commas: seq<nat>, done: seq<string>, cur: string) {
    && idx <= |input| && |commas| == |done|
    && (forall i | 0 <= i < |commas| :: StartOf(commas, i) <= commas[i] < idx)
    && StartOf(commas, |commas|) <= idx
    && (forall i | 0 <= i < |commas| :: done[i] == input[StartOf(commas, i)..commas[i]])
    && cur == input[StartOf(commas, |commas|)..idx]
  }

  /** Where the piece number `i` starts. */
  function StartOf(commas: seq<nat>, i: nat): nat
    requires i <= |commas|
  {
    if i == 0 then 0 else commas[i - 1] + 1
  }

  lemma {:induction false} RunMore(st: Scan, s: string, c: char, mode: Mode)
    ensures Run(st, s + [c], mode) == Step(Run(st, s, mode), c, mode)
    decreases |s|
  {
    hide Step;
    if s == "" {
      assert s + [c] == [c];
      assert Run(Step(st, c, mode), [c][1..], mode) == Step(st, c, mode);
    } else {
      assert (s + [c])[1..] == s[1..] + [c];
      RunMore(Step(st, s[0], mode), s[1..], c, mode);
    }
  }

  lemma {:induction false} RunConcat(st: Scan, s: string, t: string, mode: Mode)
    ensures Run(st, s + t, mode) == Run(Run(st, s, mode), t, mode)
    decreases |s|
  {
    hide Step;
    if s == "" {
      assert s + t == t;
    } else {
      assert (s + t)[1..] == s[1..] + t;
      RunConcat(Step(st, s[0], mode), s[1..], t, mode);
    }
  }

  lemma {:induction false} RunFailed(s: string, mode: Mode)
    ensures Run(Failed, s, mode) == Failed
    decreases |s|
  {
    if s != "" {
      RunFailed(s[1..], mode);
    }
  }

  lemma CutExtend(input: string, idx: nat, commas: seq<nat>, done: seq<string>, cur: string)
    requires CutAt(input, idx, commas, done, cur) && idx < |input|
    ensures CutAt(input, idx + 1, commas, done, cur + [input[idx]])
  {
    hide StartOf;
  }

  lemma StartsKept(commas: seq<nat>, idx: nat)
    ensures forall i | 0 <= i <= |commas| :: StartOf(commas + [idx], i) == StartOf(commas, i)
    ensures StartOf(commas + [idx], |commas| + 1) == idx + 1
  {
  }

  lemma CutComma(input: string, idx: nat, commas: seq<nat>, done: seq<string>, cur: string)
    requires CutAt(input, idx, commas, done, cur) && idx < |input|
    ensures CutAt(input, idx + 1, commas + [idx], done + [cur], "")
  {
    hide StartOf;
    StartsKept(commas, idx);
    assert input[idx + 1..idx + 1] == "";
  }

  lemma CutStart(input: string)
    ensures CutAt(input, 0, [], [], "")
  {
  }

  lemma RunPrefix(input: string, idx: nat, mode: Mode)
    requires idx < |input|
    ensures Run(START, input[..idx + 1], mode) == Step(Run(START, input[..idx], mode), input[idx], mode)
    ensures Run(START, input[..idx + 1], mode).Failed? ==> Run(START, input, mode).Failed?
    ensures Run(START, input[..0], mode) == START && input[..|input|] == input
  {
    hide Step;
    RunMore(START, input[..idx], input[idx], mode);
    assert input[..idx + 1] == input[..idx] + [input[idx]];
    RunConcat(START, input[..idx + 1], input[idx + 1..], mode);
    RunFailed(input[idx + 1..], mode);
    assert input == input[..idx + 1] + input[idx + 1..];
  }

  /** Finds the separators; an error for more than two effective quotation marks in a piece. */
  method FindSeparators(input: string, mode: Mode) returns (r: Result<seq<nat>>)
    requires input != ""
    ensures r.Err? <==> Run(START, input, mode).Failed?
    ensures r.Ok? ==>
      CutAt(input, |input|, r.value, Run(START, input, mode).done, Run(START, input, mode).cur)
  {
    hide Run, CutAt;
    var commaPos: seq<nat> := [];
    var prevChar := '\0';
    var quoteCount := 0;
    ghost var st := START;
    CutStart(input);
    RunPrefix(input, 0, mode);
    for idx := 0 to |input|
      invariant st == Run(START, input[..idx], mode) && st.Scan?
      invariant st.quotes == quoteCount && st.prev == prevChar
      invariant CutAt(input, idx, commaPos, st.done, st.cur)
    {
      var c := input[idx];
      RunPrefix(input, idx, mode);
      CutExtend(input, idx, commaPos, st.done, st.cur);
      CutComma(input, idx, commaPos, st.done, st.cur);
      st := Step(st, c, mode);
      if mode.UsesQuotes() && c == '"' {
        if !mode.UsesEscaping() || prevChar != '\\' {
          quoteCount := quoteCount + 1;
          if quoteCount > 2 {
            return Err;
          }
        }
      }
      if c == ',' && quoteCount != 1 {
        if !mode.UsesEscaping() || prevChar != '\\' {
          commaPos := commaPos + [idx];
          quoteCount := 0;
        }
      }
      prevChar := c;
    }
    return Ok(commaPos);
  }

  lemma {:induction false} ChunksLast(pieces: seq<string>, piece: string, mode: Mode)
    ensures ChunksOf(pieces + [piece], mode) == ChunksOf(pieces, mode) + [ChunkOf(piece, mode)]
  {
    hide ChunkOf;
    if pieces == [] {
      assert pieces + [piece] == [piece];
      assert ChunksOf([piece][1..], mode) == [];
    } else {
      assert (pieces + [piece])[1..] == pieces[1..] + [piece];
      ChunksLast(pieces[1..], piece, mode);
    }
  }

  lemma PieceAt(input: string, commas: seq<nat>, done: seq<string>, cur: string, n: nat)
    requires CutAt(input, |input|, commas, done, cur) && n < |commas|
    ensures |done| == |commas| && StartOf(commas, n) <= commas[n] < |input|
    ensures done[n] == input[StartOf(commas, n)..commas[n]]
    ensures StartOf(commas, n + 1) == commas[n] + 1
  {
  }

  lemma ChunksNext(done: seq<string>, n: nat, mode: Mode)
    requires n < |done|
    ensures ChunksOf(done[..n + 1], mode) == ChunksOf(done[..n], mode) + [ChunkOf(done[n], mode)]
  {
    hide ChunkOf, ChunksOf;
    ChunksLast(done[..n], done[n], mode);
    assert done[..n + 1] == done[..n] + [done[n]];
  }

  lemma LastPieceAt(input: string, commas: seq<nat>, done: seq<string>, cur: string, mode: Mode)
    requires CutAt(input, |input|, commas, done, cur)
    ensures StartOf(commas, |commas|) <= |input| && cur == input[StartOf(commas, |commas|)..]
    ensures |done| == |commas|
    ensures ChunksOf(done + [cur], mode) == ChunksOf(done[..|commas|], mode) + [ChunkOf(cur, mode)]
    ensures ChunksOf(done[..0], mode) == [] && StartOf(commas, 0) == 0
  {
    hide ChunkOf;
    ChunksLast(done, cur, mode);
    assert done[..|commas|] == done;
  }

  /** `CSV_Row::splitInputInChunks`. */
  method SplitInputInChunks(input: string, mode: Mode) returns (r: Result<seq<Option<string>>>)
    ensures r == Chunks(input, mode)
  {
    hide Run, ChunksOf, Step, CutAt, StartOf, Trim;
    if input == "" {
      return Ok([]);
    }
    var commas := FindSeparators(input, mode);
    if commas.Err? {
      return Err;
    }
    var commaPos := commas.value;
    ghost var (done, cur) := (Run(START, input, mode).done, Run(START, input, mode).cur);
    var result: seq<Option<string>> := [];
    var idxStart: nat := 0;
    LastPieceAt(input, commaPos, done, cur, mode);
    for n := 0 to |commaPos|
      invariant idxStart == StartOf(commaPos, n)
      invariant result == ChunksOf(done[..n], mode)
    {
      var idx := commaPos[n];
      PieceAt(input, commaPos, done, cur, n);
      ChunksNext(done, n, mode);
      if idx == idxStart {
        result := result + [None];
      } else {
        var val := input[idxStart..idx];
        if mode.UsesQuotes() {
          val := Trim(val);
        }
        result := result + [if val == "" then None else Some(val)];
      }
      idxStart := idx + 1;
    }
    if idxStart < |input| {
      var val := input[idxStart..];
      if mode.UsesQuotes() {
        val := Trim(val);
      }
      result := result + [if val == "" then None else Some(val)];
    }
    if idxStart == |input| {
      result := result + [None];
    }
    return Ok(result);
  }

  lemma {:induction false} ParseMore(chunks: seq<Option<string>>, i: nat, mode: Mode, dbl: Doubles)
    requires i < |chunks|
    ensures ParseChunks(chunks[..i + 1], mode, dbl) ==
      (var (front, v) := (ParseChunks(chunks[..i], mode, dbl), ParseChunk(chunks[i], mode, dbl));
       if front.Err? || v.Err? then Err else Ok(front.value + [v.value]))
    decreases i
  {
    hide ParseChunk;
    if i == 0 {
      assert chunks[..1][1..] == [] && chunks[..0] == [];
      assert ParseChunks(chunks[..1][1..], mode, dbl) == Ok([]) && ParseChunks(chunks[..0], mode, dbl) == Ok([]);
      var v := ParseChunk(chunks[0], mode, dbl);
      assert v.Ok? ==> [v.value] + [] == [v.value] && [] + [v.value] == [v.value];
    } else {
      ParseMore(chunks[1..], i - 1, mode, dbl);
      assert chunks[..i + 1][1..] == chunks[1..][..i] && chunks[..i][1..] == chunks[1..][..i - 1];
      var (v, front) := (ParseChunk(chunks[0], mode, dbl), ParseChunks(chunks[1..][..i - 1], mode, dbl));
      var last := ParseChunk(chunks[i], mode, dbl);
      if v.Ok? && front.Ok? && last.Ok? {
        assert [v.value] + (front.value + [last.value]) == [v.value] + front.value + [last.value];
      }
    }
  }

  lemma {:induction false} ParseStops(chunks: seq<Option<string>>, i: nat, mode: Mode, dbl: Doubles)
    requires i < |chunks| && ParseChunk(chunks[i], mode, dbl).Err?
    ensures ParseChunks(chunks, mode, dbl).Err?
  {
    hide ParseChunk;
    if i > 0 {
      ParseStops(chunks[1..], i - 1, mode, dbl);
    }
  }

  /** The constructor of a row from its text. */
  method NewRow(rowData: string, mode: Mode, dbl: Doubles) returns (r: Result<seq<Value>>)
    ensures r == ParseRow(rowData, mode, dbl)
  {
    hide Chunks, ParseChunk;
    var chunks := SplitInputInChunks(rowData, mode);
    if chunks.Err? {
      return Err;
    }
    var cols: seq<Value> := [];
    for i := 0 to |chunks.value|
      invariant ParseChunks(chunks.value[..i], mode, dbl) == Ok(cols)
    {
      ParseMore(chunks.value, i, mode, dbl);
      var v := ParseChunk(chunks.value[i], mode, dbl);
      if v.Err? {
        ParseStops(chunks.value, i, mode, dbl);
        return Err;
      }
      cols := cols + [v.value];
    }
    assert chunks.value[..|chunks.value|] == chunks.value;
    return Ok(cols);
  }
}
