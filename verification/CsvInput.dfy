/** What the parser of a row makes of texts that were not printed by it: white space around the fields, and
    the shapes of numbers and strings. */
module CsvInput {
  import opened CsvEscape
  import opened CsvRoundTrip
  import opened CsvRow
  import opened Results
  import opened Strings

  // ----- White space around the fields -----

  /** The six characters that count as white space. */
  predicate Blank(s: string) {
    forall c | c in s :: c == ' ' || c == '\t' || c == '\n' || c == '\U{0B}' || c == '\U{0C}' || c == '\r'
  }

  /** White space before and behind a field. */
  datatype Pad = Pad(before: string, behind: string)

  ghost predicate AllBlank(pads: seq<Pad>) {
    forall p | p in pads :: Blank(p.before) && Blank(p.behind)
  }

  ghost predicate AllSafe(row: seq<Value>, mode: Mode) {
    forall v | v in row :: Safe(v, mode)
  }

  function Padded(t: string, p: Pad): string {
    p.before + t + p.behind
  }

  function PaddedText(row: seq<Value>, pads: seq<Pad>, mode: Mode): string
    requires row != [] && AllPrintable(row) && |pads| == |row|
  {
    var t := Padded(Text(row[0], mode), pads[0]);
    if |row| == 1 then t else t + "," + PaddedText(row[1..], pads[1..], mode)
  }

  function PaddedTexts(row: seq<Value>, pads: seq<Pad>, mode: Mode): (t: seq<string>)
    requires AllPrintable(row) && |pads| == |row|
    ensures |t| == |row| && forall i | 0 <= i < |row| :: Printable(row[i]) && t[i] == Padded(Text(row[i], mode), pads[i])
  {
    if row == [] then []
    else
      assert row[0] in row;
      [Padded(Text(row[0], mode), pads[0])] + PaddedTexts(row[1..], pads[1..], mode)
  }

  lemma BlankParts(b: string, k: nat)
    requires Blank(b) && k <= |b|
    ensures Blank(b[..k]) && Blank(b[k..])
  {
    forall c | c in b[..k] || c in b[k..] ensures c in b {
    }
  }

  lemma {:induction false} TrimLeftBlank(b: string, t: string)
    requires Blank(b)
    ensures TrimLeft(b + t) == TrimLeft(t)
  {
    if b == "" {
      assert b + t == t;
    } else {
      assert b[0] in b && (b + t)[1..] == b[1..] + t;
      BlankParts(b, 1);
      TrimLeftBlank(b[1..], t);
    }
  }

  lemma {:induction false} TrimRightBlank(t: string, b: string)
    requires Blank(b)
    ensures TrimRight(t + b) == TrimRight(t)
  {
    if b == "" {
      assert t + b == t;
    } else {
      assert b[|b| - 1] in b && (t + b)[..|t + b| - 1] == t + b[..|b| - 1];
      BlankParts(b, |b| - 1);
      TrimRightBlank(t, b[..|b| - 1]);
    }
  }

  /** Trimming removes the white space and nothing else. */
  lemma TrimPadded(t: string, p: Pad)
    requires Blank(p.before) && Blank(p.behind)
    requires t != "" ==> !IsSpace(t[0]) && !IsSpace(t[|t| - 1])
    ensures Trim(Padded(t, p)) == t
  {
    hide IsSpace;
    assert Padded(t, p) == p.before + (t + p.behind);
    TrimLeftBlank(p.before, t + p.behind);
    if t == "" {
      assert t + p.behind == p.behind + "";
      TrimLeftBlank(p.behind, "");
    } else {
      TrimRightBlank(t, p.behind);
    }
  }

  /** The printed text of a value begins and ends without white space. */
  lemma TextEnds(v: Value, mode: Mode)
    requires Printable(v) && mode.UsesQuotes()
    ensures var t := Text(v, mode); t != "" ==> !IsSpace(t[0]) && !IsSpace(t[|t| - 1])
  {
    hide IntText, Escape;
    if v.Long? {
      IntTextShape(v.n);
    }
  }

  lemma PaddedChunk(v: Value, p: Pad, mode: Mode)
    requires Printable(v) && mode.UsesQuotes() && Blank(p.before) && Blank(p.behind)
    ensures ChunkOf(Padded(Text(v, mode), p), mode) == ChunkOf(Text(v, mode), mode)
  {
    hide Trim, Text, Padded;
    var t := Text(v, mode);
    var none := Pad("", "");
    TextEnds(v, mode);
    TrimPadded(t, p);
    TrimPadded(t, none);
    PaddedNothing(t);
    TrimEmpty();
  }

  lemma PaddedNothing(t: string)
    ensures Padded(t, Pad("", "")) == t
  {
  }

  lemma TrimEmpty()
    ensures Trim("") == ""
  {
  }

  lemma BlankIsPlain(s: string)
    requires Blank(s)
    ensures forall k | 0 <= k < |s| :: s[k] != '"' && s[k] != ',' && s[k] != '\\'
  {
    forall k | 0 <= k < |s| ensures IsSpace(s[k]) {
      assert s[k] in s;
    }
  }

  /** White space around a field changes nothing for the splitter. */
  lemma ScanPadded(st: Scan, v: Value, p: Pad, mode: Mode)
    requires Printable(v) && mode.UsesQuotes() && Safe(v, mode) && Blank(p.before) && Blank(p.behind)
    requires st.Scan? && st.quotes == 0 && (mode.UsesEscaping() ==> st.prev != '\\')
    ensures var r := Run(st, Padded(Text(v, mode), p), mode);
      && r.Scan? && r.done == st.done && r.cur == st.cur + Padded(Text(v, mode), p) && r.quotes in {0, 2}
      && (mode.UsesEscaping() ==> r.prev != '\\')
  {
    hide Run, Text, Blank, Safe, BadEnd;
    var t := Text(v, mode);
    BlankIsPlain(p.before);
    BlankIsPlain(p.behind);
    SafeEnd(v, mode);
    ScanPlain(st, p.before, mode);
    var st1 := Run(st, p.before, mode);
    ScanField(st1, v, mode);
    var st2 := Run(st1, t, mode);
    ScanPlain(st2, p.behind, mode);
    RunConcat(st, p.before + t, p.behind, mode);
    RunConcat(st, p.before, t, mode);
    assert st.cur + p.before + t + p.behind == st.cur + Padded(t, p);
  }

  lemma SafeEnd(v: Value, mode: Mode)
    requires Safe(v, mode)
    ensures !BadEnd(v, mode)
  {
  }

  lemma CommaSeparates(st: Scan, mode: Mode)
    requires st.Scan? && st.quotes in {0, 2} && (mode.UsesEscaping() ==> st.prev != '\\')
    ensures Step(st, ',', mode) == Scan(st.done + [st.cur], "", 0, ',')
  {
  }

  lemma PaddedParts(row: seq<Value>, pads: seq<Pad>, mode: Mode)
    requires row != [] && AllPrintable(row) && |pads| == |row| && AllBlank(pads)
    requires AllSafe(row, mode)
    ensures Printable(row[0]) && Safe(row[0], mode) && Blank(pads[0].before) && Blank(pads[0].behind)
    ensures AllPrintable(row[1..]) && AllBlank(pads[1..]) && AllSafe(row[1..], mode)
    ensures var t := Padded(Text(row[0], mode), pads[0]);
      && PaddedTexts(row, pads, mode) == [t] + PaddedTexts(row[1..], pads[1..], mode)
      && PaddedText(row, pads, mode) == if |row| == 1 then t else t + "," + PaddedText(row[1..], pads[1..], mode)
  {
    hide Text, Safe, Padded, Blank, Printable;
    assert row[0] in row && pads[0] in pads;
  }

  lemma {:induction false} ScanPaddedRow(st: Scan, row: seq<Value>, pads: seq<Pad>, mode: Mode)
    requires row != [] && AllPrintable(row) && |pads| == |row| && mode.UsesQuotes() && AllBlank(pads)
    requires AllSafe(row, mode)
    requires st.Scan? && st.quotes == 0 && st.cur == "" && (mode.UsesEscaping() ==> st.prev != '\\')
    ensures var r := Run(st, PaddedText(row, pads, mode), mode);
      r.Scan? && r.done + [r.cur] == st.done + PaddedTexts(row, pads, mode)
    decreases |row|
  {
    hide *;
    PaddedParts(row, pads, mode);
    var t := Padded(Text(row[0], mode), pads[0]);
    if |row| == 1 {
      ScanPadded(st, row[0], pads[0], mode);
      NoTexts(row[1..], pads[1..], mode);
      assert "" + t == t && [t] + [] == [t];
    } else {
      ScanPaddedNext(st, row[0], pads[0], PaddedText(row[1..], pads[1..], mode), mode);
      ScanPaddedRow(Scan(st.done + [t], "", 0, ','), row[1..], pads[1..], mode);
      Regroup(st.done, [t], PaddedTexts(row[1..], pads[1..], mode));
    }
  }

  lemma Regroup<T>(a: seq<T>, b: seq<T>, c: seq<T>)
    ensures a + b + c == a + (b + c)
  {
  }

  lemma ScanPaddedNext(st: Scan, v: Value, p: Pad, rest: string, mode: Mode)
    requires Printable(v) && mode.UsesQuotes() && Safe(v, mode) && Blank(p.before) && Blank(p.behind)
    requires st.Scan? && st.quotes == 0 && st.cur == "" && (mode.UsesEscaping() ==> st.prev != '\\')
    ensures var t := Padded(Text(v, mode), p);
      Run(st, t + "," + rest, mode) == Run(Scan(st.done + [t], "", 0, ','), rest, mode)
  {
    hide Text, Safe, Run, Padded, Blank, Step, Printable;
    var t := Padded(Text(v, mode), p);
    ScanPadded(st, v, p, mode);
    assert "" + t == t;
    RunComma(st, t, rest, mode);
    CommaSeparates(Run(st, t, mode), mode);
  }

  lemma NoTexts(row: seq<Value>, pads: seq<Pad>, mode: Mode)
    requires row == [] && pads == []
    ensures PaddedTexts(row, pads, mode) == []
  {
  }

  lemma PaddedTextEmpty(row: seq<Value>, pads: seq<Pad>, mode: Mode)
    requires row != [] && AllPrintable(row) && |pads| == |row| && mode.UsesQuotes()
    ensures PaddedText(row, pads, mode) == "" ==> |row| == 1 && row[0] == Null
  {
    hide IntText, Escape;
    if |row| == 1 && row[0].Long? {
      IntTextShape(row[0].n);
    }
  }

  /** A row of safe values is read from its text with any white space before and behind its fields; a field
      of white space only is a NULL. */
  lemma PaddedRow(row: seq<Value>, pads: seq<Pad>, mode: Mode, dbl: Doubles)
    requires row != [] && AllPrintable(row) && |pads| == |row| && mode.UsesQuotes() && AllBlank(pads)
    requires AllSafe(row, mode)
    ensures var text := PaddedText(row, pads, mode);
      ParseRow(text, mode, dbl) == Ok(if text == "" then [] else row)
    ensures PaddedText(row, pads, mode) == "" ==> row == [Null]
  {
    hide Run, Text, ParseChunk, ChunkOf, Safe, Printable, ParseChunks, ChunksOf, PaddedText, Padded, Blank;
    PaddedTextEmpty(row, pads, mode);
    if PaddedText(row, pads, mode) == "" {
      assert row == [row[0]];
      NothingRead(mode, dbl);
    } else {
      ScanPaddedRow(START, row, pads, mode);
      var pieces := PaddedTexts(row, pads, mode);
      ChunksAt(pieces, mode);
      ParseEach(ChunksOf(pieces, mode), row, mode, dbl);
      assert [] + pieces == pieces;
      forall i | 0 <= i < |row| ensures ParseChunk(ChunkOf(pieces[i], mode), mode, dbl) == Ok(row[i]) {
        assert row[i] in row && pads[i] in pads;
        PaddedChunk(row[i], pads[i], mode);
        ParseField(row[i], mode, dbl);
      }
    }
  }

  lemma NothingRead(mode: Mode, dbl: Doubles)
    ensures ParseRow("", mode, dbl) == Ok([])
  {
  }

  // ----- Numbers -----

  predicate Sign(s: string) {
    s == "" || s == "-"
  }

  /** An optional minus sign, digits, a point and digits, with at least one digit. */
  predicate PointNumber(t: string, sign: string, a: string, b: string) {
    t == sign + a + "." + b && Sign(sign) && AllDigits(a) && AllDigits(b) && |a| + |b| > 0
  }

  ghost predicate IsPointNumber(t: string) {
    exists sign, a, b :: PointNumber(t, sign, a, b)
  }

  /** An optional minus sign and at least one digit. */
  predicate WholeNumber(t: string, sign: string, a: string) {
    t == sign + a && Sign(sign) && AllDigits(a) && a != ""
  }

  lemma WholeNumbers(t: string)
    ensures IsInt(t) <==> exists sign, a :: WholeNumber(t, sign, a)
  {
    if IsInt(t) {
      if t[0] == '-' {
        assert WholeNumber(t, "-", t[1..]);
      } else {
        assert WholeNumber(t, "", t);
      }
    }
    if sign, a :| WholeNumber(t, sign, a) {
      assert IsDigit(a[0]);
      assert if sign == "-" then t[1..] == a else t == a;
    }
  }

  lemma PointNumbers(t: string)
    ensures IsDouble(t) && !IsInt(t) <==> IsPointNumber(t)
  {
    if IsDouble(t) && !IsInt(t) {
      PointFound(t);
    } else if sign, a, b :| PointNumber(t, sign, a, b) {
      PointRead(t, sign, a, b);
    }
  }

  lemma PointFound(t: string)
    requires IsDouble(t) && !IsInt(t)
    ensures IsPointNumber(t)
  {
    var n := if t[0] == '-' then 1 else 0;
    NoPointNoDouble(t, n);
    var p :| n <= p < |t| && t[p] == '.';
    var (sign, a, b) := (t[..n], t[n..p], t[p + 1..]);
    assert t == sign + a + "." + b;
    forall k | 0 <= k < |a| ensures IsDigit(a[k]) {
      assert DigitOrDot(t[n + k]);
    }
    forall k | 0 <= k < |b| ensures IsDigit(b[k]) {
      assert DigitOrDot(t[p + 1 + k]);
    }
    assert t != "." && t != "-.";
    assert PointNumber(t, sign, a, b);
  }

  lemma NoPointNoDouble(t: string, n: nat)
    requires IsDouble(t) && n == (if t[0] == '-' then 1 else 0)
    ensures (exists p :: n <= p < |t| && t[p] == '.') || IsInt(t)
  {
    if forall p | n <= p < |t| :: t[p] != '.' {
      forall k | n <= k < |t| ensures IsDigit(t[k]) {
        assert DigitOrDot(t[k]);
      }
    }
  }

  lemma PointRead(t: string, sign: string, a: string, b: string)
    requires PointNumber(t, sign, a, b)
    ensures IsDouble(t) && !IsInt(t)
  {
    var (n, p) := (|sign|, |sign| + |a|);
    assert t[p] == '.' && |t| >= n + 2;
    forall k | n <= k < |t| ensures DigitOrDot(t[k]) && (t[k] == '.' ==> k == p) {
      if k < p {
        assert t[k] == a[k - n];
      } else if k > p {
        assert t[k] == b[k - p - 1];
      }
    }
    assert t[0] == '-' <==> n == 1;
    assert n == 1 ==> t[1..][p - 1] == '.';
    assert b != "" ==> IsDigit(b[0]) && t[p + 1] == b[0];
    assert t != "." && t != "-." && t != ".-";
  }

  function ZeroDigits(z: nat): string {
    seq(z, _ => '0')
  }

  /** Digits are zeros, as many as there may be, and the text of their value. */
  lemma {:induction false} DigitsRead(a: string) returns (z: nat)
    requires AllDigits(a) && a != ""
    ensures a == ZeroDigits(z) + Decimal(Number(a))
  {
    hide Decimal;
    var (front, d) := (a[..|a| - 1], LastDigit(a));
    if front == "" {
      z := 0;
      OneDigit(d);
      assert a == ZeroDigits(0) + [Digit(d)];
    } else {
      z := DigitsRead(front);
      var n := Number(front);
      assert a == ZeroDigits(z) + (Decimal(n) + [Digit(d)]);
      if n == 0 {
        OneDigit(0);
        OneDigit(d);
        assert a == ZeroDigits(z + 1) + [Digit(d)];
        z := z + 1;
      } else {
        NextDigit(n, d);
      }
    }
  }

  function LastDigit(a: string): (d: nat)
    requires AllDigits(a) && a != ""
    ensures d < 10 && Digit(d) == a[|a| - 1] && Number(a) == 10 * Number(a[..|a| - 1]) + d
  {
    assert IsDigit(a[|a| - 1]);
    a[|a| - 1] as int - '0' as int
  }

  lemma OneDigit(d: nat)
    requires d < 10
    ensures Decimal(d) == [Digit(d)]
  {
  }

  lemma NextDigit(n: nat, d: nat)
    requires n > 0 && d < 10
    ensures Decimal(10 * n + d) == Decimal(n) + [Digit(d)]
  {
    assert (10 * n + d) / 10 == n && (10 * n + d) % 10 == d;
  }

  /** What a chunk is read as a number from. */
  lemma ParsedNumber(s: string, mode: Mode, dbl: Doubles)
    ensures var r := ParseChunk(Some(s), mode, dbl);
      && ((exists d :: r == Ok(Double(d))) <==> IsPointNumber(Trim(s)) && dbl.fits(Trim(s)))
      && (r.Ok? && r.value.Double? ==> r.value.text == Trim(s))
      && ((exists n :: r == Ok(Long(n))) <==>
        IsInt(Trim(s)) && -0x8000_0000_0000_0000 <= IntValue(Trim(s)) <= 0x7fff_ffff_ffff_ffff)
      && (forall n :: r == Ok(Long(n)) ==> n == IntValue(Trim(s)))
      && (IsPointNumber(Trim(s)) && !dbl.fits(Trim(s)) ==> r == Err)
      && (IsInt(Trim(s)) && !(exists n :: r == Ok(Long(n))) ==> r == Err)
  {
    hide IsInt, IsDouble, Trim, Stripped, Unescape, IntValue, IsPointNumber;
    PointNumbers(Trim(s));
  }

  lemma NumberExamples()
    ensures Number("042") == 42 && IntText(305) == "305" && IntText(-7) == "-7"
  {
    assert Decimal(30) == "30" && Decimal(3) == "3";
    assert "042"[..2] == "04" && "04"[..1] == "0" && "0"[..0] == "";
  }

  // ----- Strings -----

  /** How the four special characters are written. */
  lemma EscapedExample()
    ensures Escape(",\"\\\n", false) == "\\,\\\"\\\\\\n"
  {
    hide Escape;
    EscapeIsOnePass(",\"\\\n");
  }

  /** Quoted, a chunk that is no number is a string exactly if it stands between quotation marks, and then
      that is what stands between them; anything else is refused. */
  lemma ParsedQuoted(s: string, x: string, dbl: Doubles)
    ensures ParseChunk(Some(s), Quoted, dbl) == Ok(String(x)) <==> s == "\"" + x + "\""
  {
    hide IntValue, Trim;
    if s == "\"" + x + "\"" {
      StringChunk(x, Quoted);
      QuotedStripped(x);
    } else if |s| >= 2 && s[0] == '"' && s[|s| - 1] == '"' {
      assert s == "\"" + s[1..|s| - 1] + "\"";
      assert Stripped(s) == s[1..|s| - 1];
    }
  }

  lemma CommasInside(c: string)
    ensures CommasEscaped("\"" + c + "\"") <==> CommasEscaped(c)
  {
    var s := "\"" + c + "\"";
    assert forall i | 0 <= i < |c| :: s[i + 1] == c[i];
    if CommasEscaped(s) {
      forall i | 0 <= i < |c| && c[i] == ',' ensures i > 0 && c[i - 1] == '\\' {
        assert s[i + 1] == ',' && s[i] == '\\';
        assert i > 0 ==> s[i] == c[i - 1];
      }
    } else {
      var i :| 0 <= i < |s| && s[i] == ',' && !(i > 0 && s[i - 1] == '\\');
      assert c[i - 1] == ',';
    }
  }

  /** A comma without a backslash directly in front of it. */
  predicate RawComma(c: string, i: nat) {
    i < |c| && c[i] == ',' && (i == 0 || c[i - 1] != '\\')
  }

  /** With escaping the closing mark must be a raw one, and every comma must be escaped. */
  lemma ParsedQuotedAndEscaped(s: string, c: string, dbl: Doubles)
    requires s == "\"" + c + "\""
    ensures ParseChunk(Some(s), QuotedAndEscaped, dbl) ==
      if (c != "" && c[|c| - 1] == '\\') || exists i :: RawComma(c, i) then Err else Ok(String(Stripped(UnescapePasses(s))))
  {
    hide Trim, IsInt, IsDouble, Stripped, UnescapePasses, CommasEscaped, RawComma;
    StringChunk(c, QuotedAndEscaped);
    CommasInside(c);
    RawCommas(c);
    assert |s| > 2 && s[|s| - 2] == '\\' <==> EndsInBackslash(c);
  }

  lemma RawCommas(c: string)
    ensures CommasEscaped(c) <==> forall i :: !RawComma(c, i)
  {
    if !CommasEscaped(c) {
      var i :| 0 <= i < |c| && c[i] == ',' && !(i > 0 && c[i - 1] == '\\');
      assert RawComma(c, i);
    }
  }

  /** In both modes with quotes, what is neither a number nor between quotation marks is refused. */
  lemma UnquotedRefused(s: string, mode: Mode, dbl: Doubles)
    requires mode.UsesQuotes() && !IsInt(Trim(s)) && !IsPointNumber(Trim(s))
    ensures ParseChunk(Some(s), mode, dbl) == Err || exists c :: s == "\"" + c + "\""
  {
    hide Trim, IsInt, IsDouble, IsPointNumber;
    PointNumbers(Trim(s));
    if |s| >= 2 && s[0] == '"' && s[|s| - 1] == '"' {
      assert s == "\"" + s[1..|s| - 1] + "\"";
    }
  }
}
