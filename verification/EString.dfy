/** The extended string: in-place replacement, splitting and joining, and numbered placeholders. */
module EString {
  import opened Results
  import opened Sequences
  import opened Strings

  // ----- Splitting -----

  /** What `split` makes of one part: nothing, or the part itself, trimmed if asked for. */
  function Piece(part: string, keepEmpty: bool, trim: bool): seq<string> {
    var p := if trim then Trim(part) else part;
    if p == "" && !keepEmpty then [] else [p]
  }

  function Kept(parts: seq<string>, keepEmpty: bool, trim: bool): seq<string> {
    if parts == [] then [] else Piece(parts[0], keepEmpty, trim) + Kept(parts[1..], keepEmpty, trim)
  }

  lemma {:induction false} KeptAll(parts: seq<string>)
    ensures Kept(parts, true, false) == parts
  {
    if parts != [] {
      KeptAll(parts[1..]);
      assert parts == [parts[0]] + parts[1..];
    }
  }

  /** The options of `split`: with empty parts kept there is one result for each part, trimmed if asked for;
      otherwise those of them that are not empty. */
  lemma {:induction false} SplitOptions(parts: seq<string>, trim: bool)
    ensures |Kept(parts, true, trim)| == |parts|
    ensures forall i | 0 <= i < |parts| :: Kept(parts, true, trim)[i] == if trim then Trim(parts[i]) else parts[i]
    ensures Kept(parts, false, trim) == NonEmpty(Kept(parts, true, trim))
  {
    hide Trim;
    if parts != [] {
      SplitOptions(parts[1..], trim);
      var (first, rest) := (if trim then Trim(parts[0]) else parts[0], Kept(parts[1..], true, trim));
      assert Kept(parts, true, trim) == [first] + rest && ([first] + rest)[1..] == rest;
    }
  }

  /** Splitting with empty parts kept and joining again restores a non-empty string exactly when it
      does not start with the delimiter. */
  lemma SplitThenJoin(s: string, d: string)
    requires s != "" && d != ""
    ensures Joined(Kept(Parts(s, d), true, false), d) == s <==> !OccursAt(s, d, 0)
  {
    KeptAll(Parts(s, d));
    JoinRestores(s, d);
  }

  // ----- Placeholders -----

  const NOT_FOUND := 999999
  const INT_MAX := 0x7fff_ffff

  /** A placeholder: a percent sign and the longest run of digits behind it. */
  datatype TagData = TagData(idxStart: int, idxEnd: int, len: int, val: int)

  /** The end of the run of digits that starts at `i`. */
  function DigitsEnd(s: string, i: nat): (e: nat)
    requires i <= |s|
    ensures i <= e <= |s| && (forall k | i <= k < e :: IsDigit(s[k])) && (e < |s| ==> !IsDigit(s[e]))
    decreases |s| - i
  {
    if i < |s| && IsDigit(s[i]) then DigitsEnd(s, i + 1) else i
  }

  lemma DigitsEndIs(s: string, i: nat, e: nat)
    requires i <= e <= |s| && (forall k | i <= k < e :: IsDigit(s[k])) && (e < |s| ==> !IsDigit(s[e]))
    ensures DigitsEnd(s, i) == e
  {
  }

  predicate IsTag(s: string, p: nat) {
    p + 1 < |s| && s[p] == '%' && IsDigit(s[p + 1])
  }

  function TagAt(s: string, p: nat): TagData
    requires IsTag(s, p)
  {
    var e := DigitsEnd(s, p + 1);
    TagData(p, e - 1, e - p, Number(s[p + 1..e]))
  }

  /** The tags that start before position `n`, from left to right. */
  function TagsBefore(s: string, n: nat): seq<TagData> {
    if n == 0 then []
    else if IsTag(s, n - 1) then TagsBefore(s, n - 1) + [TagAt(s, n - 1)]
    else TagsBefore(s, n - 1)
  }

  function Tags(s: string): seq<TagData> {
    TagsBefore(s, |s|)
  }

  /** `Tags` lists every percent sign with a digit behind it exactly once, from left to right, with
      the longest run of digits behind it. */
  lemma {:induction false} TagsAreExact(s: string, n: nat)
    ensures forall t | t in TagsBefore(s, n) :: 0 <= t.idxStart < n && IsTag(s, t.idxStart) && t == TagAt(s, t.idxStart)
    ensures forall p: nat | p < n && IsTag(s, p) :: TagAt(s, p) in TagsBefore(s, n)
    ensures forall i, j | 0 <= i < j < |TagsBefore(s, n)| ::
      TagsBefore(s, n)[i].idxStart < TagsBefore(s, n)[j].idxStart
  {
    hide TagAt;
    if n > 0 {
      TagsAreExact(s, n - 1);
      var front := TagsBefore(s, n - 1);
      assert forall i | 0 <= i < |front| :: front[i] in front;
      if IsTag(s, n - 1) {
        TagStart(s, n - 1);
      }
    }
  }

  lemma TagStart(s: string, p: nat)
    requires IsTag(s, p)
    ensures TagAt(s, p).idxStart == p
  {
  }

  /** The text of every number fits an `int`, and no percent sign ends the string. */
  ghost predicate Scannable(s: string) {
    (s != "" ==> s[|s| - 1] != '%') && forall t | t in Tags(s) :: t.val <= 0x7fff_ffff
  }

  function Lowest(tags: seq<TagData>): int {
    if tags == [] then NOT_FOUND
    else
      var (front, last) := (tags[..|tags| - 1], tags[|tags| - 1]);
      if last.val < Lowest(front) then last.val else Lowest(front)
  }

  lemma {:induction false} LowestIsMinimum(tags: seq<TagData>)
    ensures Lowest(tags) <= NOT_FOUND && forall t | t in tags :: Lowest(tags) <= t.val
    ensures Lowest(tags) == NOT_FOUND || exists t | t in tags :: t.val == Lowest(tags)
  {
    if tags != [] {
      var (front, last) := (tags[..|tags| - 1], tags[|tags| - 1]);
      assert forall t :: t in tags <==> t in front || t == last;
      LowestIsMinimum(front);
    }
  }

  /** The string with `rep` in place of every tag that carries the number `low`, from `i` on. */
  function Filled(s: string, i: nat, low: int, rep: string): string
    requires i <= |s|
    decreases |s| - i
  {
    if i == |s| then ""
    else if IsTag(s, i) && TagAt(s, i).val == low then rep + Filled(s, DigitsEnd(s, i + 1), low, rep)
    else [s[i]] + Filled(s, i + 1, low, rep)
  }

  /** The stretches of text between the tags that carry `low`, from `i` on. */
  function Stretches(s: string, i: nat, low: int): (parts: seq<string>)
    requires i <= |s|
    ensures parts != []
    decreases |s| - i
  {
    if i == |s| then [""]
    else if IsTag(s, i) && TagAt(s, i).val == low then [""] + Stretches(s, DigitsEnd(s, i + 1), low)
    else
      var rest := Stretches(s, i + 1, low);
      [[s[i]] + rest[0]] + rest[1..]
  }

  /** Filling in puts the replacement between stretches that do not depend on it. */
  lemma {:induction false} FilledIsInterleave(s: string, i: nat, low: int, rep: string)
    requires i <= |s|
    ensures Filled(s, i, low, rep) == Interleave(Stretches(s, i, low), rep)
    decreases |s| - i
  {
    hide TagAt, Interleave;
    if i == |s| {
      InterleaveOne("", rep);
    } else if IsTag(s, i) && TagAt(s, i).val == low {
      var e := DigitsEnd(s, i + 1);
      FilledIsInterleave(s, e, low, rep);
      InterleaveGap(Stretches(s, e, low), rep);
    } else {
      FilledIsInterleave(s, i + 1, low, rep);
      InterleaveFront(s[i], Stretches(s, i + 1, low), rep);
    }
  }

  /** The texts of the tags that carry `low`, from `i` on. */
  function TagTexts(s: string, i: nat, low: int): seq<string>
    requires i <= |s|
    decreases |s| - i
  {
    if i == |s| then []
    else if IsTag(s, i) && TagAt(s, i).val == low then
      [s[i..DigitsEnd(s, i + 1)]] + TagTexts(s, DigitsEnd(s, i + 1), low)
    else TagTexts(s, i + 1, low)
  }

  /** The parts with one gap between any two neighbours. */
  function Weave(parts: seq<string>, gaps: seq<string>): string
    requires |parts| == |gaps| + 1
  {
    if gaps == [] then parts[0] else parts[0] + gaps[0] + Weave(parts[1..], gaps[1..])
  }

  /** The text of a tag: a percent sign and digits of the number. */
  ghost predicate TagText(text: string, val: int) {
    |text| >= 2 && text[0] == '%' && (forall k | 1 <= k < |text| :: IsDigit(text[k])) && Number(text[1..]) == val
  }

  /** The stretches with the texts of the tags put back are the string. */
  lemma {:induction false} StretchesRestore(s: string, i: nat, low: int)
    requires i <= |s|
    ensures |Stretches(s, i, low)| == |TagTexts(s, i, low)| + 1
    ensures Weave(Stretches(s, i, low), TagTexts(s, i, low)) == s[i..]
    ensures forall text | text in TagTexts(s, i, low) :: TagText(text, low)
    decreases |s| - i
  {
    hide TagAt, IsTag, Weave, TagText;
    if i == |s| {
      WeaveOne("");
    } else if IsTag(s, i) && TagAt(s, i).val == low {
      var e := DigitsEnd(s, i + 1);
      StretchesRestore(s, e, low);
      WeaveGap(s[i..e], Stretches(s, e, low), TagTexts(s, e, low));
      IsTagText(s, i);
      assert s[i..e] + s[e..] == s[i..];
    } else {
      StretchesRestore(s, i + 1, low);
      WeaveFront(s[i], Stretches(s, i + 1, low), TagTexts(s, i + 1, low));
      assert [s[i]] + s[i + 1..] == s[i..];
    }
  }

  /** The number of tags that carry `low`, from `i` on. */
  function LowTags(s: string, i: nat, low: int): nat
    decreases |s| - i
  {
    if i >= |s| then 0 else LowTags(s, i + 1, low) + if IsTag(s, i) && TagAt(s, i).val == low then 1 else 0
  }

  lemma {:induction false} NoLowTags(s: string, i: nat, j: nat, low: int)
    requires i <= j <= |s| && forall k | i <= k < j :: s[k] != '%'
    ensures LowTags(s, i, low) == LowTags(s, j, low)
    decreases j - i
  {
    hide TagAt;
    if i < j {
      NoLowTags(s, i + 1, j, low);
    }
  }

  /** None of them is missed. */
  lemma {:induction false} EveryLowTag(s: string, i: nat, low: int)
    requires i <= |s|
    ensures |TagTexts(s, i, low)| == LowTags(s, i, low)
    decreases |s| - i
  {
    hide TagAt;
    if i < |s| {
      if IsTag(s, i) && TagAt(s, i).val == low {
        var e := DigitsEnd(s, i + 1);
        EveryLowTag(s, e, low);
        NoLowTags(s, i + 1, e, low);
      } else {
        EveryLowTag(s, i + 1, low);
      }
    }
  }

  lemma WeaveOne(part: string)
    ensures Weave([part], []) == part
  {
  }

  lemma WeaveGap(gap: string, parts: seq<string>, gaps: seq<string>)
    requires |parts| == |gaps| + 1
    ensures Weave([""] + parts, [gap] + gaps) == gap + Weave(parts, gaps)
  {
    hide Weave;
    var (p, g) := ([""] + parts, [gap] + gaps);
    WeaveMore(p, g);
    assert p[1..] == parts && g[1..] == gaps;
    assert "" + gap == gap;
  }

  lemma WeaveMore(parts: seq<string>, gaps: seq<string>)
    requires |parts| == |gaps| + 1 && gaps != []
    ensures Weave(parts, gaps) == parts[0] + gaps[0] + Weave(parts[1..], gaps[1..])
  {
  }

  lemma WeaveFront(c: char, parts: seq<string>, gaps: seq<string>)
    requires |parts| == |gaps| + 1
    ensures Weave([[c] + parts[0]] + parts[1..], gaps) == [c] + Weave(parts, gaps)
  {
    assert ([[c] + parts[0]] + parts[1..])[1..] == parts[1..];
  }

  lemma IsTagText(s: string, i: nat)
    requires IsTag(s, i)
    ensures i < DigitsEnd(s, i + 1) && TagText(s[i..DigitsEnd(s, i + 1)], TagAt(s, i).val)
  {
    var e := DigitsEnd(s, i + 1);
    TagExtent(s, i);
    assert s[i..e][1..] == s[i + 1..e];
  }

  lemma InterleaveOne(part: string, d: string)
    ensures Interleave([part], d) == part
  {
  }

  lemma InterleaveGap(parts: seq<string>, d: string)
    requires parts != []
    ensures Interleave([""] + parts, d) == d + Interleave(parts, d)
  {
    assert ([""] + parts)[1..] == parts;
  }

  lemma InterleaveFront(c: char, parts: seq<string>, d: string)
    requires parts != []
    ensures Interleave([[c] + parts[0]] + parts[1..], d) == [c] + Interleave(parts, d)
  {
    assert ([[c] + parts[0]] + parts[1..])[1..] == parts[1..];
  }

  /** Text without a tag of the wanted number is copied. */
  lemma {:induction false} FilledCopies(s: string, i: nat, j: nat, low: int, rep: string)
    requires i <= j <= |s|
    requires forall p: nat | i <= p < j && IsTag(s, p) :: TagAt(s, p).val != low
    ensures Filled(s, i, low, rep) == s[i..j] + Filled(s, j, low, rep)
    decreases j - i
  {
    hide *;
    var rest := Filled(s, j, low, rep);
    if i < j {
      FilledCopies(s, i + 1, j, low, rep);
      CopyOne(s, i, low, rep);
      SliceFront(s, i, j, rest);
    } else {
      assert s[i..j] + rest == rest;
    }
  }

  lemma CopyOne(s: string, i: nat, low: int, rep: string)
    requires i < |s| && (IsTag(s, i) ==> TagAt(s, i).val != low)
    ensures Filled(s, i, low, rep) == [s[i]] + Filled(s, i + 1, low, rep)
  {
    hide TagAt, DigitsEnd;
  }

  lemma {:induction false} NoTagsAmongDigits(s: string, i: nat, j: nat)
    requires i <= j <= |s| && forall k | i <= k < j :: s[k] != '%'
    ensures TagsBefore(s, j) == TagsBefore(s, i)
    decreases j - i
  {
    if i < j {
      NoTagsAmongDigits(s, i, j - 1);
    }
  }

  lemma {:induction false} LowestOfMore(tags: seq<TagData>, t: TagData)
    ensures Lowest(tags + [t]) == if t.val < Lowest(tags) then t.val else Lowest(tags)
  {
    assert (tags + [t])[..|tags|] == tags;
  }

  class EString {
    var data: string

    constructor FromString(s: string)
      ensures data == s
    {
      data := s;
    }

    /** The joining constructor. */
    constructor Join(parts: seq<string>, delim: string)
      ensures data == Joined(parts, delim)
    {
      data := "";
      new;
      for i := 0 to |parts|
        invariant data == Joined(parts[..i], delim)
      {
        assert parts[..i + 1][..i] == parts[..i];
        if data != "" {
          data := data + delim;
        }
        data := data + parts[i];
      }
      assert parts[..|parts|] == parts;
    }

    /** One turn of the replacement: the key at `idx` gives way, and the next one is looked for. */
    method ReplaceNext(idx: nat, key: string, value: string, ghost done: string, ghost rest: string)
      returns (next: int, ghost done': string, ghost rest': string)
      requires key != "" && data == done + rest && idx == Find(data, key, |done|)
      modifies this
      ensures data == done' + rest' && next == Find(data, key, |done'|) && |rest'| < |rest|
      ensures done' + Substitute(rest', key, value) == done + Substitute(rest, key, value)
    {
      hide *;
      done', rest' := ReplaceStep(data, done, rest, key, value);
      data := data[..idx] + value + data[idx + |key|..];
      next := idx + |value|;
      next := Find(data, key, next);
    }

    method ReplaceAll(key: string, value: string) returns (found: bool)
      modifies this
      ensures found <==> key != "" && Find(old(data), key, 0) != -1
      ensures data == if found then Substitute(old(data), key, value) else old(data)
    {
      hide *;
      if data == "" {
        FindInEmpty(key);
        return false;
      }
      if key == "" {
        return false;
      }
      var idxFirst := Find(data, key, 0);
      if idxFirst == -1 {
        return false;
      }
      ghost var done, rest := "", data;
      ghost var result := Substitute(data, key, value);
      assert done + rest == data && done + result == result;
      while idxFirst != -1
        invariant data == done + rest && idxFirst == Find(data, key, |done|)
        invariant result == done + Substitute(rest, key, value)
        decreases |rest|
      {
        idxFirst, done, rest := ReplaceNext(idxFirst, key, value, done, rest);
      }
      SubstituteNone(done, rest, key, value);
      return true;
    }

    method Split(delim: string, keepEmpty: bool, trim: bool) returns (r: Result<seq<string>>)
      ensures r == if data == "" then Ok([]) else if delim == "" then Err
                   else Ok(Kept(Parts(data, delim), keepEmpty, trim))
    {
      hide *;
      var result: seq<string> := [];
      if data == "" {
        return Ok(result);
      }
      if delim == "" {
        return Err;
      }
      ghost var all, rest := Kept(Parts(data, delim), keepEmpty, trim), data;
      var nextStart := 0;
      while nextStart < |data|
        invariant nextStart <= |data| && rest == data[nextStart..]
        invariant all == result + Kept(Parts(rest, delim), keepEmpty, trim)
      {
        var nextDelim := Find(data, delim, nextStart);
        if nextDelim == -1 {
          break;
        }
        ghost var part, tail := NextPart(data, delim, nextStart, rest);
        KeptOne(part, Parts(tail, delim), keepEmpty, trim);
        rest := tail;
        var s := "";
        if nextDelim > nextStart {
          s := data[nextStart..nextDelim];
          if trim {
            s := Trim(s);
          }
        }
        nextStart := nextDelim + |delim|;
        if s == "" && !keepEmpty {
          continue;
        }
        result := result + [s];
      }
      NoMoreParts(data, delim, nextStart, rest);
      KeptSingle(rest, keepEmpty, trim);
      assert result + [] == result;
      if nextStart < |data| {
        var s := data[nextStart..];
        if trim {
          s := Trim(s);
        }
        if keepEmpty || s != "" {
          result := result + [s];
        }
      }
      if nextStart == |data| && keepEmpty {
        result := result + [""];
      }
      return Ok(result);
    }

    /** All placeholders of the string and the lowest number among them. */
    method FindAllArgTags() returns (r: Result<(seq<TagData>, int)>)
      ensures r.Ok? <==> Scannable(data)
      ensures r.Ok? <==> (data != "" ==> data[|data| - 1] != '%') && forall t | t in Tags(data) :: t.val <= 0x7fff_ffff
      ensures r.Ok? ==> r.value == (Tags(data), Lowest(Tags(data)))
    {
      hide Lowest, Number, DigitsEnd, Tags;
      var tags: seq<TagData> := [];
      var lowest := NOT_FOUND;
      var start := -1;
      LowestOfNone();
      for idx := 0 to |data|
        invariant Scanning(data, idx, start, tags)
        invariant lowest == Lowest(tags) && Small(tags)
      {
        var c := data[idx];
        if start >= 0 && c == '%' && idx == start + 1 {
          ScanPercent(data, idx, start, tags);
          start := idx;
          continue;
        }
        if start >= 0 && idx == start + 1 && !IsDigit(c) {
          ScanPercent(data, idx, start, tags);
          start := -1;
          continue;
        }
        if start >= 0 && !IsDigit(c) {
          CloseTag(data, idx, start, tags);
          var tag := TagData(start, idx - 1, idx - start, Number(data[start + 1..idx]));
          if tag.val > INT_MAX {
            TooLarge(data, start);
            return Err;
          }
          LowestOfMore(tags, tag);
          tags := tags + [tag];
          if tag.val < lowest {
            lowest := tag.val;
          }
          start := -1;
        }
        if start >= 0 {
          continue;
        }
        if c != '%' {
          continue;
        }
        start := idx;
      }
      if start >= 0 {
        if start == |data| - 1 {
          return Err;
        }
        CloseTag(data, |data|, start, tags);
        var tag := TagData(start, |data| - 1, |data| - start, Number(data[start + 1..]));
        assert data[start + 1..] == data[start + 1..|data|];
        if tag.val > INT_MAX {
          TooLarge(data, start);
          return Err;
        }
        LowestOfMore(tags, tag);
        tags := tags + [tag];
        if tag.val < lowest {
          lowest := tag.val;
        }
      }
      TagsAtEnd(data);
      return Ok((tags, lowest));
    }

    /** Replaces the placeholders that carry the lowest number; false where the code throws. */
    method Arg(s: string) returns (ok: bool)
      modifies this
      ensures ok <==> Scannable(old(data))
      ensures !ok ==> data == old(data)
      ensures ok ==> data == WithArg(old(data), s)
    {
      hide *;
      var r := FindAllArgTags();
      if r.Err? {
        return false;
      }
      var (allTags, lowest) := r.value;
      WithArgIs(data, s);
      if lowest == NOT_FOUND || allTags == [] {
        return true;
      }
      var sizeDiff := 0;
      SizeDiffNone(allTags, lowest, |s|);
      for n := 0 to |allTags|
        invariant data == old(data) && sizeDiff == SizeDiff(allTags[..n], lowest, |s|)
      {
        SizeDiffMore(allTags, n, lowest, |s|);
        if allTags[n].val != lowest {
          continue;
        }
        sizeDiff := sizeDiff - allTags[n].len + |s|;
      }
      var capacity := |data| + sizeDiff;
      var tmp := "";
      var srcPos: nat := 0;
      assert allTags[..|allTags|] == allTags;
      CopyingStart(data, allTags, lowest, s);
      for n := 0 to |allTags|
        invariant data == old(data) && Copying(data, allTags, n, lowest, s, tmp, srcPos)
      {
        CopyingStep(data, allTags, n, lowest, s, tmp, srcPos);
        var tag := allTags[n];
        if tag.val != lowest {
          continue;
        }
        assert srcPos == tag.idxStart ==> tmp + data[srcPos..tag.idxStart] == tmp;
        if srcPos < tag.idxStart {
          tmp := tmp + data[srcPos..tag.idxStart];
        }
        tmp := tmp + s;
        srcPos := tag.idxEnd + 1;
      }
      CopyingEnd(data, allTags, lowest, s, tmp, srcPos);
      tmp := tmp + data[srcPos..];
      assert |tmp| == capacity;
      data := tmp;
      return true;
    }
  }

  function WithArg(t: string, s: string): string {
    var lowest := Lowest(Tags(t));
    if lowest == NOT_FOUND then t else Filled(t, 0, lowest, s)
  }

  lemma WithArgIs(t: string, s: string)
    ensures var lowest := Lowest(Tags(t));
      && WithArg(t, s) == (if lowest == NOT_FOUND then t else Filled(t, 0, lowest, s))
      && (Tags(t) == [] ==> lowest == NOT_FOUND)
  {
    hide Filled, TagsBefore;
  }

  /** `arg` puts the text between stretches that do not depend on it, in place of the tags with the
      smallest number of all, none missed, provided one is below the marker for "none"; else nothing changes. */
  lemma ArgReplacesLowest(t: string, s: string)
    ensures (exists p: nat | IsTag(t, p) :: TagAt(t, p).val < 999999) ==>
      var low := Lowest(Tags(t));
      && WithArg(t, s) == Interleave(Stretches(t, 0, low), s)
      && |Stretches(t, 0, low)| == |TagTexts(t, 0, low)| + 1
      && Weave(Stretches(t, 0, low), TagTexts(t, 0, low)) == t
      && (forall text | text in TagTexts(t, 0, low) :: TagText(text, low))
      && |TagTexts(t, 0, low)| == LowTags(t, 0, low)
      && (exists p: nat | IsTag(t, p) :: TagAt(t, p).val == low)
      && forall p: nat | IsTag(t, p) :: low <= TagAt(t, p).val
    ensures (forall p: nat | IsTag(t, p) :: TagAt(t, p).val >= 999999) ==> WithArg(t, s) == t
  {
    hide Filled, Lowest, TagAt, Stretches, Interleave, TagsBefore, IsTag, TagTexts, TagText, Weave;
    StretchesRestore(t, 0, Lowest(Tags(t)));
    EveryLowTag(t, 0, Lowest(Tags(t)));
    assert t[0..] == t;
    var tags := Tags(t);
    TagsAtEnd(t);
    TagsAreExact(t, |t|);
    LowestIsMinimum(tags);
    FilledIsInterleave(t, 0, Lowest(tags), s);
    forall p: nat | IsTag(t, p) ensures TagAt(t, p) in tags {
      TagInside(t, p);
    }
  }

  lemma TagInside(t: string, p: nat)
    requires IsTag(t, p)
    ensures p < |t|
  {
  }

  /** By how much the string grows, as computed before anything is copied. */
  function SizeDiff(tags: seq<TagData>, lowest: int, n: int): int {
    if tags == [] then 0
    else
      var last := tags[|tags| - 1];
      SizeDiff(tags[..|tags| - 1], lowest, n) + if last.val == lowest then n - last.len else 0
  }

  lemma SizeDiffNone(tags: seq<TagData>, lowest: int, n: int)
    ensures SizeDiff(tags[..0], lowest, n) == 0
  {
  }

  lemma SizeDiffMore(tags: seq<TagData>, i: nat, lowest: int, n: int)
    requires i < |tags|
    ensures SizeDiff(tags[..i + 1], lowest, n) ==
      SizeDiff(tags[..i], lowest, n) + if tags[i].val == lowest then n - tags[i].len else 0
  {
    assert tags[..i + 1][..i] == tags[..i];
  }

  /** The first `n` tags are done: `tmp` holds the result for everything before `srcPos`. */
  ghost predicate Copying(t: string, tags: seq<TagData>, n: nat, lowest: int, s: string, tmp: string, srcPos: nat) {
    && tags == Tags(t) && n <= |tags| && srcPos <= |t|
    && Filled(t, 0, lowest, s) == tmp + Filled(t, srcPos, lowest, s)
    && |tmp| == srcPos + SizeDiff(tags[..n], lowest, |s|)
    && (forall m | 0 <= m < n && tags[m].val == lowest :: tags[m].idxStart < srcPos)
    && (forall m | n <= m < |tags| :: srcPos <= tags[m].idxStart)
  }

  lemma CopyingStart(t: string, tags: seq<TagData>, lowest: int, s: string)
    requires tags == Tags(t)
    ensures Copying(t, tags, 0, lowest, s, "", 0)
  {
    hide Filled;
    TagsAreExact(t, |t|);
    SizeDiffNone(tags, lowest, |s|);
    assert forall m | 0 <= m < |tags| :: tags[m] in tags;
  }

  /** Between `srcPos` and the next tag nothing has to be replaced. */
  lemma NothingBetween(t: string, tags: seq<TagData>, n: nat, lowest: int, srcPos: nat, end: nat, p: nat)
    requires tags == Tags(t) && n <= |tags| && srcPos <= p < end <= |t| && IsTag(t, p)
    requires forall m | 0 <= m < n && tags[m].val == lowest :: tags[m].idxStart < srcPos
    requires forall m | n <= m < |tags| :: end <= tags[m].idxStart
    ensures TagAt(t, p).val != lowest
  {
    hide TagsBefore, DigitsEnd;
    TagsAreExact(t, |t|);
    var m :| 0 <= m < |tags| && tags[m] == TagAt(t, p);
    TagStart(t, p);
  }

  lemma CopyingSkip(t: string, tags: seq<TagData>, n: nat, lowest: int, s: string, tmp: string, srcPos: nat)
    requires Copying(t, tags, n, lowest, s, tmp, srcPos) && n < |tags| && tags[n].val != lowest
    ensures Copying(t, tags, n + 1, lowest, s, tmp, srcPos)
  {
    hide Filled, TagsBefore, Tags, SizeDiff;
    SizeDiffMore(tags, n, lowest, |s|);
  }

  /** The tag number `n` of a string, and those behind it. */
  lemma TagAmong(t: string, tags: seq<TagData>, n: nat)
    requires tags == Tags(t) && n < |tags|
    ensures var (tag, p) := (tags[n], tags[n].idxStart);
      && 0 <= p < tag.idxEnd < |t| && tag.len == tag.idxEnd + 1 - p
      && IsTag(t, p) && TagAt(t, p) == tag
      && forall m | n < m < |tags| :: tag.idxEnd < tags[m].idxStart
  {
    hide TagsBefore, DigitsEnd, TagAt;
    TagsAreExact(t, |t|);
    assert tags[n] in tags;
    TagExtent(t, tags[n].idxStart);
    forall m | n < m < |tags| ensures tags[n].idxEnd < tags[m].idxStart {
      assert tags[m] in tags;
    }
  }

  lemma FilledUpTo(t: string, tags: seq<TagData>, n: nat, lowest: int, s: string, srcPos: nat)
    requires tags == Tags(t) && n < |tags| && tags[n].val == lowest
    requires forall m | 0 <= m < n && tags[m].val == lowest :: tags[m].idxStart < srcPos
    requires srcPos <= tags[n].idxStart <= tags[n].idxEnd < |t|
    ensures Filled(t, srcPos, lowest, s) == t[srcPos..tags[n].idxStart] + (s + Filled(t, tags[n].idxEnd + 1, lowest, s))
  {
    hide Filled, TagsBefore, DigitsEnd, TagAt, Tags, IsTag;
    TagAmong(t, tags, n);
    var p := tags[n].idxStart;
    forall q: nat | srcPos <= q < p && IsTag(t, q) ensures TagAt(t, q).val != lowest {
      assert forall m | n <= m < |tags| :: p <= tags[m].idxStart;
      NothingBetween(t, tags, n, lowest, srcPos, p, q);
    }
    FilledCopies(t, srcPos, p, lowest, s);
    FilledTag(t, p, lowest, s);
  }

  lemma CopyingReplace(t: string, tags: seq<TagData>, n: nat, lowest: int, s: string, tmp: string, srcPos: nat)
    requires Copying(t, tags, n, lowest, s, tmp, srcPos) && n < |tags| && tags[n].val == lowest
    ensures srcPos <= tags[n].idxStart <= tags[n].idxEnd < |t|
    ensures Copying(t, tags, n + 1, lowest, s, tmp + t[srcPos..tags[n].idxStart] + s, tags[n].idxEnd + 1)
  {
    hide Filled, TagsBefore, Tags, SizeDiff, IsTag, TagAt;
    var p := tags[n].idxStart;
    SizeDiffMore(tags, n, lowest, |s|);
    TagAmong(t, tags, n);
    FilledUpTo(t, tags, n, lowest, s, srcPos);
    RegroupNested(tmp, t[srcPos..p], s, Filled(t, tags[n].idxEnd + 1, lowest, s));
  }

  lemma CopyingStep(t: string, tags: seq<TagData>, n: nat, lowest: int, s: string, tmp: string, srcPos: nat)
    requires Copying(t, tags, n, lowest, s, tmp, srcPos) && n < |tags|
    ensures srcPos <= tags[n].idxStart <= tags[n].idxEnd < |t|
    ensures tags[n].val != lowest ==> Copying(t, tags, n + 1, lowest, s, tmp, srcPos)
    ensures tags[n].val == lowest ==>
      Copying(t, tags, n + 1, lowest, s, tmp + t[srcPos..tags[n].idxStart] + s, tags[n].idxEnd + 1)
  {
    if tags[n].val == lowest {
      hide *;
      CopyingReplace(t, tags, n, lowest, s, tmp, srcPos);
    } else {
      hide Filled, TagsBefore, Tags, SizeDiff;
      CopyingSkip(t, tags, n, lowest, s, tmp, srcPos);
      TagAmong(t, tags, n);
    }
  }

  lemma TagExtent(t: string, p: nat)
    requires IsTag(t, p)
    ensures var tag := TagAt(t, p);
      && tag.idxStart == p < tag.idxEnd < |t| && tag.len == tag.idxEnd + 1 - p
      && forall k | p < k <= tag.idxEnd :: t[k] != '%'
  {
    var e := DigitsEnd(t, p + 1);
    assert IsDigit(t[p + 1]);
  }

  lemma FilledTag(t: string, p: nat, lowest: int, s: string)
    requires IsTag(t, p) && TagAt(t, p).val == lowest && TagAt(t, p).idxEnd < |t|
    ensures Filled(t, p, lowest, s) == s + Filled(t, TagAt(t, p).idxEnd + 1, lowest, s)
  {
  }

  lemma CopyingEnd(t: string, tags: seq<TagData>, lowest: int, s: string, tmp: string, srcPos: nat)
    requires Copying(t, tags, |tags|, lowest, s, tmp, srcPos)
    ensures srcPos <= |t| && tmp + t[srcPos..] == Filled(t, 0, lowest, s)
    ensures |tmp| == srcPos + SizeDiff(tags[..|tags|], lowest, |s|)
  {
    hide TagAt, SizeDiff, TagsBefore;
    forall q: nat | srcPos <= q < |t| && IsTag(t, q) ensures TagAt(t, q).val != lowest {
      NothingBetween(t, tags, |tags|, lowest, srcPos, |t|, q);
    }
    FilledCopies(t, srcPos, |t|, lowest, s);
    assert t[srcPos..|t|] + "" == t[srcPos..];
  }

  ghost predicate Small(tags: seq<TagData>) {
    forall t | t in tags :: t.val <= INT_MAX
  }

  /** The scanner at position `idx`: either between tags, or `start` marks a percent sign with
      nothing but digits behind it so far. */
  ghost predicate Scanning(s: string, idx: nat, start: int, tags: seq<TagData>) {
    && idx <= |s| && -1 <= start < idx
    && (start == -1 ==> tags == TagsBefore(s, idx) && (idx > 0 ==> s[idx - 1] != '%'))
    && (start >= 0 ==>
      && s[start] == '%' && (forall k | start < k < idx :: IsDigit(s[k]))
      && tags == TagsBefore(s, start))
  }

  lemma LowestOfNone()
    ensures Lowest([]) == NOT_FOUND
  {
  }

  lemma ScanPercent(s: string, idx: nat, start: nat, tags: seq<TagData>)
    requires Scanning(s, idx, start, tags) && idx < |s| && idx == start + 1 && !IsDigit(s[idx])
    ensures tags == TagsBefore(s, idx)
    ensures s[idx] != '%' ==> tags == TagsBefore(s, idx + 1)
  {
    hide TagAt;
  }

  /** The run of digits ends before `idx`: a tag is complete. */
  lemma CloseTag(s: string, idx: nat, start: nat, tags: seq<TagData>)
    requires Scanning(s, idx, start, tags) && idx > start + 1 && (idx < |s| ==> !IsDigit(s[idx]))
    ensures forall k | start < k < idx :: IsDigit(s[k])
    ensures IsTag(s, start) && TagAt(s, start) == TagData(start, idx - 1, idx - start, Number(s[start + 1..idx]))
    ensures tags + [TagAt(s, start)] == TagsBefore(s, idx)
    ensures idx < |s| && s[idx] != '%' ==> tags + [TagAt(s, start)] == TagsBefore(s, idx + 1)
  {
    DigitsEndIs(s, start + 1, idx);
    NoTagsAmongDigits(s, start + 1, idx);
  }

  lemma TooLarge(s: string, p: nat)
    requires IsTag(s, p) && TagAt(s, p).val > INT_MAX
    ensures !Scannable(s)
  {
    TagsAreExact(s, |s|);
  }

  lemma TagsAtEnd(s: string)
    ensures Tags(s) == TagsBefore(s, |s|)
  {
  }

  lemma PieceIs(part: string, keepEmpty: bool, trim: bool)
    ensures var p := if trim && part != "" then Trim(part) else part;
      Piece(part, keepEmpty, trim) == if p == "" && !keepEmpty then [] else [p]
  {
  }

  lemma KeptSingle(part: string, keepEmpty: bool, trim: bool)
    ensures var p := if trim && part != "" then Trim(part) else part;
      Kept([part], keepEmpty, trim) == if p == "" && !keepEmpty then [] else [p]
  {
    hide Piece;
    PieceIs(part, keepEmpty, trim);
    assert Kept([part][1..], keepEmpty, trim) == [];
  }

  lemma KeptOne(part: string, rest: seq<string>, keepEmpty: bool, trim: bool)
    ensures var p := if trim && part != "" then Trim(part) else part;
      Kept([part] + rest, keepEmpty, trim) ==
        (if p == "" && !keepEmpty then [] else [p]) + Kept(rest, keepEmpty, trim)
  {
    hide Piece;
    PieceIs(part, keepEmpty, trim);
    assert ([part] + rest)[1..] == rest;
  }

  lemma NextPart(data: string, d: string, start: nat, rest: string) returns (part: string, tail: string)
    requires d != "" && start < |data| && Find(data, d, start) != -1 && rest == data[start..]
    ensures var next := Find(data, d, start);
      next + |d| <= |data| && part == data[start..next] && tail == data[next + |d|..]
    ensures Parts(rest, d) == [part] + Parts(tail, d)
  {
    hide Parts, Find;
    var next := Find(data, d, start);
    assert data == data[..start] + rest;
    FindShift(data[..start], rest, d, 0);
    FirstPart(rest, d);
    part, tail := data[start..next], data[next + |d|..];
    assert rest[..next - start] == part && rest[next - start + |d|..] == tail;
  }

  lemma NoMoreParts(data: string, d: string, start: nat, rest: string)
    requires d != "" && start <= |data| && rest == data[start..]
    requires start < |data| ==> Find(data, d, start) == -1
    ensures Parts(rest, d) == [rest] && (start == |data| ==> rest == "")
  {
    hide Find;
    assert data == data[..start] + rest;
    FindShift(data[..start], rest, d, 0);
    FindInEmpty(d);
  }

  lemma FirstPart(s: string, d: string)
    requires d != ""
    ensures var p := Find(s, d, 0);
      Parts(s, d) == if p == -1 then [s] else [s[..p]] + Parts(s[p + |d|..], d)
  {
    hide Find;
  }

  lemma FindInEmpty(key: string)
    ensures key != "" ==> Find("", key, 0) == -1
  {
  }

  /** One step of the replacement: `rest` up to and behind the first key. */
  lemma SubstituteFirst(done: string, rest: string, key: string, value: string) returns (front: string, tail: string)
    requires key != "" && Find(done + rest, key, |done|) != -1
    ensures rest == front + key + tail && Find(done + rest, key, |done|) == |done| + |front|
    ensures Substitute(rest, key, value) == front + value + Substitute(tail, key, value)
  {
    hide Find;
    FindShift(done, rest, key, 0);
    FindFirst(rest, key, 0);
    var p := Find(rest, key, 0);
    front, tail := rest[..p], rest[p + |key|..];
  }

  /** What one turn of the replacement does to the text: `done` grows, `rest` shrinks. */
  lemma ReplaceStep(data: string, done: string, rest: string, key: string, value: string)
    returns (done': string, rest': string)
    requires key != "" && data == done + rest && Find(data, key, |done|) != -1
    ensures var i := Find(data, key, |done|);
      && i + |key| <= |data| && data[..i] + value + data[i + |key|..] == done' + rest'
      && |done'| == i + |value| && |rest'| < |rest|
    ensures done + Substitute(rest, key, value) == done' + Substitute(rest', key, value)
  {
    hide *;
    var front, tail := SubstituteFirst(done, rest, key, value);
    AroundSlice(done, front, key, tail);
    RegroupFour(done, front, value, tail);
    RegroupFour(done, front, value, Substitute(tail, key, value));
    done', rest' := done + front + value, tail;
    RegroupThree(done + front, value, tail);
  }

  lemma SubstituteNone(done: string, rest: string, key: string, value: string)
    requires key != "" && Find(done + rest, key, |done|) == -1
    ensures Substitute(rest, key, value) == rest
  {
    hide *;
    FindShift(done, rest, key, 0);
    SubstituteNoKey(rest, key, value);
  }

  lemma SubstituteNoKey(rest: string, key: string, value: string)
    requires key != "" && Find(rest, key, 0) == -1
    ensures Substitute(rest, key, value) == rest
  {
    hide Find;
  }

}
