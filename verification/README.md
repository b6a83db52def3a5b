# Verified models of libSloppy

This project models the algorithmic core of libSloppy in Dafny and proves what that core is for. It has
five parts.

* **The timezone rules** (`TzRule`, `RuleSplit`, `RuleOrder`, `RuleTable`, `RuleWalk`, `Timeline`, `FindRule`,
  `RuleResolution`, `TzTransitions`). A table of year-ranged rules is rewritten in place, by cutting and sorting again inside
  the loop, until two rules of one name cover either the same years or none in common. The walk over the
  (rule, year) pairs of such a table and the search for the offset interval of an instant rest on that. A
  sorted vector of transitions answers the same question. `RuleTable.RuleTable` holds the rule vector and updates it step by step; the
  lemmas follow the part of the run that starts at the rule the outer loop looks at.
* **Codecs and hashing** (`Sha256Spec`, `Sha256`, `Sha256Answer`, `Base64`, `Division`). The streaming SHA-256 object refines FIPS 180-4;
  the Base64 loops, with their accumulator that wraps at 32 bits, refine section 4 of RFC 4648.
* **CSV** (`CsvEscape`, `CsvRow`, `CsvRoundTrip`, `CsvUnquoted`, `CsvInput`, `CsvTable`, `CsvText`,
  `CsvTextRoundTrip`, `CsvTableFacts`).
  Escaping in four passes, the quoting automaton that splits a row, the printer, the table with its map from names to
  columns, and the text of a whole table.
* **Strings** (`Strings`, `EString`). Replacement in place, splitting and joining, numbered placeholders.
* **Threads** (`CyclicWorker`, `CyclicPromises`, `CyclicCycles`, `SafeQueue`, `AsyncWorker`,
  `AsyncProgress`). State machines whose steps are the sections
  between taking and releasing a lock. A class carries the fields; each of its methods is one such section
  and is proved to be a step of the machine; the lemmas are about all runs of the machine.

`Results` and `Sequences` hold what several parts share.

Where the code does not keep a promise on all inputs, the exact condition is proved:

* SHA-256 pads as the standard demands if and only if the message has less than 2^29 bytes
  (`Sha256.CodePadIsPad`), because the bit length is kept modulo 2^32.
* Resolving the day of a rule for one year leaves its effect as it was if and only if the day, named by month and
  day, is the same day of that year (`RuleResolution.ResolvedRule`); it is not if it falls into the year before or
  after, because tz.cpp:1047-1061 keeps the month and the day only. If it is for every rule, all transitions stay.
* Unescaping restores an escaped string if and only if it has no backslash followed by the letter n
  (`CsvEscape.EscapeRoundTrip`).
* A printed row without doubles, other than the empty one and a single NULL, is parsed back if and only if no
  string in it holds a quotation mark (quoted), or no string ends in a backslash or has a backslash followed
  by the letter n (quoted and escaped) (`CsvRoundTrip.RowRoundTrip`). Printed without quotation marks, a
  non-empty row of integers and strings is parsed back if and only if no string is empty or would be taken for
  a number and, plain, none holds a comma, or, escaped, none has a backslash followed by the letter n and none
  before the last ends in a backslash (`CsvUnquoted.BareRowRoundTrip`).
* Encoding what was decoded from Base64 gives the input back if and only if padding stands only where it is
  counted and the leftover bits are zero (`Base64.DecodeThenEncode`).
* The search for the rule in force answers every query, by any of the three clocks, with an interval that by that
  clock has begun and not ended if and only if what the clock shows at the transitions strictly increases
  (`FindRule.AnswersFit`).
* A local time is classified rightly as unique, ambiguous or nonexistent if and only if it is not in a gap less
  than a day after the start of the segment before the gap, and, where an earlier segment than the last one begun
  contains it, the one directly before does so too and the last one has begun less than a day ago
  (`TzTransitions.TimeZone.GetLocalInfo`). For which tables this holds of every local time is
  `TzTransitions.ClearEverywhere`; it does if segments last a day and the offset drops by a day at most.
* A table without doubles that its operations can build is read back from its printed text, in
  both modes with quotes and with the same number of columns, if and only if no row is a single NULL, it has
  rows or names unless it has no columns, and its strings and names are safe
  (`CsvTextRoundTrip.BuiltTableRoundTrip`). Quoted and escaped, safe means the condition for rows above.
  Quoted only, a string must hold neither a quotation mark nor a newline, and a name, which is printed bare,
  must be a number that is printed again as it was read.
* A parsed table has rows of equal length if and only if it is parsed with a header, or its first non-empty
  line is not a lone carriage return, or there are no other non-empty lines than such
  (`CsvText.ParsedTableIsRectangular`).
  Sloppy/CSV.h:404 promises an exception for rows of different lengths; behind such a line there is none.
* Splitting and joining restores a string if and only if it does not start with the delimiter
  (`EString.SplitThenJoin`).
* A table operation leads from a valid table to a valid one if and only if it neither appends an empty row to
  a table without columns nor erases the last column of a table with rows (`CsvTable.StepValid`). Valid means
  rows of equal length, names that are a bijection onto the columns, and no rows without columns; without the
  last of these the next non-empty row does not fit the others (`CsvTable.NotAllowedBreaks`).
* After `terminate` the pending flag is cleared only in the final state, in every continuation, if and only if
  it does not come during another hook, and no other controller has a command past its unlocked test that would
  still be accepted, unless the destructor stops the thread before it can see that command
  (`CyclicPromises.TerminationIsCarriedOut`). With one controller only the hook matters
  (`CyclicPromises.OneController`).
* A thread asked to join ends within six steps if its waits time out (`AsyncWorker.JoinReturns`); with a negative
  preemption time, which never times out, it may wait for ever (`AsyncWorker.WaitsForEver`).
* The queue with a condition variable never takes from an empty queue if and only if there is one reader at
  most (`SafeQueue.CvSafeForOneReader`).

The comment at Sloppy/ThreadSafeQueue.h:263 asks for one reading thread with the pipe as well; in the model
that queue never takes from an empty queue with any number of readers.

Rule names are represented by their rank in string order. The day of a "last Sunday" or "first Sunday on or
after" rule depends on the calendar, which is not part of this model: it enters as the function parameters
`canon` and `cal`, about which nothing is assumed but, in `RuleResolution`, what is said above. Nor is anything
assumed about how decimal numbers are read and printed: whether one is in the range of a double and how it is
printed again is the parameter `dbl`.
`std::sort`, `std::lower_bound` and `std::upper_bound` are methods of which callers see no more than the
contract. Instants are integers, in seconds.

## Model

| member | source | states |
|---|---|---|
| TzRule.StdSort | Sloppy/DateTime/tz.cpp:1285-1298 | sorting promises a permutation in which no rule is less than an earlier one, and nothing about equal rules |
| RuleSplit.PiecesConserve | Sloppy/DateTime/tz.cpp:1408-1474 | whichever branch cuts two rules, every additive quantity of the pair stays the same, so each (rule body, year) pair does |
| RuleSplit.InYearAdditive | Sloppy/DateTime/tz.cpp:1408-1474 | counting the rules that apply a given body in a given year is such a quantity |
| RuleSplit.SumPermutation | Sloppy/DateTime/tz.cpp:1488-1489 | sorting keeps every such quantity |
| RuleSplit.LengthBound | Sloppy/DateTime/tz.cpp:1481-1492 | the number of rules never exceeds the number of (rule, year) pairs, which bounds the growing end of the run |
| RuleSplit.FirstRange | Sloppy/DateTime/tz.cpp:1487-1489 | after cutting and sorting, the rule that comes first has the years that the cut left to the rule the outer loop looks at |
| RuleSplit.CheckedAfterSplit | Sloppy/DateTime/tz.cpp:1483-1491 | cutting against position k and sorting leaves everything up to k settled, although the sort moves rules across k |
| RuleSplit.DoneAfterSplit | Sloppy/DateTime/tz.cpp:1481-1492 | a cut and a sort further on do not undo what an earlier pass of the outer loop has settled |
| RuleSplit.PassStep | Sloppy/DateTime/tz.cpp:1483-1491 | the invariant of the two loops survives a cut and a sort, with the (rule body, year) pairs unchanged |
| RuleSplit.DoneMeansOverlapFree | Sloppy/DateTime/tz.cpp:1481-1492 | once every rule is settled, any two have the same years or disjoint ones, ordered by starting year |
| RuleOrder.BehindAfterSplit | Sloppy/DateTime/tz.cpp:1483-1491 | a cut and a sort leave no rule up to position k that starts with the first one but takes effect earlier in the year |
| RuleOrder.OrderAfterSplit | Sloppy/DateTime/tz.cpp:1483-1491 | the order of months and days that earlier passes have reached survives a cut and a sort |
| RuleOrder.OrderMeansSorted | Sloppy/DateTime/tz.cpp:1481-1492 | when the loops end the whole run is sorted, although each sort covers only its end |
| RuleOrder.PositionIsDayOrder | Sloppy/DateTime/tz.cpp:1285-1298 | in a sorted table without overlaps the rules of one year stand in the order of month and day |
| RuleOrder.LastWeekdayIsLate | Sloppy/DateTime/tz.cpp:1285-1298 | in one month, a rule on the last of a weekday stands behind one before the 31st |
| RuleTable.RuleTable.Split | Sloppy/DateTime/tz.cpp:1408-1474 | the five branches, with their insertions, put the pieces of the two rules in their places and report the new end |
| RuleTable.RuleTable.SplitAndSort | Sloppy/DateTime/tz.cpp:1487-1489 | only the run from i to the new end changes, into a sorted permutation of the cut run |
| RuleTable.RuleTable.ComparePass | Sloppy/DateTime/tz.cpp:1483-1491 | one pass of the inner loop ends although its bound grows, meets the assertion of `split` at every call, and settles rule i |
| RuleTable.RuleTable.RemoveOverlaps | Sloppy/DateTime/tz.cpp:1481-1492 | the run becomes overlap-free and stays sorted, keeps every (rule body, year) pair, and is no longer than their number |
| RuleTable.RuleTable.ResolveDays | Sloppy/DateTime/tz.cpp:1493-1497 | exactly the one-year rules of the run get their day resolved |
| RuleTable.RuleTable.SplitRun | Sloppy/DateTime/tz.cpp:1477-1498 | the whole treatment of one run of equal names, with the rules around it untouched |
| RuleTable.RuleTable.UpperBoundByName | Sloppy/DateTime/tz.cpp:1506-1511 | the end found is the partition point of the names |
| RuleTable.RuleTable.LowerBoundByYear | Sloppy/DateTime/tz.cpp:1515-1515 | the rules before the bound are those that end before the year |
| RuleTable.RuleTable.UpperBoundByYear | Sloppy/DateTime/tz.cpp:1526-1526 | the rules up to the bound are those that do not start after the year |
| RuleTable.RuleTable.TrimFront | Sloppy/DateTime/tz.cpp:1515-1523 | of the rules that end before the minimal year only the last is kept, unless the next one has started by then |
| RuleTable.RuleTable.TrimBack | Sloppy/DateTime/tz.cpp:1524-1532 | no rule is kept that starts after the maximal year |
| RuleTable.RuleTable.TrimRun | Sloppy/DateTime/tz.cpp:1513-1532 | exactly a stretch of the run is kept, with the rules around it untouched |
| RuleTable.TrimKeepsYears | Sloppy/DateTime/tz.cpp:1513-1532 | trimming adds nothing and loses no (rule body, year) pair between the minimal and the maximal year |
| RuleTable.TrimKeepsStart | Sloppy/DateTime/tz.cpp:1513-1532 | if a rule has taken effect before the minimal year, one that has is kept, at the front, and at most one that has also ended by then |
| RuleTable.KeepsEverything | Sloppy/DateTime/tz.cpp:1513-1532 | if all rules lie between these years, as they do by default, nothing is lost at all |
| RuleTable.RuleTable.SplitNextRun | Sloppy/DateTime/tz.cpp:1504-1533 | one turn over the runs extends the finished front of the table and shortens the rest |
| RuleTable.RuleTable.SplitOverlaps | Sloppy/DateTime/tz.cpp:1501-1536 | on any sorted table: afterwards it is overlap-free, grouped by name and ordered by starting year; before days are resolved it is sorted, no (rule body, year) pair has been added, none between the minimal and the maximal year is lost, and for every name with a rule that takes effect before the minimal year one is kept |
| RuleResolution.ResolvedRule | Sloppy/DateTime/tz.cpp:1029-1068 | a rule with its day resolved has the same years, name, save and abbreviation and takes effect at the same instant in every year, whatever offset and save are in force, exactly if its day is kept |
| RuleResolution.ResolvedDays | Sloppy/DateTime/tz.cpp:1493-1497 | after resolution every rule for one year names its day by month and day, and no other rule has changed |
| RuleResolution.ResolvedTransitions | Sloppy/DateTime/tz.cpp:1493-1497 | with all days kept a zone runs through the same occurrences and has the same transitions by every clock and the same intervals before and after resolution |
| RuleWalk.FindNextRule | Sloppy/DateTime/tz.cpp:1614-1637 | the pointer moves give the next occurrence, or none |
| RuleWalk.FindNextRuleIn | Sloppy/DateTime/tz.cpp:1583-1603 | the variant with the bounds of the name gives the same |
| RuleWalk.FindPreviousRule | Sloppy/DateTime/tz.cpp:1547-1570 | the pointer moves give the previous occurrence, or none where the code terminates |
| RuleWalk.NextIsSuccessor | Sloppy/DateTime/tz.cpp:1614-1637 | no occurrence of the name lies between an occurrence and the one stepped to, and there is none behind the last |
| RuleWalk.PreviousIsPredecessor | Sloppy/DateTime/tz.cpp:1547-1570 | the same in the other direction |
| RuleWalk.PreviousUndoesNext | Sloppy/DateTime/tz.cpp:1547-1637 | stepping forth and back leads to where it started |
| RuleWalk.NextUndoesPrevious | Sloppy/DateTime/tz.cpp:1547-1637 | stepping back and forth leads to where it started |
| RuleWalk.WalkMeetsAll | Sloppy/DateTime/tz.cpp:1614-1637 | stepping on from any occurrence meets, in strictly increasing order, exactly the ones that are not earlier, and then ends |
| RuleWalk.WalkFromFirst | Sloppy/DateTime/tz.cpp:1614-1637 | from the first rule of a name in its first year every (rule, year) pair of the name is met exactly once |
| FindRule.InstantsMove | Sloppy/DateTime/tz.cpp:1001-1026 | a later day or second of a rule is a later instant by as much, standard time is ahead of UTC by the offset and local time of standard time by the save |
| FindRule.IntervalFrom | Sloppy/DateTime/tz.cpp:1753-1767 | beginning, end, save and abbreviation of the interval that starts at an occurrence, timed with the save of the rule before it |
| FindRule.FindRule | Sloppy/DateTime/tz.cpp:1724-1775 | for a query by any clock, UTC, standard or local time: the interval in which the search among the transitions, as that clock shows them, ends; the whole time line without rules |
| FindRule.AnswersFit | Sloppy/DateTime/tz.cpp:1724-1775 | the answered interval has begun by the clock before it and not ended by its own clock, for every query exactly if what the clock shows at the transitions strictly increases |
| FindRule.AnswersTile | Sloppy/DateTime/tz.cpp:1724-1775 | in UTC with increasing transitions the answered interval contains the instant, and exactly the instants inside it get the same answer |
| FindRule.UtcTransitions | Sloppy/DateTime/tz.cpp:1724-1775 | what the clock of UTC shows at the transitions are the transitions themselves, of which the intervals are made |
| FindRule.PathLinks | Sloppy/DateTime/tz.cpp:1736-1773 | the occurrences run through are linked by stepping in both directions, so the lookups of neighbours in the loop never fail |
| Timeline.Tiling | Sloppy/DateTime/tz.cpp:1724-1775 | increasing instants cut the time line into intervals of which exactly one contains a given instant |
| Timeline.SearchIsLocate | Sloppy/DateTime/tz.cpp:1736-1773 | among increasing instants the search from the front ends behind the last one that is not later |
| Timeline.FoundAlways | Sloppy/DateTime/tz.cpp:1736-1773 | the search finds the right interval for every instant exactly if the instants strictly increase |
| TzTransitions.TimeZone.RemoveDuplicates | Sloppy/DateTime/tz.cpp:2207-2218 | erasing from the back drops every transition that repeats the information of the one before it and leaves no equal neighbours |
| TzTransitions.DistinctKeepsInfo | Sloppy/DateTime/tz.cpp:2207-2218 | removing duplicates changes the information in force at no instant |
| TzTransitions.DistinctShape | Sloppy/DateTime/tz.cpp:2207-2218 | the first transition stays, and no two neighbours carry the same information |
| TzTransitions.TimeZone.GetInfo | Sloppy/DateTime/tz.cpp:2255-2264 | the interval loaded for an instant, which is the maximal one of constant information if duplicates are gone |
| TzTransitions.LookupIsMaximal | Sloppy/DateTime/tz.cpp:2228-2264 | the loaded interval contains the instant, has one information throughout, and cannot be extended on either side |
| TzTransitions.LookupAfterRemoval | Sloppy/DateTime/tz.cpp:2207-2264 | after removing duplicates a lookup gives the maximal interval of constant information of the transitions as loaded |
| TzTransitions.TimeZone.GetLocalInfo | Sloppy/DateTime/tz.cpp:2267-2305 | between the first local start and the end of time, exactly if a local time is clear: it is called unique, ambiguous or nonexistent as one, several or no segments contain it, with the right segments in order; before the first local start it is unique with the first segment's information |
| TzTransitions.AnswerIsClassified | Sloppy/DateTime/tz.cpp:2277-2303 | the answer the two comparisons lead to is right exactly for a clear local time |
| TzTransitions.ClearEverywhere | Sloppy/DateTime/tz.cpp:2267-2305 | all local times of a table are clear exactly if a segment with a gap behind it lasts a day, and while a segment is the last one begun no earlier one contains a time outside its first day or not in the previous one |
| TzTransitions.RegularIsUnhurried | Sloppy/DateTime/tz.cpp:2267-2305 | that is so if segments last at least a day and the offset never drops by more than a day |
| Sha256Spec.HashBlocksConcat | Sloppy/Crypto/Crypto.cpp:305-341 | hashing blocks can be split at any block boundary |
| Sha256Spec.PadFills | Sloppy/Crypto/Crypto.cpp:386-403 | the padding of section 5.1.1 of FIPS 180-4 completes the last block |
| Sha256.CodePadIsPad | Sloppy/Crypto/Crypto.cpp:386-398 | the code's padding is that of section 5.1.1 exactly for messages of less than 2^29 bytes |
| Sha256.Hasher.constructor | Sloppy/Crypto/Crypto.cpp:345-357 | a new hasher has seen nothing and is in the initial state of section 5.3.3 |
| Sha256.Hasher.Transform | Sloppy/Crypto/Crypto.cpp:305-341 | any number of blocks is hashed as section 6.2.2 of FIPS 180-4 says |
| Sha256.Hasher.TransformBlock | Sloppy/Crypto/Crypto.cpp:314-339 | one block: message schedule, 64 rounds, addition to the hash |
| Sha256.PrepareSchedule | Sloppy/Crypto/Crypto.cpp:315-320 | the message schedule of section 6.2.2 |
| Sha256.RunRounds | Sloppy/Crypto/Crypto.cpp:321-336 | the 64 rounds on the working variables |
| Sha256.Hasher.Update | Sloppy/Crypto/Crypto.cpp:361-382 | the buffer holds less than a block, the counters add up to the bytes seen modulo 2^32, and the state is the hash of all complete blocks seen so far, for any chunk of which no block's offset exceeds a signed integer |
| Sha256.Hasher.Final | Sloppy/Crypto/Crypto.cpp:386-403 | the digest of all bytes seen, as padded by the code |
| Sha256.HashMore | Sloppy/Crypto/Crypto.cpp:373-381 | a chunk that fills the buffer leaves the object consistent with the longer input |
| Sha256.FinishHash | Sloppy/Crypto/Crypto.cpp:392-399 | the one or two last blocks laid out in the buffer are the padded rest of the message |
| Sha256.HashChunks | Sloppy/Crypto/Crypto.cpp:361-403 | any sequence of chunks gives a digest of their concatenation, whatever the chunk boundaries: that of FIPS 180-4 if there are less than 2^29 bytes in all |
| Sha256Answer.PackValue | Sloppy/Crypto/Crypto.h:299-305 | four bytes are read as the digits of a number to the base 256, most significant first |
| Sha256Answer.UnpackPack | Sloppy/Crypto/Crypto.h:292-305 | writing a word undoes reading it |
| Sha256Spec.OctetsRead | Sloppy/Crypto/Crypto.cpp:398-398 | the bytes of the length are its digits to the base 256, most significant first |
| Sha256Answer.ConstantsAreCubeRoots | Sloppy/Crypto/Crypto.cpp:285-302 | each of the 64 constants holds the first 32 bits behind the point of the cube root of its prime, as section 4.2.2 of FIPS 180-4 says |
| Sha256Answer.InitialHashIsSquareRoots | Sloppy/Crypto/Crypto.cpp:345-357 | each word of the initial hash holds those of the square root of its prime, as section 5.3.3 says |
| Sha256Answer.KnownAnswer | Sloppy/Crypto/Crypto.cpp:305-403 | the digest of the three letters abc is the published one |
| Base64.ToBase64 | Sloppy/Crypto/Crypto.cpp:145-190 | the encoding of section 4 of RFC 4648, in exactly the computed number of bytes; an error for empty input |
| Base64.Drain | Sloppy/Crypto/Crypto.cpp:168-172 | the characters for which six bits are there are written at their places, whatever the accumulator lost to overflow |
| Base64.NextSextet | Sloppy/Crypto/Crypto.cpp:165-172 | the low 16 bits that survive a 32-bit overflow suffice for the next six bits of the input |
| Base64.LastSextet | Sloppy/Crypto/Crypto.cpp:177-181 | the bits left over at the end, filled up with zeros |
| Base64.PadOut | Sloppy/Crypto/Crypto.cpp:183-187 | padding up to a multiple of four characters |
| Base64.DecodeTable | Sloppy/Crypto/Crypto.cpp:219-220 | the table inverts the alphabet and marks everything else as invalid |
| Base64.FromBase64 | Sloppy/Crypto/Crypto.cpp:207-253 | for every input: an error for a bad length or a bad character before the padding, otherwise a buffer of the computed size filled with the bytes of the characters; nothing is ever written outside |
| Base64.NextByte | Sloppy/Crypto/Crypto.cpp:238-246 | the low 12 bits of the wrapped accumulator suffice for the next byte |
| Base64.RoomLeft | Sloppy/Crypto/Crypto.cpp:130-140 | the computed size has room for every byte that the characters before the padding give |
| Base64.EncodedShape | Sloppy/Crypto/Crypto.cpp:103-140 | the size computed from an encoding is the size of what was encoded |
| Base64.RoundTrip | Sloppy/Crypto/Crypto.cpp:145-253 | decoding the encoding of any non-empty byte sequence gives it back |
| Base64.EncodingIsCanonical | Sloppy/Crypto/Crypto.cpp:145-190 | an encoding has padding exactly where the decoder counts it, and zeros in the bits that belong to no byte |
| Base64.DecodeThenEncode | Sloppy/Crypto/Crypto.cpp:145-253 | encoding the bytes decoded from any input gives the input back exactly if it is canonical in this sense |
| Base64.UncanonicalOccurs | Sloppy/Crypto/Crypto.cpp:207-253 | there is an input that is decoded but is not the encoding of its bytes |
| Base64.AlphabetInRuns | Sloppy/Crypto/Crypto.cpp:169-169 | the alphabet is A to Z, a to z, 0 to 9, plus and slash |
| Base64.TestVectorFoob | Sloppy/Crypto/Crypto.cpp:145-190 | the test vector of section 10 of RFC 4648 with two padding characters |
| Base64.TestVectorFooba | Sloppy/Crypto/Crypto.cpp:145-190 | the test vector with one padding character |
| Base64.TestVectorFoobar | Sloppy/Crypto/Crypto.cpp:145-190 | the test vector without padding |
| CsvEscape.EscapeIsOnePass | Sloppy/CSV.cpp:39-58 | the four escaping passes are one substitution per character |
| CsvEscape.PassesRestore | Sloppy/CSV.cpp:94-111 | the unescaping passes restore a string without backslash-n from its escaped form, also with raw quotation marks around it |
| CsvEscape.MistakenNewline | Sloppy/CSV.cpp:94-111 | with a backslash followed by n, more newlines and fewer letters n come out than went in |
| CsvEscape.EscapeRoundTrip | Sloppy/CSV.cpp:39-112 | unescaping restores a string from its escaped form exactly if it has no backslash followed by n |
| CsvRow.IntTextShape | Sloppy/CSV.cpp:135-177 | printed integers are recognised as integers and read back as the same number |
| CsvRow.RowAsString | Sloppy/CSV.cpp:233-247 | the printed row in any mode, and the exception exactly for a NULL without quotes |
| CsvRow.RowStringFails | Sloppy/CSV.cpp:116-150 | printing fails exactly for a row with a NULL in a mode without quotes |
| CsvRow.RowStringIsText | Sloppy/CSV.cpp:116-247 | without doubles, and without NULLs in the modes without quotes, the printed row is the one of the round trip |
| CsvRow.FindSeparators | Sloppy/CSV.cpp:259-295 | the commas that separate fields, or the error for a third quotation mark in a field, as the quoting automaton decides |
| CsvRow.SplitInputInChunks | Sloppy/CSV.cpp:251-333 | the pieces between the separators, trimmed when quoted, with nothing left of a piece meaning NULL |
| CsvRow.NewRow | Sloppy/CSV.cpp:156-217 | the row of the parsed chunks, or an error as soon as one chunk is malformed or a number out of range |
| CsvRoundTrip.ScanRow | Sloppy/CSV.cpp:251-295 | on a printed row whose fields close properly the splitter finds exactly the printed fields |
| CsvRoundTrip.FewSeparators | Sloppy/CSV.cpp:251-295 | a field that ends in a backslash swallows its separator |
| CsvRoundTrip.ParseField | Sloppy/CSV.cpp:116-217 | a printed field by itself comes back exactly if it is safe; without escaping it always does |
| CsvRoundTrip.ParsedRowSafe | Sloppy/CSV.cpp:156-333 | whatever text is parsed as quoted, no string of the row holds a quotation mark |
| CsvRoundTrip.RowRoundTrip | Sloppy/CSV.cpp:116-333 | for every non-empty row of NULLs, integers and strings other than a single NULL, and both quoting modes: parsing the printed row gives it back exactly if all its strings are safe |
| CsvRoundTrip.EmptyAndNull | Sloppy/CSV.cpp:233-257 | the single NULL prints as the empty text, which is parsed as the empty row |
| CsvUnquoted.ScanBareRow | Sloppy/CSV.cpp:251-295 | in the modes without quotes the splitter finds exactly the printed fields if, plain, no string holds a comma or, escaped, none before the last ends in a backslash |
| CsvUnquoted.FewBareSeparators | Sloppy/CSV.cpp:251-295 | escaped, a string before the last that ends in a backslash swallows its separator, and nothing makes up for it |
| CsvUnquoted.ManyCommas | Sloppy/CSV.cpp:251-295 | plain, a comma in a string is one separator too many |
| CsvUnquoted.ParseBare | Sloppy/CSV.cpp:116-217 | a field printed without quotes comes back by itself exactly if it is legible: not empty, not taken for a number, and escaped without a backslash followed by n |
| CsvUnquoted.BareRowRoundTrip | Sloppy/CSV.cpp:116-333 | for every non-empty row of integers and strings, in both modes without quotes: parsing the printed row gives it back exactly if its strings are legible and, escaped, none before the last ends in a backslash |
| CsvInput.PaddedRow | Sloppy/CSV.cpp:251-333 | in both modes with quotes a row of safe values is read from its text with any white space before and behind its fields, and a field of white space only is a NULL |
| CsvInput.TrimPadded | Sloppy/String.cpp:112-161 | trimming removes the white space around a text and nothing else |
| CsvInput.ParsedNumber | Sloppy/CSV.cpp:171-187 | a chunk is read as a double exactly if its trimmed text is an optional minus sign, digits, one point and digits with at least one digit, and in range; as an integer exactly if it is a whole number of 64 bits, which is its value |
| CsvInput.PointNumbers | Sloppy/String.cpp:453-479 | which texts are taken for doubles but not for integers |
| CsvInput.WholeNumbers | Sloppy/String.cpp:432-449 | which texts are taken for integers: an optional minus sign and at least one digit |
| CsvInput.DigitsRead | Sloppy/CSV.cpp:171-177 | digits are zeros and the printed text of their value |
| CsvInput.NumberExamples | Sloppy/CSV.cpp:135-177 | numbers are decimal |
| CsvInput.ParsedQuoted | Sloppy/CSV.cpp:189-217 | quoted, a chunk is a string exactly if it stands between quotation marks, and it is what stands between them |
| CsvInput.ParsedQuotedAndEscaped | Sloppy/CSV.cpp:189-217 | with escaping also, exactly if the closing mark is a raw one and every comma is escaped |
| CsvInput.UnquotedRefused | Sloppy/CSV.cpp:189-202 | what is neither a number nor between quotation marks is refused |
| CsvInput.EscapedExample | Sloppy/CSV.cpp:39-58 | how a comma, a quotation mark, a backslash and a newline are written |
| CsvTable.CsvTable.Add | Sloppy/CSV.cpp:382-414 | a row of the right length is appended, the first one fixes the number of columns, any other is refused |
| CsvTable.CsvTable.FindHeader | Sloppy/CSV.cpp:609-617 | a name of the column, or none if there is none, in whatever order the map is searched |
| CsvTable.CsvTable.SetHeaderAt | Sloppy/CSV.cpp:432-448 | the trimmed name replaces the old one, and success is reported exactly if the table changes |
| CsvTable.CsvTable.SetHeaders | Sloppy/CSV.cpp:452-473 | all trimmed names are taken over, or nothing changes, by whether they are as many as the columns, valid and distinct |
| CsvTable.CsvTable.SetHeaderTrimmed | Sloppy/CSV.cpp:643-683 | the same for names already trimmed |
| CsvTable.CsvTable.EraseColumnAt | Sloppy/CSV.cpp:555-586 | the column disappears from every row, its name from the map, and the later indices move up, although the map is searched and changed while it is inconsistent |
| CsvTable.CsvTable.EraseColumnNamed | Sloppy/CSV.cpp:590-605 | the same by name; refused exactly if the name is unknown |
| CsvTable.CsvTable.Erase | Sloppy/CSV.h:588-594 | a range of rows is removed |
| CsvTable.StepValid | Sloppy/CSV.cpp:382-683 | from a valid table an operation leads to a valid one exactly if it is allowed |
| CsvTable.RunValid | Sloppy/CSV.cpp:382-683 | over every sequence of allowed operations all rows have the same number of cells and the names are a bijection onto the columns |
| CsvTable.NotAllowedBreaks | Sloppy/CSV.cpp:382-396 | after any operation that is not allowed, appending a non-empty row gives rows of different lengths |
| CsvTable.SurvivorsKeepCells | Sloppy/CSV.cpp:555-586 | after erasing a column every other name selects the same cells, and only the name of the column is gone |
| CsvTable.NamesFollowColumns | Sloppy/CSV.cpp:382-605 | the same over any run of appending rows and erasing columns |
| CsvTable.NamesSelectColumns | Sloppy/CSV.cpp:643-683 | the name number i selects column i |
| CsvTable.RenamedKeepsColumns | Sloppy/CSV.cpp:432-448 | a renamed column keeps its cells under the new name, and all other names stay where they are |
| CsvTableFacts.AppendedRow | Sloppy/CSV.cpp:382-414 | a row is put behind all others, which stay |
| CsvTableFacts.ErasedRows | Sloppy/CSV.h:588-594 | the rows in front of an erased range and behind it stay, in their order |
| CsvTableFacts.NewNameTaken | Sloppy/CSV.cpp:432-448 | a named column takes every name that is not empty when trimmed, has no comma and no quotation mark, and is not used |
| CsvTableFacts.NewNamesTaken | Sloppy/CSV.cpp:452-473 | any distinct names of this kind, one for each column, are taken |
| CsvText.PrintTable | Sloppy/CSV.cpp:523-551 | the printed table in any mode: the names in the order of their columns, whatever the order of the map, one line for each row, and the exception of a row |
| CsvText.TableStringIsText | Sloppy/CSV.cpp:523-551 | with quotes and without doubles the printed table is the one of the round trip |
| CsvText.SetHeaderRow | Sloppy/CSV.cpp:477-490 | a row is taken as names if it has no NULL and its texts are accepted; otherwise nothing changes |
| CsvText.ParseTable | Sloppy/CSV.cpp:344-378 | the table of a text, line by line, with an error as soon as a line is malformed, has the wrong length or is no valid header |
| CsvText.ParsedTableIsValid | Sloppy/CSV.cpp:344-378 | a parsed table is valid exactly if it has a header or its first non-empty line is not a lone carriage return |
| CsvText.ParsedTableIsRectangular | Sloppy/CSV.cpp:344-378 | its rows have equal length exactly if this holds or there are only such lines |
| CsvTableFacts.HeaderCellRead | Sloppy/CSV.cpp:523-540 | names are printed as they are without escaping, and with it so that they are read back exactly if they have no backslash followed by n |
| CsvTableFacts.EitherLineEnd | Sloppy/CSV.cpp:344-378 | a text is read in the same way whether its lines end in a newline or in a carriage return and a newline |
| CsvTableFacts.LinesAreRows | Sloppy/CSV.cpp:350-377 | parsed without a header, a table has exactly one row for each line, and it is what the line is parsed into |
| CsvTableFacts.LinesBehindHeader | Sloppy/CSV.cpp:350-377 | with a header, the same of the lines behind the first one, if that is not a lone carriage return |
| CsvTextRoundTrip.LinesRestored | Sloppy/CSV.cpp:348-348 | splitting printed lines gives the lines back, without the empty ones |
| CsvTextRoundTrip.PrintedLines | Sloppy/CSV.cpp:348-348 | a row of a single NULL is lost as an empty line, and no other row is |
| CsvTextRoundTrip.RowTextClean | Sloppy/CSV.cpp:233-247 | a printed row holds no newline and does not end in a carriage return; without escaping, if no string holds a newline |
| CsvTextRoundTrip.RowsParsed | Sloppy/CSV.cpp:344-378 | rows of equal length come back from their lines exactly if all their strings are safe |
| CsvTextRoundTrip.ParsedTableIsSafe | Sloppy/CSV.cpp:344-378 | no string of a table that was parsed as quoted holds a quotation mark or a newline |
| CsvTextRoundTrip.EscapedHeader | Sloppy/CSV.cpp:360-369 | with escaping the names come back from the header line exactly if they are safe, although they are trimmed after parsing |
| CsvTextRoundTrip.BareHeader | Sloppy/CSV.cpp:360-369 | printed bare, the names come back exactly if each is a number that is printed again as it was read |
| CsvTextRoundTrip.BrokenHeader | Sloppy/CSV.cpp:344-378 | a header that a newline in a name breaks into several lines never gives the rows back: the surplus lines cannot make up for rows that were lost |
| CsvTextRoundTrip.HeaderParsed | Sloppy/CSV.cpp:360-369 | in both modes a header in one line gives the names back exactly if they are safe |
| CsvTextRoundTrip.TableRoundTrip | Sloppy/CSV.cpp:344-551 | in both modes with quotes a valid table, with its rows, names and number of columns, is read back from its text exactly if it is readable |
| CsvTextRoundTrip.BuiltTableRoundTrip | Sloppy/CSV.cpp:344-683 | the same for every table that any sequence of allowed operations builds |
| CsvTextRoundTrip.RunProper | Sloppy/CSV.cpp:432-683 | over every sequence of operations all names are non-empty, trimmed and without commas and quotation marks |
| CsvTextRoundTrip.RaggedTableOccurs | Sloppy/CSV.cpp:344-378 | a text whose first line is a lone carriage return is parsed into rows of different lengths |
| Strings.FindFirst | Sloppy/String.cpp:238-268 | a search gives the first occurrence at or after its start |
| Strings.PartsRestore | Sloppy/String.cpp:483-534 | the parts hold no delimiter, and with the delimiter between them they are the string |
| Strings.SubstituteIsInterleave | Sloppy/String.cpp:238-268 | leftmost substitution is the parts between the keys with the value put in |
| Strings.JoinedIsInterleave | Sloppy/String.cpp:199-210 | joining puts the delimiter between all parts if the first one is not empty |
| Strings.JoinedDropsDelimiters | Sloppy/String.cpp:199-210 | with an empty first part delimiters get lost |
| EString.SplitThenJoin | Sloppy/String.cpp:199-534 | joining what a non-empty string was split into restores it exactly if it does not start with the delimiter |
| EString.SplitOptions | Sloppy/String.cpp:483-534 | with empty parts kept there is one result for each part, trimmed if asked for; otherwise those of them that are not empty |
| EString.EString.Join | Sloppy/String.cpp:199-210 | the joining constructor, for any parts |
| EString.EString.ReplaceAll | Sloppy/String.cpp:238-268 | in-place replacement gives the leftmost substitution on the original string, also if the value contains the key, and reports whether the key occurs |
| EString.EString.ReplaceNext | Sloppy/String.cpp:254-265 | a turn of the loop shortens the part not searched yet and keeps the final result |
| EString.EString.Split | Sloppy/String.cpp:483-534 | the parts between the delimiters, without empty ones and trimmed as asked for; an error for an empty delimiter |
| EString.EString.FindAllArgTags | Sloppy/String.cpp:538-624 | all placeholders in order and their lowest number, with an exception exactly if a percent sign ends the string or a number does not fit |
| EString.TagsAreExact | Sloppy/String.cpp:538-624 | every percent sign with a digit behind it is listed once, with the longest run of digits |
| EString.EString.Arg | Sloppy/String.cpp:328-393 | the copied text has the size computed beforehand and is the string with the placeholders of the lowest number filled in |
| EString.ArgReplacesLowest | Sloppy/String.cpp:328-393 | exactly the placeholders of the smallest number are replaced, none of them missed, and with their texts between the stretches of text the string itself comes out; provided a number is below 999999, else nothing changes |
| EString.StretchesRestore | Sloppy/String.cpp:365-392 | the stretches between the placeholders of a number, with the texts of these placeholders put back, are the string |
| EString.FilledIsInterleave | Sloppy/String.cpp:365-392 | the text between the replaced placeholders does not depend on the replacement, which is not searched again |
| CyclicWorker.CyclicWorkerThread.Check | Sloppy/CyclicWorkerThread.cpp:54-54 | a command goes on exactly if it sees no pending transition; other threads may act before it gets the lock |
| CyclicWorker.CyclicWorkerThread.RunLocked | Sloppy/CyclicWorkerThread.cpp:56-73 | from the initial and the suspended state running is requested; success is reported in these and when already running, and in no transition |
| CyclicWorker.CyclicWorkerThread.PauseLocked | Sloppy/CyclicWorkerThread.cpp:82-99 | only from the running state suspension is requested; success is reported there and when already suspended |
| CyclicWorker.CyclicWorkerThread.ResumeLocked | Sloppy/CyclicWorkerThread.cpp:108-125 | only from the suspended state running is requested; success is reported there and when already running |
| CyclicWorker.CyclicWorkerThread.RequestTermination | Sloppy/CyclicWorkerThread.cpp:130-143 | termination can be requested at any time before the end, also during a hook and over a pending request |
| CyclicWorker.CyclicWorkerThread.QuitFromDtor | Sloppy/CyclicWorkerThread.cpp:41-48 | the destructor needs no lock and changes neither state nor request |
| CyclicWorker.CyclicWorkerThread.LoopTop | Sloppy/CyclicWorkerThread.cpp:188-198 | the worker is called exactly in a new cycle with running requested, and never when the loop must stop |
| CyclicWorker.CyclicWorkerThread.AfterWorker | Sloppy/CyclicWorkerThread.cpp:202-219 | behind the worker the loop stops or goes to the state machine, whatever was requested meanwhile |
| CyclicWorker.CyclicWorkerThread.StateMachineBegin | Sloppy/CyclicWorkerThread.cpp:258-325 | termination first, then the three transitions of the table; the exception exactly where the table has no entry |
| CyclicWorker.CyclicWorkerThread.StateMachineEnd | Sloppy/CyclicWorkerThread.cpp:265-319 | behind the hook the state that belongs to it is entered and the flag cleared, even if termination was requested meanwhile |
| CyclicWorker.CyclicWorkerThread.AfterStateMachine | Sloppy/CyclicWorkerThread.cpp:221-231 | with time left the thread waits, otherwise a new cycle starts |
| CyclicWorker.CyclicWorkerThread.AfterWait | Sloppy/CyclicWorkerThread.cpp:227-231 | only a timeout starts a new cycle; a wake-up, also a spurious one, leads to the state machine |
| CyclicWorker.StepKeepsInv | Sloppy/CyclicWorkerThread.cpp:52-326 | every step of any thread keeps the invariant that ties states, requests, the flag and the calls made so far |
| CyclicWorker.Safety | Sloppy/CyclicWorkerThread.cpp:52-326 | in every interleaving with any number of controllers the exception is unreachable, the hooks come in regular order, no worker call follows onTerminate, and without a pending transition a stable state is the requested one or termination was requested |
| CyclicWorker.IdleCallsNothing | Sloppy/CyclicWorkerThread.cpp:176-326 | in a state other than running that is the requested one, no hook and no worker is called before the next command, and none ever after the end |
| CyclicPromises.AcceptedIsCarriedOut | Sloppy/CyclicWorkerThread.cpp:52-164 | after an accepted command the flag is next cleared in the state that was asked for, whatever other `run`, `pause` and `resume` commands take effect meanwhile |
| CyclicPromises.TerminationIsCarriedOut | Sloppy/CyclicWorkerThread.cpp:52-164 | over all continuations with any number of controllers, after `terminate` the flag is cleared only in the final state exactly if it does not come during another hook and no command that has passed its unlocked test would be accepted, unless the destructor's flag is set and the thread does not wait |
| CyclicPromises.OneController | Sloppy/CyclicWorkerThread.cpp:130-164 | with no such command, as with one controller, exactly if it does not come during another hook |
| CyclicPromises.FirstHookOccurs | Sloppy/CyclicWorkerThread.cpp:52-143 | a run leads into the first hook, during which `terminate` is lost |
| CyclicPromises.ArmedCommandOccurs | Sloppy/CyclicWorkerThread.cpp:52-143 | a run leads to a command that has passed its unlocked test, would be accepted, and overwrites `terminate` |
| CyclicPromises.FlagIsCleared | Sloppy/CyclicWorkerThread.cpp:158-326 | while a transition is pending and the destructor has not begun, the worker thread can always step, and at most six steps clear the flag, whatever other commands come in between |
| CyclicPromises.WaitEnds | Sloppy/CyclicWorkerThread.cpp:158-164 | waiting for an accepted command ends within six steps of the thread, and when the flag is first seen clear the state is the one that was asked for, whatever other `run`, `pause` and `resume` commands take effect |
| CyclicPromises.CommandsTakeEffect | Sloppy/CyclicWorkerThread.cpp:52-164 | within six steps of the thread `run` leads from the initial state and from suspension to running, `pause` from running to suspension, `resume` from suspension to running |
| CyclicPromises.OtherwiseNothing | Sloppy/CyclicWorkerThread.cpp:52-125 | in every other state these commands change nothing |
| CyclicPromises.DestructorJoins | Sloppy/CyclicWorkerThread.cpp:41-48 | once the destructor has set its flag the thread can step until its end, which it reaches after seven steps at most, whatever commands come in between |
| CyclicPromises.DestructorEnds | Sloppy/CyclicWorkerThread.cpp:41-48 | so the join of the destructor returns, whatever the state was |
| CyclicPromises.TerminateJoins | Sloppy/CyclicWorkerThread.cpp:147-154 | once termination is requested and no other command takes effect any more, the thread can step until its end, which it reaches after ten steps at most |
| CyclicPromises.TerminateRequests | Sloppy/CyclicWorkerThread.cpp:130-143 | `terminate` always leads to such a request |
| CyclicCycles.WorkerIsCalled | Sloppy/CyclicWorkerThread.cpp:176-231 | while the thread runs and its waits time out, n of its steps contain at least (n - 5) / 5 calls of the worker, whatever commands come that have no effect |
| CyclicCycles.OneCallInCycle | Sloppy/CyclicWorkerThread.cpp:188-231 | behind its call the worker is not called again before the time of the cycle is over, however often the thread wakes up and whatever hooks are called |
| CyclicCycles.NotCalledUnlessRequested | Sloppy/CyclicWorkerThread.cpp:192-192 | while running is not requested, as after an accepted `pause` or `terminate`, the worker is not called |
| SafeQueue.ThreadSafeQueue.Put | Sloppy/ThreadSafeQueue.h:78-96 | the item goes to the end, in the order in which writers get the lock, and no reader is disturbed |
| SafeQueue.ThreadSafeQueue.WaitForData | Sloppy/ThreadSafeQueue.h:201-230 | the first look: data is reported exactly if there is some; only a zero timeout gives up at once, and a negative one waits |
| SafeQueue.ThreadSafeQueue.WakeUp | Sloppy/ThreadSafeQueue.h:210-250 | awake again: data if there is some, giving up only after the time of a positive timeout, and waiting on otherwise |
| SafeQueue.ThreadSafeQueue.Take | Sloppy/ThreadSafeQueue.h:109-112 | the oldest item is taken, which the invariant shows to exist |
| SafeQueue.PipeSyncedQueue.PushBack | Sloppy/ThreadSafeQueue.h:82-83 | the item is visible before its token is, while the writer holds the lock |
| SafeQueue.PipeSyncedQueue.WriteToken | Sloppy/ThreadSafeQueue.h:326-329 | one token for the item, and the lock is released |
| SafeQueue.PipeSyncedQueue.WaitForData | Sloppy/ThreadSafeQueue.h:331-343 | data is reported exactly if a token could be taken |
| SafeQueue.PipeSyncedQueue.Take | Sloppy/ThreadSafeQueue.h:109-112 | a reader with a token gets the oldest item, which the invariant shows to exist |
| SafeQueue.CvKeepsOrder | Sloppy/ThreadSafeQueue.h:78-251 | in every run with one reader the items taken, one for each take, followed by those queued, are the items of all puts in the order of the lock |
| SafeQueue.CvSafeForOneReader | Sloppy/ThreadSafeQueue.h:105-113 | no run ever takes from an empty queue exactly if there is one reader at most |
| SafeQueue.PipeSafe | Sloppy/ThreadSafeQueue.h:78-113 | in every run with any number of writers and readers no take meets an empty queue, the order is kept, and tokens in the pipe, in hands and about to be written add up to the queued items |
| SafeQueue.PipeTraffic | Sloppy/ThreadSafeQueue.h:78-113 | the items taken, one for each take, followed by those queued, are the items of all pushes in the order of the lock |
| SafeQueue.TokenForItem | Sloppy/ThreadSafeQueue.h:326-343 | with nobody in between, a reader finds a token exactly if there is an item |
| AsyncWorker.AsyncWorker.RequestSuspend | Sloppy/AsyncWorker.h:141-144 | a request only: whatever the thread is at goes on |
| AsyncWorker.AsyncWorker.RequestResume | Sloppy/AsyncWorker.h:150-153 | takes back a request to suspend, but not one to join |
| AsyncWorker.AsyncWorker.Join | Sloppy/AsyncWorker.h:128-135 | the request that ends the loop, which nothing takes back |
| AsyncWorker.AsyncWorker.LoopHead | Sloppy/AsyncWorker.h:175-184 | a request to join ends the loop, one to suspend keeps it at its head, before any item is taken |
| AsyncWorker.AsyncWorker.Ask | Sloppy/AsyncWorker.h:187-188 | with data the thread goes on to take it; without data it looks at the requests again at once only for a zero preemption time |
| AsyncWorker.AsyncWorker.AskAgain | Sloppy/AsyncWorker.h:187-188 | awake again in the same call: data, the requests after the preemption time, or waiting on |
| AsyncWorker.AsyncWorker.TakeItem | Sloppy/AsyncWorker.h:187-188 | the item is taken, which the invariant shows to exist |
| AsyncWorker.AsyncWorker.CallWorker | Sloppy/AsyncWorker.h:191-191 | the result belongs to the item that was taken |
| AsyncWorker.AsyncWorker.PutResult | Sloppy/AsyncWorker.h:193-193 | the result is put exactly once, or dropped without an output queue; a step of the machine unless it goes back into the input queue |
| AsyncWorker.AsyncWorker.UpdateStats | Sloppy/AsyncWorker.h:195-196 | each call is counted once, behind its result |
| AsyncWorker.OutputIsMapOfInput | Sloppy/AsyncWorker.h:173-199 | in every run the results are the worker function mapped over the items in the order they were put, up to those queued and one in progress; after the end none is in progress and all are counted |
| AsyncWorker.StopsSoon | Sloppy/AsyncWorker.h:132-199 | after a request to join, or to suspend without a resume, at most one more item is taken, and none if the thread is not just asking for one |
| AsyncWorker.JoinReturns | Sloppy/AsyncWorker.h:128-199 | after a request to join, a thread whose waits time out can step until its end, which it reaches after six steps at most, whatever else happens |
| AsyncWorker.WaitsForEver | Sloppy/AsyncWorker.h:187-188 | a thread whose waits never time out, as with a negative preemption time, waits until an item comes, also when asked to join |
| AsyncWorker.WaitOccurs | Sloppy/AsyncWorker.h:173-188 | a new thread gets into this wait with its first step |
| AsyncProgress.EveryItemIsProcessed | Sloppy/AsyncWorker.h:150-199 | after `resume`, with no `suspend` or `join` behind it, every item put so far is processed within six steps for each item queued and two more, and the results come out in the order of the items |
| AsyncProgress.CanStep | Sloppy/AsyncWorker.h:173-199 | such a thread can always step |
| AsyncProgress.PutsAreItems | Sloppy/AsyncWorker.h:173-199 | what is to be processed are the items of all puts, in their order |
| AsyncProgress.SuspendStops | Sloppy/AsyncWorker.h:141-144 | after `suspend`, with no `resume` behind it, at most one more item is taken |
| AsyncProgress.JoinStops | Sloppy/AsyncWorker.h:128-135 | after `join` at most one more item is taken, and the thread ends within six steps if its waits time out |
| AsyncProgress.RunningShown | Sloppy/AsyncWorker.h:177-188 | the flag shown to the outside tells whether the thread goes on to ask for an item |
| AsyncWorker.MapAt | Sloppy/AsyncWorker.h:187-193 | each item has one result, at its position |

## Left out

- FindRule.FindRule: the search for the first and last rule of a zone part, and the offset of the zone that is added to its answer, are not modelled.
- TzTransitions.TimeZone.GetLocalInfo: asks for transitions in order of their local times, as `upper_bound` does; for a local time behind the end of time nothing is stated.
- Sha256.Hasher.Update: chunks of about 2^31 bytes and more, where the offset of a block leaves the range of a signed integer, are excluded.
- Base64.ToBase64: the sizes are computed in unbounded integers, not through a floating-point division or a 64-bit type.
- CsvRoundTrip.RowRoundTrip: rows with doubles are excluded, because their printed form is lossy.
- CsvUnquoted.BareRowRoundTrip: likewise; a NULL cannot be printed without quotation marks.
- EString.EString.Arg: string positions are unbounded integers.
- AsyncWorker.OutputIsMapOfInput: the worker function has no side effects, and the output queue is not the input queue.
- SafeQueue.PipeSafe: a write to the pipe always succeeds in the end; a full pipe that delays the writer is the same as a later step.
- CsvRow.NewRow: which decimal texts `stod` takes to be out of range is the parameter `dbl`, not computed.
- Parsing of timezone sources, zoneinfo files, downloads and the civil calendar.
- CsvTextRoundTrip.TableRoundTrip: tables with doubles are excluded, and the modes without quotation marks are treated for rows only.
- The hexadecimal form of a digest, salted passwords, libsodium and certificates.
- Clocks: timeouts, cycle lengths and run times are nondeterministic choices of the steps.
- `clear` of a queue, which leaves tokens behind in the pipe.
- The order of onFirstRun and the first worker call: the worker is called as soon as running is requested.
- Data races on the destructor's flag, which is not atomic in the code; a step here reads or writes it as a whole.
- Configuration files, ranges, named types, result types, HTML, processes, sockets and files.
