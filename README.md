# N-gram frequency pipeline, modelled in Dafny

This project models the core of a small Kotlin program, `src/main/kotlin/Main.kt`. The program finds recurring word sequences (n-grams) of every length in a text and reports them.

Its stages, each modelled in its own module:

- **Text** (`text.dfy`) — the string primitives the program relies on. These are:
  - lower-casing, whitespace and blank tests;
  - `padEnd`, `padStart` and `trim`;
  - `Int.toString` and `String.toInt`;
  - `String` comparison;
  - `readLines`.
- **Sorting** (`sorting.dfy`) — the ordering behind `sortedWith` and `sorted`, written as an insertion sort on sequences. It is proved sorted, a permutation, idempotent and unique under any strict order.
- **Tokenizer** (`tokenizer.dfy`) — the split of the input on the regex alternation `\s+|\-|/|\t|,`.
  - A run of whitespace is one separator.
  - Every `-`, `/` and `,` is a separator of its own.
  - Empty tokens are kept.
- **Counter** (`counter.dfy`) — `extractWordSequences`. Two nested loops fill a `map<nat, map<string, nat>>` (length → sequence → count). The loop invariants tie the table to a counting function over token windows.
- **Widths** (`widths.dfy`) — `calculateMaxLengths`: the widest sequence and the widest count over all buckets.
- **Report** (`report.dfy`) covers one report file:
  - ranking a bucket: count descending, then sequence ascending;
  - writing it as a bordered, padded table;
  - reading it back line by line;
  - the file name `occurrence_length_<L>.csv` and its decoding.
- **Aggregate** (`aggregate.dfy`) has two parts:
  - `readAllCSVFiles`: the output folder is given as a list of (name, content) pairs.
  - `writeTopSequencesToFile`: the union of all read lists, sorted, the first ten taken, and the text of the summary file.
- **LineImpact** (`lineimpact.dfy`) — the matching loop of `countLinesAffected`. A sequence matches when its lower-cased form occurs in a line as a whole word, with `\b` on both sides.

File contents and file names are parameters and results. Every loop that fills a map, a set, a list or a writer is a `method` with loop invariants. Each such method is proved against a function that specifies what it builds.

## Where the code and its description differ

The model follows the code at each of these points:

- Line 247 passes `"\r\n|\r|\n"` to `split` as one `String`. That makes it a literal six-character delimiter, not a regular expression, so ordinary text is a single "line".
- The `break` at line 257 leaves only the loop over one report's sequences. A line is counted once for every report that has a match in it, not once in all.
- `countLinesAffected` is given every sequence read from every report (lines 40 and 47), not the ten top sequences.
- The comparison `match.value.equals(sequence, ignoreCase = true)` at line 255 cannot fail once the quoted lower-cased sequence has matched. `LineImpact.SequenceMatches` proves this.

The first two points are listed under "## Findings". Each has its as-written counterexample and a corrected definition.

## Model

| member | source | states |
|---|---|---|
| Text.Lower | src/main/kotlin/Main.kt:70 | `toLowerCase` keeps the length and lower-cases each character on its own |
| Text.LowerIsBlank | src/main/kotlin/Main.kt:70-71 | lower-casing a window does not change whether it is blank |
| Text.PadEnd | src/main/kotlin/Main.kt:135 | `padEnd`: the length is max(length of s, n), s is the prefix and the rest is spaces |
| Text.PadStart | src/main/kotlin/Main.kt:135 | `padStart`: the length is max(length of s, n), s is the suffix and the rest is spaces |
| Text.Trim | src/main/kotlin/Main.kt:189 | `trim` yields a result that neither starts nor ends with whitespace, and is empty exactly when the input is blank |
| Text.TrimStartCutsBlank | src/main/kotlin/Main.kt:189 | what the leading trim removes is all whitespace |
| Text.TrimEndCutsBlank | src/main/kotlin/Main.kt:189 | what the trailing trim removes is all whitespace |
| Text.TrimIsSlice | src/main/kotlin/Main.kt:189 | `trim` of s is a slice s[i..j] whose two cut-off sides are all whitespace |
| Text.TrimPadded | src/main/kotlin/Main.kt:189 | trimming removes the spaces that `padEnd` added: Trim(s + spaces) == Trim(s) |
| Text.Decimal | src/main/kotlin/Main.kt:94 | `Int.toString` of a count: at least one digit, only digits, no leading zero |
| Text.DecimalValue | src/main/kotlin/Main.kt:94 | the decimal text of n has the value n |
| Text.ParseInt | src/main/kotlin/Main.kt:166 | `toInt` succeeds exactly when the text, after one optional sign, is a non-empty digit string whose signed value lies in the 32-bit range; the result is that signed value |
| Text.ParseDecimal | src/main/kotlin/Main.kt:166 | `toInt` of the decimal text of any n up to Int.MAX_VALUE gives back n |
| Text.LexTransitive | src/main/kotlin/Main.kt:125 | string order is transitive |
| Text.LexConnected | src/main/kotlin/Main.kt:125 | of two different strings one is smaller |
| Text.ReadLines | src/main/kotlin/Main.kt:185 | `readLines` yields lines that hold no line break |
| Text.ReadUnlines | src/main/kotlin/Main.kt:185 | `readLines` of lines written each with a trailing newline gives those lines back exactly |
| Sorting.Insert | src/main/kotlin/Main.kt:125 | inserting adds exactly one element to the multiset |
| Sorting.SortSorted | src/main/kotlin/Main.kt:125 | sorting distinct elements under a strict order gives a sorted permutation |
| Sorting.SortOfSorted | src/main/kotlin/Main.kt:125 | sorting a sorted sequence changes nothing |
| Sorting.SortedUnique | src/main/kotlin/Main.kt:125 | two sorted sequences with the same members are equal |
| Sorting.PrefixPrecedesRest | src/main/kotlin/Main.kt:224 | in a sorted sequence every element of the first n precedes every element after them |
| Tokenizer.SkipSpaces | src/main/kotlin/Main.kt:65 | `\s+` consumes the longest run of regex whitespace |
| Tokenizer.SplitFrom | src/main/kotlin/Main.kt:65 | the split yields at least one token and no token holds a separator; where it cuts is fixed by the cut lemmas below |
| Tokenizer.Tokenize | src/main/kotlin/Main.kt:65 | `split` on the alternation yields at least one token and no token holds a separator character; the round trips below fix the tokens themselves |
| Tokenizer.PlainChunk | src/main/kotlin/Main.kt:65 | separator-free text is added to the pending token without a cut |
| Tokenizer.SymbolCut | src/main/kotlin/Main.kt:65 | a `-`, `/` or `,` ends the pending token and starts an empty one |
| Tokenizer.SpaceRunCut | src/main/kotlin/Main.kt:65 | a whole run of whitespace ends the pending token, once, and the split goes on after the run |
| Tokenizer.SymbolJoin | src/main/kotlin/Main.kt:65 | separator-free tokens joined by one `-`, `/` or `,` split back into exactly those tokens, empty ones included |
| Tokenizer.SpaceJoin | src/main/kotlin/Main.kt:65 | separator-free tokens, non-empty except possibly the first and last, joined by a whitespace run split back into exactly those tokens |
| Tokenizer.CommaSpace | src/main/kotlin/Main.kt:65 | x followed by a comma, a space and y splits into x, an empty token and y |
| Tokenizer.SplitFromConcat | src/main/kotlin/Main.kt:65 | the tokens, concatenated, are the pending token followed by the text without its separators |
| Tokenizer.TokensCoverText | src/main/kotlin/Main.kt:65 | concatenating the tokens gives the input with every separator character removed |
| Tokenizer.PlainTextIsOneToken | src/main/kotlin/Main.kt:65 | text without separators is a single token |
| Tokenizer.CommaThenSpace | src/main/kotlin/Main.kt:65 | "a, b" splits into "a", "" and "b": a comma and the space after it are two separators |
| Counter.Bump | src/main/kotlin/Main.kt:72-73 | `getOrPut` plus `getOrDefault + 1` adds one to the count of that sequence in that bucket; every other count is unchanged; the lengths are the old ones plus this length, and the bucket's keys are its old keys plus this sequence |
| Counter.CountedStep | src/main/kotlin/Main.kt:69-74 | one pass of the inner loop keeps the table equal to the counts of the windows seen so far |
| Counter.RowDone | src/main/kotlin/Main.kt:68-69 | after the last length for a start, the table counts every window of that start |
| Counter.ExtractWordSequences | src/main/kotlin/Main.kt:61-79 | bucket L maps s to the number of non-blank windows of L tokens, space-joined and lower-cased, that equal s; every count is at least 1; every bucket lies in 1..n and is non-empty; the counts of bucket L sum to the number of its non-blank windows |
| Counter.OccurrencesAtMostWindows | src/main/kotlin/Main.kt:68-75 | no sequence occurs more often than there are non-blank windows of its length |
| Counter.WindowsAtMostStarts | src/main/kotlin/Main.kt:68-69 | bucket L holds at most n − L + 1 windows in all |
| Counter.BucketOneCountsTokens | src/main/kotlin/Main.kt:68-75 | bucket 1 counts how often each non-blank lower-cased token occurs |
| Counter.WindowSkippedIffAllBlank | src/main/kotlin/Main.kt:70-71 | a window is skipped exactly when every one of its tokens is blank |
| Counter.TrailingEmptyToken | src/main/kotlin/Main.kt:70-73 | the tokens ["a", ""] give the key "a " in bucket 2: empty tokens are not dropped |
| Counter.JoinSpaceJoined | src/main/kotlin/Main.kt:70 | a window of separator-free tokens joined with spaces holds no separator other than the joining spaces |
| Counter.CountedKeysSpaceJoined | src/main/kotlin/Main.kt:65-73 | every key that gets counted is such a space-joined string |
| Widths.CalculateMaxLengths | src/main/kotlin/Main.kt:87-99 | every sequence and every count of every bucket fits the widths; both are reached by some entry; (0, 0) for a table without entries |
| Widths.WidenOverBucket | src/main/kotlin/Main.kt:92-95 | the inner loop only widens, and afterwards the whole bucket fits |
| Report.BeforeIsStrictOrder | src/main/kotlin/Main.kt:125 | count descending, then sequence ascending, is a strict order |
| Report.BucketEntries | src/main/kotlin/Main.kt:125 | `entries` lists each (sequence, count) of the bucket exactly once |
| Report.RankEntries | src/main/kotlin/Main.kt:125 | `sortedWith` yields a permutation of the bucket's entries in strictly descending rank |
| Report.RerankIsIdentity | src/main/kotlin/Main.kt:125 | sorting a ranked list again gives the same list |
| Report.RankingIsUnique | src/main/kotlin/Main.kt:125 | a bucket has one ranking, whatever order the map is walked in |
| Report.RowLines | src/main/kotlin/Main.kt:134-136 | one row line per entry, in rank order |
| Report.WriteBorder | src/main/kotlin/Main.kt:128-131 | appends the border and a newline to the text written so far |
| Report.WriteRows | src/main/kotlin/Main.kt:134-136 | appends each row and its newline, in rank order |
| Report.RenderReport | src/main/kotlin/Main.kt:128-142 | the text written is the report's lines, each ended by a newline |
| Report.WriteWordSequences | src/main/kotlin/Main.kt:122-142 | the report ranks the bucket and its text is the border, the ranked rows and the border again |
| Report.BorderShape | src/main/kotlin/Main.kt:128-131 | the border is w + c + 5 characters: dashes, with one comma at position w + 2 |
| Report.ReportShape | src/main/kotlin/Main.kt:128-142 | a report has rows + 2 lines; the first and last are the same border and row i is line i + 1 |
| Report.RowLayout | src/main/kotlin/Main.kt:135 | a fitting row is w + 1 + c characters: the sequence left-aligned over w columns, a comma, then the count right-aligned over c columns |
| Report.RowsHaveTableWidth | src/main/kotlin/Main.kt:135 | with the widths of the whole table, every row of every bucket has the same length w + 1 + c |
| Report.FirstField | src/main/kotlin/Main.kt:189 | `split(",")[0]` is a prefix without a comma that ends at the end of the line or just before its first comma |
| Report.ParsedAreTrimmed | src/main/kotlin/Main.kt:186-193 | every sequence read back is non-empty and trimmed |
| Report.ParseLinesAppend | src/main/kotlin/Main.kt:186-193 | reading lines one after another is reading their concatenation |
| Report.ParsedHaveNoLineBreak | src/main/kotlin/Main.kt:186-193 | sequences read from line-break-free lines hold no line break |
| Report.ReadReport | src/main/kotlin/Main.kt:185-193 | `readCSVFile` adds, line by line, what the line parser keeps |
| Report.SpaceJoinedIsSafe | src/main/kotlin/Main.kt:189 | a counted key holds no comma and no line break and does not start with "-", so it survives the round trip |
| Report.FirstFieldBeforeComma | src/main/kotlin/Main.kt:189 | the first field of "a,b" is a when a has no comma |
| Report.ParseRow | src/main/kotlin/Main.kt:188-192 | a written row reads back as its trimmed sequence, or as nothing when the trimmed sequence is empty |
| Report.ParseRows | src/main/kotlin/Main.kt:186-193 | the written rows read back as the trimmed sequences, in rank order |
| Report.RowHasNoLineBreak | src/main/kotlin/Main.kt:135 | a row of a safe sequence is a single line |
| Report.ReportHasNoLineBreaks | src/main/kotlin/Main.kt:128-142 | every line of a report is free of line breaks |
| Report.BorderSkipped | src/main/kotlin/Main.kt:188 | a border line is skipped by the parser |
| Report.ReadBackReport | src/main/kotlin/Main.kt:185-193 | reading a written report gives the trimmed sequences of its rows, in rank order |
| Report.TrimmedCleanSequences | src/main/kotlin/Main.kt:189 | for sequences without surrounding whitespace, trimming changes nothing |
| Report.ReadBackExact | src/main/kotlin/Main.kt:185-193 | when no sequence is empty or has surrounding whitespace, reading back recovers the sequences exactly |
| Report.TrimmedWordTrim | src/main/kotlin/Main.kt:189 | trimming a sequence without surrounding whitespace changes nothing |
| Report.ReadBackBucket | src/main/kotlin/Main.kt:61-79 | a ranking of a bucket counted from a text, written as a report and read back, gives its rows' trimmed sequences in rank order |
| Report.LastIndexFrom | src/main/kotlin/Main.kt:166 | the last occurrence of the pattern at or before i, or none |
| Report.LastIndexOf | src/main/kotlin/Main.kt:166 | `lastIndexOf` finds the last occurrence, or reports that there is none |
| Report.BeforeSuffix | src/main/kotlin/Main.kt:166 | `substringBeforeLast(".csv")` removes the suffix that was added |
| Report.AfterPrefix | src/main/kotlin/Main.kt:166 | `substringAfterLast("_")` removes the prefix when the digits hold no '_' |
| Report.DecodeReportFileName | src/main/kotlin/Main.kt:166 | the name built at line 28 passes the filter at line 162 and decodes back to its length |
| Aggregate.ReadAllReports | src/main/kotlin/Main.kt:156-173 | the loop over the listed files returns what ReadAll specifies |
| Aggregate.FailureIsFinal | src/main/kotlin/Main.kt:166 | once a name fails to decode, the whole read fails |
| Aggregate.ReadAllStepFails | src/main/kotlin/Main.kt:165-168 | the read of n files fails exactly when the read of the first n − 1 fails or the last file's name does not decode |
| Aggregate.ReadAllFails | src/main/kotlin/Main.kt:166 | the read fails exactly when some listed report name does not decode |
| Aggregate.ReadAllKeyStep | src/main/kotlin/Main.kt:165-168 | after one more file, a length is read exactly when it was read before or the last file names it |
| Aggregate.ReadAllValueStep | src/main/kotlin/Main.kt:168 | the last file sets the sequences of the length it names and leaves the other lengths as they were |
| Aggregate.ReadAllKeys | src/main/kotlin/Main.kt:165-168 | a length is read exactly when some listed report file's name decodes to it |
| Aggregate.LastFileWins | src/main/kotlin/Main.kt:168 | the length maps to the sequences of the last file naming it |
| Aggregate.ReadWrittenReport | src/main/kotlin/Main.kt:162-168 | a report written under its own name reads back as its length mapped to its trimmed sequences |
| Aggregate.ReadOneFile | src/main/kotlin/Main.kt:162-168 | one report file reads as its length mapped to its parsed lines |
| Aggregate.AddAll | src/main/kotlin/Main.kt:217-219 | adding a list to the set gives the set plus the list's members |
| Aggregate.UnionOverAdd | src/main/kotlin/Main.kt:216-220 | visiting one more report adds exactly its sequences to the union |
| Aggregate.Elements | src/main/kotlin/Main.kt:216 | the map is walked in some order, visiting each key exactly once |
| Aggregate.CollectSequences | src/main/kotlin/Main.kt:214-220 | the set built is the union of all sequences read |
| Aggregate.LexLessIsStrictOrder | src/main/kotlin/Main.kt:224 | the order `sorted()` uses on strings is a strict order |
| Aggregate.SelectTopSequences | src/main/kotlin/Main.kt:224 | the top list is strictly increasing; it has min(10, size of the union) members, all from the union; every union member left out is greater than every member selected |
| Aggregate.WriteItems | src/main/kotlin/Main.kt:223-226 | the text is the header line, then one "  - s" line per selected sequence |
| Aggregate.ItemStep | src/main/kotlin/Main.kt:225 | appending one item line extends the written text by that line and a newline |
| Aggregate.WriteTopSequences | src/main/kotlin/Main.kt:214-226 | the top list has the selection properties above, and the text written is its header and item lines |
| Aggregate.ReadAllNoLineBreak | src/main/kotlin/Main.kt:185-193 | no sequence read from any report holds a line break |
| Aggregate.TopLinesNoLineBreak | src/main/kotlin/Main.kt:223-226 | every line of the summary file is a single line |
| Aggregate.TopFileReadsBack | src/main/kotlin/Main.kt:223-226 | the summary file reads back as its header plus one line per selected sequence |
| LineImpact.IndexFrom | src/main/kotlin/Main.kt:247 | `indexOf` from a position gives the first occurrence there or later, or none |
| LineImpact.SplitLiteral | src/main/kotlin/Main.kt:247 | splitting on the literal delimiter gives at least one piece and no piece holds the delimiter |
| LineImpact.SplitLiteralJoin | src/main/kotlin/Main.kt:247 | joining the pieces with the delimiter gives back the text |
| LineImpact.NoDelimiterOnePiece | src/main/kotlin/Main.kt:247 | text without the six-character delimiter is a single piece, whatever line breaks it holds |
| LineImpact.FindWholeWord | src/main/kotlin/Main.kt:253-254 | `find` with `\b` on both sides gives the first whole-word occurrence, or none |
| LineImpact.LowerEqualsIgnoreCase | src/main/kotlin/Main.kt:255 | the lower-cased sequence equals the sequence ignoring case |
| LineImpact.SequenceMatches | src/main/kotlin/Main.kt:253-255 | the test succeeds exactly when the lower-cased sequence occurs in the line as a whole word |
| LineImpact.InputLines | src/main/kotlin/Main.kt:245-247 | the lower-cased text cut at the literal delimiter, at least one piece |
| LineImpact.ReportMatches | src/main/kotlin/Main.kt:251-258 | the loop over one report's sequences, leaving at the first match, finds a match exactly when one exists |
| LineImpact.HitsStep | src/main/kotlin/Main.kt:250-260 | visiting one more report adds one to the count exactly when that report matches the line |
| LineImpact.HitsDone | src/main/kotlin/Main.kt:250-260 | after every report is visited, the matching reports are exactly those with a sequence in the line |
| LineImpact.CountLinesAffected | src/main/kotlin/Main.kt:241-267 | the count is the number of (piece, report) pairs where the report has a whole-word match in the piece |
| LineImpact.AffectedPairsSnoc | src/main/kotlin/Main.kt:249-260 | one more piece adds the number of reports that match it |
| LineImpact.AffectedPairsBound | src/main/kotlin/Main.kt:249-260 | the count is at most pieces × reports |
| LineImpact.NoReportsNoCount | src/main/kotlin/Main.kt:249-260 | without reports the count is 0 |
| LineImpact.IntendedLines | src/main/kotlin/Main.kt:247 | the text split at each CR LF, CR or LF: at least one line, none holding a line break |
| LineImpact.AffectedLinesBound | src/main/kotlin/Main.kt:249-260 | counted once per line, the count is at most the number of lines |
| LineImpact.PairsCoverLines | src/main/kotlin/Main.kt:257 | the per-report count is never below the per-line count, and equals it when there is at most one report |
| LineImpact.IntendedLinesAffected | src/main/kotlin/Main.kt:247-257 | the intended count is at most the number of lines |
| LineImpact.OneLine | src/main/kotlin/Main.kt:249-260 | for one line, the count as written is the number of matching reports, and the intended count is 1 or 0 |
| LineImpact.LiteralSplitCountsOnce | src/main/kotlin/Main.kt:247 | "x\nx" is one piece as written, and the report {1: ["x"]} counts it once |
| LineImpact.LineSplitCountsTwice | src/main/kotlin/Main.kt:247 | split at its line break, "x\nx" is two lines, and both are counted |
| LineImpact.E101Matches | src/main/kotlin/Main.kt:253-255 | "e 101" holds both "e" and "e 101" as whole words |
| LineImpact.OneLineCountedTwice | src/main/kotlin/Main.kt:257 | the one line "e 101" with reports {1: ["101", "e"], 2: ["e 101"]} counts 2 as written but is one affected line |
| LineImpact.TwoHitsOneLine | src/main/kotlin/Main.kt:257 | a line matched by two reports counts twice as written and once per line |

## Left out

- `main` and its hard-coded paths are not part of this model. Neither are `File.readText`, `listFiles`, `FileWriter` and `close`, `deleteExistingCSVFiles` or `writeLinesAffectedToFile`. File contents and names are parameters and results instead.
- The `IOException` handlers that print and carry on are not modelled. A read that fails cannot be expressed: a file is always its given content.
- The console messages of `main` are not modelled.
- Only ASCII text is modelled:
  - `toLowerCase` folds only `A`–`Z`;
  - `isWhitespace` (behind `trim` and `isBlank`) covers only the ASCII whitespace and `\x1C`–`\x1F`;
  - `\s` covers space, `\t`, `\n`, `\x0B`, `\f` and `\r`;
  - a `\b` word character is an ASCII letter, a digit or `_`.
- No general regex engine is modelled. Only the fixed tokenizer alternation and the `\b`-quoted literal search are written out. `Regex.escape` is modelled as a search for the sequence's characters as they are.
- The model does not use the order in which `listFiles` returns files. The files are a given sequence, and a later file with the same length replaces an earlier one.
- Map and set iteration order is an arbitrary choice (`:|`, `Aggregate.Elements`), and every result is proved independent of it.
- Counter.ExtractWordSequences: counts are unbounded naturals. The 32-bit `Int` would wrap after 2^31 − 1 windows.
- Widths.CalculateMaxLengths: lengths and widths are unbounded naturals, with no 32-bit limit.
- The model does not state that `writeWordSequencesToCSV` ends the output with `close`. The written text is the result.
- `readLines` is modelled as a split at CR LF, CR or LF that drops the single empty piece after a final line break.
- Report.ReportShape does not restate the row layout. The layout is stated separately by Report.RowLayout.
- The inner loops of `calculateMaxLengths`, `writeWordSequencesToCSV`, `writeTopSequencesToFile` and `countLinesAffected` are separate methods: Widths.WidenOverBucket, Report.WriteRows, Aggregate.WriteItems and LineImpact.ReportMatches. Each is called where its loop stands.

## Findings

| source | as written | input that shows it | evidently intended | confidence | as-written member | corrected member |
|---|---|---|---|---|---|---|
| src/main/kotlin/Main.kt:247 | `split` given one `String` splits on the literal six characters CR LF, bar, CR, bar, LF, so line breaks do not separate lines | text "x\nx" with reports {1: ["x"]}: one piece, count 1 | a regex split at each line break (as the comment says): two lines, count 2 | not executed | LineImpact.LiteralSplitCountsOnce | LineImpact.LineSplitCountsTwice |
| src/main/kotlin/Main.kt:257 | `break` leaves only the loop over one report's sequences, so a line is counted once per matching report | line "e 101" with reports {1: ["101", "e"], 2: ["e 101"]}: count 2 for one line | each affected line counted once | not executed | LineImpact.OneLineCountedTwice | LineImpact.PairsCoverLines |
