/** One report per length bucket: the ranking and rendering of
    `writeWordSequencesToCSV` (src/main/kotlin/Main.kt:110-148), the line
    parsing of `readCSVFile` (src/main/kotlin/Main.kt:181-200) and the report
    file name, built at src/main/kotlin/Main.kt:28 and decoded at
    src/main/kotlin/Main.kt:166. The writer is a string the text is appended to. */
module Report {
  import opened Text
  import opened Sorting
  import opened Tokenizer
  import opened Counter
  import opened Widths

  datatype Entry = Entry(sequence: string, count: nat)

  /** The comparator `compareBy({ -it.value }, { it.key })`: the higher count
      first, equal counts in string order. */
  predicate Before(a: Entry, b: Entry) {
    a.count > b.count || (a.count == b.count && LexLess(a.sequence, b.sequence))
  }

  lemma BeforeIsStrictOrder()
    ensures StrictOrder(Before)
  {
    forall a: Entry ensures !Before(a, a) {
      LexIrreflexive(a.sequence);
    }
    forall a: Entry, b: Entry, c: Entry | Before(a, b) && Before(b, c) ensures Before(a, c) {
      if a.count == b.count == c.count {
        LexTransitive(a.sequence, b.sequence, c.sequence);
      }
    }
    forall a: Entry, b: Entry | a != b ensures Before(a, b) || Before(b, a) {
      if a.count == b.count {
        LexConnected(a.sequence, b.sequence);
      }
    }
  }

  /** rows lists every entry of the bucket exactly once, in comparator order. */
  predicate IsRanking(rows: seq<Entry>, bucket: map<string, nat>) {
    && SortedBy(rows, Before)
    && |rows| == |bucket|
    && (forall i :: 0 <= i < |rows| ==> rows[i].sequence in bucket && bucket[rows[i].sequence] == rows[i].count)
    && (forall s :: s in bucket ==> Entry(s, bucket[s]) in rows)
  }

  /** The bucket's entries, each once, in the map's own (unspecified) order. */
  method BucketEntries(bucket: map<string, nat>) returns (entries: seq<Entry>)
    ensures Distinct(entries) && |entries| == |bucket|
    ensures forall i :: 0 <= i < |entries| ==>
      entries[i].sequence in bucket && bucket[entries[i].sequence] == entries[i].count
    ensures forall s :: s in bucket ==> Entry(s, bucket[s]) in entries
  {
    entries := [];
    var pending := bucket.Keys;
    while pending != {}
      invariant pending <= bucket.Keys
      invariant forall i :: 0 <= i < |entries| ==>
        entries[i].sequence in bucket && entries[i].sequence !in pending &&
        bucket[entries[i].sequence] == entries[i].count
      invariant forall s :: s in bucket && s !in pending ==> Entry(s, bucket[s]) in entries
      invariant Distinct(entries)
      invariant |entries| + |pending| == |bucket|
      decreases pending
    {
      var sequence :| sequence in pending;
      entries := entries + [Entry(sequence, bucket[sequence])];
      pending := pending - {sequence};
    }
  }

  lemma SameMultisetSameMembers<T>(a: seq<T>, b: seq<T>)
    requires multiset(a) == multiset(b)
    ensures |a| == |b|
    ensures forall e :: e in a <==> e in b
  {
    assert |a| == |multiset(a)|;
    assert |b| == |multiset(b)|;
    forall e ensures e in a <==> e in b {
      assert e in a <==> e in multiset(a);
      assert e in b <==> e in multiset(b);
    }
  }

  /** `sequences.entries.sortedWith(...)`. */
  method RankEntries(bucket: map<string, nat>) returns (rows: seq<Entry>)
    ensures IsRanking(rows, bucket)
  {
    var entries := BucketEntries(bucket);
    BeforeIsStrictOrder();
    SortSorted(entries, Before);
    rows := Sort(entries, Before);
    SameMultisetSameMembers(rows, entries);
    forall i | 0 <= i < |rows|
      ensures rows[i].sequence in bucket && bucket[rows[i].sequence] == rows[i].count
    {
      assert rows[i] in entries;
    }
  }

  /** Re-ranking a ranked list changes nothing. */
  lemma RerankIsIdentity(rows: seq<Entry>, bucket: map<string, nat>)
    requires IsRanking(rows, bucket)
    ensures Sort(rows, Before) == rows
  {
    SortOfSorted(rows, Before);
  }

  /** There is one ranking of a bucket: the order the map is walked in does not matter. */
  lemma RankingIsUnique(a: seq<Entry>, b: seq<Entry>, bucket: map<string, nat>)
    requires IsRanking(a, bucket) && IsRanking(b, bucket)
    ensures a == b
  {
    BeforeIsStrictOrder();
    forall e ensures e in a <==> e in b {
      if e in a {
        var i :| 0 <= i < |a| && a[i] == e;
        assert Entry(e.sequence, bucket[e.sequence]) in b;
      }
      if e in b {
        var i :| 0 <= i < |b| && b[i] == e;
        assert Entry(e.sequence, bucket[e.sequence]) in a;
      }
    }
    SortedUnique(a, b, Before);
  }

  // ---------------------------------------------------------------------------
  // Rendering

  /** The dashed line above and below the rows. */
  function Border(w: nat, c: nat): string {
    Repeat('-', w + 2) + "," + Repeat('-', c + 2)
  }

  /** One row: the sequence left-aligned in w columns, a comma, the count right-aligned in c. */
  function RowLine(e: Entry, w: nat, c: nat): string {
    PadEnd(e.sequence, w) + "," + PadStart(Decimal(e.count), c)
  }

  function MapSeq<A, B>(xs: seq<A>, f: A -> B): (r: seq<B>)
    ensures |r| == |xs| && forall i :: 0 <= i < |xs| ==> r[i] == f(xs[i])
  {
    if xs == [] then [] else MapSeq(xs[..|xs| - 1], f) + [f(xs[|xs| - 1])]
  }

  lemma MapSeqSnoc<A, B>(xs: seq<A>, i: nat, f: A -> B)
    requires i < |xs|
    ensures MapSeq(xs[..i + 1], f) == MapSeq(xs[..i], f) + [f(xs[i])]
  {
    assert xs[..i + 1][..i] == xs[..i];
  }

  function RowLines(rows: seq<Entry>, w: nat, c: nat): (lines: seq<string>)
    ensures |lines| == |rows|
    ensures forall i :: 0 <= i < |rows| ==> lines[i] == RowLine(rows[i], w, c)
  {
    MapSeq(rows, e => RowLine(e, w, c))
  }

  /** The report, line by line. */
  function ReportLines(rows: seq<Entry>, w: nat, c: nat): seq<string> {
    [Border(w, c)] + RowLines(rows, w, c) + [Border(w, c)]
  }

  /** The four writes of a dashed line, done before and after the rows. */
  method WriteBorder(text: string, w: nat, c: nat) returns (written: string)
    ensures written == text + (Border(w, c) + "\n")
  {
    written := text;
    written := written + Repeat('-', w + 2);
    written := written + ",";
    written := written + Repeat('-', c + 2);
    written := written + "\n";
    assert written == text + (Border(w, c) + "\n");
  }

  /** One write per row, in row order. */
  method WriteRows(text: string, rows: seq<Entry>, w: nat, c: nat) returns (written: string)
    ensures written == text + Unlines(RowLines(rows, w, c))
  {
    written := text;
    assert written == text + Unlines(RowLines(rows[..0], w, c));
    for i := 0 to |rows|
      invariant written == text + Unlines(RowLines(rows[..i], w, c))
    {
      var line := PadEnd(rows[i].sequence, w) + "," + PadStart(Decimal(rows[i].count), c);
      RenderStep(rows, i, w, c);
      AppendLine(text, Unlines(RowLines(rows[..i], w, c)), line);
      written := written + (line + "\n");
    }
    assert rows[..|rows|] == rows;
  }

  /** The writes of `writeWordSequencesToCSV`: the border, one line per row
      and the border again, each line ended by "\n". */
  method RenderReport(rows: seq<Entry>, w: nat, c: nat) returns (text: string)
    ensures text == Unlines(ReportLines(rows, w, c))
  {
    ghost var line := Border(w, c) + "\n";
    text := WriteBorder([], w, c);
    assert text == line;
    text := WriteRows(text, rows, w, c);
    text := WriteBorder(text, w, c);
    UnlinesFramed(Border(w, c), RowLines(rows, w, c), Border(w, c));
  }

  lemma AppendLine(head: string, body: string, line: string)
    ensures head + (body + line + "\n") == head + body + (line + "\n")
  {
  }

  lemma UnlinesFramed(first: string, middle: seq<string>, last: string)
    ensures Unlines([first] + middle + [last]) == (first + "\n") + Unlines(middle) + (last + "\n")
  {
    assert ([first] + middle + [last])[1..] == middle + [last];
    UnlinesAppend(middle, last);
    AppendAssoc(Unlines(middle), last, "\n");
    AppendAssoc(first, "\n", Unlines(middle) + (last + "\n"));
    AppendAssoc(first + "\n", Unlines(middle), last + "\n");
  }

  lemma RenderStep(rows: seq<Entry>, i: nat, w: nat, c: nat)
    requires i < |rows|
    ensures Unlines(RowLines(rows[..i + 1], w, c)) == Unlines(RowLines(rows[..i], w, c)) + RowLine(rows[i], w, c) + "\n"
  {
    MapSeqSnoc(rows, i, e => RowLine(e, w, c));
    UnlinesAppend(RowLines(rows[..i], w, c), RowLine(rows[i], w, c));
  }

  /** `writeWordSequencesToCSV` for one bucket: the bucket ranked, then written. */
  method WriteWordSequences(bucket: map<string, nat>, maxSequenceLength: nat, maxCountLength: nat)
    returns (rows: seq<Entry>, text: string)
    ensures IsRanking(rows, bucket)
    ensures text == Unlines(ReportLines(rows, maxSequenceLength, maxCountLength))
  {
    rows := RankEntries(bucket);
    text := RenderReport(rows, maxSequenceLength, maxCountLength);
  }

  /** A dashed line: w + 2 dashes, the comma, c + 2 dashes. */
  lemma BorderShape(w: nat, c: nat)
    ensures |Border(w, c)| == w + c + 5
    ensures Border(w, c)[w + 2] == ','
    ensures forall k :: 0 <= k < w + c + 5 && k != w + 2 ==> Border(w, c)[k] == '-'
  {
    var left, right := Repeat('-', w + 2), Repeat('-', c + 2);
    assert Border(w, c) == left + [','] + right;
    JoinedAt(left, ',', right);
  }

  /** The shape of a report: entries + 2 lines, the first and the last the
      border, the rows in between in ranking order. */
  lemma ReportShape(rows: seq<Entry>, w: nat, c: nat)
    ensures var lines := ReportLines(rows, w, c);
      && |lines| == |rows| + 2
      && lines[0] == lines[|lines| - 1] == Border(w, c)
      && (forall i :: 0 <= i < |rows| ==> lines[i + 1] == RowLine(rows[i], w, c))
  {
    var lines, body := ReportLines(rows, w, c), RowLines(rows, w, c);
    FramedAt(Border(w, c), body, Border(w, c));
    forall i | 0 <= i < |rows| ensures lines[i + 1] == RowLine(rows[i], w, c) {
      assert lines[i + 1] == body[i];
    }
  }

  lemma FramedAt<T>(first: T, middle: seq<T>, last: T)
    ensures var xs := [first] + middle + [last];
      && |xs| == |middle| + 2 && xs[0] == first && xs[|xs| - 1] == last
      && (forall i :: 0 <= i < |middle| ==> xs[i + 1] == middle[i])
  {
  }

  /** Where the parts of left + [sep] + right sit. */
  lemma JoinedAt(left: string, sep: char, right: string)
    ensures var line := left + [sep] + right;
      && |line| == |left| + 1 + |right|
      && (forall k :: 0 <= k < |left| ==> line[k] == left[k])
      && line[|left|] == sep
      && (forall k :: 0 <= k < |right| ==> line[|left| + 1 + k] == right[k])
  {
  }

  lemma JoinedPrefix(left: string, sep: char, right: string, n: nat)
    requires n <= |left|
    ensures (left + [sep] + right)[..n] == left[..n]
  {
    JoinedAt(left, sep, right);
  }

  lemma JoinedSuffix(left: string, sep: char, right: string, n: nat)
    requires n <= |right|
    ensures (left + [sep] + right)[|left| + 1 + n..] == right[n..]
  {
    JoinedAt(left, sep, right);
  }

  /** A row whose entry fits the widths is w + 1 + c characters: the sequence
      followed by spaces up to column w, the comma, then spaces and the count
      ending in the last column. */
  lemma RowLayout(e: Entry, w: nat, c: nat)
    requires |e.sequence| <= w && |Decimal(e.count)| <= c
    ensures var line, d := RowLine(e, w, c), Decimal(e.count);
      && |line| == w + 1 + c
      && line[..|e.sequence|] == e.sequence
      && (forall k :: |e.sequence| <= k < w ==> line[k] == ' ')
      && line[w] == ','
      && (forall k :: w + 1 <= k < w + 1 + c - |d| ==> line[k] == ' ')
      && line[w + 1 + c - |d|..] == d
  {
    PaddedKey(e.sequence, Decimal(e.count), w, c);
    PaddedCount(e.sequence, Decimal(e.count), w, c);
  }

  lemma PaddedKey(key: string, d: string, w: nat, c: nat)
    requires |key| <= w && |d| <= c
    ensures var line := PadEnd(key, w) + "," + PadStart(d, c);
      && |line| == w + 1 + c
      && line[..|key|] == key
      && (forall k :: |key| <= k < w ==> line[k] == ' ')
      && line[w] == ','
  {
    var left, right := PadEnd(key, w), PadStart(d, c);
    assert left + "," + right == left + [','] + right;
    JoinedAt(left, ',', right);
    JoinedPrefix(left, ',', right, |key|);
  }

  lemma PaddedCount(key: string, d: string, w: nat, c: nat)
    requires |key| <= w && |d| <= c
    ensures var line := PadEnd(key, w) + "," + PadStart(d, c);
      && (forall k :: w + 1 <= k < w + 1 + c - |d| ==> line[k] == ' ')
      && line[w + 1 + c - |d|..] == d
  {
    var left, right := PadEnd(key, w), PadStart(d, c);
    assert left + "," + right == left + [','] + right;
    assert |left| == w && |right| == c;
    JoinedBlanks(left, ',', right, c - |d|);
    JoinedSuffix(left, ',', right, c - |d|);
  }

  lemma JoinedBlanks(left: string, sep: char, right: string, m: nat)
    requires m <= |right| && forall k :: 0 <= k < m ==> right[k] == ' '
    ensures var line := left + [sep] + right;
      forall k :: |left| + 1 <= k < |left| + 1 + m ==> line[k] == ' '
  {
    var line := left + [sep] + right;
    JoinedAt(left, sep, right);
    forall k | |left| + 1 <= k < |left| + 1 + m ensures line[k] == ' ' {
      assert line[k] == right[k - |left| - 1];
    }
  }

  /** With the widths of `calculateMaxLengths`, every row of every bucket's
      report is exactly w + 1 + c characters long. */
  lemma RowsHaveTableWidth(table: Table, len: nat, rows: seq<Entry>, w: nat, c: nat)
    requires Fits(table, w, c) && len in table && IsRanking(rows, table[len])
    ensures forall i :: 0 <= i < |rows| ==> |RowLine(rows[i], w, c)| == w + 1 + c
  {
    forall i | 0 <= i < |rows| ensures |RowLine(rows[i], w, c)| == w + 1 + c {
      RowLayout(rows[i], w, c);
    }
  }

  // ---------------------------------------------------------------------------
  // Reading a report back

  /** `line.split(",")[0]`: the text before the first comma, all of it if there is none. */
  function FirstField(line: string): (r: string)
    ensures |r| <= |line| && r == line[..|r|]
    ensures ',' !in r
    ensures |r| == |line| || line[|r|] == ','
  {
    if line == [] || line[0] == ',' then [] else [line[0]] + FirstField(line[1..])
  }

  /** What `readCSVFile` keeps of one line: nothing for a line starting with
      "-", else the first field trimmed, unless that is empty. */
  function ParseLine(line: string): Option<string> {
    if |line| > 0 && line[0] == '-' then None
    else
      var sequence := Trim(FirstField(line));
      if sequence == [] then None else Some(sequence)
  }

  function Kept(o: Option<string>): seq<string> {
    if o.Some? then [o.value] else []
  }

  /** The sequences kept from the lines, in line order. */
  function ParseLines(lines: seq<string>): seq<string> {
    if lines == [] then [] else ParseLines(lines[..|lines| - 1]) + Kept(ParseLine(lines[|lines| - 1]))
  }

  predicate IsTrimmedWord(s: string) {
    s != [] && !IsWhitespace(s[0]) && !IsWhitespace(s[|s| - 1])
  }

  /** Every sequence read from a report is non-empty and has no whitespace at either end. */
  lemma {:induction false} ParsedAreTrimmed(lines: seq<string>)
    ensures forall k :: 0 <= k < |ParseLines(lines)| ==> IsTrimmedWord(ParseLines(lines)[k])
  {
    if lines != [] {
      var init := lines[..|lines| - 1];
      ParsedAreTrimmed(init);
      var p, o := ParseLines(init), ParseLine(lines[|lines| - 1]);
      assert ParseLines(lines) == p + Kept(o);
      forall k | 0 <= k < |ParseLines(lines)| ensures IsTrimmedWord(ParseLines(lines)[k]) {
        if k < |p| {
          assert ParseLines(lines)[k] == p[k];
        } else {
          assert ParseLines(lines)[k] == o.value;
        }
      }
    }
  }

  lemma {:induction false} ParseLinesAppend(a: seq<string>, b: seq<string>)
    ensures ParseLines(a + b) == ParseLines(a) + ParseLines(b)
    decreases |b|
  {
    if b != [] {
      assert (a + b)[..|a + b| - 1] == a + b[..|b| - 1];
      ParseLinesAppend(a, b[..|b| - 1]);
    } else {
      assert a + b == a;
    }
  }

  lemma NoLineBreakTrim(s: string)
    requires NoLineBreak(s)
    ensures NoLineBreak(Trim(s))
  {
    var t := TrimStart(s);
    NoLineBreakSlice(s, |s| - |t|, |s|);
    var r := TrimEnd(t);
    NoLineBreakSlice(t, 0, |r|);
    assert Trim(s) == r;
  }

  lemma NoLineBreakSlice(s: string, i: nat, j: nat)
    requires i <= j <= |s| && NoLineBreak(s)
    ensures NoLineBreak(s[i..j])
  {
    forall k | 0 <= k < j - i ensures !IsLineBreak(s[i..j][k]) {
      assert s[i..j][k] == s[i + k];
    }
  }

  /** Lines without line breaks give sequences without line breaks. */
  lemma {:induction false} ParsedHaveNoLineBreak(lines: seq<string>)
    requires forall k :: 0 <= k < |lines| ==> NoLineBreak(lines[k])
    ensures forall k :: 0 <= k < |ParseLines(lines)| ==> NoLineBreak(ParseLines(lines)[k])
  {
    if lines != [] {
      ParsedHaveNoLineBreak(lines[..|lines| - 1]);
      var line := lines[|lines| - 1];
      var field := FirstField(line);
      assert forall i :: 0 <= i < |field| ==> field[i] == line[i];
      NoLineBreakTrim(field);
    }
  }

  /** `readCSVFile` on the text of a report file. */
  method ReadReport(text: string) returns (sequences: seq<string>)
    ensures sequences == ParseLines(ReadLines(text))
  {
    var lines := ReadLines(text);
    sequences := [];
    for i := 0 to |lines|
      invariant sequences == ParseLines(lines[..i])
    {
      assert lines[..i + 1][..i] == lines[..i];
      var line := lines[i];
      if !(|line| > 0 && line[0] == '-') {
        var sequence := Trim(FirstField(line));
        if sequence != [] {
          sequences := sequences + [sequence];
        }
      }
    }
    assert lines[..|lines|] == lines;
  }

  /** A sequence that survives the round trip through its report line: no
      comma or line break in it, and it does not start with "-". */
  predicate ReportSafe(s: string) {
    (forall k :: 0 <= k < |s| ==> s[k] != ',' && !IsLineBreak(s[k])) && (s == [] || s[0] != '-')
  }

  /** Every sequence the counter produces is safe. */
  lemma SpaceJoinedIsSafe(s: string)
    requires SpaceJoined(s)
    ensures ReportSafe(s)
  {
  }

  /** The sequences `trim` leaves non-empty, trimmed, in row order. */
  function TrimmedSequences(rows: seq<Entry>): seq<string> {
    if rows == [] then []
    else
      var last := Trim(rows[|rows| - 1].sequence);
      TrimmedSequences(rows[..|rows| - 1]) + (if last == [] then [] else [last])
  }

  function Sequences(rows: seq<Entry>): (r: seq<string>)
    ensures |r| == |rows| && forall i :: 0 <= i < |rows| ==> r[i] == rows[i].sequence
  {
    if rows == [] then [] else Sequences(rows[..|rows| - 1]) + [rows[|rows| - 1].sequence]
  }

  lemma {:induction false} FirstFieldBeforeComma(a: string, b: string)
    requires ',' !in a
    ensures FirstField(a + "," + b) == a
  {
    if a != [] {
      assert (a + "," + b)[1..] == a[1..] + "," + b;
      FirstFieldBeforeComma(a[1..], b);
    }
  }

  lemma ParseRow(e: Entry, w: nat, c: nat)
    requires ReportSafe(e.sequence)
    ensures ParseLine(RowLine(e, w, c)) == if Trim(e.sequence) == [] then None else Some(Trim(e.sequence))
  {
    var left := PadEnd(e.sequence, w);
    var line := RowLine(e, w, c);
    assert ',' !in left by {
      forall k | 0 <= k < |left| ensures left[k] != ',' {
        if k < |e.sequence| { assert left[k] == left[..|e.sequence|][k]; }
      }
    }
    FirstFieldBeforeComma(left, PadStart(Decimal(e.count), c));
    if |e.sequence| < w {
      assert left == e.sequence + Repeat(' ', w - |e.sequence|);
      TrimPadded(e.sequence, w - |e.sequence|);
    }
    assert line[0] == (left + "," + PadStart(Decimal(e.count), c))[0];
    if e.sequence != [] {
      assert left[0] == e.sequence[0];
    }
  }

  lemma {:induction false} ParseRows(rows: seq<Entry>, w: nat, c: nat)
    requires forall i :: 0 <= i < |rows| ==> ReportSafe(rows[i].sequence)
    ensures ParseLines(RowLines(rows, w, c)) == TrimmedSequences(rows)
  {
    if rows != [] {
      var init := rows[..|rows| - 1];
      ParseRows(init, w, c);
      ParseRow(rows[|rows| - 1], w, c);
      assert RowLines(rows, w, c)[..|rows| - 1] == RowLines(init, w, c);
    }
  }

  /** Reading a rendered report back gives its trimmed sequences in row order;
      the borders give nothing. */
  lemma ConcatNoLineBreak(a: string, b: string)
    requires NoLineBreak(a) && NoLineBreak(b)
    ensures NoLineBreak(a + b)
  {
    forall j | 0 <= j < |a + b| ensures !IsLineBreak((a + b)[j]) {
      if j < |a| { assert (a + b)[j] == a[j]; } else { assert (a + b)[j] == b[j - |a|]; }
    }
  }

  lemma RowHasNoLineBreak(e: Entry, w: nat, c: nat)
    requires ReportSafe(e.sequence)
    ensures NoLineBreak(RowLine(e, w, c))
  {
    var d := Decimal(e.count);
    if |e.sequence| < w {
      ConcatNoLineBreak(e.sequence, Repeat(' ', w - |e.sequence|));
    }
    if |d| < c {
      ConcatNoLineBreak(Repeat(' ', c - |d|), d);
    }
    ConcatNoLineBreak(PadEnd(e.sequence, w), ",");
    ConcatNoLineBreak(PadEnd(e.sequence, w) + ",", PadStart(d, c));
  }

  lemma ReportHasNoLineBreaks(rows: seq<Entry>, w: nat, c: nat)
    requires forall i :: 0 <= i < |rows| ==> ReportSafe(rows[i].sequence)
    ensures forall k :: 0 <= k < |ReportLines(rows, w, c)| ==> NoLineBreak(ReportLines(rows, w, c)[k])
  {
    var body := RowLines(rows, w, c);
    forall k | 0 <= k < |body| ensures NoLineBreak(body[k]) {
      RowHasNoLineBreak(rows[k], w, c);
    }
    BorderHasNoLineBreak(w, c);
    FramedNoLineBreak(Border(w, c), body, Border(w, c));
  }

  lemma BorderHasNoLineBreak(w: nat, c: nat)
    ensures NoLineBreak(Border(w, c))
  {
    ConcatNoLineBreak(Repeat('-', w + 2), ",");
    ConcatNoLineBreak(Repeat('-', w + 2) + ",", Repeat('-', c + 2));
  }

  lemma FramedNoLineBreak(first: string, middle: seq<string>, last: string)
    requires NoLineBreak(first) && NoLineBreak(last)
    requires forall k :: 0 <= k < |middle| ==> NoLineBreak(middle[k])
    ensures forall k :: 0 <= k < |[first] + middle + [last]| ==> NoLineBreak(([first] + middle + [last])[k])
  {
    var lines := [first] + middle + [last];
    forall k | 0 <= k < |lines| ensures NoLineBreak(lines[k]) {
      if k == 0 {
        assert lines[k] == first;
      } else if k <= |middle| {
        assert lines[k] == middle[k - 1];
      } else {
        assert lines[k] == last;
      }
    }
  }

  /** Reading a rendered report back gives its trimmed sequences in row order;
      the borders give nothing. */
  lemma ReadBackReport(rows: seq<Entry>, w: nat, c: nat)
    requires forall i :: 0 <= i < |rows| ==> ReportSafe(rows[i].sequence)
    ensures ParseLines(ReadLines(Unlines(ReportLines(rows, w, c)))) == TrimmedSequences(rows)
  {
    ReportHasNoLineBreaks(rows, w, c);
    ReadUnlines(ReportLines(rows, w, c));
    BorderSkipped(w, c);
    ParseFramed(Border(w, c), RowLines(rows, w, c), Border(w, c));
    ParseRows(rows, w, c);
  }

  /** A dashed line gives no sequence. */
  lemma BorderSkipped(w: nat, c: nat)
    ensures ParseLine(Border(w, c)) == None
  {
    assert Border(w, c)[0] == '-';
  }

  /** Lines that give nothing around the middle ones leave just the middle's sequences. */
  lemma ParseFramed(first: string, middle: seq<string>, last: string)
    requires ParseLine(first) == None && ParseLine(last) == None
    ensures ParseLines([first] + middle + [last]) == ParseLines(middle)
  {
    ParseLinesAppend([first] + middle, [last]);
    ParseLinesAppend([first], middle);
    assert ParseLines([first]) == ParseLines([]) + Kept(ParseLine(first));
    assert ParseLines([last]) == ParseLines([]) + Kept(ParseLine(last));
  }

  /** A non-empty string with no whitespace at either end is its own trim. */
  lemma TrimmedWordTrim(s: string)
    requires IsTrimmedWord(s)
    ensures Trim(s) == s
  {
    assert TrimStart(s) == s;
    assert TrimEnd(s) == s;
  }

  /** For sequences without surrounding whitespace, the trimmed list is the list itself. */
  lemma {:induction false} TrimmedCleanSequences(rows: seq<Entry>)
    requires forall i :: 0 <= i < |rows| ==> IsTrimmedWord(rows[i].sequence)
    ensures TrimmedSequences(rows) == Sequences(rows)
  {
    if rows != [] {
      TrimmedCleanSequences(rows[..|rows| - 1]);
      TrimmedWordTrim(rows[|rows| - 1].sequence);
    }
  }

  /** When no sequence is blank or has whitespace at its ends, the report gives
      back exactly the ranked sequences. */
  lemma ReadBackExact(rows: seq<Entry>, w: nat, c: nat)
    requires forall i :: 0 <= i < |rows| ==> ReportSafe(rows[i].sequence)
    requires forall i :: 0 <= i < |rows| ==> IsTrimmedWord(rows[i].sequence)
    ensures ParseLines(ReadLines(Unlines(ReportLines(rows, w, c)))) == Sequences(rows)
  {
    ReadBackReport(rows, w, c);
    TrimmedCleanSequences(rows);
  }

  /** A bucket of the table `extractWordSequences` builds, ranked and written
      as a report, reads back as its ranked sequences, trimmed. The two
      requirements on the table are what ExtractWordSequences ensures. */
  lemma ReadBackBucket(text: string, table: Table, len: nat, rows: seq<Entry>, w: nat, c: nat)
    requires var words := Tokenize(text);
      forall l, s :: 1 <= l ==> Get(table, l, s) == Occurrences(words, l, s, |words|)
    requires forall l, s :: l in table && s in table[l] ==> table[l][s] >= 1
    requires 1 <= len && len in table && IsRanking(rows, table[len])
    ensures ParseLines(ReadLines(Unlines(ReportLines(rows, w, c)))) == TrimmedSequences(rows)
  {
    forall i | 0 <= i < |rows| ensures ReportSafe(rows[i].sequence) {
      var s := rows[i].sequence;
      assert s in table[len] && Get(table, len, s) >= 1;
      CountedKeysSpaceJoined(text, len, s);
      SpaceJoinedIsSafe(s);
    }
    ReadBackReport(rows, w, c);
  }

  // ---------------------------------------------------------------------------
  // Report file names

  const ReportPrefix: string := "occurrence_length_"
  const ReportSuffix: string := ".csv"

  /** "occurrence_length_$length.csv". */
  function ReportFileName(len: nat): string {
    ReportPrefix + Decimal(len) + ReportSuffix
  }

  /** The filter given to `listFiles`. */
  predicate IsReportName(name: string) {
    |name| >= |ReportPrefix| && name[..|ReportPrefix|] == ReportPrefix &&
    |name| >= |ReportSuffix| && name[|name| - |ReportSuffix|..] == ReportSuffix
  }

  predicate OccursAt(s: string, pattern: string, j: int) {
    0 <= j && j + |pattern| <= |s| && s[j..j + |pattern|] == pattern
  }

  /** The last place at or before i where pattern occurs in s. */
  function LastIndexFrom(s: string, pattern: string, i: int): (r: Option<nat>)
    ensures r.Some? ==> r.value <= i && OccursAt(s, pattern, r.value)
    ensures r.Some? ==> forall j :: r.value < j <= i ==> !OccursAt(s, pattern, j)
    ensures r.None? ==> forall j :: j <= i ==> !OccursAt(s, pattern, j)
    decreases i + 1
  {
    if i < 0 then None
    else if OccursAt(s, pattern, i) then Some(i)
    else LastIndexFrom(s, pattern, i - 1)
  }

  /** `lastIndexOf(pattern)`, None standing for -1. */
  function LastIndexOf(s: string, pattern: string): (r: Option<nat>)
    ensures r.Some? ==> OccursAt(s, pattern, r.value) && forall j :: r.value < j ==> !OccursAt(s, pattern, j)
    ensures r.None? ==> forall j :: !OccursAt(s, pattern, j)
  {
    LastIndexFrom(s, pattern, |s| - |pattern|)
  }

  /** `substringAfterLast(delimiter)`: the whole string when the delimiter is missing. */
  function SubstringAfterLast(s: string, delimiter: string): string {
    match LastIndexOf(s, delimiter)
    case None => s
    case Some(i) => s[i + |delimiter|..]
  }

  /** `substringBeforeLast(delimiter)`: the whole string when the delimiter is missing. */
  function SubstringBeforeLast(s: string, delimiter: string): string {
    match LastIndexOf(s, delimiter)
    case None => s
    case Some(i) => s[..i]
  }

  /** `name.substringAfterLast("_").substringBeforeLast(".csv").toInt()`; the
      exception `toInt` throws is None. */
  function DecodeLength(name: string): Option<int> {
    ParseInt(SubstringBeforeLast(SubstringAfterLast(name, "_"), ".csv"))
  }

  /** The last occurrence is the one with none after it. */
  lemma LastIndexAt(s: string, pattern: string, i: nat)
    requires OccursAt(s, pattern, i)
    requires forall j :: i < j ==> !OccursAt(s, pattern, j)
    ensures LastIndexOf(s, pattern) == Some(i)
  {
  }

  /** Text ending in ".csv" loses exactly that ending. */
  lemma BeforeSuffix(d: string)
    ensures SubstringBeforeLast(d + ReportSuffix, ".csv") == d
  {
    var s := d + ReportSuffix;
    assert s[|d|..|d| + 4] == ".csv";
    LastIndexAt(s, ".csv", |d|);
  }

  /** With no "_" in d, the last "_" of the name is the prefix's own. */
  lemma AfterPrefix(d: string)
    requires forall k :: 0 <= k < |d| ==> d[k] != '_'
    ensures SubstringAfterLast(ReportPrefix + (d + ReportSuffix), "_") == d + ReportSuffix
  {
    var rest := d + ReportSuffix;
    var name := ReportPrefix + rest;
    var p := |ReportPrefix|;
    assert name[p - 1..p] == "_";
    forall j | p - 1 < j ensures !OccursAt(name, "_", j) {
      if j + 1 <= |name| {
        assert name[j..j + 1][0] == name[j] == rest[j - p];
        if j < p + |d| {
          assert rest[j - p] == d[j - p];
        } else {
          assert rest[j - p] == ReportSuffix[j - p - |d|];
        }
      }
    }
    LastIndexAt(name, "_", p - 1);
    assert name[p..] == rest;
  }

  /** Decoding the name of the report of bucket len gives len back. */
  lemma DecodeReportFileName(len: nat)
    requires len <= MaxInt
    ensures IsReportName(ReportFileName(len))
    ensures DecodeLength(ReportFileName(len)) == Some(len)
  {
    var d := Decimal(len);
    var name := ReportFileName(len);
    assert name == ReportPrefix + (d + ReportSuffix);
    assert name[..|ReportPrefix|] == ReportPrefix;
    assert name[|name| - 4..] == ReportSuffix;
    AfterPrefix(d);
    BeforeSuffix(d);
    ParseDecimal(len);
  }
}
