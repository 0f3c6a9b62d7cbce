/** The matching loop of `countLinesAffected` (src/main/kotlin/Main.kt:241-267).
    The file read at line 245 is the text parameter. Two places where the code
    does other than its comments say are modelled as written, each beside the
    evidently intended version: the split at line 247 is on a literal
    six-character delimiter, and the `break` at line 257 leaves only the loop
    over one report's sequences. */
module LineImpact {
  import opened Text
  import opened Sorting
  import opened Report
  import opened Aggregate

  // ---------------------------------------------------------------------------
  // Splitting on a literal delimiter

  /** The single String given to `split` at line 247: it is not a regex, so it
      is the delimiter CR LF '|' CR '|' LF, character for character. */
  const LiteralDelimiter: string := "\r\n|\r|\n"

  /** `indexOf(delimiter, from)`: the first occurrence at or after from. */
  function IndexFrom(s: string, delimiter: string, from: nat): (r: Option<nat>)
    ensures r.Some? ==> from <= r.value && OccursAt(s, delimiter, r.value)
    ensures r.Some? ==> forall j :: from <= j < r.value ==> !OccursAt(s, delimiter, j)
    ensures r.None? ==> forall j :: from <= j ==> !OccursAt(s, delimiter, j)
    decreases |s| + 1 - from
  {
    if from + |delimiter| > |s| then None
    else if OccursAt(s, delimiter, from) then Some(from)
    else IndexFrom(s, delimiter, from + 1)
  }

  predicate Free(s: string, delimiter: string) {
    forall j :: 0 <= j <= |s| ==> !OccursAt(s, delimiter, j)
  }

  /** Kotlin's `split(delimiter)` with one non-empty literal delimiter: the
      pieces between its occurrences, found left to right without overlap,
      empty pieces kept. No piece holds the delimiter. */
  function SplitLiteral(s: string, delimiter: string): (r: seq<string>)
    requires |delimiter| > 0
    ensures |r| >= 1
    ensures forall k :: 0 <= k < |r| ==> Free(r[k], delimiter)
    decreases |s|
  {
    match IndexFrom(s, delimiter, 0)
    case None => [s]
    case Some(i) =>
      assert Free(s[..i], delimiter) by {
        forall j | 0 <= j <= i ensures !OccursAt(s[..i], delimiter, j) {
          if j + |delimiter| <= i {
            assert s[..i][j..j + |delimiter|] == s[j..j + |delimiter|];
            assert !OccursAt(s, delimiter, j);
          }
        }
      }
      [s[..i]] + SplitLiteral(s[i + |delimiter|..], delimiter)
  }

  /** The pieces put back together with the delimiter between them. */
  function JoinWith(pieces: seq<string>, delimiter: string): string {
    if |pieces| <= 1 then (if pieces == [] then [] else pieces[0])
    else pieces[0] + delimiter + JoinWith(pieces[1..], delimiter)
  }

  /** Nothing is lost: joining the pieces gives the text back. */
  lemma {:induction false} SplitLiteralJoin(s: string, delimiter: string)
    requires |delimiter| > 0
    ensures JoinWith(SplitLiteral(s, delimiter), delimiter) == s
    decreases |s|
  {
    match IndexFrom(s, delimiter, 0)
    case None =>
    case Some(i) =>
      var rest := s[i + |delimiter|..];
      SplitLiteralJoin(rest, delimiter);
      var pieces := SplitLiteral(s, delimiter);
      assert pieces[1..] == SplitLiteral(rest, delimiter);
      assert s == s[..i] + s[i..i + |delimiter|] + rest;
  }

  /** A text without the literal delimiter is one piece, whatever line breaks it holds. */
  lemma NoDelimiterOnePiece(s: string)
    requires Free(s, LiteralDelimiter)
    ensures SplitLiteral(s, LiteralDelimiter) == [s]
  {
  }

  // ---------------------------------------------------------------------------
  // The whole-word test

  /** The characters `\b` treats as word characters, in their ASCII range. */
  predicate IsWordChar(c: char) {
    'a' <= c <= 'z' || 'A' <= c <= 'Z' || '0' <= c <= '9' || c == '_'
  }

  predicate WordBefore(s: string, p: int) { 0 < p <= |s| && IsWordChar(s[p - 1]) }

  predicate WordAfter(s: string, p: int) { 0 <= p < |s| && IsWordChar(s[p]) }

  /** `\b` at position p: a word character on exactly one side, a position
      outside the string counting as a non-word character. */
  predicate Boundary(s: string, p: int) {
    WordBefore(s, p) != WordAfter(s, p)
  }

  /** `\b` + the quoted text + `\b` matches at position p. */
  predicate WholeWordAt(s: string, q: string, p: int) {
    OccursAt(s, q, p) && Boundary(s, p) && Boundary(s, p + |q|)
  }

  predicate ContainsWholeWord(s: string, q: string) {
    exists p :: 0 <= p <= |s| && WholeWordAt(s, q, p)
  }

  /** `regex.find(line)` from position from on: the first match, if any. */
  function FindWholeWord(s: string, q: string, from: nat): (r: Option<nat>)
    ensures r.Some? ==> from <= r.value && WholeWordAt(s, q, r.value)
    ensures r.Some? ==> forall p :: from <= p < r.value ==> !WholeWordAt(s, q, p)
    ensures r.None? ==> forall p :: from <= p ==> !WholeWordAt(s, q, p)
    decreases |s| + 1 - from
  {
    if from + |q| > |s| then None
    else if WholeWordAt(s, q, from) then Some(from)
    else FindWholeWord(s, q, from + 1)
  }

  /** Java's `equalsIgnoreCase`, for ASCII letters. */
  predicate EqualsIgnoreCase(a: string, b: string) {
    |a| == |b| && forall i :: 0 <= i < |a| ==> LowerChar(a[i]) == LowerChar(b[i])
  }

  /** A lowercased string always equals the original ignoring case. */
  lemma LowerEqualsIgnoreCase(s: string)
    ensures EqualsIgnoreCase(Lower(s), s)
  {
    var l := Lower(s);
    forall i | 0 <= i < |l| ensures LowerChar(l[i]) == LowerChar(s[i]) {
      assert l[i] == LowerChar(s[i]);
    }
  }

  /** The test at lines 253-255: the lowercased sequence, quoted, between two
      `\b`, found in the line, the matched text then compared with the sequence
      ignoring case. That comparison never fails, so the test is whether the
      lowercased sequence occurs as a whole word. */
  function SequenceMatches(line: string, sequence: string): (r: bool)
    ensures r <==> ContainsWholeWord(line, Lower(sequence))
  {
    var q := Lower(sequence);
    match FindWholeWord(line, q, 0)
    case None => false
    case Some(p) =>
      LowerEqualsIgnoreCase(sequence);
      EqualsIgnoreCase(line[p..p + |q|], sequence)
  }

  // ---------------------------------------------------------------------------
  // Counting as written

  /** Some sequence of the report is found in the line. */
  predicate BucketHit(line: string, sequences: seq<string>) {
    exists k :: 0 <= k < |sequences| && SequenceMatches(line, sequences[k])
  }

  /** The reports (by length) with some sequence found in the line. */
  ghost function HitBuckets(line: string, reports: Reports): set<int> {
    set len | len in reports && BucketHit(line, reports[len])
  }

  /** The number of (line, report) pairs where the report has a sequence found in the line. */
  ghost function AffectedPairs(lines: seq<string>, reports: Reports): nat {
    if lines == [] then 0
    else AffectedPairs(lines[..|lines| - 1], reports) + |HitBuckets(lines[|lines| - 1], reports)|
  }

  /** The lines of `countLinesAffected`: the lowercased text split on the literal delimiter. */
  function InputLines(text: string): (r: seq<string>)
    ensures |r| >= 1
  {
    SplitLiteral(Lower(text), LiteralDelimiter)
  }

  /** `countLinesAffected`: for each line, each report and each of its
      sequences, a match adds one and leaves that report's sequences. */
  method CountLinesAffected(text: string, reports: Reports) returns (linesAffected: nat)
    ensures linesAffected == AffectedPairs(InputLines(text), reports)
  {
    var inputText := Lower(text);
    var inputLines := SplitLiteral(inputText, LiteralDelimiter);
    var lens := Elements(reports.Keys);
    linesAffected := 0;
    for i := 0 to |inputLines|
      invariant linesAffected == AffectedPairs(inputLines[..i], reports)
    {
      var inputLine := inputLines[i];
      ghost var hits: set<int> := {};
      for b := 0 to |lens|
        invariant HitsSoFar(inputLine, reports, lens[..b], hits)
        invariant linesAffected == AffectedPairs(inputLines[..i], reports) + |hits|
      {
        ghost var before := hits;
        var matched := ReportMatches(inputLine, reports[lens[b]]);
        if matched {
          linesAffected := linesAffected + 1;
          hits := hits + {lens[b]};
        }
        HitsStep(inputLine, reports, lens, b, before, hits);
      }
      HitsDone(inputLine, reports, lens, hits);
      AffectedPairsSnoc(inputLines, i, reports);
    }
    assert inputLines[..|inputLines|] == inputLines;
  }

  /** The loop over one report's sequences, left at the first one found in the line. */
  method ReportMatches(inputLine: string, sequences: seq<string>) returns (matched: bool)
    ensures matched <==> BucketHit(inputLine, sequences)
  {
    matched := false;
    for k := 0 to |sequences|
      invariant !matched
      invariant forall m :: 0 <= m < k ==> !SequenceMatches(inputLine, sequences[m])
    {
      if SequenceMatches(inputLine, sequences[k]) {
        matched := true;
        break;
      }
    }
  }

  /** hits holds the reports, among those listed in done, with a sequence in the line. */
  ghost predicate HitsSoFar(line: string, reports: Reports, done: seq<int>, hits: set<int>) {
    forall len {:trigger len in hits} {:trigger len in done} ::
      len in hits <==> len in done && len in reports && BucketHit(line, reports[len])
  }

  lemma HitsStep(line: string, reports: Reports, lens: seq<int>, b: nat, before: set<int>, hits: set<int>)
    requires Distinct(lens) && b < |lens| && lens[b] in reports
    requires HitsSoFar(line, reports, lens[..b], before)
    requires BucketHit(line, reports[lens[b]]) ==> hits == before + {lens[b]}
    requires !BucketHit(line, reports[lens[b]]) ==> hits == before
    ensures HitsSoFar(line, reports, lens[..b + 1], hits)
    ensures |hits| == |before| + (if BucketHit(line, reports[lens[b]]) then 1 else 0)
  {
    assert lens[..b + 1] == lens[..b] + [lens[b]];
    assert lens[b] !in lens[..b];
    forall x | x in before ensures x in lens[..b] {
    }
  }

  lemma HitsDone(line: string, reports: Reports, lens: seq<int>, hits: set<int>)
    requires forall len :: len in lens <==> len in reports
    requires HitsSoFar(line, reports, lens[..|lens|], hits)
    ensures hits == HitBuckets(line, reports)
  {
    assert lens[..|lens|] == lens;
    forall len ensures len in hits <==> len in HitBuckets(line, reports) {
      assert len in hits <==> len in lens && len in reports && BucketHit(line, reports[len]);
    }
  }

  lemma {:induction false} SubsetCard<T>(a: set<T>, b: set<T>)
    requires a <= b
    ensures |a| <= |b|
    decreases |a|
  {
    if a != {} {
      var x :| x in a;
      SubsetCard(a - {x}, b - {x});
    }
  }

  /** One more piece adds the number of reports found in it. */
  lemma AffectedPairsSnoc(lines: seq<string>, i: nat, reports: Reports)
    requires i < |lines|
    ensures AffectedPairs(lines[..i + 1], reports) == AffectedPairs(lines[..i], reports) + |HitBuckets(lines[i], reports)|
  {
    assert lines[..i + 1][..i] == lines[..i];
  }

  lemma MulSucc(n: nat, r: nat)
    ensures n * r + r == (n + 1) * r
  {
  }

  /** Each line adds at most one per report: the count is at most lines x reports. */
  lemma {:induction false} AffectedPairsBound(lines: seq<string>, reports: Reports)
    ensures AffectedPairs(lines, reports) <= |lines| * |reports|
  {
    if lines != [] {
      var n := |lines| - 1;
      AffectedPairsBound(lines[..n], reports);
      SubsetCard(HitBuckets(lines[n], reports), reports.Keys);
      assert AffectedPairs(lines, reports) <= n * |reports| + |reports|;
      MulSucc(n, |reports|);
    }
  }

  /** No sequence, no count. */
  lemma NoReportsNoCount(text: string)
    ensures AffectedPairs(InputLines(text), map[]) == 0
  {
    AffectedPairsBound(InputLines(text), map[]);
  }

  // ---------------------------------------------------------------------------
  // The evident intent: each line split at its line break, counted once

  /** The lines as the comment at line 247 describes them: the lowercased text
      split on the regex `\r\n|\r|\n`. */
  function IntendedLines(text: string): (r: seq<string>)
    ensures |r| >= 1 && forall k :: 0 <= k < |r| ==> NoLineBreak(r[k])
  {
    SplitLines(Lower(text))
  }

  /** The line has a sequence of some report in it. */
  predicate LineAffected(line: string, reports: Reports) {
    exists len :: len in reports && BucketHit(line, reports[len])
  }

  /** The number of lines with a sequence of some report in them. */
  function AffectedLines(lines: seq<string>, reports: Reports): nat {
    if lines == [] then 0
    else AffectedLines(lines[..|lines| - 1], reports) + (if LineAffected(lines[|lines| - 1], reports) then 1 else 0)
  }

  /** At most one per line. */
  lemma {:induction false} AffectedLinesBound(lines: seq<string>, reports: Reports)
    ensures AffectedLines(lines, reports) <= |lines|
  {
    if lines != [] {
      AffectedLinesBound(lines[..|lines| - 1], reports);
    }
  }

  /** The count as written never undercounts the intended one on the same
      pieces, and equals it when there is at most one report. */
  lemma {:induction false} PairsCoverLines(lines: seq<string>, reports: Reports)
    ensures AffectedLines(lines, reports) <= AffectedPairs(lines, reports)
    ensures |reports| <= 1 ==> AffectedLines(lines, reports) == AffectedPairs(lines, reports)
  {
    if lines != [] {
      var line := lines[|lines| - 1];
      PairsCoverLines(lines[..|lines| - 1], reports);
      var hit := HitBuckets(line, reports);
      SubsetCard(hit, reports.Keys);
      if LineAffected(line, reports) {
        var len :| len in reports && BucketHit(line, reports[len]);
        assert len in hit;
        SubsetCard({len}, hit);
      } else {
        assert forall len :: len !in hit;
        assert hit == {};
      }
    }
  }

  /** The intended count: lines split at their line breaks, each counted once. */
  function IntendedLinesAffected(text: string, reports: Reports): (r: nat)
    ensures r <= |IntendedLines(text)|
  {
    AffectedLinesBound(IntendedLines(text), reports);
    AffectedLines(IntendedLines(text), reports)
  }

  // ---------------------------------------------------------------------------
  // Inputs that show the two discrepancies

  lemma OneLine(line: string, reports: Reports)
    ensures AffectedPairs([line], reports) == |HitBuckets(line, reports)|
    ensures AffectedLines([line], reports) == if LineAffected(line, reports) then 1 else 0
  {
    assert [line][..0] == [];
  }

  lemma OneReportHit(line: string, sequences: seq<string>)
    requires BucketHit(line, sequences)
    ensures HitBuckets(line, map[1 := sequences]) == {1}
  {
  }

  lemma TwoReportsHit(line: string, a: seq<string>, b: seq<string>)
    requires BucketHit(line, a) && BucketHit(line, b)
    ensures HitBuckets(line, map[1 := a, 2 := b]) == {1, 2}
  {
  }

  lemma XMatches()
    ensures BucketHit("x\nx", ["x"])
    ensures BucketHit("x", ["x"])
  {
    assert Lower("x") == "x";
    assert WholeWordAt("x\nx", "x", 0) by { assert "x\nx"[0..1] == "x"; }
    assert WholeWordAt("x", "x", 0) by { assert "x"[0..1] == "x"; }
    assert ["x"][0] == "x";
  }

  lemma SplitXX()
    ensures IntendedLines("x\nx") == ["x", "x"]
  {
    assert Lower("x\nx") == "x\nx";
    SplitLineThenRest("x", "x", []);
    assert "x" + "\n" + "x" == "x\nx";
    assert [] + "x" == "x";
    assert SplitLinesFrom("x", []) == ["x"] by {
      assert "x"[1..] == "";
      assert [] + ['x'] == "x";
    }
  }

  /** "x\nx" is one piece to the literal split, the sequence "x" counted once. */
  lemma LiteralSplitCountsOnce()
    ensures InputLines("x\nx") == ["x\nx"]
    ensures AffectedPairs(InputLines("x\nx"), map[1 := ["x"]]) == 1
  {
    assert Lower("x\nx") == "x\nx";
    NoDelimiterOnePiece("x\nx");
    XMatches();
    OneReportHit("x\nx", ["x"]);
    OneLine("x\nx", map[1 := ["x"]]);
  }

  lemma HitMakesAffected(line: string, reports: Reports, len: int)
    requires len in reports && BucketHit(line, reports[len])
    ensures LineAffected(line, reports)
  {
  }

  lemma AffectedLinesPair(a: string, b: string, reports: Reports)
    ensures AffectedLines([a, b], reports) ==
      AffectedLines([a], reports) + (if LineAffected(b, reports) then 1 else 0)
  {
    assert [a, b][..1] == [a];
  }

  lemma TwoLinesAffected()
    ensures AffectedLines(["x", "x"], map[1 := ["x"]]) == 2
  {
    var reports: Reports := map[1 := ["x"]];
    XMatches();
    HitMakesAffected("x", reports, 1);
    AffectedLinesPair("x", "x", reports);
    OneLine("x", reports);
  }

  /** Split at its line break, "x\nx" is two lines, each with "x" in it. */
  lemma LineSplitCountsTwice()
    ensures IntendedLines("x\nx") == ["x", "x"]
    ensures IntendedLinesAffected("x\nx", map[1 := ["x"]]) == 2
  {
    SplitXX();
    TwoLinesAffected();
  }

  lemma E101Matches()
    ensures BucketHit("e 101", ["101", "e"])
    ensures BucketHit("e 101", ["e 101"])
  {
    assert Lower("e") == "e";
    assert Lower("e 101") == "e 101";
    assert WholeWordAt("e 101", "e", 0) by { assert "e 101"[0..1] == "e"; }
    assert WholeWordAt("e 101", "e 101", 0) by { assert "e 101"[0..5] == "e 101"; }
    assert ["101", "e"][1] == "e";
    assert ["e 101"][0] == "e 101";
  }

  /** The line "e 101" read against the reports of its own text: both the
      length-1 and the length-2 report have a sequence in it, so the one line
      is counted twice. */
  lemma OneLineCountedTwice()
    ensures AffectedPairs(["e 101"], map[1 := ["101", "e"], 2 := ["e 101"]]) == 2
    ensures AffectedLines(["e 101"], map[1 := ["101", "e"], 2 := ["e 101"]]) == 1
  {
    E101Matches();
    TwoHitsOneLine("e 101", ["101", "e"], ["e 101"]);
  }

  /** A line with a sequence of each of two reports is one line, two pairs. */
  lemma TwoHitsOneLine(line: string, a: seq<string>, b: seq<string>)
    requires BucketHit(line, a) && BucketHit(line, b)
    ensures AffectedPairs([line], map[1 := a, 2 := b]) == 2
    ensures AffectedLines([line], map[1 := a, 2 := b]) == 1
  {
    var reports: Reports := map[1 := a, 2 := b];
    TwoReportsHit(line, a, b);
    OneLine(line, reports);
    HitMakesAffected(line, reports, 1);
  }
}
