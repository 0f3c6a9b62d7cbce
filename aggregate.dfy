/** Reading every report back, `readAllCSVFiles` (src/main/kotlin/Main.kt:157-173),
    and the top-sequence list of `writeTopSequencesToFile`
    (src/main/kotlin/Main.kt:208-230). The output folder is the list of its
    files as (name, content) pairs in listing order; the top-sequence file is
    the text written to it. */
module Aggregate {
  import opened Text
  import opened Sorting
  import opened Report

  /** Report length mapped to the sequences read from that report. */
  type Reports = map<int, seq<string>>

  type File = (string, string)

  /** What `readAllCSVFiles` returns for the listed files: the files whose name
      passes the filter, each decoded and read, a later file replacing an
      earlier one of the same length. None when a name does not decode: `toInt`
      throws and nothing catches it. */
  function ReadAll(files: seq<File>): Option<Reports> {
    if files == [] then Some(map[])
    else
      var name, content := files[|files| - 1].0, files[|files| - 1].1;
      match ReadAll(files[..|files| - 1])
      case None => None
      case Some(reports) =>
        if !IsReportName(name) then Some(reports)
        else
          match DecodeLength(name)
          case None => None
          case Some(len) => Some(reports[len := ParseLines(ReadLines(content))])
  }

  lemma {:induction false} FailureIsFinal(files: seq<File>, k: nat)
    requires k <= |files| && ReadAll(files[..k]).None?
    ensures ReadAll(files).None?
    decreases |files| - k
  {
    if k < |files| {
      assert files[..k + 1][..k] == files[..k];
      FailureIsFinal(files, k + 1);
    } else {
      assert files[..k] == files;
    }
  }

  /** `readAllCSVFiles`: the listed files read one after another into a map. */
  method ReadAllReports(files: seq<File>) returns (reports: Option<Reports>)
    ensures reports == ReadAll(files)
  {
    var topSequences: Reports := map[];
    for i := 0 to |files|
      invariant ReadAll(files[..i]) == Some(topSequences)
    {
      assert files[..i + 1][..i] == files[..i];
      var name, content := files[i].0, files[i].1;
      if IsReportName(name) {
        var length := DecodeLength(name);
        if length.None? {
          FailureIsFinal(files, i + 1);
          return None;
        }
        var sequences := ReadReport(content);
        topSequences := topSequences[length.value := sequences];
      }
    }
    assert files[..|files|] == files;
    reports := Some(topSequences);
  }

  predicate Undecodable(f: File) {
    IsReportName(f.0) && DecodeLength(f.0).None?
  }

  predicate NamesLength(f: File, len: int) {
    IsReportName(f.0) && DecodeLength(f.0) == Some(len)
  }

  /** Some file has a report name that does not decode. */
  predicate SomeUndecodable(files: seq<File>) {
    exists i :: 0 <= i < |files| && Undecodable(files[i])
  }

  predicate AnyOf<T>(xs: seq<T>, p: T -> bool) {
    exists i :: 0 <= i < |xs| && p(xs[i])
  }

  lemma ExistsSnoc<T>(xs: seq<T>, p: T -> bool)
    requires xs != []
    ensures AnyOf(xs, p) <==> AnyOf(xs[..|xs| - 1], p) || p(xs[|xs| - 1])
  {
    var init := xs[..|xs| - 1];
    if exists i :: 0 <= i < |xs| && p(xs[i]) {
      var i :| 0 <= i < |xs| && p(xs[i]);
      if i < |init| {
        assert init[i] == xs[i];
      }
    }
    if exists i :: 0 <= i < |init| && p(init[i]) {
      var i :| 0 <= i < |init| && p(init[i]);
      assert xs[i] == init[i];
    }
  }

  lemma SomeUndecodableSnoc(files: seq<File>)
    requires files != []
    ensures SomeUndecodable(files) <==>
      SomeUndecodable(files[..|files| - 1]) || Undecodable(files[|files| - 1])
  {
    ExistsSnoc(files, Undecodable);
    assert SomeUndecodable(files) <==> AnyOf(files, Undecodable);
    assert SomeUndecodable(files[..|files| - 1]) <==> AnyOf(files[..|files| - 1], Undecodable);
  }

  lemma ReadAllStepFails(files: seq<File>)
    requires files != []
    ensures ReadAll(files).None? <==>
      ReadAll(files[..|files| - 1]).None? || Undecodable(files[|files| - 1])
  {
  }

  /** Reading fails exactly when some report name does not decode. */
  lemma {:induction false} ReadAllFails(files: seq<File>)
    ensures ReadAll(files).None? <==> SomeUndecodable(files)
  {
    if files != [] {
      ReadAllFails(files[..|files| - 1]);
      SomeUndecodableSnoc(files);
      ReadAllStepFails(files);
    }
  }

  /** Some listed file has a report name that decodes to len. */
  predicate SomeNamesLength(files: seq<File>, len: int) {
    exists i :: 0 <= i < |files| && NamesLength(files[i], len)
  }

  lemma SomeNamesLengthSnoc(files: seq<File>, len: int)
    requires files != []
    ensures SomeNamesLength(files, len) <==>
      SomeNamesLength(files[..|files| - 1], len) || NamesLength(files[|files| - 1], len)
  {
    var p := (f: File) => NamesLength(f, len);
    ExistsSnoc(files, p);
    assert SomeNamesLength(files, len) <==> AnyOf(files, p);
    assert SomeNamesLength(files[..|files| - 1], len) <==> AnyOf(files[..|files| - 1], p);
  }

  /** One more file adds its length to the keys, if it is a report that decodes. */
  lemma ReadAllKeyStep(files: seq<File>, len: int)
    requires files != [] && ReadAll(files).Some?
    ensures ReadAll(files[..|files| - 1]).Some?
    ensures len in ReadAll(files).value <==>
      len in ReadAll(files[..|files| - 1]).value || NamesLength(files[|files| - 1], len)
  {
  }

  /** The lengths read are exactly those the report names decode to. */
  lemma {:induction false} ReadAllKeys(files: seq<File>, len: int)
    requires ReadAll(files).Some?
    ensures len in ReadAll(files).value <==> SomeNamesLength(files, len)
  {
    if files != [] {
      ReadAllKeyStep(files, len);
      ReadAllKeys(files[..|files| - 1], len);
      SomeNamesLengthSnoc(files, len);
    }
  }

  /** The sequences of a length are those of the last file of that length. */
  lemma {:induction false} LastFileWins(files: seq<File>, i: nat, len: int)
    requires ReadAll(files).Some? && i < |files| && NamesLength(files[i], len)
    requires forall j :: i < j < |files| ==> !NamesLength(files[j], len)
    ensures len in ReadAll(files).value
    ensures ReadAll(files).value[len] == ParseLines(ReadLines(files[i].1))
  {
    var init := files[..|files| - 1];
    ReadAllValueStep(files, len);
    if i < |files| - 1 {
      assert init[i] == files[i];
      LastFileWins(init, i, len);
    }
  }

  /** The last file sets the sequences of the length it names and leaves the
      other lengths as the files before it left them. */
  lemma ReadAllValueStep(files: seq<File>, len: int)
    requires files != [] && ReadAll(files).Some?
    ensures ReadAll(files[..|files| - 1]).Some?
    ensures var last := files[|files| - 1];
      NamesLength(last, len) ==>
        len in ReadAll(files).value && ReadAll(files).value[len] == ParseLines(ReadLines(last.1))
    ensures var before := ReadAll(files[..|files| - 1]).value;
      !NamesLength(files[|files| - 1], len) && len in before ==>
        len in ReadAll(files).value && ReadAll(files).value[len] == before[len]
  {
  }

  /** A report, written under its own name, reads back as its trimmed sequences. */
  lemma ReadWrittenReport(len: nat, rows: seq<Entry>, w: nat, c: nat)
    requires len <= MaxInt
    requires forall i :: 0 <= i < |rows| ==> ReportSafe(rows[i].sequence)
    ensures ReadAll([(ReportFileName(len), Unlines(ReportLines(rows, w, c)))])
      == Some(map[len as int := TrimmedSequences(rows)])
  {
    var name, content := ReportFileName(len), Unlines(ReportLines(rows, w, c));
    DecodeReportFileName(len);
    ReadBackReport(rows, w, c);
    ReadOneFile(name, content, len);
  }

  lemma ReadOneFile(name: string, content: string, len: int)
    requires IsReportName(name) && DecodeLength(name) == Some(len)
    ensures ReadAll([(name, content)]) == Some(map[len := ParseLines(ReadLines(content))])
  {
    assert [(name, content)][..0] == [];
  }

  // ---------------------------------------------------------------------------
  // Top sequences

  /** Every sequence of every report. */
  ghost function Union(reports: Reports): set<string> {
    set len, s | len in reports && s in reports[len] :: s
  }

  ghost function UnionOver(reports: Reports, lens: set<int>): set<string> {
    set len, s | len in lens && len in reports && s in reports[len] :: s
  }

  /** Every sequence of one report added to the set. */
  method AddAll(unique: set<string>, sequences: seq<string>) returns (result: set<string>)
    ensures result == unique + set s | s in sequences
  {
    result := unique;
    for k := 0 to |sequences|
      invariant result == unique + set j | 0 <= j < k :: sequences[j]
    {
      result := result + {sequences[k]};
    }
  }

  lemma UnionOverAdd(reports: Reports, lens: set<int>, len: int)
    requires len in reports
    ensures UnionOver(reports, lens + {len}) == UnionOver(reports, lens) + set s | s in reports[len]
  {
  }

  /** The members of a set, listed in some order. */
  method Elements<T>(xs: set<T>) returns (list: seq<T>)
    ensures Distinct(list) && |list| == |xs|
    ensures forall x :: x in list <==> x in xs
  {
    list := [];
    var pending := xs;
    while pending != {}
      invariant pending <= xs
      invariant Distinct(list) && |list| + |pending| == |xs|
      invariant forall x :: x in list <==> x in xs && x !in pending
      decreases pending
    {
      var x :| x in pending;
      list := list + [x];
      pending := pending - {x};
    }
  }

  /** The set `uniqueTopSequences`, filled report by report in the map's own order. */
  method CollectSequences(reports: Reports) returns (unique: set<string>)
    ensures unique == Union(reports)
  {
    var lens := Elements(reports.Keys);
    unique := {};
    for i := 0 to |lens|
      invariant unique == UnionOver(reports, set j | 0 <= j < i :: lens[j])
    {
      UnionOverAdd(reports, set j | 0 <= j < i :: lens[j], lens[i]);
      unique := AddAll(unique, reports[lens[i]]);
      assert (set j | 0 <= j < i + 1 :: lens[j]) == (set j | 0 <= j < i :: lens[j]) + {lens[i]};
    }
    assert (set j | 0 <= j < |lens| :: lens[j]) == reports.Keys;
  }

  function Min(a: int, b: int): int { if a < b then a else b }

  /** `uniqueTopSequences.sorted().take(10)`: the (at most) ten smallest
      sequences in string order, strictly increasing; any sequence left out is
      greater than every one selected. */
  method SelectTopSequences(reports: Reports) returns (top: seq<string>)
    ensures SortedBy(top, LexLess)
    ensures |top| == Min(10, |Union(reports)|)
    ensures forall k :: 0 <= k < |top| ==> top[k] in Union(reports)
    ensures forall s :: s in Union(reports) && s !in top ==>
      forall k :: 0 <= k < |top| ==> LexLess(top[k], s)
  {
    var unique := CollectSequences(reports);
    var list := Elements(unique);
    LexLessIsStrictOrder();
    SortSorted(list, LexLess);
    var sorted := Sort(list, LexLess);
    SameMultisetSameMembers(sorted, list);
    top := sorted[..Min(10, |sorted|)];
    PrefixPrecedesRest(sorted, |top|, LexLess);
  }

  lemma LexLessIsStrictOrder()
    ensures StrictOrder(LexLess)
  {
    forall a ensures !LexLess(a, a) { LexIrreflexive(a); }
    forall a, b, c | LexLess(a, b) && LexLess(b, c) ensures LexLess(a, c) {
      LexTransitive(a, b, c);
    }
    forall a, b | a != b ensures LexLess(a, b) || LexLess(b, a) { LexConnected(a, b); }
  }

  const TopHeader: string := "Top Sequences:"

  /** One item of the top-sequence file. */
  function ItemLine(sequence: string): string {
    "  - " + sequence
  }

  /** The lines of the top-sequence file. */
  function TopLines(top: seq<string>): seq<string> {
    [TopHeader] + MapSeq(top, ItemLine)
  }

  /** `writeTopSequencesToFile`: the header, then one item per selected sequence. */
  method WriteTopSequences(reports: Reports) returns (top: seq<string>, text: string)
    ensures SortedBy(top, LexLess)
    ensures |top| == Min(10, |Union(reports)|)
    ensures forall k :: 0 <= k < |top| ==> top[k] in Union(reports)
    ensures forall s :: s in Union(reports) && s !in top ==>
      forall k :: 0 <= k < |top| ==> LexLess(top[k], s)
    ensures text == Unlines(TopLines(top))
  {
    top := SelectTopSequences(reports);
    text := WriteItems(top);
  }

  /** The writes of the header and the items, in order. */
  method WriteItems(top: seq<string>) returns (text: string)
    ensures text == Unlines(TopLines(top))
  {
    ghost var head := TopHeader + "\n";
    text := TopHeader + "\n";
    assert text == head + Unlines(MapSeq(top[..0], ItemLine));
    for k := 0 to |top|
      invariant text == head + Unlines(MapSeq(top[..k], ItemLine))
    {
      ItemStep(top, k);
      AppendLine(head, Unlines(MapSeq(top[..k], ItemLine)), ItemLine(top[k]));
      text := text + (ItemLine(top[k]) + "\n");
      assert text == head + Unlines(MapSeq(top[..k], ItemLine)) + ItemLine(top[k]) + "\n";
    }
    assert top[..|top|] == top;
    assert TopLines(top)[1..] == MapSeq(top, ItemLine);
  }

  lemma ItemStep(top: seq<string>, k: nat)
    requires k < |top|
    ensures Unlines(MapSeq(top[..k + 1], ItemLine)) == Unlines(MapSeq(top[..k], ItemLine)) + ItemLine(top[k]) + "\n"
  {
    MapSeqSnoc(top, k, ItemLine);
    UnlinesAppend(MapSeq(top[..k], ItemLine), ItemLine(top[k]));
  }

  /** The sequences read from report files never hold a line break. */
  lemma {:induction false} ReadAllNoLineBreak(files: seq<File>)
    requires ReadAll(files).Some?
    ensures forall s :: s in Union(ReadAll(files).value) ==> NoLineBreak(s)
  {
    if files != [] {
      var init := files[..|files| - 1];
      ReadAllNoLineBreak(init);
      var content := files[|files| - 1].1;
      ParsedHaveNoLineBreak(ReadLines(content));
    }
  }

  lemma TopLinesNoLineBreak(top: seq<string>)
    requires forall k :: 0 <= k < |top| ==> NoLineBreak(top[k])
    ensures forall k :: 0 <= k < |TopLines(top)| ==> NoLineBreak(TopLines(top)[k])
  {
    var lines := TopLines(top);
    forall k | 0 <= k < |lines| ensures NoLineBreak(lines[k]) {
      if k > 0 {
        var s := top[k - 1];
        assert lines[k] == ItemLine(s);
        forall j | 0 <= j < |lines[k]| ensures !IsLineBreak(lines[k][j]) {
          if j >= 4 { assert lines[k][j] == s[j - 4]; }
        }
      }
    }
  }

  /** The top-sequence file of reports read from files reads back as its
      header and one item line per selected sequence. */
  lemma TopFileReadsBack(files: seq<File>, top: seq<string>)
    requires ReadAll(files).Some?
    requires forall k :: 0 <= k < |top| ==> top[k] in Union(ReadAll(files).value)
    ensures ReadLines(Unlines(TopLines(top))) == TopLines(top)
    ensures |TopLines(top)| == |top| + 1
  {
    ReadAllNoLineBreak(files);
    TopLinesNoLineBreak(top);
    ReadUnlines(TopLines(top));
  }
}
