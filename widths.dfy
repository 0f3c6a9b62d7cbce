/** Column widths for the reports, `calculateMaxLengths`
    (src/main/kotlin/Main.kt:87-99): the longest sequence and the longest
    count, in characters, over every bucket of the table. */
module Widths {
  import opened Text
  import opened Counter

  /** Every sequence of the table fits in w columns and every count in c. */
  predicate Fits(table: Table, w: nat, c: nat) {
    forall len, s :: len in table && s in table[len] ==> |s| <= w && |Decimal(table[len][s])| <= c
  }

  predicate HasEntries(table: Table) {
    exists len, s :: len in table && s in table[len]
  }

  /** w and c are 0 or reached by the recorded entries keyAt and countAt. */
  ghost predicate Reached(table: Table, w: nat, c: nat, keyAt: (nat, string), countAt: (nat, string)) {
    && (w > 0 ==> keyAt.0 in table && keyAt.1 in table[keyAt.0] && |keyAt.1| == w)
    && (c > 0 ==> countAt.0 in table && countAt.1 in table[countAt.0] &&
                  |Decimal(table[countAt.0][countAt.1])| == c)
  }

  /** Both widths are the maxima over all buckets: large enough for every entry
      and reached by some entry; (0, 0) when the table holds no entry. */
  method CalculateMaxLengths(table: Table) returns (maxSequenceLength: nat, maxCountLength: nat)
    ensures Fits(table, maxSequenceLength, maxCountLength)
    ensures !HasEntries(table) ==> maxSequenceLength == 0 && maxCountLength == 0
    ensures HasEntries(table) ==>
      exists len, s :: len in table && s in table[len] && |s| == maxSequenceLength
    ensures HasEntries(table) ==>
      exists len, s :: len in table && s in table[len] && |Decimal(table[len][s])| == maxCountLength
  {
    maxSequenceLength, maxCountLength := 0, 0;
    // The entries reaching the two maxima so far.
    ghost var keyAt: (nat, string) := (0, "");
    ghost var countAt: (nat, string) := (0, "");
    var buckets := table.Keys;
    while buckets != {}
      invariant buckets <= table.Keys
      invariant forall len, s :: len in table && len !in buckets && s in table[len] ==>
        |s| <= maxSequenceLength && |Decimal(table[len][s])| <= maxCountLength
      invariant Reached(table, maxSequenceLength, maxCountLength, keyAt, countAt)
      decreases buckets
    {
      var len :| len in buckets;
      maxSequenceLength, maxCountLength, keyAt, countAt :=
        WidenOverBucket(table, len, maxSequenceLength, maxCountLength, keyAt, countAt);
      buckets := buckets - {len};
    }
    if HasEntries(table) {
      var len, s :| len in table && s in table[len];
      assert |Decimal(table[len][s])| >= 1;
      if maxSequenceLength == 0 {
        assert |s| == 0;
      } else {
        assert keyAt.0 in table && keyAt.1 in table[keyAt.0];
      }
      assert countAt.0 in table && countAt.1 in table[countAt.0];
    }
  }

  /** The inner loop of `calculateMaxLengths`: both widths widened over one bucket. */
  method WidenOverBucket(table: Table, len: nat, w0: nat, c0: nat,
                         ghost keyAt0: (nat, string), ghost countAt0: (nat, string))
    returns (maxSequenceLength: nat, maxCountLength: nat, ghost keyAt: (nat, string), ghost countAt: (nat, string))
    requires len in table
    requires Reached(table, w0, c0, keyAt0, countAt0)
    ensures w0 <= maxSequenceLength && c0 <= maxCountLength
    ensures forall s :: s in table[len] ==>
      |s| <= maxSequenceLength && |Decimal(table[len][s])| <= maxCountLength
    ensures Reached(table, maxSequenceLength, maxCountLength, keyAt, countAt)
  {
    maxSequenceLength, maxCountLength, keyAt, countAt := w0, c0, keyAt0, countAt0;
    var sequences := table[len];
    var pending := sequences.Keys;
    while pending != {}
      invariant pending <= sequences.Keys
      invariant w0 <= maxSequenceLength && c0 <= maxCountLength
      invariant forall s :: s in sequences && s !in pending ==>
        |s| <= maxSequenceLength && |Decimal(sequences[s])| <= maxCountLength
      invariant Reached(table, maxSequenceLength, maxCountLength, keyAt, countAt)
      decreases pending
    {
      var sequence :| sequence in pending;
      var count := sequences[sequence];
      if |sequence| > maxSequenceLength {
        keyAt := (len, sequence);
      }
      if |Decimal(count)| > maxCountLength {
        countAt := (len, sequence);
      }
      maxSequenceLength := Max(maxSequenceLength, |sequence|);
      maxCountLength := Max(maxCountLength, |Decimal(count)|);
      pending := pending - {sequence};
    }
  }
}
