/** The sequence enumerator and counter `extractWordSequences`
    (src/main/kotlin/Main.kt:61-79): every window of consecutive tokens, joined
    with single spaces and lower-cased, is counted in the bucket of its length. */
module Counter {
  import opened Text
  import opened Tokenizer

  /** Length bucket -> sequence -> number of occurrences. */
  type Table = map<nat, map<string, nat>>

  /** `joinToString(" ")`. */
  function JoinSpace(words: seq<string>): string {
    if |words| == 0 then []
    else if |words| == 1 then words[0]
    else words[0] + " " + JoinSpace(words[1..])
  }

  /** The key under which the window of `len` tokens from `start` is counted. */
  function Window(words: seq<string>, start: nat, len: nat): string
    requires start + len <= |words|
  {
    Lower(JoinSpace(words[start..start + len]))
  }

  /** The window of `len` tokens at `start` exists and is counted under s. */
  predicate CountedAt(words: seq<string>, start: nat, len: nat, s: string) {
    start + len <= |words| && !IsBlank(s) && Window(words, start, len) == s
  }

  /** How many starts below k hold a window of `len` tokens counted under s. */
  function Occurrences(words: seq<string>, len: nat, s: string, k: nat): nat {
    if k == 0 then 0
    else Occurrences(words, len, s, k - 1) + (if CountedAt(words, k - 1, len, s) then 1 else 0)
  }

  /** How many starts below k hold a window of `len` tokens that is not blank. */
  function NonBlankWindows(words: seq<string>, len: nat, k: nat): nat {
    if k == 0 then 0
    else
      var here := k - 1 + len <= |words| && !IsBlank(Window(words, k - 1, len));
      NonBlankWindows(words, len, k - 1) + (if here then 1 else 0)
  }

  /** The count of s in bucket len, 0 when absent (`getOrDefault`). */
  function Get(table: Table, len: nat, s: string): nat {
    if len in table && s in table[len] then table[len][s] else 0
  }

  /** The sum of the counts of a bucket. */
  ghost function Total(m: map<string, nat>): nat
    decreases |m|
  {
    if m == map[] then 0
    else
      var k :| k in m;
      assert |m - {k}| < |m| by { assert m.Keys - {k} < m.Keys; }
      m[k] + Total(m - {k})
  }

  lemma {:induction false} TotalRemove(m: map<string, nat>, k: string)
    requires k in m
    ensures Total(m) == m[k] + Total(m - {k})
    decreases |m|
  {
    var j :| j in m && Total(m) == m[j] + Total(m - {j});
    if j != k {
      assert |m - {j}| < |m| by { assert m.Keys - {j} < m.Keys; }
      assert |m - {k}| < |m| by { assert m.Keys - {k} < m.Keys; }
      TotalRemove(m - {j}, k);
      TotalRemove(m - {k}, j);
      assert m - {j} - {k} == m - {k} - {j};
    }
  }

  /** Adding one occurrence of k to a bucket adds one to its total. */
  lemma TotalIncrement(m: map<string, nat>, k: string)
    ensures Total(m[k := (if k in m then m[k] else 0) + 1]) == Total(m) + 1
  {
    var m' := m[k := (if k in m then m[k] else 0) + 1];
    TotalRemove(m', k);
    assert m' - {k} == m - {k};
    if k in m {
      TotalRemove(m, k);
    } else {
      assert m - {k} == m;
    }
  }

  /** The table holds exactly the windows whose start is below i, together with
      those at i shorter than len; no count is 0 and no bucket is empty. */
  ghost predicate CountedUpTo(words: seq<string>, table: Table, i: nat, len: nat) {
    && CountsMatch(words, table, i, len)
    && (forall l, s :: l in table && s in table[l] ==> table[l][s] >= 1)
    && BucketsMatch(words, table, i, len)
  }

  ghost predicate CountsMatch(words: seq<string>, table: Table, i: nat, len: nat) {
    forall l, s :: 1 <= l ==> Get(table, l, s) == Occurrences(words, l, s, if l < len then i + 1 else i)
  }

  ghost predicate BucketsMatch(words: seq<string>, table: Table, i: nat, len: nat) {
    && (forall l :: l in table ==> 1 <= l <= |words| && table[l] != map[])
    && (forall l :: 1 <= l ==> BucketTotal(table, l) == NonBlankWindows(words, l, if l < len then i + 1 else i))
  }

  /** The sum of the counts in bucket len, 0 when there is no such bucket. */
  ghost function BucketTotal(table: Table, len: nat): nat {
    if len in table then Total(table[len]) else 0
  }

  /** One more occurrence of s in bucket len, the bucket made if missing. */
  function Bump(table: Table, len: nat, s: string): (r: Table)
    ensures Get(r, len, s) == Get(table, len, s) + 1
    ensures forall l: nat, t :: (l, t) != (len, s) ==> Get(r, l, t) == Get(table, l, t)
    ensures r.Keys == table.Keys + {len}
    ensures r[len].Keys == (if len in table then table[len].Keys else {}) + {s}
  {
    var bucket := if len in table then table[len] else map[];
    table[len := bucket[s := (if s in bucket then bucket[s] else 0) + 1]]
  }

  lemma CountsStep(words: seq<string>, table: Table, i: nat, len: nat, table': Table)
    requires 1 <= len && i + len <= |words|
    requires CountsMatch(words, table, i, len)
    requires var w := Window(words, i, len);
      table' == if IsBlank(w) then table else Bump(table, len, w)
    ensures CountsMatch(words, table', i, len + 1)
  {
    var w := Window(words, i, len);
    forall l, s | 1 <= l
      ensures Get(table', l, s) == Occurrences(words, l, s, if l < len + 1 then i + 1 else i)
    {
      if l == len {
        assert CountedAt(words, i, len, s) <==> s == w && !IsBlank(s);
        assert Get(table, l, s) == Occurrences(words, l, s, i);
      } else {
        assert Get(table, l, s) == Occurrences(words, l, s, if l < len then i + 1 else i);
      }
    }
  }

  lemma BucketsStep(words: seq<string>, table: Table, i: nat, len: nat, table': Table)
    requires 1 <= len && i + len <= |words|
    requires BucketsMatch(words, table, i, len)
    requires var w := Window(words, i, len);
      table' == if IsBlank(w) then table else Bump(table, len, w)
    ensures BucketsMatch(words, table', i, len + 1)
  {
    var w := Window(words, i, len);
    if IsBlank(w) {
      assert NonBlankWindows(words, len, i + 1) == NonBlankWindows(words, len, i);
      SkippedBuckets(words, table, i, len);
    } else {
      assert NonBlankWindows(words, len, i + 1) == NonBlankWindows(words, len, i) + 1;
      BumpTotals(table, len, w);
      BumpBuckets(words, table, len, w);
    }
  }

  /** A window that is not counted leaves every total where it was. */
  lemma SkippedBuckets(words: seq<string>, table: Table, i: nat, len: nat)
    requires 1 <= len && i + len <= |words|
    requires BucketsMatch(words, table, i, len)
    requires NonBlankWindows(words, len, i + 1) == NonBlankWindows(words, len, i)
    ensures BucketsMatch(words, table, i, len + 1)
  {
    forall l | 1 <= l
      ensures BucketTotal(table, l) == NonBlankWindows(words, l, if l < len + 1 then i + 1 else i)
    {
      if l == len {
        assert BucketTotal(table, l) == NonBlankWindows(words, l, i);
      } else {
        assert BucketTotal(table, l) == NonBlankWindows(words, l, if l < len then i + 1 else i);
      }
    }
  }

  /** Bump adds one to the total of its bucket and leaves the other totals. */
  lemma BumpTotals(table: Table, len: nat, s: string)
    ensures BucketTotal(Bump(table, len, s), len) == BucketTotal(table, len) + 1
    ensures forall l :: l != len ==> BucketTotal(Bump(table, len, s), l) == BucketTotal(table, l)
  {
    BumpTotal(table, len, s);
    var table' := Bump(table, len, s);
    forall l | l != len ensures BucketTotal(table', l) == BucketTotal(table, l) {
      assert (l in table' <==> l in table) && (l in table ==> table'[l] == table[l]);
    }
  }

  /** Bump keeps every bucket within 1..|words| and non-empty. */
  lemma BumpBuckets(words: seq<string>, table: Table, len: nat, s: string)
    requires 1 <= len <= |words|
    requires forall l :: l in table ==> 1 <= l <= |words| && table[l] != map[]
    ensures var table' := Bump(table, len, s);
      forall l :: l in table' ==> 1 <= l <= |words| && table'[l] != map[]
  {
    var table' := Bump(table, len, s);
    forall l | l in table' ensures 1 <= l <= |words| && table'[l] != map[] {
      if l == len {
        assert s in table'[l];
      } else {
        assert table'[l] == table[l];
      }
    }
  }

  /** Counting one window keeps every count positive. */
  lemma PositiveStep(words: seq<string>, table: Table, i: nat, len: nat, table': Table)
    requires i + len <= |words|
    requires forall l, s :: l in table && s in table[l] ==> table[l][s] >= 1
    requires var w := Window(words, i, len);
      table' == if IsBlank(w) then table else Bump(table, len, w)
    ensures forall l, s :: l in table' && s in table'[l] ==> table'[l][s] >= 1
  {
  }

  /** Counting the window of len tokens at i moves the table one step on. */
  lemma CountedStep(words: seq<string>, table: Table, i: nat, len: nat, table': Table)
    requires 1 <= len && i + len <= |words|
    requires CountedUpTo(words, table, i, len)
    requires var w := Window(words, i, len);
      table' == if IsBlank(w) then table else Bump(table, len, w)
    ensures CountedUpTo(words, table', i, len + 1)
  {
    CountsStep(words, table, i, len, table');
    BucketsStep(words, table, i, len, table');
    PositiveStep(words, table, i, len, table');
  }

  /** Bump adds one to the total of the bucket it touches and leaves the others. */
  lemma BumpTotal(table: Table, len: nat, s: string)
    ensures BucketTotal(Bump(table, len, s), len) == BucketTotal(table, len) + 1
  {
    var bucket := if len in table then table[len] else map[];
    TotalIncrement(bucket, s);
    if len !in table {
      assert Total(map[]) == 0;
    }
  }

  /** Once every window at i is counted, the table is the one for the windows before i + 1. */
  lemma RowDone(words: seq<string>, table: Table, i: nat)
    requires i < |words|
    requires CountedUpTo(words, table, i, |words| - i + 1)
    ensures CountedUpTo(words, table, i + 1, 1)
  {
    NothingBeyondEnd(words, i);
  }

  /** A window longer than what is left after i is never there. */
  lemma NothingBeyondEnd(words: seq<string>, i: nat)
    ensures forall l, s :: i + l > |words| ==> Occurrences(words, l, s, i + 1) == Occurrences(words, l, s, i)
    ensures forall l :: i + l > |words| ==> NonBlankWindows(words, l, i + 1) == NonBlankWindows(words, l, i)
  {
  }

  method ExtractWordSequences(text: string) returns (table: Table)
    ensures var words := Tokenize(text);
      forall len, s :: 1 <= len ==> Get(table, len, s) == Occurrences(words, len, s, |words|)
    ensures forall len, s :: len in table && s in table[len] ==> table[len][s] >= 1
    ensures forall len :: len in table ==> 1 <= len <= |Tokenize(text)| && table[len] != map[]
    ensures var words := Tokenize(text);
      forall len :: 1 <= len ==> BucketTotal(table, len) == NonBlankWindows(words, len, |words|)
  {
    var words := Tokenize(text);
    var n := |words|;
    table := map[];
    for i := 0 to n
      invariant CountedUpTo(words, table, i, 1)
    {
      for len := 1 to n - i + 1
        invariant CountedUpTo(words, table, i, len)
      {
        ghost var before := table;
        var sequence := Lower(JoinSpace(words[i..i + len]));
        assert sequence == Window(words, i, len);
        if !IsBlank(sequence) {
          table := Bump(table, len, sequence);
        }
        CountedStep(words, before, i, len, table);
      }
      RowDone(words, table, i);
    }
    CountedAll(words, table);
  }

  /** Once every window of every start is counted, the table holds the counts
      and totals of the whole text. */
  lemma CountedAll(words: seq<string>, table: Table)
    requires CountedUpTo(words, table, |words|, 1)
    ensures forall len, s :: 1 <= len ==> Get(table, len, s) == Occurrences(words, len, s, |words|)
    ensures forall len, s :: len in table && s in table[len] ==> table[len][s] >= 1
    ensures forall len :: len in table ==> 1 <= len <= |words| && table[len] != map[]
    ensures forall len :: 1 <= len ==> BucketTotal(table, len) == NonBlankWindows(words, len, |words|)
  {
  }

  // ---------------------------------------------------------------------------
  // What the table holds

  /** No count exceeds the number of non-blank windows of its length. */
  lemma {:induction false} OccurrencesAtMostWindows(words: seq<string>, len: nat, s: string, k: nat)
    ensures Occurrences(words, len, s, k) <= NonBlankWindows(words, len, k)
  {
    if k > 0 {
      OccurrencesAtMostWindows(words, len, s, k - 1);
    }
  }

  /** Bucket len holds at most |words| - len + 1 occurrences in all: one per start. */
  lemma {:induction false} WindowsAtMostStarts(words: seq<string>, len: nat, k: nat)
    requires 1 <= len <= |words|
    ensures NonBlankWindows(words, len, k) <= |words| - len + 1
    ensures NonBlankWindows(words, len, k) <= k
  {
    if k > 0 {
      WindowsAtMostStarts(words, len, k - 1);
    }
  }

  /** How many of the first k tokens lower-case to s. */
  function TokenCount(words: seq<string>, s: string, k: nat): nat
    requires k <= |words|
  {
    if k == 0 then 0
    else TokenCount(words, s, k - 1) + (if Lower(words[k - 1]) == s then 1 else 0)
  }

  /** Bucket 1 counts each non-blank lower-cased token once per occurrence. */
  lemma {:induction false} BucketOneCountsTokens(words: seq<string>, s: string, k: nat)
    requires k <= |words| && !IsBlank(s)
    ensures Occurrences(words, 1, s, k) == TokenCount(words, s, k)
  {
    if k > 0 {
      BucketOneCountsTokens(words, s, k - 1);
      assert words[k - 1..k] == [words[k - 1]];
      assert Window(words, k - 1, 1) == Lower(words[k - 1]);
    }
  }

  lemma {:induction false} JoinBlank(words: seq<string>)
    ensures IsBlank(JoinSpace(words)) <==> forall j :: 0 <= j < |words| ==> IsBlank(words[j])
  {
    if |words| > 1 {
      var tail := words[1..];
      JoinBlank(tail);
      SpacedBlank(words[0], JoinSpace(tail));
      assert forall j :: 1 <= j < |words| ==> words[j] == tail[j - 1];
    }
  }

  /** Two parts joined by a space are blank exactly when both are. */
  lemma SpacedBlank(a: string, b: string)
    ensures IsBlank(a + " " + b) <==> IsBlank(a) && IsBlank(b)
  {
    var joined := a + " " + b;
    assert forall c :: 0 <= c < |a| ==> joined[c] == a[c];
    assert forall c :: 0 <= c < |b| ==> joined[|a| + 1 + c] == b[c];
    if IsBlank(joined) {
      assert IsBlank(a);
      assert IsBlank(b);
    }
  }

  /** A window is skipped exactly when every token in it is blank: an empty
      token inside a window does not stop it being counted. */
  lemma WindowSkippedIffAllBlank(words: seq<string>, start: nat, len: nat)
    requires start + len <= |words|
    ensures IsBlank(Window(words, start, len)) <==> forall j :: start <= j < start + len ==> IsBlank(words[j])
  {
    var w := words[start..start + len];
    LowerIsBlank(JoinSpace(w));
    JoinBlank(w);
    assert forall j :: start <= j < start + len ==> words[j] == w[j - start];
  }

  /** ["a", ""]: the window of both tokens is counted under "a " in bucket 2. */
  lemma TrailingEmptyToken()
    ensures Occurrences(["a", ""], 2, "a ", 2) == 1
  {
    var words := ["a", ""];
    assert words[0..2] == words;
    assert Window(words, 0, 2) == "a ";
    assert !CountedAt(words, 1, 2, "a ");
  }

  /** The only separator character a key can hold is the joining space. */
  predicate SpaceJoined(s: string) {
    forall c :: 0 <= c < |s| ==> s[c] == ' ' || !IsSeparator(s[c])
  }

  lemma {:induction false} JoinSpaceJoined(words: seq<string>)
    requires forall j :: 0 <= j < |words| ==> NoSeparator(words[j])
    ensures SpaceJoined(JoinSpace(words))
  {
    if |words| > 1 {
      JoinSpaceJoined(words[1..]);
      var rest := JoinSpace(words[1..]);
      var joined := words[0] + " " + rest;
      assert forall c :: 0 <= c < |words[0]| ==> joined[c] == words[0][c];
      assert forall c :: 0 <= c < |rest| ==> joined[|words[0]| + 1 + c] == rest[c];
    } else if |words| == 1 {
      assert JoinSpace(words) == words[0];
    }
  }

  lemma {:induction false} OccurrenceHasStart(words: seq<string>, len: nat, s: string, k: nat)
    requires Occurrences(words, len, s, k) > 0
    ensures exists j :: 0 <= j < k && CountedAt(words, j, len, s)
  {
    if !CountedAt(words, k - 1, len, s) {
      OccurrenceHasStart(words, len, s, k - 1);
    }
  }

  /** Every sequence counted from a text holds no separator character other
      than the joining space: no comma, dash, slash or line break. */
  lemma CountedKeysSpaceJoined(text: string, len: nat, s: string)
    requires Occurrences(Tokenize(text), len, s, |Tokenize(text)|) > 0
    ensures SpaceJoined(s)
  {
    var words := Tokenize(text);
    OccurrenceHasStart(words, len, s, |words|);
    var j :| 0 <= j < |words| && CountedAt(words, j, len, s);
    var w := words[j..j + len];
    assert forall t :: 0 <= t < |w| ==> w[t] == words[j + t];
    JoinSpaceJoined(w);
    var joined := JoinSpace(w);
    forall c | 0 <= c < |s| ensures s[c] == ' ' || !IsSeparator(s[c]) {
      assert s[c] == LowerChar(joined[c]);
    }
  }
}
