/** The tokenizer of `extractWordSequences`: `inputText.split(Regex("\\s+|\\-|/|\\t|,"))`
    (src/main/kotlin/Main.kt:65). */
module Tokenizer {
  import opened Text

  /** A character at which the pattern `\s+|\-|/|\t|,` matches. The `\t`
      alternative is never reached, as `\s+` already takes tabs. */
  predicate IsSeparator(c: char) {
    IsRegexSpace(c) || c == '-' || c == '/' || c == ','
  }

  predicate NoSeparator(s: string) {
    forall i :: 0 <= i < |s| ==> !IsSeparator(s[i])
  }

  /** What a greedy `\s+` leaves after its first character: the input with its
      leading run of `\s` characters removed. */
  function SkipSpaces(s: string): (r: string)
    ensures |r| <= |s| && r == s[|s| - |r|..]
    ensures r == [] || !IsRegexSpace(r[0])
    ensures forall i :: 0 <= i < |s| - |r| ==> IsRegexSpace(s[i])
  {
    if s != [] && IsRegexSpace(s[0]) then SkipSpaces(s[1..]) else s
  }

  /** Splitting the rest `s` of the text, `cur` being the token read so far.
      A whitespace run is one match; every `-`, `/` and `,` is a match of its
      own, so adjacent ones leave an empty token between them. As in Kotlin's
      `split`, empty tokens at either end are kept. */
  function SplitFrom(s: string, cur: string): (r: seq<string>)
    requires NoSeparator(cur)
    ensures |r| >= 1
    ensures forall k :: 0 <= k < |r| ==> NoSeparator(r[k])
    decreases |s|
  {
    if s == [] then [cur]
    else if IsRegexSpace(s[0]) then [cur] + SplitFrom(SkipSpaces(s[1..]), [])
    else if s[0] == '-' || s[0] == '/' || s[0] == ',' then [cur] + SplitFrom(s[1..], [])
    else SplitFrom(s[1..], cur + [s[0]])
  }

  /** The token list: never empty, and no token holds a separator character. */
  function Tokenize(text: string): (words: seq<string>)
    ensures |words| >= 1
    ensures forall k :: 0 <= k < |words| ==> NoSeparator(words[k])
  {
    SplitFrom(text, [])
  }

  /** The tokens written one after another. */
  function Concat(words: seq<string>): string {
    if words == [] then [] else words[0] + Concat(words[1..])
  }

  /** The text with every separator character deleted. */
  function RemoveSeparators(s: string): (r: string)
    ensures NoSeparator(r)
  {
    if s == [] then []
    else if IsSeparator(s[0]) then RemoveSeparators(s[1..])
    else [s[0]] + RemoveSeparators(s[1..])
  }

  lemma {:induction false} RemoveAfterSkip(s: string)
    ensures RemoveSeparators(SkipSpaces(s)) == RemoveSeparators(s)
  {
    if s != [] && IsRegexSpace(s[0]) {
      RemoveAfterSkip(s[1..]);
    }
  }

  lemma ConcatCons(word: string, words: seq<string>)
    ensures Concat([word] + words) == word + Concat(words)
  {
    assert ([word] + words)[1..] == words;
  }

  lemma {:induction false} SplitFromConcat(s: string, cur: string)
    requires NoSeparator(cur)
    ensures Concat(SplitFrom(s, cur)) == cur + RemoveSeparators(s)
    decreases |s|
  {
    if s == [] {
      assert Concat([cur]) == cur + Concat([]);
    } else if IsRegexSpace(s[0]) {
      var rest := SkipSpaces(s[1..]);
      SplitFromConcat(rest, []);
      RemoveAfterSkip(s[1..]);
      ConcatCons(cur, SplitFrom(rest, []));
      assert [] + RemoveSeparators(rest) == RemoveSeparators(rest);
    } else if s[0] == '-' || s[0] == '/' || s[0] == ',' {
      SplitFromConcat(s[1..], []);
      ConcatCons(cur, SplitFrom(s[1..], []));
      assert [] + RemoveSeparators(s[1..]) == RemoveSeparators(s[1..]);
    } else {
      SplitFromConcat(s[1..], cur + [s[0]]);
      AppendAssoc(cur, [s[0]], RemoveSeparators(s[1..]));
    }
  }

  /** No character is lost but the separators: the tokens, written one after
      another, are the text with its separator characters deleted. */
  lemma TokensCoverText(text: string)
    ensures Concat(Tokenize(text)) == RemoveSeparators(text)
  {
    SplitFromConcat(text, []);
  }

  lemma {:induction false} SplitFromPlain(s: string, cur: string)
    requires NoSeparator(cur) && NoSeparator(s)
    ensures SplitFrom(s, cur) == [cur + s]
    decreases |s|
  {
    if s != [] {
      assert !IsSeparator(s[0]);
      assert NoSeparator(s[1..]) by { assert forall i :: 0 <= i < |s| - 1 ==> s[1..][i] == s[i + 1]; }
      assert NoSeparator(cur + [s[0]]) by {
        assert forall i :: 0 <= i < |cur| ==> (cur + [s[0]])[i] == cur[i];
      }
      SplitFromPlain(s[1..], cur + [s[0]]);
      assert cur + [s[0]] + s[1..] == cur + s;
    } else {
      assert cur + s == cur;
    }
  }

  /** A text without separators is a single token. */
  lemma PlainTextIsOneToken(text: string)
    requires NoSeparator(text)
    ensures Tokenize(text) == [text]
  {
    SplitFromPlain(text, []);
    assert [] + text == text;
  }

  // ---------------------------------------------------------------------------
  // Where the text is cut

  /** A character that is a match of its own: `-`, `/` or `,`. */
  predicate IsSymbolSeparator(c: char) {
    c == '-' || c == '/' || c == ','
  }

  /** A non-empty run of `\s` characters. */
  predicate IsSpaceRun(run: string) {
    run != [] && forall i :: 0 <= i < |run| ==> IsRegexSpace(run[i])
  }

  /** The words written one after another with sep between each two. */
  function JoinOn(ws: seq<string>, sep: string): string {
    if |ws| == 0 then []
    else if |ws| == 1 then ws[0]
    else ws[0] + sep + JoinOn(ws[1..], sep)
  }

  lemma NoSeparatorAppend(a: string, b: string)
    requires NoSeparator(a) && NoSeparator(b)
    ensures NoSeparator(a + b)
  {
    forall i | 0 <= i < |a + b| ensures !IsSeparator((a + b)[i]) {
      if i >= |a| { assert (a + b)[i] == b[i - |a|]; }
    }
  }

  lemma NoSeparatorTail(w: string)
    requires w != [] && NoSeparator(w)
    ensures NoSeparator(w[1..]) && !IsSeparator(w[0])
  {
    forall i | 0 <= i < |w| - 1 ensures !IsSeparator(w[1..][i]) {
      assert w[1..][i] == w[i + 1];
    }
  }

  /** A character that is no separator joins the token being read. */
  lemma PlainStep(t: string, cur: string)
    requires NoSeparator(cur) && t != [] && !IsSeparator(t[0])
    ensures NoSeparator(cur + [t[0]])
    ensures SplitFrom(t, cur) == SplitFrom(t[1..], cur + [t[0]])
  {
    NoSeparatorAppend(cur, [t[0]]);
  }

  /** Text without separators only extends the token being read. */
  lemma {:induction false} PlainChunk(w: string, b: string, cur: string)
    requires NoSeparator(cur) && NoSeparator(w)
    ensures NoSeparator(cur + w)
    ensures SplitFrom(w + b, cur) == SplitFrom(b, cur + w)
    decreases |w|
  {
    NoSeparatorAppend(cur, w);
    if w == [] {
      assert w + b == b && cur + w == cur;
    } else {
      NoSeparatorTail(w);
      var t := w + b;
      assert t[0] == w[0] && t[1..] == w[1..] + b;
      PlainStep(t, cur);
      PlainChunk(w[1..], b, cur + [w[0]]);
      AppendAssoc(cur, [w[0]], w[1..]);
      assert [w[0]] + w[1..] == w;
    }
  }

  /** Each `-`, `/` or `,` ends the token being read, even an empty one. */
  lemma SymbolCut(c: char, b: string, cur: string)
    requires NoSeparator(cur) && IsSymbolSeparator(c)
    ensures SplitFrom([c] + b, cur) == [cur] + SplitFrom(b, [])
  {
    assert ([c] + b)[0] == c && ([c] + b)[1..] == b;
  }

  lemma {:induction false} SkipRun(run: string, b: string)
    requires forall i :: 0 <= i < |run| ==> IsRegexSpace(run[i])
    requires b == [] || !IsRegexSpace(b[0])
    ensures SkipSpaces(run + b) == b
    decreases |run|
  {
    if run == [] {
      assert run + b == b;
    } else {
      assert (run + b)[0] == run[0] && (run + b)[1..] == run[1..] + b;
      SkipRun(run[1..], b);
    }
  }

  /** A whole run of `\s` characters is one cut, however long it is. */
  lemma SpaceRunCut(run: string, b: string, cur: string)
    requires NoSeparator(cur) && IsSpaceRun(run)
    requires b == [] || !IsRegexSpace(b[0])
    ensures SplitFrom(run + b, cur) == [cur] + SplitFrom(b, [])
  {
    assert (run + b)[0] == run[0] && (run + b)[1..] == run[1..] + b;
    SkipRun(run[1..], b);
  }

  /** Words joined by one `-`, `/` or `,` each split back into exactly those
      words, the empty ones included. */
  lemma {:induction false} SymbolJoin(ws: seq<string>, c: char)
    requires ws != [] && IsSymbolSeparator(c)
    requires forall k :: 0 <= k < |ws| ==> NoSeparator(ws[k])
    ensures Tokenize(JoinOn(ws, [c])) == ws
    decreases |ws|
  {
    if |ws| == 1 {
      PlainTextIsOneToken(ws[0]);
    } else {
      var rest := JoinOn(ws[1..], [c]);
      AppendAssoc(ws[0], [c], rest);
      PlainChunk(ws[0], [c] + rest, []);
      assert [] + ws[0] == ws[0];
      SymbolCut(c, rest, ws[0]);
      SymbolJoin(ws[1..], c);
      assert [ws[0]] + ws[1..] == ws;
    }
  }

  /** Words joined by a run of `\s` characters split back into those words,
      provided no empty word lies between two runs (two adjacent runs would
      be one cut). */
  lemma {:induction false} SpaceJoin(ws: seq<string>, run: string)
    requires ws != [] && IsSpaceRun(run)
    requires forall k :: 0 <= k < |ws| ==> NoSeparator(ws[k])
    requires forall k :: 0 < k < |ws| - 1 ==> ws[k] != []
    ensures Tokenize(JoinOn(ws, run)) == ws
    decreases |ws|
  {
    if |ws| == 1 {
      PlainTextIsOneToken(ws[0]);
    } else {
      var rest := JoinOn(ws[1..], run);
      assert rest == [] || !IsRegexSpace(rest[0]) by {
        if |ws| > 2 {
          assert ws[1] != [] && !IsSeparator(ws[1][0]);
          assert rest == ws[1] + run + JoinOn(ws[2..], run);
        }
      }
      AppendAssoc(ws[0], run, rest);
      PlainChunk(ws[0], run + rest, []);
      assert [] + ws[0] == ws[0];
      SpaceRunCut(run, rest, ws[0]);
      SpaceJoin(ws[1..], run);
      assert [ws[0]] + ws[1..] == ws;
    }
  }

  /** A comma followed by a space: two matches, with an empty token between them. */
  lemma CommaSpace(x: string, y: string)
    requires NoSeparator(x) && NoSeparator(y)
    ensures Tokenize(x + ([','] + ([' '] + y))) == [x, [], y]
  {
    PlainChunk(x, [','] + ([' '] + y), []);
    assert [] + x == x;
    SymbolCut(',', [' '] + y, x);
    assert y == [] || !IsRegexSpace(y[0]);
    SpaceRunCut([' '], y, []);
    PlainTextIsOneToken(y);
  }

  /** "a, b" splits into "a", "" and "b". */
  lemma CommaThenSpace()
    ensures Tokenize("a, b") == ["a", "", "b"]
  {
    CommaSpace("a", "b");
    assert "a" + ([','] + ([' '] + "b")) == "a, b";
  }
}
