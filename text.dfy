/** Character classes, case folding, padding, trimming, decimal numbers,
    string order and line splitting, as the Kotlin/JVM standard library does
    them, restricted to ASCII (see README.md for what that leaves out). */
module Text {

  datatype Option<T> = None | Some(value: T)

  /** The characters matched by the regex class `\s` of java.util.regex. */
  predicate IsRegexSpace(c: char) {
    c == ' ' || c == '\t' || c == '\n' || c == '\U{0B}' || c == '\U{0C}' || c == '\r'
  }

  /** The ASCII characters for which Kotlin's `Char.isWhitespace` holds; this is
      what `isBlank` and `trim` test. It adds the four separator controls
      U+001C..U+001F to `\s`. */
  predicate IsWhitespace(c: char) {
    IsRegexSpace(c) || ('\U{1C}' <= c <= '\U{1F}')
  }

  /** Kotlin's `isBlank`: empty, or whitespace only. */
  predicate IsBlank(s: string) {
    forall i :: 0 <= i < |s| ==> IsWhitespace(s[i])
  }

  function LowerChar(c: char): char {
    if 'A' <= c <= 'Z' then (c as int + 32) as char else c
  }

  /** `toLowerCase` on ASCII letters; every other character is kept. */
  function Lower(s: string): (r: string)
    ensures |r| == |s|
    ensures forall i :: 0 <= i < |s| ==> r[i] == LowerChar(s[i])
  {
    if s == [] then [] else [LowerChar(s[0])] + Lower(s[1..])
  }

  lemma LowerKeepsWhitespace(c: char)
    ensures IsWhitespace(LowerChar(c)) <==> IsWhitespace(c)
  {
  }

  lemma LowerIsBlank(s: string)
    ensures IsBlank(Lower(s)) <==> IsBlank(s)
  {
    forall i | 0 <= i < |s| ensures IsWhitespace(Lower(s)[i]) <==> IsWhitespace(s[i]) {
      LowerKeepsWhitespace(s[i]);
    }
  }

  /** `c.toString().repeat(n)`. */
  function Repeat(c: char, n: nat): (r: string)
    ensures |r| == n
    ensures forall i :: 0 <= i < n ==> r[i] == c
  {
    if n == 0 then [] else Repeat(c, n - 1) + [c]
  }

  function Max(a: int, b: int): int { if a < b then b else a }

  /** `s.padEnd(n)`: spaces appended up to length n; a longer string is kept whole. */
  function PadEnd(s: string, n: nat): (r: string)
    ensures |r| == Max(|s|, n)
    ensures r[..|s|] == s
    ensures forall i :: |s| <= i < |r| ==> r[i] == ' '
  {
    if |s| >= n then s else s + Repeat(' ', n - |s|)
  }

  /** `s.padStart(n)`: spaces prepended up to length n; a longer string is kept whole. */
  function PadStart(s: string, n: nat): (r: string)
    ensures |r| == Max(|s|, n)
    ensures r[|r| - |s|..] == s
    ensures forall i :: 0 <= i < |r| - |s| ==> r[i] == ' '
  {
    if |s| >= n then s else Repeat(' ', n - |s|) + s
  }

  /** Leading whitespace removed. */
  function TrimStart(s: string): (r: string)
    ensures |r| <= |s| && r == s[|s| - |r|..]
    ensures r == [] || !IsWhitespace(r[0])
    ensures r == [] <==> IsBlank(s)
  {
    if s != [] && IsWhitespace(s[0]) then TrimStart(s[1..]) else s
  }

  /** Trailing whitespace removed. */
  function TrimEnd(s: string): (r: string)
    ensures |r| <= |s| && r == s[..|r|]
    ensures r == [] || !IsWhitespace(r[|r| - 1])
    ensures r == [] <==> IsBlank(s)
  {
    if s != [] && IsWhitespace(s[|s| - 1]) then TrimEnd(s[..|s| - 1]) else s
  }

  /** Kotlin's `trim()`: no whitespace left at either end, and nothing left
      exactly when the string was blank. */
  function Trim(s: string): (r: string)
    ensures r == [] || (!IsWhitespace(r[0]) && !IsWhitespace(r[|r| - 1]))
    ensures r == [] <==> IsBlank(s)
  {
    var t := TrimStart(s);
    var r := TrimEnd(t);
    assert r != [] ==> r[0] == t[0];
    r
  }

  /** What TrimStart cuts off is whitespace only. */
  lemma {:induction false} TrimStartCutsBlank(s: string)
    ensures IsBlank(s[..|s| - |TrimStart(s)|])
  {
    if s != [] && IsWhitespace(s[0]) {
      var k := |s| - |TrimStart(s)|;
      TrimStartCutsBlank(s[1..]);
      var tail := s[1..][..k - 1];
      assert forall i :: 0 <= i < |tail| ==> tail[i] == s[i + 1];
    }
  }

  /** What TrimEnd cuts off is whitespace only. */
  lemma {:induction false} TrimEndCutsBlank(s: string)
    ensures IsBlank(s[|TrimEnd(s)|..])
  {
    if s != [] && IsWhitespace(s[|s| - 1]) {
      var s' := s[..|s| - 1];
      var k := |TrimEnd(s)|;
      TrimEndCutsBlank(s');
      assert forall i :: 0 <= i < |s'| - k ==> s[k..][i] == s'[k..][i];
    }
  }

  /** `trim` returns a slice of s with whitespace only on either side of it:
      it removes exactly the leading and trailing whitespace. */
  lemma TrimIsSlice(s: string)
    ensures exists i, j :: 0 <= i <= j <= |s| && Trim(s) == s[i..j] && IsBlank(s[..i]) && IsBlank(s[j..])
  {
    var t := TrimStart(s);
    var r := TrimEnd(t);
    var i, j := |s| - |t|, |s| - |t| + |r|;
    TrimStartCutsBlank(s);
    TrimEndCutsBlank(t);
    assert r == s[i..j];
    assert s[j..] == t[|r|..];
  }

  lemma {:induction false} TrimStartAppend(p: string, c: char)
    ensures TrimStart(p + [c]) == if IsBlank(p) then TrimStart([c]) else TrimStart(p) + [c]
  {
    if p == [] {
      assert p + [c] == [c];
    } else if IsWhitespace(p[0]) {
      assert (p + [c])[0] == p[0];
      assert (p + [c])[1..] == p[1..] + [c];
      TrimStartAppend(p[1..], c);
      BlankTail(p);
    } else {
      assert (p + [c])[0] == p[0];
      assert !IsBlank(p);
    }
  }

  /** A string with whitespace first is blank exactly when its tail is. */
  lemma BlankTail(p: string)
    requires p != [] && IsWhitespace(p[0])
    ensures IsBlank(p) <==> IsBlank(p[1..])
  {
    assert forall i :: 0 <= i < |p[1..]| ==> p[1..][i] == p[i + 1];
  }

  lemma TrimAppendSpace(p: string)
    ensures Trim(p + [' ']) == Trim(p)
  {
    TrimStartAppend(p, ' ');
    var t := TrimStart(p);
    if IsBlank(p) {
      assert TrimStart([' ']) == [];
    } else {
      assert (t + [' '])[..|t|] == t;
    }
  }

  lemma AppendAssoc<T>(a: seq<T>, b: seq<T>, c: seq<T>)
    ensures a + (b + c) == a + b + c
  {
  }

  /** One more space of padding is one space appended. */
  lemma PadSnoc(s: string, n: nat)
    requires n > 0
    ensures s + Repeat(' ', n) == (s + Repeat(' ', n - 1)) + [' ']
  {
    assert Repeat(' ', n) == Repeat(' ', n - 1) + [' '];
    AppendAssoc(s, Repeat(' ', n - 1), [' ']);
  }

  /** Appending spaces does not change what `trim` returns. */
  lemma {:induction false} TrimPadded(s: string, n: nat)
    ensures Trim(s + Repeat(' ', n)) == Trim(s)
  {
    if n > 0 {
      var p := s + Repeat(' ', n - 1);
      calc {
        Trim(s + Repeat(' ', n));
        { PadSnoc(s, n); }
        Trim(p + [' ']);
        { TrimAppendSpace(p); }
        Trim(p);
        { TrimPadded(s, n - 1); }
        Trim(s);
      }
    } else {
      assert s + Repeat(' ', n) == s;
    }
  }

  // ---------------------------------------------------------------------------
  // Decimal numbers: Int.toString and String.toInt

  const MaxInt: int := 0x7fff_ffff
  const MinInt: int := -0x8000_0000

  predicate IsDigit(c: char) { '0' <= c <= '9' }

  function DigitChar(d: nat): char
    requires d < 10
  {
    ('0' as int + d) as char
  }

  function DigitValue(c: char): nat
    requires IsDigit(c)
  {
    c as int - '0' as int
  }

  /** `n.toString()` for a non-negative number: its decimal digits, most
      significant first, without leading zeros. */
  function Decimal(n: nat): (r: string)
    ensures |r| >= 1
    ensures forall i :: 0 <= i < |r| ==> IsDigit(r[i])
    ensures |r| > 1 ==> r[0] != '0'
  {
    if n < 10 then [DigitChar(n)] else Decimal(n / 10) + [DigitChar(n % 10)]
  }

  /** The number a string of digits denotes. */
  function DigitsValue(s: string): nat
    requires forall i :: 0 <= i < |s| ==> IsDigit(s[i])
  {
    if s == [] then 0 else DigitsValue(s[..|s| - 1]) * 10 + DigitValue(s[|s| - 1])
  }

  lemma {:induction false} DecimalValue(n: nat)
    ensures DigitsValue(Decimal(n)) == n
  {
    if n >= 10 {
      var d := Decimal(n);
      assert d[..|d| - 1] == Decimal(n / 10);
      DecimalValue(n / 10);
    }
  }

  /** s without its sign, if it has one. */
  function Unsigned(s: string): string {
    if s != [] && (s[0] == '-' || s[0] == '+') then s[1..] else s
  }

  predicate AllDigits(d: string) {
    forall i :: 0 <= i < |d| ==> IsDigit(d[i])
  }

  /** The value of an optionally signed digit string. */
  function SignedValue(s: string): int
    requires AllDigits(Unsigned(s))
  {
    if s != [] && s[0] == '-' then -(DigitsValue(Unsigned(s)) as int) else DigitsValue(Unsigned(s))
  }

  /** `toInt()` (java.lang.Integer.parseInt): an optional sign, then at least one
      digit, and the value within 32 bits; anything else throws, here None.
      Leading zeros are accepted. */
  function ParseInt(s: string): (r: Option<int>)
    ensures r.Some? <==> Unsigned(s) != [] && AllDigits(Unsigned(s)) && MinInt <= SignedValue(s) <= MaxInt
    ensures r.Some? ==> r.value == SignedValue(s)
    ensures r.Some? ==> s != [] && (IsDigit(s[0]) || s[0] == '-' || s[0] == '+')
  {
    if s == [] then None
    else
      var negative := s[0] == '-';
      var digits := if s[0] == '-' || s[0] == '+' then s[1..] else s;
      if digits == [] || exists i :: 0 <= i < |digits| && !IsDigit(digits[i]) then None
      else
        var v: int := DigitsValue(digits);
        if negative then (if -v < MinInt then None else Some(-v))
        else (if v > MaxInt then None else Some(v))
  }

  lemma ParseDecimal(n: nat)
    requires n <= MaxInt
    ensures ParseInt(Decimal(n)) == Some(n)
  {
    DecimalValue(n);
  }

  // ---------------------------------------------------------------------------
  // String order: Kotlin's `String.compareTo`, character by character

  /** a sorts strictly before b: a proper prefix of b, or smaller at the
      first character where they differ. */
  predicate LexLess(a: string, b: string) {
    if a == [] then b != []
    else if b == [] then false
    else a[0] < b[0] || (a[0] == b[0] && LexLess(a[1..], b[1..]))
  }

  lemma {:induction false} LexIrreflexive(a: string)
    ensures !LexLess(a, a)
  {
    if a != [] { LexIrreflexive(a[1..]); }
  }

  lemma {:induction false} LexTransitive(a: string, b: string, c: string)
    requires LexLess(a, b) && LexLess(b, c)
    ensures LexLess(a, c)
  {
    if a != [] && a[0] == b[0] && b[0] == c[0] {
      LexTransitive(a[1..], b[1..], c[1..]);
    }
  }

  lemma {:induction false} LexConnected(a: string, b: string)
    requires a != b
    ensures LexLess(a, b) || LexLess(b, a)
  {
    if a != [] && b != [] && a[0] == b[0] {
      assert a == [a[0]] + a[1..] && b == [b[0]] + b[1..];
      LexConnected(a[1..], b[1..]);
    }
  }

  // ---------------------------------------------------------------------------
  // Lines

  predicate IsLineBreak(c: char) { c == '\n' || c == '\r' }

  predicate NoLineBreak(s: string) {
    forall i :: 0 <= i < |s| ==> !IsLineBreak(s[i])
  }

  /** Splitting on the regex `\r\n|\r|\n`, keeping empty pieces (also a
      trailing one); `cur` is the piece read so far. */
  function SplitLinesFrom(s: string, cur: string): (r: seq<string>)
    requires NoLineBreak(cur)
    ensures |r| >= 1
    ensures forall k :: 0 <= k < |r| ==> NoLineBreak(r[k])
    decreases |s|
  {
    if s == [] then [cur]
    else if s[0] == '\n' then [cur] + SplitLinesFrom(s[1..], [])
    else if s[0] == '\r' then
      [cur] + SplitLinesFrom(if |s| > 1 && s[1] == '\n' then s[2..] else s[1..], [])
    else SplitLinesFrom(s[1..], cur + [s[0]])
  }

  function SplitLines(s: string): (r: seq<string>)
  {
    SplitLinesFrom(s, [])
  }

  /** `readLines()`: the pieces between line terminators, where a terminator at
      the very end does not start another (empty) line. */
  function ReadLines(s: string): (r: seq<string>)
    ensures forall k :: 0 <= k < |r| ==> NoLineBreak(r[k])
  {
    var pieces := SplitLines(s);
    if pieces[|pieces| - 1] == [] then pieces[..|pieces| - 1] else pieces
  }

  /** The lines written one after another, each followed by "\n". */
  function Unlines(lines: seq<string>): string {
    if lines == [] then [] else lines[0] + "\n" + Unlines(lines[1..])
  }

  lemma {:induction false} UnlinesAppend(lines: seq<string>, line: string)
    ensures Unlines(lines + [line]) == Unlines(lines) + line + "\n"
  {
    if lines != [] {
      assert (lines + [line])[1..] == lines[1..] + [line];
      UnlinesAppend(lines[1..], line);
    }
  }

  lemma {:induction false} SplitLineThenRest(line: string, rest: string, cur: string)
    requires NoLineBreak(cur) && NoLineBreak(line)
    ensures SplitLinesFrom(line + "\n" + rest, cur) == [cur + line] + SplitLinesFrom(rest, [])
    decreases |line|
  {
    if line == [] {
      assert line + "\n" + rest == "\n" + rest;
      assert ("\n" + rest)[1..] == rest;
      assert cur + line == cur;
    } else {
      assert (line + "\n" + rest)[1..] == line[1..] + "\n" + rest;
      assert cur + [line[0]] + line[1..] == cur + line;
      SplitLineThenRest(line[1..], rest, cur + [line[0]]);
    }
  }

  lemma {:induction false} SplitUnlines(lines: seq<string>)
    requires forall k :: 0 <= k < |lines| ==> NoLineBreak(lines[k])
    ensures SplitLines(Unlines(lines)) == lines + [[]]
  {
    if lines != [] {
      SplitLineThenRest(lines[0], Unlines(lines[1..]), []);
      assert [] + lines[0] == lines[0];
      SplitUnlines(lines[1..]);
      assert lines == [lines[0]] + lines[1..];
    }
  }

  /** Reading back lines written with a terminator each gives the same lines. */
  lemma ReadUnlines(lines: seq<string>)
    requires forall k :: 0 <= k < |lines| ==> NoLineBreak(lines[k])
    ensures ReadLines(Unlines(lines)) == lines
  {
    SplitUnlines(lines);
    assert (lines + [[]])[..|lines|] == lines;
  }
}
