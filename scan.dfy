/**
 * The pieces of Python's `re` and `str` that both collectors lean on, for
 * `str` patterns compiled with `re.IGNORECASE`: the character classes `\s`,
 * `\S`, `\d`, `\w`, `[-\w]`, `[-\w\s]` and `.`, case-insensitive literals,
 * greedy runs, `str.splitlines()` and `str.split()`.
 */
module Scan {
  import opened Wrappers

  /** `str.isspace()`, which is also what `\s` matches in a `str` pattern. */
  predicate IsSpace(c: char) {
    c == ' ' || ('\t' <= c <= '\r') || ('\U{1c}' <= c <= '\U{1f}')
    || c == '\U{85}' || c == '\U{a0}' || c == '\U{1680}'
    || ('\U{2000}' <= c <= '\U{200a}') || c == '\U{2028}' || c == '\U{2029}'
    || c == '\U{202f}' || c == '\U{205f}' || c == '\U{3000}'
  }

  /** Whitespace only, on one line. */
  ghost predicate Blank(s: string) {
    forall k :: 0 <= k < |s| ==> IsSpace(s[k]) && s[k] != '\n'
  }

  /** The boundaries `str.splitlines()` splits on (`\r\n` counts as one). */
  predicate IsLineBreak(c: char) {
    c == '\n' || c == '\r' || c == '\U{0b}' || c == '\U{0c}'
    || ('\U{1c}' <= c <= '\U{1e}') || c == '\U{85}' || c == '\U{2028}' || c == '\U{2029}'
  }

  predicate IsDigit(c: char) {
    '0' <= c <= '9'
  }

  predicate IsWord(c: char) {
    ('a' <= c <= 'z') || ('A' <= c <= 'Z') || IsDigit(c) || c == '_'
  }

  /** The character classes the fixed line formats use. */
  datatype CharClass =
    | Space          // \s
    | NonSpace       // \S
    | Digit          // \d
    | Word           // \w
    | WordOrDash     // [-\w]
    | WordDashSpace  // [-\w\s]
    | NotNewline     // .
    | NotLineBreak   // a character that does not end a line for splitlines()
    | Dash           // -
  {
    predicate Has(c: char) {
      match this
      case Space => IsSpace(c)
      case NonSpace => !IsSpace(c)
      case Digit => IsDigit(c)
      case Word => IsWord(c)
      case WordOrDash => IsWord(c) || c == '-'
      case WordDashSpace => IsWord(c) || c == '-' || IsSpace(c)
      case NotNewline => c != '\n'
      case NotLineBreak => !IsLineBreak(c)
      case Dash => c == '-'
    }
  }

  /**
   * Case folding as `re.IGNORECASE` applies it to the ASCII letters of a
   * pattern: the other letter case, plus the four non-ASCII letters Python
   * also accepts for them (dotted and dotless I, long s, Kelvin sign).
   */
  function Fold(c: char): char {
    if 'A' <= c <= 'Z' then (c as int + 32) as char
    else if c == '\U{130}' || c == '\U{131}' then 'i'
    else if c == '\U{17f}' then 's'
    else if c == '\U{212a}' then 'k'
    else c
  }

  /** The literal `kw` occurs at `s[i..]`, ignoring case. */
  predicate LitAt(s: string, i: nat, kw: string) {
    i + |kw| <= |s| && forall k :: 0 <= k < |kw| ==> Fold(s[i + k]) == Fold(kw[k])
  }

  /** A literal occurs wherever it is spelled out exactly. */
  lemma LitAtSelf(s: string, i: nat, w: string)
    requires i + |w| <= |s| && s[i..i + |w|] == w
    ensures LitAt(s, i, w)
  {
    forall k | 0 <= k < |w| ensures Fold(s[i + k]) == Fold(w[k]) {
      assert s[i + k] == s[i..i + |w|][k];
    }
  }

  /** End of the longest run of `cls` characters starting at `i` (a greedy `cls*`). */
  function RunEnd(s: string, i: nat, cls: CharClass): (j: nat)
    requires i <= |s|
    ensures i <= j <= |s|
    ensures forall k :: i <= k < j ==> cls.Has(s[k])
    ensures j < |s| ==> !cls.Has(s[j])
    decreases |s| - i
  {
    if i < |s| && cls.Has(s[i]) then RunEnd(s, i + 1, cls) else i
  }

  /** A run is determined by where it stops: any `j` with the run's two properties is `RunEnd`. */
  lemma RunEndUnique(s: string, i: nat, j: nat, cls: CharClass)
    requires i <= j <= |s|
    requires forall k :: i <= k < j ==> cls.Has(s[k])
    requires j < |s| ==> !cls.Has(s[j])
    ensures RunEnd(s, i, cls) == j
  {
  }

  /** `w0\s+w1\s+...\s+wn` at `i`, ignoring case; the position after the last word. */
  function PhraseEnd(s: string, i: nat, words: seq<string>): (r: Option<nat>)
    requires i <= |s|
    ensures r.Some? ==> i <= r.value <= |s|
    decreases |words|
  {
    if |words| == 0 then Some(i)
    else if !LitAt(s, i, words[0]) then None
    else if |words| == 1 then Some(i + |words[0]|)
    else
      var j := i + |words[0]|;
      var k := RunEnd(s, j, Space);
      if k == j then None else PhraseEnd(s, k, words[1..])
  }

  /** One step of the phrase: after the first word and a non-empty whitespace run, the other words are matched. */
  lemma PhraseEndCons(s: string, i: nat, words: seq<string>, k: nat)
    requires i <= |s| && |words| > 1 && LitAt(s, i, words[0])
    requires RunEnd(s, i + |words[0]|, Space) == k && k > i + |words[0]|
    ensures PhraseEnd(s, i, words) == PhraseEnd(s, k, words[1..])
  {
  }

  /** Index of the end of the text once trailing whitespace is dropped. */
  function TrimmedEnd(s: string): (n: nat)
    ensures n <= |s|
    ensures forall k :: n <= k < |s| ==> IsSpace(s[k])
    ensures n > 0 ==> !IsSpace(s[n - 1])
  {
    if |s| == 0 || !IsSpace(s[|s| - 1]) then |s| else TrimmedEnd(s[..|s| - 1])
  }

  /** A line as `str.splitlines()` gives it: no line end inside. */
  predicate OneLine(l: string) {
    forall c :: c in l ==> !IsLineBreak(c)
  }

  /** A token as `str.split()` gives it: non-empty, no whitespace inside. */
  predicate IsToken(t: string) {
    |t| > 0 && forall c :: c in t ==> !IsSpace(c)
  }

  /** `str.splitlines()`: the lines of `s` without their line ends. */
  function SplitLines(s: string): (lines: seq<string>)
    ensures |lines| == 0 <==> |s| == 0
    ensures forall l :: l in lines ==> OneLine(l)
    decreases |s|
  {
    if |s| == 0 then []
    else
      var j := RunEnd(s, 0, NotLineBreak);
      if j == |s| then [s]
      else
        var next := if s[j] == '\r' && j + 1 < |s| && s[j + 1] == '\n' then j + 2 else j + 1;
        [s[..j]] + SplitLines(s[next..])
  }

  /** `str.split()` with no separator: the maximal runs of non-whitespace. */
  function SplitWhitespace(s: string): (tokens: seq<string>)
    ensures forall t :: t in tokens ==> IsToken(t)
    decreases |s|
  {
    var i := RunEnd(s, 0, Space);
    if i == |s| then []
    else
      var j := RunEnd(s, i, NonSpace);
      [s[i..j]] + SplitWhitespace(s[j..])
  }

  /** The characters of `s` that are not whitespace, in order. */
  function NonSpaceChars(s: string): string {
    if |s| == 0 then [] else (if IsSpace(s[0]) then [] else [s[0]]) + NonSpaceChars(s[1..])
  }

  function Concat(ts: seq<string>): string {
    if |ts| == 0 then [] else ts[0] + Concat(ts[1..])
  }

  lemma {:induction false} NonSpaceCharsAppend(a: string, b: string)
    ensures NonSpaceChars(a + b) == NonSpaceChars(a) + NonSpaceChars(b)
    decreases |a|
  {
    if |a| == 0 {
      assert a + b == b;
    } else {
      assert (a + b)[1..] == a[1..] + b;
      NonSpaceCharsAppend(a[1..], b);
    }
  }

  lemma {:induction false} NonSpaceCharsOfSpaces(s: string)
    requires forall k :: 0 <= k < |s| ==> IsSpace(s[k])
    ensures NonSpaceChars(s) == []
    decreases |s|
  {
    if |s| > 0 {
      NonSpaceCharsOfSpaces(s[1..]);
    }
  }

  lemma {:induction false} NonSpaceCharsOfWord(s: string)
    requires forall k :: 0 <= k < |s| ==> !IsSpace(s[k])
    ensures NonSpaceChars(s) == s
    decreases |s|
  {
    if |s| > 0 {
      NonSpaceCharsOfWord(s[1..]);
      assert s == [s[0]] + s[1..];
    }
  }

  /** Leading whitespace contributes nothing. */
  lemma SkipSpaceRun(s: string)
    ensures NonSpaceChars(s) == NonSpaceChars(s[RunEnd(s, 0, Space)..])
  {
    var i := RunEnd(s, 0, Space);
    var a := s[..i];
    assert forall k :: 0 <= k < |a| ==> IsSpace(a[k]) by {
      forall k | 0 <= k < |a| ensures IsSpace(a[k]) { assert Space.Has(s[k]); }
    }
    assert s == a + s[i..];
    NonSpaceCharsAppend(a, s[i..]);
    NonSpaceCharsOfSpaces(a);
  }

  lemma KeepWordRun(s: string, i: nat)
    requires i <= |s|
    ensures NonSpaceChars(s[i..]) == s[i..RunEnd(s, i, NonSpace)] + NonSpaceChars(s[RunEnd(s, i, NonSpace)..])
  {
    var j := RunEnd(s, i, NonSpace);
    var w := s[i..j];
    assert forall k :: 0 <= k < |w| ==> !IsSpace(w[k]) by {
      forall k | 0 <= k < |w| ensures !IsSpace(w[k]) { assert NonSpace.Has(s[i + k]); }
    }
    assert s[i..] == w + s[j..];
    NonSpaceCharsAppend(w, s[j..]);
    NonSpaceCharsOfWord(w);
  }

  /**
   * `str.split()` loses nothing but whitespace: its tokens, put back
   * together, are exactly the non-whitespace characters of the input.
   */
  lemma {:induction false} SplitWhitespaceKeepsText(s: string)
    ensures Concat(SplitWhitespace(s)) == NonSpaceChars(s)
    decreases |s|
  {
    var i := RunEnd(s, 0, Space);
    SkipSpaceRun(s);
    if i == |s| {
      assert NonSpaceChars(s[i..]) == [];
    } else {
      var j := RunEnd(s, i, NonSpace);
      KeepWordRun(s, i);
      SplitWhitespaceKeepsText(s[j..]);
      assert SplitWhitespace(s) == [s[i..j]] + SplitWhitespace(s[j..]);
      assert Concat(SplitWhitespace(s)) == s[i..j] + Concat(SplitWhitespace(s[j..]));
    }
  }

  // ---------------------------------------------------------------------
  // What `str.split()` returns: exactly the maximal non-whitespace runs
  // ---------------------------------------------------------------------

  /** `s[i..j]` is a maximal run of non-whitespace in `s`. */
  ghost predicate MaximalRun(s: string, i: int, j: int) {
    0 <= i < j <= |s| && (forall k :: i <= k < j ==> !IsSpace(s[k]))
    && (i == 0 || IsSpace(s[i - 1])) && (j == |s| || IsSpace(s[j]))
  }

  /** A maximal run past a whitespace character at `d - 1` is one of `s[d..]` too. */
  lemma MaximalRunDrop(s: string, d: nat, i: int, j: int)
    requires 0 < d < i && MaximalRun(s, i, j)
    ensures MaximalRun(s[d..], i - d, j - d) && s[d..][i - d..j - d] == s[i..j]
  {
    var r := s[d..];
    assert forall k :: i - d <= k < j - d ==> r[k] == s[d + k];
    assert r[i - d - 1] == s[i - 1];
    assert j - d < |r| ==> r[j - d] == s[j];
  }

  /** A maximal run of `s[d..]` not at its start is one of `s`. */
  lemma MaximalRunLift(s: string, d: nat, i: int, j: int)
    requires d <= |s| && MaximalRun(s[d..], i, j) && i > 0
    ensures MaximalRun(s, d + i, d + j) && s[d + i..d + j] == s[d..][i..j]
  {
    var r := s[d..];
    assert forall k :: d + i <= k < d + j ==> s[k] == r[k - d];
    assert r[i - 1] == s[d + i - 1];
    assert j < |r| ==> r[j] == s[d + j];
  }

  /** One step of `str.split()`: the first token, then the tokens of the rest. */
  lemma SplitWhitespaceStep(s: string)
    requires RunEnd(s, 0, Space) < |s|
    ensures var i0 := RunEnd(s, 0, Space);
      var j0 := RunEnd(s, i0, NonSpace);
      i0 < j0 && SplitWhitespace(s) == [s[i0..j0]] + SplitWhitespace(s[j0..])
  {
  }

  /** Every token is a maximal run of the input. */
  lemma {:induction false} TokenIsMaximalRun(s: string, t: string)
    requires t in SplitWhitespace(s)
    ensures exists i, j :: MaximalRun(s, i, j) && s[i..j] == t
    decreases |s|
  {
    var i0 := RunEnd(s, 0, Space);
    var j0 := RunEnd(s, i0, NonSpace);
    SplitWhitespaceStep(s);
    if t == s[i0..j0] {
      assert MaximalRun(s, i0, j0);
    } else {
      var r := s[j0..];
      TokenIsMaximalRun(r, t);
      var i, j :| MaximalRun(r, i, j) && r[i..j] == t;
      assert r[i] == s[j0 + i];
      assert i > 0;
      MaximalRunLift(s, j0, i, j);
    }
  }

  /** No maximal run starts in the leading whitespace. */
  lemma RunAfterLeadingSpace(s: string, i: int, j: int)
    requires MaximalRun(s, i, j)
    ensures RunEnd(s, 0, Space) <= i
  {
    assert !Space.Has(s[i]);
  }

  /** A maximal run that starts inside the first token is the first token. */
  lemma FirstMaximalRun(s: string, i: int, j: int)
    requires MaximalRun(s, i, j)
    requires i < RunEnd(s, RunEnd(s, 0, Space), NonSpace)
    ensures i == RunEnd(s, 0, Space) && j == RunEnd(s, i, NonSpace)
  {
    var i0 := RunEnd(s, 0, Space);
    assert !Space.Has(s[i]);
    assert i == i0;
    RunEndUnique(s, i0, j, NonSpace);
  }

  /** No maximal run starts where the first token ends. */
  lemma NoRunAtTokenEnd(s: string, i: int, j: int)
    requires MaximalRun(s, i, j)
    ensures i != RunEnd(s, RunEnd(s, 0, Space), NonSpace)
  {
  }

  /** Every maximal run of the input is a token. */
  lemma {:induction false} MaximalRunIsToken(s: string, i: int, j: int)
    requires MaximalRun(s, i, j)
    ensures s[i..j] in SplitWhitespace(s)
    decreases |s|
  {
    var i0 := RunEnd(s, 0, Space);
    RunAfterLeadingSpace(s, i, j);
    var j0 := RunEnd(s, i0, NonSpace);
    SplitWhitespaceStep(s);
    if i < j0 {
      FirstMaximalRun(s, i, j);
    } else {
      NoRunAtTokenEnd(s, i, j);
      MaximalRunDrop(s, j0, i, j);
      MaximalRunIsToken(s[j0..], i - j0, j - j0);
      InLater(s[i..j], s[i0..j0], SplitWhitespace(s[j0..]));
    }
  }

  lemma InLater(x: string, first: string, rest: seq<string>)
    requires x in rest
    ensures x in [first] + rest
  {
    assert x in ([first] + rest)[1..];
  }

  /**
   * `str.split()` returns exactly the maximal runs of non-whitespace: a
   * string is a token iff it is such a run of the input, so no token is cut
   * short and no run is left out.
   */
  lemma SplitWhitespaceMaximal(s: string)
    ensures forall t :: t in SplitWhitespace(s) <==> exists i, j :: MaximalRun(s, i, j) && s[i..j] == t
  {
    forall t | t in SplitWhitespace(s) ensures exists i, j :: MaximalRun(s, i, j) && s[i..j] == t {
      TokenIsMaximalRun(s, t);
    }
    forall i, j | MaximalRun(s, i, j) ensures s[i..j] in SplitWhitespace(s) {
      MaximalRunIsToken(s, i, j);
    }
  }

  // ---------------------------------------------------------------------
  // What `str.splitlines()` returns: the lines that, with their line ends,
  // make up the text
  // ---------------------------------------------------------------------

  /** A line end as `str.splitlines()` removes it: `\r\n`, or one line-break character. */
  predicate IsLineEnd(e: string) {
    e == "\r\n" || (|e| == 1 && IsLineBreak(e[0]))
  }

  /** Where the line end found at `j` stops: `\r\n` is taken as one. */
  function LineEndStop(s: string, j: nat): nat
    requires j < |s|
  {
    if s[j] == '\r' && j + 1 < |s| && s[j + 1] == '\n' then j + 2 else j + 1
  }

  /** The line end dropped after each line of `SplitLines(s)`; empty after a last line that has none. */
  function LineEnds(s: string): seq<string>
    decreases |s|
  {
    if |s| == 0 then []
    else
      var j := RunEnd(s, 0, NotLineBreak);
      if j == |s| then [""] else [s[j..LineEndStop(s, j)]] + LineEnds(s[LineEndStop(s, j)..])
  }

  /** Each line followed by its line end. */
  function Rejoin(lines: seq<string>, ends: seq<string>): string
    requires |lines| == |ends|
    decreases |lines|
  {
    if |lines| == 0 then "" else lines[0] + ends[0] + Rejoin(lines[1..], ends[1..])
  }

  /** The text cut at two positions. */
  lemma SplitAround(s: string, j: nat, next: nat)
    requires j <= next <= |s|
    ensures s == s[..j] + s[j..next] + s[next..]
  {
  }

  /** The line end found at a line-break character is a whole line end. */
  lemma LineEndAt(s: string, j: nat)
    requires j < |s| && IsLineBreak(s[j])
    ensures IsLineEnd(s[j..LineEndStop(s, j)])
  {
    if LineEndStop(s, j) == j + 2 {
      assert s[j..j + 2] == [s[j], s[j + 1]];
    } else {
      assert s[j..j + 1] == [s[j]];
    }
  }

  /** One step of `str.splitlines()`: the first line, its line end, then the lines of the rest. */
  lemma SplitLinesStep(s: string)
    requires |s| > 0 && RunEnd(s, 0, NotLineBreak) < |s|
    ensures var j := RunEnd(s, 0, NotLineBreak);
      var next := LineEndStop(s, j);
      && SplitLines(s) == [s[..j]] + SplitLines(s[next..])
      && LineEnds(s) == [s[j..next]] + LineEnds(s[next..])
      && IsLineEnd(s[j..next])
      && s == s[..j] + s[j..next] + s[next..]
  {
    var j := RunEnd(s, 0, NotLineBreak);
    LineEndAt(s, j);
    SplitAround(s, j, LineEndStop(s, j));
  }

  /** `str.splitlines()` loses nothing but line ends: the lines, each followed by its line end, give back the text. */
  lemma {:induction false} SplitLinesRejoin(s: string)
    ensures |LineEnds(s)| == |SplitLines(s)|
    ensures Rejoin(SplitLines(s), LineEnds(s)) == s
    decreases |s|
  {
    if |s| > 0 && RunEnd(s, 0, NotLineBreak) < |s| {
      var j := RunEnd(s, 0, NotLineBreak);
      var r := s[LineEndStop(s, j)..];
      SplitLinesStep(s);
      SplitLinesRejoin(r);
      var lines, ends := SplitLines(s), LineEnds(s);
      assert lines[1..] == SplitLines(r) && ends[1..] == LineEnds(r);
    }
  }

  /**
   * Every line but the last is followed by a line end; the last by a line
   * end or, only when it is not empty, by nothing: text ending in a line
   * break has no empty last line.
   */
  lemma {:induction false} LineEndsProper(s: string)
    ensures forall n :: 0 <= n < |LineEnds(s)| - 1 ==> IsLineEnd(LineEnds(s)[n])
    ensures |LineEnds(s)| > 0 ==> var last := |LineEnds(s)| - 1;
      IsLineEnd(LineEnds(s)[last]) || (LineEnds(s)[last] == "" && last < |SplitLines(s)| && SplitLines(s)[last] != "")
    decreases |s|
  {
    if |s| > 0 && RunEnd(s, 0, NotLineBreak) < |s| {
      var j := RunEnd(s, 0, NotLineBreak);
      var r := s[LineEndStop(s, j)..];
      SplitLinesStep(s);
      LineEndsProper(r);
      SplitLinesRejoin(r);
      var lines, ends := SplitLines(s), LineEnds(s);
      assert ends[1..] == LineEnds(r) && lines[1..] == SplitLines(r);
      forall n | 1 <= n < |ends| ensures ends[n] == LineEnds(r)[n - 1] {
        assert ends[n] == ends[1..][n - 1];
      }
      if |LineEnds(r)| > 0 {
        var last := |ends| - 1;
        assert lines[last] == SplitLines(r)[last - 1];
      }
    }
  }

  /** A first line that is empty starts at a line end, and that line end starts the text. */
  lemma EmptyFirstLine(r: string)
    requires |SplitLines(r)| > 0 && SplitLines(r)[0] == ""
    ensures |r| > 0 && |LineEnds(r)| > 0 && |LineEnds(r)[0]| > 0 && LineEnds(r)[0][0] == r[0]
  {
    var j := RunEnd(r, 0, NotLineBreak);
    assert j == 0;
    LineEndAt(r, 0);
  }

  /** In a sequence with a head, every later element is one of the tail. */
  lemma ConsShift<T>(x: seq<T>, h: T, t: seq<T>)
    requires x == [h] + t
    ensures |x| == |t| + 1 && forall n :: 1 <= n < |x| ==> x[n] == t[n - 1]
  {
  }

  /** A first line end `\r` followed by an empty line is not followed by `\n`. */
  lemma LoneReturnFirst(s: string)
    requires |LineEnds(s)| > 1 && |SplitLines(s)| > 1 && LineEnds(s)[0] == "\r" && SplitLines(s)[1] == ""
    ensures LineEnds(s)[1] != "\n"
  {
    var j := RunEnd(s, 0, NotLineBreak);
    var next := LineEndStop(s, j);
    var r := s[next..];
    SplitLinesStep(s);
    assert s[j..next] == "\r";
    EmptyFirstLine(r);
    assert r[0] == s[j + 1];
  }

  /** `\r\n` is one line end: a lone `\r` is never directly followed by `\n`. */
  lemma {:induction false} LoneReturnNotBeforeNewline(s: string)
    ensures forall n :: (0 <= n < |LineEnds(s)| - 1 && n + 1 < |SplitLines(s)|
      && LineEnds(s)[n] == "\r" && SplitLines(s)[n + 1] == "") ==> LineEnds(s)[n + 1] != "\n"
    decreases |s|
  {
    if |s| > 0 && RunEnd(s, 0, NotLineBreak) < |s| {
      var j := RunEnd(s, 0, NotLineBreak);
      var next := LineEndStop(s, j);
      var r := s[next..];
      var lines, ends := SplitLines(s), LineEnds(s);
      SplitLinesStep(s);
      ConsShift(lines, s[..j], SplitLines(r));
      ConsShift(ends, s[j..next], LineEnds(r));
      LoneReturnNotBeforeNewline(r);
      forall n | 0 <= n < |ends| - 1 && n + 1 < |lines| && ends[n] == "\r" && lines[n + 1] == ""
        ensures ends[n + 1] != "\n"
      {
        if n == 0 {
          LoneReturnFirst(s);
        } else {
          assert ends[n] == LineEnds(r)[n - 1] && lines[n + 1] == SplitLines(r)[n];
        }
      }
    }
  }
}
