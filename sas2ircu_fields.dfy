/**
 * The line patterns of sas2ircu's IR volume and physical device records,
 * and the searches that decide whether a captured state is healthy. Each
 * pattern is `\s*W1\s+W2...` followed by a separator and one captured value,
 * matched at the start of a line with `re.IGNORECASE`.
 */
module Sas2ircuFields {
  import opened Wrappers
  import opened Scan

  /** What follows the words: `\s+` (Gap), or `\s*:` (Colon). */
  datatype Separator = Gap | Colon

  /**
   * The captured value: `\d+`, `\w+`, `.+` (taken straight after the
   * colon), or the model pattern `\w[-\w\s]+?\s*$`. Every colon rule except
   * `.+` allows `\s*` between the colon and the value.
   */
  datatype Capture = Digits | WordRun | RestOfLine | ModelName

  datatype FieldRule = FieldRule(words: seq<string>, sep: Separator, capture: Capture, attr: string)

  /** `IR_VOLUME_REGEXP_MAP`. */
  const IrVolumeRules: seq<FieldRule> := [
    FieldRule(["IR", "volume"], Gap, Digits, "volume_num"),
    FieldRule(["Volume", "ID"], Colon, Digits, "volume_id"),
    FieldRule(["Status", "of", "volume"], Colon, RestOfLine, "state"),
    FieldRule(["RAID", "level"], Colon, WordRun, "raidlevel")
  ]

  /** `PHYS_DEVICE_REGEXP_MAP`. */
  const PhysDeviceRules: seq<FieldRule> := [
    FieldRule(["Enclosure", "#"], Colon, Digits, "enclosure"),
    FieldRule(["Slot", "#"], Colon, Digits, "slot"),
    FieldRule(["State"], Colon, RestOfLine, "state"),
    FieldRule(["Model", "Number"], Colon, ModelName, "model")
  ]

  /** Where the value starts, once the words end at `e`. */
  function ValueStart(line: string, e: nat, rule: FieldRule): (r: Option<nat>)
    requires e <= |line|
    ensures r.Some? ==> e <= r.value <= |line|
  {
    match rule.sep
    case Gap =>
      var v := RunEnd(line, e, Space);
      if v == e then None else Some(v)
    case Colon =>
      var c := RunEnd(line, e, Space);
      if c == |line| || line[c] != ':' then None
      else if rule.capture == RestOfLine then Some(c + 1)
      else Some(RunEnd(line, c + 1, Space))
  }

  /** The larger of `v + 2` and the end of the line without its trailing whitespace. */
  function ModelEnd(line: string, v: nat): nat {
    if v + 2 < TrimmedEnd(line) then TrimmedEnd(line) else v + 2
  }

  /** The value captured at `v`. */
  function CaptureAt(line: string, v: nat, capture: Capture): Option<string>
    requires v <= |line|
  {
    match capture
    case Digits =>
      var w := RunEnd(line, v, Digit);
      if w == v then None else Some(line[v..w])
    case WordRun =>
      var w := RunEnd(line, v, Word);
      if w == v then None else Some(line[v..w])
    case RestOfLine =>
      var w := RunEnd(line, v, NotNewline);
      if w == v then None else Some(line[v..w])
    case ModelName =>
      if v == |line| || !IsWord(line[v]) then None
      else
        var e := ModelEnd(line, v);
        if e <= |line| && RunEnd(line, v + 1, WordDashSpace) >= e then Some(line[v..e]) else None
  }

  /** `regex.match(line)` for one rule: the captured group, if the line matches. */
  function MatchRule(line: string, rule: FieldRule): Option<string> {
    var i := RunEnd(line, 0, Space);
    match PhraseEnd(line, i, rule.words)
    case None => None
    case Some(e) =>
      match ValueStart(line, e, rule)
      case None => None
      case Some(v) => CaptureAt(line, v, rule.capture)
  }

  // ---------------------------------------------------------------------
  // The model number: trailing whitespace is not part of the value
  // ---------------------------------------------------------------------

  /** A model number as the pattern can capture it in full. */
  ghost predicate ModelToken(w: string) {
    |w| >= 2 && IsWord(w[0]) && !IsSpace(w[|w| - 1])
    && forall k :: 0 <= k < |w| ==> WordDashSpace.Has(w[k])
  }

  /**
   * A captured model number is the line's own text at `v`: it starts with a
   * word character, is followed by nothing but whitespace, and carries none
   * at its end once it is longer than two characters.
   */
  lemma ModelCaptureTrimmed(line: string, v: nat)
    requires v <= |line|
    requires CaptureAt(line, v, ModelName).Some?
    ensures var c := CaptureAt(line, v, ModelName).value;
      && v + |c| <= |line| && c == line[v..v + |c|]
      && |c| >= 2 && IsWord(c[0])
      && (forall k :: v + |c| <= k < |line| ==> IsSpace(line[k]))
      && (|c| > 2 ==> !IsSpace(c[|c| - 1]))
  {
  }

  /** A model number is captured whole wherever it starts, and the whitespace after it is left out. */
  lemma ModelCaptureAfter(before: string, w: string, pad: string)
    requires ModelToken(w)
    requires forall k :: 0 <= k < |pad| ==> IsSpace(pad[k])
    ensures CaptureAt(before + w + pad, |before|, ModelName) == Some(w)
  {
    var line := before + w + pad;
    var v := |before|;
    var n := v + |w|;
    Middle(before, w, pad);
    assert forall k :: 0 <= k < |w| ==> line[v + k] == w[k];
    assert forall k :: n <= k < |line| ==> line[k] == pad[k - n];
    assert !IsSpace(line[n - 1]);
    assert TrimmedEnd(line) == n;
    assert ModelEnd(line, v) == n;
    forall k | v + 1 <= k < |line| ensures WordDashSpace.Has(line[k]) {
      if k < n { assert line[k] == w[k - v]; }
    }
    RunEndUnique(line, v + 1, |line|, WordDashSpace);
    assert line[v] == w[0];
  }

  // ---------------------------------------------------------------------
  // Printing a field line, and reading it back
  // ---------------------------------------------------------------------

  /** A word of a pattern: non-empty, without whitespace. */
  ghost predicate Plain(w: string) {
    |w| > 0 && forall k :: 0 <= k < |w| ==> !IsSpace(w[k])
  }

  ghost predicate PlainWords(words: seq<string>) {
    |words| > 0 && forall i :: 0 <= i < |words| ==> Plain(words[i])
  }

  /** Runs of whitespace that `\s+` matches, each on one line. */
  ghost predicate Gaps(gaps: seq<string>) {
    forall n :: 0 <= n < |gaps| ==> |gaps[n]| > 0 && Blank(gaps[n])
  }

  /**
   * The whitespace of a printed field line: the indent in front of the
   * first word, the runs between the words, the run in front of the value
   * (for `\s+`) or in front of the colon (for `\s*:`), the run after the
   * colon, and the padding after the value. sas2ircu pads its labels to
   * one column, so each of these varies from line to line.
   */
  datatype Layout = Layout(indent: string, gaps: seq<string>, sep: string, pad: string, trailer: string)

  /** A layout the rule's pattern allows. */
  ghost predicate LaidOut(rule: FieldRule, lay: Layout) {
    Blank(lay.indent) && |lay.gaps| + 1 == |rule.words| && Gaps(lay.gaps)
    && Blank(lay.sep) && (rule.sep == Gap ==> |lay.sep| > 0)
    && Blank(lay.pad) && Blank(lay.trailer)
  }

  /** The words with the layout's runs between them. */
  function Phrase(words: seq<string>, gaps: seq<string>): string
    decreases |words|
  {
    if |words| == 0 then ""
    else if |words| == 1 || |gaps| == 0 then words[0]
    else words[0] + gaps[0] + Phrase(words[1..], gaps[1..])
  }

  /** A value the rule's capture takes in full when only whitespace follows it. */
  ghost predicate FitsCapture(value: string, capture: Capture) {
    match capture
    case Digits => |value| > 0 && forall k :: 0 <= k < |value| ==> IsDigit(value[k])
    case WordRun => |value| > 0 && forall k :: 0 <= k < |value| ==> IsWord(value[k])
    case RestOfLine => |value| > 0 && !IsSpace(value[0]) && forall k :: 0 <= k < |value| ==> value[k] != '\n'
    case ModelName => ModelToken(value)
  }

  /** Everything the tool prints in front of the value. */
  function Head(rule: FieldRule, lay: Layout): string {
    lay.indent + Phrase(rule.words, lay.gaps) + lay.sep + (if rule.sep == Colon then ":" + lay.pad else "")
  }

  /** The line the tool prints for a field. */
  function FieldLine(rule: FieldRule, lay: Layout, value: string): string {
    Head(rule, lay) + value + lay.trailer
  }

  /** The whitespace a `:(.+)` capture takes in front of the value: the run after the colon. */
  function Lead(rule: FieldRule, lay: Layout): string {
    if rule.sep == Colon && rule.capture == RestOfLine then lay.pad else ""
  }

  /** Where the pattern's capture starts: `:(.+)` starts straight after the colon, the others at the value. */
  function CaptureStart(rule: FieldRule, lay: Layout): nat {
    if rule.sep == Colon && rule.capture == RestOfLine then |Head(rule, lay)| - |lay.pad| else |Head(rule, lay)|
  }

  lemma PhraseStarts(words: seq<string>, gaps: seq<string>)
    requires PlainWords(words)
    ensures |Phrase(words, gaps)| > 0 && Phrase(words, gaps)[0] == words[0][0]
  {
    assert Plain(words[0]);
  }

  lemma PlainWordsTail(words: seq<string>)
    requires PlainWords(words) && |words| > 1
    ensures PlainWords(words[1..])
  {
    forall m | 0 <= m < |words[1..]| ensures Plain(words[1..][m]) {
      assert words[1..][m] == words[m + 1];
    }
  }

  /** The runs after the first are allowed runs too. */
  lemma GapsTail(gaps: seq<string>)
    requires Gaps(gaps) && |gaps| > 0
    ensures Gaps(gaps[1..])
  {
    forall n | 0 <= n < |gaps[1..]| ensures |gaps[1..][n]| > 0 && Blank(gaps[1..][n]) {
      assert gaps[1..][n] == gaps[n + 1];
    }
  }

  /** A run of whitespace found at `i` and followed by a non-space ends there. */
  lemma BlankRun(s: string, i: nat, j: nat)
    requires i <= j < |s| && Blank(s[i..j]) && !IsSpace(s[j])
    ensures RunEnd(s, i, Space) == j
  {
    forall k | i <= k < j ensures Space.Has(s[k]) {
      assert s[k] == s[i..j][k - i];
    }
    RunEndUnique(s, i, j, Space);
  }

  /** Three strings found one after the other in a line, each at its place. */
  lemma SliceThree(s: string, i: nat, a: string, b: string, c: string)
    requires i + |a| + |b| + |c| <= |s| && s[i..i + |a| + |b| + |c|] == a + b + c
    ensures s[i..i + |a|] == a
    ensures s[i + |a|..i + |a| + |b|] == b
    ensures s[i + |a| + |b|..i + |a| + |b| + |c|] == c
  {
    var t := s[i..i + |a| + |b| + |c|];
    forall k | 0 <= k < |a| + |b| + |c| ensures s[i + k] == (a + b + c)[k] {
      assert s[i + k] == t[k];
    }
    assert s[i..i + |a|] == a by {
      forall k | 0 <= k < |a| ensures s[i..i + |a|][k] == a[k] {
        assert s[i + k] == (a + b + c)[k];
      }
    }
    assert s[i + |a|..i + |a| + |b|] == b by {
      forall k | 0 <= k < |b| ensures s[i + |a|..i + |a| + |b|][k] == b[k] {
        assert s[i + (|a| + k)] == (a + b + c)[|a| + k];
      }
    }
    assert s[i + |a| + |b|..i + |a| + |b| + |c|] == c by {
      forall k | 0 <= k < |c| ensures s[i + |a| + |b|..i + |a| + |b| + |c|][k] == c[k] {
        assert s[i + (|a| + |b| + k)] == (a + b + c)[|a| + |b| + k];
      }
    }
  }

  /** Where the words and runs of a phrase are found one after the other, from `i` on. */
  ghost predicate Laid(s: string, i: nat, words: seq<string>, gaps: seq<string>)
    decreases |words|
  {
    |words| > 0 && i + |words[0]| <= |s| && s[i..i + |words[0]|] == words[0]
    && (|words| > 1 ==>
          |gaps| > 0 && i + |words[0]| + |gaps[0]| <= |s|
          && s[i + |words[0]|..i + |words[0]| + |gaps[0]|] == gaps[0]
          && Laid(s, i + |words[0]| + |gaps[0]|, words[1..], gaps[1..]))
  }

  /** A phrase found in a line has its words and runs found there one after the other. */
  lemma {:induction false} PhraseLaid(s: string, i: nat, words: seq<string>, gaps: seq<string>)
    requires |words| > 0 && |gaps| + 1 == |words|
    requires i + |Phrase(words, gaps)| <= |s| && s[i..i + |Phrase(words, gaps)|] == Phrase(words, gaps)
    ensures Laid(s, i, words, gaps)
    decreases |words|
  {
    if |words| == 1 {
      assert Phrase(words, gaps) == words[0];
    } else {
      var w, g, rest := words[0], gaps[0], Phrase(words[1..], gaps[1..]);
      assert Phrase(words, gaps) == w + g + rest;
      SliceThree(s, i, w, g, rest);
      PhraseLaid(s, i + |w| + |g|, words[1..], gaps[1..]);
    }
  }

  /** Where the words are matched one after the other: each word at its place, each run of whitespace up to the next word. */
  ghost predicate Matched(s: string, i: nat, words: seq<string>, gaps: seq<string>)
    decreases |words|
  {
    |words| > 0 && i + |words[0]| <= |s| && LitAt(s, i, words[0])
    && (|words| > 1 ==>
          |gaps| > 0 && |gaps[0]| > 0 && i + |words[0]| + |gaps[0]| <= |s|
          && RunEnd(s, i + |words[0]|, Space) == i + |words[0]| + |gaps[0]|
          && Matched(s, i + |words[0]| + |gaps[0]|, words[1..], gaps[1..]))
  }

  /** Plain words and runs of whitespace found one after the other are matched one after the other. */
  lemma {:induction false} LaidMatched(s: string, i: nat, words: seq<string>, gaps: seq<string>)
    requires PlainWords(words) && |gaps| + 1 == |words| && Gaps(gaps)
    requires Laid(s, i, words, gaps)
    ensures Matched(s, i, words, gaps)
    decreases |words|
  {
    LitAtSelf(s, i, words[0]);
    if |words| > 1 {
      var w, g := words[0], gaps[0];
      var j := i + |w| + |g|;
      PlainWordsTail(words);
      GapsTail(gaps);
      assert Plain(words[1]);
      assert s[j] == s[j..j + |words[1]|][0] == words[1][0];
      BlankRun(s, i + |w|, j);
      LaidMatched(s, j, words[1..], gaps[1..]);
    }
  }

  /** Length of the phrase, from the lengths of its parts. */
  function PhraseLength(words: seq<string>, gaps: seq<string>): nat
    decreases |words|
  {
    if |words| == 0 then 0
    else if |words| == 1 || |gaps| == 0 then |words[0]|
    else |words[0]| + |gaps[0]| + PhraseLength(words[1..], gaps[1..])
  }

  lemma {:induction false} PhraseLengthIs(words: seq<string>, gaps: seq<string>)
    ensures PhraseLength(words, gaps) == |Phrase(words, gaps)|
    decreases |words|
  {
    if |words| > 1 && |gaps| > 0 {
      PhraseLengthIs(words[1..], gaps[1..]);
    }
  }

  /** Words matched one after the other make the phrase pattern end right after the last of them. */
  lemma {:induction false} MatchedPhraseEnd(s: string, i: nat, words: seq<string>, gaps: seq<string>)
    requires Matched(s, i, words, gaps) && |gaps| + 1 == |words|
    ensures PhraseEnd(s, i, words) == Some(i + PhraseLength(words, gaps))
    decreases |words|
  {
    if |words| == 1 {
      assert i + PhraseLength(words, gaps) == i + |words[0]|;
    } else {
      var j := i + |words[0]| + |gaps[0]|;
      PhraseEndCons(s, i, words, j);
      MatchedPhraseEnd(s, j, words[1..], gaps[1..]);
      assert i + PhraseLength(words, gaps) == j + PhraseLength(words[1..], gaps[1..]);
    }
  }

  /** The words, laid out with any allowed runs between them, are matched and end right after the phrase. */
  lemma PhraseEndOfPhrase(s: string, i: nat, words: seq<string>, gaps: seq<string>)
    requires PlainWords(words) && |gaps| + 1 == |words| && Gaps(gaps)
    requires i + |Phrase(words, gaps)| <= |s| && s[i..i + |Phrase(words, gaps)|] == Phrase(words, gaps)
    ensures PhraseEnd(s, i, words) == Some(i + |Phrase(words, gaps)|)
  {
    PhraseLaid(s, i, words, gaps);
    LaidMatched(s, i, words, gaps);
    MatchedPhraseEnd(s, i, words, gaps);
    PhraseLengthIs(words, gaps);
  }

  /** The middle of three strings laid one after the other. */
  lemma Middle(a: string, b: string, c: string)
    ensures (a + b + c)[|a|..|a| + |b|] == b
  {
    var s := a + b + c;
    forall k | 0 <= k < |b| ensures s[|a|..|a| + |b|][k] == b[k] {
      assert s[|a| + k] == b[k];
    }
  }

  /** Six strings one after the other, each found at its place. */
  lemma SixParts(p0: string, p1: string, p2: string, p3: string, p4: string, p5: string)
    ensures var s := p0 + p1 + p2 + p3 + p4 + p5;
      var n1 := |p0|;
      var n2 := n1 + |p1|;
      var n3 := n2 + |p2|;
      var n4 := n3 + |p3|;
      var n5 := n4 + |p4|;
      && |s| == n5 + |p5|
      && s[0..n1] == p0 && s[n1..n2] == p1 && s[n2..n3] == p2 && s[n3..n4] == p3
      && s[n4..n5] == p4 && s[n5..] == p5
  {
  }

  /**
   * Where each part of a field line is: the indent, the phrase, the run in
   * front of the separator, the colon and the run after it, the value and
   * the trailer.
   */
  lemma FieldLineParts(rule: FieldRule, lay: Layout, value: string)
    ensures var line := FieldLine(rule, lay, value);
      var a := |lay.indent|;
      var e := a + |Phrase(rule.words, lay.gaps)|;
      var c := e + |lay.sep|;
      var h := |Head(rule, lay)|;
      && h == c + (if rule.sep == Colon then 1 + |lay.pad| else 0)
      && CaptureStart(rule, lay) == (if rule.sep == Colon && rule.capture == RestOfLine then c + 1 else h)
      && h + |value| + |lay.trailer| == |line|
      && line[0..a] == lay.indent
      && line[a..e] == Phrase(rule.words, lay.gaps)
      && line[e..c] == lay.sep
      && (rule.sep == Colon ==> line[c] == ':' && line[c + 1..h] == lay.pad)
      && line[h..h + |value|] == value
  {
    var cp := if rule.sep == Colon then ":" + lay.pad else "";
    SixParts(lay.indent, Phrase(rule.words, lay.gaps), lay.sep, cp, value, lay.trailer);
    if rule.sep == Colon {
      var line := FieldLine(rule, lay, value);
      var c := |lay.indent| + |Phrase(rule.words, lay.gaps)| + |lay.sep|;
      var h := |Head(rule, lay)|;
      assert line[c..h] == cp;
      assert line[c] == line[c..h][0];
      assert line[c + 1..h] == line[c..h][1..];
    }
  }

  /** What a field line holds from where the capture starts. */
  lemma FieldLineTail(rule: FieldRule, lay: Layout, value: string)
    ensures var line := FieldLine(rule, lay, value);
      CaptureStart(rule, lay) <= |line|
      && line[CaptureStart(rule, lay)..] == Lead(rule, lay) + value + lay.trailer
  {
    var h := Head(rule, lay);
    if rule.sep == Colon && rule.capture == RestOfLine {
      var front := lay.indent + Phrase(rule.words, lay.gaps) + lay.sep + ":";
      assert h == front + lay.pad;
      assert FieldLine(rule, lay, value) == front + (lay.pad + value + lay.trailer);
    } else {
      assert FieldLine(rule, lay, value) == h + ("" + value + lay.trailer);
    }
  }

  /**
   * Once the words end at `e`, the separator's whitespace runs to `c`, and
   * the value starts at `h`: `\s+` and `\s*:\s*` skip to the value, and
   * `\s*:` stops straight after the colon.
   */
  lemma ValueStartAt(line: string, rule: FieldRule, e: nat, c: nat, h: nat, v: nat)
    requires e <= c <= h < |line|
    requires v == (if rule.sep == Colon && rule.capture == RestOfLine then c + 1 else h)
    requires Blank(line[e..c]) && !IsSpace(line[h])
    requires rule.sep == Gap ==> c == h && e < c
    requires rule.sep == Colon ==> c < h && line[c] == ':' && Blank(line[c + 1..h])
    ensures ValueStart(line, e, rule) == Some(v)
  {
    BlankRun(line, e, c);
    if rule.sep == Colon && rule.capture != RestOfLine {
      BlankRun(line, c + 1, h);
    }
  }

  /** Past an indent, the phrase is found, ending right after its last word. */
  lemma WordsAt(line: string, indent: string, words: seq<string>, gaps: seq<string>)
    requires PlainWords(words) && |gaps| + 1 == |words| && Gaps(gaps) && Blank(indent)
    requires |indent| + |Phrase(words, gaps)| <= |line|
    requires line[0..|indent|] == indent && line[|indent|..|indent| + |Phrase(words, gaps)|] == Phrase(words, gaps)
    ensures RunEnd(line, 0, Space) == |indent|
    ensures PhraseEnd(line, |indent|, words) == Some(|indent| + |Phrase(words, gaps)|)
  {
    var a, e := |indent|, |indent| + |Phrase(words, gaps)|;
    PhraseStarts(words, gaps);
    assert Plain(words[0]);
    assert line[a] == line[a..e][0];
    BlankRun(line, 0, a);
    PhraseEndOfPhrase(line, a, words, gaps);
  }

  /**
   * A line laid out as the tool prints a field matches its rule: past the
   * indent, the words end at `e`, the separator's whitespace runs to `c`,
   * and the value starts at `h`. The capture starts at the value, or
   * straight after the colon for `\s*:(.+)`.
   */
  lemma LaidOutMatchesAt(line: string, rule: FieldRule, lay: Layout, value: string, e: nat, c: nat, h: nat, v: nat)
    requires PlainWords(rule.words) && LaidOut(rule, lay)
    requires |value| > 0 && !IsSpace(value[0])
    requires e == |lay.indent| + |Phrase(rule.words, lay.gaps)| && c == e + |lay.sep|
    requires h == c + (if rule.sep == Colon then 1 + |lay.pad| else 0)
    requires h + |value| <= |line|
    requires line[0..|lay.indent|] == lay.indent
    requires line[|lay.indent|..e] == Phrase(rule.words, lay.gaps)
    requires line[e..c] == lay.sep
    requires rule.sep == Colon ==> line[c] == ':' && line[c + 1..h] == lay.pad
    requires line[h..h + |value|] == value
    requires v == (if rule.sep == Colon && rule.capture == RestOfLine then c + 1 else h)
    ensures v <= |line| && MatchRule(line, rule) == CaptureAt(line, v, rule.capture)
  {
    WordsAt(line, lay.indent, rule.words, lay.gaps);
    assert line[h] == line[h..h + |value|][0];
    ValueStartAt(line, rule, e, c, h, v);
    MatchRuleAt(line, rule, e, v);
  }

  /** A field line matches its rule, and the capture is what the value pattern takes where the capture starts. */
  lemma FieldLineMatchesAt(rule: FieldRule, lay: Layout, value: string)
    requires PlainWords(rule.words) && LaidOut(rule, lay)
    requires |value| > 0 && !IsSpace(value[0])
    ensures CaptureStart(rule, lay) <= |FieldLine(rule, lay, value)|
    ensures MatchRule(FieldLine(rule, lay, value), rule)
      == CaptureAt(FieldLine(rule, lay, value), CaptureStart(rule, lay), rule.capture)
  {
    var e := |lay.indent| + |Phrase(rule.words, lay.gaps)|;
    var c := e + |lay.sep|;
    var h := |Head(rule, lay)|;
    FieldLineParts(rule, lay, value);
    LaidOutMatchesAt(FieldLine(rule, lay, value), rule, lay, value, e, c, h, CaptureStart(rule, lay));
  }

  lemma MatchRuleAt(line: string, rule: FieldRule, e: nat, v: nat)
    requires e <= |line|
    requires PhraseEnd(line, RunEnd(line, 0, Space), rule.words) == Some(e)
    requires ValueStart(line, e, rule) == Some(v)
    ensures MatchRule(line, rule) == CaptureAt(line, v, rule.capture)
  {
  }

  /**
   * The patterns read back what the tool prints, whatever its column
   * padding: a field line in any layout the pattern allows, holding a value
   * of the right shape, matches its rule and captures that value. A `.+`
   * capture also takes the whitespace around the value (after the colon,
   * and at the end of the line); a model number leaves the padding after it
   * out.
   */
  lemma FieldLineRoundTrip(rule: FieldRule, lay: Layout, value: string)
    requires PlainWords(rule.words) && LaidOut(rule, lay)
    requires FitsCapture(value, rule.capture)
    ensures MatchRule(FieldLine(rule, lay, value), rule)
      == Some(if rule.capture != RestOfLine then value else Lead(rule, lay) + value + lay.trailer)
  {
    var line := FieldLine(rule, lay, value);
    var v := CaptureStart(rule, lay);
    ValueShape(value, rule.capture);
    FieldLineMatchesAt(rule, lay, value);
    FieldLineTail(rule, lay, value);
    CaptureFrom(line, v, rule.capture, Lead(rule, lay), value, lay.trailer);
  }

  /** A value of any capture's shape starts with a non-space. */
  lemma ValueShape(value: string, capture: Capture)
    requires FitsCapture(value, capture)
    ensures |value| > 0 && !IsSpace(value[0])
  {
  }

  /** From where the capture starts, a line holding the value between whitespace gives the captured text. */
  lemma CaptureFrom(line: string, v: nat, capture: Capture, lead: string, value: string, trailer: string)
    requires v <= |line| && FitsCapture(value, capture) && Blank(trailer)
    requires line[v..] == lead + value + trailer
    requires if capture == RestOfLine then Blank(lead) else lead == ""
    ensures CaptureAt(line, v, capture) == Some(if capture != RestOfLine then value else lead + value + trailer)
  {
    if capture == RestOfLine {
      var rest := lead + value + trailer;
      forall k | v <= k < |line| ensures line[k] != '\n' {
        assert line[k] == rest[k - v];
      }
      CaptureRestOfLine(line, v);
    } else {
      assert lead + value + trailer == value + trailer;
      PrefixRest(line, v, value + trailer);
      Regroup(line[..v], value, trailer);
      CaptureOfValue(line[..v], value, trailer, capture);
    }
  }

  lemma Regroup(a: string, b: string, c: string)
    ensures a + b + c == a + (b + c)
  {
  }

  /** A string is its prefix up to `v` followed by what comes after. */
  lemma PrefixRest(line: string, v: nat, rest: string)
    requires v <= |line| && line[v..] == rest
    ensures line == line[..v] + rest
  {
  }

  lemma CaptureRestOfLine(line: string, v: nat)
    requires v < |line|
    requires forall k :: v <= k < |line| ==> line[k] != '\n'
    ensures CaptureAt(line, v, RestOfLine) == Some(line[v..])
  {
    RunEndUnique(line, v, |line|, NotNewline);
    assert line[v..|line|] == line[v..];
  }

  /** A value of the right shape followed only by whitespace is captured whole. */
  lemma CaptureOfValue(before: string, value: string, trailer: string, capture: Capture)
    requires FitsCapture(value, capture) && Blank(trailer)
    requires capture != RestOfLine
    ensures CaptureAt(before + value + trailer, |before|, capture) == Some(value)
  {
    var line := before + value + trailer;
    var v, n := |before|, |before| + |value|;
    assert forall k :: v <= k < n ==> line[k] == value[k - v];
    assert n < |line| ==> line[n] == trailer[0];
    assert line[v..n] == value;
    match capture {
      case Digits =>
        RunEndUnique(line, v, n, Digit);
      case WordRun =>
        RunEndUnique(line, v, n, Word);
      case ModelName =>
        ModelCaptureAfter(before, value, trailer);
    }
  }

  // ---------------------------------------------------------------------
  // Healthy states
  // ---------------------------------------------------------------------

  /** `W\s*\(C\)` at `p`, ignoring case. */
  predicate TaggedAt(s: string, p: nat, word: string, code: string) {
    LitAt(s, p, word) && LitAt(s, RunEnd(s, p + |word|, Space), "(" + code + ")")
  }

  /** The fixed state patterns. */
  datatype StatePattern =
    | Tagged(word: string, code: string)   // W\s*\(C\)
    | InactiveOkay                         // (Inactive,\s*)?Okay\s*\(OKY\)

  predicate MatchesAt(pat: StatePattern, s: string, p: nat) {
    match pat
    case Tagged(word, code) => TaggedAt(s, p, word, code)
    case InactiveOkay =>
      (LitAt(s, p, "Inactive,") && TaggedAt(s, RunEnd(s, p + 9, Space), "Okay", "OKY"))
      || TaggedAt(s, p, "Okay", "OKY")
  }

  /** `pattern.search(s)` succeeds: the pattern matches at some position of `s`. */
  predicate Search(pat: StatePattern, s: string) {
    exists q | 0 <= q <= |s| :: MatchesAt(pat, s, q)
  }

  lemma InactiveOkayHasTag(s: string, q: nat)
    requires MatchesAt(InactiveOkay, s, q)
    ensures exists r :: 0 <= r <= |s| && MatchesAt(Tagged("Okay", "OKY"), s, r)
  {
    if TaggedAt(s, q, "Okay", "OKY") {
      assert MatchesAt(Tagged("Okay", "OKY"), s, q);
    } else {
      var r := RunEnd(s, q + 9, Space);
      assert MatchesAt(Tagged("Okay", "OKY"), s, r);
    }
  }

  /**
   * The optional `Inactive,` prefix changes nothing about whether the search
   * succeeds: the volume is healthy exactly when `Okay\s*\(OKY\)` occurs
   * anywhere in its state, ignoring case.
   */
  lemma InactivePrefixIrrelevant(s: string)
    ensures Search(InactiveOkay, s) <==> Search(Tagged("Okay", "OKY"), s)
  {
    if Search(InactiveOkay, s) {
      var q :| 0 <= q <= |s| && MatchesAt(InactiveOkay, s, q);
      InactiveOkayHasTag(s, q);
    }
    if Search(Tagged("Okay", "OKY"), s) {
      var q :| 0 <= q <= |s| && MatchesAt(Tagged("Okay", "OKY"), s, q);
      assert MatchesAt(InactiveOkay, s, q);
    }
  }
}
