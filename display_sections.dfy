/**
 * sas2ircu's `DISPLAY` output cut up two ways: into sections on the dash
 * rules between them (`split_display_sections`), and a section into records
 * on zero-length lines (`split_by_empty_line`).
 */
module DisplaySections {
  import opened Wrappers
  import opened Scan

  // ---------------------------------------------------------------------
  // re.split(r"-{2,}\n", text)
  // ---------------------------------------------------------------------

  /** The rule pattern `-{2,}\n` matches at `j`. */
  predicate RuleAt(s: string, j: nat) {
    j <= |s| && var d := RunEnd(s, j, Dash); d - j >= 2 && d < |s| && s[d] == '\n'
  }

  /** The segments between rules, scanning from `j` in a segment that began at `start`. */
  function SplitFrom(s: string, start: nat, j: nat): seq<string>
    requires start <= j <= |s|
    decreases |s| - j
  {
    if j == |s| then [s[start..]]
    else if RuleAt(s, j) then
      var e := RunEnd(s, j, Dash) + 1;
      [s[start..j]] + SplitFrom(s, e, e)
    else SplitFrom(s, start, j + 1)
  }

  /** The rules themselves, as the scan above meets them. */
  function RulesFrom(s: string, j: nat): seq<string>
    requires j <= |s|
    decreases |s| - j
  {
    if j == |s| then []
    else if RuleAt(s, j) then
      var e := RunEnd(s, j, Dash) + 1;
      [s[j..e]] + RulesFrom(s, e)
    else RulesFrom(s, j + 1)
  }

  /** `re.split(r"-{2,}\n", s)`. */
  function SplitOnRules(s: string): seq<string> {
    SplitFrom(s, 0, 0)
  }

  function RulesIn(s: string): seq<string> {
    RulesFrom(s, 0)
  }

  /** Two or more dashes and a newline. */
  ghost predicate IsRule(r: string) {
    |r| >= 3 && r[|r| - 1] == '\n' && forall k :: 0 <= k < |r| - 1 ==> r[k] == '-'
  }

  /** Segments with a separator between each two: the inverse of splitting. */
  function Interleave(parts: seq<string>, seps: seq<string>): string
    requires |parts| == |seps| + 1
    decreases |seps|
  {
    if |seps| == 0 then parts[0] else parts[0] + seps[0] + Interleave(parts[1..], seps[1..])
  }

  lemma {:induction false} SplitFromCount(s: string, start: nat, j: nat)
    requires start <= j <= |s|
    ensures |SplitFrom(s, start, j)| == |RulesFrom(s, j)| + 1
    decreases |s| - j
  {
    if j < |s| {
      if RuleAt(s, j) {
        var e := RunEnd(s, j, Dash) + 1;
        SplitFromCount(s, e, e);
      } else {
        SplitFromCount(s, start, j + 1);
      }
    }
  }

  lemma {:induction false} RulesFromAreRules(s: string, j: nat)
    requires j <= |s|
    ensures forall r :: r in RulesFrom(s, j) ==> IsRule(r)
    decreases |s| - j
  {
    if j < |s| {
      if RuleAt(s, j) {
        var e := RunEnd(s, j, Dash) + 1;
        RulesFromAreRules(s, e);
        assert IsRule(s[j..e]);
      } else {
        RulesFromAreRules(s, j + 1);
      }
    }
  }

  lemma {:induction false} SplitFromReassembles(s: string, start: nat, j: nat)
    requires start <= j <= |s|
    ensures |SplitFrom(s, start, j)| == |RulesFrom(s, j)| + 1
    ensures Interleave(SplitFrom(s, start, j), RulesFrom(s, j)) == s[start..]
    decreases |s| - j
  {
    SplitFromCount(s, start, j);
    if j < |s| {
      if RuleAt(s, j) {
        var e := RunEnd(s, j, Dash) + 1;
        SplitFromReassembles(s, e, e);
        var ps, rs := SplitFrom(s, e, e), RulesFrom(s, e);
        assert Interleave(SplitFrom(s, start, j), RulesFrom(s, j)) == s[start..j] + s[j..e] + Interleave(ps, rs);
        assert s[start..] == s[start..j] + s[j..e] + s[e..];
      } else {
        SplitFromReassembles(s, start, j + 1);
      }
    }
  }

  /**
   * Splitting loses nothing: the segments with the rules put back between
   * them are the input, and there is one segment more than there are rules.
   */
  lemma SplitReassembles(s: string)
    ensures |SplitOnRules(s)| == |RulesIn(s)| + 1
    ensures forall r :: r in RulesIn(s) ==> IsRule(r)
    ensures Interleave(SplitOnRules(s), RulesIn(s)) == s
  {
    SplitFromReassembles(s, 0, 0);
    RulesFromAreRules(s, 0);
  }

  /** A segment that the splitter leaves whole, even with a rule right after it. */
  ghost predicate RuleFree(p: string) {
    (forall k :: 0 <= k <= |p| ==> !RuleAt(p, k)) && (|p| == 0 || p[|p| - 1] != '-')
  }

  lemma {:induction false} SplitFromSkips(s: string, start: nat, j: nat, end: nat)
    requires start <= j <= end <= |s|
    requires forall k :: j <= k < end ==> !RuleAt(s, k)
    ensures SplitFrom(s, start, j) == SplitFrom(s, start, end)
    decreases end - j
  {
    if j < end {
      SplitFromSkips(s, start, j + 1, end);
    }
  }

  lemma {:induction false} RulesFromSkips(s: string, j: nat, end: nat)
    requires j <= end <= |s|
    requires forall k :: j <= k < end ==> !RuleAt(s, k)
    ensures RulesFrom(s, j) == RulesFrom(s, end)
    decreases end - j
  {
    if j < end {
      RulesFromSkips(s, j + 1, end);
    }
  }

  /** A rule-free segment sitting at `a` starts no rule, whatever follows it. */
  lemma NoRuleInside(s: string, a: nat, p: string, k: nat)
    requires a + |p| <= |s| && s[a..a + |p|] == p
    requires RuleFree(p)
    requires a <= k < a + |p|
    ensures !RuleAt(s, k)
  {
    var d := RunEnd(s, k, Dash);
    assert s[a + |p| - 1] == p[|p| - 1];
    assert d < a + |p|;
    forall m | k - a <= m < d - a ensures Dash.Has(p[m]) {
      assert p[m] == s[a + m];
    }
    assert p[d - a] == s[d];
    RunEndUnique(p, k - a, d - a, Dash);
    assert !RuleAt(p, k - a);
  }

  lemma RuleAtStart(s: string, a: nat, r: string)
    requires a + |r| <= |s| && s[a..a + |r|] == r
    requires IsRule(r)
    ensures RuleAt(s, a) && RunEnd(s, a, Dash) + 1 == a + |r|
  {
    forall m | a <= m < a + |r| - 1 ensures Dash.Has(s[m]) {
      assert s[m] == r[m - a];
    }
    assert s[a + |r| - 1] == r[|r| - 1];
    RunEndUnique(s, a, a + |r| - 1, Dash);
  }

  lemma NoRuleAtEnd(s: string)
    ensures !RuleAt(s, |s|)
  {
  }

  /** No rule starts inside a rule-free segment. */
  lemma NoRuleWithin(s: string, a: nat, p: string)
    requires a + |p| <= |s| && s[a..a + |p|] == p
    requires RuleFree(p)
    ensures forall k :: a <= k < a + |p| ==> !RuleAt(s, k)
  {
    forall k | a <= k < a + |p| ensures !RuleAt(s, k) {
      NoRuleInside(s, a, p, k);
    }
  }

  /** The last segment runs to the end of the text. */
  lemma SplitFromLast(s: string, a: nat, p: string)
    requires a <= |s| && s[a..] == p
    requires RuleFree(p)
    ensures SplitFrom(s, a, a) == [p]
    ensures RulesFrom(s, a) == []
  {
    assert a + |p| == |s| && s[a..a + |p|] == p;
    NoRuleWithin(s, a, p);
    SplitFromSkips(s, a, a, |s|);
    RulesFromSkips(s, a, |s|);
  }

  lemma SplitFromAtRule(s: string, start: nat, j: nat, e: nat)
    requires start <= j < |s| && RuleAt(s, j) && e == RunEnd(s, j, Dash) + 1
    ensures SplitFrom(s, start, j) == [s[start..j]] + SplitFrom(s, e, e)
  {
  }

  lemma RulesFromAtRule(s: string, j: nat, e: nat)
    requires j < |s| && RuleAt(s, j) && e == RunEnd(s, j, Dash) + 1
    ensures RulesFrom(s, j) == [s[j..e]] + RulesFrom(s, e)
  {
  }

  /** A segment followed by a rule is cut off at the rule... */
  lemma SplitFromFirst(s: string, a: nat, p: string, r: string)
    requires a + |p| + |r| <= |s|
    requires s[a..a + |p|] == p && s[a + |p|..a + |p| + |r|] == r
    requires RuleFree(p) && IsRule(r)
    ensures SplitFrom(s, a, a) == [p] + SplitFrom(s, a + |p| + |r|, a + |p| + |r|)
  {
    var j, e := a + |p|, a + |p| + |r|;
    NoRuleWithin(s, a, p);
    SplitFromSkips(s, a, a, j);
    assert j + |r| <= |s| && s[j..j + |r|] == r;
    RuleAtStart(s, j, r);
    SplitFromAtRule(s, a, j, e);
  }

  /** ... and that rule is the first one the scan meets. */
  lemma RulesFromFirst(s: string, a: nat, p: string, r: string)
    requires a + |p| + |r| <= |s|
    requires s[a..a + |p|] == p && s[a + |p|..a + |p| + |r|] == r
    requires RuleFree(p) && IsRule(r)
    ensures RulesFrom(s, a) == [r] + RulesFrom(s, a + |p| + |r|)
  {
    var j, e := a + |p|, a + |p| + |r|;
    NoRuleWithin(s, a, p);
    RulesFromSkips(s, a, j);
    assert j + |r| <= |s| && s[j..j + |r|] == r;
    RuleAtStart(s, j, r);
    RulesFromAtRule(s, j, e);
  }

  lemma {:induction false} SplitFromInterleaved(s: string, a: nat, parts: seq<string>, rules: seq<string>)
    requires a <= |s|
    requires |parts| == |rules| + 1
    requires s[a..] == Interleave(parts, rules)
    requires forall p :: p in parts ==> RuleFree(p)
    requires forall r :: r in rules ==> IsRule(r)
    ensures SplitFrom(s, a, a) == parts
    ensures RulesFrom(s, a) == rules
    decreases |rules|
  {
    if |rules| == 0 {
      assert parts[0] in parts;
      assert s[a..] == parts[0] && RuleFree(parts[0]);
      SplitFromLast(s, a, parts[0]);
    } else {
      var p, r := parts[0], rules[0];
      var rest := Interleave(parts[1..], rules[1..]);
      assert s[a..] == p + r + rest;
      var e := a + |p| + |r|;
      assert s[a..a + |p|] == p;
      assert s[a + |p|..e] == r;
      assert s[e..] == rest;
      assert p in parts && r in rules;
      assert e <= |s| && RuleFree(p) && IsRule(r);
      SplitFromFirst(s, a, p, r);
      RulesFromFirst(s, a, p, r);
      assert forall q :: q in parts[1..] ==> RuleFree(q);
      assert forall q :: q in rules[1..] ==> IsRule(q);
      assert |parts[1..]| == |rules[1..]| + 1;
      SplitFromInterleaved(s, e, parts[1..], rules[1..]);
    }
  }

  /**
   * Splitting undoes interleaving: rule-free segments joined by rules split
   * back into exactly those segments.
   */
  lemma SplitInterleaved(parts: seq<string>, rules: seq<string>)
    requires |parts| == |rules| + 1
    requires forall p :: p in parts ==> RuleFree(p)
    requires forall r :: r in rules ==> IsRule(r)
    ensures SplitOnRules(Interleave(parts, rules)) == parts
    ensures RulesIn(Interleave(parts, rules)) == rules
  {
    var s := Interleave(parts, rules);
    assert s[0..] == s;
    SplitFromInterleaved(s, 0, parts, rules);
  }

  /** No segment the splitter returns contains a rule. */
  lemma {:induction false} SplitFromRuleFree(s: string, start: nat, j: nat)
    requires start <= j <= |s|
    requires forall k :: start <= k < j ==> !RuleAt(s, k)
    ensures forall p :: p in SplitFrom(s, start, j) ==> forall k :: 0 <= k <= |p| ==> !RuleAt(p, k)
    decreases |s| - j
  {
    if j == |s| {
      SegmentRuleFree(s, start, j);
      assert s[start..] == s[start..j];
      assert SplitFrom(s, start, j) == [s[start..j]];
    } else if RuleAt(s, j) {
      var e := RunEnd(s, j, Dash) + 1;
      SegmentRuleFree(s, start, j);
      SplitFromRuleFree(s, e, e);
    } else {
      SplitFromRuleFree(s, start, j + 1);
    }
  }

  lemma SegmentRuleFree(s: string, start: nat, j: nat)
    requires start <= j <= |s|
    requires forall k :: start <= k < j ==> !RuleAt(s, k)
    ensures forall k :: 0 <= k <= j - start ==> !RuleAt(s[start..j], k)
  {
    var p := s[start..j];
    forall k | 0 <= k <= |p| ensures !RuleAt(p, k) {
      var d := RunEnd(p, k, Dash);
      if d < |p| {
        forall m | start + k <= m < start + d ensures Dash.Has(s[m]) {
          assert s[m] == p[m - start];
        }
        assert s[start + d] == p[d];
        RunEndUnique(s, start + k, start + d, Dash);
        if k < |p| {
          assert !RuleAt(s, start + k);
        }
      }
    }
  }

  lemma SplitRuleFree(s: string)
    ensures forall p :: p in SplitOnRules(s) ==> forall k :: 0 <= k <= |p| ==> !RuleAt(p, k)
  {
    SplitFromRuleFree(s, 0, 0);
  }

  // ---------------------------------------------------------------------
  // split_display_sections
  // ---------------------------------------------------------------------

  /** What one segment must look like: anything (`.*`), or a header line. */
  datatype SectionCheck = AnyText | Header(words: seq<string>)

  /** `DISPLAY_CMD_STRUCT`: ten segments, headers at the odd positions 1, 3, 5 and 7. */
  const DisplayLayout: seq<SectionCheck> := [
    AnyText,
    Header(["Controller", "information"]),
    AnyText,
    Header(["IR", "Volume", "information"]),
    AnyText,
    Header(["Physical", "device", "information"]),
    AnyText,
    Header(["Enclosure", "information"]),
    AnyText,
    AnyText
  ]

  /** `^\s*W1\s+W2...\s*$` matched at the start of `part`, ignoring case. */
  predicate HeaderLine(part: string, words: seq<string>) {
    var i := RunEnd(part, 0, Space);
    match PhraseEnd(part, i, words)
    case None => false
    case Some(e) => RunEnd(part, e, Space) == |part|
  }

  predicate Accepts(check: SectionCheck, part: string) {
    match check
    case AnyText => true
    case Header(words) => HeaderLine(part, words)
  }

  /** The first segment from `k` on that its check rejects. */
  function FirstRejected(parts: seq<string>, k: nat): (r: Option<nat>)
    requires |parts| == |DisplayLayout| && k <= |parts|
    ensures r.Some? ==> k <= r.value < |parts| && !Accepts(DisplayLayout[r.value], parts[r.value])
    ensures r.Some? ==> forall m :: k <= m < r.value ==> Accepts(DisplayLayout[m], parts[m])
    ensures r.None? ==> forall m :: k <= m < |parts| ==> Accepts(DisplayLayout[m], parts[m])
    decreases |parts| - k
  {
    if k == |parts| then None
    else if !Accepts(DisplayLayout[k], parts[k]) then Some(k)
    else FirstRejected(parts, k + 1)
  }

  /** Why a `DISPLAY` dump was refused (the `ParseError`s of the collector). */
  datatype ParseFailure =
    | SectionCount(expected: nat, got: nat)
    | UnexpectedSection(index: nat, text: string)
    | IncompleteIrVolume(block: seq<string>)
    | IncompletePhysDevice(block: seq<string>)

  /** The four section bodies, in output order. */
  datatype Sections = Sections(controller: string, irVolume: string, physDevice: string, enclosure: string)

  /** Ten segments, each of which passes its check. */
  ghost predicate WellFormedDisplay(text: string) {
    var parts := SplitOnRules(text);
    |parts| == |DisplayLayout| && forall k :: 0 <= k < |parts| ==> Accepts(DisplayLayout[k], parts[k])
  }

  /**
   * `split_display_sections`, with a rejected header reported as the
   * `ParseError` it was meant to be. It succeeds exactly on well-formed
   * dumps, and then returns the bodies at positions 2, 4, 6 and 8.
   */
  function SplitDisplaySections(text: string): (r: Result<Sections, ParseFailure>)
    ensures r.Success? <==> WellFormedDisplay(text)
    ensures r.Success? ==>
      var parts := SplitOnRules(text);
      r.value == Sections(parts[2], parts[4], parts[6], parts[8])
    ensures |SplitOnRules(text)| != |DisplayLayout| ==>
      r == Failure(SectionCount(|DisplayLayout|, |SplitOnRules(text)|))
    ensures r.Failure? && r.error.UnexpectedSection? ==>
      var parts := SplitOnRules(text);
      var k := r.error.index;
      |parts| == |DisplayLayout| && k < |parts| && r.error.text == parts[k]
      && !Accepts(DisplayLayout[k], parts[k])
      && forall m :: 0 <= m < k ==> Accepts(DisplayLayout[m], parts[m])
  {
    var parts := SplitOnRules(text);
    if |parts| != |DisplayLayout| then Failure(SectionCount(|DisplayLayout|, |parts|))
    else
      match FirstRejected(parts, 0)
      case Some(k) => Failure(UnexpectedSection(k, parts[k]))
      case None => Success(Sections(parts[2], parts[4], parts[6], parts[8]))
  }

  /**
   * A dump assembled from ten rule-free segments that pass their checks,
   * joined by rules, comes apart into its four bodies.
   */
  lemma AssembledDisplaySplits(segments: seq<string>, rules: seq<string>)
    requires |segments| == |DisplayLayout| && |rules| == |DisplayLayout| - 1
    requires forall p :: p in segments ==> RuleFree(p)
    requires forall r :: r in rules ==> IsRule(r)
    requires forall k :: 0 <= k < |segments| ==> Accepts(DisplayLayout[k], segments[k])
    ensures SplitDisplaySections(Interleave(segments, rules))
      == Success(Sections(segments[2], segments[4], segments[6], segments[8]))
  {
    SplitInterleaved(segments, rules);
  }

  /** What the code as written raises. */
  datatype Raised = ParseError(failure: ParseFailure) | NameError(name: string)

  /**
   * `split_display_sections` as written: the message for a rejected header
   * refers to `pattern`, a name that is not defined, so a rejected header
   * raises `NameError` rather than `ParseError`.
   */
  function SplitDisplaySectionsAsWritten(text: string): Result<Sections, Raised> {
    var parts := SplitOnRules(text);
    if |parts| != |DisplayLayout| then Failure(ParseError(SectionCount(|DisplayLayout|, |parts|)))
    else
      match FirstRejected(parts, 0)
      case Some(k) => Failure(NameError("pattern"))
      case None => Success(Sections(parts[2], parts[4], parts[6], parts[8]))
  }

  /**
   * The two differ only on a dump with ten segments and a rejected header:
   * there the code as written raises `NameError`, which the collector's
   * `except ParseError` does not catch.
   */
  lemma RejectedHeaderIsNotParseError(text: string)
    ensures SplitDisplaySectionsAsWritten(text).Failure? <==> SplitDisplaySections(text).Failure?
    ensures SplitDisplaySections(text).Success? ==>
      SplitDisplaySectionsAsWritten(text).value == SplitDisplaySections(text).value
    ensures SplitDisplaySections(text).Failure? && SplitDisplaySections(text).error.SectionCount? ==>
      SplitDisplaySectionsAsWritten(text).error == ParseError(SplitDisplaySections(text).error)
    ensures SplitDisplaySections(text).Failure? && SplitDisplaySections(text).error.UnexpectedSection? ==>
      SplitDisplaySectionsAsWritten(text).error == NameError("pattern")
  {
  }

  lemma SmallSegmentsRuleFree()
    ensures RuleFree("") && RuleFree("x\n") && IsRule("--\n")
  {
    assert RunEnd("x\n", 0, Dash) == 0;
    assert RunEnd("x\n", 1, Dash) == 1;
    assert RunEnd("x\n", 2, Dash) == 2;
  }

  /** Ten segments of which the second is not the controller header ... */
  const BadHeaderSegments: seq<string> := ["", "x\n", "", "", "", "", "", "", "", ""]

  /** ... joined by nine bare rules: the dump `--\nx\n` followed by eight `--\n`. */
  const BadHeaderDump: string := Interleave(BadHeaderSegments, seq(9, _ => "--\n"))

  lemma BadHeaderDumpSegments()
    ensures SplitOnRules(BadHeaderDump) == BadHeaderSegments
  {
    SmallSegmentsRuleFree();
    assert forall p :: p in BadHeaderSegments ==> p == "" || p == "x\n";
    SplitInterleaved(BadHeaderSegments, seq(9, _ => "--\n"));
  }

  lemma BadHeaderRejected()
    ensures FirstRejected(BadHeaderSegments, 0) == Some(1)
  {
    assert !LitAt("x\n", 0, "Controller");
    assert !HeaderLine("x\n", ["Controller", "information"]);
  }

  /** On that dump the code as written raises `NameError`; the corrected splitter reports the segment. */
  lemma BadHeaderRaisesNameError()
    ensures SplitDisplaySectionsAsWritten(BadHeaderDump) == Failure(NameError("pattern"))
    ensures SplitDisplaySections(BadHeaderDump) == Failure(UnexpectedSection(1, "x\n"))
  {
    BadHeaderDumpSegments();
    BadHeaderRejected();
  }

  // ---------------------------------------------------------------------
  // split_by_empty_line
  // ---------------------------------------------------------------------

  /** Index of the first zero-length line at or after `start`, or `|lines|`. */
  function NextEmpty(lines: seq<string>, start: nat): (e: nat)
    requires start <= |lines|
    ensures start <= e <= |lines|
    ensures forall k :: start <= k < e ==> |lines[k]| > 0
    ensures e < |lines| ==> lines[e] == ""
    decreases |lines| - start
  {
    if start == |lines| || lines[start] == "" then start else NextEmpty(lines, start + 1)
  }

  /** The runs of non-empty lines from `start` on, in order. */
  function RunsFrom(lines: seq<string>, start: nat): seq<seq<string>>
    requires start <= |lines|
    decreases |lines| - start
  {
    if start == |lines| then []
    else
      var e := NextEmpty(lines, start);
      if e == start then RunsFrom(lines, start + 1)
      else if e == |lines| then [lines[start..]]
      else [lines[start..e]] + RunsFrom(lines, e + 1)
  }

  /** The runs of non-empty lines, in order: what `split_by_empty_line` returns for those lines. */
  function Blocks(lines: seq<string>): seq<seq<string>> {
    RunsFrom(lines, 0)
  }

  /** A record as the splitter returns it: at least one line, none of zero length. */
  predicate IsRun(p: seq<string>) {
    |p| > 0 && forall l :: l in p ==> |l| > 0
  }

  lemma {:induction false} RunsNonEmpty(lines: seq<string>, start: nat)
    requires start <= |lines|
    ensures forall p :: p in RunsFrom(lines, start) ==> IsRun(p)
    decreases |lines| - start
  {
    if start < |lines| {
      var e := NextEmpty(lines, start);
      if e == start {
        RunsNonEmpty(lines, start + 1);
      } else if e == |lines| {
        assert IsRun(lines[start..]) by {
          forall l | l in lines[start..] ensures |l| > 0 {
            var k :| 0 <= k < |lines| - start && lines[start..][k] == l;
            assert l == lines[start + k];
          }
        }
      } else {
        RunsNonEmpty(lines, e + 1);
        assert IsRun(lines[start..e]) by {
          forall l | l in lines[start..e] ensures |l| > 0 {
            var k :| 0 <= k < e - start && lines[start..e][k] == l;
            assert l == lines[start + k];
          }
        }
      }
    }
  }

  /** Every record has a line, and no record has a zero-length line. */
  lemma BlocksNonEmpty(lines: seq<string>)
    ensures forall p :: p in Blocks(lines) ==> IsRun(p)
  {
    RunsNonEmpty(lines, 0);
  }

  lemma {:induction false} NextEmptyAt(lines: seq<string>, start: nat, i: nat)
    requires start <= i <= |lines|
    requires i < |lines| ==> |lines[i]| == 0
    requires forall k :: start <= k < i ==> |lines[k]| > 0
    ensures NextEmpty(lines, start) == i
    decreases i - start
  {
    if start < i {
      NextEmptyAt(lines, start + 1, i);
    }
  }

  /** A run from `start` closed by the zero-length line `i`. */
  lemma RunsFromEmpty(lines: seq<string>, start: nat, i: nat)
    requires start <= i < |lines| && |lines[i]| == 0
    requires forall k :: start <= k < i ==> |lines[k]| > 0
    ensures i == start ==> RunsFrom(lines, start) == RunsFrom(lines, i + 1)
    ensures i > start ==> RunsFrom(lines, start) == [lines[start..i]] + RunsFrom(lines, i + 1)
  {
    NextEmptyAt(lines, start, i);
  }

  /** A run from `start` to the end of the lines. */
  lemma RunsFromUnbroken(lines: seq<string>, start: nat)
    requires start <= |lines|
    requires forall k :: start <= k < |lines| ==> |lines[k]| > 0
    ensures RunsFrom(lines, start) == if start == |lines| then [] else [lines[start..]]
  {
    NextEmptyAt(lines, start, |lines|);
  }

  /** Closing the run from `start` at the zero-length line `i` leaves the runs still to come as they were. */
  lemma CloseRun(before: seq<seq<string>>, after: seq<seq<string>>, lines: seq<string>, start: nat, i: nat)
    requires start <= i < |lines| && |lines[i]| == 0
    requires forall k :: start <= k < i ==> |lines[k]| > 0
    requires before + RunsFrom(lines, start) == Blocks(lines)
    requires after == if i == start then before else before + [lines[start..i]]
    ensures after + RunsFrom(lines, i + 1) == Blocks(lines)
  {
    RunsFromEmpty(lines, start, i);
    if i == start {
      assert RunsFrom(lines, start) == RunsFrom(lines, i + 1);
    } else {
      AppendAssoc(before, [lines[start..i]], RunsFrom(lines, i + 1));
    }
  }

  lemma ExtendRun(lines: seq<string>, start: nat, i: nat)
    requires start <= i < |lines| && |lines[i]| > 0
    requires forall k :: start <= k < i ==> |lines[k]| > 0
    ensures forall k :: start <= k < i + 1 ==> |lines[k]| > 0
  {
  }

  /** `split_by_empty_line`: the runs of non-empty lines of `text`. */
  method SplitByEmptyLine(text: string) returns (parts: seq<seq<string>>)
    ensures parts == Blocks(SplitLines(text))
  {
    parts := SplitRuns(SplitLines(text));
  }

  /**
   * The loop of `split_by_empty_line`: walks the lines with the index where
   * the current run began, closing a run at each zero-length line.
   */
  method SplitRuns(lines: seq<string>) returns (parts: seq<seq<string>>)
    ensures parts == Blocks(lines)
  {
    parts := [];
    var start := 0;
    for i := 0 to |lines|
      invariant start <= i
      invariant forall k :: start <= k < i ==> |lines[k]| > 0
      invariant parts + RunsFrom(lines, start) == Blocks(lines)
    {
      if |lines[i]| == 0 {
        ghost var before := parts;
        if i != start {
          parts := parts + [lines[start..i]];
        }
        CloseRun(before, parts, lines, start, i);
        start := i + 1;
      } else {
        ExtendRun(lines, start, i);
      }
    }
    RunsFromUnbroken(lines, start);
    if start != |lines| {
      parts := parts + [lines[start..]];
    }
  }

  /** The non-empty lines, in order. */
  function NonEmptyLines(lines: seq<string>): seq<string> {
    if |lines| == 0 then [] else (if lines[0] == "" then [] else [lines[0]]) + NonEmptyLines(lines[1..])
  }

  function Flatten(parts: seq<seq<string>>): seq<string> {
    if |parts| == 0 then [] else parts[0] + Flatten(parts[1..])
  }

  lemma {:induction false} NonEmptyLinesAppend(a: seq<string>, b: seq<string>)
    ensures NonEmptyLines(a + b) == NonEmptyLines(a) + NonEmptyLines(b)
    decreases |a|
  {
    if |a| == 0 {
      assert a + b == b;
    } else {
      assert (a + b)[1..] == a[1..] + b;
      NonEmptyLinesAppend(a[1..], b);
    }
  }

  lemma {:induction false} NonEmptyLinesOfFull(a: seq<string>)
    requires forall k :: 0 <= k < |a| ==> |a[k]| > 0
    ensures NonEmptyLines(a) == a
    decreases |a|
  {
    if |a| > 0 {
      NonEmptyLinesOfFull(a[1..]);
      assert a == [a[0]] + a[1..];
    }
  }

  /** The lines from `start` on, split at the zero-length line `i`. */
  lemma NonEmptyLinesAtEmpty(lines: seq<string>, start: nat, i: nat)
    requires start <= i < |lines| && lines[i] == ""
    requires forall k :: start <= k < i ==> |lines[k]| > 0
    ensures NonEmptyLines(lines[start..]) == lines[start..i] + NonEmptyLines(lines[i + 1..])
  {
    var tail := [lines[i]] + lines[i + 1..];
    assert lines[start..] == lines[start..i] + tail;
    NonEmptyLinesAppend(lines[start..i], tail);
    NonEmptyLinesOfFull(lines[start..i]);
    assert tail[1..] == lines[i + 1..];
  }

  lemma {:induction false} RunsKeepLines(lines: seq<string>, start: nat)
    requires start <= |lines|
    ensures Flatten(RunsFrom(lines, start)) == NonEmptyLines(lines[start..])
    decreases |lines| - start
  {
    if start < |lines| {
      var i := NextEmpty(lines, start);
      if i == |lines| {
        RunsFromUnbroken(lines, start);
        NonEmptyLinesOfFull(lines[start..]);
        assert Flatten([lines[start..]]) == lines[start..] + Flatten([]);
      } else {
        RunsFromEmpty(lines, start, i);
        NonEmptyLinesAtEmpty(lines, start, i);
        RunsKeepLines(lines, i + 1);
        if i > start {
          assert Flatten([lines[start..i]] + RunsFrom(lines, i + 1))
            == lines[start..i] + Flatten(RunsFrom(lines, i + 1));
        } else {
          assert lines[start..i] == [];
        }
      }
    }
  }

  /**
   * The records partition the lines: put back together they are the input
   * lines with the zero-length ones removed, in order.
   */
  lemma BlocksKeepLines(lines: seq<string>)
    ensures Flatten(Blocks(lines)) == NonEmptyLines(lines)
  {
    RunsKeepLines(lines, 0);
    assert lines[0..] == lines;
  }

  /** Lines without a zero-length one form a single record; no lines form none. */
  lemma BlocksOfUnbroken(lines: seq<string>)
    requires forall k :: 0 <= k < |lines| ==> |lines[k]| > 0
    ensures Blocks(lines) == if |lines| == 0 then [] else [lines]
  {
    RunsFromUnbroken(lines, 0);
    assert lines[0..] == lines;
  }

  /** Records with one zero-length line after each. */
  function Separate(parts: seq<seq<string>>): seq<string> {
    if |parts| == 0 then [] else parts[0] + [""] + Separate(parts[1..])
  }

  /** Where the first separated record and its zero-length line `e` sit among the lines. */
  lemma SeparateHead(lines: seq<string>, start: nat, p: seq<string>, rest: seq<string>, e: nat)
    requires start <= |lines| && lines[start..] == p + [""] + rest
    requires IsRun(p) && e == start + |p|
    ensures start < e < |lines| && |lines[e]| == 0
    ensures forall k :: start <= k < e ==> |lines[k]| > 0
    ensures lines[start..e] == p && lines[e + 1..] == rest
  {
    forall k | start <= k < e ensures |lines[k]| > 0 {
      assert lines[k] == lines[start..][k - start] == p[k - start];
      assert p[k - start] in p;
    }
    assert lines[e] == lines[start..][|p|] == "";
    assert lines[start..e] == lines[start..][..|p|] == p;
    assert lines[e + 1..] == lines[start..][|p| + 1..] == rest;
  }

  lemma RunsOfNoRecord(lines: seq<string>, start: nat, parts: seq<seq<string>>)
    requires start <= |lines| && lines[start..] == Separate(parts) && |parts| == 0
    ensures RunsFrom(lines, start) == parts
  {
    assert start == |lines| && parts == [];
  }

  /** Separated records found from `start` on split back into those records. */
  lemma {:induction false} RunsOfSeparate(lines: seq<string>, start: nat, parts: seq<seq<string>>)
    requires start <= |lines| && lines[start..] == Separate(parts)
    requires forall p :: p in parts ==> IsRun(p)
    ensures RunsFrom(lines, start) == parts
    decreases |parts|, 1
  {
    if |parts| == 0 {
      RunsOfNoRecord(lines, start, parts);
    } else {
      RunsOfFirstRecord(lines, start, parts);
    }
  }

  /** The first record is cut off at its zero-length line, the others follow. */
  lemma {:induction false} RunsOfFirstRecord(lines: seq<string>, start: nat, parts: seq<seq<string>>)
    requires start <= |lines| && lines[start..] == Separate(parts) && |parts| > 0
    requires forall p :: p in parts ==> IsRun(p)
    ensures RunsFrom(lines, start) == parts
    decreases |parts|, 0
  {
    var p := parts[0];
    assert IsRun(p);
    var e := start + |p|;
    SeparateHead(lines, start, p, Separate(parts[1..]), e);
    RunsFromEmpty(lines, start, e);
    assert e + 1 <= |lines| && lines[e + 1..] == Separate(parts[1..]);
    assert forall q :: q in parts[1..] ==> IsRun(q);
    RunsOfSeparate(lines, e + 1, parts[1..]);
    assert RunsFrom(lines, start) == [p] + parts[1..];
    assert parts == [p] + parts[1..];
  }

  /**
   * Splitting undoes separating: records of non-empty lines, written out
   * with a zero-length line after each, split back into the same records.
   */
  lemma BlocksOfSeparate(parts: seq<seq<string>>)
    requires forall p :: p in parts ==> IsRun(p)
    ensures Blocks(Separate(parts)) == parts
  {
    var lines := Separate(parts);
    assert lines[0..] == lines;
    RunsOfSeparate(lines, 0, parts);
  }

  lemma NoTextNoBlocks()
    ensures Blocks(SplitLines("")) == []
  {
  }
}
