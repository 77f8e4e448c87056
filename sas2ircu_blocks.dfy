/**
 * The two record parsers of the sas2ircu collector: `parse_ir_volume_sect`
 * and `parse_phys_device_sect`. A section is cut into records at blank
 * lines; every line of a record is tried against each pattern of a fixed
 * table, the captures fill a label dictionary and the state capture decides
 * the 0/1 value of one `sas2ircu_state_ok` metric per record.
 */
module Sas2ircuBlocks {
  import opened Wrappers
  import opened Scan
  import opened Sas2ircuFields
  import Metrics
  import DisplaySections

  /** Which section a record comes from. */
  datatype BlockKind = IrVolume | PhysDevice

  /** The pattern table of the section. */
  function Rules(kind: BlockKind): seq<FieldRule> {
    match kind
    case IrVolume => IrVolumeRules
    case PhysDevice => PhysDeviceRules
  }

  /** The `device` label every metric of the section starts with. */
  function DeviceName(kind: BlockKind): string {
    match kind
    case IrVolume => "logical"
    case PhysDevice => "physical"
  }

  /** The labels a complete record carries. */
  function LabelKeys(kind: BlockKind): set<string> {
    match kind
    case IrVolume => {"device", "volume_num", "volume_id", "raidlevel"}
    case PhysDevice => {"device", "enclosure", "slot", "model"}
  }

  /** `sas2ircu_state_ok`, the template of every metric of this collector. */
  const StateOk := Metrics.Descriptor("sas2ircu_state_ok", "gauge", "reports whether device state is ok")

  /**
   * Whether a captured state is a healthy one: `IR_VOLUME_OK_STATE` for a
   * volume, either of `PHYS_DEVICE_OK_STATE` for a disk, searched anywhere
   * in the capture.
   */
  predicate Healthy(kind: BlockKind, state: string) {
    match kind
    case IrVolume => Search(InactiveOkay, state)
    case PhysDevice => Search(Tagged("Optimal", "OPT"), state) || Search(Tagged("Ready", "RDY"), state)
  }

  /** Healthy means one of the good phrases occurs somewhere in the state, ignoring case. */
  lemma HealthyIff(kind: BlockKind, state: string)
    ensures kind == IrVolume ==>
      (Healthy(kind, state) <==> exists q :: 0 <= q <= |state| && TaggedAt(state, q, "Okay", "OKY"))
    ensures kind == PhysDevice ==>
      (Healthy(kind, state) <==> exists q :: (0 <= q <= |state|
        && (TaggedAt(state, q, "Optimal", "OPT") || TaggedAt(state, q, "Ready", "RDY"))))
  {
    InactivePrefixIrrelevant(state);
    if Search(Tagged("Okay", "OKY"), state) {
      var q :| 0 <= q <= |state| && MatchesAt(Tagged("Okay", "OKY"), state, q);
      assert TaggedAt(state, q, "Okay", "OKY");
    }
    if Search(Tagged("Optimal", "OPT"), state) {
      var q :| 0 <= q <= |state| && MatchesAt(Tagged("Optimal", "OPT"), state, q);
      assert TaggedAt(state, q, "Optimal", "OPT");
    }
    if Search(Tagged("Ready", "RDY"), state) {
      var q :| 0 <= q <= |state| && MatchesAt(Tagged("Ready", "RDY"), state, q);
      assert TaggedAt(state, q, "Ready", "RDY");
    }
    if exists q :: 0 <= q <= |state| && TaggedAt(state, q, "Okay", "OKY") {
      var q :| 0 <= q <= |state| && TaggedAt(state, q, "Okay", "OKY");
      assert MatchesAt(Tagged("Okay", "OKY"), state, q);
    }
    if exists q :: 0 <= q <= |state| && TaggedAt(state, q, "Optimal", "OPT") {
      var q :| 0 <= q <= |state| && TaggedAt(state, q, "Optimal", "OPT");
      assert MatchesAt(Tagged("Optimal", "OPT"), state, q);
    }
    if exists q :: 0 <= q <= |state| && TaggedAt(state, q, "Ready", "RDY") {
      var q :| 0 <= q <= |state| && TaggedAt(state, q, "Ready", "RDY");
      assert MatchesAt(Tagged("Ready", "RDY"), state, q);
    }
  }

  // ---------------------------------------------------------------------
  // One record
  // ---------------------------------------------------------------------

  /** The `labels` dictionary and the `value` variable while a record is read. */
  datatype Progress = Progress(labels: map<string, string>, value: Option<bool>)

  function Start(kind: BlockKind): Progress {
    Progress(map["device" := DeviceName(kind)], None)
  }

  /** What one pattern captured on one line: the state capture sets the value, any other capture a label. */
  function Record(kind: BlockKind, p: Progress, rule: FieldRule, c: Option<string>): Progress {
    match c
    case None => p
    case Some(v) =>
      if rule.attr == "state" then p.(value := Some(Healthy(kind, v)))
      else p.(labels := p.labels[rule.attr := v])
  }

  /** The outcomes of the patterns of `rules` on one line, recorded in table order. */
  function RecordAll(kind: BlockKind, p: Progress, rules: seq<FieldRule>, cs: seq<Option<string>>): Progress
    requires |cs| == |rules|
    decreases |rules|
  {
    if |rules| == 0 then p
    else Record(kind, RecordAll(kind, p, rules[..|rules| - 1], cs[..|rules| - 1]), rules[|rules| - 1], cs[|rules| - 1])
  }

  /** What each pattern of `rules` captures on `line` (`regex.match(line)`). */
  function Captures(line: string, rules: seq<FieldRule>): (cs: seq<Option<string>>)
    ensures |cs| == |rules|
  {
    seq(|rules|, i requires 0 <= i < |rules| => MatchRule(line, rules[i]))
  }

  /** What each pattern captures on each line: one row per line. */
  function Grid(lines: seq<string>, rules: seq<FieldRule>): (g: seq<seq<Option<string>>>)
    ensures |g| == |lines| && forall k :: 0 <= k < |g| ==> |g[k]| == |rules|
  {
    seq(|lines|, k requires 0 <= k < |lines| => Captures(lines[k], rules))
  }

  ghost predicate RowsFit(kind: BlockKind, rows: seq<seq<Option<string>>>) {
    forall k :: 0 <= k < |rows| ==> |rows[k]| == |Rules(kind)|
  }

  /** The state once the captures of every line have been recorded, line by line. */
  function ReadRows(kind: BlockKind, rows: seq<seq<Option<string>>>): Progress
    requires RowsFit(kind, rows)
    decreases |rows|
  {
    if |rows| == 0 then Start(kind)
    else RecordAll(kind, ReadRows(kind, rows[..|rows| - 1]), Rules(kind), rows[|rows| - 1])
  }

  /** The state once every line of `lines` has been read, in order. */
  function ReadLines(kind: BlockKind, lines: seq<string>): Progress {
    ReadRows(kind, Grid(lines, Rules(kind)))
  }

  /** The error a record with a missing field raises. */
  function Incomplete(kind: BlockKind, block: seq<string>): DisplaySections.ParseFailure {
    match kind
    case IrVolume => DisplaySections.IncompleteIrVolume(block)
    case PhysDevice => DisplaySections.IncompletePhysDevice(block)
  }

  /** What one record gives: its metric, or the error for a missing field. */
  function BlockResult(kind: BlockKind, block: seq<string>): Result<Metrics.Metric, DisplaySections.ParseFailure> {
    var p := ReadLines(kind, block);
    if p.value.None? || |p.labels| - 1 != |Rules(kind)| - 1 then Failure(Incomplete(kind, block))
    else Success(StateOk.With(Metrics.Bit(p.value.value), p.labels))
  }

  lemma RecordAllStep(kind: BlockKind, p: Progress, rules: seq<FieldRule>, cs: seq<Option<string>>, j: nat)
    requires |cs| == |rules| && j < |rules|
    ensures RecordAll(kind, p, rules[..j + 1], cs[..j + 1]) == Record(kind, RecordAll(kind, p, rules[..j], cs[..j]), rules[j], cs[j])
  {
    assert rules[..j + 1][..j] == rules[..j] && cs[..j + 1][..j] == cs[..j];
  }

  /** The inner `for regex, attr in ...` loop: every pattern against one line, in table order. */
  method ReadLine(kind: BlockKind, line: string, labels: map<string, string>, value: Option<bool>)
    returns (labels': map<string, string>, value': Option<bool>)
    ensures Progress(labels', value') == RecordAll(kind, Progress(labels, value), Rules(kind), Captures(line, Rules(kind)))
  {
    var rules := Rules(kind);
    ghost var cs := Captures(line, rules);
    labels', value' := labels, value;
    for j := 0 to |rules|
      invariant Progress(labels', value') == RecordAll(kind, Progress(labels, value), rules[..j], cs[..j])
    {
      var rule := rules[j];
      var m := MatchRule(line, rule);
      ghost var before := Progress(labels', value');
      if m.Some? {
        if rule.attr == "state" {
          value' := Some(Healthy(kind, m.value));
        } else {
          labels' := labels'[rule.attr := m.value];
        }
      }
      assert m == cs[j];
      assert Progress(labels', value') == Record(kind, before, rule, m);
      RecordAllStep(kind, Progress(labels, value), rules, cs, j);
    }
    assert rules[..|rules|] == rules && cs[..|rules|] == cs;
  }

  /**
   * The body of the `for part in parts` loop: every line against every
   * pattern, then the completeness test.
   */
  method ParseBlock(kind: BlockKind, block: seq<string>) returns (r: Result<Metrics.Metric, DisplaySections.ParseFailure>)
    ensures r == BlockResult(kind, block)
  {
    var labels := map["device" := DeviceName(kind)];
    var value: Option<bool> := None;
    ghost var grid := Grid(block, Rules(kind));
    for i := 0 to |block|
      invariant Progress(labels, value) == ReadRows(kind, grid[..i])
    {
      labels, value := ReadLine(kind, block[i], labels, value);
      assert grid[..i + 1][..i] == grid[..i];
    }
    assert grid[..|block|] == grid;
    if value.None? || |labels| - 1 != |Rules(kind)| - 1 {
      r := Failure(Incomplete(kind, block));
    } else {
      r := Success(StateOk.With(Metrics.Bit(value.value), labels));
    }
  }

  // ---------------------------------------------------------------------
  // What a record's metric holds
  // ---------------------------------------------------------------------

  function Get(m: map<string, string>, k: string): Option<string> {
    if k in m then Some(m[k]) else None
  }

  /** The last capture of a column, if any: a field given twice keeps its later value. */
  function Last(cs: seq<Option<string>>): Option<string>
    decreases |cs|
  {
    if |cs| == 0 then None
    else if cs[|cs| - 1].Some? then cs[|cs| - 1]
    else Last(cs[..|cs| - 1])
  }

  /** `Last` is the capture after which the column holds nothing, and is absent only for an empty column. */
  lemma {:induction false} LastSpec(cs: seq<Option<string>>)
    ensures Last(cs).None? <==> forall i :: 0 <= i < |cs| ==> cs[i].None?
    ensures Last(cs).Some? ==> exists i :: (0 <= i < |cs| && cs[i] == Last(cs)
      && forall j :: i < j < |cs| ==> cs[j].None?)
    decreases |cs|
  {
    if |cs| > 0 {
      var n := |cs| - 1;
      var init := cs[..n];
      if cs[n].Some? {
        assert cs[n] == Last(cs);
      } else {
        LastSpec(init);
        assert Last(cs) == Last(init);
        if Last(init).Some? {
          var i :| 0 <= i < n && init[i] == Last(init) && forall j :: i < j < n ==> init[j].None?;
          assert cs[i] == Last(cs) && forall j :: i < j < |cs| ==> cs[j].None?;
        } else {
          assert forall i :: 0 <= i < |cs| ==> cs[i].None? by {
            forall i | 0 <= i < |cs| ensures cs[i].None? {
              if i < n { assert cs[i] == init[i]; }
            }
          }
        }
      }
    }
  }

  /** What `rule` captures on each line of `lines`. */
  function Column(lines: seq<string>, rule: FieldRule): (cs: seq<Option<string>>)
    ensures |cs| == |lines|
  {
    seq(|lines|, k requires 0 <= k < |lines| => MatchRule(lines[k], rule))
  }

  /** The capture of the last line of `lines` that matches `rule`. */
  function LastMatch(lines: seq<string>, rule: FieldRule): Option<string> {
    Last(Column(lines, rule))
  }

  lemma LastMatchIff(lines: seq<string>, rule: FieldRule)
    ensures LastMatch(lines, rule).None? <==> forall k :: 0 <= k < |lines| ==> MatchRule(lines[k], rule).None?
    ensures LastMatch(lines, rule).Some? ==> exists k :: (0 <= k < |lines| && MatchRule(lines[k], rule) == LastMatch(lines, rule)
      && forall j :: k < j < |lines| ==> MatchRule(lines[j], rule).None?)
  {
    var cs := Column(lines, rule);
    LastSpec(cs);
    assert forall k :: 0 <= k < |lines| ==> cs[k] == MatchRule(lines[k], rule);
  }

  /** The attributes among `rules` whose pattern captured something, other than the state. */
  function LabelAttrs(rules: seq<FieldRule>, cs: seq<Option<string>>): set<string>
    requires |cs| == |rules|
  {
    set i | 0 <= i < |rules| && rules[i].attr != "state" && cs[i].Some? :: rules[i].attr
  }

  lemma {:induction false} RecordAllOther(kind: BlockKind, p: Progress, rules: seq<FieldRule>, cs: seq<Option<string>>, k: string)
    requires |cs| == |rules|
    requires forall i :: 0 <= i < |rules| ==> rules[i].attr != k
    ensures Get(RecordAll(kind, p, rules, cs).labels, k) == Get(p.labels, k)
    decreases |rules|
  {
    if |rules| > 0 {
      RecordAllOther(kind, p, rules[..|rules| - 1], cs[..|rules| - 1], k);
    }
  }

  lemma {:induction false} RecordAllNoState(kind: BlockKind, p: Progress, rules: seq<FieldRule>, cs: seq<Option<string>>)
    requires |cs| == |rules|
    requires forall i :: 0 <= i < |rules| ==> rules[i].attr != "state"
    ensures RecordAll(kind, p, rules, cs).value == p.value
    decreases |rules|
  {
    if |rules| > 0 {
      RecordAllNoState(kind, p, rules[..|rules| - 1], cs[..|rules| - 1]);
    }
  }

  /** The one pattern that sets label `rules[i].attr` decides it for this line. */
  lemma {:induction false} RecordAllOwn(kind: BlockKind, p: Progress, rules: seq<FieldRule>, cs: seq<Option<string>>, i: nat)
    requires |cs| == |rules|
    requires i < |rules| && rules[i].attr != "state"
    requires forall j :: 0 <= j < |rules| && j != i ==> rules[j].attr != rules[i].attr
    ensures Get(RecordAll(kind, p, rules, cs).labels, rules[i].attr)
      == if cs[i].Some? then cs[i] else Get(p.labels, rules[i].attr)
    decreases |rules|
  {
    var n := |rules| - 1;
    if i == n {
      RecordAllOther(kind, p, rules[..n], cs[..n], rules[i].attr);
    } else {
      assert rules[..n][i] == rules[i] && cs[..n][i] == cs[i];
      RecordAllOwn(kind, p, rules[..n], cs[..n], i);
    }
  }

  /** The one state pattern decides the value for this line. */
  lemma {:induction false} RecordAllState(kind: BlockKind, p: Progress, rules: seq<FieldRule>, cs: seq<Option<string>>, i: nat)
    requires |cs| == |rules|
    requires i < |rules| && rules[i].attr == "state"
    requires forall j :: 0 <= j < |rules| && j != i ==> rules[j].attr != "state"
    ensures RecordAll(kind, p, rules, cs).value
      == if cs[i].Some? then Some(Healthy(kind, cs[i].value)) else p.value
    decreases |rules|
  {
    var n := |rules| - 1;
    if i == n {
      RecordAllNoState(kind, p, rules[..n], cs[..n]);
    } else {
      assert rules[..n][i] == rules[i] && cs[..n][i] == cs[i];
      RecordAllState(kind, p, rules[..n], cs[..n], i);
    }
  }

  /** A line adds exactly the labels of the patterns it matches. */
  lemma {:induction false} RecordAllKeys(kind: BlockKind, p: Progress, rules: seq<FieldRule>, cs: seq<Option<string>>)
    requires |cs| == |rules|
    ensures RecordAll(kind, p, rules, cs).labels.Keys == p.labels.Keys + LabelAttrs(rules, cs)
    decreases |rules|
  {
    if |rules| > 0 {
      var n := |rules| - 1;
      var r0, c0 := rules[..n], cs[..n];
      RecordAllKeys(kind, p, r0, c0);
      var added := if rules[n].attr != "state" && cs[n].Some? then {rules[n].attr} else {};
      assert LabelAttrs(rules, cs) == LabelAttrs(r0, c0) + added by {
        forall a | a in LabelAttrs(rules, cs) ensures a in LabelAttrs(r0, c0) + added {
          var i :| 0 <= i < |rules| && rules[i].attr != "state" && cs[i].Some? && rules[i].attr == a;
          if i < n {
            assert r0[i] == rules[i] && c0[i] == cs[i];
          }
        }
        forall a | a in LabelAttrs(r0, c0) ensures a in LabelAttrs(rules, cs) {
          var i :| 0 <= i < n && r0[i].attr != "state" && c0[i].Some? && r0[i].attr == a;
          assert rules[i] == r0[i] && cs[i] == c0[i];
        }
      }
    }
  }

  /** Both tables: distinct attributes, none of them `device`, the state pattern third. */
  ghost predicate TableShape(rules: seq<FieldRule>) {
    |rules| == 4 && rules[2].attr == "state"
    && (forall i :: 0 <= i < 4 && i != 2 ==> rules[i].attr != "state" && rules[i].attr != "device")
    && forall i, j :: 0 <= i < j < 4 ==> rules[i].attr != rules[j].attr
  }

  lemma TablesShaped(kind: BlockKind)
    ensures TableShape(Rules(kind))
    ensures LabelKeys(kind) == {"device", Rules(kind)[0].attr, Rules(kind)[1].attr, Rules(kind)[3].attr}
  {
  }

  /** What one line does to a record being read. */
  lemma LineEffect(kind: BlockKind, p: Progress, cs: seq<Option<string>>)
    requires |cs| == |Rules(kind)|
    ensures var q, rules := RecordAll(kind, p, Rules(kind), cs), Rules(kind);
      && (forall i :: 0 <= i < 4 && i != 2 ==>
            Get(q.labels, rules[i].attr) == if cs[i].Some? then cs[i] else Get(p.labels, rules[i].attr))
      && Get(q.labels, "device") == Get(p.labels, "device")
      && q.value == (if cs[2].Some? then Some(Healthy(kind, cs[2].value)) else p.value)
      && q.labels.Keys == p.labels.Keys + LabelAttrs(rules, cs)
  {
    var rules := Rules(kind);
    TablesShaped(kind);
    forall i | 0 <= i < 4 && i != 2
      ensures Get(RecordAll(kind, p, rules, cs).labels, rules[i].attr)
        == if cs[i].Some? then cs[i] else Get(p.labels, rules[i].attr)
    {
      RecordAllOwn(kind, p, rules, cs, i);
    }
    RecordAllOther(kind, p, rules, cs, "device");
    RecordAllState(kind, p, rules, cs, 2);
    RecordAllKeys(kind, p, rules, cs);
  }

  /** Column `i` of the rows: what pattern `i` captured on each line. */
  function Col(rows: seq<seq<Option<string>>>, i: nat): (c: seq<Option<string>>)
    requires forall k :: 0 <= k < |rows| ==> i < |rows[k]|
    ensures |c| == |rows|
  {
    seq(|rows|, k requires 0 <= k < |rows| => rows[k][i])
  }

  /** The labels of the table whose pattern captured on some line. */
  function Found(kind: BlockKind, rows: seq<seq<Option<string>>>): set<string>
    requires RowsFit(kind, rows)
  {
    set i | 0 <= i < |Rules(kind)| && i != 2 && Last(Col(rows, i)).Some? :: Rules(kind)[i].attr
  }

  lemma ColSnoc(rows: seq<seq<Option<string>>>, i: nat)
    requires |rows| > 0 && forall k :: 0 <= k < |rows| ==> i < |rows[k]|
    ensures var n := |rows| - 1;
      Last(Col(rows, i)) == if rows[n][i].Some? then rows[n][i] else Last(Col(rows[..n], i))
  {
    var n := |rows| - 1;
    assert Col(rows, i)[..n] == Col(rows[..n], i);
  }

  lemma FoundSnocSub(kind: BlockKind, rows: seq<seq<Option<string>>>)
    requires |rows| > 0 && RowsFit(kind, rows)
    ensures var n := |rows| - 1;
      Found(kind, rows) <= Found(kind, rows[..n]) + LabelAttrs(Rules(kind), rows[n])
  {
    var n := |rows| - 1;
    forall a | a in Found(kind, rows) ensures a in Found(kind, rows[..n]) + LabelAttrs(Rules(kind), rows[n]) {
      var i :| 0 <= i < |Rules(kind)| && i != 2 && Last(Col(rows, i)).Some? && Rules(kind)[i].attr == a;
      ColSnoc(rows, i);
    }
  }

  lemma FoundSnocLine(kind: BlockKind, rows: seq<seq<Option<string>>>)
    requires |rows| > 0 && RowsFit(kind, rows)
    ensures LabelAttrs(Rules(kind), rows[|rows| - 1]) <= Found(kind, rows)
  {
    var rules := Rules(kind);
    var cs := rows[|rows| - 1];
    TablesShaped(kind);
    forall a | a in LabelAttrs(rules, cs) ensures a in Found(kind, rows) {
      var i :| 0 <= i < |rules| && rules[i].attr != "state" && cs[i].Some? && rules[i].attr == a;
      ColSnoc(rows, i);
    }
  }

  lemma FoundSnocKept(kind: BlockKind, rows: seq<seq<Option<string>>>)
    requires |rows| > 0 && RowsFit(kind, rows)
    ensures Found(kind, rows[..|rows| - 1]) <= Found(kind, rows)
  {
    var rules := Rules(kind);
    var n := |rows| - 1;
    forall a | a in Found(kind, rows[..n]) ensures a in Found(kind, rows) {
      var i :| 0 <= i < |rules| && i != 2 && Last(Col(rows[..n], i)).Some? && rules[i].attr == a;
      ColSnoc(rows, i);
    }
  }

  /** The labels found after one more line: those found before and those the line captured. */
  lemma FoundSnoc(kind: BlockKind, rows: seq<seq<Option<string>>>)
    requires |rows| > 0 && RowsFit(kind, rows)
    ensures var n := |rows| - 1;
      Found(kind, rows) == Found(kind, rows[..n]) + LabelAttrs(Rules(kind), rows[n])
  {
    FoundSnocSub(kind, rows);
    FoundSnocLine(kind, rows);
    FoundSnocKept(kind, rows);
  }

  /** After the rows are recorded, each field label holds the last capture of its pattern. */
  lemma {:induction false} ReadRowsLabels(kind: BlockKind, rows: seq<seq<Option<string>>>, i: nat)
    requires RowsFit(kind, rows) && i < 4 && i != 2
    ensures Get(ReadRows(kind, rows).labels, Rules(kind)[i].attr) == Last(Col(rows, i))
    decreases |rows|
  {
    if |rows| > 0 {
      var n := |rows| - 1;
      ReadRowsLabels(kind, rows[..n], i);
      LineEffect(kind, ReadRows(kind, rows[..n]), rows[n]);
      ColSnoc(rows, i);
    }
  }

  /** `device` is set at the start and never touched again. */
  lemma {:induction false} ReadRowsDevice(kind: BlockKind, rows: seq<seq<Option<string>>>)
    requires RowsFit(kind, rows)
    ensures Get(ReadRows(kind, rows).labels, "device") == Some(DeviceName(kind))
    decreases |rows|
  {
    if |rows| > 0 {
      var n := |rows| - 1;
      ReadRowsDevice(kind, rows[..n]);
      LineEffect(kind, ReadRows(kind, rows[..n]), rows[n]);
    }
  }

  /** The value is the health of the last state captured, and unset while none was. */
  lemma {:induction false} ReadRowsValue(kind: BlockKind, rows: seq<seq<Option<string>>>)
    requires RowsFit(kind, rows)
    ensures ReadRows(kind, rows).value
      == if Last(Col(rows, 2)).Some? then Some(Healthy(kind, Last(Col(rows, 2)).value)) else None
    decreases |rows|
  {
    TablesShaped(kind);
    if |rows| > 0 {
      var n := |rows| - 1;
      ReadRowsValue(kind, rows[..n]);
      LineEffect(kind, ReadRows(kind, rows[..n]), rows[n]);
      ColSnoc(rows, 2);
    }
  }

  /** Nothing but `device` and the captured fields is present. */
  lemma {:induction false} ReadRowsKeys(kind: BlockKind, rows: seq<seq<Option<string>>>)
    requires RowsFit(kind, rows)
    ensures ReadRows(kind, rows).labels.Keys == {"device"} + Found(kind, rows)
    decreases |rows|
  {
    if |rows| > 0 {
      var n := |rows| - 1;
      ReadRowsKeys(kind, rows[..n]);
      RecordAllKeys(kind, ReadRows(kind, rows[..n]), Rules(kind), rows[n]);
      FoundSnoc(kind, rows);
    } else {
      assert Found(kind, rows) == {};
    }
  }

  lemma {:induction false} SubsetCard(a: set<string>, b: set<string>)
    requires a <= b
    ensures |a| <= |b|
    decreases |b|
  {
    if b != {} {
      var x :| x in b;
      SubsetCard(a - {x}, b - {x});
    }
  }

  /** Only the three field labels of the table can be found. */
  lemma FoundWithin(kind: BlockKind, rows: seq<seq<Option<string>>>)
    requires RowsFit(kind, rows)
    ensures Found(kind, rows) <= {Rules(kind)[0].attr, Rules(kind)[1].attr, Rules(kind)[3].attr}
  {
  }

  /** A field whose pattern never captured is not found. */
  lemma FoundMissing(kind: BlockKind, rows: seq<seq<Option<string>>>, i: nat)
    requires RowsFit(kind, rows) && i < 4 && i != 2 && Last(Col(rows, i)).None?
    ensures Rules(kind)[i].attr !in Found(kind, rows)
  {
    TablesShaped(kind);
  }

  /** Three distinct labels make a set of three, and dropping any one leaves two. */
  lemma ThreeDistinct(a: string, b: string, c: string)
    requires a != b && b != c && a != c
    ensures |{a, b, c}| == 3
    ensures |{a, b, c} - {a}| == 2 && |{a, b, c} - {b}| == 2 && |{a, b, c} - {c}| == 2
  {
    assert {a, b, c} - {a} == {b, c};
    assert {a, b, c} - {b} == {a, c};
    assert {a, b, c} - {c} == {a, b};
  }

  /** When every pattern captured somewhere, all three field labels are found. */
  lemma FoundAll(kind: BlockKind, rows: seq<seq<Option<string>>>)
    requires RowsFit(kind, rows)
    requires forall i :: 0 <= i < 4 && i != 2 ==> Last(Col(rows, i)).Some?
    ensures Found(kind, rows) == LabelKeys(kind) - {"device"}
  {
    TablesShaped(kind);
    var rules := Rules(kind);
    FoundWithin(kind, rows);
    assert Last(Col(rows, 0)).Some? && Last(Col(rows, 1)).Some? && Last(Col(rows, 3)).Some?;
    assert rules[0].attr in Found(kind, rows);
    assert rules[1].attr in Found(kind, rows);
    assert rules[3].attr in Found(kind, rows);
  }

  /** A field whose pattern never captured leaves fewer than three found. */
  lemma FoundShort(kind: BlockKind, rows: seq<seq<Option<string>>>, i: nat)
    requires RowsFit(kind, rows) && i < 4 && i != 2 && Last(Col(rows, i)).None?
    ensures |Found(kind, rows)| < 3
  {
    TablesShaped(kind);
    var rules := Rules(kind);
    var all := {rules[0].attr, rules[1].attr, rules[3].attr};
    FoundWithin(kind, rows);
    FoundMissing(kind, rows, i);
    ThreeDistinct(rules[0].attr, rules[1].attr, rules[3].attr);
    SubsetCard(Found(kind, rows), all - {rules[i].attr});
  }

  /** Three fields are found exactly when each of the three patterns captured on some line. */
  lemma FoundFull(kind: BlockKind, rows: seq<seq<Option<string>>>)
    requires RowsFit(kind, rows)
    ensures Found(kind, rows) <= LabelKeys(kind) - {"device"}
    ensures |Found(kind, rows)| == 3 <==> forall i :: 0 <= i < 4 && i != 2 ==> Last(Col(rows, i)).Some?
  {
    TablesShaped(kind);
    var rules := Rules(kind);
    FoundWithin(kind, rows);
    if forall i :: 0 <= i < 4 && i != 2 ==> Last(Col(rows, i)).Some? {
      FoundAll(kind, rows);
      ThreeDistinct(rules[0].attr, rules[1].attr, rules[3].attr);
      assert LabelKeys(kind) - {"device"} == {rules[0].attr, rules[1].attr, rules[3].attr};
    } else {
      var i :| 0 <= i < 4 && i != 2 && Last(Col(rows, i)).None?;
      FoundShort(kind, rows, i);
    }
  }

  /** The record is complete exactly when every pattern captured on some line. */
  lemma ReadRowsComplete(kind: BlockKind, rows: seq<seq<Option<string>>>)
    requires RowsFit(kind, rows)
    ensures (ReadRows(kind, rows).value.Some? && |ReadRows(kind, rows).labels| == 4)
      <==> forall i :: 0 <= i < 4 ==> Last(Col(rows, i)).Some?
  {
    ReadRowsValue(kind, rows);
    ReadRowsKeys(kind, rows);
    FoundFull(kind, rows);
    var p := ReadRows(kind, rows);
    var found := Found(kind, rows);
    assert "device" !in found;
    assert |p.labels| == |p.labels.Keys| == 1 + |found|;
  }

  /** A complete record: `device`, the three fields with their last captures, the health of the last state. */
  lemma ReadRowsShape(kind: BlockKind, rows: seq<seq<Option<string>>>)
    requires RowsFit(kind, rows)
    requires forall i :: 0 <= i < 4 ==> Last(Col(rows, i)).Some?
    ensures ReadRows(kind, rows).labels.Keys == LabelKeys(kind)
    ensures ReadRows(kind, rows).labels["device"] == DeviceName(kind)
    ensures forall i :: 0 <= i < 4 && i != 2 ==>
      ReadRows(kind, rows).labels[Rules(kind)[i].attr] == Last(Col(rows, i)).value
    ensures ReadRows(kind, rows).value == Some(Healthy(kind, Last(Col(rows, 2)).value))
  {
    var rules := Rules(kind);
    var p := ReadRows(kind, rows);
    forall i | 0 <= i < 4 && i != 2 ensures Get(p.labels, rules[i].attr) == Last(Col(rows, i)) {
      ReadRowsLabels(kind, rows, i);
    }
    ReadRowsDevice(kind, rows);
    ReadRowsValue(kind, rows);
    ReadRowsKeys(kind, rows);
    FoundAll(kind, rows);
    TablesShaped(kind);
  }

  /** Column `i` of the grid is what pattern `i` captures on each line. */
  lemma GridColumn(lines: seq<string>, rules: seq<FieldRule>, i: nat)
    requires i < |rules|
    ensures Last(Col(Grid(lines, rules), i)) == LastMatch(lines, rules[i])
  {
    assert Col(Grid(lines, rules), i) == Column(lines, rules[i]);
  }

  /**
   * A record gives a metric exactly when every field of its table matched
   * some line; the metric then carries `device` and the three fields (each
   * the last value seen) and nothing else, and its value is 1 exactly when
   * the last state captured is healthy. Otherwise the record raises the
   * error of its section.
   */
  lemma BlockResultSpec(kind: BlockKind, block: seq<string>)
    ensures var r := BlockResult(kind, block);
      && (r.Success? <==> forall i :: 0 <= i < |Rules(kind)| ==> LastMatch(block, Rules(kind)[i]).Some?)
      && (r.Failure? ==> r.error == Incomplete(kind, block))
    ensures var r := BlockResult(kind, block);
      r.Success? ==>
        && r.value.name == "sas2ircu_state_ok"
        && r.value.labels.Keys == LabelKeys(kind)
        && r.value.labels["device"] == DeviceName(kind)
        && (forall i :: 0 <= i < 4 && i != 2 ==> r.value.labels[Rules(kind)[i].attr] == LastMatch(block, Rules(kind)[i]).value)
        && r.value.value == Metrics.Bit(Healthy(kind, LastMatch(block, Rules(kind)[2]).value))
  {
    var rules := Rules(kind);
    assert |rules| == 4;
    var rows := Grid(block, rules);
    forall i | 0 <= i < 4 ensures Last(Col(rows, i)) == LastMatch(block, rules[i]) {
      GridColumn(block, rules, i);
    }
    ReadRowsComplete(kind, rows);
    if forall i :: 0 <= i < 4 ==> Last(Col(rows, i)).Some? {
      ReadRowsShape(kind, rows);
    }
  }

  /** A field line given twice, in any layouts: the later value is the one kept. */
  lemma RepeatedFieldOverwrites(kind: BlockKind, block: seq<string>, i: nat, lay1: Layout, lay2: Layout, value1: string, value2: string)
    requires 0 <= i < 4 && i != 2
    requires PlainWords(Rules(kind)[i].words)
    requires LaidOut(Rules(kind)[i], lay1) && LaidOut(Rules(kind)[i], lay2)
    requires FitsCapture(value1, Rules(kind)[i].capture) && FitsCapture(value2, Rules(kind)[i].capture)
    requires BlockResult(kind, block + [FieldLine(Rules(kind)[i], lay1, value1), FieldLine(Rules(kind)[i], lay2, value2)]).Success?
    ensures var m := BlockResult(kind, block + [FieldLine(Rules(kind)[i], lay1, value1), FieldLine(Rules(kind)[i], lay2, value2)]).value;
      Rules(kind)[i].attr in m.labels && m.labels[Rules(kind)[i].attr] == value2
  {
    var rule := Rules(kind)[i];
    var lines := block + [FieldLine(rule, lay1, value1), FieldLine(rule, lay2, value2)];
    TablesShaped(kind);
    FieldLineRoundTrip(rule, lay2, value2);
    assert rule.capture != RestOfLine;
    BlockResultSpec(kind, lines);
    var col := Column(lines, rule);
    assert col[|lines| - 1] == Some(value2);
  }

  // ---------------------------------------------------------------------
  // One section
  // ---------------------------------------------------------------------

  /** `PHYS_DEVICE_SKIP_PARTS`: the initiator and enclosure records of the physical section carry no metric. */
  predicate Skipped(kind: BlockKind, block: seq<string>) {
    kind == PhysDevice && |block| > 0
    && (LitAt(block[0], 0, "Initiator at ID #") || LitAt(block[0], 0, "Device is a Enclosure services device"))
  }

  /** The records that give a metric, in order. */
  function Kept(kind: BlockKind, blocks: seq<seq<string>>): seq<seq<string>>
    decreases |blocks|
  {
    if |blocks| == 0 then []
    else
      var last := blocks[|blocks| - 1];
      Kept(kind, blocks[..|blocks| - 1]) + (if Skipped(kind, last) then [] else [last])
  }

  /** The section's metrics, or the error of its first incomplete record. */
  function SectionResult(kind: BlockKind, blocks: seq<seq<string>>): Result<seq<Metrics.Metric>, DisplaySections.ParseFailure>
    decreases |blocks|
  {
    if |blocks| == 0 then Success([])
    else
      var last := blocks[|blocks| - 1];
      match SectionResult(kind, blocks[..|blocks| - 1])
      case Failure(e) => Failure(e)
      case Success(ms) =>
        if Skipped(kind, last) then Success(ms)
        else
          match BlockResult(kind, last)
          case Failure(e) => Failure(e)
          case Success(m) => Success(ms + [m])
  }

  /** Once a record fails, the section fails with that record's error. */
  lemma {:induction false} FailureSticks(kind: BlockKind, blocks: seq<seq<string>>, n: nat)
    requires n <= |blocks|
    requires SectionResult(kind, blocks[..n]).Failure?
    ensures SectionResult(kind, blocks) == SectionResult(kind, blocks[..n])
    decreases |blocks| - n
  {
    if n < |blocks| {
      assert blocks[..n + 1][..n] == blocks[..n];
      FailureSticks(kind, blocks, n + 1);
    } else {
      assert blocks[..n] == blocks;
    }
  }

  /** One more record read after a successful prefix. */
  lemma SectionStep(kind: BlockKind, blocks: seq<seq<string>>, i: nat, ms: seq<Metrics.Metric>)
    requires i < |blocks| && SectionResult(kind, blocks[..i]) == Success(ms)
    ensures SectionResult(kind, blocks[..i + 1]) ==
      if Skipped(kind, blocks[i]) then Success(ms)
      else if BlockResult(kind, blocks[i]).Failure? then Failure(BlockResult(kind, blocks[i]).error)
      else Success(ms + [BlockResult(kind, blocks[i]).value])
  {
    assert blocks[..i + 1][..i] == blocks[..i];
  }

  /**
   * `parse_ir_volume_sect` / `parse_phys_device_sect`: the records of the
   * section in order, each adding its metric, the first incomplete one
   * ending the parse with its error.
   */
  method ParseSection(kind: BlockKind, text: string) returns (r: Result<seq<Metrics.Metric>, DisplaySections.ParseFailure>)
    ensures r == SectionResult(kind, DisplaySections.Blocks(SplitLines(text)))
  {
    var parts := DisplaySections.SplitByEmptyLine(text);
    var metrics: seq<Metrics.Metric> := [];
    for i := 0 to |parts|
      invariant SectionResult(kind, parts[..i]) == Success(metrics)
    {
      var part := parts[i];
      SectionStep(kind, parts, i, metrics);
      if !Skipped(kind, part) {
        var m := ParseBlock(kind, part);
        if m.Failure? {
          r := Failure(m.error);
          FailureSticks(kind, parts, i + 1);
          return;
        }
        metrics := metrics + [m.value];
      }
    }
    assert parts[..|parts|] == parts;
    r := Success(metrics);
  }

  /** One more record keeps the records kept so far, in front. */
  lemma KeptSnoc(kind: BlockKind, blocks: seq<seq<string>>)
    requires |blocks| > 0
    ensures var k0, last := Kept(kind, blocks[..|blocks| - 1]), blocks[|blocks| - 1];
      && Kept(kind, blocks) == k0 + (if Skipped(kind, last) then [] else [last])
      && (forall i :: 0 <= i < |k0| ==> Kept(kind, blocks)[i] == k0[i])
  {
  }

  /** The section succeeds exactly when every kept record is complete. */
  lemma {:induction false} SectionSucceeds(kind: BlockKind, blocks: seq<seq<string>>)
    ensures SectionResult(kind, blocks).Success?
      <==> forall i :: 0 <= i < |Kept(kind, blocks)| ==> BlockResult(kind, Kept(kind, blocks)[i]).Success?
    decreases |blocks|
  {
    if |blocks| > 0 {
      var init, last := blocks[..|blocks| - 1], blocks[|blocks| - 1];
      SectionSucceeds(kind, init);
      KeptSnoc(kind, blocks);
      var k0 := Kept(kind, init);
      if !Skipped(kind, last) {
        assert Kept(kind, blocks)[|k0|] == last;
      }
    }
  }

  /** A successful section holds one metric per kept record, in order. */
  lemma {:induction false} SectionSuccess(kind: BlockKind, blocks: seq<seq<string>>)
    ensures var r, kept := SectionResult(kind, blocks), Kept(kind, blocks);
      && (r.Success? <==> forall i :: 0 <= i < |kept| ==> BlockResult(kind, kept[i]).Success?)
      && (r.Success? ==> |r.value| == |kept| && forall i :: 0 <= i < |kept| ==> r.value[i] == BlockResult(kind, kept[i]).value)
    decreases |blocks|
  {
    SectionSucceeds(kind, blocks);
    if |blocks| > 0 && SectionResult(kind, blocks).Success? {
      var init, last := blocks[..|blocks| - 1], blocks[|blocks| - 1];
      SectionSuccess(kind, init);
      KeptSnoc(kind, blocks);
      var k0 := Kept(kind, init);
      if !Skipped(kind, last) {
        assert Kept(kind, blocks)[|k0|] == last;
      }
    }
  }

  /** A failing section fails with the error of its first incomplete kept record. */
  lemma {:induction false} SectionFailure(kind: BlockKind, blocks: seq<seq<string>>)
    ensures var r, kept := SectionResult(kind, blocks), Kept(kind, blocks);
      r.Failure? ==> exists i :: (0 <= i < |kept| && BlockResult(kind, kept[i]) == Failure(r.error)
        && forall j :: 0 <= j < i ==> BlockResult(kind, kept[j]).Success?)
    decreases |blocks|
  {
    if |blocks| > 0 {
      var init, last := blocks[..|blocks| - 1], blocks[|blocks| - 1];
      SectionFailure(kind, init);
      KeptSnoc(kind, blocks);
      var k0, kept := Kept(kind, init), Kept(kind, blocks);
      var r0 := SectionResult(kind, init);
      if r0.Failure? {
        var i :| 0 <= i < |k0| && BlockResult(kind, k0[i]) == Failure(r0.error)
          && forall j :: 0 <= j < i ==> BlockResult(kind, k0[j]).Success?;
        assert BlockResult(kind, kept[i]) == Failure(r0.error);
      } else if !Skipped(kind, last) && BlockResult(kind, last).Failure? {
        SectionSuccess(kind, init);
        assert kept[|k0|] == last;
      }
    }
  }

  /**
   * All or nothing: the section gives one metric per kept record, in order,
   * when every kept record is complete, and otherwise the error of the first
   * incomplete one.
   */
  lemma SectionResultSpec(kind: BlockKind, blocks: seq<seq<string>>)
    ensures var r, kept := SectionResult(kind, blocks), Kept(kind, blocks);
      && (r.Success? <==> forall i :: 0 <= i < |kept| ==> BlockResult(kind, kept[i]).Success?)
      && (r.Success? ==> |r.value| == |kept| && forall i :: 0 <= i < |kept| ==> r.value[i] == BlockResult(kind, kept[i]).value)
      && (r.Failure? ==> exists i :: (0 <= i < |kept| && BlockResult(kind, kept[i]) == Failure(r.error)
            && forall j :: 0 <= j < i ==> BlockResult(kind, kept[j]).Success?))
  {
    SectionSuccess(kind, blocks);
    SectionFailure(kind, blocks);
  }

  /** A record is kept exactly when it is not an initiator or enclosure record. */
  lemma {:induction false} KeptMembers(kind: BlockKind, blocks: seq<seq<string>>)
    ensures forall b :: b in Kept(kind, blocks) <==> b in blocks && !Skipped(kind, b)
    decreases |blocks|
  {
    if |blocks| > 0 {
      var init := blocks[..|blocks| - 1];
      KeptMembers(kind, init);
      assert blocks == init + [blocks[|blocks| - 1]];
    }
  }

  /** The volume section skips no record. */
  lemma {:induction false} VolumesAllKept(blocks: seq<seq<string>>)
    ensures Kept(IrVolume, blocks) == blocks
    decreases |blocks|
  {
    if |blocks| > 0 {
      VolumesAllKept(blocks[..|blocks| - 1]);
      assert blocks == blocks[..|blocks| - 1] + [blocks[|blocks| - 1]];
    }
  }

  /** A section with no text gives no metric and no error. */
  lemma EmptySection(kind: BlockKind)
    ensures SectionResult(kind, DisplaySections.Blocks(SplitLines(""))) == Success([])
  {
    DisplaySections.NoTextNoBlocks();
  }
}
