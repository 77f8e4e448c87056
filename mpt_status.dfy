/**
 * The mpt-status collector: each line of `mpt-status -n -i <id>` that is a
 * volume, physical disk or hot spare line becomes a one-hot series over the
 * known states, one series per known flag, and the size, disk count and
 * sync gauges; `main` skips resync progress lines, reports the lines it
 * cannot read, gathers the metrics by name and prints them. Running the
 * tool is left to the caller: the status output of each volume arrives as
 * text.
 */
module MptStatus {
  import opened Wrappers
  import opened Scan
  import opened MptLines
  import Metrics

  type Metric = Metrics.Metric
  type Labels = map<string, string>

  const StateMetric := Metrics.Descriptor("mpt_status_state", "gauge", "device state")
  const FlagMetric := Metrics.Descriptor("mpt_status_flag", "gauge", "device flags")
  const DisksNumMetric := Metrics.Descriptor("mpt_status_disks_num", "gauge", "number of disks in logical volume")
  const SyncMetric := Metrics.Descriptor("mpt_status_sync_percentage", "gauge", "sync status")
  const SizeMetric := Metrics.Descriptor("mpt_status_size_gib", "gauge", "capacity of device in gibibytes")

  /** The five templates every metric of this collector is made from. */
  const Templates: set<Metrics.Descriptor> := {StateMetric, FlagMetric, DisksNumMetric, SyncMetric, SizeMetric}

  const VolumeStates: seq<string> := ["OPTIMAL", "DEGRADED", "FAILED", "UNKNOWN"]
  const VolumeFlags: seq<string> := ["ENABLED", "QUIESCED", "RESYNC_IN_PROGRESS", "VOLUME_INACTIVE"]
  const DiskStates: seq<string> := [
    "ONLINE", "MISSING", "NOT_COMPATIBLE", "FAILED", "INITIALIZING",
    "OFFLINE_REQUESTED", "FAILED_REQUESTED", "OTHER_OFFLINE", "UNKNOWN"
  ]
  const DiskFlags: seq<string> := ["OUT_OF_SYNC", "QUIESCED"]

  // ---------------------------------------------------------------------
  // From captured fields to metrics
  // ---------------------------------------------------------------------

  /** `base_labels` of a volume line. */
  function VolumeLabels(m: VolumeMatch): Labels {
    map["controller_id" := m.controllerId, "device" := "logical", "id" := m.volumeId,
        "type" := m.volumeType, "raidlevel" := m.raidLevel]
  }

  /** The `device` label of a disk line. */
  function DeviceName(kind: DiskKind): string {
    if kind == Physical then "physical" else "spare"
  }

  /** `base_labels` of a physical disk or hot spare line. */
  function DiskLabels(kind: DiskKind, m: DiskMatch): Labels {
    map["controller_id" := m.controllerId, "device" := DeviceName(kind), "id" := m.diskId,
        "scsi_id" := m.scsiId, "vendor" := m.vendor, "product_id" := m.productId,
        "revision" := m.revision]
  }

  /** One `mpt_status_state` series per symbol of `universe`, set where the symbol equals the captured state. */
  function StateSeries(universe: seq<string>, state: string, base: Labels): (ms: seq<Metric>)
    ensures |ms| == |universe|
  {
    seq(|universe|, i requires 0 <= i < |universe| =>
      StateMetric.With(Metrics.Bit(universe[i] == state), base["state" := universe[i]]))
  }

  /** One `mpt_status_flag` series per symbol of `universe`, set where the symbol is one of the tokens. */
  function FlagSeries(universe: seq<string>, tokens: seq<string>, base: Labels): (ms: seq<Metric>)
    ensures |ms| == |universe|
  {
    seq(|universe|, i requires 0 <= i < |universe| =>
      FlagMetric.With(Metrics.Bit(universe[i] in tokens), base["flag" := universe[i]]))
  }

  /** The metrics of one line: its state series, its flag series, then its gauges. */
  function LineSeries(states: seq<string>, state: string, flags: seq<string>, tokens: seq<string>,
                      gauges: seq<Metric>, base: Labels): seq<Metric> {
    StateSeries(states, state, base) + FlagSeries(flags, tokens, base) + gauges
  }

  /** The size and the disk count of a volume. */
  function VolumeGauges(m: VolumeMatch, base: Labels): seq<Metric> {
    [SizeMetric.With(Metrics.Captured(m.size), base), DisksNumMetric.With(Metrics.Captured(m.numDisks), base)]
  }

  /** What `parse_volume_line` returns for a volume line. */
  function VolumeMetrics(m: VolumeMatch): seq<Metric> {
    var base := VolumeLabels(m);
    LineSeries(VolumeStates, m.state, VolumeFlags, SplitWhitespace(m.flags), VolumeGauges(m, base), base)
  }

  /** The sync gauge, which only `parse_phys_line` adds. */
  function SyncSeries(kind: DiskKind, m: DiskMatch, base: Labels): seq<Metric> {
    if kind == Physical then [SyncMetric.With(Metrics.Captured(SyncText(m)), base)] else []
  }

  /** The sync gauge of a physical disk, then the size. */
  function DiskGauges(kind: DiskKind, m: DiskMatch, base: Labels): seq<Metric> {
    SyncSeries(kind, m, base) + [SizeMetric.With(Metrics.Captured(m.size), base)]
  }

  /** What `parse_phys_line` or `parse_spare_line` returns for a disk line. */
  function DiskMetrics(kind: DiskKind, m: DiskMatch): seq<Metric> {
    var base := DiskLabels(kind, m);
    LineSeries(DiskStates, m.state, DiskFlags, SplitWhitespace(m.flags), DiskGauges(kind, m, base), base)
  }

  /** `LineParseError` from one parser, `UnrecognizedLine` from `parse_line`. */
  datatype LineError = LineParseError | UnrecognizedLine

  function VolumeLine(line: string): Result<seq<Metric>, LineError> {
    match MatchVolume(line)
    case None => Failure(LineParseError)
    case Some(m) => Success(VolumeMetrics(m))
  }

  function DiskLine(line: string, kind: DiskKind): Result<seq<Metric>, LineError> {
    match MatchDisk(line, kind)
    case None => Failure(LineParseError)
    case Some(m) => Success(DiskMetrics(kind, m))
  }

  /** The three parsers `parse_line` tries. */
  datatype Parser = VolumeParser | DiskParser(kind: DiskKind)

  const Parsers: seq<Parser> := [VolumeParser, DiskParser(Physical), DiskParser(Spare)]

  function ParseWith(p: Parser, line: string): Result<seq<Metric>, LineError> {
    match p
    case VolumeParser => VolumeLine(line)
    case DiskParser(kind) => DiskLine(line, kind)
  }

  /** The result of the first parser in `ps` that reads the line. */
  function FirstParse(ps: seq<Parser>, line: string): Result<seq<Metric>, LineError>
    decreases |ps|
  {
    if |ps| == 0 then Failure(UnrecognizedLine)
    else
      match ParseWith(ps[0], line)
      case Success(ms) => Success(ms)
      case Failure(_) => FirstParse(ps[1..], line)
  }

  /** What `parse_line` returns. */
  function LineMetrics(line: string): Result<seq<Metric>, LineError> {
    FirstParse(Parsers, line)
  }

  // ---------------------------------------------------------------------
  // What the metrics of one line say
  // ---------------------------------------------------------------------

  /** No symbol of the list appears twice. */
  predicate Distinct(xs: seq<string>) {
    forall i, j :: 0 <= i < |xs| && 0 <= j < |xs| && i != j ==> xs[i] != xs[j]
  }

  /**
   * The state series is one-hot: at most one series is set, and one is set
   * exactly when the captured state is a known state; each series carries
   * the base labels with its own symbol under `state`.
   */
  lemma StateOneHot(universe: seq<string>, state: string, base: Labels)
    requires Distinct(universe)
    ensures var ms := StateSeries(universe, state, base);
      && (forall i, j :: 0 <= i < |ms| && 0 <= j < |ms| && ms[i].value == Metrics.Bit(true) && ms[j].value == Metrics.Bit(true) ==> i == j)
      && ((exists i :: 0 <= i < |ms| && ms[i].value == Metrics.Bit(true)) <==> state in universe)
      && (forall i :: 0 <= i < |ms| ==> ms[i].labels.Keys == base.Keys + {"state"} && ms[i].labels["state"] == universe[i])
  {
    var ms := StateSeries(universe, state, base);
    if state in universe {
      var i :| 0 <= i < |universe| && universe[i] == state;
      assert ms[i].value == Metrics.Bit(true);
    }
  }

  /**
   * A flag series is set exactly when its flag is one of the
   * whitespace-separated words captured; each series carries the base
   * labels with its own symbol under `flag`.
   */
  lemma FlagsSet(universe: seq<string>, flags: string, base: Labels)
    ensures var ms := FlagSeries(universe, SplitWhitespace(flags), base);
      forall i :: 0 <= i < |ms| ==>
        && (ms[i].value == Metrics.Bit(true) <==> universe[i] in SplitWhitespace(flags))
        && ms[i].labels.Keys == base.Keys + {"flag"} && ms[i].labels["flag"] == universe[i]
  {
  }

  /** Series over distinct symbols never share their labels, so no series is printed twice. */
  lemma SeriesLabelsDistinct(universe: seq<string>, state: string, tokens: seq<string>, base: Labels)
    requires Distinct(universe)
    ensures forall i, j :: 0 <= i < |universe| && 0 <= j < |universe| && i != j ==>
      StateSeries(universe, state, base)[i].labels != StateSeries(universe, state, base)[j].labels &&
      FlagSeries(universe, tokens, base)[i].labels != FlagSeries(universe, tokens, base)[j].labels
  {
    forall i, j | 0 <= i < |universe| && 0 <= j < |universe| && i != j
      ensures StateSeries(universe, state, base)[i].labels != StateSeries(universe, state, base)[j].labels
      ensures FlagSeries(universe, tokens, base)[i].labels != FlagSeries(universe, tokens, base)[j].labels
    {
      assert StateSeries(universe, state, base)[i].labels["state"] == universe[i];
      assert StateSeries(universe, state, base)[j].labels["state"] == universe[j];
      assert FlagSeries(universe, tokens, base)[i].labels["flag"] == universe[i];
      assert FlagSeries(universe, tokens, base)[j].labels["flag"] == universe[j];
    }
  }

  lemma UniversesDistinct()
    ensures Distinct(VolumeStates) && Distinct(VolumeFlags) && Distinct(DiskStates) && Distinct(DiskFlags)
  {
  }

  /** The template a metric was made from. */
  function TemplateOf(m: Metric): Metrics.Descriptor {
    Metrics.Descriptor(m.name, m.kind, m.help)
  }

  /** The metric was made from one of the five templates. */
  ghost predicate FromTemplate(m: Metric) {
    TemplateOf(m) in Templates
  }

  /** Every state series is made from the state template, every flag series from the flag template. */
  lemma SeriesTemplates(universe: seq<string>, state: string, tokens: seq<string>, base: Labels)
    ensures forall i :: 0 <= i < |universe| ==> TemplateOf(StateSeries(universe, state, base)[i]) == StateMetric
    ensures forall i :: 0 <= i < |universe| ==> TemplateOf(FlagSeries(universe, tokens, base)[i]) == FlagMetric
  {
  }

  /**
   * `ms` is `states` state series, then `flags` flag series, then the
   * gauges, every one made from one of the templates.
   */
  ghost predicate Shaped(ms: seq<Metric>, states: nat, flags: nat, gauges: seq<Metric>) {
    && |ms| == states + flags + |gauges|
    && (forall i :: 0 <= i < states ==> TemplateOf(ms[i]) == StateMetric)
    && (forall i :: states <= i < states + flags ==> TemplateOf(ms[i]) == FlagMetric)
    && ms[states + flags..] == gauges
    && (forall i :: 0 <= i < |ms| ==> FromTemplate(ms[i]))
  }

  /** The series of a line come in order: states, flags, then the gauges. */
  lemma LineSeriesShape(states: seq<string>, state: string, flags: seq<string>, tokens: seq<string>,
                        gauges: seq<Metric>, base: Labels)
    requires forall i :: 0 <= i < |gauges| ==> FromTemplate(gauges[i])
    ensures Shaped(LineSeries(states, state, flags, tokens, gauges, base), |states|, |flags|, gauges)
  {
    var a, b := StateSeries(states, state, base), FlagSeries(flags, tokens, base);
    var ms := LineSeries(states, state, flags, tokens, gauges, base);
    SeriesTemplates(states, state, tokens, base);
    SeriesTemplates(flags, state, tokens, base);
    forall i | 0 <= i < |ms| ensures FromTemplate(ms[i]) {
      if i < |a| + |b| {
        assert ms[i] == (a + b)[i];
      } else {
        assert ms[i] == gauges[i - |a| - |b|];
      }
    }
    forall i | |a| <= i < |a| + |b| ensures TemplateOf(ms[i]) == FlagMetric {
      assert ms[i] == (a + b)[i] == b[i - |a|];
    }
  }

  /** The volume gauges are the size, then the disk count, both made from their templates. */
  lemma VolumeGaugesShape(m: VolumeMatch, base: Labels)
    ensures var g := VolumeGauges(m, base);
      |g| == 2 && TemplateOf(g[0]) == SizeMetric && TemplateOf(g[1]) == DisksNumMetric &&
      forall i :: 0 <= i < |g| ==> FromTemplate(g[i])
  {
  }

  /** A volume line gives the four state series, the four flag series, then the size and the disk count. */
  lemma VolumeMetricsShape(m: VolumeMatch)
    ensures Shaped(VolumeMetrics(m), |VolumeStates|, |VolumeFlags|, VolumeGauges(m, VolumeLabels(m)))
  {
    var base := VolumeLabels(m);
    VolumeGaugesShape(m, base);
    LineSeriesShape(VolumeStates, m.state, VolumeFlags, SplitWhitespace(m.flags), VolumeGauges(m, base), base);
  }

  /**
   * The disk gauges are the sync gauge on a physical disk only, then the
   * size, all made from their templates.
   */
  lemma DiskGaugesShape(kind: DiskKind, m: DiskMatch, base: Labels)
    ensures var g := DiskGauges(kind, m, base);
      && |g| == (if kind == Physical then 2 else 1)
      && (kind == Physical ==> g[0] == SyncMetric.With(Metrics.Captured(SyncText(m)), base))
      && TemplateOf(g[|g| - 1]) == SizeMetric
      && forall i :: 0 <= i < |g| ==> FromTemplate(g[i])
  {
  }

  /**
   * A disk line gives the nine state series, the two flag series, then the
   * sync gauge on a physical disk only, then the size.
   */
  lemma DiskMetricsShape(kind: DiskKind, m: DiskMatch)
    ensures Shaped(DiskMetrics(kind, m), |DiskStates|, |DiskFlags|, DiskGauges(kind, m, DiskLabels(kind, m)))
  {
    var base := DiskLabels(kind, m);
    DiskGaugesShape(kind, m, base);
    LineSeriesShape(DiskStates, m.state, DiskFlags, SplitWhitespace(m.flags), DiskGauges(kind, m, base), base);
  }

  /** `parse_line` tries the volume, physical disk and hot spare parsers in turn. */
  lemma LineCases(line: string)
    ensures LineMetrics(line) ==
      if VolumeLine(line).Success? then VolumeLine(line)
      else if DiskLine(line, Physical).Success? then DiskLine(line, Physical)
      else if DiskLine(line, Spare).Success? then DiskLine(line, Spare)
      else Failure(UnrecognizedLine)
  {
    assert Parsers[1..] == [DiskParser(Physical), DiskParser(Spare)];
    assert Parsers[1..][1..] == [DiskParser(Spare)];
    assert Parsers[1..][1..][1..] == [];
  }

  /** `parse_line` fails, always with `UnrecognizedLine`, exactly when none of the three formats matches. */
  lemma LineUnrecognized(line: string)
    ensures LineMetrics(line).Failure? <==>
      MatchVolume(line).None? && MatchDisk(line, Physical).None? && MatchDisk(line, Spare).None?
    ensures LineMetrics(line).Failure? ==> LineMetrics(line).error == UnrecognizedLine
  {
    LineCases(line);
  }

  /** At most one of the three parsers reads any line. */
  lemma ParsersExclusive(line: string)
    ensures VolumeLine(line).Success? ==> DiskLine(line, Physical).Failure? && DiskLine(line, Spare).Failure?
    ensures DiskLine(line, Physical).Success? ==> DiskLine(line, Spare).Failure?
  {
    FormatsExclusive(line);
  }

  /**
   * Whichever parser reads a line, its result is what `parse_line`
   * returns: the formats exclude each other, so the order in which the
   * parsers are tried does not matter.
   */
  lemma LineOfParser(p: Parser, line: string)
    requires ParseWith(p, line).Success?
    ensures LineMetrics(line) == ParseWith(p, line)
  {
    LineCases(line);
    ParsersExclusive(line);
  }

  /** A resync progress line matches no format: without the skip in `main` it would be reported. */
  lemma ProgressUnrecognized(line: string)
    requires IsProgress(line)
    ensures LineMetrics(line) == Failure(UnrecognizedLine)
  {
    ProgressMatchesNoFormat(line);
    LineUnrecognized(line);
  }

  /** Every metric `parse_line` returns was made from one of the five templates. */
  lemma LineFromTemplates(line: string)
    requires LineMetrics(line).Success?
    ensures forall i :: 0 <= i < |LineMetrics(line).value| ==> FromTemplate(LineMetrics(line).value[i])
  {
    LineUnrecognized(line);
    if MatchVolume(line).Some? {
      LineOfParser(VolumeParser, line);
      VolumeMetricsShape(MatchVolume(line).value);
    } else if MatchDisk(line, Physical).Some? {
      LineOfParser(DiskParser(Physical), line);
      DiskMetricsShape(Physical, MatchDisk(line, Physical).value);
    } else {
      LineOfParser(DiskParser(Spare), line);
      DiskMetricsShape(Spare, MatchDisk(line, Spare).value);
    }
  }

  // ---------------------------------------------------------------------
  // The parsers
  // ---------------------------------------------------------------------

  /** The loop over the known states: a copy of the base labels with `state` added, and 1 on the captured state. */
  method ExpandStates(universe: seq<string>, state: string, base: Labels) returns (metrics: seq<Metric>)
    ensures metrics == StateSeries(universe, state, base)
  {
    metrics := [];
    for i := 0 to |universe|
      invariant metrics == StateSeries(universe, state, base)[..i]
    {
      var labels := base["state" := universe[i]];
      var value := Metrics.Bit(universe[i] == state);
      metrics := metrics + [StateMetric.With(value, labels)];
    }
  }

  /** The loop over the known flags: a copy of the base labels with `flag` added, and 1 on the flags present. */
  method ExpandFlags(universe: seq<string>, tokens: seq<string>, base: Labels) returns (metrics: seq<Metric>)
    ensures metrics == FlagSeries(universe, tokens, base)
  {
    metrics := [];
    for i := 0 to |universe|
      invariant metrics == FlagSeries(universe, tokens, base)[..i]
    {
      var labels := base["flag" := universe[i]];
      var value := Metrics.Bit(universe[i] in tokens);
      metrics := metrics + [FlagMetric.With(value, labels)];
    }
  }

  /** The body of `parse_volume_line` once the line has matched. */
  method VolumeSeries(m: VolumeMatch) returns (metrics: seq<Metric>)
    ensures metrics == VolumeMetrics(m)
  {
    var base := VolumeLabels(m);
    var flags := SplitWhitespace(m.flags);
    metrics := ExpandStates(VolumeStates, m.state, base);
    var flagSeries := ExpandFlags(VolumeFlags, flags, base);
    metrics := metrics + flagSeries;
    metrics := metrics + [SizeMetric.With(Metrics.Captured(m.size), base), DisksNumMetric.With(Metrics.Captured(m.numDisks), base)];
  }

  /** `parse_volume_line`. */
  method ParseVolumeLine(line: string) returns (r: Result<seq<Metric>, LineError>)
    ensures r == VolumeLine(line)
  {
    var found := MatchVolume(line);
    if found.None? {
      return Failure(LineParseError);
    }
    var metrics := VolumeSeries(found.value);
    r := Success(metrics);
  }

  /** `parse_phys_line` appends the sync gauge, then the size; `parse_spare_line` only the size. */
  method AppendGauges(kind: DiskKind, m: DiskMatch, base: Labels, metrics: seq<Metric>) returns (r: seq<Metric>)
    ensures r == metrics + DiskGauges(kind, m, base)
  {
    var size := SizeMetric.With(Metrics.Captured(m.size), base);
    if kind == Physical {
      r := metrics + [SyncMetric.With(Metrics.Captured(SyncText(m)), base), size];
    } else {
      r := metrics + [size];
    }
  }

  /** The body of `parse_phys_line` and `parse_spare_line` once the line has matched. */
  method DiskSeries(kind: DiskKind, m: DiskMatch) returns (metrics: seq<Metric>)
    ensures metrics == DiskMetrics(kind, m)
  {
    var base := DiskLabels(kind, m);
    var flags := SplitWhitespace(m.flags);
    metrics := ExpandStates(DiskStates, m.state, base);
    var flagSeries := ExpandFlags(DiskFlags, flags, base);
    metrics := metrics + flagSeries;
    metrics := AppendGauges(kind, m, base, metrics);
  }

  /** `parse_phys_line` (with `kind == Physical`) and `parse_spare_line` (with `kind == Spare`). */
  method ParseDiskLine(line: string, kind: DiskKind) returns (r: Result<seq<Metric>, LineError>)
    ensures r == DiskLine(line, kind)
  {
    var found := MatchDisk(line, kind);
    if found.None? {
      return Failure(LineParseError);
    }
    var metrics := DiskSeries(kind, found.value);
    r := Success(metrics);
  }

  method Parse(p: Parser, line: string) returns (r: Result<seq<Metric>, LineError>)
    ensures r == ParseWith(p, line)
  {
    match p
    case VolumeParser =>
      r := ParseVolumeLine(line);
    case DiskParser(kind) =>
      r := ParseDiskLine(line, kind);
  }

  /** `parse_line`: the first parser that reads the line, or `UnrecognizedLine`. */
  method ParseLine(line: string) returns (r: Result<seq<Metric>, LineError>)
    ensures r == LineMetrics(line)
  {
    for i := 0 to |Parsers|
      invariant FirstParse(Parsers[i..], line) == LineMetrics(line)
    {
      var res := Parse(Parsers[i], line);
      if res.Success? {
        return Success(res.value);
      }
      assert Parsers[i..][1..] == Parsers[i + 1..];
    }
    r := Failure(UnrecognizedLine);
  }

  // ---------------------------------------------------------------------
  // The status loop of main
  // ---------------------------------------------------------------------

  /** What `main` does with one line. */
  datatype Step = Skipped | Parsed(metrics: seq<Metric>) | Unrecognized

  function LineStep(line: string): Step {
    if IsProgress(line) then Skipped
    else
      match LineMetrics(line)
      case Success(ms) => Parsed(ms)
      case Failure(_) => Unrecognized
  }

  /** `enumerate(lines)`. */
  function Numbered(lines: seq<string>): seq<(nat, string)> {
    seq(|lines|, j requires 0 <= j < |lines| => (j as nat, lines[j]))
  }

  /** The numbered lines of each status output, one output after the other. */
  function Entries(outputs: seq<string>): seq<(nat, string)>
    decreases |outputs|
  {
    if |outputs| == 0 then []
    else Entries(outputs[..|outputs| - 1]) + Numbered(SplitLines(outputs[|outputs| - 1]))
  }

  /** Each numbered line with what `main` does with it. */
  type Judged = ((nat, string), Step)

  function Judge(es: seq<(nat, string)>): (js: seq<Judged>)
    ensures |js| == |es|
  {
    seq(|es|, i requires 0 <= i < |es| => (es[i], LineStep(es[i].1)))
  }

  /** The metrics one line adds. */
  function Yield(step: Step): seq<Metric> {
    if step.Parsed? then step.metrics else []
  }

  /** The complaint one line adds. */
  function Complaint(j: Judged): seq<(nat, string)> {
    if j.1 == Unrecognized then [j.0] else []
  }

  /** The metrics of the lines read, in the order they were found. */
  function Found(js: seq<Judged>): seq<Metric>
    decreases |js|
  {
    if |js| == 0 then [] else Found(js[..|js| - 1]) + Yield(js[|js| - 1].1)
  }

  /** The lines `main` reports it cannot recognize, with their numbers. */
  function Complaints(js: seq<Judged>): seq<(nat, string)>
    decreases |js|
  {
    if |js| == 0 then [] else Complaints(js[..|js| - 1]) + Complaint(js[|js| - 1])
  }

  /** `fatal("No metrics were parsed")`. */
  datatype Fatal = NoMetricsParsed

  /** The printed exposition, or the fatal error when nothing was found. */
  function Emit(ms: seq<Metric>): Result<seq<string>, Fatal> {
    if ms == [] then Failure(NoMetricsParsed) else Success(Metrics.Exposition(Metrics.Grouped(ms)))
  }

  /** What `main` prints, or its fatal error, for the status outputs of the volumes in turn. */
  function Report(outputs: seq<string>): Result<seq<string>, Fatal> {
    Emit(Found(Judge(Entries(outputs))))
  }

  /** Judging one more line appends that line with its step. */
  lemma JudgeSnoc(es: seq<(nat, string)>, e: (nat, string))
    ensures Judge(es + [e]) == Judge(es) + [(e, LineStep(e.1))]
  {
  }

  /** Judging two runs of lines judges each, one after the other. */
  lemma JudgeAppend(x: seq<(nat, string)>, y: seq<(nat, string)>)
    ensures Judge(x + y) == Judge(x) + Judge(y)
  {
    var l, r := Judge(x + y), Judge(x) + Judge(y);
    forall i | 0 <= i < |l| ensures l[i] == r[i] {
      if i >= |x| {
        assert (x + y)[i] == y[i - |x|];
      }
    }
  }

  /** One more line adds what its step yields, and its complaint if it is unrecognizable. */
  lemma FoundSnoc(js: seq<Judged>, j: Judged)
    ensures Found(js + [j]) == Found(js) + Yield(j.1)
    ensures Complaints(js + [j]) == Complaints(js) + Complaint(j)
  {
    assert (js + [j])[..|js|] == js;
  }

  /** Numbering one more line extends the numbered prefix by that line. */
  lemma NumberedSnoc(before: seq<(nat, string)>, lines: seq<string>, num: nat)
    requires num < |lines|
    ensures before + Numbered(lines)[..num + 1] == (before + Numbered(lines)[..num]) + [(num, lines[num])]
  {
    var numbered := Numbered(lines);
    assert numbered[..num + 1] == numbered[..num] + [numbered[num]];
  }

  /** The metrics of two runs of lines are those of each, one after the other. */
  lemma {:induction false} FoundAppend(x: seq<Judged>, y: seq<Judged>)
    ensures Found(x + y) == Found(x) + Found(y)
    decreases |y|
  {
    if |y| == 0 {
      assert x + y == x;
    } else {
      var y', j := y[..|y| - 1], y[|y| - 1];
      assert (x + y)[..|x + y| - 1] == x + y' && (x + y)[|x + y| - 1] == j;
      FoundAppend(x, y');
    }
  }

  /** The complaints about two runs of lines are those about each, one after the other. */
  lemma {:induction false} ComplaintsAppend(x: seq<Judged>, y: seq<Judged>)
    ensures Complaints(x + y) == Complaints(x) + Complaints(y)
    decreases |y|
  {
    if |y| == 0 {
      assert x + y == x;
    } else {
      var y', j := y[..|y| - 1], y[|y| - 1];
      assert (x + y)[..|x + y| - 1] == x + y' && (x + y)[|x + y| - 1] == j;
      ComplaintsAppend(x, y');
    }
  }

  /** The numbered lines of two runs of status outputs are those of each, one after the other. */
  lemma {:induction false} EntriesAppend(a: seq<string>, b: seq<string>)
    ensures Entries(a + b) == Entries(a) + Entries(b)
    decreases |b|
  {
    if |b| == 0 {
      assert a + b == a;
    } else {
      var b', last := b[..|b| - 1], b[|b| - 1];
      assert (a + b)[..|a + b| - 1] == a + b' && (a + b)[|a + b| - 1] == last;
      EntriesAppend(a, b');
      AppendAssoc(Entries(a), Entries(b'), Numbered(SplitLines(last)));
    }
  }

  /** Every metric found was made from one of the five templates. */
  lemma {:induction false} FoundFromTemplates(js: seq<Judged>)
    requires forall k :: 0 <= k < |js| ==> js[k].1 == LineStep(js[k].0.1)
    ensures forall i :: 0 <= i < |Found(js)| ==> FromTemplate(Found(js)[i])
    decreases |js|
  {
    if |js| > 0 {
      var js', j := js[..|js| - 1], js[|js| - 1];
      FoundFromTemplates(js');
      if j.1.Parsed? {
        LineFromTemplates(j.0.1);
      }
      forall i | 0 <= i < |Found(js)| ensures FromTemplate(Found(js)[i]) {
        if i >= |Found(js')| {
          assert Found(js)[i] == Yield(j.1)[i - |Found(js')|];
        }
      }
    }
  }

  /** The five templates have five different names. */
  lemma TemplatesByName(d1: Metrics.Descriptor, d2: Metrics.Descriptor)
    requires d1 in Templates && d2 in Templates && d1.name == d2.name
    ensures d1 == d2
  {
  }

  /** Metrics made from the templates share the template of their name. */
  lemma TemplatedOnePerName(ms: seq<Metric>)
    requires forall i :: 0 <= i < |ms| ==> FromTemplate(ms[i])
    ensures Metrics.OneTemplatePerName(ms)
  {
    forall i, j | 0 <= i < |ms| && 0 <= j < |ms| && ms[i].name == ms[j].name
      ensures ms[i].kind == ms[j].kind && ms[i].help == ms[j].help
    {
      TemplatesByName(TemplateOf(ms[i]), TemplateOf(ms[j]));
    }
  }

  /** The printed output does not depend on the order in which the volumes were queried. */
  lemma ReportOrderIndependent(a: seq<string>, b: seq<string>)
    ensures Report(a + b) == Report(b + a)
  {
    var ja, jb := Judge(Entries(a)), Judge(Entries(b));
    EntriesAppend(a, b);
    EntriesAppend(b, a);
    JudgeAppend(Entries(a), Entries(b));
    JudgeAppend(Entries(b), Entries(a));
    FoundAppend(ja, jb);
    FoundAppend(jb, ja);
    var fa, fb := Found(ja), Found(jb);
    assert multiset(fa + fb) == multiset(fb + fa);
    if fa + fb != [] {
      FoundFromTemplates(ja + jb);
      TemplatedOnePerName(fa + fb);
      Metrics.ExpositionOrderIndependent(fa + fb, fb + fa);
    }
  }

  /** What `main` does with one line: skip it, read it, or find it unrecognizable. */
  method ScanLine(line: string) returns (step: Step)
    ensures step == LineStep(line)
  {
    if IsProgress(line) {
      return Skipped;
    }
    var parsed := ParseLine(line);
    if parsed.Success? {
      step := Parsed(parsed.value);
    } else {
      step := Unrecognized;
    }
  }

  /**
   * The inner loop of `main`, over the lines of one status output: skip
   * progress lines, report unreadable lines and go on, append each metric
   * to the list kept under its name.
   */
  method ScanLines(lines: seq<string>, ghost before: seq<(nat, string)>,
                   groups: map<string, seq<Metric>>, ghost seen: seq<Metric>, errors: seq<(nat, string)>)
    returns (groups': map<string, seq<Metric>>, ghost seen': seq<Metric>, errors': seq<(nat, string)>)
    requires seen == Found(Judge(before)) && errors == Complaints(Judge(before)) && groups == Metrics.Grouped(seen)
    ensures seen' == Found(Judge(before + Numbered(lines)))
    ensures errors' == Complaints(Judge(before + Numbered(lines)))
    ensures groups' == Metrics.Grouped(seen')
  {
    groups', seen', errors' := groups, seen, errors;
    ghost var numbered := Numbered(lines);
    assert before + numbered[..0] == before;
    for num := 0 to |lines|
      invariant seen' == Found(Judge(before + numbered[..num]))
      invariant errors' == Complaints(Judge(before + numbered[..num]))
      invariant groups' == Metrics.Grouped(seen')
    {
      var line := lines[num];
      var step := ScanLine(line);
      NumberedSnoc(before, lines, num);
      JudgeSnoc(before + numbered[..num], (num, line));
      FoundSnoc(Judge(before + numbered[..num]), ((num, line), step));
      match step
      case Skipped =>
      case Parsed(ms) =>
        groups' := Metrics.Aggregate(groups', ms, seen');
        seen' := seen' + ms;
      case Unrecognized =>
        errors' := errors' + [(num, line)];
    }
    assert numbered[..|lines|] == numbered;
  }

  /**
   * The loop of `main` over the status output of every volume, then the
   * printing, or the failure when nothing was found.
   */
  method Collect(outputs: seq<string>) returns (errors: seq<(nat, string)>, r: Result<seq<string>, Fatal>)
    ensures errors == Complaints(Judge(Entries(outputs)))
    ensures r == Report(outputs)
  {
    var groups: map<string, seq<Metric>> := map[];
    ghost var seen: seq<Metric> := [];
    errors := [];
    Metrics.GroupedEmpty(seen);
    for i := 0 to |outputs|
      invariant seen == Found(Judge(Entries(outputs[..i])))
      invariant errors == Complaints(Judge(Entries(outputs[..i])))
      invariant groups == Metrics.Grouped(seen)
    {
      var lines := SplitLines(outputs[i]);
      groups, seen, errors := ScanLines(lines, Entries(outputs[..i]), groups, seen, errors);
      assert outputs[..i + 1][..i] == outputs[..i];
    }
    assert outputs[..|outputs|] == outputs;
    Metrics.GroupedEmpty(seen);
    if groups == map[] {
      r := Failure(NoMetricsParsed);
    } else {
      r := Success(Metrics.Exposition(groups));
    }
  }
}
