/**
 * The sas2ircu collector end to end: `parse_display` turns one
 * `sas2ircu <id> DISPLAY` dump into the volume and disk metrics of that
 * controller, and `main` gathers the metrics of every controller by name
 * and prints them. Running the tool is left to the caller: each display
 * dump arrives as text, paired with the controller id it was asked for.
 */
module Sas2ircu {
  import opened Wrappers
  import opened Scan
  import Metrics
  import Order
  import DisplaySections
  import opened Sas2ircuBlocks

  /** `metric.labels["controller_id"] = controller_id` on each metric. */
  function Stamp(cid: string, ms: seq<Metrics.Metric>): seq<Metrics.Metric> {
    seq(|ms|, i requires 0 <= i < |ms| => ms[i].(labels := ms[i].labels["controller_id" := cid]))
  }

  /** The metrics of the volume and disk sections, or the first `ParseError` of the two. */
  function SectionsMetrics(cid: string, sects: DisplaySections.Sections): Result<seq<Metrics.Metric>, DisplaySections.ParseFailure> {
    match SectionResult(IrVolume, DisplaySections.Blocks(SplitLines(sects.irVolume)))
    case Failure(e) => Failure(e)
    case Success(volumes) =>
      match SectionResult(PhysDevice, DisplaySections.Blocks(SplitLines(sects.physDevice)))
      case Failure(e) => Failure(e)
      case Success(disks) => Success(Stamp(cid, volumes + disks))
  }

  /** The metrics of one dump, or the first `ParseError` on the way to them. */
  function DisplayMetrics(cid: string, text: string): Result<seq<Metrics.Metric>, DisplaySections.ParseFailure> {
    match DisplaySections.SplitDisplaySections(text)
    case Failure(e) => Failure(e)
    case Success(sects) => SectionsMetrics(cid, sects)
  }

  /** The loop of `parse_display` that adds the controller id to each metric's labels. */
  method StampAll(cid: string, found: seq<Metrics.Metric>) returns (metrics: seq<Metrics.Metric>)
    ensures metrics == Stamp(cid, found)
  {
    metrics := found;
    for i := 0 to |metrics|
      invariant |metrics| == |found|
      invariant metrics[..i] == Stamp(cid, found[..i])
      invariant metrics[i..] == found[i..]
    {
      assert metrics[i] == found[i];
      metrics := metrics[i := metrics[i].(labels := metrics[i].labels["controller_id" := cid])];
      assert metrics[i + 1..] == found[i + 1..];
    }
    assert found[..|found|] == found;
  }

  /**
   * `parse_display`: split the dump, parse the volume section and then the
   * disk section, and stamp the controller id onto every metric.
   */
  method ParseDisplay(cid: string, text: string) returns (r: Result<seq<Metrics.Metric>, DisplaySections.ParseFailure>)
    ensures r == DisplayMetrics(cid, text)
  {
    var sects := DisplaySections.SplitDisplaySections(text);
    if sects.Failure? {
      return Failure(sects.error);
    }
    var volumes := ParseSection(IrVolume, sects.value.irVolume);
    if volumes.Failure? {
      return Failure(volumes.error);
    }
    var disks := ParseSection(PhysDevice, sects.value.physDevice);
    if disks.Failure? {
      return Failure(disks.error);
    }
    var metrics := StampAll(cid, volumes.value + disks.value);
    r := Success(metrics);
  }

  // ---------------------------------------------------------------------
  // What one dump gives
  // ---------------------------------------------------------------------

  /** A metric made from the `sas2ircu_state_ok` template. */
  ghost predicate FromStateOk(m: Metrics.Metric) {
    m.name == StateOk.name && m.kind == StateOk.kind && m.help == StateOk.help
  }

  /** A metric of one section: the template, the section's labels, and a 0/1 value. */
  ghost predicate SectionMetric(kind: BlockKind, m: Metrics.Metric) {
    FromStateOk(m) && m.labels.Keys == LabelKeys(kind) && m.labels["device"] == DeviceName(kind) && m.value.Bit?
  }

  /** A metric `parse_display` returns for a section. */
  ghost predicate StampedMetric(kind: BlockKind, cid: string, m: Metrics.Metric) {
    FromStateOk(m) && m.value.Bit?
    && m.labels.Keys == LabelKeys(kind) + {"controller_id"}
    && m.labels["device"] == DeviceName(kind) && m.labels["controller_id"] == cid
  }

  lemma SectionMetrics(kind: BlockKind, blocks: seq<seq<string>>)
    requires SectionResult(kind, blocks).Success?
    ensures forall m :: m in SectionResult(kind, blocks).value ==> SectionMetric(kind, m)
    ensures |SectionResult(kind, blocks).value| == |Kept(kind, blocks)|
  {
    SectionResultSpec(kind, blocks);
    var kept := Kept(kind, blocks);
    var ms := SectionResult(kind, blocks).value;
    forall m | m in ms ensures SectionMetric(kind, m) {
      var i :| 0 <= i < |ms| && ms[i] == m;
      BlockResultSpec(kind, kept[i]);
    }
  }

  lemma StampShape(cid: string, volumes: seq<Metrics.Metric>, disks: seq<Metrics.Metric>)
    requires forall m :: m in volumes ==> SectionMetric(IrVolume, m)
    requires forall m :: m in disks ==> SectionMetric(PhysDevice, m)
    ensures var ms := Stamp(cid, volumes + disks);
      && |ms| == |volumes| + |disks|
      && (forall i :: 0 <= i < |volumes| ==> StampedMetric(IrVolume, cid, ms[i]))
      && (forall i :: |volumes| <= i < |ms| ==> StampedMetric(PhysDevice, cid, ms[i]))
  {
    var found := volumes + disks;
    forall i | 0 <= i < |volumes| ensures SectionMetric(IrVolume, found[i]) {
      assert found[i] in volumes;
    }
    forall i | |volumes| <= i < |found| ensures SectionMetric(PhysDevice, found[i]) {
      assert found[i] == disks[i - |volumes|];
      assert found[i] in disks;
    }
  }

  /**
   * The metrics of the two sections: every volume record first, then every
   * kept disk record, each with its section's labels plus the controller id.
   */
  lemma SectionsMetricsSpec(cid: string, sects: DisplaySections.Sections)
    requires SectionsMetrics(cid, sects).Success?
    ensures var ms := SectionsMetrics(cid, sects).value;
      var vb := DisplaySections.Blocks(SplitLines(sects.irVolume));
      var db := DisplaySections.Blocks(SplitLines(sects.physDevice));
      && |ms| == |vb| + |Kept(PhysDevice, db)|
      && (forall i :: 0 <= i < |vb| ==> StampedMetric(IrVolume, cid, ms[i]))
      && (forall i :: |vb| <= i < |ms| ==> StampedMetric(PhysDevice, cid, ms[i]))
  {
    var vb := DisplaySections.Blocks(SplitLines(sects.irVolume));
    var db := DisplaySections.Blocks(SplitLines(sects.physDevice));
    SectionMetrics(IrVolume, vb);
    SectionMetrics(PhysDevice, db);
    VolumesAllKept(vb);
    StampShape(cid, SectionResult(IrVolume, vb).value, SectionResult(PhysDevice, db).value);
  }

  /**
   * A dump's metrics: the volumes come before the disks, and every metric
   * carries the controller id next to the labels its record gave it.
   */
  lemma DisplayMetricsSpec(cid: string, text: string)
    requires DisplayMetrics(cid, text).Success?
    ensures DisplaySections.WellFormedDisplay(text)
    ensures var ms := DisplayMetrics(cid, text).value;
      forall i :: 0 <= i < |ms| ==> StampedMetric(IrVolume, cid, ms[i]) || StampedMetric(PhysDevice, cid, ms[i])
    ensures var ms := DisplayMetrics(cid, text).value;
      forall i, j :: 0 <= i < j < |ms| && StampedMetric(PhysDevice, cid, ms[i]) ==> StampedMetric(PhysDevice, cid, ms[j])
  {
    var sects := DisplaySections.SplitDisplaySections(text).value;
    SectionsMetricsSpec(cid, sects);
  }

  /** A malformed dump fails with the error of the section split, whatever the controller. */
  lemma MalformedDisplayFails(cid: string, text: string)
    requires !DisplaySections.WellFormedDisplay(text)
    ensures DisplayMetrics(cid, text) == Failure(DisplaySections.SplitDisplaySections(text).error)
  {
  }

  // ---------------------------------------------------------------------
  // main: every controller, then the exposition
  // ---------------------------------------------------------------------

  /** Why the collector gives up (its `fatal` calls after the dumps are read). */
  datatype Fatal =
    | DisplayParseFailed(cid: string, failure: DisplaySections.ParseFailure)
    | NoMetrics

  /** What each dump gave, next to the controller it came from. */
  type Outcome = (string, Result<seq<Metrics.Metric>, DisplaySections.ParseFailure>)

  function Outcomes(displays: seq<(string, string)>): (outs: seq<Outcome>)
    ensures |outs| == |displays|
  {
    seq(|displays|, i requires 0 <= i < |displays| => (displays[i].0, DisplayMetrics(displays[i].0, displays[i].1)))
  }

  /** The metrics of the outcomes, in order, or the first failure. */
  function Gather(outs: seq<Outcome>): Result<seq<Metrics.Metric>, Fatal>
    decreases |outs|
  {
    if |outs| == 0 then Success([])
    else
      var (cid, res) := outs[|outs| - 1];
      match Gather(outs[..|outs| - 1])
      case Failure(e) => Failure(e)
      case Success(ms) =>
        match res
        case Failure(e) => Failure(DisplayParseFailed(cid, e))
        case Success(more) => Success(ms + more)
  }

  /** The metrics of the dumps, in order, or the first dump that failed to parse. */
  function Gathered(displays: seq<(string, string)>): Result<seq<Metrics.Metric>, Fatal> {
    Gather(Outcomes(displays))
  }

  /** What `main` prints for the metrics it gathered, or why it stops. */
  function Emit(g: Result<seq<Metrics.Metric>, Fatal>): Result<seq<string>, Fatal> {
    match g
    case Failure(e) => Failure(e)
    case Success(ms) =>
      if ms == [] then Failure(NoMetrics)
      else Success(Metrics.Exposition(Metrics.Grouped(ms)))
  }

  /** What `main` prints, or why it stops. */
  function Report(displays: seq<(string, string)>): Result<seq<string>, Fatal> {
    Emit(Gathered(displays))
  }

  lemma GatherStep(outs: seq<Outcome>, i: nat, ms: seq<Metrics.Metric>)
    requires i < |outs| && Gather(outs[..i]) == Success(ms)
    ensures Gather(outs[..i + 1]) ==
      match outs[i].1
      case Failure(e) => Failure(DisplayParseFailed(outs[i].0, e))
      case Success(more) => Success(ms + more)
  {
    assert outs[..i + 1][..i] == outs[..i];
  }

  lemma {:induction false} GatherFailureSticks(outs: seq<Outcome>, n: nat)
    requires n <= |outs| && Gather(outs[..n]).Failure?
    ensures Gather(outs) == Gather(outs[..n])
    decreases |outs| - n
  {
    if n < |outs| {
      assert outs[..n + 1][..n] == outs[..n];
      GatherFailureSticks(outs, n + 1);
    } else {
      assert outs[..n] == outs;
    }
  }

  /**
   * The loop of `main` over the controllers: parse each dump, file its
   * metrics under their names, give up at the first dump that does not
   * parse or when nothing was found, and print the exposition.
   */
  method Collect(displays: seq<(string, string)>) returns (r: Result<seq<string>, Fatal>)
    ensures r == Report(displays)
  {
    ghost var outs := Outcomes(displays);
    var groups: map<string, seq<Metrics.Metric>> := map[];
    ghost var seen: seq<Metrics.Metric> := [];
    Metrics.GroupedEmpty(seen);
    for i := 0 to |displays|
      invariant Gather(outs[..i]) == Success(seen)
      invariant groups == Metrics.Grouped(seen)
    {
      var (cid, text) := displays[i];
      GatherStep(outs, i, seen);
      var parsed := ParseDisplay(cid, text);
      assert outs[i] == (cid, parsed);
      if parsed.Failure? {
        r := Failure(DisplayParseFailed(cid, parsed.error));
        GatherFailureSticks(outs, i + 1);
        return;
      }
      groups := Metrics.Aggregate(groups, parsed.value, seen);
      seen := seen + parsed.value;
    }
    assert outs[..|displays|] == outs;
    Metrics.GroupedEmpty(seen);
    if groups == map[] {
      r := Failure(NoMetrics);
    } else {
      r := Success(Metrics.Exposition(groups));
    }
  }

  // ---------------------------------------------------------------------
  // What main prints
  // ---------------------------------------------------------------------

  ghost predicate TemplatedOutcomes(outs: seq<Outcome>) {
    forall i :: 0 <= i < |outs| && outs[i].1.Success? ==> forall m :: m in outs[i].1.value ==> FromStateOk(m)
  }

  lemma OutcomesTemplated(displays: seq<(string, string)>)
    ensures TemplatedOutcomes(Outcomes(displays))
  {
    var outs := Outcomes(displays);
    forall i, m | 0 <= i < |outs| && outs[i].1.Success? && m in outs[i].1.value
      ensures FromStateOk(m)
    {
      DisplayMetricsSpec(displays[i].0, displays[i].1);
      var more := outs[i].1.value;
      var k :| 0 <= k < |more| && more[k] == m;
    }
  }

  lemma {:induction false} GatherFromStateOk(outs: seq<Outcome>)
    requires TemplatedOutcomes(outs) && Gather(outs).Success?
    ensures forall m :: m in Gather(outs).value ==> FromStateOk(m)
    decreases |outs|
  {
    if |outs| > 0 {
      var n := |outs| - 1;
      assert TemplatedOutcomes(outs[..n]);
      GatherFromStateOk(outs[..n]);
    }
  }

  lemma {:induction false} NamedAll(ms: seq<Metrics.Metric>, n: string)
    requires forall m :: m in ms ==> m.name == n
    ensures Metrics.Named(ms, n) == ms
    decreases |ms|
  {
    if |ms| > 0 {
      NamedAll(ms[..|ms| - 1], n);
      assert ms == ms[..|ms| - 1] + [ms[|ms| - 1]];
    }
  }

  lemma GroupedSingle(ms: seq<Metrics.Metric>)
    requires ms != [] && forall m :: m in ms ==> FromStateOk(m)
    ensures Metrics.Grouped(ms) == map[StateOk.name := ms]
  {
    var name := StateOk.name;
    assert ms[0] in ms;
    assert Metrics.Names(ms) == {name};
    NamedAll(ms, name);
  }

  lemma ExpositionSingle(ms: seq<Metrics.Metric>)
    requires ms != []
    ensures Metrics.Exposition(map[StateOk.name := ms])
      == Metrics.Header(ms[0]) + Order.Sort(Metrics.RenderAll(ms))
  {
    var g := map[StateOk.name := ms];
    var keys := Order.SortedKeys(g.Keys);
    assert StateOk.name in keys;
    assert |keys| == 1;
    assert keys == [StateOk.name];
    assert Metrics.ExposeNames(g, keys[1..]) == [];
  }

  lemma StateOkHeader(m: Metrics.Metric)
    requires FromStateOk(m)
    ensures Metrics.Header(m)
      == ["# HELP " + StateOk.name + " " + StateOk.help, "# TYPE " + StateOk.name + " " + StateOk.kind]
  {
  }

  /**
   * All the collector's metrics share one name, so the printed output is
   * that name's `# HELP` and `# TYPE` lines followed by every metric's line,
   * sorted.
   */
  lemma ReportShape(displays: seq<(string, string)>)
    requires Report(displays).Success?
    ensures Report(displays).value
      == ["# HELP " + StateOk.name + " " + StateOk.help, "# TYPE " + StateOk.name + " " + StateOk.kind]
        + Order.Sort(Metrics.RenderAll(Gathered(displays).value))
  {
    var ms := Gathered(displays).value;
    OutcomesTemplated(displays);
    GatherFromStateOk(Outcomes(displays));
    GroupedSingle(ms);
    ExpositionSingle(ms);
    assert ms[0] in ms;
    StateOkHeader(ms[0]);
  }

  lemma {:induction false} GatherAppend(xs: seq<Outcome>, ys: seq<Outcome>)
    requires Gather(xs).Success? && Gather(ys).Success?
    ensures Gather(xs + ys) == Success(Gather(xs).value + Gather(ys).value)
    decreases |ys|
  {
    if |ys| == 0 {
      assert xs + ys == xs;
      assert Gather(xs).value + Gather(ys).value == Gather(xs).value;
    } else {
      var n := |ys| - 1;
      var zs := xs + ys;
      assert zs[..|zs| - 1] == xs + ys[..n];
      assert zs[|zs| - 1] == ys[n];
      assert Gather(ys[..n]).Success?;
      GatherAppend(xs, ys[..n]);
      var a, b, more := Gather(xs).value, Gather(ys[..n]).value, ys[n].1.value;
      assert Gather(ys).value == b + more;
      assert Gather(zs).value == (a + b) + more;
      assert (a + b) + more == a + (b + more);
    }
  }

  lemma OutcomesAppend(xs: seq<(string, string)>, ys: seq<(string, string)>)
    ensures Outcomes(xs + ys) == Outcomes(xs) + Outcomes(ys)
  {
    var zs := xs + ys;
    var l, r := Outcomes(zs), Outcomes(xs) + Outcomes(ys);
    forall i | 0 <= i < |zs|
      ensures l[i] == r[i]
    {
      if i < |xs| {
        assert zs[i] == xs[i];
      } else {
        assert zs[i] == ys[i - |xs|];
      }
    }
  }

  lemma GatheredAppend(xs: seq<(string, string)>, ys: seq<(string, string)>)
    requires Gathered(xs).Success? && Gathered(ys).Success?
    ensures Gathered(xs + ys) == Success(Gathered(xs).value + Gathered(ys).value)
  {
    OutcomesAppend(xs, ys);
    GatherAppend(Outcomes(xs), Outcomes(ys));
  }

  lemma GatheredFromStateOk(displays: seq<(string, string)>)
    requires Gathered(displays).Success?
    ensures forall m :: m in Gathered(displays).value ==> FromStateOk(m)
  {
    OutcomesTemplated(displays);
    GatherFromStateOk(Outcomes(displays));
  }

  lemma EmitPermutation(a: seq<Metrics.Metric>, b: seq<Metrics.Metric>)
    requires multiset(a) == multiset(b)
    requires forall m :: m in a ==> FromStateOk(m)
    ensures Emit(Success(a)) == Emit(Success(b))
  {
    if a != [] {
      forall i, j | 0 <= i < |a| && 0 <= j < |a|
        ensures a[i].kind == a[j].kind && a[i].help == a[j].help
      {
        assert a[i] in a && a[j] in a;
      }
      Metrics.ExpositionOrderIndependent(a, b);
    } else {
      assert |b| == |multiset(b)| == 0;
    }
  }

  /** The output does not depend on the order in which the controllers were read. */
  lemma ReportOrderIndependent(xs: seq<(string, string)>, ys: seq<(string, string)>)
    requires Gathered(xs).Success? && Gathered(ys).Success?
    ensures Report(xs + ys) == Report(ys + xs)
  {
    GatheredAppend(xs, ys);
    GatheredAppend(ys, xs);
    var a, b := Gathered(xs).value, Gathered(ys).value;
    GatheredFromStateOk(xs + ys);
    assert multiset(a + b) == multiset(b + a);
    EmitPermutation(a + b, b + a);
  }
}
