/**
 * The three line formats of `mpt-status -n -i <id>`: a logical volume, a
 * physical disk and a hot spare, each a run of `key:value` fields matched
 * at the start of the line with `re.IGNORECASE`, and the `scsi_id:N P%`
 * progress lines `main` skips.
 */
module MptLines {
  import opened Wrappers
  import opened Scan

  /** A `key:\s*(value)` field: the key with its colon and the class of the captured value. */
  datatype Field = Field(key: string, cls: CharClass)

  /** The classes a field value is drawn from: none of them holds whitespace. */
  predicate Tight(cls: CharClass) {
    cls == Digit || cls == Word || cls == WordOrDash || cls == NonSpace
  }

  /**
   * `\s*(cls+)` at the start of `r`: the value and the text after it. A
   * greedy run followed by something it cannot contain never has to give
   * characters back, so each piece is a run.
   */
  function ValueAt(r: string, cls: CharClass): (res: Option<(string, string)>)
    ensures res.Some? ==> |res.value.1| < |r|
  {
    var v := RunEnd(r, 0, Space);
    var e := RunEnd(r, v, cls);
    if e == v then None else Some((r[v..e], r[e..]))
  }

  /**
   * `\s+key\s*(cls+)` at the start of `s` (`\s*` in front of the first
   * field): the value and the text after it.
   */
  function FieldAt(s: string, f: Field, first: bool): (r: Option<(string, string)>)
    ensures r.Some? ==> |r.value.1| < |s|
  {
    var k := RunEnd(s, 0, Space);
    if (!first && k == 0) || !LitAt(s, k, f.key) then None
    else ValueAt(s[k + |f.key|..], f.cls)
  }

  /** The fields one after the other: their values and the text after the last one. */
  function FieldsAt(s: string, fs: seq<Field>, first: bool): (r: Option<(seq<string>, string)>)
    ensures r.Some? ==> |r.value.0| == |fs|
    decreases |fs|
  {
    if |fs| == 0 then Some(([], s))
    else
      match FieldAt(s, fs[0], first)
      case None => None
      case Some((v, rest)) =>
        match FieldsAt(rest, fs[1..], false)
        case None => None
        case Some((vs, tail)) => Some(([v] + vs, tail))
  }

  /** `VOLUME_LINE_RE` up to `state`. */
  const VolumeFields: seq<Field> := [
    Field("ioc:", Digit), Field("vol_id:", Digit), Field("type:", Word), Field("raidlevel:", WordOrDash),
    Field("num_disks:", Digit), Field("size(GB):", Digit), Field("state:", Word)
  ]

  /** A physical disk line (`PHYS_LINE_RE`) or a hot spare line (`SPARE_LINE_RE`). */
  datatype DiskKind = Physical | Spare

  function IdKey(kind: DiskKind): string {
    if kind == Physical then "phys_id:" else "spare_id:"
  }

  /** `PHYS_LINE_RE` and `SPARE_LINE_RE` up to `state`. */
  function DiskFields(kind: DiskKind): (fs: seq<Field>)
    ensures |fs| == 8
  {
    [
      Field("ioc:", Digit), Field(IdKey(kind), Digit), Field("scsi_id:", Digit), Field("vendor:", NonSpace),
      Field("product_id:", NonSpace), Field("revision:", NonSpace), Field("size(GB):", Digit), Field("state:", Word)
    ]
  }

  /** The key in front of the flags, and the one in front of the sync state, and what a spare has there. */
  const FlagsKey := "flags:"
  const SyncKey := "sync_state:"
  const NotAvailable := "n/a"

  /** `\s+flags:` at the start of `s`: the text after it. */
  function FlagsStart(s: string): (r: Option<string>)
    ensures r.Some? ==> |r.value| < |s|
  {
    var k := RunEnd(s, 0, Space);
    if k == 0 || !LitAt(s, k, FlagsKey) then None else Some(s[k + |FlagsKey|..])
  }

  /** The fields of a volume line, as captured. */
  datatype VolumeMatch = VolumeMatch(
    controllerId: string, volumeId: string, volumeType: string, raidLevel: string,
    numDisks: string, size: string, state: string, flags: string)

  /** The fields of a disk line, as captured; `sync` is the percentage of a physical disk. */
  datatype DiskMatch = DiskMatch(
    controllerId: string, diskId: string, scsiId: string, vendor: string, productId: string,
    revision: string, size: string, state: string, flags: string, sync: Option<string>)

  /** `VOLUME_LINE_RE.match(line)`. The flags are `.+`: the rest of the line, at least one character. */
  function MatchVolume(line: string): Option<VolumeMatch> {
    match FieldsAt(line, VolumeFields, true)
    case None => None
    case Some((vs, rest)) =>
      match FlagsStart(rest)
      case None => None
      case Some(t) =>
        var g := RunEnd(t, 0, NotNewline);
        if g == 0 then None
        else Some(VolumeMatch(vs[0], vs[1], vs[2], vs[3], vs[4], vs[5], vs[6], t[..g]))
  }

  /**
   * What follows the flags: `\s+sync_state:\s*(\d+)` on a physical disk
   * line, `\s+sync_state:\s*n/a` on a spare line, at the start of `u`. The
   * captured percentage, or `None` for a spare.
   */
  function EndingAt(u: string, kind: DiskKind): Option<Option<string>> {
    match kind
    case Physical =>
      (match FieldAt(u, Field(SyncKey, Digit), false)
       case None => None
       case Some((sync, _)) => Some(Some(sync)))
    case Spare =>
      var k := RunEnd(u, 0, Space);
      if k == 0 || !LitAt(u, k, SyncKey) then None
      else
        var r := u[k + |SyncKey|..];
        if LitAt(r, RunEnd(r, 0, Space), NotAvailable) then Some(None) else None
  }

  /** What the ending gives after each prefix of `t`. */
  function Endings(t: string, kind: DiskKind): (es: seq<Option<Option<string>>>)
    ensures |es| == |t| + 1
  {
    seq(|t| + 1, q requires 0 <= q <= |t| => EndingAt(t[q..], kind))
  }

  /**
   * `(.+)` followed by the ending: the greedy `.+` gives back one character
   * at a time, so with the flags able to reach `top`, they end at the last
   * position in `f + 1..top` where the ending matches.
   */
  function LastIn<T>(es: seq<Option<T>>, f: nat, top: nat): (r: Option<(nat, T)>)
    requires top < |es|
    ensures r.Some? ==> f < r.value.0 <= top
    decreases top
  {
    if top <= f then None
    else
      match es[top]
      case Some(x) => Some((top, x))
      case None => LastIn(es, f, top - 1)
  }

  /** `PHYS_LINE_RE.match(line)` or `SPARE_LINE_RE.match(line)`. */
  function MatchDisk(line: string, kind: DiskKind): Option<DiskMatch> {
    match FieldsAt(line, DiskFields(kind), true)
    case None => None
    case Some((vs, rest)) =>
      match FlagsStart(rest)
      case None => None
      case Some(t) =>
        match LastIn(Endings(t, kind), 0, RunEnd(t, 0, NotNewline))
        case None => None
        case Some((p, sync)) =>
          Some(DiskMatch(vs[0], vs[1], vs[2], vs[3], vs[4], vs[5], vs[6], vs[7], t[..p], sync))
  }

  /** `re.match(r"scsi_id:\d+\s+\d+%", line, re.IGNORECASE)`: a resync progress line. */
  predicate IsProgress(line: string) {
    LitAt(line, 0, "scsi_id:") &&
    var a := RunEnd(line, 8, Digit);
    var b := RunEnd(line, a, Space);
    var c := RunEnd(line, b, Digit);
    8 < a < b < c < |line| && line[c] == '%'
  }

  // ---------------------------------------------------------------------
  // The greedy split
  // ---------------------------------------------------------------------

  /**
   * The split is the last one that works: the ending matches at the
   * returned position and at no later one up to `top`, and there is no
   * split exactly when the ending matches nowhere in `f + 1..top`.
   */
  lemma {:induction false} LastInIsLast<T>(es: seq<Option<T>>, f: nat, top: nat)
    requires top < |es|
    ensures LastIn(es, f, top).None? <==> forall q :: f < q <= top ==> es[q].None?
    ensures LastIn(es, f, top).Some? ==>
      var (p, x) := LastIn(es, f, top).value;
      es[p] == Some(x) && forall q :: p < q <= top ==> es[q].None?
    decreases top
  {
    if top > f && es[top].None? {
      LastInIsLast(es, f, top - 1);
    }
  }

  /** Positions where nothing matches are walked past. */
  lemma {:induction false} LastInSkips<T>(es: seq<Option<T>>, f: nat, p: nat, top: nat)
    requires f <= p <= top < |es|
    requires forall x :: p < x <= top ==> es[x].None?
    ensures LastIn(es, f, top) == LastIn(es, f, p)
    decreases top - p
  {
    if p < top {
      LastInSkips(es, f, p, top - 1);
    }
  }

  /**
   * A physical disk line always captures a sync percentage, a spare line
   * never does: the split ends where the ending of its own kind matches.
   */
  lemma MatchDiskSync(line: string, kind: DiskKind)
    requires MatchDisk(line, kind).Some?
    ensures MatchDisk(line, kind).value.sync.Some? <==> kind == Physical
  {
    var (vs, rest) := FieldsAt(line, DiskFields(kind), true).value;
    var t := FlagsStart(rest).value;
    var es := Endings(t, kind);
    LastInIsLast(es, 0, RunEnd(t, 0, NotNewline));
  }

  /** The ending needs whitespace where it starts. */
  lemma NoEndingAt(u: string, kind: DiskKind)
    requires |u| == 0 || !IsSpace(u[0])
    ensures EndingAt(u, kind).None?
  {
    RunEndUnique(u, 0, 0, Space);
  }

  // ---------------------------------------------------------------------
  // The formats exclude each other
  // ---------------------------------------------------------------------

  /** The first field is `ioc:` and its value, and `key` follows it. */
  ghost predicate KeyAfterController(line: string, key: string) {
    var ioc := FieldAt(line, Field("ioc:", Digit), true);
    ioc.Some? && LitAt(ioc.value.1, RunEnd(ioc.value.1, 0, Space), key)
  }

  /** Once the first field is read, the second field's key must follow. */
  lemma SecondKey(line: string, fs: seq<Field>)
    requires |fs| >= 2 && fs[0] == Field("ioc:", Digit) && FieldsAt(line, fs, true).Some?
    ensures KeyAfterController(line, fs[1].key)
  {
    var rest := FieldAt(line, fs[0], true).value.1;
    assert FieldAt(rest, fs[1], false).Some?;
  }

  lemma VolumeKey(line: string)
    requires MatchVolume(line).Some?
    ensures KeyAfterController(line, "vol_id:")
  {
    SecondKey(line, VolumeFields);
  }

  lemma DiskKey(line: string, kind: DiskKind)
    requires MatchDisk(line, kind).Some?
    ensures KeyAfterController(line, IdKey(kind))
  {
    SecondKey(line, DiskFields(kind));
  }

  lemma KeysExclusive(line: string, k1: string, k2: string)
    requires |k1| > 0 && |k2| > 0 && Fold(k1[0]) != Fold(k2[0])
    ensures !(KeyAfterController(line, k1) && KeyAfterController(line, k2))
  {
  }

  /**
   * A line is at most one of the three kinds: the second key (`vol_id:`,
   * `phys_id:`, `spare_id:`) already tells them apart, whatever the case of
   * its letters. So the order in which `parse_line` tries them does not
   * change what it returns.
   */
  lemma FormatsExclusive(line: string)
    ensures !(MatchVolume(line).Some? && MatchDisk(line, Physical).Some?)
    ensures !(MatchVolume(line).Some? && MatchDisk(line, Spare).Some?)
    ensures !(MatchDisk(line, Physical).Some? && MatchDisk(line, Spare).Some?)
  {
    KeysExclusive(line, "vol_id:", "phys_id:");
    KeysExclusive(line, "vol_id:", "spare_id:");
    KeysExclusive(line, "phys_id:", "spare_id:");
    if MatchVolume(line).Some? {
      VolumeKey(line);
    }
    if MatchDisk(line, Physical).Some? {
      DiskKey(line, Physical);
    }
    if MatchDisk(line, Spare).Some? {
      DiskKey(line, Spare);
    }
  }

  /** None of the formats reads a line that does not start with `ioc:`. */
  lemma NoControllerNoFormat(line: string)
    requires FieldAt(line, Field("ioc:", Digit), true).None?
    ensures MatchVolume(line).None?
    ensures MatchDisk(line, Physical).None? && MatchDisk(line, Spare).None?
  {
  }

  /** Progress lines start with `scsi_id:`, not `ioc:`, so none of the formats reads them. */
  lemma ProgressMatchesNoFormat(line: string)
    requires IsProgress(line)
    ensures MatchVolume(line).None?
    ensures MatchDisk(line, Physical).None? && MatchDisk(line, Spare).None?
  {
    assert Fold(line[0 + 0]) == Fold("scsi_id:"[0]) == 's';
    assert !IsSpace(line[0]);
    RunEndUnique(line, 0, 0, Space);
    assert !LitAt(line, 0, "ioc:") by {
      assert Fold("ioc:"[0]) == 'i';
    }
    NoControllerNoFormat(line);
  }

  // ---------------------------------------------------------------------
  // Reading back what the tool prints
  // ---------------------------------------------------------------------

  /** `v` is a value the field's class can capture. */
  ghost predicate FitsClass(v: string, cls: CharClass) {
    |v| > 0 && forall k :: 0 <= k < |v| ==> cls.Has(v[k])
  }

  /** A field's key is spelled with a non-blank first letter and its value fits the field's class. */
  ghost predicate FieldFits(f: Field, v: string) {
    Tight(f.cls) && FitsClass(v, f.cls) && |f.key| > 0 && !IsSpace(f.key[0])
  }

  /** Every value fits its field. */
  ghost predicate Fits(fs: seq<Field>, vs: seq<string>)
    decreases |fs|
  {
    |fs| == |vs| && (|fs| > 0 ==> FieldFits(fs[0], vs[0]) && Fits(fs[1..], vs[1..]))
  }

  /**
   * The whitespace around one printed field: `before` in front of its key,
   * `after` between its colon and its value. The tool pads its columns and
   * prints `state: OPTIMAL`, so either may be longer than one character.
   */
  datatype Gap = Gap(before: string, after: string)

  /**
   * Whitespace where the patterns take it: `\s*` in front of the first key,
   * `\s+` in front of every other one, `\s*` after every colon.
   */
  ghost predicate Spaced(gs: seq<Gap>, first: bool) {
    forall i :: 0 <= i < |gs| ==>
      Blank(gs[i].before) && Blank(gs[i].after) && ((i == 0 && first) || |gs[i].before| > 0)
  }

  /** The fields as the tool prints them, each key and value with its whitespace, then `tail`. */
  function Printed(fs: seq<Field>, vs: seq<string>, gs: seq<Gap>, tail: string): string
    requires |fs| == |vs| == |gs|
    decreases |fs|
  {
    if |fs| == 0 then tail
    else gs[0].before + (fs[0].key + (gs[0].after + (vs[0] + Printed(fs[1..], vs[1..], gs[1..], tail))))
  }

  /** Text that starts with whitespace, or nothing. */
  ghost predicate Boundary(tail: string) {
    |tail| == 0 || IsSpace(tail[0])
  }

  lemma TightHasNoSpace(cls: CharClass, c: char)
    requires Tight(cls)
    ensures cls.Has(c) ==> !IsSpace(c)
  {
  }

  /** Whitespace in front of a non-blank character is exactly one `\s` run. */
  lemma BlankRun(gap: string, rest: string)
    requires Blank(gap) && |rest| > 0 && !IsSpace(rest[0])
    ensures RunEnd(gap + rest, 0, Space) == |gap|
  {
    var s := gap + rest;
    assert s[|gap|] == rest[0];
    forall k | 0 <= k < |gap|
      ensures Space.Has(s[k])
    {
      assert s[k] == gap[k];
    }
    RunEndUnique(s, 0, |gap|, Space);
  }

  /** A key spelled out after its whitespace is found there, and reading goes on right after it. */
  lemma KeyPrinted(gap: string, key: string, rest: string)
    requires Blank(gap) && |key| > 0 && !IsSpace(key[0])
    ensures RunEnd(gap + (key + rest), 0, Space) == |gap|
    ensures LitAt(gap + (key + rest), |gap|, key)
    ensures (gap + (key + rest))[|gap| + |key|..] == rest
  {
    var s := gap + (key + rest);
    var k := |gap|;
    BlankRun(gap, key + rest);
    assert s[k..k + |key|] == key;
    LitAtSelf(s, k, key);
  }

  /** Whitespace, a value of the class, then whitespace or nothing: the value is one run. */
  lemma ValueAtPrinted(cls: CharClass, after: string, v: string, tail: string)
    requires Tight(cls) && FitsClass(v, cls) && Blank(after) && Boundary(tail)
    ensures ValueAt(after + (v + tail), cls) == Some((v, tail))
  {
    var r := after + (v + tail);
    var a := |after|;
    TightHasNoSpace(cls, v[0]);
    BlankRun(after, v + tail);
    forall k | a <= k < a + |v|
      ensures cls.Has(r[k])
    {
      assert r[k] == v[k - a];
    }
    if a + |v| < |r| {
      assert r[a + |v|] == tail[0];
      TightHasNoSpace(cls, r[a + |v|]);
    }
    RunEndUnique(r, a, a + |v|, cls);
    assert r[a..a + |v|] == v && r[a + |v|..] == tail;
  }

  /** A field printed as its key and value, with the whitespace the pattern takes around them. */
  lemma FieldAtPrinted(f: Field, first: bool, g: Gap, v: string, tail: string)
    requires FieldFits(f, v) && Spaced([g], first) && Boundary(tail)
    ensures FieldAt(g.before + (f.key + (g.after + (v + tail))), f, first) == Some((v, tail))
  {
    assert [g][0] == g;
    assert Blank(g.before) && (first || |g.before| > 0);
    var rest := g.after + (v + tail);
    KeyPrinted(g.before, f.key, rest);
    ValueAtPrinted(f.cls, g.after, v, tail);
  }

  /** Fields past the first are printed after whitespace. */
  lemma PrintedBoundary(fs: seq<Field>, vs: seq<string>, gs: seq<Gap>, tail: string)
    requires |fs| == |vs| == |gs| && Spaced(gs, false) && Boundary(tail)
    ensures Boundary(Printed(fs, vs, gs, tail))
  {
    if |fs| > 0 {
      assert Printed(fs, vs, gs, tail)[0] == gs[0].before[0];
    }
  }

  /** `FieldsAt` reads the first field, then the others from what follows it. */
  lemma FieldsAtStep(s: string, fs: seq<Field>, first: bool, v: string, rest: string, vs: seq<string>, tail: string)
    requires |fs| > 0
    requires FieldAt(s, fs[0], first) == Some((v, rest))
    requires FieldsAt(rest, fs[1..], false) == Some((vs, tail))
    ensures FieldsAt(s, fs, first) == Some(([v] + vs, tail))
  {
  }

  /** The first gap of a layout, and the gaps after it, which all have whitespace in front. */
  lemma SpacedSplit(gs: seq<Gap>, first: bool)
    requires |gs| > 0 && Spaced(gs, first)
    ensures Spaced([gs[0]], first) && Spaced(gs[1..], false)
  {
    assert [gs[0]][0] == gs[0];
    forall i | 0 <= i < |gs[1..]|
      ensures gs[1..][i] == gs[i + 1]
    {
    }
  }

  /** The first printed field is read back, in front of the fields already read back from `more`. */
  lemma {:induction false} FieldsAtPrintedStep(fs: seq<Field>, vs: seq<string>, g: Gap, first: bool, more: string, tail: string)
    requires |fs| == |vs| > 0 && FieldFits(fs[0], vs[0]) && Spaced([g], first) && Boundary(more)
    requires FieldsAt(more, fs[1..], false) == Some((vs[1..], tail))
    ensures FieldsAt(g.before + (fs[0].key + (g.after + (vs[0] + more))), fs, first) == Some((vs, tail))
  {
    var s := g.before + (fs[0].key + (g.after + (vs[0] + more)));
    FieldAtPrinted(fs[0], first, g, vs[0], more);
    FieldsAtStep(s, fs, first, vs[0], more, vs[1..], tail);
    assert [vs[0]] + vs[1..] == vs;
  }

  /** Fields printed one after the other are read back, with the text after them. */
  lemma {:induction false} FieldsAtPrinted(fs: seq<Field>, vs: seq<string>, gs: seq<Gap>, first: bool, tail: string)
    requires Fits(fs, vs) && |gs| == |fs| && Spaced(gs, first) && Boundary(tail)
    ensures FieldsAt(Printed(fs, vs, gs, tail), fs, first) == Some((vs, tail))
    decreases |fs|
  {
    if |fs| > 0 {
      assert Fits(fs[1..], vs[1..]);
      SpacedSplit(gs, first);
      var more := Printed(fs[1..], vs[1..], gs[1..], tail);
      FieldsAtPrinted(fs[1..], vs[1..], gs[1..], false, tail);
      PrintedBoundary(fs[1..], vs[1..], gs[1..], tail);
      FieldsAtPrintedStep(fs, vs, gs[0], first, more, tail);
    } else {
      assert vs == [];
    }
  }

  /** Where the tool's whitespace goes on a line: around each field, and in front of `flags:`. */
  datatype Layout = Layout(gaps: seq<Gap>, beforeFlags: string)

  /** Whitespace the pattern with fields `fs` takes, `\s+` in front of `flags:`. */
  ghost predicate LayoutFits(lay: Layout, fs: seq<Field>) {
    |lay.gaps| == |fs| && Spaced(lay.gaps, true) && |lay.beforeFlags| > 0 && Blank(lay.beforeFlags)
  }

  /** The volume fields in order, as `VolumeFields` reads them. */
  function VolumeValues(v: VolumeMatch): seq<string> {
    [v.controllerId, v.volumeId, v.volumeType, v.raidLevel, v.numDisks, v.size, v.state]
  }

  /** `flags:` after its whitespace, then the flags; `(.+)` captures everything after the colon. */
  function FlagsText(gap: string, flags: string): string {
    gap + (FlagsKey + flags)
  }

  /** A volume line as `mpt-status` prints it (`__print_volume_advanced`), laid out by `lay`. */
  function VolumeText(v: VolumeMatch, lay: Layout): string
    requires |lay.gaps| == |VolumeFields|
  {
    Printed(VolumeFields, VolumeValues(v), lay.gaps, FlagsText(lay.beforeFlags, v.flags))
  }

  /** Values the volume pattern can capture: each field in its class, flags on one line. */
  ghost predicate VolumeFits(v: VolumeMatch) {
    Fits(VolumeFields, VolumeValues(v)) && |v.flags| > 0 && '\n' !in v.flags
  }

  lemma FlagsStartPrinted(gap: string, t: string)
    requires Blank(gap) && |gap| > 0
    ensures FlagsStart(FlagsText(gap, t)) == Some(t)
  {
    KeyPrinted(gap, FlagsKey, t);
  }

  /** Text without a newline is one `.` run. */
  lemma RestOfLine(t: string)
    requires '\n' !in t
    ensures RunEnd(t, 0, NotNewline) == |t|
  {
    forall x | 0 <= x < |t|
      ensures NotNewline.Has(t[x])
    {
      assert t[x] in t;
    }
    RunEndUnique(t, 0, |t|, NotNewline);
  }

  /** Once the fields are read, the printed flags are the rest of the line. */
  lemma MatchVolumeOf(line: string, v: VolumeMatch, gap: string)
    requires FieldsAt(line, VolumeFields, true) == Some((VolumeValues(v), FlagsText(gap, v.flags)))
    requires Blank(gap) && |gap| > 0
    requires 0 < |v.flags| && RunEnd(v.flags, 0, NotNewline) == |v.flags|
    ensures MatchVolume(line) == Some(v)
  {
    FlagsStartPrinted(gap, v.flags);
    assert v.flags[..|v.flags|] == v.flags;
  }

  /**
   * A volume line the tool printed is read back field for field, whatever
   * whitespace the pattern accepts stands between and inside the fields.
   */
  lemma VolumeRoundTrip(v: VolumeMatch, lay: Layout)
    requires VolumeFits(v) && LayoutFits(lay, VolumeFields)
    ensures MatchVolume(VolumeText(v, lay)) == Some(v)
  {
    var rest := FlagsText(lay.beforeFlags, v.flags);
    assert Boundary(rest);
    FieldsAtPrinted(VolumeFields, VolumeValues(v), lay.gaps, true, rest);
    RestOfLine(v.flags);
    MatchVolumeOf(VolumeText(v, lay), v, lay.beforeFlags);
  }

  /** The disk fields in order, as `DiskFields` reads them. */
  function DiskValues(d: DiskMatch): seq<string> {
    [d.controllerId, d.diskId, d.scsiId, d.vendor, d.productId, d.revision, d.size, d.state]
  }

  /** What the tool prints after `sync_state:`: the percentage, or `n/a` for a spare. */
  function SyncText(d: DiskMatch): string {
    match d.sync
    case Some(s) => s
    case None => NotAvailable
  }

  /**
   * The whitespace around the sync field and what follows it. `before` is
   * the last whitespace character in front of `sync_state:`: the greedy
   * flags take every one before it, so a longer run is the same line with
   * the rest of the run counted in the flags. `trailer` is the ASC/ASCQ
   * fields the tool prints next, which the patterns ignore.
   */
  datatype SyncLayout = SyncLayout(before: char, after: string, trailer: string)

  /**
   * Whitespace the pattern takes around the sync field, then a trailer that
   * starts with whitespace; nothing after the key is an underscore, so the
   * key appears only once.
   */
  ghost predicate SyncLayoutFits(sl: SyncLayout) {
    IsSpace(sl.before) && sl.before != '\n' && Blank(sl.after) &&
    Boundary(sl.trailer) && '\n' !in sl.trailer && '_' !in sl.trailer
  }

  /** The sync field as the tool prints it after the flags, with what follows it. */
  function SyncEnding(d: DiskMatch, sl: SyncLayout): string {
    [sl.before] + (SyncKey + (sl.after + (SyncText(d) + sl.trailer)))
  }

  /** A disk line as `mpt-status` prints it (`__print_physdisk_advanced`), laid out by `lay` and `sl`. */
  function DiskText(kind: DiskKind, d: DiskMatch, lay: Layout, sl: SyncLayout): string
    requires |lay.gaps| == |DiskFields(kind)|
  {
    Printed(DiskFields(kind), DiskValues(d), lay.gaps, FlagsText(lay.beforeFlags, d.flags + SyncEnding(d, sl)))
  }

  /**
   * Values the disk patterns can capture: each field in its class, flags on
   * one line, a percentage for a physical disk and none for a spare.
   */
  ghost predicate DiskFits(kind: DiskKind, d: DiskMatch) {
    Fits(DiskFields(kind), DiskValues(d)) && |d.flags| > 0 && '\n' !in d.flags &&
    (kind == Physical <==> d.sync.Some?) &&
    (d.sync.Some? ==> FitsClass(d.sync.value, Digit))
  }

  lemma SyncPrinted(d: DiskMatch, sl: SyncLayout)
    requires d.sync.Some? && FitsClass(d.sync.value, Digit) && SyncLayoutFits(sl)
    ensures EndingAt(SyncEnding(d, sl), Physical) == Some(d.sync)
  {
    var g := Gap([sl.before], sl.after);
    assert Spaced([g], false);
    FieldAtPrinted(Field(SyncKey, Digit), false, g, d.sync.value, sl.trailer);
  }

  lemma NoSyncPrinted(d: DiskMatch, sl: SyncLayout)
    requires d.sync.None? && SyncLayoutFits(sl)
    ensures EndingAt(SyncEnding(d, sl), Spare) == Some(None)
  {
    var r := sl.after + (NotAvailable + sl.trailer);
    assert SyncEnding(d, sl) == [sl.before] + (SyncKey + r);
    assert Blank([sl.before]);
    KeyPrinted([sl.before], SyncKey, r);
    KeyPrinted(sl.after, NotAvailable, sl.trailer);
  }

  /** The printed ending is the one the disk's pattern expects. */
  lemma EndingPrinted(kind: DiskKind, d: DiskMatch, sl: SyncLayout)
    requires DiskFits(kind, d) && SyncLayoutFits(sl)
    ensures EndingAt(SyncEnding(d, sl), kind) == Some(d.sync)
  {
    if kind == Physical {
      SyncPrinted(d, sl);
    } else {
      NoSyncPrinted(d, sl);
    }
  }

  /** An ending starts with whitespace, then spells the sync key. */
  lemma EndingNeedsKey(u: string, kind: DiskKind)
    ensures EndingAt(u, kind).Some? ==> RunEnd(u, 0, Space) > 0 && LitAt(u, RunEnd(u, 0, Space), SyncKey)
  {
  }

  /** The sync text is digits or `n/a`: no underscore and no newline. */
  lemma SyncTextPlain(d: DiskMatch)
    requires d.sync.Some? ==> FitsClass(d.sync.value, Digit)
    ensures '_' !in SyncText(d) && '\n' !in SyncText(d)
  {
    if d.sync.Some? {
      forall c | c in d.sync.value
        ensures IsDigit(c)
      {
        var k :| 0 <= k < |d.sync.value| && d.sync.value[k] == c;
        assert Digit.Has(d.sync.value[k]);
      }
    }
  }

  /** Past the underscore of its key, the printed ending holds no underscore, and it holds no newline at all. */
  lemma EndingPlain(d: DiskMatch, sl: SyncLayout)
    requires (d.sync.Some? ==> FitsClass(d.sync.value, Digit)) && SyncLayoutFits(sl)
    ensures '_' !in SyncEnding(d, sl)[6..] && '\n' !in SyncEnding(d, sl)
  {
    var e := SyncEnding(d, sl);
    var more := sl.after + (SyncText(d) + sl.trailer);
    SyncTextPlain(d);
    assert '_' !in sl.after && '\n' !in sl.after by {
      forall c | c in sl.after
        ensures c != '_' && c != '\n'
      {
        var k :| 0 <= k < |sl.after| && sl.after[k] == c;
      }
    }
    assert e[6..] == SyncKey[5..] + more;
    assert e == [sl.before] + SyncKey + more;
  }

  /** No ending starts past `p` when nothing past `p + 5` is an underscore: the key's own underscore would be one. */
  lemma NoEndingPast(t: string, p: nat, x: nat, kind: DiskKind)
    requires p < x <= |t|
    requires forall j :: p + 5 < j < |t| ==> t[j] != '_'
    ensures EndingAt(t[x..], kind).None?
  {
    var u := t[x..];
    var k := RunEnd(u, 0, Space);
    EndingNeedsKey(u, kind);
    if 0 < k && k + |SyncKey| <= |u| {
      assert u[k + 4] == t[x + k + 4];
      assert Fold(u[k + 4]) != Fold(SyncKey[4]);
    }
  }

  /** No ending starts after the printed one begins: each would need an underscore of its own. */
  lemma NoEndingInside(kind: DiskKind, d: DiskMatch, sl: SyncLayout)
    requires (d.sync.Some? ==> FitsClass(d.sync.value, Digit)) && SyncLayoutFits(sl)
    ensures var t := d.flags + SyncEnding(d, sl);
      forall x :: |d.flags| < x <= |t| ==> Endings(t, kind)[x].None?
  {
    var e := SyncEnding(d, sl);
    var t := d.flags + e;
    var p := |d.flags|;
    EndingPlain(d, sl);
    forall j | p + 5 < j < |t|
      ensures t[j] != '_'
    {
      assert t[j] == e[6..][j - p - 6];
    }
    forall x | p < x <= |t|
      ensures Endings(t, kind)[x].None?
    {
      NoEndingPast(t, p, x, kind);
    }
  }

  lemma MatchDiskOf(line: string, kind: DiskKind, vs: seq<string>, rest: string, t: string, p: nat, sync: Option<string>)
    requires FieldsAt(line, DiskFields(kind), true) == Some((vs, rest))
    requires FlagsStart(rest) == Some(t)
    requires RunEnd(t, 0, NotNewline) == |t| && p <= |t|
    requires LastIn(Endings(t, kind), 0, |t|) == Some((p, sync))
    ensures MatchDisk(line, kind) == Some(DiskMatch(vs[0], vs[1], vs[2], vs[3], vs[4], vs[5], vs[6], vs[7], t[..p], sync))
  {
  }

  /** Flags on one line followed by the printed ending are one `.` run. */
  lemma FlagsAndEndingOneLine(d: DiskMatch, sl: SyncLayout)
    requires '\n' !in d.flags && (d.sync.Some? ==> FitsClass(d.sync.value, Digit)) && SyncLayoutFits(sl)
    ensures RunEnd(d.flags + SyncEnding(d, sl), 0, NotNewline) == |d.flags + SyncEnding(d, sl)|
  {
    EndingPlain(d, sl);
    RestOfLine(d.flags + SyncEnding(d, sl));
  }

  /** The greedy flags stop in front of the last ending, which here is the printed one. */
  lemma DiskTail(kind: DiskKind, d: DiskMatch, sl: SyncLayout)
    requires DiskFits(kind, d) && SyncLayoutFits(sl)
    ensures var t := d.flags + SyncEnding(d, sl);
      LastIn(Endings(t, kind), 0, |t|) == Some((|d.flags|, d.sync))
  {
    var e := SyncEnding(d, sl);
    var t := d.flags + e;
    var p := |d.flags|;
    var es := Endings(t, kind);
    NoEndingInside(kind, d, sl);
    LastInSkips(es, 0, p, |t|);
    assert es[p] == Some(d.sync) by {
      assert t[p..] == e;
      EndingPrinted(kind, d, sl);
    }
  }

  /**
   * A disk line the tool printed is read back field for field, whatever
   * whitespace the pattern accepts stands between and inside the fields,
   * and even when the flags themselves mention `sync_state:`: the greedy
   * flags reach the last ending.
   */
  lemma DiskRoundTrip(kind: DiskKind, d: DiskMatch, lay: Layout, sl: SyncLayout)
    requires DiskFits(kind, d) && LayoutFits(lay, DiskFields(kind)) && SyncLayoutFits(sl)
    ensures MatchDisk(DiskText(kind, d, lay, sl), kind) == Some(d)
  {
    var t := d.flags + SyncEnding(d, sl);
    var rest := FlagsText(lay.beforeFlags, t);
    assert Boundary(rest);
    FieldsAtPrinted(DiskFields(kind), DiskValues(d), lay.gaps, true, rest);
    FlagsStartPrinted(lay.beforeFlags, t);
    FlagsAndEndingOneLine(d, sl);
    DiskTail(kind, d, sl);
    MatchDiskOf(DiskText(kind, d, lay, sl), kind, DiskValues(d), rest, t, |d.flags|, d.sync);
    assert t[..|d.flags|] == d.flags;
  }
}
