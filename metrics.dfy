/**
 * The metric model both collectors share: a gauge observation with a label
 * dictionary, its one-line text form (`Metric.__str__`), the name-keyed
 * aggregation `main` builds with `setdefault(...).append(...)`, and the
 * grouped, sorted exposition `main` prints.
 */
module Metrics {
  import opened Wrappers
  import Order

  /** A gauge value: the 0/1 of a state or flag series, or a number kept as the text the tool printed. */
  datatype Value = Bit(on: bool) | Captured(text: string)

  /** A metric template: its name, type and help text, never changed. */
  datatype Descriptor = Descriptor(name: string, kind: string, help: string) {
    /** The template with a value and labels filled in (`_replace(value=..., labels=...)`). */
    function With(value: Value, labels: map<string, string>): Metric {
      Metric(name, kind, help, value, labels)
    }
  }

  /** One observation. */
  datatype Metric = Metric(name: string, kind: string, help: string, value: Value, labels: map<string, string>)

  // ---------------------------------------------------------------------
  // Rendering: Metric.__str__
  // ---------------------------------------------------------------------

  /** How `format` prints a value: an int 0 or 1, or the captured text as it is. */
  function ValueText(v: Value): string {
    match v
    case Bit(on) => if on then "1" else "0"
    case Captured(text) => text
  }

  function LabelPair(k: string, v: string): string {
    k + "=\"" + v + "\""
  }

  function Join(sep: string, xs: seq<string>): string
    decreases |xs|
  {
    if |xs| == 0 then ""
    else if |xs| == 1 then xs[0]
    else xs[0] + sep + Join(sep, xs[1..])
  }

  function Pairs(labels: map<string, string>, keys: seq<string>): seq<string>
    requires forall k :: k in keys ==> k in labels
  {
    seq(|keys|, i requires 0 <= i < |keys| => LabelPair(keys[i], labels[keys[i]]))
  }

  /** The label part of a rendered line: `{k="v", ...}` in key order, or nothing. */
  function LabelText(labels: map<string, string>): string {
    var joined := Join(", ", Pairs(labels, Order.SortedKeys(labels.Keys)));
    if joined == "" then "" else "{" + joined + "}"
  }

  /** `str(metric)`: name, labels, a space, the value. */
  function Render(m: Metric): string {
    m.name + LabelText(m.labels) + " " + ValueText(m.value)
  }

  lemma {:induction false} JoinNonEmpty(sep: string, xs: seq<string>)
    requires |xs| > 0 && |xs[0]| > 0
    ensures |Join(sep, xs)| > 0
  {
  }

  /** The braces are there exactly when the metric has labels. */
  lemma LabelTextBraces(labels: map<string, string>)
    ensures LabelText(labels) == "" <==> |labels| == 0
    ensures |labels| > 0 ==>
      LabelText(labels) == "{" + Join(", ", Pairs(labels, Order.SortedKeys(labels.Keys))) + "}"
  {
    var keys := Order.SortedKeys(labels.Keys);
    if |labels| > 0 {
      assert |labels.Keys| > 0;
      JoinNonEmpty(", ", Pairs(labels, keys));
    }
  }

  // ---------------------------------------------------------------------
  // Reading a rendered line back
  // ---------------------------------------------------------------------

  /** Index of the first character of `s` that is in `stops`, or `|s|`. */
  function Until(s: string, stops: set<char>): (j: nat)
    ensures j <= |s|
    ensures forall k :: 0 <= k < j ==> s[k] !in stops
    ensures j < |s| ==> s[j] in stops
  {
    if |s| == 0 || s[0] in stops then 0 else 1 + Until(s[1..], stops)
  }

  /** One `k="v"` at the start of `s`: the key, the value and what follows. */
  function ReadPair(s: string): (r: Option<(string, string, string)>)
    ensures r.Some? ==> |r.value.2| < |s|
  {
    var k := Until(s, {'='});
    if k + 2 > |s| || s[k + 1] != '"' then None
    else
      var t := s[k + 2..];
      var v := Until(t, {'"'});
      if v == |t| then None else Some((s[..k], t[..v], t[v + 1..]))
  }

  /** `k="v"` pairs separated by `, ` and closed by `}`; the pairs and what follows. */
  function ParsePairs(s: string): Option<(seq<(string, string)>, string)>
    decreases |s|
  {
    match ReadPair(s)
    case None => None
    case Some((k, v, rest)) =>
      if |rest| >= 1 && rest[0] == '}' then Some(([(k, v)], rest[1..]))
      else if |rest| >= 2 && rest[..2] == ", " then
        match ParsePairs(rest[2..])
        case None => None
        case Some((ps, tail)) => Some(([(k, v)] + ps, tail))
      else None
  }

  function ToMap(ps: seq<(string, string)>): map<string, string> {
    if |ps| == 0 then map[] else ToMap(ps[1..])[ps[0].0 := ps[0].1]
  }

  datatype Parsed = Parsed(name: string, labels: map<string, string>, value: string)

  /** Reads `name{k="v", ...} value` or `name value`. */
  function ParseRendered(line: string): Option<Parsed> {
    var n := Until(line, {'{', ' '});
    if n == |line| then None
    else if line[n] == ' ' then Some(Parsed(line[..n], map[], line[n + 1..]))
    else
      match ParsePairs(line[n + 1..])
      case None => None
      case Some((ps, rest)) =>
        if |rest| >= 1 && rest[0] == ' ' then Some(Parsed(line[..n], ToMap(ps), rest[1..])) else None
  }

  /** Names, keys and values that the text form can carry unambiguously. */
  ghost predicate Readable(m: Metric) {
    && (forall c :: c in m.name ==> c != '{' && c != ' ')
    && (forall k :: k in m.labels ==> '=' !in k && '"' !in m.labels[k])
  }

  function Zip(labels: map<string, string>, keys: seq<string>): seq<(string, string)>
    requires forall k :: k in keys ==> k in labels
  {
    seq(|keys|, i requires 0 <= i < |keys| => (keys[i], labels[keys[i]]))
  }

  lemma UntilFirst(a: string, b: string, stops: set<char>)
    requires forall k :: 0 <= k < |a| ==> a[k] !in stops
    requires |b| > 0 && b[0] in stops
    ensures Until(a + b, stops) == |a|
  {
    var j := Until(a + b, stops);
    assert (a + b)[|a|] == b[0];
    assert forall k :: 0 <= k < |a| ==> (a + b)[k] == a[k];
  }

  lemma ReadPairOf(k: string, v: string, more: string)
    requires '=' !in k && '"' !in v
    ensures ReadPair(LabelPair(k, v) + more) == Some((k, v, more))
  {
    var s := LabelPair(k, v) + more;
    var afterKey := "=\"" + v + "\"" + more;
    assert s == k + afterKey;
    UntilFirst(k, afterKey, {'='});
    var t := s[|k| + 2..];
    assert t == v + ("\"" + more);
    UntilFirst(v, "\"" + more, {'"'});
    assert s[..|k|] == k && t[..|v|] == v && t[|v| + 1..] == more;
  }

  lemma JoinCons(sep: string, xs: seq<string>)
    requires |xs| > 1
    ensures Join(sep, xs) == xs[0] + sep + Join(sep, xs[1..])
  {
  }

  /** The last pair, closed by `}`. */
  lemma ParsePairsLast(k: string, v: string, tail: string)
    requires '=' !in k && '"' !in v
    ensures ParsePairs(LabelPair(k, v) + ("}" + tail)) == Some(([(k, v)], tail))
  {
    ReadPairOf(k, v, "}" + tail);
    assert ("}" + tail)[1..] == tail;
  }

  /** A pair followed by `, ` and more pairs. */
  lemma ParsePairsNext(k: string, v: string, inner: string, ps: seq<(string, string)>, tail: string)
    requires '=' !in k && '"' !in v
    requires ParsePairs(inner) == Some((ps, tail))
    ensures ParsePairs(LabelPair(k, v) + (", " + inner)) == Some(([(k, v)] + ps, tail))
  {
    ReadPairOf(k, v, ", " + inner);
    assert (", " + inner)[..2] == ", " && (", " + inner)[2..] == inner;
  }

  lemma {:induction false} ParsePairsOfJoin(labels: map<string, string>, keys: seq<string>, tail: string)
    requires |keys| > 0
    requires forall k :: k in keys ==> k in labels && '=' !in k && '"' !in labels[k]
    ensures ParsePairs(Join(", ", Pairs(labels, keys)) + "}" + tail) == Some((Zip(labels, keys), tail))
    decreases |keys|
  {
    var k0, v0 := keys[0], labels[keys[0]];
    var ps := Pairs(labels, keys);
    assert ps[0] == LabelPair(k0, v0);
    AppendAssoc(Join(", ", ps), "}", tail);
    if |keys| == 1 {
      ParsePairsLast(k0, v0, tail);
      assert Zip(labels, keys) == [(k0, v0)];
    } else {
      var rest := Join(", ", Pairs(labels, keys[1..]));
      assert ps[1..] == Pairs(labels, keys[1..]);
      JoinCons(", ", ps);
      AppendAssoc(LabelPair(k0, v0), ", ", rest);
      AppendAssoc(LabelPair(k0, v0), ", " + rest, "}" + tail);
      AppendAssoc(", ", rest, "}" + tail);
      AppendAssoc(rest, "}", tail);
      ParsePairsOfJoin(labels, keys[1..], tail);
      ParsePairsNext(k0, v0, rest + "}" + tail, Zip(labels, keys[1..]), tail);
      ZipCons(labels, keys);
    }
  }

  lemma ZipCons(labels: map<string, string>, keys: seq<string>)
    requires |keys| > 0 && forall k :: k in keys ==> k in labels
    ensures Zip(labels, keys) == [(keys[0], labels[keys[0]])] + Zip(labels, keys[1..])
  {
    var l, r := Zip(labels, keys), [(keys[0], labels[keys[0]])] + Zip(labels, keys[1..]);
    assert |l| == |r|;
    forall i | 0 <= i < |l| ensures l[i] == r[i] {
      if i > 0 {
        assert keys[1..][i - 1] == keys[i];
      }
    }
  }

  lemma {:induction false} ToMapOfZip(labels: map<string, string>, keys: seq<string>)
    requires forall k :: k in keys ==> k in labels
    ensures ToMap(Zip(labels, keys)).Keys == set k | k in keys
    ensures forall k :: k in keys ==> ToMap(Zip(labels, keys))[k] == labels[k]
    decreases |keys|
  {
    if |keys| > 0 {
      assert Zip(labels, keys)[1..] == Zip(labels, keys[1..]);
      ToMapOfZip(labels, keys[1..]);
      assert (set k | k in keys) == (set k | k in keys[1..]) + {keys[0]};
    }
  }

  lemma ReadBare(name: string, value: string)
    requires forall k :: 0 <= k < |name| ==> name[k] != '{' && name[k] != ' '
    ensures ParseRendered(name + " " + value) == Some(Parsed(name, map[], value))
  {
    UntilFirst(name, " " + value, {'{', ' '});
    assert name + " " + value == name + (" " + value);
    assert (name + " " + value)[..|name|] == name;
    assert (name + " " + value)[|name| + 1..] == value;
  }

  /** A name, then `{`, then pairs and a space: the parse keeps the name, the pairs and what follows the space. */
  lemma ParseRenderedOf(name: string, body: string, ps: seq<(string, string)>, value: string)
    requires forall k :: 0 <= k < |name| ==> name[k] != '{' && name[k] != ' '
    requires ParsePairs(body) == Some((ps, " " + value))
    ensures ParseRendered(name + ("{" + body)) == Some(Parsed(name, ToMap(ps), value))
  {
    var line := name + ("{" + body);
    UntilFirst(name, "{" + body, {'{', ' '});
    assert line[..|name|] == name;
    assert line[|name|] == '{';
    assert line[|name| + 1..] == body;
    assert (" " + value)[1..] == value;
  }

  lemma ReadLabelled(name: string, labels: map<string, string>, value: string)
    requires forall k :: 0 <= k < |name| ==> name[k] != '{' && name[k] != ' '
    requires forall k :: k in labels ==> '=' !in k && '"' !in labels[k]
    requires |labels| > 0
    ensures ParseRendered(name + LabelText(labels) + " " + value) == Some(Parsed(name, labels, value))
  {
    LabelTextBraces(labels);
    var keys := Order.SortedKeys(labels.Keys);
    var joined := Join(", ", Pairs(labels, keys));
    var body := joined + "}" + (" " + value);
    assert name + LabelText(labels) + " " + value == name + ("{" + body);
    ParsePairsOfJoin(labels, keys, " " + value);
    ParseRenderedOf(name, body, Zip(labels, keys), value);
    ToMapOfZip(labels, keys);
    assert ToMap(Zip(labels, keys)) == labels;
  }


  /**
   * The text form loses nothing: reading a rendered line back gives the
   * metric's name, its whole label dictionary and its value text, as long as
   * the name has no `{` or space, no key an `=` and no value a `"`.
   */
  lemma RenderRoundTrip(m: Metric)
    requires Readable(m)
    ensures ParseRendered(Render(m)) == Some(Parsed(m.name, m.labels, ValueText(m.value)))
  {
    assert forall k :: 0 <= k < |m.name| ==> m.name[k] in m.name;
    LabelTextBraces(m.labels);
    if |m.labels| == 0 {
      assert m.labels == map[];
      assert Render(m) == m.name + " " + ValueText(m.value);
      ReadBare(m.name, ValueText(m.value));
    } else {
      ReadLabelled(m.name, m.labels, ValueText(m.value));
    }
  }

  // ---------------------------------------------------------------------
  // Aggregation: metrics.setdefault(metric.name, []).append(metric)
  // ---------------------------------------------------------------------

  function Names(ms: seq<Metric>): set<string> {
    set m | m in ms :: m.name
  }

  /** The metrics of `ms` called `n`, in the order they were found. */
  function Named(ms: seq<Metric>, n: string): seq<Metric>
    decreases |ms|
  {
    if |ms| == 0 then []
    else Named(ms[..|ms| - 1], n) + (if ms[|ms| - 1].name == n then [ms[|ms| - 1]] else [])
  }

  lemma NamedPresent(ms: seq<Metric>)
    ensures forall n :: n in Names(ms) ==> Named(ms, n) != []
  {
    forall n | n in Names(ms) ensures Named(ms, n) != [] {
      var m :| m in ms && m.name == n;
      NamedCounts(ms, n, m);
    }
  }

  /** The dictionary the aggregation loop has built once it has seen `ms`. */
  function Grouped(ms: seq<Metric>): (g: map<string, seq<Metric>>)
    ensures g.Keys == Names(ms)
    ensures forall n :: n in g ==> g[n] != []
  {
    NamedPresent(ms);
    map n | n in Names(ms) :: Named(ms, n)
  }

  lemma {:induction false} NamedAbsent(ms: seq<Metric>, n: string)
    requires n !in Names(ms)
    ensures Named(ms, n) == []
    decreases |ms|
  {
    if |ms| > 0 {
      assert ms[|ms| - 1] in ms;
      assert Names(ms[..|ms| - 1]) <= Names(ms) by {
        forall x | x in Names(ms[..|ms| - 1]) ensures x in Names(ms) {
          var m :| m in ms[..|ms| - 1] && m.name == x;
          assert m in ms;
        }
      }
      NamedAbsent(ms[..|ms| - 1], n);
    }
  }

  lemma GroupedSnoc(ms: seq<Metric>, m: Metric)
    ensures Grouped(ms + [m]) == Grouped(ms)[m.name := Named(ms, m.name) + [m]]
  {
    var xs := ms + [m];
    assert xs[..|xs| - 1] == ms;
    assert Names(xs) == Names(ms) + {m.name} by {
      forall x | x in Names(xs) ensures x in Names(ms) + {m.name} {
        var y :| y in xs && y.name == x;
        if y != m { assert y in ms; }
      }
      forall x | x in Names(ms) ensures x in Names(xs) {
        var y :| y in ms && y.name == x;
        assert y in xs;
      }
    }
    var lhs, rhs := Grouped(xs), Grouped(ms)[m.name := Named(ms, m.name) + [m]];
    assert lhs.Keys == rhs.Keys;
    forall n | n in lhs.Keys ensures lhs[n] == rhs[n] {
      assert lhs[n] == Named(xs, n);
    }
  }

  /**
   * Appends each metric of `ms`, in order, to the list kept under its name.
   * Started from the dictionary built for `seen`, it ends with the one
   * built for `seen + ms`.
   */
  method Aggregate(groups: map<string, seq<Metric>>, ms: seq<Metric>, ghost seen: seq<Metric>)
    returns (r: map<string, seq<Metric>>)
    requires groups == Grouped(seen)
    ensures r == Grouped(seen + ms)
  {
    r := groups;
    assert seen + ms[..0] == seen;
    for i := 0 to |ms|
      invariant r == Grouped(seen + ms[..i])
    {
      var m := ms[i];
      var list := if m.name in r then r[m.name] else [];
      if m.name !in r {
        NamedAbsent(seen + ms[..i], m.name);
      }
      GroupedSnoc(seen + ms[..i], m);
      assert seen + ms[..i + 1] == (seen + ms[..i]) + [m];
      r := r[m.name := list + [m]];
    }
    assert ms[..|ms|] == ms;
  }

  /**
   * The dictionary holds, under each name that occurs, exactly the metrics
   * of that name (as many times as they were found), and nothing else.
   */
  lemma {:induction false} NamedCounts(ms: seq<Metric>, n: string, m: Metric)
    ensures multiset(Named(ms, n))[m] == if m.name == n then multiset(ms)[m] else 0
    decreases |ms|
  {
    if |ms| > 0 {
      var init, last := ms[..|ms| - 1], ms[|ms| - 1];
      assert ms == init + [last];
      NamedCounts(init, n, m);
    }
  }

  lemma GroupedEmpty(ms: seq<Metric>)
    ensures Grouped(ms) == map[] <==> ms == []
  {
    if ms != [] {
      assert ms[0].name in Names(ms);
      assert ms[0].name in Grouped(ms);
    }
  }

  // ---------------------------------------------------------------------
  // Exposition
  // ---------------------------------------------------------------------

  /** `type_help_header`: the `# HELP` and `# TYPE` lines of a metric's name. */
  function Header(m: Metric): seq<string> {
    ["# HELP " + m.name + " " + m.help, "# TYPE " + m.name + " " + m.kind]
  }

  function RenderAll(ms: seq<Metric>): seq<string> {
    seq(|ms|, i requires 0 <= i < |ms| => Render(ms[i]))
  }

  function ExposeNames(groups: map<string, seq<Metric>>, names: seq<string>): seq<string>
    requires forall n :: n in names ==> n in groups && groups[n] != []
    decreases |names|
  {
    if |names| == 0 then []
    else
      var group := groups[names[0]];
      Header(group[0]) + Order.Sort(RenderAll(group)) + ExposeNames(groups, names[1..])
  }

  /** The printed output: names in order, each with its header and its lines sorted. */
  function Exposition(groups: map<string, seq<Metric>>): seq<string>
    requires forall n :: n in groups ==> groups[n] != []
  {
    ExposeNames(groups, Order.SortedKeys(groups.Keys))
  }

  /** All metrics of one name share the template they were made from. */
  ghost predicate OneTemplatePerName(ms: seq<Metric>) {
    forall i, j :: 0 <= i < |ms| && 0 <= j < |ms| && ms[i].name == ms[j].name ==>
      ms[i].kind == ms[j].kind && ms[i].help == ms[j].help
  }

  lemma RenderAllAppend(a: seq<Metric>, b: seq<Metric>)
    ensures RenderAll(a + b) == RenderAll(a) + RenderAll(b)
  {
    var l, r := RenderAll(a + b), RenderAll(a) + RenderAll(b);
    assert |l| == |r|;
    forall i | 0 <= i < |l| ensures l[i] == r[i] {
      if i < |a| {
        assert (a + b)[i] == a[i];
      } else {
        assert (a + b)[i] == b[i - |a|];
      }
    }
  }

  lemma {:induction false} RenderAllPermutation(a: seq<Metric>, b: seq<Metric>)
    requires multiset(a) == multiset(b)
    ensures multiset(RenderAll(a)) == multiset(RenderAll(b))
    decreases |a|
  {
    if |a| == 0 {
      assert |b| == |multiset(b)| == 0;
    } else {
      assert a[0] in multiset(b);
      var j :| 0 <= j < |b| && b[j] == a[0];
      var rest := b[..j] + b[j + 1..];
      assert b == b[..j] + [b[j]] + b[j + 1..];
      assert a == [a[0]] + a[1..];
      assert multiset(b) == multiset(b[..j]) + multiset{b[j]} + multiset(b[j + 1..]);
      assert multiset(a) == multiset{a[0]} + multiset(a[1..]);
      assert multiset(a[1..]) == multiset(a) - multiset{a[0]};
      assert rest == b[..j] + b[j + 1..];
      assert multiset(rest) == multiset(b[..j]) + multiset(b[j + 1..]);
      assert multiset(a[1..]) == multiset(rest);
      RenderAllPermutation(a[1..], rest);
      RenderAllAppend([a[0]], a[1..]);
      RenderAllAppend(b[..j], [b[j]]);
      RenderAllAppend(b[..j] + [b[j]], b[j + 1..]);
      RenderAllAppend(b[..j], b[j + 1..]);
    }
  }

  lemma {:induction false} ExposeNamesAgree(g1: map<string, seq<Metric>>, g2: map<string, seq<Metric>>, names: seq<string>)
    requires forall n :: n in names ==> n in g1 && g1[n] != [] && n in g2 && g2[n] != []
    requires forall n :: n in names ==> multiset(g1[n]) == multiset(g2[n])
    requires forall n :: n in names ==> Header(g1[n][0]) == Header(g2[n][0])
    ensures ExposeNames(g1, names) == ExposeNames(g2, names)
    decreases |names|
  {
    if |names| > 0 {
      var n := names[0];
      RenderAllPermutation(g1[n], g2[n]);
      Order.SortDeterministic(RenderAll(g1[n]), RenderAll(g2[n]));
      ExposeNamesAgree(g1, g2, names[1..]);
    }
  }

  /**
   * The printed output does not depend on the order in which the metrics
   * were discovered: any rearrangement of the same observations, made from
   * one template per name, prints the same lines.
   */
  lemma ExpositionOrderIndependent(ms1: seq<Metric>, ms2: seq<Metric>)
    requires multiset(ms1) == multiset(ms2)
    requires OneTemplatePerName(ms1)
    ensures Grouped(ms1).Keys == Grouped(ms2).Keys
    ensures Exposition(Grouped(ms1)) == Exposition(Grouped(ms2))
  {
    assert Names(ms1) == Names(ms2) by {
      forall x | x in Names(ms1) ensures x in Names(ms2) {
        var m :| m in ms1 && m.name == x;
        assert m in multiset(ms2);
      }
      forall x | x in Names(ms2) ensures x in Names(ms1) {
        var m :| m in ms2 && m.name == x;
        assert m in multiset(ms1);
      }
    }
    var g1, g2 := Grouped(ms1), Grouped(ms2);
    forall n | n in g1
      ensures multiset(g1[n]) == multiset(g2[n])
      ensures Header(g1[n][0]) == Header(g2[n][0])
    {
      forall m ensures multiset(g1[n])[m] == multiset(g2[n])[m] {
        NamedCounts(ms1, n, m);
        NamedCounts(ms2, n, m);
      }
      assert multiset(g1[n]) == multiset(g2[n]);
      var a, b := g1[n][0], g2[n][0];
      NamedCounts(ms1, n, a);
      NamedCounts(ms2, n, b);
      assert a in multiset(g1[n]) && b in multiset(g2[n]);
      assert b in multiset(ms1);
      var i :| 0 <= i < |ms1| && ms1[i] == a;
      var j :| 0 <= j < |ms1| && ms1[j] == b;
    }
    ExposeNamesAgree(g1, g2, Order.SortedKeys(g1.Keys));
  }
}
