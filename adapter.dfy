/** The input adapter at the head of `sankeyWidget.prototype.buildLinks`:
    it turns table rows into the node names and links the layout engine
    takes. A row is kept when its value is a number `>= 0` and its source is
    not null; a kept row that is not a self-loop adds its source and target
    names (each once, in order of first appearance) and one link naming them
    by index, carrying the row's value and the row's number `idx`. */
module Adapter {
  import opened Seqs
  import opened Graph

  /** A source or target cell: null (or undefined), or a value given by its
      `toString()` text. */
  datatype Cell = Missing | Text(text: string)

  /** A table row: source and target cells and the value cell as
      `Number(...)` reads it, None standing for NaN. */
  datatype Row = Row(source: Cell, target: Cell, value: Option<real>)

  /** An emitted link: `{source, target, value, idx}`. */
  datatype Flow = Flow(source: nat, target: nat, value: real, idx: nat)

  /** What the adapter builds: node names in index order, and the links. */
  datatype Built = Built(names: seq<string>, flows: seq<Flow>)

  /** The adapter's outcome: the graph, or the row at which it throws. */
  datatype Outcome = Done(built: Built) | Throws(row: nat)

  /** The filter `value >= 0 && source != null && typeof target != null`.
      The last test compares a type name with null and always holds, so the
      target is not looked at. A NaN value fails `>= 0`. */
  predicate PassesFilter(row: Row) {
    row.value.Some? && row.value.value >= 0.0 && row.source.Text?
  }

  /** A row that passes the filter with a null target: `target.toString()`
      throws there. */
  predicate Breaks(row: Row) {
    PassesFilter(row) && row.target.Missing?
  }

  /** A row that becomes a link: it passes the filter, has a target, and
      is not a self-loop. */
  predicate Accepted(row: Row) {
    PassesFilter(row) && row.target.Text? && row.source.text != row.target.text
  }

  /** `addName`: a name not seen before is appended. */
  function AddName(names: seq<string>, s: string): seq<string> {
    if s in names then names else names + [s]
  }

  /** The index of the first occurrence of s. */
  function IndexOf(names: seq<string>, s: string): (r: nat)
    requires s in names
    ensures r < |names| && names[r] == s
    ensures forall k :: 0 <= k < r ==> names[k] != s
  {
    if names[0] == s then 0 else 1 + IndexOf(names[1..], s)
  }

  /** One iteration of the row loop, row i. */
  function Step(b: Built, row: Row, i: nat): Outcome {
    if !PassesFilter(row) then Done(b)
    else if row.target.Missing? then Throws(i)
    else if row.source.text == row.target.text then Done(b)
    else
      var s, t := row.source.text, row.target.text;
      var names := AddName(AddName(b.names, s), t);
      Done(Built(names, b.flows + [Flow(IndexOf(names, s), IndexOf(names, t), row.value.value, i)]))
  }

  /** The adapter over the first k rows. */
  function Build(rows: seq<Row>, k: nat): Outcome
    requires k <= |rows|
  {
    if k == 0 then Done(Built([], []))
    else
      match Build(rows, k - 1)
      case Throws(i) => Throws(i)
      case Done(b) => Step(b, rows[k - 1], k - 1)
  }

  /** The names that rows before k bring, in row order: source then target
      of every accepted row. */
  function Mentions(rows: seq<Row>, k: nat): seq<string>
    requires k <= |rows|
  {
    if k == 0 then []
    else Mentions(rows, k - 1) + (if Accepted(rows[k - 1]) then [rows[k - 1].source.text, rows[k - 1].target.text] else [])
  }

  /** The accepted rows before k, in row order. */
  function AcceptedRows(rows: seq<Row>, k: nat): seq<nat>
    requires k <= |rows|
  {
    if k == 0 then [] else AcceptedRows(rows, k - 1) + (if Accepted(rows[k - 1]) then [k - 1] else [])
  }

  /** The row numbers the links carry. */
  function Idxs(flows: seq<Flow>): seq<nat> {
    seq(|flows|, l requires 0 <= l < |flows| => flows[l].idx)
  }

  /** `addName` folded over a list of names. */
  function Dedup(ms: seq<string>): seq<string> {
    if ms == [] then [] else AddName(Dedup(ms[..|ms| - 1]), ms[|ms| - 1])
  }

  predicate Distinct(names: seq<string>) {
    forall a, b :: 0 <= a < b < |names| ==> names[a] != names[b]
  }

  /** The names kept by `Dedup` are distinct and are exactly the names in
      the list. */
  lemma {:induction false} DedupKeeps(ms: seq<string>)
    ensures Distinct(Dedup(ms))
    ensures forall s :: s in Dedup(ms) <==> s in ms
  {
    if ms != [] {
      var init, y := ms[..|ms| - 1], ms[|ms| - 1];
      assert ms == init + [y];
      DedupKeeps(init);
    }
  }

  /** The names kept by `Dedup` are distinct, are exactly the names in the
      list, and come in order of first appearance. */
  lemma {:induction false} DedupFirstAppearance(ms: seq<string>)
    ensures Distinct(Dedup(ms))
    ensures forall s :: s in Dedup(ms) <==> s in ms
    ensures forall a, b :: 0 <= a < b < |Dedup(ms)| ==> IndexOf(ms, Dedup(ms)[a]) < IndexOf(ms, Dedup(ms)[b])
  {
    DedupKeeps(ms);
    if ms != [] {
      var init, y := ms[..|ms| - 1], ms[|ms| - 1];
      assert ms == init + [y];
      DedupFirstAppearance(init);
      DedupOrderStep(init, y);
    }
  }

  /** Appending one name keeps the kept names in order of first appearance. */
  lemma DedupOrderStep(init: seq<string>, y: string)
    requires forall s :: s in Dedup(init) <==> s in init
    requires forall s :: s in Dedup(init + [y]) <==> s in init + [y]
    requires forall a, b :: 0 <= a < b < |Dedup(init)| ==> IndexOf(init, Dedup(init)[a]) < IndexOf(init, Dedup(init)[b])
    ensures var ms := init + [y];
      forall a, b :: 0 <= a < b < |Dedup(ms)| ==> IndexOf(ms, Dedup(ms)[a]) < IndexOf(ms, Dedup(ms)[b])
  {
    var ms := init + [y];
    assert ms[..|ms| - 1] == init;
    var d := Dedup(init);
    forall s | s in init
      ensures IndexOf(ms, s) == IndexOf(init, s)
    {
      IndexOfPrefix(init, [y], s);
    }
    if y !in d {
      IndexOfPrefix(init, [y], y);
      forall a | 0 <= a < |d|
        ensures IndexOf(ms, d[a]) < IndexOf(ms, y)
      {
        assert d[a] in init;
      }
    }
  }

  /** The first occurrence of a name in a list is where it was before more
      names were appended; a name not in the list is first found after it. */
  lemma {:induction false} IndexOfPrefix(a: seq<string>, b: seq<string>, s: string)
    requires s in a + b
    ensures s in a ==> IndexOf(a + b, s) == IndexOf(a, s)
    ensures s !in a ==> IndexOf(a + b, s) == |a| + IndexOf(b, s)
  {
    if a != [] {
      assert (a + b)[1..] == a[1..] + b;
      if a[0] != s {
        IndexOfPrefix(a[1..], b, s);
      }
    } else {
      assert a + b == b;
    }
  }

  /** Once the adapter throws, later rows change nothing. */
  lemma {:induction false} BuildThrowsSticks(rows: seq<Row>, k: nat, m: nat)
    requires k <= m <= |rows| && Build(rows, k).Throws?
    ensures Build(rows, m) == Build(rows, k)
    decreases m - k
  {
    if k < m {
      BuildThrowsSticks(rows, k + 1, m);
    }
  }

  /** The adapter throws exactly at the first row that passes the filter
      without a target, and finishes when there is none. */
  lemma {:induction false} BuildThrowsAtFirstBreak(rows: seq<Row>, k: nat)
    requires k <= |rows|
    ensures Build(rows, k).Throws? ==>
      var i := Build(rows, k).row;
      i < k && Breaks(rows[i]) && forall i' :: 0 <= i' < i ==> !Breaks(rows[i'])
    ensures Build(rows, k).Done? <==> forall i :: 0 <= i < k ==> !Breaks(rows[i])
  {
    if k > 0 {
      BuildThrowsAtFirstBreak(rows, k - 1);
    }
  }

  /** When the adapter finishes, its names are the names of the accepted
      rows, without duplicates, in order of first appearance; a skipped
      self-loop row adds none. */
  lemma {:induction false} BuildNames(rows: seq<Row>, k: nat)
    requires k <= |rows| && Build(rows, k).Done?
    ensures Build(rows, k).built.names == Dedup(Mentions(rows, k))
  {
    if k > 0 {
      assert Build(rows, k - 1).Done?;
      BuildNames(rows, k - 1);
      var row := rows[k - 1];
      var b := Build(rows, k - 1).built;
      assert Build(rows, k) == Step(b, row, k - 1);
      if Accepted(row) {
        var ms := Mentions(rows, k - 1);
        var s, t := row.source.text, row.target.text;
        var m1 := ms + [s];
        var m2 := m1 + [t];
        assert Mentions(rows, k) == m2;
        assert m2[..|m2| - 1] == m1 && m1[..|m1| - 1] == ms;
        assert Dedup(m1) == AddName(Dedup(ms), s);
        assert Dedup(m2) == AddName(Dedup(m1), t);
        assert Build(rows, k).built.names == AddName(AddName(b.names, s), t);
      } else {
        assert Mentions(rows, k) == Mentions(rows, k - 1) + [];
        assert Mentions(rows, k - 1) + [] == Mentions(rows, k - 1);
      }
    }
  }

  /** When the adapter finishes there is one link per accepted row, in row
      order. */
  lemma {:induction false} BuildIdxs(rows: seq<Row>, k: nat)
    requires k <= |rows| && Build(rows, k).Done?
    ensures Idxs(Build(rows, k).built.flows) == AcceptedRows(rows, k)
  {
    if k > 0 {
      BuildIdxs(rows, k - 1);
    }
  }

  /** The names never shrink: each step only appends. */
  lemma BuildStepExtends(rows: seq<Row>, k: nat)
    requires 0 < k <= |rows| && Build(rows, k).Done?
    ensures Build(rows, k - 1).Done?
    ensures var b, b' := Build(rows, k - 1).built, Build(rows, k).built;
      && |b.names| <= |b'.names| && b'.names[..|b.names|] == b.names
      && |b.flows| <= |b'.flows| && b'.flows[..|b.flows|] == b.flows
  {
  }

  /** A link as the adapter emits it for row `f.idx`: the row is accepted,
      and the link names the row's source and target by their index among
      the names and carries the row's value. */
  ghost predicate FlowOfRow(names: seq<string>, f: Flow, rows: seq<Row>) {
    && f.idx < |rows| && Accepted(rows[f.idx])
    && f.source < |names| && f.target < |names|
    && names[f.source] == rows[f.idx].source.text && names[f.target] == rows[f.idx].target.text
    && rows[f.idx].value == Some(f.value)
  }

  /** Every emitted link comes from an earlier accepted row and names that
      row's endpoints; since the names are distinct, no link is a self-loop
      and every endpoint is a valid index, and no value is negative. */
  lemma {:induction false} BuildFlows(rows: seq<Row>, k: nat, l: nat)
    requires k <= |rows| && Build(rows, k).Done? && l < |Build(rows, k).built.flows|
    ensures var b := Build(rows, k).built;
      && b.flows[l].idx < k && FlowOfRow(b.names, b.flows[l], rows)
      && b.flows[l].source != b.flows[l].target && b.flows[l].value >= 0.0
  {
    var b := Build(rows, k).built;
    BuildStepExtends(rows, k);
    var prev := Build(rows, k - 1).built;
    if l < |prev.flows| {
      BuildFlows(rows, k - 1, l);
      assert b.flows[l] == prev.flows[l];
      assert b.names[b.flows[l].source] == prev.names[b.flows[l].source];
      assert b.names[b.flows[l].target] == prev.names[b.flows[l].target];
    } else {
      assert b.flows[l].idx == k - 1;
    }
  }

  /** The names that `Build` produces are distinct, so `IndexOf` is each
      name's one index. */
  lemma BuildDistinct(rows: seq<Row>, k: nat)
    requires k <= |rows| && Build(rows, k).Done?
    ensures Distinct(Build(rows, k).built.names)
  {
    BuildNames(rows, k);
    DedupFirstAppearance(Mentions(rows, k));
  }

  /** `addName` and the dictionary it keeps: the method mirrors the
      closure, with `nameDict` passed in and out. */
  method AddNameTo(dict: map<string, nat>, names: seq<string>, s: string)
    returns (dict': map<string, nat>, names': seq<string>)
    requires Indexes(dict, names)
    ensures Indexes(dict', names') && names' == AddName(names, s)
  {
    if s in dict {
      return dict, names;
    }
    dict' := dict[s := |names|];
    names' := names + [s];
  }

  /** `nameDict` maps exactly the names to their indices. */
  ghost predicate Indexes(dict: map<string, nat>, names: seq<string>) {
    && Distinct(names)
    && (forall s :: s in dict <==> s in names)
    && (forall s :: s in dict ==> dict[s] < |names| && names[dict[s]] == s)
  }

  lemma IndexesIndexOf(dict: map<string, nat>, names: seq<string>, s: string)
    requires Indexes(dict, names) && s in names
    ensures dict[s] == IndexOf(names, s)
  {
  }

  /** The row loop of `buildLinks`. */
  method BuildLinks(rows: seq<Row>) returns (r: Outcome)
    ensures r == Build(rows, |rows|)
  {
    var dict: map<string, nat> := map[];
    var names: seq<string> := [];
    var flows: seq<Flow> := [];
    var i: nat := 0;
    while i < |rows|
      invariant i <= |rows|
      invariant Scanned(rows, i, dict, names, flows)
    {
      var stop;
      dict, names, flows, stop := ScanRow(rows, i, dict, names, flows);
      if stop {
        BuildThrowsSticks(rows, i + 1, |rows|);
        return Throws(i);
      }
      i := i + 1;
    }
    return Done(Built(names, flows));
  }

  /** The loop state after the first i rows: the adapter has not thrown,
      and `nameDict` indexes the names. */
  ghost predicate Scanned(rows: seq<Row>, i: nat, dict: map<string, nat>, names: seq<string>, flows: seq<Flow>) {
    i <= |rows| && Build(rows, i) == Done(Built(names, flows)) && Indexes(dict, names)
  }

  /** The body of the row loop for row i: it either throws (`stop`) or
      moves the state on to i + 1. */
  method ScanRow(rows: seq<Row>, i: nat, dict: map<string, nat>, names: seq<string>, flows: seq<Flow>)
    returns (dict': map<string, nat>, names': seq<string>, flows': seq<Flow>, stop: bool)
    requires Scanned(rows, i, dict, names, flows) && i < |rows|
    ensures stop ==> Build(rows, i + 1) == Throws(i)
    ensures !stop ==> Scanned(rows, i + 1, dict', names', flows')
  {
    dict', names', flows', stop := dict, names, flows, false;
    var row := rows[i];
    assert Build(rows, i + 1) == Step(Built(names, flows), row, i);
    if row.value.Some? && row.value.value >= 0.0 && row.source.Text? {
      if row.target.Missing? {
        stop := true;
        return;
      }
      var source, target := row.source.text, row.target.text;
      if source != target {
        dict', names' := AddNameTo(dict', names', source);
        dict', names' := AddNameTo(dict', names', target);
        IndexesIndexOf(dict', names', source);
        IndexesIndexOf(dict', names', target);
        flows' := flows' + [Flow(dict'[source], dict'[target], row.value.value, i)];
      }
    }
  }

  /** The graph the engine is handed: one fresh node per name, one fresh
      link per emitted link. */
  function ToArena(b: Built): (r: (seq<Node>, seq<Link>))
    ensures |r.0| == |b.names| && |r.1| == |b.flows|
  {
    (seq(|b.names|, v requires 0 <= v < |b.names| => NewNode(b.names[v])),
     seq(|b.flows|, l requires 0 <= l < |b.flows| => NewLink(b.flows[l].source, b.flows[l].target, b.flows[l].value)))
  }

  /** What the adapter hands the engine is a graph the engine can lay out:
      every endpoint a node, no self-loop, no negative value. */
  lemma ArenaValid(rows: seq<Row>)
    requires Build(rows, |rows|).Done?
    ensures var g := ToArena(Build(rows, |rows|).built);
      && ValidLinks(|g.0|, g.1)
      && forall j :: 0 <= j < |g.1| ==> g.1[j].source != g.1[j].target && g.1[j].value >= 0.0
  {
    var b := Build(rows, |rows|).built;
    forall j | 0 <= j < |b.flows|
      ensures b.flows[j].source < |b.names| && b.flows[j].target < |b.names|
      ensures b.flows[j].source != b.flows[j].target && b.flows[j].value >= 0.0
    {
      BuildFlows(rows, |rows|, j);
    }
  }
}
