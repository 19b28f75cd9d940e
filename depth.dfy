/** `computeNodeDepths`: the vertical scale `ky`, the initial placement of
    each column, collision resolution over all columns, and the damped
    relaxation rounds. The columns (`nodesByBreadth`) are threaded through
    as a value because collision resolution sorts them in place. */
module Depth {
  import opened Seqs
  import opened Graph
  import opened Columns
  import opened Collisions
  import opened Relaxation

  /** Every column names nodes of the arena. */
  predicate AllInRange(cols: seq<seq<nat>>, n: nat) {
    forall c :: 0 <= c < |cols| ==> InRange(cols[c], n)
  }

  /** Every column is non-empty, names arena nodes and has a positive total
      value, so that its candidate scale is a number. */
  predicate ColumnsWeighed(nodes: seq<Node>, cols: seq<seq<nat>>) {
    forall c :: 0 <= c < |cols| ==>
      cols[c] != [] && InRange(cols[c], |nodes|) && SumAt(NodeValues(nodes), cols[c]) > 0.0
  }

  /** One column's candidate for `ky`: the height left once its gaps are
      taken, per unit of value. */
  function ColumnKy(nodes: seq<Node>, col: seq<nat>, pad: real, height: real): real
    requires col != [] && InRange(col, |nodes|) && SumAt(NodeValues(nodes), col) > 0.0
  {
    (height - Gaps(|col| - 1, pad)) / SumAt(NodeValues(nodes), col)
  }

  function Min(a: real, b: real): real {
    if a <= b then a else b
  }

  /** `ky`: the smallest candidate over the columns. Without columns there
      is no node to scale and the value is never used. */
  function Ky(nodes: seq<Node>, cols: seq<seq<nat>>, pad: real, height: real): real
    requires ColumnsWeighed(nodes, cols)
  {
    if |cols| == 0 then 0.0
    else if |cols| == 1 then ColumnKy(nodes, cols[0], pad, height)
    else Min(ColumnKy(nodes, cols[0], pad, height), Ky(nodes, cols[1..], pad, height))
  }

  /** `ky` is no larger than any column's candidate and equals one of them. */
  lemma {:induction false} KyIsLeast(nodes: seq<Node>, cols: seq<seq<nat>>, pad: real, height: real)
    requires ColumnsWeighed(nodes, cols) && |cols| > 0
    ensures forall c :: 0 <= c < |cols| ==> Ky(nodes, cols, pad, height) <= ColumnKy(nodes, cols[c], pad, height)
    ensures exists c :: 0 <= c < |cols| && Ky(nodes, cols, pad, height) == ColumnKy(nodes, cols[c], pad, height)
  {
    var ky := Ky(nodes, cols, pad, height);
    if |cols| == 1 {
      assert ky == ColumnKy(nodes, cols[0], pad, height);
    } else {
      KyIsLeast(nodes, cols[1..], pad, height);
      var c :| 0 <= c < |cols[1..]| && Ky(nodes, cols[1..], pad, height) == ColumnKy(nodes, cols[1..][c], pad, height);
      var w := if ky == ColumnKy(nodes, cols[0], pad, height) then 0 else c + 1;
      assert cols[c + 1] == cols[1..][c];
      assert 0 <= w < |cols| && ky == ColumnKy(nodes, cols[w], pad, height);
      forall c' | 1 <= c' < |cols|
        ensures Ky(nodes, cols, pad, height) <= ColumnKy(nodes, cols[c'], pad, height)
      {
        assert cols[c'] == cols[1..][c' - 1];
      }
    }
  }

  /** A node's position in its column: the number of earlier nodes in the
      arena with the same column. */
  function Position(nodes: seq<Node>, v: nat): nat
    requires v < |nodes|
  {
    |IndicesOf(Breadths(nodes), nodes[v].breadth, v)|
  }

  /** `initializeNodeDepth` for the nodes: each node's top is its position
      in its column and its height its value scaled by `ky`. */
  function InitNodes(nodes: seq<Node>, ky: real): (r: seq<Node>)
    ensures |r| == |nodes|
  {
    seq(|nodes|, v requires 0 <= v < |nodes| =>
      nodes[v].(y := Position(nodes, v) as real, dy := nodes[v].value * ky))
  }

  /** `initializeNodeDepth` for the links: each link's thickness is its
      value scaled by `ky`. */
  function InitLinks(links: seq<Link>, ky: real): (r: seq<Link>)
    ensures |r| == |links|
  {
    seq(|links|, j requires 0 <= j < |links| => links[j].(dy := links[j].value * ky))
  }

  /** After initialisation the i-th node of every column sits at `y == i`. */
  lemma InitPlacesByPosition(nodes: seq<Node>, ky: real)
    ensures var cols := Nest(Breadths(nodes));
      forall c, i :: 0 <= c < |cols| && 0 <= i < |cols[c]| ==> InitNodes(nodes, ky)[cols[c][i]].y == i as real
  {
    var cols := Nest(Breadths(nodes));
    ColumnsPartition(Breadths(nodes));
    forall c, i | 0 <= c < |cols| && 0 <= i < |cols[c]|
      ensures InitNodes(nodes, ky)[cols[c][i]].y == i as real
    {
      var v := cols[c][i];
      assert Breadths(nodes)[v] == nodes[v].breadth;
      assert Position(nodes, v) == i;
    }
  }

  lemma ScaledWithin(s: real, ky: real, room: real)
    requires s > 0.0 && ky <= room / s
    ensures s * ky <= room
    ensures ky == room / s ==> s * ky == room
  {
    assert s * (room / s) == room;
    assert s * (room / s) - s * ky == s * (room / s - ky);
  }

  /** One column at a scale no larger than its candidate fits with its
      gaps, exactly when the scale is its candidate. */
  lemma ColumnFitsAt(nodes: seq<Node>, col: seq<nat>, ky: real, pad: real, height: real)
    requires col != [] && InRange(col, |nodes|) && SumAt(NodeValues(nodes), col) > 0.0
    requires ky <= ColumnKy(nodes, col, pad, height)
    ensures SumAt(Heights(InitNodes(nodes, ky)), col) + Gaps(|col| - 1, pad) <= height
    ensures ky == ColumnKy(nodes, col, pad, height) ==>
      SumAt(Heights(InitNodes(nodes, ky)), col) + Gaps(|col| - 1, pad) == height
  {
    var s := SumAt(NodeValues(nodes), col);
    var room := height - Gaps(|col| - 1, pad);
    SumAtScaled(NodeValues(nodes), Heights(InitNodes(nodes, ky)), ky, col);
    assert SumAt(Heights(InitNodes(nodes, ky)), col) == s * ky;
    ScaledWithin(s, ky, room);
  }

  /** The heights `ky` gives fit every column into the canvas together with
      its gaps, and the column that sets `ky` fills it exactly. */
  lemma KyFitsColumns(nodes: seq<Node>, cols: seq<seq<nat>>, pad: real, height: real)
    requires ColumnsWeighed(nodes, cols) && |cols| > 0
    ensures var init := InitNodes(nodes, Ky(nodes, cols, pad, height));
      && (forall c :: 0 <= c < |cols| ==> SumAt(Heights(init), cols[c]) + Gaps(|cols[c]| - 1, pad) <= height)
      && (exists c :: 0 <= c < |cols| && SumAt(Heights(init), cols[c]) + Gaps(|cols[c]| - 1, pad) == height)
  {
    var ky := Ky(nodes, cols, pad, height);
    KyIsLeast(nodes, cols, pad, height);
    forall c | 0 <= c < |cols|
      ensures SumAt(Heights(InitNodes(nodes, ky)), cols[c]) + Gaps(|cols[c]| - 1, pad) <= height
    {
      ColumnFitsAt(nodes, cols[c], ky, pad, height);
    }
    var c :| 0 <= c < |cols| && ky == ColumnKy(nodes, cols[c], pad, height);
    ColumnFitsAt(nodes, cols[c], ky, pad, height);
  }

  /** With non-negative values, padding that alone fits in every column
      makes `ky` non-negative. */
  lemma KyNonNegative(nodes: seq<Node>, cols: seq<seq<nat>>, pad: real, height: real)
    requires ColumnsWeighed(nodes, cols)
    requires forall c :: 0 <= c < |cols| ==> Gaps(|cols[c]| - 1, pad) <= height
    ensures Ky(nodes, cols, pad, height) >= 0.0
  {
    if |cols| > 0 {
      KyIsLeast(nodes, cols, pad, height);
      var c :| 0 <= c < |cols| && Ky(nodes, cols, pad, height) == ColumnKy(nodes, cols[c], pad, height);
      QuotientNonNegative(height - Gaps(|cols[c]| - 1, pad), SumAt(NodeValues(nodes), cols[c]));
    }
  }

  lemma QuotientNonNegative(a: real, b: real)
    requires a >= 0.0 && b > 0.0
    ensures a / b >= 0.0
  {
  }

  /** The entries of `vals` at the positions `js`, in order. */
  function Gather(vals: seq<real>, js: seq<nat>): (r: seq<real>)
    requires InRange(js, |vals|)
    ensures |r| == |js|
  {
    seq(|js|, i requires 0 <= i < |js| => vals[js[i]])
  }

  lemma {:induction false} TotalGather(vals: seq<real>, js: seq<nat>)
    requires InRange(js, |vals|)
    ensures Total(Gather(vals, js)) == SumAt(vals, js)
  {
    if js != [] {
      assert Gather(vals, js)[1..] == Gather(vals, js[1..]);
      TotalGather(vals, js[1..]);
    }
  }

  /** The nodes of `col` given the tops `ys`, in order. */
  function SetTops(nodes: seq<Node>, col: seq<nat>, ys: seq<real>): (r: seq<Node>)
    requires |ys| == |col| && InRange(col, |nodes|)
    ensures OnlyTopsDiffer(nodes, r)
  {
    if col == [] then nodes
    else
      var last := |col| - 1;
      var prev := SetTops(nodes, col[..last], ys[..last]);
      prev[col[last] := prev[col[last]].(y := ys[last])]
  }

  /** Each node of a duplicate-free `col` gets its top from `ys`; every
      other node is untouched. */
  lemma {:induction false} SetTopsAt(nodes: seq<Node>, col: seq<nat>, ys: seq<real>)
    requires |ys| == |col| && InRange(col, |nodes|) && NoDup(col)
    ensures forall i :: 0 <= i < |col| ==> SetTops(nodes, col, ys)[col[i]].y == ys[i]
    ensures forall v :: 0 <= v < |nodes| && v !in col ==> SetTops(nodes, col, ys)[v] == nodes[v]
  {
    if col != [] {
      var last := |col| - 1;
      SetTopsAt(nodes, col[..last], ys[..last]);
      forall v | 0 <= v < |nodes| && v !in col
        ensures SetTops(nodes, col, ys)[v] == nodes[v]
      {
        assert v !in col[..last];
      }
      forall i | 0 <= i < last
        ensures SetTops(nodes, col, ys)[col[i]].y == ys[i]
      {
        assert col[i] == col[..last][i];
      }
    }
  }

  /** `resolveCollisions` on one column: sort it by top, resolve the sorted
      tops, write them back; the sorted column is kept. */
  function ResolveColumn(nodes: seq<Node>, col: seq<nat>, pad: real, height: real): (r: (seq<Node>, seq<nat>))
    requires InRange(col, |nodes|)
    ensures OnlyTopsDiffer(nodes, r.0)
    ensures multiset(r.1) == multiset(col) && InRange(r.1, |nodes|)
  {
    var sorted := SortBy(Tops(nodes), col);
    var ys := Resolved(Gather(Tops(nodes), sorted), Gather(Heights(nodes), sorted), pad, height);
    (SetTops(nodes, sorted, ys), sorted)
  }

  /** `resolveCollisions` over columns k, k + 1, ... one after the other,
      each seeing the moves made in the columns before it. */
  function ResolveColumns(nodes: seq<Node>, cols: seq<seq<nat>>, pad: real, height: real, k: nat): (r: (seq<Node>, seq<seq<nat>>))
    requires k <= |cols| && AllInRange(cols, |nodes|)
    ensures OnlyTopsDiffer(nodes, r.0)
    ensures Permuted(cols, r.1) && AllInRange(r.1, |nodes|)
    decreases |cols| - k
  {
    if k == |cols| then (nodes, cols)
    else
      var q := ResolveColumn(nodes, cols[k], pad, height);
      ResolveColumns(q.0, cols[k := q.1], pad, height, k + 1)
  }

  /** A column ready to be resolved: non-empty, duplicate-free, inside the
      arena, and its heights with the gaps between them fit in the canvas. */
  predicate Fitting(nodes: seq<Node>, col: seq<nat>, pad: real, height: real) {
    && col != [] && NoDup(col) && InRange(col, |nodes|)
    && SumAt(Heights(nodes), col) + Gaps(|col| - 1, pad) <= height
  }

  /** Every column fits. */
  predicate Fits(nodes: seq<Node>, cols: seq<seq<nat>>, pad: real, height: real) {
    forall c :: 0 <= c < |cols| ==> Fitting(nodes, cols[c], pad, height)
  }

  /** No entry of `a` occurs in `b`. */
  predicate Apart(a: seq<nat>, b: seq<nat>) {
    forall i :: 0 <= i < |a| ==> a[i] !in b
  }

  /** Different columns share no node. */
  predicate Disjoint(cols: seq<seq<nat>>) {
    forall c, d :: 0 <= c < |cols| && 0 <= d < |cols| && c != d ==> Apart(cols[c], cols[d])
  }

  /** A column is placed when its nodes lie inside [0, height] in column
      order, each at least `pad` below the previous one. */
  predicate Placed(nodes: seq<Node>, col: seq<nat>, pad: real, height: real)
    requires InRange(col, |nodes|)
  {
    var ys := Gather(Tops(nodes), col);
    var hs := Gather(Heights(nodes), col);
    && Separated(ys, hs, pad)
    && forall i :: 0 <= i < |col| ==> 0.0 <= ys[i] && ys[i] + hs[i] <= height
  }

  /** The first k columns are placed. */
  predicate PlacedBelow(nodes: seq<Node>, cols: seq<seq<nat>>, pad: real, height: real, k: nat)
    requires k <= |cols| && AllInRange(cols, |nodes|)
  {
    forall c :: 0 <= c < k ==> Placed(nodes, cols[c], pad, height)
  }

  /** Every column is placed. */
  predicate AllPlaced(nodes: seq<Node>, cols: seq<seq<nat>>, pad: real, height: real)
    requires AllInRange(cols, |nodes|)
  {
    forall c :: 0 <= c < |cols| ==> Placed(nodes, cols[c], pad, height)
  }

  /** Every node's height is non-negative. */
  predicate Upright(nodes: seq<Node>) {
    forall v :: 0 <= v < |nodes| ==> nodes[v].dy >= 0.0
  }

  lemma HeightsIgnoreTops(a: seq<Node>, b: seq<Node>)
    requires OnlyTopsDiffer(a, b)
    ensures Heights(a) == Heights(b) && Breadths(a) == Breadths(b) && NodeValues(a) == NodeValues(b)
    ensures Upright(a) ==> Upright(b)
  {
  }

  lemma OnlyTopsTrans(a: seq<Node>, b: seq<Node>, c: seq<Node>)
    requires OnlyTopsDiffer(a, b) && OnlyTopsDiffer(b, c)
    ensures OnlyTopsDiffer(a, c)
  {
  }

  /** Moving nodes and reordering a column keeps it fitting. */
  lemma FittingKept(a: seq<Node>, b: seq<Node>, col: seq<nat>, col': seq<nat>, pad: real, height: real)
    requires Fitting(a, col, pad, height) && OnlyTopsDiffer(a, b) && multiset(col) == multiset(col')
    ensures Fitting(b, col', pad, height)
  {
    HeightsIgnoreTops(a, b);
    assert |col'| == |multiset(col')| == |multiset(col)| == |col|;
    NoDupPerm(col, col');
    forall i | 0 <= i < |col'|
      ensures col'[i] < |b|
    {
      assert col'[i] in multiset(col);
    }
    SumAtPerm(Heights(b), col, col');
  }

  /** Moving nodes and reordering columns keeps every column fitting. */
  lemma FitsKept(a: seq<Node>, b: seq<Node>, cols: seq<seq<nat>>, cols': seq<seq<nat>>, pad: real, height: real)
    requires Fits(a, cols, pad, height) && OnlyTopsDiffer(a, b) && Permuted(cols, cols')
    ensures Fits(b, cols', pad, height)
  {
    forall c | 0 <= c < |cols'|
      ensures Fitting(b, cols'[c], pad, height)
    {
      FittingKept(a, b, cols[c], cols'[c], pad, height);
    }
  }

  lemma ApartPerm(a: seq<nat>, a': seq<nat>, b: seq<nat>, b': seq<nat>)
    requires Apart(a, b) && multiset(a) == multiset(a') && multiset(b) == multiset(b')
    ensures Apart(a', b')
  {
    forall i | 0 <= i < |a'|
      ensures a'[i] !in b'
    {
      assert a'[i] in multiset(a);
      var k :| 0 <= k < |a| && a[k] == a'[i];
      assert a[k] !in multiset(b);
    }
  }

  /** Reordering within columns keeps them disjoint. */
  lemma DisjointKept(cols: seq<seq<nat>>, cols': seq<seq<nat>>)
    requires Disjoint(cols) && Permuted(cols, cols')
    ensures Disjoint(cols')
  {
    forall c, d | 0 <= c < |cols'| && 0 <= d < |cols'| && c != d
      ensures Apart(cols'[c], cols'[d])
    {
      ApartPerm(cols[c], cols'[c], cols[d], cols'[d]);
    }
  }

  /** Columns grouped by a key are disjoint. */
  lemma GroupedApart(keys: seq<nat>, cols: seq<seq<nat>>)
    requires GroupedBy(keys, cols)
    ensures Disjoint(cols)
  {
    forall c, d | 0 <= c < |cols| && 0 <= d < |cols| && c != d
      ensures Apart(cols[c], cols[d])
    {
      forall i | 0 <= i < |cols[c]|
        ensures cols[c][i] !in cols[d]
      {
        assert ColumnKey(keys, cols, c) != ColumnKey(keys, cols, d);
      }
    }
  }

  /** Resolving a fitting column of upright nodes places it. */
  lemma ResolveColumnPlaces(nodes: seq<Node>, col: seq<nat>, pad: real, height: real)
    requires Fitting(nodes, col, pad, height) && pad >= 0.0 && Upright(nodes)
    ensures var r := ResolveColumn(nodes, col, pad, height);
      Placed(r.0, r.1, pad, height)
  {
    var sorted := SortBy(Tops(nodes), col);
    var hs := Gather(Heights(nodes), sorted);
    var ys := Resolved(Gather(Tops(nodes), sorted), hs, pad, height);
    SortedFits(nodes, col, pad, height);
    ResolvedFits(Gather(Tops(nodes), sorted), hs, pad, height);
    SetTopsGather(nodes, sorted, ys);
  }

  /** The sorted column still fits: it names the same nodes. */
  lemma SortedFits(nodes: seq<Node>, col: seq<nat>, pad: real, height: real)
    requires Fitting(nodes, col, pad, height) && Upright(nodes)
    ensures var sorted := SortBy(Tops(nodes), col);
      && |sorted| == |col| && NoDup(sorted)
      && (forall k :: 0 <= k < |sorted| ==> Gather(Heights(nodes), sorted)[k] >= 0.0)
      && Total(Gather(Heights(nodes), sorted)) + Gaps(|sorted| - 1, pad) <= height
  {
    var sorted := SortBy(Tops(nodes), col);
    NoDupPerm(col, sorted);
    TotalGather(Heights(nodes), sorted);
    SumAtPerm(Heights(nodes), col, sorted);
    assert |sorted| == |multiset(sorted)| == |col|;
  }

  /** Writing the tops of a duplicate-free column back and reading them
      again gives the written tops and the old heights. */
  lemma SetTopsGather(nodes: seq<Node>, col: seq<nat>, ys: seq<real>)
    requires |ys| == |col| && InRange(col, |nodes|) && NoDup(col)
    ensures Gather(Tops(SetTops(nodes, col, ys)), col) == ys
    ensures Gather(Heights(SetTops(nodes, col, ys)), col) == Gather(Heights(nodes), col)
  {
    SetTopsAt(nodes, col, ys);
    HeightsIgnoreTops(nodes, SetTops(nodes, col, ys));
  }

  /** A column whose nodes all stay where they are stays placed. */
  lemma PlacedKept(a: seq<Node>, b: seq<Node>, col: seq<nat>, pad: real, height: real)
    requires InRange(col, |a|) && |a| == |b| && Placed(a, col, pad, height)
    requires forall i :: 0 <= i < |col| ==> b[col[i]] == a[col[i]]
    ensures Placed(b, col, pad, height)
  {
    assert Gather(Tops(b), col) == Gather(Tops(a), col);
    assert Gather(Heights(b), col) == Gather(Heights(a), col);
  }

  /** Resolving a duplicate-free column touches no node outside it. */
  lemma ResolveColumnTouchesOnly(nodes: seq<Node>, col: seq<nat>, pad: real, height: real)
    requires InRange(col, |nodes|) && NoDup(col)
    ensures forall v :: 0 <= v < |nodes| && v !in col ==> ResolveColumn(nodes, col, pad, height).0[v] == nodes[v]
  {
    var sorted := SortBy(Tops(nodes), col);
    var ys := Resolved(Gather(Tops(nodes), sorted), Gather(Heights(nodes), sorted), pad, height);
    NoDupPerm(col, sorted);
    SetTopsAt(nodes, sorted, ys);
    forall v | 0 <= v < |nodes| && v !in col
      ensures v !in sorted
    {
      assert v !in multiset(col);
    }
  }

  /** Resolving column k, which fits and shares no node with the placed
      columns before it, places it too and leaves those where they are. */
  lemma ResolveNextColumn(nodes: seq<Node>, cols: seq<seq<nat>>, next: seq<Node>, nextCols: seq<seq<nat>>, pad: real, height: real, k: nat)
    requires k < |cols| && AllInRange(cols, |nodes|) && pad >= 0.0 && Upright(nodes)
    requires Fitting(nodes, cols[k], pad, height)
    requires forall c :: 0 <= c < k ==> Apart(cols[c], cols[k])
    requires PlacedBelow(nodes, cols, pad, height, k)
    requires next == ResolveColumn(nodes, cols[k], pad, height).0
    requires nextCols == cols[k := ResolveColumn(nodes, cols[k], pad, height).1]
    ensures AllInRange(nextCols, |next|) && PlacedBelow(next, nextCols, pad, height, k + 1)
  {
    ResolveColumnPlaces(nodes, cols[k], pad, height);
    ResolveColumnTouchesOnly(nodes, cols[k], pad, height);
    forall c | 0 <= c < k
      ensures Placed(next, nextCols[c], pad, height)
    {
      assert Apart(cols[c], cols[k]);
      PlacedKept(nodes, next, cols[c], pad, height);
    }
  }

  /** Before column k is resolved it is still the column of the starting
      layout, so it fits, and it shares no node with the columns before it. */
  lemma NextColumnReady(start: seq<Node>, grouping: seq<seq<nat>>, nodes: seq<Node>, cols: seq<seq<nat>>, pad: real, height: real, k: nat)
    requires Fits(start, grouping, pad, height) && Disjoint(grouping) && Upright(start)
    requires OnlyTopsDiffer(start, nodes) && |cols| == |grouping| && k < |cols| && cols[k] == grouping[k]
    requires forall c :: 0 <= c < k ==> multiset(cols[c]) == multiset(grouping[c])
    ensures Upright(nodes) && Fitting(nodes, cols[k], pad, height)
    ensures forall c :: 0 <= c < k ==> Apart(cols[c], cols[k])
  {
    HeightsIgnoreTops(start, nodes);
    assert Fitting(start, grouping[k], pad, height);
    forall c | 0 <= c < k
      ensures Apart(cols[c], cols[k])
    {
      ApartPerm(grouping[c], cols[c], grouping[k], cols[k]);
    }
  }

  /** Halfway through resolving: `nodes`, `cols` come from the fitting,
      disjoint layout `start`, `grouping` of upright nodes by moving nodes;
      the first k columns are placed reorderings of the starting ones and
      the rest are the starting columns themselves. */
  predicate Resolving(start: seq<Node>, grouping: seq<seq<nat>>, nodes: seq<Node>, cols: seq<seq<nat>>, pad: real, height: real, k: nat) {
    && Fits(start, grouping, pad, height) && Disjoint(grouping) && Upright(start) && pad >= 0.0
    && OnlyTopsDiffer(start, nodes) && |cols| == |grouping| && k <= |cols| && AllInRange(cols, |nodes|)
    && (forall c :: k <= c < |cols| ==> cols[c] == grouping[c])
    && (forall c :: 0 <= c < k ==> multiset(cols[c]) == multiset(grouping[c]))
    && PlacedBelow(nodes, cols, pad, height, k)
  }

  /** Resolving the next column keeps the resolution on track. */
  lemma ResolvingStep(start: seq<Node>, grouping: seq<seq<nat>>, nodes: seq<Node>, cols: seq<seq<nat>>, pad: real, height: real, k: nat)
    requires Resolving(start, grouping, nodes, cols, pad, height, k) && k < |cols|
    ensures Resolving(start, grouping, ResolveColumn(nodes, cols[k], pad, height).0,
                      cols[k := ResolveColumn(nodes, cols[k], pad, height).1], pad, height, k + 1)
  {
    var q := ResolveColumn(nodes, cols[k], pad, height);
    NextColumnReady(start, grouping, nodes, cols, pad, height, k);
    ResolveNextColumn(nodes, cols, q.0, cols[k := q.1], pad, height, k);
    OnlyTopsTrans(start, nodes, q.0);
  }

  /** Resolving the remaining columns places every column. (The placement
      is compared with `true` so that it is checked as one fact, the one
      the recursive call provides, rather than column by column.) */
  lemma {:induction false} ResolveColumnsPlaces(start: seq<Node>, grouping: seq<seq<nat>>, nodes: seq<Node>, cols: seq<seq<nat>>,
                                                pad: real, height: real, k: nat, r: (seq<Node>, seq<seq<nat>>))
    requires Resolving(start, grouping, nodes, cols, pad, height, k)
    requires r == ResolveColumns(nodes, cols, pad, height, k)
    ensures AllInRange(r.1, |r.0|) && AllPlaced(r.0, r.1, pad, height) == true
    decreases |cols| - k
  {
    if k < |cols| {
      ResolvingStep(start, grouping, nodes, cols, pad, height, k);
      ResolveColumnsPlaces(start, grouping, ResolveColumn(nodes, cols[k], pad, height).0,
                           cols[k := ResolveColumn(nodes, cols[k], pad, height).1], pad, height, k + 1, r);
    }
  }

  /** Resolving every column of a fitting, disjoint layout of upright nodes
      places every column. */
  lemma ResolveAllPlaces(nodes: seq<Node>, cols: seq<seq<nat>>, pad: real, height: real)
    requires Fits(nodes, cols, pad, height) && Disjoint(cols) && Upright(nodes) && pad >= 0.0
    requires AllInRange(cols, |nodes|)
    ensures AllPlaced(ResolveColumns(nodes, cols, pad, height, 0).0, ResolveColumns(nodes, cols, pad, height, 0).1, pad, height)
  {
    ResolveColumnsPlaces(nodes, cols, nodes, cols, pad, height, 0, ResolveColumns(nodes, cols, pad, height, 0));
  }

  lemma {:induction false} RightToLeftInRange(cols: seq<seq<nat>>, n: nat, c: nat)
    requires c <= |cols| && AllInRange(cols, n)
    ensures InRange(RightToLeft(cols, c), n)
    decreases |cols| - c
  {
    if c < |cols| {
      RightToLeftInRange(cols, n, c + 1);
    }
  }

  lemma {:induction false} LeftToRightInRange(cols: seq<seq<nat>>, n: nat, c: nat)
    requires c <= |cols| && AllInRange(cols, n)
    ensures InRange(LeftToRight(cols, c), n)
  {
    if c > 0 {
      LeftToRightInRange(cols, n, c - 1);
    }
  }

  /** The state of a left-to-right pass after its first c columns. */
  ghost predicate SweptLeft(ns: seq<Node>, start: seq<Node>, links: seq<Link>, cols: seq<seq<nat>>, c: nat, alpha: real) {
    && c <= |cols| && Weighted(start, links) && AllInRange(cols, |start|)
    && InRange(LeftToRight(cols, c), |start|)
    && ns == RelaxAll(start, links, LeftToRight(cols, c), alpha, false)
  }

  /** Half a round: one relaxation pass over the columns, then collision
      resolution over all columns. */
  function HalfRound(nodes: seq<Node>, links: seq<Link>, cols: seq<seq<nat>>, pad: real, height: real, alpha: real, toTargets: bool): (r: (seq<Node>, seq<seq<nat>>))
    requires Weighted(nodes, links) && AllInRange(cols, |nodes|)
    ensures OnlyTopsDiffer(nodes, r.0) && Permuted(cols, r.1) && AllInRange(r.1, |nodes|)
  {
    RightToLeftInRange(cols, |nodes|, 0);
    LeftToRightInRange(cols, |nodes|, |cols|);
    var order := if toTargets then RightToLeft(cols, 0) else LeftToRight(cols, |cols|);
    var moved := RelaxAll(nodes, links, order, alpha, toTargets);
    ResolveColumns(moved, cols, pad, height, 0)
  }

  /** One round: relax right to left and resolve, then relax left to right
      and resolve, both with the same `alpha`. */
  function Round(nodes: seq<Node>, links: seq<Link>, cols: seq<seq<nat>>, pad: real, height: real, alpha: real): (r: (seq<Node>, seq<seq<nat>>))
    requires Weighted(nodes, links) && AllInRange(cols, |nodes|)
    ensures OnlyTopsDiffer(nodes, r.0) && Permuted(cols, r.1) && AllInRange(r.1, |nodes|)
  {
    var p := HalfRound(nodes, links, cols, pad, height, alpha, true);
    WeightedIgnoresTops(nodes, p.0, links);
    HalfRound(p.0, links, p.1, pad, height, alpha, false)
  }

  /** `alpha` in round k (from 1): `alpha *= .99` runs before each round's
      first pass, so round k uses 0.99^k. */
  function Damping(k: nat): real {
    if k == 0 then 1.0 else Damping(k - 1) * 0.99
  }

  /** The loop's `alpha` after k rounds. */
  predicate DampedBy(alpha: real, k: nat) {
    alpha == Damping(k)
  }

  /** `alpha *= .99` takes the factor of round k to that of round k + 1. */
  lemma DampingStep(k: nat, alpha: real, alpha': real)
    requires DampedBy(alpha, k) && alpha' == alpha * 0.99
    ensures DampedBy(alpha', k + 1) && alpha' == Damping(k + 1)
  {
  }

  /** The damping factor stays in (0, 1] and shrinks every round. */
  lemma {:induction false} DampingShrinks(k: nat)
    ensures 0.0 < Damping(k) <= 1.0
    ensures Damping(k + 1) < Damping(k)
  {
    if k > 0 {
      DampingShrinks(k - 1);
    }
  }

  /** Rounds k + 1 to n of the loop of `computeNodeDepths`; round j uses
      `Damping(j)`. */
  function Rounds(nodes: seq<Node>, links: seq<Link>, cols: seq<seq<nat>>, pad: real, height: real, k: nat, n: nat): (r: (seq<Node>, seq<seq<nat>>))
    requires Weighted(nodes, links) && AllInRange(cols, |nodes|) && k <= n
    ensures OnlyTopsDiffer(nodes, r.0) && Permuted(cols, r.1) && AllInRange(r.1, |nodes|)
    decreases n - k
  {
    if k == n then (nodes, cols)
    else
      var p := Round(nodes, links, cols, pad, height, Damping(k + 1));
      WeightedIgnoresTops(nodes, p.0, links);
      Rounds(p.0, links, p.1, pad, height, k + 1, n)
  }

  /** The state a resolution leaves: columns inside the arena, fitting,
      disjoint and placed, over upright nodes. */
  predicate Settled(nodes: seq<Node>, cols: seq<seq<nat>>, pad: real, height: real) {
    && AllInRange(cols, |nodes|) && Fits(nodes, cols, pad, height) && Disjoint(cols) && Upright(nodes)
    && AllPlaced(nodes, cols, pad, height)
  }

  /** Half a round on a fitting, disjoint layout of upright nodes leaves it
      settled. */
  lemma HalfRoundPlaces(nodes: seq<Node>, links: seq<Link>, cols: seq<seq<nat>>, pad: real, height: real, alpha: real, toTargets: bool)
    requires Weighted(nodes, links) && AllInRange(cols, |nodes|) && pad >= 0.0
    requires Fits(nodes, cols, pad, height) && Disjoint(cols) && Upright(nodes)
    ensures var r := HalfRound(nodes, links, cols, pad, height, alpha, toTargets);
      Settled(r.0, r.1, pad, height)
  {
    RightToLeftInRange(cols, |nodes|, 0);
    LeftToRightInRange(cols, |nodes|, |cols|);
    var order := if toTargets then RightToLeft(cols, 0) else LeftToRight(cols, |cols|);
    var moved := RelaxAll(nodes, links, order, alpha, toTargets);
    HeightsIgnoreTops(nodes, moved);
    FitsKept(nodes, moved, cols, cols, pad, height);
    ResolveAllPlaces(moved, cols, pad, height);
    var r := ResolveColumns(moved, cols, pad, height, 0);
    HeightsIgnoreTops(moved, r.0);
    FitsKept(moved, r.0, cols, r.1, pad, height);
    DisjointKept(cols, r.1);
  }

  /** A round leaves a settled layout settled. */
  lemma RoundPlaces(nodes: seq<Node>, links: seq<Link>, cols: seq<seq<nat>>, pad: real, height: real, alpha: real)
    requires Weighted(nodes, links) && pad >= 0.0 && Settled(nodes, cols, pad, height)
    ensures var r := Round(nodes, links, cols, pad, height, alpha);
      Settled(r.0, r.1, pad, height)
  {
    HalfRoundPlaces(nodes, links, cols, pad, height, alpha, true);
    var p := HalfRound(nodes, links, cols, pad, height, alpha, true);
    WeightedIgnoresTops(nodes, p.0, links);
    HalfRoundPlaces(p.0, links, p.1, pad, height, alpha, false);
  }

  /** Starting settled, the layout is settled after every round. */
  lemma {:induction false} RoundsPlace(nodes: seq<Node>, links: seq<Link>, cols: seq<seq<nat>>, pad: real, height: real, k: nat, n: nat)
    requires Weighted(nodes, links) && k <= n && pad >= 0.0 && Settled(nodes, cols, pad, height)
    ensures var r := Rounds(nodes, links, cols, pad, height, k, n);
      Settled(r.0, r.1, pad, height)
    decreases n - k
  {
    if k < n {
      RoundPlaces(nodes, links, cols, pad, height, Damping(k + 1));
      var p := Round(nodes, links, cols, pad, height, Damping(k + 1));
      WeightedIgnoresTops(nodes, p.0, links);
      RoundsPlace(p.0, links, p.1, pad, height, k + 1, n);
    }
  }

  /** Initialisation and later moves keep the arenas fit for relaxation. */
  lemma InitWeighted(nodes: seq<Node>, links: seq<Link>, ky: real, later: seq<Node>)
    requires Weighted(nodes, links) && OnlyTopsDiffer(InitNodes(nodes, ky), later)
    ensures Weighted(later, InitLinks(links, ky))
  {
    assert Values(InitLinks(links, ky)) == Values(links);
    assert forall v :: 0 <= v < |later| ==>
      later[v].sourceLinks == nodes[v].sourceLinks && later[v].targetLinks == nodes[v].targetLinks;
  }

  /** `computeNodeDepths`: the final nodes, links and column order. */
  function Depths(nodes: seq<Node>, links: seq<Link>, pad: real, height: real, iterations: nat): (r: (seq<Node>, seq<Link>, seq<seq<nat>>))
    requires Weighted(nodes, links) && ColumnsWeighed(nodes, Nest(Breadths(nodes)))
    ensures OnlyTopsDiffer(InitNodes(nodes, Ky(nodes, Nest(Breadths(nodes)), pad, height)), r.0)
    ensures Permuted(Nest(Breadths(nodes)), r.2) && AllInRange(r.2, |nodes|)
    ensures r.1 == InitLinks(links, Ky(nodes, Nest(Breadths(nodes)), pad, height))
  {
    var cols := Nest(Breadths(nodes));
    var ky := Ky(nodes, cols, pad, height);
    var init := InitNodes(nodes, ky);
    var p := ResolveColumns(init, cols, pad, height, 0);
    InitWeighted(nodes, links, ky, p.0);
    var q := Rounds(p.0, InitLinks(links, ky), p.1, pad, height, 0, iterations);
    OnlyTopsTrans(init, p.0, q.0);
    (q.0, InitLinks(links, ky), q.1)
  }

  /** The stages of `computeNodeDepths` in order, each called within its
      precondition. */
  lemma DepthsStages(nodes: seq<Node>, links: seq<Link>, pad: real, height: real, iterations: nat)
    requires Weighted(nodes, links) && ColumnsWeighed(nodes, Nest(Breadths(nodes)))
    ensures var cols := Nest(Breadths(nodes));
      var ky := Ky(nodes, cols, pad, height);
      var init := InitNodes(nodes, ky);
      && AllInRange(cols, |init|) && NoDupColumns(cols)
      && var p := ResolveColumns(init, cols, pad, height, 0);
         && Weighted(p.0, InitLinks(links, ky)) && AllInRange(p.1, |p.0|) && NoDupColumns(p.1)
         && var q := Rounds(p.0, InitLinks(links, ky), p.1, pad, height, 0, iterations);
            Depths(nodes, links, pad, height, iterations) == (q.0, InitLinks(links, ky), q.1)
  {
    var cols := Nest(Breadths(nodes));
    var ky := Ky(nodes, cols, pad, height);
    var init := InitNodes(nodes, ky);
    ColumnsPartition(Breadths(nodes));
    assert NoDupColumns(cols);
    var p := ResolveColumns(init, cols, pad, height, 0);
    InitWeighted(nodes, links, ky, p.0);
    NoDupColumnsKept(cols, p.1);
  }

  /** With non-negative values and padding, and every column's padding
      fitting in the canvas, `ky` is non-negative, so initial thicknesses
      are too. */
  lemma InitUpright(nodes: seq<Node>, pad: real, height: real)
    requires ColumnsWeighed(nodes, Nest(Breadths(nodes)))
    requires forall v :: 0 <= v < |nodes| ==> nodes[v].value >= 0.0
    requires var cols := Nest(Breadths(nodes));
      forall c :: 0 <= c < |cols| ==> Gaps(|cols[c]| - 1, pad) <= height
    ensures Upright(InitNodes(nodes, Ky(nodes, Nest(Breadths(nodes)), pad, height)))
  {
    var ky := Ky(nodes, Nest(Breadths(nodes)), pad, height);
    KyNonNegative(nodes, Nest(Breadths(nodes)), pad, height);
    forall v | 0 <= v < |nodes|
      ensures InitNodes(nodes, ky)[v].dy >= 0.0
    {
      NonNegativeProduct(nodes[v].value, ky);
    }
  }

  /** The initial layout fits every column into the canvas. */
  lemma InitFits(nodes: seq<Node>, pad: real, height: real)
    requires ColumnsWeighed(nodes, Nest(Breadths(nodes)))
    ensures var cols := Nest(Breadths(nodes));
      Fits(InitNodes(nodes, Ky(nodes, cols, pad, height)), cols, pad, height)
  {
    var cols := Nest(Breadths(nodes));
    var init := InitNodes(nodes, Ky(nodes, cols, pad, height));
    ColumnsPartition(Breadths(nodes));
    if |cols| > 0 {
      KyFitsColumns(nodes, cols, pad, height);
    }
    forall c | 0 <= c < |cols|
      ensures Fitting(init, cols[c], pad, height)
    {
      assert SumAt(Heights(init), cols[c]) + Gaps(|cols[c]| - 1, pad) <= height;
    }
  }

  /** After `computeNodeDepths`, with non-negative values and padding and
      every column's padding fitting in the canvas: the columns still group
      every node by column; every column lies inside [0, height], sorted by
      top, its nodes at least `pad` apart; the nodes are the initialised
      ones with only their tops moved (`InitThenMoved` spells that out) and
      link thicknesses are their values times `ky`. */
  lemma DepthsPlaced(nodes: seq<Node>, links: seq<Link>, pad: real, height: real, iterations: nat)
    requires Weighted(nodes, links) && ColumnsWeighed(nodes, Nest(Breadths(nodes)))
    requires pad >= 0.0 && forall v :: 0 <= v < |nodes| ==> nodes[v].value >= 0.0
    requires var cols := Nest(Breadths(nodes));
      forall c :: 0 <= c < |cols| ==> Gaps(|cols[c]| - 1, pad) <= height
    ensures var ky := Ky(nodes, Nest(Breadths(nodes)), pad, height);
      var r := Depths(nodes, links, pad, height, iterations);
      && GroupedBy(Breadths(nodes), r.2) && Covers(r.2, |nodes|)
      && AllInRange(r.2, |r.0|) && AllPlaced(r.0, r.2, pad, height)
      && OnlyTopsDiffer(InitNodes(nodes, ky), r.0)
      && r.1 == InitLinks(links, ky)
  {
    DepthsGrouped(nodes, links, pad, height, iterations);
    DepthsSettled(nodes, links, pad, height, iterations);
  }

  /** Nodes moved after initialisation differ from the original nodes only
      in their tops and thicknesses, the thicknesses being value times `ky`. */
  lemma InitThenMoved(nodes: seq<Node>, ky: real, later: seq<Node>)
    requires OnlyTopsDiffer(InitNodes(nodes, ky), later)
    ensures |later| == |nodes|
    ensures forall v {:trigger later[v]} :: 0 <= v < |nodes| ==> later[v] == nodes[v].(y := later[v].y, dy := nodes[v].value * ky)
  {
    var init := InitNodes(nodes, ky);
    forall v | 0 <= v < |nodes|
      ensures later[v] == nodes[v].(y := later[v].y, dy := nodes[v].value * ky)
    {
      MovedAfterInit(nodes[v], init[v], later[v], nodes[v].value * ky);
    }
  }

  lemma MovedAfterInit(node: Node, init: Node, moved: Node, dy: real)
    requires init == node.(y := init.y, dy := dy) && moved == init.(y := moved.y)
    ensures moved == node.(y := moved.y, dy := dy)
  {
  }

  /** The final columns group every node by column. */
  lemma DepthsGrouped(nodes: seq<Node>, links: seq<Link>, pad: real, height: real, iterations: nat)
    requires Weighted(nodes, links) && ColumnsWeighed(nodes, Nest(Breadths(nodes)))
    ensures var r := Depths(nodes, links, pad, height, iterations);
      GroupedBy(Breadths(nodes), r.2) && Covers(r.2, |nodes|)
  {
    ColumnsPartition(Breadths(nodes));
    PermutedGrouped(Breadths(nodes), Nest(Breadths(nodes)), Depths(nodes, links, pad, height, iterations).2);
  }

  /** The final layout is settled. */
  lemma DepthsSettled(nodes: seq<Node>, links: seq<Link>, pad: real, height: real, iterations: nat)
    requires Weighted(nodes, links) && ColumnsWeighed(nodes, Nest(Breadths(nodes)))
    requires pad >= 0.0 && forall v :: 0 <= v < |nodes| ==> nodes[v].value >= 0.0
    requires var cols := Nest(Breadths(nodes));
      forall c :: 0 <= c < |cols| ==> Gaps(|cols[c]| - 1, pad) <= height
    ensures var r := Depths(nodes, links, pad, height, iterations);
      Settled(r.0, r.2, pad, height)
  {
    var cols := Nest(Breadths(nodes));
    var ky := Ky(nodes, cols, pad, height);
    var init := InitNodes(nodes, ky);
    InitUpright(nodes, pad, height);
    InitFits(nodes, pad, height);
    ColumnsPartition(Breadths(nodes));
    GroupedApart(Breadths(nodes), cols);
    ResolveAllPlaces(init, cols, pad, height);
    var p := ResolveColumns(init, cols, pad, height, 0);
    HeightsIgnoreTops(init, p.0);
    FitsKept(init, p.0, cols, p.1, pad, height);
    DisjointKept(cols, p.1);
    InitWeighted(nodes, links, ky, p.0);
    RoundsPlace(p.0, InitLinks(links, ky), p.1, pad, height, 0, iterations);
  }

  lemma NonNegativeProduct(a: real, b: real)
    requires a >= 0.0 && b >= 0.0
    ensures a * b >= 0.0
  {
  }

  /** The i-th node of a column starts at top i with height value times
      `ky`. */
  lemma InitColumn(nodes: seq<Node>, ky: real, c: nat)
    requires c < |Nest(Breadths(nodes))|
    ensures var col := Nest(Breadths(nodes))[c];
      && InRange(col, |nodes|) && NoDup(col)
      && forall i :: 0 <= i < |col| ==>
        InitNodes(nodes, ky)[col[i]] == nodes[col[i]].(y := i as real, dy := nodes[col[i]].value * ky)
  {
    ColumnsPartition(Breadths(nodes));
    InitPlacesByPosition(nodes, ky);
  }

  /** The node loop of `initializeNodeDepth` after its first c columns:
      the nodes of those columns (the set `done`) are placed, the rest
      untouched. */
  ghost predicate Placing(ns: seq<Node>, start: seq<Node>, ky: real, cols: seq<seq<nat>>, c: nat, done: set<nat>) {
    && cols == Nest(Breadths(start)) && c <= |cols| && |ns| == |start|
    && (forall v :: 0 <= v < |ns| ==> ns[v] == if v in done then InitNodes(start, ky)[v] else start[v])
    && (forall c', i :: 0 <= c' < c && 0 <= i < |cols[c']| ==> cols[c'][i] in done)
  }

  lemma PlacingStep(ns: seq<Node>, ns': seq<Node>, start: seq<Node>, ky: real, cols: seq<seq<nat>>, c: nat,
                    done: set<nat>, done': set<nat>, next: nat)
    requires Placing(ns, start, ky, cols, c, done) && c < |cols| && next == c + 1
    requires |ns'| == |start| && done <= done'
    requires forall v :: 0 <= v < |ns'| ==> ns'[v] == if v in done' then InitNodes(start, ky)[v] else start[v]
    requires forall i :: 0 <= i < |cols[c]| ==> cols[c][i] in done'
    ensures Placing(ns', start, ky, cols, next, done')
  {
  }

  lemma PlacingDone(ns: seq<Node>, start: seq<Node>, ky: real, cols: seq<seq<nat>>, done: set<nat>)
    requires Placing(ns, start, ky, cols, |cols|, done)
    ensures ns == InitNodes(start, ky)
  {
    ColumnsPartition(Breadths(start));
    forall v | 0 <= v < |ns|
      ensures ns[v] == InitNodes(start, ky)[v]
    {
      assert InSomeColumn(cols, v);
    }
  }

  /** `nodes` is `start` with the nodes of the column `col` at the tops
      `zs`, in column order. */
  predicate Columned(start: seq<Node>, nodes: seq<Node>, col: seq<nat>, zs: seq<real>) {
    && |zs| == |col| && InRange(col, |start|) && OnlyTopsDiffer(start, nodes)
    && (forall k :: 0 <= k < |col| ==> nodes[col[k]].y == zs[k])
    && (forall v :: 0 <= v < |nodes| && v !in col ==> nodes[v] == start[v])
  }

  /** Such nodes are what `SetTops` gives. */
  lemma ColumnedSetTops(start: seq<Node>, nodes: seq<Node>, col: seq<nat>, zs: seq<real>)
    requires Columned(start, nodes, col, zs) && NoDup(col)
    ensures nodes == SetTops(start, col, zs)
  {
    SetTopsAt(start, col, zs);
    forall v | 0 <= v < |nodes|
      ensures nodes[v] == SetTops(start, col, zs)[v]
    {
      if v in col {
        var k :| 0 <= k < |col| && col[k] == v;
      }
    }
  }

  /** Moving the i-th node of the column to top z moves the i-th top. */
  lemma ColumnedSet(start: seq<Node>, ns: seq<Node>, ns': seq<Node>, col: seq<nat>, zs: seq<real>, i: nat, z: real)
    requires Columned(start, ns, col, zs) && NoDup(col) && i < |col|
    requires ns' == ns[col[i] := ns[col[i]].(y := z)]
    ensures Columned(start, ns', col, zs[i := z])
  {
    forall v | 0 <= v < |ns'| && v !in col
      ensures ns'[v] == start[v]
    {
      assert v != col[i];
    }
  }

  /** The downward pass's state after i nodes of the sorted column: those
      are at their pushed-down tops `ds`, the rest at their old tops `ys`,
      and `y0` is the bottom of the last pushed one plus the padding. */
  ghost predicate PushingDown(start: seq<Node>, ns: seq<Node>, sorted: seq<nat>, ys: seq<real>, hs: seq<real>,
                              ds: seq<real>, pad: real, i: nat, y0: real) {
    && InRange(sorted, |start|) && NoDup(sorted) && i <= |sorted|
    && ys == Gather(Tops(start), sorted) && hs == Gather(Heights(start), sorted) && ds == Down(ys, hs, pad)
    && Columned(start, ns, sorted, ds[..i] + ys[i..])
    && y0 == (if i == 0 then 0.0 else ds[i - 1] + hs[i - 1] + pad)
  }

  lemma PushingDownStart(start: seq<Node>, sorted: seq<nat>, pad: real)
    requires InRange(sorted, |start|) && NoDup(sorted)
    ensures var ys, hs := Gather(Tops(start), sorted), Gather(Heights(start), sorted);
      PushingDown(start, start, sorted, ys, hs, Down(ys, hs, pad), pad, 0, 0.0)
  {
    var ys, hs := Gather(Tops(start), sorted), Gather(Heights(start), sorted);
    assert Down(ys, hs, pad)[..0] + ys[0..] == ys;
  }

  /** What the i-th step reads, and the top it writes. */
  lemma PushingDownAt(start: seq<Node>, ns: seq<Node>, sorted: seq<nat>, ys: seq<real>, hs: seq<real>,
                      ds: seq<real>, pad: real, i: nat, y0: real)
    requires PushingDown(start, ns, sorted, ys, hs, ds, pad, i, y0) && i < |sorted|
    ensures sorted[i] < |ns| && ns[sorted[i]].y == ys[i] && ns[sorted[i]].dy == hs[i]
    ensures ds[i] == if y0 - ys[i] > 0.0 then ys[i] + (y0 - ys[i]) else ys[i]
  {
    assert (ds[..i] + ys[i..])[i] == ys[i];
    DownStep(ys, hs, pad, i, y0);
  }

  /** The pushed-down top of node i from the accumulator `y0`. */
  lemma DownStep(ys: seq<real>, hs: seq<real>, pad: real, i: nat, y0: real)
    requires |hs| == |ys| && i < |ys|
    requires y0 == if i == 0 then 0.0 else Down(ys, hs, pad)[i - 1] + hs[i - 1] + pad
    ensures Down(ys, hs, pad)[i] == if y0 - ys[i] > 0.0 then ys[i] + (y0 - ys[i]) else ys[i]
  {
  }

  lemma PushingDownStep(start: seq<Node>, ns: seq<Node>, ns': seq<Node>, sorted: seq<nat>, ys: seq<real>, hs: seq<real>,
                        ds: seq<real>, pad: real, i: nat, y0: real, next: nat, y0': real)
    requires PushingDown(start, ns, sorted, ys, hs, ds, pad, i, y0) && i < |sorted|
    requires ns' == ns[sorted[i] := ns[sorted[i]].(y := ds[i])]
    requires next == i + 1 && y0' == ns'[sorted[i]].y + ns'[sorted[i]].dy + pad
    ensures PushingDown(start, ns', sorted, ys, hs, ds, pad, next, y0')
  {
    ColumnedSet(start, ns, ns', sorted, ds[..i] + ys[i..], i, ds[i]);
    SpliceForward(ds, ys, i);
  }

  /** The column after the downward pass, and the accumulator it leaves. */
  ghost predicate PushedDown(start: seq<Node>, ns: seq<Node>, sorted: seq<nat>, pad: real, y0: real) {
    && InRange(sorted, |start|)
    && var ys, hs := Gather(Tops(start), sorted), Gather(Heights(start), sorted);
       && Columned(start, ns, sorted, Down(ys, hs, pad))
       && (|sorted| > 0 ==> y0 == Down(ys, hs, pad)[|sorted| - 1] + hs[|sorted| - 1] + pad)
  }

  lemma PushingDownDone(start: seq<Node>, ns: seq<Node>, sorted: seq<nat>, ys: seq<real>, hs: seq<real>,
                        ds: seq<real>, pad: real, y0: real)
    requires PushingDown(start, ns, sorted, ys, hs, ds, pad, |sorted|, y0)
    ensures PushedDown(start, ns, sorted, pad, y0)
  {
    assert ds[..|sorted|] + ys[|sorted|..] == ds;
  }

  /** The upward pass's state down to position i of the sorted column:
      the nodes from i on are at their final tops `us`, the earlier ones
      still at their pushed-down tops `ds`, and `top` is node i's top. */
  ghost predicate PushingUp(start: seq<Node>, ns: seq<Node>, sorted: seq<nat>, hs: seq<real>, ds: seq<real>,
                            us: seq<real>, pad: real, height: real, i: nat, top: real) {
    && InRange(sorted, |start|) && NoDup(sorted) && i < |sorted| && |ds| == |sorted|
    && hs == Gather(Heights(start), sorted) && us == Up(ds, hs, pad, height)
    && Columned(start, ns, sorted, ds[..i] + us[i..])
    && top == us[i]
  }

  lemma PushingUpStart(start: seq<Node>, ns: seq<Node>, ns': seq<Node>, sorted: seq<nat>, hs: seq<real>, ds: seq<real>,
                       pad: real, height: real)
    requires Columned(start, ns, sorted, ds) && NoDup(sorted) && |sorted| > 0
    requires hs == Gather(Heights(start), sorted)
    requires ns' == ns[sorted[|sorted| - 1] := ns[sorted[|sorted| - 1]].(y := ns[sorted[|sorted| - 1]].y - Overflow(ds, hs, pad, height))]
    ensures PushingUp(start, ns', sorted, hs, ds, Up(ds, hs, pad, height), pad, height, |sorted| - 1, ns'[sorted[|sorted| - 1]].y)
  {
    var n := |sorted|;
    var us := Up(ds, hs, pad, height);
    assert us[n - 1] == UpTop(ds, hs, pad, height, n - 1);
    ColumnedSet(start, ns, ns', sorted, ds, n - 1, us[n - 1]);
    assert ds[n - 1 := us[n - 1]] == ds[..n - 1] + us[n - 1..];
  }

  /** What the step at position i - 1 reads, and the top it writes. */
  lemma PushingUpAt(start: seq<Node>, ns: seq<Node>, sorted: seq<nat>, hs: seq<real>, ds: seq<real>,
                    us: seq<real>, pad: real, height: real, i: nat, top: real)
    requires PushingUp(start, ns, sorted, hs, ds, us, pad, height, i, top) && 0 < i
    ensures sorted[i - 1] < |ns| && ns[sorted[i - 1]].y == ds[i - 1] && ns[sorted[i - 1]].dy == hs[i - 1]
    ensures var d := ds[i - 1] + hs[i - 1] + pad - top;
      us[i - 1] == if d > 0.0 then ds[i - 1] - d else ds[i - 1]
  {
    assert (ds[..i] + us[i..])[i - 1] == ds[i - 1];
    assert us[i - 1] == UpTop(ds, hs, pad, height, i - 1);
  }

  lemma PushingUpStep(start: seq<Node>, ns: seq<Node>, ns': seq<Node>, sorted: seq<nat>, hs: seq<real>, ds: seq<real>,
                      us: seq<real>, pad: real, height: real, i: nat, top: real)
    requires PushingUp(start, ns, sorted, hs, ds, us, pad, height, i, top) && 0 < i
    requires ns' == ns[sorted[i - 1] := ns[sorted[i - 1]].(y := us[i - 1])]
    ensures PushingUp(start, ns', sorted, hs, ds, us, pad, height, i - 1, ns'[sorted[i - 1]].y)
  {
    ColumnedSet(start, ns, ns', sorted, ds[..i] + us[i..], i - 1, us[i - 1]);
    SpliceBackward(ds, us, i - 1);
  }

  lemma PushingUpDone(start: seq<Node>, ns: seq<Node>, sorted: seq<nat>, hs: seq<real>, ds: seq<real>,
                      us: seq<real>, pad: real, height: real, top: real)
    requires PushingUp(start, ns, sorted, hs, ds, us, pad, height, 0, top)
    ensures Columned(start, ns, sorted, us)
  {
    assert ds[..0] + us[0..] == us;
  }

  /** Splicing one more element of `a` in front of the suffix of `b`. */
  lemma SpliceForward(a: seq<real>, b: seq<real>, i: nat)
    requires |a| == |b| && i < |a|
    ensures (a[..i] + b[i..])[i := a[i]] == a[..i + 1] + b[i + 1..]
  {
  }

  /** Splicing one more element of `b` behind the prefix of `a`. */
  lemma SpliceBackward(a: seq<real>, b: seq<real>, j: nat)
    requires |a| == |b| && j < |a|
    ensures (a[..j + 1] + b[j + 1..])[j := b[j]] == a[..j] + b[j..]
  {
  }

  /** Every column is free of duplicates. */
  predicate NoDupColumns(cols: seq<seq<nat>>) {
    forall c :: 0 <= c < |cols| ==> NoDup(cols[c])
  }

  /** Reordering columns keeps them free of duplicates. */
  lemma NoDupColumnsKept(cols: seq<seq<nat>>, cols': seq<seq<nat>>)
    requires NoDupColumns(cols) && Permuted(cols, cols')
    ensures NoDupColumns(cols')
  {
    forall c | 0 <= c < |cols'|
      ensures NoDup(cols'[c])
    {
      NoDupPerm(cols[c], cols'[c]);
    }
  }

  /** The loop state of `computeNodeDepths` after k of n rounds: the
      remaining rounds from this state reach `goal`. */
  ghost predicate Pending(nodes: seq<Node>, links: seq<Link>, cols: seq<seq<nat>>, pad: real, height: real, k: nat, n: nat, goal: (seq<Node>, seq<seq<nat>>)) {
    && Weighted(nodes, links) && AllInRange(cols, |nodes|) && NoDupColumns(cols) && k <= n
    && Rounds(nodes, links, cols, pad, height, k, n) == goal
  }

  lemma PendingStart(nodes: seq<Node>, links: seq<Link>, cols: seq<seq<nat>>, pad: real, height: real, n: nat)
    requires Weighted(nodes, links) && AllInRange(cols, |nodes|) && NoDupColumns(cols)
    ensures Pending(nodes, links, cols, pad, height, 0, n, Rounds(nodes, links, cols, pad, height, 0, n))
  {
  }

  /** Running round k + 1 keeps the loop state pending on the same goal. */
  lemma PendingStep(nodes: seq<Node>, links: seq<Link>, cols: seq<seq<nat>>, pad: real, height: real, k: nat, n: nat, goal: (seq<Node>, seq<seq<nat>>))
    requires Pending(nodes, links, cols, pad, height, k, n, goal) && k < n
    ensures var p := Round(nodes, links, cols, pad, height, Damping(k + 1));
      Pending(p.0, links, p.1, pad, height, k + 1, n, goal)
  {
    var p := Round(nodes, links, cols, pad, height, Damping(k + 1));
    WeightedIgnoresTops(nodes, p.0, links);
    NoDupColumnsKept(cols, p.1);
  }

  lemma PendingDone(nodes: seq<Node>, links: seq<Link>, cols: seq<seq<nat>>, pad: real, height: real, n: nat, goal: (seq<Node>, seq<seq<nat>>))
    requires Pending(nodes, links, cols, pad, height, n, n, goal)
    ensures (nodes, cols) == goal
  {
  }

  /** The loop state of `resolveCollisions` before column c: the columns
      from c on are still those it was given, and resolving them from this
      state reaches `goal`. */
  ghost predicate Sweeping(nodes: seq<Node>, cols: seq<seq<nat>>, given: seq<seq<nat>>, pad: real, height: real, c: nat, goal: (seq<Node>, seq<seq<nat>>)) {
    && c <= |cols| == |given| && AllInRange(cols, |nodes|) && NoDupColumns(given)
    && (forall c' :: c <= c' < |cols| ==> cols[c'] == given[c'])
    && ResolveColumns(nodes, cols, pad, height, c) == goal
  }

  /** Resolving column c keeps the loop state resolving towards the same
      goal. */
  lemma SweepStep(nodes: seq<Node>, cols: seq<seq<nat>>, given: seq<seq<nat>>, pad: real, height: real, c: nat, goal: (seq<Node>, seq<seq<nat>>))
    requires Sweeping(nodes, cols, given, pad, height, c, goal) && c < |cols|
    ensures NoDup(cols[c])
    ensures var q := ResolveColumn(nodes, cols[c], pad, height);
      Sweeping(q.0, cols[c := q.1], given, pad, height, c + 1, goal)
  {
  }
}
