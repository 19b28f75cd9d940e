/** What `layout` computes: the five stages run one after the other on the
    same arrays. The first three (linking, values, columns) give every
    node its lists, its value and its column; the fourth its top and
    height and every link its thickness; the fifth sorts the lists and
    stacks the links. */
module Pipeline {
  import opened Seqs
  import opened Graph
  import opened Linker
  import opened Layering
  import opened Relaxation
  import opened Columns
  import opened Collisions
  import opened Depth
  import opened Stacking

  /** Two node arrays whose nodes hold the same adjacency lists. */
  predicate SameLists(a: seq<Node>, b: seq<Node>) {
    |a| == |b|
    && forall v :: 0 <= v < |a| ==> b[v].sourceLinks == a[v].sourceLinks && b[v].targetLinks == a[v].targetLinks
  }

  /** The nodes after `computeNodeLinks`, `computeNodeValues` and
      `computeNodeBreadths` (which stopped after `steps` steps). */
  function Laid(nodes: seq<Node>, links: seq<Link>, width: real, nodeWidth: real, steps: nat): (r: seq<Node>)
    requires ValidLinks(|nodes|, links)
    ensures |r| == |nodes|
  {
    var linked := LinkNodes(nodes, links);
    LinkedOwned(linked, links);
    BreadthNodes(ValueNodes(linked, links), links, width, nodeWidth, steps)
  }

  /** The linker's lists are in range, and setting values keeps them. */
  lemma LinkedStages(nodes: seq<Node>, links: seq<Link>)
    requires ValidLinks(|nodes|, links)
    ensures var linked := LinkNodes(nodes, links);
      && Linked(linked, links) && ListsInRange(linked, |links|)
      && Linked(ValueNodes(linked, links), links)
  {
    var linked := LinkNodes(nodes, links);
    assert Linked(linked, links);
    LinkedOwned(linked, links);
  }

  /** The three stages one after the other give `Laid`. */
  lemma LaidInStages(nodes: seq<Node>, links: seq<Link>, width: real, nodeWidth: real, steps: nat,
                     linked: seq<Node>, valued: seq<Node>, laid: seq<Node>)
    requires ValidLinks(|nodes|, links) && linked == LinkNodes(nodes, links) && ListsInRange(linked, |links|)
    requires valued == ValueNodes(linked, links) && laid == BreadthNodes(valued, links, width, nodeWidth, steps)
    ensures laid == Laid(nodes, links, width, nodeWidth, steps)
  {
  }

  /** What `layout` needs of its input for its divisions to be defined:
      every node with links on a side has a positive total value there,
      and every column a positive total node value. */
  ghost predicate Layable(nodes: seq<Node>, links: seq<Link>, width: real, nodeWidth: real, steps: nat) {
    && ValidLinks(|nodes|, links)
    && Weighted(LinkNodes(nodes, links), links)
    && var laid := Laid(nodes, links, width, nodeWidth, steps);
       ColumnsWeighed(laid, Nest(Breadths(laid)))
  }

  /** What `computeNodeDepths` and then `computeLinkDepths` need of the
      nodes and links they are given. */
  ghost predicate DepthsReady(nodes: seq<Node>, links: seq<Link>, pad: real, height: real, iterations: nat) {
    && Weighted(nodes, links) && ColumnsWeighed(nodes, Nest(Breadths(nodes)))
    && var d := Depths(nodes, links, pad, height, iterations);
       ValidLinks(|d.0|, d.1) && ListsInRange(d.0, |d.1|)
  }

  /** The last two stages of `layout`. */
  function Finished(nodes: seq<Node>, links: seq<Link>, pad: real, height: real, iterations: nat): (r: (seq<Node>, seq<Link>))
    requires DepthsReady(nodes, links, pad, height, iterations)
    ensures |r.0| == |nodes| && |r.1| == |links|
  {
    var d := Depths(nodes, links, pad, height, iterations);
    LinkDepths(d.0, d.1)
  }

  /** `layout(iterations, width, height)` on a graph whose column loop
      stops after `steps` steps. */
  function LayoutOf(nodes: seq<Node>, links: seq<Link>, width: real, nodeWidth: real, pad: real, height: real,
                    iterations: nat, steps: nat): (r: (seq<Node>, seq<Link>))
    requires Layable(nodes, links, width, nodeWidth, steps)
    ensures |r.0| == |nodes| && |r.1| == |links|
  {
    LayoutReady(nodes, links, width, nodeWidth, pad, height, iterations, steps);
    Finished(Laid(nodes, links, width, nodeWidth, steps), links, pad, height, iterations)
  }

  /** Each node after the first three stages: the linker's lists, the
      larger of its two side totals as value, its final column as breadth,
      that column's scaled position as x, and the node width as dx;
      nothing else changed. */
  lemma LaidAt(nodes: seq<Node>, links: seq<Link>, width: real, nodeWidth: real, steps: nat, v: nat)
    requires ValidLinks(|nodes|, links) && v < |nodes|
    ensures var b := FinalBreadth(links, |nodes|, v, steps);
      Laid(nodes, links, width, nodeWidth, steps)[v]
      == nodes[v].(sourceLinks := LinksFrom(links, v), targetLinks := LinksInto(links, v),
                   value := Max(SumAt(Values(links), LinksFrom(links, v)), SumAt(Values(links), LinksInto(links, v))),
                   breadth := b, x := Scaled(b, ColumnScale(width, nodeWidth, steps)), dx := nodeWidth)
  {
    var linked := LinkNodes(nodes, links);
    LinkedOwned(linked, links);
    assert linked[v].sourceLinks == LinksFrom(links, v);
  }

  /** The first three stages keep the linker's lists, so the nodes own
      the links, and are weighted when the linked nodes are. */
  lemma LaidOwned(nodes: seq<Node>, links: seq<Link>, width: real, nodeWidth: real, steps: nat)
    requires ValidLinks(|nodes|, links)
    ensures SameLists(LinkNodes(nodes, links), Laid(nodes, links, width, nodeWidth, steps))
    ensures Owned(Laid(nodes, links, width, nodeWidth, steps), links)
    ensures Weighted(LinkNodes(nodes, links), links) ==> Weighted(Laid(nodes, links, width, nodeWidth, steps), links)
  {
    var linked := LinkNodes(nodes, links);
    var laid := Laid(nodes, links, width, nodeWidth, steps);
    LinkedOwned(linked, links);
    assert SameLists(linked, laid);
    OwnedSameLists(linked, laid, links);
  }

  /** Ownership and weighting depend on the nodes' lists only. */
  lemma OwnedSameLists(a: seq<Node>, b: seq<Node>, links: seq<Link>)
    requires Owned(a, links) && SameLists(a, b)
    ensures Owned(b, links)
    ensures Weighted(a, links) ==> Weighted(b, links)
  {
  }

  /** Ownership depends on the links' endpoints only. */
  lemma OwnedSameEnds(nodes: seq<Node>, links: seq<Link>, links': seq<Link>)
    requires Owned(nodes, links) && |links'| == |links|
    requires forall k :: 0 <= k < |links| ==> links'[k].source == links[k].source && links'[k].target == links[k].target
    ensures Owned(nodes, links')
  {
  }

  /** Initialising and then moving tops changes the tops and heights
      only. */
  lemma InitKeepsRest(nodes: seq<Node>, ky: real, after: seq<Node>)
    requires OnlyTopsDiffer(InitNodes(nodes, ky), after)
    ensures |after| == |nodes|
    ensures forall v :: 0 <= v < |nodes| ==> after[v] == nodes[v].(y := after[v].y, dy := after[v].dy)
  {
    var init := InitNodes(nodes, ky);
    forall v | 0 <= v < |nodes|
      ensures after[v] == nodes[v].(y := after[v].y, dy := after[v].dy)
    {
      assert after[v] == init[v].(y := after[v].y);
    }
  }

  /** `computeNodeDepths` changes the nodes' tops and heights and the
      links' thicknesses only. */
  lemma DepthsShape(nodes: seq<Node>, links: seq<Link>, pad: real, height: real, iterations: nat)
    requires Weighted(nodes, links) && ColumnsWeighed(nodes, Nest(Breadths(nodes)))
    ensures var d := Depths(nodes, links, pad, height, iterations);
      && |d.0| == |nodes| && |d.1| == |links|
      && (forall v :: 0 <= v < |nodes| ==> d.0[v] == nodes[v].(y := d.0[v].y, dy := d.0[v].dy))
      && (forall k :: 0 <= k < |links| ==> d.1[k] == links[k].(dy := d.1[k].dy))
  {
    var d := Depths(nodes, links, pad, height, iterations);
    InitKeepsRest(nodes, Ky(nodes, Nest(Breadths(nodes)), pad, height), d.0);
  }

  /** So the nodes `computeNodeDepths` leaves own the links it leaves. */
  lemma DepthsOwned(nodes: seq<Node>, links: seq<Link>, pad: real, height: real, iterations: nat)
    requires Owned(nodes, links) && Weighted(nodes, links) && ColumnsWeighed(nodes, Nest(Breadths(nodes)))
    ensures var d := Depths(nodes, links, pad, height, iterations);
      Owned(d.0, d.1) && ValidLinks(|d.0|, d.1) && ListsInRange(d.0, |d.1|)
  {
    var d := Depths(nodes, links, pad, height, iterations);
    DepthsShape(nodes, links, pad, height, iterations);
    assert SameLists(nodes, d.0);
    OwnedSameLists(nodes, d.0, links);
    OwnedSameEnds(d.0, links, d.1);
  }

  /** `layout` stage by stage: the nodes `computeNodeDepths` leaves
      differ from those of the first three stages in their tops and
      heights only, own the links it leaves, and the last stage runs on
      them. */
  lemma LayoutStages(nodes: seq<Node>, links: seq<Link>, width: real, nodeWidth: real, pad: real, height: real,
                     iterations: nat, steps: nat)
    requires Layable(nodes, links, width, nodeWidth, steps)
    ensures var laid := Laid(nodes, links, width, nodeWidth, steps);
      && Owned(laid, links) && Weighted(laid, links)
      && var d := Depths(laid, links, pad, height, iterations);
         && Owned(d.0, d.1) && ValidLinks(|d.0|, d.1) && ListsInRange(d.0, |d.1|)
         && (forall v :: 0 <= v < |laid| ==> d.0[v] == laid[v].(y := d.0[v].y, dy := d.0[v].dy))
         && (forall k :: 0 <= k < |links| ==> d.1[k] == links[k].(dy := d.1[k].dy))
         && LayoutOf(nodes, links, width, nodeWidth, pad, height, iterations, steps) == LinkDepths(d.0, d.1)
  {
    var laid := Laid(nodes, links, width, nodeWidth, steps);
    LaidOwned(nodes, links, width, nodeWidth, steps);
    DepthsOwned(laid, links, pad, height, iterations);
    DepthsShape(laid, links, pad, height, iterations);
  }

  /** The nodes the first three stages leave are fit for the last two. */
  lemma LayoutReady(nodes: seq<Node>, links: seq<Link>, width: real, nodeWidth: real, pad: real, height: real,
                    iterations: nat, steps: nat)
    requires Layable(nodes, links, width, nodeWidth, steps)
    ensures DepthsReady(Laid(nodes, links, width, nodeWidth, steps), links, pad, height, iterations)
  {
    LaidOwned(nodes, links, width, nodeWidth, steps);
    DepthsOwned(Laid(nodes, links, width, nodeWidth, steps), links, pad, height, iterations);
  }

  /** Each node after `layout`: as the first three stages left it but for
      its top, its height and the order of its lists, which hold the
      linker's links. */
  lemma LayoutNodes(nodes: seq<Node>, links: seq<Link>, width: real, nodeWidth: real, pad: real, height: real,
                    iterations: nat, steps: nat, v: nat)
    requires Layable(nodes, links, width, nodeWidth, steps) && v < |nodes|
    ensures var r := LayoutOf(nodes, links, width, nodeWidth, pad, height, iterations, steps);
      && r.0[v] == Laid(nodes, links, width, nodeWidth, steps)[v].(y := r.0[v].y, dy := r.0[v].dy,
                     sourceLinks := r.0[v].sourceLinks, targetLinks := r.0[v].targetLinks)
      && multiset(r.0[v].sourceLinks) == multiset(LinksFrom(links, v))
      && multiset(r.0[v].targetLinks) == multiset(LinksInto(links, v))
  {
    LayoutStages(nodes, links, width, nodeWidth, pad, height, iterations, steps);
    LaidAt(nodes, links, width, nodeWidth, steps, v);
    var laid := Laid(nodes, links, width, nodeWidth, steps);
    var d := Depths(laid, links, pad, height, iterations);
    LinkDepthsSorted(d.0, d.1, v);
  }

  /** After `layout` every node's outgoing links are in ascending order of
      the top of their target, its incoming links in ascending order of the
      top of their source. */
  lemma LayoutSorted(nodes: seq<Node>, links: seq<Link>, width: real, nodeWidth: real, pad: real, height: real,
                     iterations: nat, steps: nat, v: nat)
    requires Layable(nodes, links, width, nodeWidth, steps) && v < |nodes|
    ensures var r := LayoutOf(nodes, links, width, nodeWidth, pad, height, iterations, steps);
      && Owned(r.0, r.1)
      && SortedBy(TargetTops(r.0, r.1), r.0[v].sourceLinks)
      && SortedBy(SourceTops(r.0, r.1), r.0[v].targetLinks)
  {
    LayoutStages(nodes, links, width, nodeWidth, pad, height, iterations, steps);
    var d := Depths(Laid(nodes, links, width, nodeWidth, steps), links, pad, height, iterations);
    SortedByFinalTops(d.0, d.1, v);
  }

  /** Each link after `layout`: its endpoints and value as given, and, as
      `Stacked` says, its offsets `sy` / `ty` the total thickness of the
      links before it in the sorted outgoing list of its source / incoming
      list of its target. */
  lemma LayoutLinks(nodes: seq<Node>, links: seq<Link>, width: real, nodeWidth: real, pad: real, height: real,
                    iterations: nat, steps: nat, k: nat)
    requires Layable(nodes, links, width, nodeWidth, steps) && k < |links|
    ensures var r := LayoutOf(nodes, links, width, nodeWidth, pad, height, iterations, steps);
      && Owned(r.0, r.1)
      && r.1[k] == links[k].(dy := r.1[k].dy, sy := r.1[k].sy, ty := r.1[k].ty)
      && r.1[k] == Stacked(r.0, r.1, k)
  {
    LayoutStages(nodes, links, width, nodeWidth, pad, height, iterations, steps);
    var laid := Laid(nodes, links, width, nodeWidth, steps);
    var d := Depths(laid, links, pad, height, iterations);
    StackedLinks(d.0, d.1);
    var r := LinkDepths(d.0, d.1);
    assert r.1[k] == Stacked(r.0, d.1, k);
  }

  /** `relayout` right after `layout` changes nothing. */
  lemma LayoutThenRelayout(nodes: seq<Node>, links: seq<Link>, width: real, nodeWidth: real, pad: real, height: real,
                           iterations: nat, steps: nat)
    requires Layable(nodes, links, width, nodeWidth, steps)
    ensures var r := LayoutOf(nodes, links, width, nodeWidth, pad, height, iterations, steps);
      ValidLinks(|r.0|, r.1) && ListsInRange(r.0, |r.1|) && LinkDepths(r.0, r.1) == r
  {
    LayoutStages(nodes, links, width, nodeWidth, pad, height, iterations, steps);
    var d := Depths(Laid(nodes, links, width, nodeWidth, steps), links, pad, height, iterations);
    LinkDepthsIdempotent(d.0, d.1);
  }

  /** With non-negative link values every node leaves the first three
      stages with a non-negative value. */
  lemma LaidValuesNonNegative(nodes: seq<Node>, links: seq<Link>, width: real, nodeWidth: real, steps: nat)
    requires ValidLinks(|nodes|, links)
    requires forall j :: 0 <= j < |links| ==> links[j].value >= 0.0
    ensures forall v :: 0 <= v < |nodes| ==> Laid(nodes, links, width, nodeWidth, steps)[v].value >= 0.0
  {
    forall v | 0 <= v < |nodes|
      ensures Laid(nodes, links, width, nodeWidth, steps)[v].value >= 0.0
    {
      LaidAt(nodes, links, width, nodeWidth, steps, v);
      LinksFromExactlyOnce(links, v, 0);
      SumAtNonNegative(Values(links), LinksFrom(links, v));
    }
  }

  /** Sorting the lists leaves every node's top, height and column. */
  lemma SortKeepsShape(nodes: seq<Node>, links: seq<Link>)
    requires ValidLinks(|nodes|, links) && ListsInRange(nodes, |links|)
    ensures var r := SortAdjacency(nodes, links);
      Tops(r) == Tops(nodes) && Heights(r) == Heights(nodes) && Breadths(r) == Breadths(nodes)
  {
    var r := SortAdjacency(nodes, links);
    assert Tops(r) == Tops(nodes);
    assert Heights(r) == Heights(nodes);
  }

  /** Placement depends on the tops and heights only. */
  lemma PlacedSameShape(a: seq<Node>, b: seq<Node>, cols: seq<seq<nat>>, pad: real, height: real)
    requires AllInRange(cols, |a|) && AllPlaced(a, cols, pad, height)
    requires |b| == |a| && Tops(b) == Tops(a) && Heights(b) == Heights(a)
    ensures AllInRange(cols, |b|) && AllPlaced(b, cols, pad, height)
  {
  }

  /** The last two stages on nodes fit for them, with non-negative
      padding and values and the gaps of every column fitting: the nodes
      can be grouped by column so that every column is placed. */
  lemma FinishedPlaced(nodes: seq<Node>, links: seq<Link>, pad: real, height: real, iterations: nat)
    requires DepthsReady(nodes, links, pad, height, iterations) && Owned(nodes, links)
    requires pad >= 0.0 && forall v :: 0 <= v < |nodes| ==> nodes[v].value >= 0.0
    requires var cols := Nest(Breadths(nodes));
      forall c :: 0 <= c < |cols| ==> Gaps(|cols[c]| - 1, pad) <= height
    ensures var r := Finished(nodes, links, pad, height, iterations);
      exists cols :: && GroupedBy(Breadths(r.0), cols) && Covers(cols, |r.0|)
                     && AllInRange(cols, |r.0|) && AllPlaced(r.0, cols, pad, height)
  {
    DepthsPlaced(nodes, links, pad, height, iterations);
    var d := Depths(nodes, links, pad, height, iterations);
    MovedKeepBreadths(nodes, Ky(nodes, Nest(Breadths(nodes)), pad, height), d.0);
    SortedPlaced(d.0, d.1, d.2, pad, height);
    assert Finished(nodes, links, pad, height, iterations) == LinkDepths(d.0, d.1);
  }

  /** Initialising and then moving the nodes leaves each in its column. */
  lemma MovedKeepBreadths(nodes: seq<Node>, ky: real, moved: seq<Node>)
    requires OnlyTopsDiffer(InitNodes(nodes, ky), moved)
    ensures Breadths(moved) == Breadths(nodes)
  {
    var init := InitNodes(nodes, ky);
    HeightsIgnoreTops(init, moved);
    assert Breadths(init) == Breadths(nodes);
  }

  /** Sorting the lists of nodes placed in grouped columns keeps them so. */
  lemma SortedPlaced(nodes: seq<Node>, links: seq<Link>, cols: seq<seq<nat>>, pad: real, height: real)
    requires ValidLinks(|nodes|, links) && ListsInRange(nodes, |links|)
    requires GroupedBy(Breadths(nodes), cols) && Covers(cols, |nodes|)
    requires AllInRange(cols, |nodes|) && AllPlaced(nodes, cols, pad, height)
    ensures var r := LinkDepths(nodes, links).0;
      exists cols :: && GroupedBy(Breadths(r), cols) && Covers(cols, |r|)
                     && AllInRange(cols, |r|) && AllPlaced(r, cols, pad, height)
  {
    var r := SortAdjacency(nodes, links);
    SortKeepsShape(nodes, links);
    PlacedSameShape(nodes, r, cols, pad, height);
  }

  /** After `layout`, with non-negative padding and link values and the
      gaps of every column fitting in the canvas, the nodes can be grouped
      by column so that every column lies inside [0, height], in order of
      top, each node at least `pad` below the bottom of the one before. */
  lemma LayoutPlaced(nodes: seq<Node>, links: seq<Link>, width: real, nodeWidth: real, pad: real, height: real,
                     iterations: nat, steps: nat)
    requires Layable(nodes, links, width, nodeWidth, steps)
    requires pad >= 0.0 && forall j :: 0 <= j < |links| ==> links[j].value >= 0.0
    requires var cols := Nest(Breadths(Laid(nodes, links, width, nodeWidth, steps)));
      forall c :: 0 <= c < |cols| ==> Gaps(|cols[c]| - 1, pad) <= height
    ensures var r := LayoutOf(nodes, links, width, nodeWidth, pad, height, iterations, steps);
      exists cols :: && GroupedBy(Breadths(r.0), cols) && Covers(cols, |r.0|)
                     && AllInRange(cols, |r.0|) && AllPlaced(r.0, cols, pad, height)
  {
    LayoutReady(nodes, links, width, nodeWidth, pad, height, iterations, steps);
    LaidOwned(nodes, links, width, nodeWidth, steps);
    LaidValuesNonNegative(nodes, links, width, nodeWidth, steps);
    var laid := Laid(nodes, links, width, nodeWidth, steps);
    FinishedPlaced(laid, links, pad, height, iterations);
    assert LayoutOf(nodes, links, width, nodeWidth, pad, height, iterations, steps) == Finished(laid, links, pad, height, iterations);
  }

  /** Sorting and stacking keep every node's height and the total
      thickness of each of its lists. */
  lemma StackKeepsSideSums(nodes: seq<Node>, links: seq<Link>, v: nat)
    requires Owned(nodes, links) && v < |nodes|
    ensures var r := LinkDepths(nodes, links);
      && ListsInRange(r.0, |r.1|) && r.0[v].dy == nodes[v].dy
      && SumAt(LinkDys(r.1), r.0[v].sourceLinks) == SumAt(LinkDys(links), nodes[v].sourceLinks)
      && SumAt(LinkDys(r.1), r.0[v].targetLinks) == SumAt(LinkDys(links), nodes[v].targetLinks)
  {
    var r := LinkDepths(nodes, links);
    StackedLinks(nodes, links);
    LinkDepthsSorted(nodes, links, v);
    SumAtPerm(LinkDys(links), nodes[v].sourceLinks, r.0[v].sourceLinks);
    SumAtPerm(LinkDys(links), nodes[v].targetLinks, r.0[v].targetLinks);
  }

  /** The last two stages on nodes fit for them, whose values are their
      side maxima, with the gaps of every column fitting: each side of a
      node carries links no thicker in total than the node, and the
      heavier side fills it. */
  lemma FinishedSideTotals(nodes: seq<Node>, links: seq<Link>, pad: real, height: real, iterations: nat, v: nat)
    requires DepthsReady(nodes, links, pad, height, iterations) && Owned(nodes, links) && v < |nodes|
    requires nodes[v].value == NodeValue(links, nodes[v])
    requires var cols := Nest(Breadths(nodes));
      forall c :: 0 <= c < |cols| ==> Gaps(|cols[c]| - 1, pad) <= height
    ensures var r := Finished(nodes, links, pad, height, iterations);
      && ListsInRange(r.0, |r.1|)
      && var outs, ins := SumAt(LinkDys(r.1), r.0[v].sourceLinks), SumAt(LinkDys(r.1), r.0[v].targetLinks);
         && outs <= r.0[v].dy && ins <= r.0[v].dy
         && (outs == r.0[v].dy || ins == r.0[v].dy)
  {
    var cols := Nest(Breadths(nodes));
    var ky := Ky(nodes, cols, pad, height);
    var d := Depths(nodes, links, pad, height, iterations);
    KyNonNegative(nodes, cols, pad, height);
    DepthsOwned(nodes, links, pad, height, iterations);
    MovedSideTotals(nodes, links, ky, d.0, v);
    StackKeepsSideSums(d.0, d.1, v);
  }

  /** Nodes initialised with a non-negative `ky` and then moved, against
      the initialised links: on each side of a node whose value is its
      side maximum the links are no thicker in total than the node, and
      the heavier side fills it. */
  lemma MovedSideTotals(nodes: seq<Node>, links: seq<Link>, ky: real, moved: seq<Node>, v: nat)
    requires ListsInRange(nodes, |links|) && v < |nodes| && ky >= 0.0
    requires OnlyTopsDiffer(InitNodes(nodes, ky), moved)
    requires nodes[v].value == NodeValue(links, nodes[v])
    ensures var scaled := InitLinks(links, ky);
      && SumAt(LinkDys(scaled), moved[v].sourceLinks) <= moved[v].dy
      && SumAt(LinkDys(scaled), moved[v].targetLinks) <= moved[v].dy
      && (SumAt(LinkDys(scaled), moved[v].sourceLinks) == moved[v].dy
          || SumAt(LinkDys(scaled), moved[v].targetLinks) == moved[v].dy)
  {
    var scaled := InitLinks(links, ky);
    InitThenMoved(nodes, ky, moved);
    assert ListsInRange(moved, |scaled|);
    assert Values(scaled) == Values(links);
    assert moved[v].value == NodeValue(scaled, moved[v]);
    SideTotals(moved, scaled, ky, v);
  }

  /** After `layout`, with the gaps of every column fitting in the canvas,
      the links on either side of a node are together no thicker than the
      node, and those on its heavier side fill its height exactly. */
  lemma LayoutSideTotals(nodes: seq<Node>, links: seq<Link>, width: real, nodeWidth: real, pad: real, height: real,
                         iterations: nat, steps: nat, v: nat)
    requires Layable(nodes, links, width, nodeWidth, steps) && v < |nodes|
    requires var cols := Nest(Breadths(Laid(nodes, links, width, nodeWidth, steps)));
      forall c :: 0 <= c < |cols| ==> Gaps(|cols[c]| - 1, pad) <= height
    ensures var r := LayoutOf(nodes, links, width, nodeWidth, pad, height, iterations, steps);
      && ListsInRange(r.0, |r.1|)
      && var outs, ins := SumAt(LinkDys(r.1), r.0[v].sourceLinks), SumAt(LinkDys(r.1), r.0[v].targetLinks);
         && outs <= r.0[v].dy && ins <= r.0[v].dy
         && (outs == r.0[v].dy || ins == r.0[v].dy)
  {
    LayoutReady(nodes, links, width, nodeWidth, pad, height, iterations, steps);
    LaidOwned(nodes, links, width, nodeWidth, steps);
    LaidAt(nodes, links, width, nodeWidth, steps, v);
    var laid := Laid(nodes, links, width, nodeWidth, steps);
    assert laid[v].value == NodeValue(links, laid[v]);
    FinishedSideTotals(laid, links, pad, height, iterations, v);
    assert LayoutOf(nodes, links, width, nodeWidth, pad, height, iterations, steps) == Finished(laid, links, pad, height, iterations);
  }
}
