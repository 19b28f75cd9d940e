/** What `computeLinkDepths` (and so `relayout`) computes: every node's
    outgoing links sorted by the top of their target, its incoming links by
    the top of their source, and each link's offsets `sy` / `ty` below the
    top of its source / target node, the running total of the thicknesses of
    the links stacked before it. */
module Stacking {
  import opened Seqs
  import opened Graph
  import opened Linker

  /** For every link, the top `y` of its target node: the key of
      `ascendingTargetDepth`. */
  function TargetTops(nodes: seq<Node>, links: seq<Link>): (r: seq<real>)
    requires ValidLinks(|nodes|, links)
    ensures |r| == |links|
    ensures forall j :: 0 <= j < |links| ==> r[j] == nodes[links[j].target].y
  {
    seq(|links|, j requires 0 <= j < |links| => nodes[links[j].target].y)
  }

  /** For every link, the top `y` of its source node: the key of
      `ascendingSourceDepth`. */
  function SourceTops(nodes: seq<Node>, links: seq<Link>): (r: seq<real>)
    requires ValidLinks(|nodes|, links)
    ensures |r| == |links|
    ensures forall j :: 0 <= j < |links| ==> r[j] == nodes[links[j].source].y
  {
    seq(|links|, j requires 0 <= j < |links| => nodes[links[j].source].y)
  }

  /** Every adjacency list names links of the arena. */
  predicate ListsInRange(nodes: seq<Node>, m: nat) {
    forall v :: 0 <= v < |nodes| ==> InRange(nodes[v].sourceLinks, m) && InRange(nodes[v].targetLinks, m)
  }

  /** Every link sits once in the outgoing list of its source, once in the
      incoming list of its target, and in no other list: the shape the
      linker leaves and the sorts keep. */
  predicate Owned(nodes: seq<Node>, links: seq<Link>) {
    && ValidLinks(|nodes|, links)
    && ListsInRange(nodes, |links|)
    && (forall v :: 0 <= v < |nodes| ==> NoDup(nodes[v].sourceLinks) && NoDup(nodes[v].targetLinks))
    && (forall v, j :: 0 <= v < |nodes| && 0 <= j < |links| ==>
          (j in nodes[v].sourceLinks <==> links[j].source == v)
          && (j in nodes[v].targetLinks <==> links[j].target == v))
  }

  /** The lists the linker builds are owned in that sense. */
  lemma LinkedOwned(nodes: seq<Node>, links: seq<Link>)
    requires ValidLinks(|nodes|, links) && Linked(nodes, links)
    ensures Owned(nodes, links)
  {
    forall v | 0 <= v < |nodes|
      ensures InRange(nodes[v].sourceLinks, |links|) && InRange(nodes[v].targetLinks, |links|)
      ensures NoDup(nodes[v].sourceLinks) && NoDup(nodes[v].targetLinks)
    {
      LinksFromExactlyOnce(links, v, 0);
      LinksIntoExactlyOnce(links, v, 0);
      IncreasingNoDup(nodes[v].sourceLinks);
      IncreasingNoDup(nodes[v].targetLinks);
    }
    forall v, j | 0 <= v < |nodes| && 0 <= j < |links|
      ensures (j in nodes[v].sourceLinks <==> links[j].source == v)
      ensures (j in nodes[v].targetLinks <==> links[j].target == v)
    {
      LinksFromExactlyOnce(links, v, j);
      LinksIntoExactlyOnce(links, v, j);
    }
  }

  /** The first loop of `computeLinkDepths`: each node's outgoing links
      sorted by target top, its incoming links by source top. */
  function SortAdjacency(nodes: seq<Node>, links: seq<Link>): (r: seq<Node>)
    requires ValidLinks(|nodes|, links) && ListsInRange(nodes, |links|)
    ensures |r| == |nodes|
  {
    seq(|nodes|, v requires 0 <= v < |nodes| =>
      nodes[v].(sourceLinks := SortBy(TargetTops(nodes, links), nodes[v].sourceLinks),
                targetLinks := SortBy(SourceTops(nodes, links), nodes[v].targetLinks)))
  }

  /** The first loop of `computeLinkDepths` after its first v nodes: those
      have their lists sorted, the rest are as they were. */
  ghost predicate SortedUpTo(ns: seq<Node>, start: seq<Node>, links: seq<Link>, v: nat) {
    && ValidLinks(|start|, links) && ListsInRange(start, |links|)
    && v <= |start| && |ns| == |start|
    && forall u :: 0 <= u < |ns| ==> ns[u] == if u < v then SortAdjacency(start, links)[u] else start[u]
  }

  /** Once every node has been visited the loop has sorted them all. */
  lemma SortedAll(ns: seq<Node>, start: seq<Node>, links: seq<Link>)
    requires SortedUpTo(ns, start, links, |start|)
    ensures ns == SortAdjacency(start, links)
  {
  }

  /** One inner loop of the second pass: the links of `js` get the offsets
      `acc`, `acc + dy`, ... in list order, as `sy` when `outgoing` and as
      `ty` otherwise. */
  function StackSide(links: seq<Link>, js: seq<nat>, acc: real, outgoing: bool): (r: seq<Link>)
    requires InRange(js, |links|)
    ensures |r| == |links|
    decreases |js|
  {
    if js == [] then links
    else
      var j := js[0];
      var written := if outgoing then links[j].(sy := acc) else links[j].(ty := acc);
      StackSide(links[j := written], js[1..], acc + links[j].dy, outgoing)
  }

  /** The second pass from node v on: for each node, its outgoing list and
      then its incoming list. */
  function StackFrom(nodes: seq<Node>, links: seq<Link>, v: nat): (r: seq<Link>)
    requires ListsInRange(nodes, |links|) && v <= |nodes|
    ensures |r| == |links|
    decreases |nodes| - v
  {
    if v == |nodes| then links
    else
      var out := StackSide(links, nodes[v].sourceLinks, 0.0, true);
      StackFrom(nodes, StackSide(out, nodes[v].targetLinks, 0.0, false), v + 1)
  }

  /** `computeLinkDepths`: the sorted nodes and the stacked links. */
  function LinkDepths(nodes: seq<Node>, links: seq<Link>): (r: (seq<Node>, seq<Link>))
    requires ValidLinks(|nodes|, links) && ListsInRange(nodes, |links|)
  {
    var sorted := SortAdjacency(nodes, links);
    (sorted, StackFrom(sorted, links, 0))
  }

  /** The thickness of the links before the first occurrence of j in `js`. */
  function Offset(dys: seq<real>, js: seq<nat>, j: nat): real
    requires InRange(js, |dys|) && j in js
  {
    if js[0] == j then 0.0 else dys[js[0]] + Offset(dys, js[1..], j)
  }

  /** In a duplicate-free list the offset of the i-th link is the total
      thickness of the i links before it. */
  lemma {:induction false} OffsetIsPrefixSum(dys: seq<real>, js: seq<nat>, i: nat)
    requires InRange(js, |dys|) && NoDup(js) && i < |js|
    ensures Offset(dys, js, js[i]) == SumAt(dys, js[..i])
  {
    if i > 0 {
      assert js[1..][i - 1] == js[i];
      OffsetIsPrefixSum(dys, js[1..], i - 1);
      assert js[..i][1..] == js[1..][..i - 1];
    }
  }

  /** A link stacked in one list: its offset field set to `acc` plus the
      thickness before it; the other fields kept. */
  function Written(link: Link, off: real, outgoing: bool): Link {
    if outgoing then link.(sy := off) else link.(ty := off)
  }

  /** One inner loop writes exactly the links of its list, each with its
      running offset, and nothing else. */
  lemma {:induction false} StackSideAt(links: seq<Link>, js: seq<nat>, acc: real, outgoing: bool, k: nat)
    requires InRange(js, |links|) && NoDup(js) && k < |links|
    ensures StackSide(links, js, acc, outgoing)[k]
         == if k in js then Written(links[k], acc + Offset(LinkDys(links), js, k), outgoing) else links[k]
    decreases |js|
  {
    if js != [] {
      var j := js[0];
      var next := links[j := Written(links[j], acc, outgoing)];
      assert LinkDys(next) == LinkDys(links);
      StackSideAt(next, js[1..], acc + links[j].dy, outgoing, k);
      if k == j {
        assert k !in js[1..];
      }
    }
  }

  /** The whole second pass, link by link: a link whose source comes at or
      after node v gets its offset in that node's outgoing list, a link whose
      target does gets its offset in that node's incoming list; the other
      fields are kept. */
  lemma {:induction false} StackFromAt(nodes: seq<Node>, links: seq<Link>, v: nat, k: nat)
    requires Owned(nodes, links) && v <= |nodes| && k < |links|
    ensures var r := StackFrom(nodes, links, v);
      var src, tgt := links[k].source, links[k].target;
      && r[k].sy == (if src >= v then Offset(LinkDys(links), nodes[src].sourceLinks, k) else links[k].sy)
      && r[k].ty == (if tgt >= v then Offset(LinkDys(links), nodes[tgt].targetLinks, k) else links[k].ty)
      && r[k] == links[k].(sy := r[k].sy, ty := r[k].ty)
    decreases |nodes| - v
  {
    if v < |nodes| {
      var out := StackSide(links, nodes[v].sourceLinks, 0.0, true);
      var both := StackSide(out, nodes[v].targetLinks, 0.0, false);
      assert LinkDys(out) == LinkDys(links) by {
        forall i | 0 <= i < |links| ensures out[i].dy == links[i].dy {
          StackSideAt(links, nodes[v].sourceLinks, 0.0, true, i);
        }
      }
      forall i | 0 <= i < |links|
        ensures both[i] == links[i].(sy := both[i].sy, ty := both[i].ty)
        ensures both[i].sy == (if links[i].source == v then Offset(LinkDys(links), nodes[v].sourceLinks, i) else links[i].sy)
        ensures both[i].ty == (if links[i].target == v then Offset(LinkDys(links), nodes[v].targetLinks, i) else links[i].ty)
      {
        StackSideAt(links, nodes[v].sourceLinks, 0.0, true, i);
        StackSideAt(out, nodes[v].targetLinks, 0.0, false, i);
      }
      assert LinkDys(both) == LinkDys(links);
      assert Owned(nodes, both);
      StackFromAt(nodes, both, v + 1, k);
    }
  }

  /** Link k once stacked: its offsets in its source's outgoing list and in
      its target's incoming list. */
  function Stacked(nodes: seq<Node>, links: seq<Link>, k: nat): Link
    requires Owned(nodes, links) && k < |links|
  {
    links[k].(sy := Offset(LinkDys(links), nodes[links[k].source].sourceLinks, k),
              ty := Offset(LinkDys(links), nodes[links[k].target].targetLinks, k))
  }

  /** Sorting keeps every list a reordering of itself, so ownership holds
      of the sorted nodes, and touches nothing but the lists. */
  lemma SortAdjacencyOwned(nodes: seq<Node>, links: seq<Link>)
    requires Owned(nodes, links)
    ensures var r := SortAdjacency(nodes, links);
      && Owned(r, links)
      && (forall v :: 0 <= v < |nodes| ==>
            && multiset(r[v].sourceLinks) == multiset(nodes[v].sourceLinks)
            && multiset(r[v].targetLinks) == multiset(nodes[v].targetLinks)
            && r[v] == nodes[v].(sourceLinks := r[v].sourceLinks, targetLinks := r[v].targetLinks))
  {
    var r := SortAdjacency(nodes, links);
    forall v | 0 <= v < |nodes|
      ensures NoDup(r[v].sourceLinks) && NoDup(r[v].targetLinks)
      ensures forall j :: 0 <= j < |links| ==>
        (j in r[v].sourceLinks <==> j in nodes[v].sourceLinks)
        && (j in r[v].targetLinks <==> j in nodes[v].targetLinks)
    {
      NoDupPerm(nodes[v].sourceLinks, r[v].sourceLinks);
      NoDupPerm(nodes[v].targetLinks, r[v].targetLinks);
      forall j | 0 <= j < |links|
        ensures (j in r[v].sourceLinks <==> j in nodes[v].sourceLinks)
        ensures (j in r[v].targetLinks <==> j in nodes[v].targetLinks)
      {
        assert j in r[v].sourceLinks <==> j in multiset(r[v].sourceLinks);
        assert j in r[v].targetLinks <==> j in multiset(r[v].targetLinks);
      }
    }
  }

  /** `computeLinkDepths`, link by link: every link ends with the offsets
      of its place in the sorted lists of its two endpoints. */
  lemma LinkDepthsAt(nodes: seq<Node>, links: seq<Link>, k: nat)
    requires Owned(nodes, links) && k < |links|
    ensures Owned(LinkDepths(nodes, links).0, links)
    ensures LinkDepths(nodes, links).1[k] == Stacked(LinkDepths(nodes, links).0, links, k)
  {
    SortAdjacencyOwned(nodes, links);
    StackFromAt(LinkDepths(nodes, links).0, links, 0, k);
  }

  /** The lists end up sorted: outgoing links by ascending top of their
      target, incoming links by ascending top of their source (the top edge
      `y`, not the centre); each sorted list holds the same links as before,
      and nothing else about a node changes. */
  lemma LinkDepthsSorted(nodes: seq<Node>, links: seq<Link>, v: nat)
    requires Owned(nodes, links) && v < |nodes|
    ensures var r := LinkDepths(nodes, links).0;
      && SortedBy(TargetTops(nodes, links), r[v].sourceLinks)
      && SortedBy(SourceTops(nodes, links), r[v].targetLinks)
      && multiset(r[v].sourceLinks) == multiset(nodes[v].sourceLinks)
      && multiset(r[v].targetLinks) == multiset(nodes[v].targetLinks)
      && r[v] == nodes[v].(sourceLinks := r[v].sourceLinks, targetLinks := r[v].targetLinks)
  {
    SortBySorted(TargetTops(nodes, links), nodes[v].sourceLinks);
    SortBySorted(SourceTops(nodes, links), nodes[v].targetLinks);
  }

  /** The i-th outgoing link of node v ends at the total thickness of the
      i links sorted before it, its thickness unchanged. */
  lemma OutgoingOffset(nodes: seq<Node>, links: seq<Link>, v: nat, i: nat)
    requires Owned(nodes, links) && v < |nodes|
    requires i < |LinkDepths(nodes, links).0[v].sourceLinks|
    ensures var r := LinkDepths(nodes, links);
      var outs := r.0[v].sourceLinks;
      r.1[outs[i]].sy == SumAt(LinkDys(links), outs[..i]) && r.1[outs[i]].dy == links[outs[i]].dy
  {
    var r := LinkDepths(nodes, links);
    var outs := r.0[v].sourceLinks;
    SortAdjacencyOwned(nodes, links);
    assert outs[i] in outs;
    LinkDepthsAt(nodes, links, outs[i]);
    OffsetIsPrefixSum(LinkDys(links), outs, i);
  }

  /** The i-th incoming link of node v ends at the total thickness of the
      i links sorted before it, its thickness unchanged. */
  lemma IncomingOffset(nodes: seq<Node>, links: seq<Link>, v: nat, i: nat)
    requires Owned(nodes, links) && v < |nodes|
    requires i < |LinkDepths(nodes, links).0[v].targetLinks|
    ensures var r := LinkDepths(nodes, links);
      var ins := r.0[v].targetLinks;
      r.1[ins[i]].ty == SumAt(LinkDys(links), ins[..i]) && r.1[ins[i]].dy == links[ins[i]].dy
  {
    var r := LinkDepths(nodes, links);
    var ins := r.0[v].targetLinks;
    SortAdjacencyOwned(nodes, links);
    assert ins[i] in ins;
    LinkDepthsAt(nodes, links, ins[i]);
    OffsetIsPrefixSum(LinkDys(links), ins, i);
  }

  /** The offsets are prefix sums: along each sorted outgoing list the
      first link sits at 0 and every next link at the previous offset plus
      the previous link's thickness, so the bands are contiguous and, with
      non-negative thicknesses, never overlap. */
  lemma OutgoingContiguous(nodes: seq<Node>, links: seq<Link>, v: nat, i: nat)
    requires Owned(nodes, links) && v < |nodes|
    ensures var r := LinkDepths(nodes, links);
      var outs := r.0[v].sourceLinks;
      && (outs != [] ==> r.1[outs[0]].sy == 0.0)
      && (i + 1 < |outs| ==> r.1[outs[i + 1]].sy == r.1[outs[i]].sy + r.1[outs[i]].dy)
  {
    var r := LinkDepths(nodes, links);
    var outs := r.0[v].sourceLinks;
    if outs != [] {
      OutgoingOffset(nodes, links, v, 0);
    }
    if i + 1 < |outs| {
      OutgoingOffset(nodes, links, v, i);
      OutgoingOffset(nodes, links, v, i + 1);
      assert InRange(outs, |links|);
      SumAtPrefixStep(LinkDys(links), outs, i);
    }
  }

  /** The same along each sorted incoming list, for the offsets `ty`. */
  lemma IncomingContiguous(nodes: seq<Node>, links: seq<Link>, v: nat, i: nat)
    requires Owned(nodes, links) && v < |nodes|
    ensures var r := LinkDepths(nodes, links);
      var ins := r.0[v].targetLinks;
      && (ins != [] ==> r.1[ins[0]].ty == 0.0)
      && (i + 1 < |ins| ==> r.1[ins[i + 1]].ty == r.1[ins[i]].ty + r.1[ins[i]].dy)
  {
    var r := LinkDepths(nodes, links);
    var ins := r.0[v].targetLinks;
    if ins != [] {
      IncomingOffset(nodes, links, v, 0);
    }
    if i + 1 < |ins| {
      IncomingOffset(nodes, links, v, i);
      IncomingOffset(nodes, links, v, i + 1);
      assert InRange(ins, |links|);
      SumAtPrefixStep(LinkDys(links), ins, i);
    }
  }

  /** The stacked links: every link as `Stacked` gives it, and the sorted
      nodes still own them. */
  lemma StackedLinks(nodes: seq<Node>, links: seq<Link>)
    requires Owned(nodes, links)
    ensures var r := LinkDepths(nodes, links);
      && |r.1| == |links| && Owned(r.0, links)
      && (forall k :: 0 <= k < |links| ==> r.1[k] == Stacked(r.0, links, k))
      && LinkDys(r.1) == LinkDys(links) && Owned(r.0, r.1)
  {
    var r := LinkDepths(nodes, links);
    SortAdjacencyOwned(nodes, links);
    forall k | 0 <= k < |links|
      ensures r.1[k] == Stacked(r.0, links, k)
    {
      LinkDepthsAt(nodes, links, k);
    }
    SameEndpoints(r.0, links, r.1);
  }

  /** Links that differ only in their offsets are owned alike and have the
      same thicknesses. */
  lemma SameEndpoints(nodes: seq<Node>, links: seq<Link>, links': seq<Link>)
    requires Owned(nodes, links) && |links'| == |links|
    requires forall k :: 0 <= k < |links| ==> links'[k] == links[k].(sy := links'[k].sy, ty := links'[k].ty)
    ensures Owned(nodes, links') && LinkDys(links') == LinkDys(links)
  {
  }

  /** Sorting lists that are already sorted by unchanged tops keeps them. */
  lemma ResortKeeps(nodes: seq<Node>, links: seq<Link>, links': seq<Link>)
    requires Owned(nodes, links) && |links'| == |links|
    requires forall k :: 0 <= k < |links| ==> links'[k].source == links[k].source && links'[k].target == links[k].target
    ensures var sorted := SortAdjacency(nodes, links);
      Owned(sorted, links') && SortAdjacency(sorted, links') == sorted
  {
    var sorted := SortAdjacency(nodes, links);
    SortAdjacencyOwned(nodes, links);
    assert TargetTops(sorted, links') == TargetTops(nodes, links);
    assert SourceTops(sorted, links') == SourceTops(nodes, links);
    forall v | 0 <= v < |nodes|
      ensures SortAdjacency(sorted, links')[v] == sorted[v]
    {
      SortBySorted(TargetTops(nodes, links), nodes[v].sourceLinks);
      SortBySorted(SourceTops(nodes, links), nodes[v].targetLinks);
      SortByOfSorted(TargetTops(nodes, links), sorted[v].sourceLinks);
      SortByOfSorted(SourceTops(nodes, links), sorted[v].targetLinks);
    }
  }

  /** `relayout` with no node moved in between changes nothing: running
      `computeLinkDepths` on its own output gives that output back. */
  lemma LinkDepthsIdempotent(nodes: seq<Node>, links: seq<Link>)
    requires Owned(nodes, links)
    ensures var r := LinkDepths(nodes, links);
      ValidLinks(|r.0|, r.1) && ListsInRange(r.0, |r.1|) && LinkDepths(r.0, r.1) == r
  {
    var r := LinkDepths(nodes, links);
    var sorted, stacked := r.0, r.1;
    StackedLinks(nodes, links);
    ResortKeeps(nodes, links, stacked);
    assert SortAdjacency(sorted, stacked) == sorted;
    forall k | 0 <= k < |links|
      ensures StackFrom(sorted, stacked, 0)[k] == stacked[k]
    {
      StackFromAt(sorted, stacked, 0, k);
      assert stacked[k] == Stacked(sorted, links, k);
    }
    assert StackFrom(sorted, stacked, 0) == stacked;
  }

  /** The lists `computeLinkDepths` leaves are sorted by the tops of the
      nodes it leaves. */
  lemma SortedByFinalTops(nodes: seq<Node>, links: seq<Link>, v: nat)
    requires Owned(nodes, links) && v < |nodes|
    ensures var r := LinkDepths(nodes, links);
      && Owned(r.0, r.1)
      && SortedBy(TargetTops(r.0, r.1), r.0[v].sourceLinks)
      && SortedBy(SourceTops(r.0, r.1), r.0[v].targetLinks)
  {
    var r := LinkDepths(nodes, links);
    StackedLinks(nodes, links);
    SortAdjacencyOwned(nodes, links);
    LinkDepthsSorted(nodes, links, v);
    TopsKept(nodes, links, r.0, r.1);
  }

  /** Sorting the lists and stacking the links leave the sort keys as
      they were. */
  lemma TopsKept(nodes: seq<Node>, links: seq<Link>, nodes': seq<Node>, links': seq<Link>)
    requires ValidLinks(|nodes|, links) && |nodes'| == |nodes| && |links'| == |links|
    requires forall v :: 0 <= v < |nodes| ==> nodes'[v].y == nodes[v].y
    requires forall k :: 0 <= k < |links| ==> links'[k].source == links[k].source && links'[k].target == links[k].target
    ensures ValidLinks(|nodes'|, links')
    ensures TargetTops(nodes', links') == TargetTops(nodes, links)
    ensures SourceTops(nodes', links') == SourceTops(nodes, links)
  {
  }

  /** With thicknesses `value * ky` for a non-negative `ky` and node values
      as the value calculator sets them, the links on each side of a node
      take no more than the node's height and the heavier side takes all of
      it. */
  lemma SideTotals(nodes: seq<Node>, links: seq<Link>, ky: real, v: nat)
    requires ListsInRange(nodes, |links|) && v < |nodes| && ky >= 0.0
    requires forall j :: 0 <= j < |links| ==> links[j].dy == links[j].value * ky
    requires nodes[v].value == NodeValue(links, nodes[v]) && nodes[v].dy == nodes[v].value * ky
    ensures var outs, ins := nodes[v].sourceLinks, nodes[v].targetLinks;
      && SumAt(LinkDys(links), outs) <= nodes[v].dy
      && SumAt(LinkDys(links), ins) <= nodes[v].dy
      && (SumAt(LinkDys(links), outs) == nodes[v].dy || SumAt(LinkDys(links), ins) == nodes[v].dy)
  {
    var outs, ins := nodes[v].sourceLinks, nodes[v].targetLinks;
    SideScaled(links, outs, ky);
    SideScaled(links, ins, ky);
    NodeValueBounds(links, nodes[v]);
    ScaledSides(SumAt(Values(links), outs), SumAt(Values(links), ins), nodes[v].value, ky,
                SumAt(LinkDys(links), outs), SumAt(LinkDys(links), ins), nodes[v].dy);
  }

  /** A list's total thickness is its total value scaled. */
  lemma SideScaled(links: seq<Link>, js: seq<nat>, ky: real)
    requires InRange(js, |links|)
    requires forall j :: 0 <= j < |links| ==> links[j].dy == links[j].value * ky
    ensures SumAt(LinkDys(links), js) == SumAt(Values(links), js) * ky
  {
    SumAtScaled(Values(links), LinkDys(links), ky, js);
  }

  /** Scaling by a non-negative factor keeps the larger of two sides the
      larger, and the scaled maximum one of the scaled sides. */
  lemma ScaledSides(a: real, b: real, m: real, k: real, ak: real, bk: real, mk: real)
    requires a <= m && b <= m && (m == a || m == b) && k >= 0.0
    requires ak == a * k && bk == b * k && mk == m * k
    ensures ak <= mk && bk <= mk && (ak == mk || bk == mk)
  {
    ScaleMonotone(a, m, k);
    ScaleMonotone(b, m, k);
  }

  lemma ScaleMonotone(a: real, b: real, k: real)
    requires a <= b && k >= 0.0
    ensures a * k <= b * k
  {
    assert b * k - a * k == (b - a) * k;
  }
}
