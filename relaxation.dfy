/** The relaxation passes of `computeNodeDepths`: each node with links on
    the relevant side moves its centre a fraction `alpha` of the way towards
    the value-weighted mean centre of the nodes at the other ends of those
    links. Nodes are visited one after the other, so a node sees the moves
    already made in the same pass. */
module Relaxation {
  import opened Seqs
  import opened Graph

  /** The arenas a pass can run on: links and link lists point into the
      arenas, and a node with links on a side has a positive total on that
      side, which the weighted mean divides by. */
  predicate Weighted(nodes: seq<Node>, links: seq<Link>) {
    && ValidLinks(|nodes|, links)
    && forall v :: 0 <= v < |nodes| ==>
      && InRange(nodes[v].sourceLinks, |links|) && InRange(nodes[v].targetLinks, |links|)
      && (nodes[v].sourceLinks != [] ==> SumAt(Values(links), nodes[v].sourceLinks) > 0.0)
      && (nodes[v].targetLinks != [] ==> SumAt(Values(links), nodes[v].targetLinks) > 0.0)
  }

  /** Moving nodes up or down keeps an arena fit for relaxation. */
  lemma WeightedIgnoresTops(a: seq<Node>, b: seq<Node>, links: seq<Link>)
    requires Weighted(a, links) && OnlyTopsDiffer(a, b)
    ensures Weighted(b, links)
  {
    assert forall v :: 0 <= v < |b| ==> b[v].sourceLinks == a[v].sourceLinks && b[v].targetLinks == a[v].targetLinks;
  }

  /** The node a link pulls towards: its target in the right-to-left pass
      (`weightedTarget`), its source in the left-to-right pass
      (`weightedSource`). */
  function Other(links: seq<Link>, j: nat, toTargets: bool): nat
    requires j < |links|
  {
    if toTargets then links[j].target else links[j].source
  }

  /** For every link, the centre of the node it pulls towards. */
  function Centers(nodes: seq<Node>, links: seq<Link>, toTargets: bool): (r: seq<real>)
    requires ValidLinks(|nodes|, links)
    ensures |r| == |links|
  {
    seq(|links|, j requires 0 <= j < |links| => Center(nodes[Other(links, j, toTargets)]))
  }

  /** For every link, the centre of the node it pulls towards times its
      value (`weightedTarget`, `weightedSource`). */
  function Pulls(nodes: seq<Node>, links: seq<Link>, toTargets: bool): (r: seq<real>)
    requires ValidLinks(|nodes|, links)
    ensures |r| == |links|
  {
    Weighed(Centers(nodes, links, toTargets), Values(links))
  }

  /** The links a node is relaxed along: its outgoing links when pulled
      towards targets, its incoming links otherwise. */
  function Side(node: Node, toTargets: bool): seq<nat> {
    if toTargets then node.sourceLinks else node.targetLinks
  }

  /** The value-weighted mean centre of the nodes node v is pulled towards. */
  function Mean(nodes: seq<Node>, links: seq<Link>, v: nat, toTargets: bool): real
    requires Weighted(nodes, links) && v < |nodes| && Side(nodes[v], toTargets) != []
  {
    SumAt(Pulls(nodes, links, toTargets), Side(nodes[v], toTargets)) / SumAt(Values(links), Side(nodes[v], toTargets))
  }

  /** A node moved so that its centre goes a fraction `alpha` of the way
      to `target`: `node.y += (target - center(node)) * alpha`. */
  function Step(node: Node, target: real, alpha: real): Node {
    node.(y := node.y + (target - Center(node)) * alpha)
  }

  /** The step closes the gap between centre and target by the factor
      `1 - alpha`; with `alpha == 1` the centre lands on the target. */
  lemma StepCloses(node: Node, target: real, alpha: real)
    ensures target - Center(Step(node, target, alpha)) == (1.0 - alpha) * (target - Center(node))
    ensures alpha == 1.0 ==> Center(Step(node, target, alpha)) == target
    ensures Step(node, target, alpha).dy == node.dy
  {
    var gap := target - Center(node);
    assert Center(Step(node, target, alpha)) == Center(node) + gap * alpha;
    Damped(gap, alpha);
  }

  /** One node's step, taken only when it has links on the relevant side. */
  function RelaxNode(nodes: seq<Node>, links: seq<Link>, v: nat, alpha: real, toTargets: bool): (r: seq<Node>)
    requires Weighted(nodes, links) && v < |nodes|
    ensures OnlyTopsDiffer(nodes, r)
  {
    if Side(nodes[v], toTargets) == [] then nodes
    else
      nodes[v := Step(nodes[v], Mean(nodes, links, v, toTargets), alpha)]
  }

  /** A pass: the nodes of `order` relaxed one after the other. */
  function RelaxAll(nodes: seq<Node>, links: seq<Link>, order: seq<nat>, alpha: real, toTargets: bool): (r: seq<Node>)
    requires Weighted(nodes, links) && InRange(order, |nodes|)
    ensures OnlyTopsDiffer(nodes, r)
    ensures forall v :: 0 <= v < |nodes| && v !in order ==> r[v] == nodes[v]
  {
    if order == [] then nodes
    else
      var prev := RelaxAll(nodes, links, order[..|order| - 1], alpha, toTargets);
      WeightedIgnoresTops(nodes, prev, links);
      RelaxNode(prev, links, order[|order| - 1], alpha, toTargets)
  }

  /** A pass over one more node is the pass so far followed by that node's
      step: each node sees the moves made before it. */
  lemma RelaxAllSnoc(nodes: seq<Node>, links: seq<Link>, order: seq<nat>, v: nat, alpha: real, toTargets: bool)
    requires Weighted(nodes, links) && InRange(order, |nodes|) && v < |nodes|
    ensures InRange(order + [v], |nodes|)
    ensures Weighted(RelaxAll(nodes, links, order, alpha, toTargets), links)
    ensures RelaxAll(nodes, links, order + [v], alpha, toTargets)
         == RelaxNode(RelaxAll(nodes, links, order, alpha, toTargets), links, v, alpha, toTargets)
  {
    assert (order + [v])[..|order|] == order;
    WeightedIgnoresTops(nodes, RelaxAll(nodes, links, order, alpha, toTargets), links);
  }

  /** `relaxRightToLeft`'s order: the columns from the last back to column
      c, each in its own order. */
  function RightToLeft(cols: seq<seq<nat>>, c: nat): seq<nat>
    requires c <= |cols|
    decreases |cols| - c
  {
    if c == |cols| then [] else RightToLeft(cols, c + 1) + cols[c]
  }

  /** `relaxLeftToRight`'s order: the first c columns from the first on. */
  function LeftToRight(cols: seq<seq<nat>>, c: nat): seq<nat>
    requires c <= |cols|
  {
    if c == 0 then [] else LeftToRight(cols, c - 1) + cols[c - 1]
  }

  lemma LeftToRightStep(cols: seq<seq<nat>>, c: nat)
    requires c < |cols|
    ensures LeftToRight(cols, c + 1) == LeftToRight(cols, c) + cols[c]
  {
  }

  /** Relaxing node v moves no other node and keeps v's height. Without
      links on the relaxed side v stays where it is. Otherwise its centre
      closes the gap to `m`, the value-weighted mean of its neighbours'
      centres, by the factor `1 - alpha`; with non-negative link values `m`
      lies between the lowest and the highest of those centres. */
  lemma RelaxNodeApproachesMean(nodes: seq<Node>, links: seq<Link>, v: nat, alpha: real, toTargets: bool, lo: real, hi: real)
    requires Weighted(nodes, links) && v < |nodes|
    ensures var r := RelaxNode(nodes, links, v, alpha, toTargets);
      && (forall u :: 0 <= u < |nodes| && u != v ==> r[u] == nodes[u])
      && r[v].dy == nodes[v].dy
      && (Side(nodes[v], toTargets) == [] ==> r[v] == nodes[v])
      && (Side(nodes[v], toTargets) != [] ==>
            var m := Mean(nodes, links, v, toTargets);
            && m - Center(r[v]) == (1.0 - alpha) * (m - Center(nodes[v]))
            && ((forall j :: 0 <= j < |links| ==> links[j].value >= 0.0)
                && (forall j :: j in Side(nodes[v], toTargets) ==> lo <= Center(nodes[Other(links, j, toTargets)]) <= hi)
                ==> lo <= m <= hi))
  {
    if Side(nodes[v], toTargets) != [] {
      var m := Mean(nodes, links, v, toTargets);
      StepCloses(nodes[v], m, alpha);
      if (forall j :: 0 <= j < |links| ==> links[j].value >= 0.0)
         && (forall j :: j in Side(nodes[v], toTargets) ==> lo <= Center(nodes[Other(links, j, toTargets)]) <= hi)
      {
        MeanBetween(nodes, links, v, toTargets, lo, hi);
      }
    }
  }

  lemma Damped(gap: real, alpha: real)
    ensures gap - gap * alpha == (1.0 - alpha) * gap
    ensures alpha == 1.0 ==> gap * alpha == gap
  {
  }

  lemma WeighMonotone(c: real, bound: real, w: real)
    requires c <= bound && w >= 0.0
    ensures c * w <= bound * w
  {
    assert bound * w - c * w == (bound - c) * w;
  }

  /** A quotient of a sum spanned by [lo, hi] over a positive total lies in
      [lo, hi]. */
  lemma QuotientBetween(p: real, t: real, lo: real, hi: real)
    requires t > 0.0 && Spans(t, p, lo, hi)
    ensures lo <= p / t <= hi
  {
    assert (p / t) * t == p;
    if p / t < lo {
      WeighMonotone(p / t, lo, t);
    }
    if p / t > hi {
      WeighMonotone(hi, p / t, t);
    }
  }

  /** With non-negative link values, the mean a node is pulled towards lies
      between the lowest and the highest centre among its neighbours. */
  lemma MeanBetween(nodes: seq<Node>, links: seq<Link>, v: nat, toTargets: bool, lo: real, hi: real)
    requires Weighted(nodes, links) && v < |nodes| && Side(nodes[v], toTargets) != []
    requires forall j :: 0 <= j < |links| ==> links[j].value >= 0.0
    requires forall j :: j in Side(nodes[v], toTargets) ==> lo <= Center(nodes[Other(links, j, toTargets)]) <= hi
    ensures lo <= Mean(nodes, links, v, toTargets) <= hi
  {
    var ls := Side(nodes[v], toTargets);
    var cs := Centers(nodes, links, toTargets);
    assert InRange(ls, |links|);
    forall i | 0 <= i < |ls|
      ensures Values(links)[ls[i]] >= 0.0 && lo <= cs[ls[i]] <= hi
    {
      assert ls[i] in ls;
    }
    WeighedBetween(cs, Values(links), ls, lo, hi);
    QuotientBetween(SumAt(Pulls(nodes, links, toTargets), ls), SumAt(Values(links), ls), lo, hi);
  }
}
