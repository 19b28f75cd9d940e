/** What `computeNodeLinks` and `computeNodeValues` produce: each node's
    outgoing and incoming link lists, and its value. */
module Linker {
  import opened Seqs
  import opened Graph

  /** The links leaving node v, in link-array order. */
  function LinksFrom(links: seq<Link>, v: nat): seq<nat> {
    IndicesOf(Sources(links), v, |links|)
  }

  /** The links entering node v, in link-array order. */
  function LinksInto(links: seq<Link>, v: nat): seq<nat> {
    IndicesOf(Targets(links), v, |links|)
  }

  /** `computeNodeLinks`: every node's lists rebuilt from the link array. */
  function LinkNodes(nodes: seq<Node>, links: seq<Link>): (r: seq<Node>)
    ensures |r| == |nodes|
  {
    seq(|nodes|, v requires 0 <= v < |nodes| =>
      nodes[v].(sourceLinks := LinksFrom(links, v), targetLinks := LinksInto(links, v)))
  }

  /** The linker's state after its first j links: each node holds the
      links among them that leave and enter it, and nothing else of
      `start` has changed. */
  ghost predicate LinkedUpTo(ns: seq<Node>, start: seq<Node>, links: seq<Link>, j: nat) {
    && |ns| == |start| && j <= |links| && ValidLinks(|start|, links)
    && forall u :: 0 <= u < |ns| ==>
         ns[u] == start[u].(sourceLinks := IndicesOf(Sources(links), u, j),
                            targetLinks := IndicesOf(Targets(links), u, j))
  }

  /** Every node holds exactly the adjacency lists the linker builds. */
  predicate Linked(nodes: seq<Node>, links: seq<Link>) {
    forall v :: 0 <= v < |nodes| ==>
      nodes[v].sourceLinks == LinksFrom(links, v) && nodes[v].targetLinks == LinksInto(links, v)
  }

  /** Link j is in node v's outgoing list exactly when v is its source, it
      appears there once, and the list keeps link-array order. */
  lemma LinksFromExactlyOnce(links: seq<Link>, v: nat, j: nat)
    ensures j in LinksFrom(links, v) <==> j < |links| && links[j].source == v
    ensures Increasing(LinksFrom(links, v)) && InRange(LinksFrom(links, v), |links|)
  {
    if j < |links| && links[j].source == v {
      IndicesOfComplete(Sources(links), v, |links|, j);
    }
    IndicesOfIncreasing(Sources(links), v, |links|);
  }

  /** Link j is in node v's incoming list exactly when v is its target, once,
      in link-array order. */
  lemma LinksIntoExactlyOnce(links: seq<Link>, v: nat, j: nat)
    ensures j in LinksInto(links, v) <==> j < |links| && links[j].target == v
    ensures Increasing(LinksInto(links, v)) && InRange(LinksInto(links, v), |links|)
  {
    if j < |links| && links[j].target == v {
      IndicesOfComplete(Targets(links), v, |links|, j);
    }
    IndicesOfIncreasing(Targets(links), v, |links|);
  }

  function Max(a: real, b: real): real {
    if a >= b then a else b
  }

  /** A node's value: the larger of the sums over its outgoing and its
      incoming links. */
  function NodeValue(links: seq<Link>, node: Node): real
    requires InRange(node.sourceLinks, |links|) && InRange(node.targetLinks, |links|)
  {
    Max(SumAt(Values(links), node.sourceLinks), SumAt(Values(links), node.targetLinks))
  }

  /** The value covers both sides and is one of them; a node without links
      has value 0; non-negative flows give a non-negative value. */
  lemma NodeValueBounds(links: seq<Link>, node: Node)
    requires InRange(node.sourceLinks, |links|) && InRange(node.targetLinks, |links|)
    ensures NodeValue(links, node) >= SumAt(Values(links), node.sourceLinks)
    ensures NodeValue(links, node) >= SumAt(Values(links), node.targetLinks)
    ensures NodeValue(links, node) == SumAt(Values(links), node.sourceLinks)
         || NodeValue(links, node) == SumAt(Values(links), node.targetLinks)
    ensures node.sourceLinks == [] && node.targetLinks == [] ==> NodeValue(links, node) == 0.0
    ensures (forall j :: 0 <= j < |links| ==> links[j].value >= 0.0) ==> NodeValue(links, node) >= 0.0
  {
    if forall j :: 0 <= j < |links| ==> links[j].value >= 0.0 {
      SumAtNonNegative(Values(links), node.sourceLinks);
    }
  }

  /** `computeNodeValues`: every node's value set from its lists. */
  function ValueNodes(nodes: seq<Node>, links: seq<Link>): (r: seq<Node>)
    requires forall v :: 0 <= v < |nodes| ==> InRange(nodes[v].sourceLinks, |links|) && InRange(nodes[v].targetLinks, |links|)
    ensures |r| == |nodes|
  {
    seq(|nodes|, v requires 0 <= v < |nodes| => nodes[v].(value := NodeValue(links, nodes[v])))
  }

  /** The sum, over nodes v < n, of the `vals` entries at the positions j < k
      whose key is v. */
  function GroupTotal(keys: seq<nat>, vals: seq<real>, k: nat, n: nat): real
    requires k <= |keys| && k <= |vals|
  {
    if n == 0 then 0.0
    else GroupTotal(keys, vals, k, n - 1) + SumAt(vals, IndicesOf(keys, n - 1, k))
  }

  lemma {:induction false} GroupTotalStep(keys: seq<nat>, vals: seq<real>, k: nat, n: nat)
    requires 0 < k <= |keys| && k <= |vals|
    ensures GroupTotal(keys, vals, k, n)
         == GroupTotal(keys, vals, k - 1, n) + (if keys[k - 1] < n then vals[k - 1] else 0.0)
  {
    if n > 0 {
      GroupTotalStep(keys, vals, k, n - 1);
      var prev := IndicesOf(keys, n - 1, k - 1);
      var cur := IndicesOf(keys, n - 1, k);
      assert GroupTotal(keys, vals, k, n) == GroupTotal(keys, vals, k, n - 1) + SumAt(vals, cur);
      assert GroupTotal(keys, vals, k - 1, n) == GroupTotal(keys, vals, k - 1, n - 1) + SumAt(vals, prev);
      if keys[k - 1] == n - 1 {
        assert cur == prev + [k - 1];
        SumAtSnoc(vals, prev, k - 1);
      } else {
        assert cur == prev;
      }
    }
  }

  /** Grouping positions by key loses and repeats nothing: the groups' sums
      add up to the sum over all positions. */
  lemma {:induction false} GroupTotalIsTotal(keys: seq<nat>, vals: seq<real>, k: nat, n: nat)
    requires k <= |keys| && k <= |vals|
    requires forall j :: 0 <= j < k ==> keys[j] < n
    ensures GroupTotal(keys, vals, k, n) == SumAt(vals, Range(k))
  {
    if k == 0 {
      assert GroupTotal(keys, vals, 0, n) == 0.0 by {
        GroupTotalEmpty(keys, vals, n);
      }
    } else {
      GroupTotalIsTotal(keys, vals, k - 1, n);
      GroupTotalStep(keys, vals, k, n);
      SumAtSnoc(vals, Range(k - 1), k - 1);
    }
  }

  lemma {:induction false} GroupTotalEmpty(keys: seq<nat>, vals: seq<real>, n: nat)
    ensures GroupTotal(keys, vals, 0, n) == 0.0
  {
    if n > 0 {
      GroupTotalEmpty(keys, vals, n - 1);
    }
  }

  /** Every link is counted once on the outgoing side and once on the
      incoming side: summed over all nodes, the outgoing sums and the
      incoming sums both equal the total link value. */
  lemma FlowIsCountedOnce(links: seq<Link>, n: nat)
    requires ValidLinks(n, links)
    ensures GroupTotal(Sources(links), Values(links), |links|, n) == SumAt(Values(links), Range(|links|))
    ensures GroupTotal(Targets(links), Values(links), |links|, n) == SumAt(Values(links), Range(|links|))
  {
    GroupTotalIsTotal(Sources(links), Values(links), |links|, n);
    GroupTotalIsTotal(Targets(links), Values(links), |links|, n);
  }
}
