/** What `computeNodeBreadths`, `moveSinksRight` and `scaleNodeBreadths`
    compute. The breadth loop keeps a frontier list: it starts as every node,
    gives each node in it the current layer index, and moves on to the targets
    of all links leaving the frontier (duplicates included). A node's layer is
    the last step at which it was in the frontier. */
module Layering {
  import opened Seqs
  import opened Graph
  import opened Linker
  import opened Columns

  /** The targets of the listed links, in list order. */
  function TargetsOf(links: seq<Link>, js: seq<nat>): (r: seq<nat>)
    requires InRange(js, |links|)
    ensures |r| == |js|
  {
    if js == [] then [] else TargetsOf(links, js[..|js| - 1]) + [links[js[|js| - 1]].target]
  }

  /** The next frontier: for each node of `f` in turn, the targets of the
      links leaving it. */
  function Advance(links: seq<Link>, f: seq<nat>): seq<nat> {
    if f == [] then [] else Advance(links, f[..|f| - 1]) + TargetsOf(links, LinksFrom(links, f[|f| - 1]))
  }

  /** The frontier after k steps of the breadth loop. */
  function Frontier(links: seq<Link>, n: nat, k: nat): seq<nat> {
    if k == 0 then Range(n) else Advance(links, Frontier(links, n, k - 1))
  }

  /** The nodes in the frontier after k steps, as a set: all nodes at
      first, then the targets of the links leaving the previous set. */
  function Reach(links: seq<Link>, n: nat, k: nat): set<nat> {
    if k == 0 then set v | v in Range(n)
    else set j | 0 <= j < |links| && links[j].source in Reach(links, n, k - 1) :: links[j].target
  }

  /** The frontier sets of the first `steps` steps. */
  function Reaches(links: seq<Link>, n: nat, steps: nat): (r: seq<set<nat>>)
    ensures |r| == steps
    ensures forall k :: 0 <= k < steps ==> r[k] == Reach(links, n, k)
  {
    seq(steps, k requires 0 <= k < steps => Reach(links, n, k))
  }

  /** The last of the first `steps` sets that holds v; 0 when none does. */
  function LastIn(fs: seq<set<nat>>, v: nat, steps: nat): nat
    requires steps <= |fs|
  {
    if steps == 0 then 0
    else if v in fs[steps - 1] then steps - 1
    else LastIn(fs, v, steps - 1)
  }

  /** The last step before `steps` at which v was in the frontier: the layer
      the loop leaves on v after `steps` steps, since every step overwrites
      the layer of the nodes in its frontier. */
  function LastLayer(links: seq<Link>, n: nat, v: nat, steps: nat): nat {
    LastIn(Reaches(links, n, steps), v, steps)
  }

  /** Some walk of exactly k links ends at node v. */
  ghost predicate HasWalk(links: seq<Link>, n: nat, v: nat, k: nat)
    decreases k
  {
    if k == 0 then v < n
    else exists j :: 0 <= j < |links| && links[j].target == v && HasWalk(links, n, links[j].source, k - 1)
  }

  /** The column of a node once `moveSinksRight` has run: a node with no
      outgoing link goes to the last column. */
  function FinalBreadth(links: seq<Link>, n: nat, v: nat, steps: nat): nat {
    if LinksFrom(links, v) == [] && steps > 0 then steps - 1 else LastLayer(links, n, v, steps)
  }

  /** The horizontal scale `(width - nodeWidth) / (x - 1)`; None where the
      division is by zero (a single layer), which the original turns into NaN. */
  function ColumnScale(width: real, nodeWidth: real, steps: nat): Option<real> {
    if steps == 1 then None else Some((width - nodeWidth) / (steps as real - 1.0))
  }

  /** A topological numbering: every link goes to a strictly higher rank.
      Such a numbering exists exactly when the graph has no cycle. */
  predicate Ranked(links: seq<Link>, n: nat, rank: seq<nat>) {
    |rank| == n && ValidLinks(n, links)
    && forall j :: 0 <= j < |links| ==> rank[links[j].source] < rank[links[j].target]
  }

  lemma {:induction false} TargetsOfMember(links: seq<Link>, js: seq<nat>, v: nat)
    requires InRange(js, |links|)
    ensures v in TargetsOf(links, js) <==> exists i :: 0 <= i < |js| && links[js[i]].target == v
  {
    if js != [] {
      var last := |js| - 1;
      TargetsOfMember(links, js[..last], v);
      if exists i :: 0 <= i < |js| && links[js[i]].target == v {
        var i :| 0 <= i < |js| && links[js[i]].target == v;
        if i < last {
          assert js[..last][i] == js[i];
        }
      }
      if v in TargetsOf(links, js[..last]) {
        var i :| 0 <= i < last && links[js[..last][i]].target == v;
        assert js[i] == js[..last][i];
      }
    }
  }

  /** v enters the next frontier exactly when some link from the current
      frontier ends at v. */
  lemma AdvanceMember(links: seq<Link>, f: seq<nat>, v: nat)
    ensures v in Advance(links, f)
        <==> exists j :: 0 <= j < |links| && links[j].source in f && links[j].target == v
  {
    if v in Advance(links, f) {
      AdvanceSound(links, f, v);
    }
    if exists j :: 0 <= j < |links| && links[j].source in f && links[j].target == v {
      var j :| 0 <= j < |links| && links[j].source in f && links[j].target == v;
      AdvanceComplete(links, f, j);
    }
  }

  lemma {:induction false} AdvanceSound(links: seq<Link>, f: seq<nat>, v: nat)
    requires v in Advance(links, f)
    ensures exists j :: 0 <= j < |links| && links[j].source in f && links[j].target == v
  {
    var last := |f| - 1;
    var u := f[last];
    var out := LinksFrom(links, u);
    assert f == f[..last] + [u];
    if v in Advance(links, f[..last]) {
      AdvanceSound(links, f[..last], v);
      var j :| 0 <= j < |links| && links[j].source in f[..last] && links[j].target == v;
      assert links[j].source in f;
    } else {
      assert v in TargetsOf(links, out);
      TargetsOfMember(links, out, v);
      var i :| 0 <= i < |out| && links[out[i]].target == v;
      LinksFromExactlyOnce(links, u, out[i]);
    }
  }

  lemma {:induction false} AdvanceComplete(links: seq<Link>, f: seq<nat>, j: nat)
    requires j < |links| && links[j].source in f
    ensures links[j].target in Advance(links, f)
  {
    var last := |f| - 1;
    var u := f[last];
    var out := LinksFrom(links, u);
    assert f == f[..last] + [u];
    if links[j].source in f[..last] {
      AdvanceComplete(links, f[..last], j);
    } else {
      LinksFromExactlyOnce(links, u, j);
      var i :| 0 <= i < |out| && out[i] == j;
      TargetsOfMember(links, out, links[j].target);
    }
  }

  /** v is in the frontier list after k steps exactly when it is in the
      frontier set. */
  predicate SameMember(links: seq<Link>, n: nat, k: nat, v: nat) {
    v in Frontier(links, n, k) <==> v in Reach(links, n, k)
  }

  /** The frontier list and the frontier set hold the same nodes. The
      postconditions are stated as `SameMember` atoms so that the induction
      matches them without unfolding the frontiers. */
  lemma {:induction false} FrontierReach(links: seq<Link>, n: nat, k: nat, v: nat)
    ensures SameMember(links, n, k, v) == true
  {
    if k > 0 {
      forall j | 0 <= j < |links|
        ensures SameMember(links, n, k - 1, links[j].source) == true
      {
        FrontierReach(links, n, k - 1, links[j].source);
      }
      FrontierReachStep(links, n, k, v);
    }
  }

  /** The inductive step of `FrontierReach`. */
  lemma FrontierReachStep(links: seq<Link>, n: nat, k: nat, v: nat)
    requires k > 0
    requires forall j :: 0 <= j < |links| ==> SameMember(links, n, k - 1, links[j].source)
    ensures SameMember(links, n, k, v) == true
  {
    AdvanceMember(links, Frontier(links, n, k - 1), v);
  }

  /** The frontier list is empty exactly when the frontier set is. */
  lemma FrontierEmpty(links: seq<Link>, n: nat, k: nat)
    ensures Frontier(links, n, k) == [] <==> Reach(links, n, k) == {}
  {
    if Frontier(links, n, k) != [] {
      FrontierReach(links, n, k, Frontier(links, n, k)[0]);
    }
    if Reach(links, n, k) != {} {
      var v :| v in Reach(links, n, k);
      FrontierReach(links, n, k, v);
    }
  }

  /** Every frontier names nodes of the arena. */
  lemma {:induction false} FrontierInRange(links: seq<Link>, n: nat, k: nat)
    requires ValidLinks(n, links)
    ensures InRange(Frontier(links, n, k), n)
  {
    forall i | 0 <= i < |Frontier(links, n, k)|
      ensures Frontier(links, n, k)[i] < n
    {
      var v := Frontier(links, n, k)[i];
      FrontierReach(links, n, k, v);
    }
  }

  /** v is in the frontier after k steps exactly when some walk of k links
      ends at v. */
  lemma {:induction false} ReachIsWalks(links: seq<Link>, n: nat, k: nat, v: nat)
    ensures v in Reach(links, n, k) <==> HasWalk(links, n, v, k)
  {
    if k == 0 {
      if v < n {
        assert Range(n)[v] == v;
      }
    } else {
      forall j | 0 <= j < |links|
        ensures links[j].source in Reach(links, n, k - 1) <==> HasWalk(links, n, links[j].source, k - 1)
      {
        ReachIsWalks(links, n, k - 1, links[j].source);
      }
    }
  }

  lemma {:induction false} ReachStaysEmpty(links: seq<Link>, n: nat, k: nat, m: nat)
    requires Reach(links, n, k) == {} && k <= m
    ensures Reach(links, n, m) == {}
    decreases m - k
  {
    if k < m {
      ReachStaysEmpty(links, n, k + 1, m);
    }
  }

  lemma {:induction false} LastInIsLast(fs: seq<set<nat>>, v: nat, steps: nat)
    requires 0 < steps <= |fs| && v in fs[0]
    ensures LastIn(fs, v, steps) < steps && v in fs[LastIn(fs, v, steps)]
    ensures forall k :: LastIn(fs, v, steps) < k < steps ==> v !in fs[k]
  {
    if v !in fs[steps - 1] {
      LastInIsLast(fs, v, steps - 1);
    }
  }

  lemma {:induction false} LastInZero(fs: seq<set<nat>>, v: nat, steps: nat)
    requires steps <= |fs|
    requires forall k :: 0 < k < steps ==> v !in fs[k]
    ensures LastIn(fs, v, steps) == 0
  {
    if steps > 1 {
      LastInZero(fs, v, steps - 1);
    }
  }

  lemma LastLayerIsLast(links: seq<Link>, n: nat, v: nat, steps: nat)
    requires v < n && steps > 0
    ensures LastLayer(links, n, v, steps) < steps
    ensures v in Reach(links, n, LastLayer(links, n, v, steps))
    ensures forall k :: LastLayer(links, n, v, steps) < k < steps ==> v !in Reach(links, n, k)
  {
    var fs := Reaches(links, n, steps);
    assert Range(n)[v] == v;
    LastInIsLast(fs, v, steps);
  }

  /** When the loop stops after `steps` steps, the layer it leaves on a node
      is the length of the longest walk ending there. */
  lemma LayerIsLongestWalk(links: seq<Link>, n: nat, steps: nat, v: nat)
    requires v < n && steps > 0
    requires Frontier(links, n, steps) == []
    ensures HasWalk(links, n, v, LastLayer(links, n, v, steps))
    ensures forall k: nat :: HasWalk(links, n, v, k) ==> k <= LastLayer(links, n, v, steps)
  {
    FrontierEmpty(links, n, steps);
    LastLayerIsLast(links, n, v, steps);
    ReachIsWalks(links, n, LastLayer(links, n, v, steps), v);
    forall k: nat | HasWalk(links, n, v, k)
      ensures k <= LastLayer(links, n, v, steps)
    {
      ReachIsWalks(links, n, k, v);
      if k >= steps {
        ReachStaysEmpty(links, n, steps, k);
      }
    }
  }

  /** The counter the loop ends with is one more than the longest walk in
      the graph. */
  lemma LayerCountIsLongestWalkPlusOne(links: seq<Link>, n: nat, steps: nat)
    requires n > 0
    requires Frontier(links, n, steps) == []
    requires forall k :: 0 <= k < steps ==> Frontier(links, n, k) != []
    ensures steps > 0
    ensures exists v: nat, k: nat :: k + 1 == steps && HasWalk(links, n, v, k)
    ensures forall v: nat, k: nat :: HasWalk(links, n, v, k) ==> k < steps
  {
    assert |Frontier(links, n, 0)| == n;
    var last: nat := steps - 1;
    FrontierEmpty(links, n, last);
    FrontierEmpty(links, n, steps);
    var v :| v in Reach(links, n, last);
    ReachIsWalks(links, n, last, v);
    forall v: nat, k: nat | HasWalk(links, n, v, k)
      ensures k < steps
    {
      ReachIsWalks(links, n, k, v);
      if k >= steps {
        ReachStaysEmpty(links, n, steps, k);
      }
    }
  }

  /** A node that no link enters is in no frontier but the first: its layer
      stays 0. */
  lemma SourceNodeLayerZero(links: seq<Link>, n: nat, v: nat, steps: nat)
    requires forall j :: 0 <= j < |links| ==> links[j].target != v
    ensures LastLayer(links, n, v, steps) == 0
  {
    LastInZero(Reaches(links, n, steps), v, steps);
  }

  /** On a graph with a cycle the frontier never empties, so the breadth
      loop never ends. `cycle` lists the links of a closed walk. */
  lemma {:induction false} CycleKeepsFrontier(links: seq<Link>, n: nat, cycle: seq<nat>, k: nat)
    requires ValidLinks(n, links) && |cycle| > 0 && InRange(cycle, |links|)
    requires forall i :: 0 <= i < |cycle| ==>
      links[cycle[i]].target == links[cycle[if i + 1 < |cycle| then i + 1 else 0]].source
    ensures exists i :: 0 <= i < |cycle| && links[cycle[i]].source in Reach(links, n, k)
    ensures Frontier(links, n, k) != []
  {
    if k == 0 {
      var s := links[cycle[0]].source;
      assert Range(n)[s] == s;
    } else {
      CycleKeepsFrontier(links, n, cycle, k - 1);
      var i :| 0 <= i < |cycle| && links[cycle[i]].source in Reach(links, n, k - 1);
      var next := if i + 1 < |cycle| then i + 1 else 0;
      assert links[cycle[next]].source in Reach(links, n, k);
    }
    FrontierEmpty(links, n, k);
  }

  /** Under a topological numbering, the nodes in the frontier after k steps
      all have rank at least k; so the loop stops once k passes every rank. */
  lemma {:induction false} ReachRanks(links: seq<Link>, n: nat, rank: seq<nat>, k: nat)
    requires Ranked(links, n, rank)
    ensures forall v :: v in Reach(links, n, k) ==> v < n && rank[v] >= k
  {
    if k > 0 {
      ReachRanks(links, n, rank, k - 1);
    }
  }

  /** Under a topological numbering the frontier is empty after `bound`
      steps when every rank is below `bound`. */
  lemma RankedStops(links: seq<Link>, n: nat, rank: seq<nat>, bound: nat)
    requires Ranked(links, n, rank)
    requires forall v :: 0 <= v < n ==> rank[v] < bound
    ensures Frontier(links, n, bound) == []
  {
    ReachRanks(links, n, rank, bound);
    FrontierEmpty(links, n, bound);
  }

  /** Every link goes strictly rightwards: the target's column is after the
      source's. In particular the last column holds exactly the nodes with
      no outgoing link. */
  lemma LinksGoRight(links: seq<Link>, n: nat, steps: nat, j: nat)
    requires ValidLinks(n, links) && j < |links| && steps > 0
    requires Frontier(links, n, steps) == []
    ensures FinalBreadth(links, n, links[j].source, steps) < FinalBreadth(links, n, links[j].target, steps)
  {
    var s, t := links[j].source, links[j].target;
    LinksFromExactlyOnce(links, s, j);
    assert LinksFrom(links, s) != [];
    var b := LastLayer(links, n, s, steps);
    LastLayerIsLast(links, n, s, steps);
    assert t in Reach(links, n, b + 1);
    FrontierEmpty(links, n, steps);
    if b + 1 >= steps {
      ReachStaysEmpty(links, n, steps, b + 1);
    }
    LastLayerIsLast(links, n, t, steps);
  }

  /** After `moveSinksRight`: every column is at most the last one; nodes
      without outgoing links, isolated ones included, are in the last column
      and every other node is strictly before it; a node with outgoing links
      and no incoming ones is in column 0. */
  lemma FinalBreadthPlacement(links: seq<Link>, n: nat, steps: nat, v: nat)
    requires ValidLinks(n, links) && v < n && steps > 0
    requires Frontier(links, n, steps) == []
    ensures FinalBreadth(links, n, v, steps) <= steps - 1
    ensures LinksFrom(links, v) == [] <==> FinalBreadth(links, n, v, steps) == steps - 1
    ensures LinksFrom(links, v) != [] && LinksInto(links, v) == [] ==> FinalBreadth(links, n, v, steps) == 0
  {
    LastLayerIsLast(links, n, v, steps);
    if LinksFrom(links, v) != [] {
      var j := LinksFrom(links, v)[0];
      LinksFromExactlyOnce(links, v, j);
      LinksGoRight(links, n, steps, j);
      LastLayerIsLast(links, n, links[j].target, steps);
      if LinksInto(links, v) == [] {
        forall j' | 0 <= j' < |links|
          ensures links[j'].target != v
        {
          LinksIntoExactlyOnce(links, v, j');
        }
        SourceNodeLayerZero(links, n, v, steps);
      }
    }
  }

  /** The scaled positions: column 0 at 0 and the last column at
      `width - nodeWidth`, so that its nodes end at `width`; positions grow
      with the column when `width >= nodeWidth`. */
  lemma ColumnScalePlacement(width: real, nodeWidth: real, steps: nat, b: nat, b': nat)
    requires steps > 1 && b <= b' <= steps - 1
    ensures ColumnScale(width, nodeWidth, steps).Some?
    ensures var kx := ColumnScale(width, nodeWidth, steps).value;
      && (steps - 1) as real * kx == width - nodeWidth
      && (width >= nodeWidth ==> b as real * kx <= b' as real * kx)
  {
    var kx := (width - nodeWidth) / (steps as real - 1.0);
    assert (steps - 1) as real * kx == width - nodeWidth;
    if width >= nodeWidth {
      assert kx >= 0.0;
      assert b' as real * kx - b as real * kx == (b' - b) as real * kx;
    }
  }

  /** A node's scaled position: its column times `kx`; None (NaN) when the
      scale is. */
  function Scaled(b: nat, kx: Option<real>): Option<real> {
    if kx.None? then None else Some(b as real * kx.value)
  }

  /** `computeNodeBreadths` after a loop of `steps` steps: every node's
      column (`moveSinksRight` applied), its scaled position and its width. */
  function BreadthNodes(nodes: seq<Node>, links: seq<Link>, width: real, nodeWidth: real, steps: nat): (r: seq<Node>)
    ensures |r| == |nodes|
  {
    seq(|nodes|, v requires 0 <= v < |nodes| =>
      nodes[v].(breadth := FinalBreadth(links, |nodes|, v, steps),
                x := Scaled(FinalBreadth(links, |nodes|, v, steps), ColumnScale(width, nodeWidth, steps)),
                dx := nodeWidth))
  }

  /** The breadth loop's exit test: the frontier after k steps is empty. */
  predicate Stopped(links: seq<Link>, n: nat, k: nat) {
    |Frontier(links, n, k)| == 0
  }

  /** The first step count from k on, up to `bound`, at which the frontier
      is empty. */
  function FirstEmpty(links: seq<Link>, n: nat, k: nat, bound: nat): (r: nat)
    requires k <= bound
    ensures k <= r <= bound
    decreases bound - k
  {
    if k == bound || Stopped(links, n, k) then k else FirstEmpty(links, n, k + 1, bound)
  }

  /** How many steps the breadth loop runs on an acyclic graph: the final
      value of its counter `x`. */
  function LayerCount(links: seq<Link>, n: nat, rank: seq<nat>): nat {
    FirstEmpty(links, n, 0, KeyBound(rank))
  }

  /** On an acyclic graph the loop stops, after `LayerCount` steps: the
      frontier is empty then and at no step before. */
  lemma LayerCountStops(links: seq<Link>, n: nat, rank: seq<nat>)
    requires Ranked(links, n, rank)
    ensures Stopped(links, n, LayerCount(links, n, rank))
    ensures forall k :: 0 <= k < LayerCount(links, n, rank) ==> !Stopped(links, n, k)
  {
    RankedStops(links, n, rank, KeyBound(rank));
    FirstEmptyFinds(links, n, 0, KeyBound(rank));
  }

  lemma {:induction false} FirstEmptyFinds(links: seq<Link>, n: nat, k: nat, bound: nat)
    requires k <= bound && Stopped(links, n, bound)
    ensures Stopped(links, n, FirstEmpty(links, n, k, bound))
    ensures forall i :: k <= i < FirstEmpty(links, n, k, bound) ==> !Stopped(links, n, i)
    decreases bound - k
  {
    if k < bound && !Stopped(links, n, k) {
      FirstEmptyFinds(links, n, k + 1, bound);
    }
  }

  lemma {:induction false} LastInPrefix(fs: seq<set<nat>>, gs: seq<set<nat>>, v: nat, k: nat)
    requires k <= |fs| && k <= |gs|
    requires forall i :: 0 <= i < k ==> fs[i] == gs[i]
    ensures LastIn(fs, v, k) == LastIn(gs, v, k)
  {
    if k > 0 {
      LastInPrefix(fs, gs, v, k - 1);
    }
  }

  /** One more step of the loop overwrites the layer of exactly the nodes
      in the current frontier. */
  lemma LastLayerStep(links: seq<Link>, n: nat, v: nat, x: nat)
    ensures LastLayer(links, n, v, x + 1) == if v in Reach(links, n, x) then x else LastLayer(links, n, v, x)
  {
    LastInPrefix(Reaches(links, n, x + 1), Reaches(links, n, x), v, x);
  }

  /** The nodes after x steps of the breadth loop: each node's column is the
      last step at which it was in the frontier, and its width is set. */
  function Layered(nodes: seq<Node>, links: seq<Link>, nodeWidth: real, x: nat): (r: seq<Node>)
    ensures |r| == |nodes|
  {
    if x == 0 then nodes
    else
      seq(|nodes|, v requires 0 <= v < |nodes| =>
        nodes[v].(breadth := LastLayer(links, |nodes|, v, x), dx := nodeWidth))
  }

  /** One step of the loop writes column x on the nodes of the current
      frontier and leaves the others as they were. */
  lemma LayeredStep(nodes: seq<Node>, links: seq<Link>, nodeWidth: real, x: nat, v: nat)
    requires v < |nodes|
    ensures Layered(nodes, links, nodeWidth, x + 1)[v] ==
      if v in Frontier(links, |nodes|, x) then nodes[v].(breadth := x, dx := nodeWidth)
      else Layered(nodes, links, nodeWidth, x)[v]
  {
    var n := |nodes|;
    LastLayerStep(links, n, v, x);
    FrontierReach(links, n, x, v);
    assert SameMember(links, n, x, v);
    if x == 0 {
      assert Range(n)[v] == v;
      assert v in Frontier(links, n, 0);
    }
  }

  /** The breadth loop's state after the first i nodes of the frontier of
      step x: those nodes carry column x, the others their earlier layer,
      and `next` holds the targets of the links leaving the visited ones. */
  ghost predicate Visiting(ns: seq<Node>, start: seq<Node>, links: seq<Link>, nodeWidth: real, x: nat,
                           remaining: seq<nat>, i: nat, next: seq<nat>) {
    && Linked(start, links) && ValidLinks(|start|, links) && |ns| == |start|
    && remaining == Frontier(links, |start|, x) && InRange(remaining, |start|) && i <= |remaining|
    && next == Advance(links, remaining[..i])
    && forall u :: 0 <= u < |start| ==>
         ns[u] == if u in remaining[..i] then start[u].(breadth := x, dx := nodeWidth)
                  else Layered(start, links, nodeWidth, x)[u]
  }

  /** The breadth loop's state before step x: every earlier frontier was
      non-empty, `remaining` is the frontier of step x and the nodes carry
      the layers of the first x steps. */
  ghost predicate LayersBefore(ns: seq<Node>, start: seq<Node>, links: seq<Link>, nodeWidth: real, x: nat, remaining: seq<nat>) {
    && Linked(start, links) && ValidLinks(|start|, links)
    && remaining == Frontier(links, |start|, x)
    && (forall k :: 0 <= k < x ==> !Stopped(links, |start|, k))
    && ns == Layered(start, links, nodeWidth, x)
  }

  lemma LayersStart(start: seq<Node>, links: seq<Link>, nodeWidth: real)
    requires Linked(start, links) && ValidLinks(|start|, links)
    ensures LayersBefore(start, start, links, nodeWidth, 0, Range(|start|))
  {
  }

  lemma VisitStart(ns: seq<Node>, start: seq<Node>, links: seq<Link>, nodeWidth: real, x: nat, remaining: seq<nat>)
    requires LayersBefore(ns, start, links, nodeWidth, x, remaining)
    ensures Visiting(ns, start, links, nodeWidth, x, remaining, 0, [])
  {
    FrontierInRange(links, |start|, x);
    assert remaining[..0] == [];
  }

  /** Visiting the i-th node of the frontier: it takes column x, and the
      targets of its outgoing links join the next frontier. */
  lemma VisitStep(ns: seq<Node>, start: seq<Node>, links: seq<Link>, nodeWidth: real, x: nat,
                  remaining: seq<nat>, i: nat, next: seq<nat>)
    requires Visiting(ns, start, links, nodeWidth, x, remaining, i, next) && i < |remaining|
    ensures var v := remaining[i];
      && v < |ns| && ns[v].sourceLinks == LinksFrom(links, v) && InRange(LinksFrom(links, v), |links|)
      && Visiting(ns[v := ns[v].(breadth := x, dx := nodeWidth)], start, links, nodeWidth, x, remaining, i + 1,
                  next + TargetsOf(links, LinksFrom(links, v)))
  {
    var v := remaining[i];
    LinksFromExactlyOnce(links, v, 0);
    AdvanceStep(links, remaining, i);
    var before := Layered(start, links, nodeWidth, x);
    LayeredFrame(start, links, nodeWidth, x, v);
    MarkStep(ns, start, before, nodeWidth, x, remaining, i);
  }

  /** The breadth loop changes only a node's column and width. */
  lemma LayeredFrame(nodes: seq<Node>, links: seq<Link>, nodeWidth: real, x: nat, v: nat)
    requires v < |nodes|
    ensures Layered(nodes, links, nodeWidth, x)[v].sourceLinks == nodes[v].sourceLinks
    ensures Layered(nodes, links, nodeWidth, x)[v].(breadth := x, dx := nodeWidth) == nodes[v].(breadth := x, dx := nodeWidth)
  {
  }

  /** The frontier prefix grows by one node. */
  lemma AdvanceStep(links: seq<Link>, f: seq<nat>, i: nat)
    requires i < |f| && InRange(LinksFrom(links, f[i]), |links|)
    ensures Advance(links, f[..i + 1]) == Advance(links, f[..i]) + TargetsOf(links, LinksFrom(links, f[i]))
  {
    TakeStep(f, i);
    AdvanceSnoc(links, f[..i], f[i]);
  }

  lemma AdvanceSnoc(links: seq<Link>, f: seq<nat>, v: nat)
    ensures Advance(links, f + [v]) == Advance(links, f) + TargetsOf(links, LinksFrom(links, v))
  {
    assert (f + [v])[..|f|] == f;
  }

  /** Marking node remaining[i] keeps every node either marked (if it is
      among the first i + 1 of `remaining`) or as it was in `before`. */
  lemma MarkStep(ns: seq<Node>, start: seq<Node>, before: seq<Node>, nodeWidth: real, x: nat, remaining: seq<nat>, i: nat)
    requires |ns| == |start| == |before| && i < |remaining| && remaining[i] < |start|
    requires before[remaining[i]].(breadth := x, dx := nodeWidth) == start[remaining[i]].(breadth := x, dx := nodeWidth)
    requires forall u :: 0 <= u < |start| ==>
      ns[u] == if u in remaining[..i] then start[u].(breadth := x, dx := nodeWidth) else before[u]
    ensures var v := remaining[i];
      var ns' := ns[v := ns[v].(breadth := x, dx := nodeWidth)];
      forall u :: 0 <= u < |start| ==>
        ns'[u] == if u in remaining[..i + 1] then start[u].(breadth := x, dx := nodeWidth) else before[u]
  {
    var v := remaining[i];
    var ns' := ns[v := ns[v].(breadth := x, dx := nodeWidth)];
    assert remaining[..i + 1] == remaining[..i] + [v];
    forall u | 0 <= u < |start|
      ensures ns'[u] == if u in remaining[..i + 1] then start[u].(breadth := x, dx := nodeWidth) else before[u]
    {
      assert u in remaining[..i + 1] <==> u in remaining[..i] || u == v;
    }
  }

  /** After the whole frontier the state is that before step x + 1. */
  lemma VisitDone(ns: seq<Node>, start: seq<Node>, links: seq<Link>, nodeWidth: real, x: nat,
                  remaining: seq<nat>, next: seq<nat>)
    requires Visiting(ns, start, links, nodeWidth, x, remaining, |remaining|, next) && |remaining| > 0
    requires forall k :: 0 <= k < x ==> !Stopped(links, |start|, k)
    ensures LayersBefore(ns, start, links, nodeWidth, x + 1, next)
  {
    assert remaining[..|remaining|] == remaining;
    forall u | 0 <= u < |start|
      ensures ns[u] == Layered(start, links, nodeWidth, x + 1)[u]
    {
      LayeredStep(start, links, nodeWidth, x, u);
    }
  }
}
