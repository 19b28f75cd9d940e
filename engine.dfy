/** The layout object `d3.sankey()` returns: its settings, the node and
    link arrays it was handed, and the stages `layout` runs over them in
    place. Each stage is a method that updates the arrays step by step as
    the original's loops do, and is proved to leave them as the function of
    the same stage in the other modules says. */
module Engine {
  import opened Seqs
  import opened Graph
  import opened Linker
  import opened Columns
  import opened Layering
  import opened Collisions
  import opened Relaxation
  import opened Depth
  import opened Stacking
  import opened Pipeline

  class Sankey {
    var nodeWidth: real
    var nodePadding: real
    /** `size`: canvas width and height. */
    var size: (real, real)
    var nodes: seq<Node>
    var links: seq<Link>

    /** `d3.sankey()`: nodes 24 wide, 8 apart, a 1 by 1 canvas, no nodes
        and no links. */
    constructor ()
      ensures nodeWidth == 24.0 && nodePadding == 8.0 && size == (1.0, 1.0)
      ensures nodes == [] && links == []
    {
      nodeWidth := 24.0;
      nodePadding := 8.0;
      size := (1.0, 1.0);
      nodes := [];
      links := [];
    }

    method SetNodeWidth(w: real)
      modifies this`nodeWidth
      ensures nodeWidth == w
    {
      nodeWidth := w;
    }

    method SetNodePadding(p: real)
      modifies this`nodePadding
      ensures nodePadding == p
    {
      nodePadding := p;
    }

    method SetSize(width: real, height: real)
      modifies this`size
      ensures size == (width, height)
    {
      size := (width, height);
    }

    method SetNodes(ns: seq<Node>)
      modifies this`nodes
      ensures nodes == ns
    {
      nodes := ns;
    }

    method SetLinks(ls: seq<Link>)
      modifies this`links
      ensures links == ls
    {
      links := ls;
    }

    /** `computeNodeLinks`: empty every node's lists, then append each link
        to the outgoing list of its source and the incoming list of its
        target, in link order. */
    method ComputeNodeLinks()
      requires ValidLinks(|nodes|, links)
      modifies this`nodes
      ensures nodes == LinkNodes(old(nodes), links)
    {
      var ns, ls := nodes, links;
      ghost var start := ns;
      ns := ClearLists(ns);
      var j := 0;
      while j < |ls|
        invariant LinkedUpTo(ns, start, ls, j)
      {
        ns := LinkOne(ns, ls, j, start);
        j := j + 1;
      }
      nodes := ns;
    }

    /** The first loop of `computeNodeLinks`: every node's lists emptied. */
    static method ClearLists(ns: seq<Node>) returns (r: seq<Node>)
      ensures |r| == |ns|
      ensures forall u :: 0 <= u < |r| ==> r[u] == ns[u].(sourceLinks := [], targetLinks := [])
    {
      r := ns;
      var v := 0;
      while v < |r|
        invariant 0 <= v <= |r| == |ns|
        invariant forall u :: 0 <= u < |r| ==>
          r[u] == if u < v then ns[u].(sourceLinks := [], targetLinks := []) else ns[u]
      {
        r := r[v := r[v].(sourceLinks := [], targetLinks := [])];
        v := v + 1;
      }
    }

    /** Link j joins the outgoing list of its source and the incoming list
        of its target (both of the same node for a self-loop). */
    static method LinkOne(ns: seq<Node>, links: seq<Link>, j: nat, ghost start: seq<Node>) returns (r: seq<Node>)
      requires LinkedUpTo(ns, start, links, j) && j < |links|
      ensures LinkedUpTo(r, start, links, j + 1)
    {
      var s, t := links[j].source, links[j].target;
      assert Sources(links)[j] == s && Targets(links)[j] == t;
      r := ns[s := ns[s].(sourceLinks := ns[s].sourceLinks + [j])];
      r := r[t := r[t].(targetLinks := r[t].targetLinks + [j])];
    }

    /** `computeNodeValues`: every node's value is the larger of the sums of
        its outgoing and its incoming link values. */
    method ComputeNodeValues()
      requires ListsInRange(nodes, |links|)
      modifies this`nodes
      ensures nodes == ValueNodes(old(nodes), links)
    {
      var v := 0;
      while v < |nodes|
        invariant 0 <= v <= |nodes| == |old(nodes)|
        invariant forall u :: 0 <= u < |nodes| ==>
          nodes[u] == if u < v then old(nodes)[u].(value := NodeValue(links, old(nodes)[u])) else old(nodes)[u]
      {
        var out := SumAt(Values(links), nodes[v].sourceLinks);
        var inc := SumAt(Values(links), nodes[v].targetLinks);
        nodes := nodes[v := nodes[v].(value := if out >= inc then out else inc)];
        v := v + 1;
      }
    }

    /** `computeNodeBreadths`: walk the frontier from all nodes, giving each
        node in it the current step as its column and the node width, and
        moving on to the targets of its outgoing links, until the frontier
        is empty; then move the sinks to the last column and scale. The loop
        ends only on a graph without cycles, which the ranking `rank`
        witnesses. The step count is returned: it is the first step with an
        empty frontier. (The original also takes the canvas height, which it
        does not use.) */
    method ComputeNodeBreadths(width: real, ghost rank: seq<nat>) returns (steps: nat)
      requires Linked(nodes, links) && Ranked(links, |nodes|, rank)
      modifies this`nodes
      ensures Stopped(links, |nodes|, steps)
      ensures forall k :: 0 <= k < steps ==> !Stopped(links, |nodes|, k)
      ensures nodes == BreadthNodes(old(nodes), links, width, nodeWidth, steps)
    {
      ghost var n := |nodes|;
      ghost var start := nodes;
      var layers, x := AssignLayers(nodes, links, nodeWidth, rank);
      nodes := layers;
      if n > 0 {
        assert Frontier(links, n, 0) == Range(n);
      }
      ghost var layered := nodes;
      MoveSinksRight(x);
      ghost var moved := nodes;
      ScaleNodeBreadths(ColumnScale(width, nodeWidth, x));
      steps := x;
      forall v | 0 <= v < n
        ensures nodes[v] == BreadthNodes(start, links, width, nodeWidth, x)[v]
      {
        assert layered[v].sourceLinks == LinksFrom(links, v);
        assert moved[v].breadth == FinalBreadth(links, n, v, x);
      }
    }

    /** The breadth loop itself, up to the first empty frontier. */
    static method AssignLayers(ns: seq<Node>, links: seq<Link>, nodeWidth: real, ghost rank: seq<nat>)
      returns (r: seq<Node>, x: nat)
      requires Linked(ns, links) && Ranked(links, |ns|, rank)
      ensures Stopped(links, |ns|, x)
      ensures forall k :: 0 <= k < x ==> !Stopped(links, |ns|, k)
      ensures r == Layered(ns, links, nodeWidth, x)
    {
      var remaining := Range(|ns|);
      r, x := ns, 0;
      RankedStops(links, |ns|, rank, KeyBound(rank));
      LayersStart(ns, links, nodeWidth);
      while |remaining| > 0
        invariant x <= KeyBound(rank)
        invariant LayersBefore(r, ns, links, nodeWidth, x, remaining)
        decreases KeyBound(rank) - x
      {
        r, remaining := VisitFrontier(r, links, nodeWidth, x, remaining, ns);
        x := x + 1;
      }
    }

    /** One pass of the breadth loop over the frontier `remaining`: each
        node in it gets column x and the node width, and the targets of its
        outgoing links make up the next frontier. */
    static method VisitFrontier(ns: seq<Node>, links: seq<Link>, nodeWidth: real, x: nat, remaining: seq<nat>,
                                ghost start: seq<Node>) returns (r: seq<Node>, next: seq<nat>)
      requires LayersBefore(ns, start, links, nodeWidth, x, remaining) && |remaining| > 0
      ensures LayersBefore(r, start, links, nodeWidth, x + 1, next)
    {
      VisitStart(ns, start, links, nodeWidth, x, remaining);
      r, next := ns, [];
      var i := 0;
      while i < |remaining|
        invariant Visiting(r, start, links, nodeWidth, x, remaining, i, next)
      {
        r, next := VisitOne(r, links, nodeWidth, x, remaining, i, next, start);
        i := i + 1;
      }
      VisitDone(r, start, links, nodeWidth, x, remaining, next);
    }

    /** The i-th node of the frontier takes column x, and the targets of its
        outgoing links join the next frontier. */
    static method VisitOne(ns: seq<Node>, links: seq<Link>, nodeWidth: real, x: nat, remaining: seq<nat>, i: nat,
                           next: seq<nat>, ghost start: seq<Node>) returns (r: seq<Node>, next': seq<nat>)
      requires Visiting(ns, start, links, nodeWidth, x, remaining, i, next) && i < |remaining|
      ensures Visiting(r, start, links, nodeWidth, x, remaining, i + 1, next')
    {
      VisitStep(ns, start, links, nodeWidth, x, remaining, i, next);
      var v := remaining[i];
      var outs := ns[v].sourceLinks;
      r := ns[v := ns[v].(breadth := x, dx := nodeWidth)];
      next' := PushTargets(links, next, outs);
    }

    /** The innermost loop: push the target of each link of `outs`. */
    static method PushTargets(links: seq<Link>, next: seq<nat>, outs: seq<nat>) returns (r: seq<nat>)
      requires InRange(outs, |links|)
      ensures r == next + TargetsOf(links, outs)
    {
      r := next;
      var k := 0;
      while k < |outs|
        invariant 0 <= k <= |outs|
        invariant r == next + TargetsOf(links, outs[..k])
      {
        assert outs[..k + 1][..k] == outs[..k];
        r := r + [links[outs[k]].target];
        k := k + 1;
      }
      assert outs[..k] == outs;
    }

    /** `moveSinksRight`: every node without outgoing links goes to column
        x - 1. */
    method MoveSinksRight(x: nat)
      requires x > 0 || nodes == []
      modifies this`nodes
      ensures |nodes| == |old(nodes)|
      ensures forall v :: 0 <= v < |nodes| ==>
        nodes[v] == if old(nodes)[v].sourceLinks == [] then old(nodes)[v].(breadth := x - 1) else old(nodes)[v]
    {
      var v := 0;
      while v < |nodes|
        invariant 0 <= v <= |nodes| == |old(nodes)|
        invariant forall u :: 0 <= u < |nodes| ==>
          nodes[u] == if u < v && old(nodes)[u].sourceLinks == [] then old(nodes)[u].(breadth := x - 1) else old(nodes)[u]
      {
        if nodes[v].sourceLinks == [] {
          nodes := nodes[v := nodes[v].(breadth := x - 1)];
        }
        v := v + 1;
      }
    }

    /** `scaleNodeBreadths`: every node's position is its column times kx
        (not a number when kx is not). */
    method ScaleNodeBreadths(kx: Option<real>)
      modifies this`nodes
      ensures |nodes| == |old(nodes)|
      ensures forall v :: 0 <= v < |nodes| ==> nodes[v] == old(nodes)[v].(x := Scaled(old(nodes)[v].breadth, kx))
    {
      var v := 0;
      while v < |nodes|
        invariant 0 <= v <= |nodes| == |old(nodes)|
        invariant forall u :: 0 <= u < |nodes| ==>
          nodes[u] == if u < v then old(nodes)[u].(x := Scaled(old(nodes)[u].breadth, kx)) else old(nodes)[u]
      {
        nodes := nodes[v := nodes[v].(x := Scaled(nodes[v].breadth, kx))];
        v := v + 1;
      }
    }
 
    /** `initializeNodeDepth`: with `ky` the smallest column scale, the
        i-th node of each column gets top i and height value times `ky`,
        and every link thickness value times `ky`. */
    method InitializeNodeDepth(cols: seq<seq<nat>>)
      requires cols == Nest(Breadths(nodes)) && ColumnsWeighed(nodes, cols)
      modifies this`nodes, this`links
      ensures nodes == InitNodes(old(nodes), Ky(old(nodes), cols, nodePadding, size.1))
      ensures links == InitLinks(old(links), Ky(old(nodes), cols, nodePadding, size.1))
    {
      var ky := Ky(nodes, cols, nodePadding, size.1);
      PlaceColumns(cols, ky);
      ScaleLinks(ky);
    }
 
    /** The node loop of `initializeNodeDepth`. */
    method PlaceColumns(cols: seq<seq<nat>>, ky: real)
      requires cols == Nest(Breadths(nodes))
      modifies this`nodes
      ensures nodes == InitNodes(old(nodes), ky)
    {
      var ns := nodes;
      ghost var start := nodes;
      ghost var done: set<nat> := {};
      var c: nat := 0;
      while c < |cols|
        invariant c <= |cols|
        invariant Placing(ns, start, ky, cols, c, done)
      {
        ns, done, c := PlaceNext(ns, cols, c, ky, start, done);
      }
      PlacingDone(ns, start, ky, cols, done);
      nodes := ns;
    }

    /** One pass of the column loop of `initializeNodeDepth`. */
    static method PlaceNext(ns: seq<Node>, cols: seq<seq<nat>>, c: nat, ky: real, ghost start: seq<Node>, ghost done: set<nat>)
      returns (r: seq<Node>, ghost done': set<nat>, next: nat)
      requires Placing(ns, start, ky, cols, c, done) && c < |cols|
      ensures next == c + 1 && Placing(r, start, ky, cols, next, done')
    {
      InitColumn(start, ky, c);
      r, done' := PlaceColumn(ns, cols[c], ky, start, InitNodes(start, ky), done);
      next := c + 1;
      PlacingStep(ns, r, start, ky, cols, c, done, done', next);
    }

    /** One column of that loop: node i of the column gets top i. */
    static method PlaceColumn(ns: seq<Node>, col: seq<nat>, ky: real, ghost start: seq<Node>, ghost init: seq<Node>, ghost done: set<nat>)
      returns (r: seq<Node>, ghost done': set<nat>)
      requires |ns| == |start| == |init| && InRange(col, |ns|)
      requires forall i :: 0 <= i < |col| ==>
        init[col[i]] == start[col[i]].(y := i as real, dy := start[col[i]].value * ky)
      requires forall v :: 0 <= v < |ns| ==> ns[v] == if v in done then init[v] else start[v]
      ensures |r| == |start| && done <= done'
      ensures forall v :: 0 <= v < |r| ==> r[v] == if v in done' then init[v] else start[v]
      ensures forall i :: 0 <= i < |col| ==> col[i] in done'
    {
      r, done' := ns, done;
      var i := 0;
      while i < |col|
        invariant 0 <= i <= |col| && |r| == |start| && done <= done'
        invariant forall v :: 0 <= v < |r| ==> r[v] == if v in done' then init[v] else start[v]
        invariant forall i' :: 0 <= i' < i ==> col[i'] in done'
      {
        var v := col[i];
        r := r[v := r[v].(y := i as real, dy := r[v].value * ky)];
        done' := done' + {v};
        i := i + 1;
      }
    }

    /** The link loop of `initializeNodeDepth`. */
    method ScaleLinks(ky: real)
      modifies this`links
      ensures links == InitLinks(old(links), ky)
    {
      var ls := links;
      ghost var start := links;
      var j := 0;
      while j < |ls|
        invariant 0 <= j <= |ls| == |start|
        invariant forall l :: 0 <= l < |ls| ==> ls[l] == if l < j then start[l].(dy := start[l].value * ky) else start[l]
      {
        ls := ls[j := ls[j].(dy := ls[j].value * ky)];
        j := j + 1;
      }
      assert forall l :: 0 <= l < |ls| ==> ls[l] == InitLinks(start, ky)[l];
      links := ls;
    }

    /** `resolveCollisions` on one column: sort it by top, push overlapping
        nodes down from 0, and if the last one then ends below the canvas,
        put its bottom on the edge and push the others back up. The sorted
        column is returned, as the original sorts the column in place. */
    static method SettleColumn(ns: seq<Node>, col: seq<nat>, pad: real, height: real) returns (r: seq<Node>, sorted: seq<nat>)
      requires InRange(col, |ns|) && NoDup(col)
      ensures (r, sorted) == Depth.ResolveColumn(ns, col, pad, height)
    {
      sorted := SortBy(Tops(ns), col);
      NoDupPerm(col, sorted);
      ghost var ys := Gather(Tops(ns), sorted);
      ghost var hs := Gather(Heights(ns), sorted);
      ghost var ds := Down(ys, hs, pad);
      var y0;
      r, y0 := PushDown(ns, sorted, pad);
      if |sorted| > 0 {
        var dy := y0 - pad - height;
        if dy > 0.0 {
          r := PushUp(r, sorted, y0, pad, height, ns, ds, hs);
        }
      }
      ColumnedSetTops(ns, r, sorted, Resolved(ys, hs, pad, height));
    }

    /** The downward pass over a sorted column; also returns the
        accumulator `y0`, the last node's bottom plus the padding. */
    static method PushDown(start: seq<Node>, sorted: seq<nat>, pad: real) returns (ns: seq<Node>, y0: real)
      requires InRange(sorted, |start|) && NoDup(sorted)
      ensures PushedDown(start, ns, sorted, pad, y0)
    {
      ghost var ys := Gather(Tops(start), sorted);
      ghost var hs := Gather(Heights(start), sorted);
      ghost var ds := Down(ys, hs, pad);
      PushingDownStart(start, sorted, pad);
      ns := start;
      y0 := 0.0;
      var i: nat := 0;
      while i < |sorted|
        invariant i <= |sorted|
        invariant PushingDown(start, ns, sorted, ys, hs, ds, pad, i, y0)
      {
        ns, y0, i := PushDownOne(ns, sorted, pad, i, y0, start, ys, hs, ds);
      }
      PushingDownDone(start, ns, sorted, ys, hs, ds, pad, y0);
    }

    /** One step of the downward pass: a node that starts above the bottom
        of the previous one plus the padding is pushed down to it. */
    static method PushDownOne(ns: seq<Node>, sorted: seq<nat>, pad: real, i: nat, y0: real,
                              ghost start: seq<Node>, ghost ys: seq<real>, ghost hs: seq<real>, ghost ds: seq<real>)
      returns (r: seq<Node>, y0': real, next: nat)
      requires PushingDown(start, ns, sorted, ys, hs, ds, pad, i, y0) && i < |sorted|
      ensures next == i + 1 && PushingDown(start, r, sorted, ys, hs, ds, pad, next, y0')
    {
      PushingDownAt(start, ns, sorted, ys, hs, ds, pad, i, y0);
      var v := sorted[i];
      var dy := y0 - ns[v].y;
      r := ns;
      if dy > 0.0 {
        r := ns[v := ns[v].(y := ns[v].y + dy)];
      } else {
        assert r == ns[v := ns[v].(y := ds[i])];
      }
      y0' := r[v].y + r[v].dy + pad;
      next := i + 1;
      PushingDownStep(start, ns, r, sorted, ys, hs, ds, pad, i, y0, next, y0');
    }

    /** The upward pass, run when the last node ends below the canvas. */
    static method PushUp(ns: seq<Node>, sorted: seq<nat>, y0: real, pad: real, height: real,
                         ghost start: seq<Node>, ghost ds: seq<real>, ghost hs: seq<real>) returns (r: seq<Node>)
      requires Columned(start, ns, sorted, ds) && NoDup(sorted) && |sorted| > 0
      requires hs == Gather(Heights(start), sorted)
      requires y0 == ds[|sorted| - 1] + hs[|sorted| - 1] + pad
      requires Overflow(ds, hs, pad, height) > 0.0
      ensures Columned(start, r, sorted, Up(ds, hs, pad, height))
    {
      ghost var us := Up(ds, hs, pad, height);
      var n := |sorted|;
      var last := sorted[n - 1];
      var dy := y0 - pad - height;
      r := ns[last := ns[last].(y := ns[last].y - dy)];
      PushingUpStart(start, ns, r, sorted, hs, ds, pad, height);
      var top := r[last].y;
      var i: nat := n - 1;
      while i > 0
        invariant PushingUp(start, r, sorted, hs, ds, us, pad, height, i, top)
      {
        r, top := PushUpOne(r, sorted, pad, height, i, top, start, hs, ds, us);
        i := i - 1;
      }
      PushingUpDone(start, r, sorted, hs, ds, us, pad, height, top);
    }

    /** One step of the upward pass: a node whose bottom plus the padding
        reaches below the top of the next one is raised to end there. */
    static method PushUpOne(ns: seq<Node>, sorted: seq<nat>, pad: real, height: real, i: nat, top: real,
                            ghost start: seq<Node>, ghost hs: seq<real>, ghost ds: seq<real>, ghost us: seq<real>)
      returns (r: seq<Node>, top': real)
      requires PushingUp(start, ns, sorted, hs, ds, us, pad, height, i, top) && 0 < i
      ensures PushingUp(start, r, sorted, hs, ds, us, pad, height, i - 1, top')
    {
      PushingUpAt(start, ns, sorted, hs, ds, us, pad, height, i, top);
      var v := sorted[i - 1];
      var dy := ns[v].y + ns[v].dy + pad - top;
      r := ns;
      if dy > 0.0 {
        r := ns[v := ns[v].(y := ns[v].y - dy)];
      } else {
        assert r == ns[v := ns[v].(y := us[i - 1])];
      }
      PushingUpStep(start, ns, r, sorted, hs, ds, us, pad, height, i, top);
      top' := r[v].y;
    }
 
    /** `resolveCollisions`: each column resolved in turn, left to right;
        the columns come back sorted by top. */
    method ResolveCollisions(cols: seq<seq<nat>>) returns (sorted: seq<seq<nat>>)
      requires AllInRange(cols, |nodes|) && NoDupColumns(cols)
      modifies this`nodes
      ensures (nodes, sorted) == ResolveColumns(old(nodes), cols, nodePadding, size.1, 0)
    {
      var ns, pad, height := nodes, nodePadding, size.1;
      ghost var goal := ResolveColumns(ns, cols, pad, height, 0);
      sorted := cols;
      var c := 0;
      while c < |cols|
        invariant |sorted| == |cols|
        invariant Sweeping(ns, sorted, cols, pad, height, c, goal)
      {
        ns, sorted := ResolveNext(ns, sorted, c, pad, height, cols, goal);
        c := c + 1;
      }
      nodes := ns;
    }

    /** The body of that loop for column c. */
    static method ResolveNext(ns: seq<Node>, sorted: seq<seq<nat>>, c: nat, pad: real, height: real,
                              ghost given: seq<seq<nat>>, ghost goal: (seq<Node>, seq<seq<nat>>))
      returns (r: seq<Node>, sorted': seq<seq<nat>>)
      requires Sweeping(ns, sorted, given, pad, height, c, goal) && c < |sorted|
      ensures |sorted'| == |sorted|
      ensures Sweeping(r, sorted', given, pad, height, c + 1, goal)
    {
      SweepStep(ns, sorted, given, pad, height, c, goal);
      var col;
      r, col := SettleColumn(ns, sorted[c], pad, height);
      sorted' := sorted[c := col];
    }

    /** `relaxRightToLeft`: the columns from last to first, each node with
        outgoing links moved a fraction `alpha` of the way towards the
        value-weighted mean centre of their targets. */
    method RelaxRightToLeft(cols: seq<seq<nat>>, alpha: real)
      requires Weighted(nodes, links) && AllInRange(cols, |nodes|) && InRange(RightToLeft(cols, 0), |nodes|)
      modifies this`nodes
      ensures nodes == RelaxAll(old(nodes), links, RightToLeft(cols, 0), alpha, true)
    {
      var ns, ls := nodes, links;
      ghost var start := ns;
      var c := |cols|;
      while c > 0
        invariant 0 <= c <= |cols|
        invariant InRange(RightToLeft(cols, c), |start|)
        invariant ns == RelaxAll(start, ls, RightToLeft(cols, c), alpha, true)
      {
        c := c - 1;
        ns := RelaxColumn(ns, ls, cols[c], alpha, true, start, RightToLeft(cols, c + 1));
      }
      nodes := ns;
    }

    /** `relaxLeftToRight`: the columns from first to last, each node with
        incoming links moved towards the mean centre of their sources. */
    method RelaxLeftToRight(cols: seq<seq<nat>>, alpha: real)
      requires Weighted(nodes, links) && AllInRange(cols, |nodes|) && InRange(LeftToRight(cols, |cols|), |nodes|)
      modifies this`nodes
      ensures nodes == RelaxAll(old(nodes), links, LeftToRight(cols, |cols|), alpha, false)
    {
      var ns, ls := nodes, links;
      ghost var start := ns;
      var c := 0;
      LeftToRightInRange(cols, |start|, 0);
      while c < |cols|
        invariant SweptLeft(ns, start, ls, cols, c, alpha)
      {
        ns := RelaxNextColumn(ns, ls, cols, c, alpha, start);
        c := c + 1;
      }
      nodes := ns;
    }
 
    /** One column of a left-to-right pass. */
    static method RelaxNextColumn(ns: seq<Node>, links: seq<Link>, cols: seq<seq<nat>>, c: nat, alpha: real,
                                  ghost start: seq<Node>) returns (r: seq<Node>)
      requires SweptLeft(ns, start, links, cols, c, alpha) && c < |cols|
      ensures SweptLeft(r, start, links, cols, c + 1, alpha)
    {
      LeftToRightStep(cols, c);
      r := RelaxColumn(ns, links, cols[c], alpha, false, start, LeftToRight(cols, c));
    }

    /** One column of a relaxation pass, after the nodes of `before` have
        been visited: the nodes of the column take their steps in column
        order. */
    static method RelaxColumn(ns: seq<Node>, links: seq<Link>, col: seq<nat>, alpha: real, toTargets: bool,
                              ghost start: seq<Node>, ghost before: seq<nat>) returns (r: seq<Node>)
      requires Weighted(start, links) && InRange(before, |start|) && InRange(col, |start|)
      requires ns == RelaxAll(start, links, before, alpha, toTargets)
      ensures InRange(before + col, |start|)
      ensures r == RelaxAll(start, links, before + col, alpha, toTargets)
    {
      r := ns;
      var i := 0;
      assert before + col[..0] == before;
      while i < |col|
        invariant 0 <= i <= |col| && InRange(before + col[..i], |start|)
        invariant r == RelaxAll(start, links, before + col[..i], alpha, toTargets)
      {
        RelaxAllSnoc(start, links, before + col[..i], col[i], alpha, toTargets);
        AppendPrefixStep(before, col, i);
        r := RelaxOne(r, links, col[i], alpha, toTargets);
        i := i + 1;
      }
      assert col[..i] == col;
    }

    /** One node's step: a node with links on the relevant side (outgoing
        when `toTargets`) moves its centre a fraction `alpha` of the way to
        the value-weighted mean centre of the nodes at their other ends. */
    static method RelaxOne(ns: seq<Node>, links: seq<Link>, v: nat, alpha: real, toTargets: bool) returns (r: seq<Node>)
      requires Weighted(ns, links) && v < |ns|
      ensures r == RelaxNode(ns, links, v, alpha, toTargets)
    {
      r := ns;
      var side := if toTargets then r[v].sourceLinks else r[v].targetLinks;
      if |side| > 0 {
        var y := SumAt(Pulls(r, links, toTargets), side) / SumAt(Values(links), side);
        assert side == Side(ns[v], toTargets);
        assert y == Mean(ns, links, v, toTargets);
        r := r[v := r[v].(y := r[v].y + (y - Center(r[v])) * alpha)];
        assert r[v] == Step(ns[v], Mean(ns, links, v, toTargets), alpha);
      }
    }
 
    /** `computeNodeDepths`: group the nodes by column, initialise and
        resolve, then run `iterations` rounds with `alpha` multiplied by
        0.99 at the start of every round. */
    method ComputeNodeDepths(iterations: nat)
      requires Weighted(nodes, links) && ColumnsWeighed(nodes, Nest(Breadths(nodes)))
      modifies this`nodes, this`links
      ensures var r := Depths(old(nodes), old(links), nodePadding, size.1, iterations);
        nodes == r.0 && links == r.1
    {
      var cols := Nest(Breadths(nodes));
      DepthsStages(nodes, links, nodePadding, size.1, iterations);
      InitializeNodeDepth(cols);
      cols := ResolveCollisions(cols);
      cols := RunRounds(cols, iterations);
    }

    /** The loop of `computeNodeDepths`: `alpha` starts at 1 and is
        multiplied by 0.99 before each round. */
    method RunRounds(cols: seq<seq<nat>>, iterations: nat) returns (sorted: seq<seq<nat>>)
      requires Weighted(nodes, links) && AllInRange(cols, |nodes|) && NoDupColumns(cols)
      modifies this`nodes
      ensures (nodes, sorted) == Rounds(old(nodes), links, cols, nodePadding, size.1, 0, iterations)
    {
      ghost var goal := Rounds(nodes, links, cols, nodePadding, size.1, 0, iterations);
      PendingStart(nodes, links, cols, nodePadding, size.1, iterations);
      sorted := cols;
      var k: nat := 0;
      var alpha := 1.0;
      while k < iterations
        invariant k <= iterations && DampedBy(alpha, k)
        invariant Pending(nodes, links, sorted, nodePadding, size.1, k, iterations, goal)
      {
        sorted, alpha, k := AdvanceRound(sorted, alpha, k, iterations, goal);
      }
      PendingDone(nodes, links, sorted, nodePadding, size.1, iterations, goal);
    }

    /** Round k + 1 of n: `alpha *= .99`, then the round with the new
        `alpha`, keeping the loop state pending on `goal`. */
    method AdvanceRound(cols: seq<seq<nat>>, alpha: real, k: nat, ghost n: nat, ghost goal: (seq<Node>, seq<seq<nat>>))
      returns (sorted: seq<seq<nat>>, alpha': real, next: nat)
      requires Pending(nodes, links, cols, nodePadding, size.1, k, n, goal) && k < n && DampedBy(alpha, k)
      modifies this`nodes
      ensures next == k + 1 && DampedBy(alpha', next)
      ensures Pending(nodes, links, sorted, nodePadding, size.1, next, n, goal)
    {
      next := k + 1;
      alpha' := alpha * 0.99;
      DampingStep(k, alpha, alpha');
      PendingStep(nodes, links, cols, nodePadding, size.1, k, n, goal);
      sorted := RunRound(cols, alpha');
    }

    /** One round of the loop: relax right to left and resolve, then left
        to right and resolve. */
    method RunRound(cols: seq<seq<nat>>, alpha: real) returns (sorted: seq<seq<nat>>)
      requires Weighted(nodes, links) && AllInRange(cols, |nodes|) && NoDupColumns(cols)
      modifies this`nodes
      ensures (nodes, sorted) == Round(old(nodes), links, cols, nodePadding, size.1, alpha)
      ensures Weighted(nodes, links) && NoDupColumns(sorted)
    {
      ghost var before := nodes;
      RightToLeftInRange(cols, |nodes|, 0);
      RelaxRightToLeft(cols, alpha);
      WeightedIgnoresTops(before, nodes, links);
      sorted := ResolveCollisions(cols);
      WeightedIgnoresTops(before, nodes, links);
      NoDupColumnsKept(cols, sorted);
      ghost var half := sorted;
      LeftToRightInRange(sorted, |nodes|, |sorted|);
      RelaxLeftToRight(sorted, alpha);
      WeightedIgnoresTops(before, nodes, links);
      sorted := ResolveCollisions(sorted);
      WeightedIgnoresTops(before, nodes, links);
      NoDupColumnsKept(half, sorted);
    }

    /** `computeLinkDepths`: first every node's lists are sorted (outgoing
        by target top, incoming by source top), then every node stacks the
        links of its outgoing list and then of its incoming list. */
    method ComputeLinkDepths()
      requires ValidLinks(|nodes|, links) && ListsInRange(nodes, |links|)
      modifies this`nodes, this`links
      ensures (nodes, links) == LinkDepths(old(nodes), old(links))
    {
      var sorted := SortLists(nodes, links);
      var stacked := StackLinks(sorted, links);
      nodes, links := sorted, stacked;
    }

    /** `layout(iterations, width, height)`: the five stages in order. The
        ranking `rank` witnesses that the graph has no cycle; the step
        count of the column loop is returned. */
    method Layout(iterations: nat, width: real, ghost rank: seq<nat>) returns (steps: nat)
      requires Ranked(links, |nodes|, rank)
      requires Layable(nodes, links, width, nodeWidth, LayerCount(links, |nodes|, rank))
      modifies this`nodes, this`links
      ensures steps == LayerCount(old(links), |old(nodes)|, rank)
      ensures (nodes, links) == LayoutOf(old(nodes), old(links), width, nodeWidth, nodePadding, size.1, iterations, steps)
    {
      ghost var start := nodes;
      steps := PlaceNodes(width, rank);
      FinishFrom(iterations, start, width, steps);
    }

    /** The last two stages of `layout` run on what the first three
        left. */
    method FinishFrom(iterations: nat, ghost start: seq<Node>, ghost width: real, ghost steps: nat)
      requires Layable(start, links, width, nodeWidth, steps) && nodes == Laid(start, links, width, nodeWidth, steps)
      modifies this`nodes, this`links
      ensures (nodes, links) == LayoutOf(start, old(links), width, nodeWidth, nodePadding, size.1, iterations, steps)
    {
      LayoutReady(start, links, width, nodeWidth, nodePadding, size.1, iterations, steps);
      FinishLayout(iterations);
    }

    /** The last two stages of `layout`: tops and heights, then link
        offsets. */
    method FinishLayout(iterations: nat)
      requires DepthsReady(nodes, links, nodePadding, size.1, iterations)
      modifies this`nodes, this`links
      ensures (nodes, links) == Finished(old(nodes), old(links), nodePadding, size.1, iterations)
    {
      ComputeNodeDepths(iterations);
      ComputeLinkDepths();
    }

    /** The first three stages of `layout`: lists, values, columns. */
    method PlaceNodes(width: real, ghost rank: seq<nat>) returns (steps: nat)
      requires Ranked(links, |nodes|, rank)
      modifies this`nodes
      ensures steps == LayerCount(links, |old(nodes)|, rank)
      ensures nodes == Laid(old(nodes), links, width, nodeWidth, steps)
    {
      ghost var start := nodes;
      LinkedStages(start, links);
      ComputeNodeLinks();
      ghost var linked := nodes;
      ComputeNodeValues();
      ghost var valued := nodes;
      steps := ComputeNodeBreadths(width, rank);
      LayerCountStops(links, |nodes|, rank);
      LaidInStages(start, links, width, nodeWidth, steps, linked, valued, nodes);
    }

    /** `relayout`: link offsets recomputed for node tops that have moved. */
    method Relayout()
      requires ValidLinks(|nodes|, links) && ListsInRange(nodes, |links|)
      modifies this`nodes, this`links
      ensures (nodes, links) == LinkDepths(old(nodes), old(links))
    {
      ComputeLinkDepths();
    }

    /** The first loop of `computeLinkDepths`. The comparators read the
        nodes' tops, which sorting does not move, so the keys are taken
        once. */
    static method SortLists(ns: seq<Node>, links: seq<Link>) returns (r: seq<Node>)
      requires ValidLinks(|ns|, links) && ListsInRange(ns, |links|)
      ensures r == SortAdjacency(ns, links)
    {
      var byTarget, bySource := TargetTops(ns, links), SourceTops(ns, links);
      r := ns;
      var v: nat := 0;
      while v < |ns|
        invariant SortedUpTo(r, ns, links, v)
      {
        r, v := SortNode(r, links, v, byTarget, bySource, ns);
      }
      SortedAll(r, ns, links);
    }

    /** Node v's two sorts. */
    static method SortNode(ns: seq<Node>, links: seq<Link>, v: nat, byTarget: seq<real>, bySource: seq<real>,
                           ghost start: seq<Node>) returns (r: seq<Node>, next: nat)
      requires SortedUpTo(ns, start, links, v) && v < |ns|
      requires byTarget == TargetTops(start, links) && bySource == SourceTops(start, links)
      ensures next == v + 1 && SortedUpTo(r, start, links, next)
    {
      r := ns[v := ns[v].(sourceLinks := SortBy(byTarget, ns[v].sourceLinks),
                          targetLinks := SortBy(bySource, ns[v].targetLinks))];
      next := v + 1;
    }

    /** The second loop of `computeLinkDepths`: for each node in turn, its
        outgoing links and then its incoming links. */
    static method StackLinks(ns: seq<Node>, links: seq<Link>) returns (r: seq<Link>)
      requires ListsInRange(ns, |links|)
      ensures r == StackFrom(ns, links, 0)
    {
      r := links;
      var v := 0;
      while v < |ns|
        invariant v <= |ns| && |r| == |links|
        invariant StackFrom(ns, r, v) == StackFrom(ns, links, 0)
      {
        r := StackList(r, ns[v].sourceLinks, true);
        r := StackList(r, ns[v].targetLinks, false);
        v := v + 1;
      }
    }

    /** One inner loop: each link of the list takes the running total as
        its `sy` (outgoing) or `ty` (incoming), which then grows by the
        link's thickness. */
    static method StackList(links: seq<Link>, js: seq<nat>, outgoing: bool) returns (r: seq<Link>)
      requires InRange(js, |links|)
      ensures r == StackSide(links, js, 0.0, outgoing)
    {
      r := links;
      var acc := 0.0;
      var i := 0;
      while i < |js|
        invariant i <= |js| && |r| == |links|
        invariant StackSide(r, js[i..], acc, outgoing) == StackSide(links, js, 0.0, outgoing)
      {
        var j := js[i];
        assert js[i..][1..] == js[i + 1..];
        if outgoing {
          r := r[j := r[j].(sy := acc)];
        } else {
          r := r[j := r[j].(ty := acc)];
        }
        acc := acc + r[j].dy;
        i := i + 1;
      }
    }

  }
}
