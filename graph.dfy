/** The node and link records the layout engine reads and enriches. The graph
    is an arena: the engine keeps one sequence of node records and one of link
    records, a link names its endpoints by their index in the node sequence,
    and a node names its links by their index in the link sequence. */
module Graph {
  import opened Seqs

  datatype Option<T> = None | Some(value: T)

  /** A node record. `breadth` is the integer column that the original keeps
      in `x` until it scales it; `x` is None where that scaling yields NaN. */
  datatype Node = Node(
    name: string,
    sourceLinks: seq<nat>,  // outgoing links, filled by the linker
    targetLinks: seq<nat>,  // incoming links, filled by the linker
    value: real,
    breadth: nat,
    x: Option<real>,
    dx: real,
    y: real,
    dy: real)

  /** A link record: endpoints, flow value, thickness `dy` and the offsets
      `sy` / `ty` of its band below the top of its source / target node. */
  datatype Link = Link(source: nat, target: nat, value: real, dy: real, sy: real, ty: real)

  /** A node as it arrives from the input adapter: a name and nothing derived yet. */
  function NewNode(name: string): Node {
    Node(name, [], [], 0.0, 0, None, 0.0, 0.0, 0.0)
  }

  /** A link as it arrives from the input adapter. */
  function NewLink(source: nat, target: nat, value: real): Link {
    Link(source, target, value, 0.0, 0.0, 0.0)
  }

  /** Every link's endpoints are nodes of the arena. */
  predicate ValidLinks(n: nat, links: seq<Link>) {
    forall j :: 0 <= j < |links| ==> links[j].source < n && links[j].target < n
  }

  /** The vertical centre of a node. */
  function Center(node: Node): real {
    node.y + node.dy / 2.0
  }

  // Field accessors over a whole arena, in the shape the sums and sorts take.

  function Sources(links: seq<Link>): seq<nat> {
    seq(|links|, j requires 0 <= j < |links| => links[j].source)
  }

  function Targets(links: seq<Link>): seq<nat> {
    seq(|links|, j requires 0 <= j < |links| => links[j].target)
  }

  function Values(links: seq<Link>): seq<real> {
    seq(|links|, j requires 0 <= j < |links| => links[j].value)
  }

  function LinkDys(links: seq<Link>): seq<real> {
    seq(|links|, j requires 0 <= j < |links| => links[j].dy)
  }

  function NodeValues(nodes: seq<Node>): seq<real> {
    seq(|nodes|, v requires 0 <= v < |nodes| => nodes[v].value)
  }

  function Breadths(nodes: seq<Node>): seq<nat> {
    seq(|nodes|, v requires 0 <= v < |nodes| => nodes[v].breadth)
  }

  function Tops(nodes: seq<Node>): seq<real> {
    seq(|nodes|, v requires 0 <= v < |nodes| => nodes[v].y)
  }

  function Heights(nodes: seq<Node>): seq<real> {
    seq(|nodes|, v requires 0 <= v < |nodes| => nodes[v].dy)
  }

  /** The two arenas differ at most in the nodes' `y`. */
  predicate OnlyTopsDiffer(a: seq<Node>, b: seq<Node>) {
    |a| == |b| && forall v :: 0 <= v < |a| ==> b[v] == a[v].(y := b[v].y)
  }
}
