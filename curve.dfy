/** The curve helper `sankey.link()`: for a stacked link, the cubic Bézier
    from the middle of its band on the source node's right edge to the middle
    of its band on the target node's left edge. The original writes the
    points into an SVG path string; here they are returned as points. */
module Curve {
  import opened Graph

  datatype Point = Point(x: real, y: real)

  /** `M start C c1 c2 end`: start point, two control points, end point. */
  datatype Path = Path(start: Point, c1: Point, c2: Point, end: Point)

  /** The curvature the helper starts with. */
  const DefaultCurvature: real := 0.5

  /** `d3.interpolateNumber(a, b)(t)`. */
  function Lerp(a: real, b: real, t: real): real {
    a + (b - a) * t
  }

  /** The path of link j. None where an endpoint's `x` is not a number
      (the single-column layout), where the original writes `NaN` into the
      path. */
  function LinkPath(nodes: seq<Node>, links: seq<Link>, j: nat, curvature: real): Option<Path>
    requires ValidLinks(|nodes|, links) && j < |links|
  {
    var d := links[j];
    var source, target := nodes[d.source], nodes[d.target];
    if source.x.None? || target.x.None? then None
    else
      var x0 := source.x.value + source.dx;
      var x1 := target.x.value;
      var y0 := source.y + d.sy + d.dy / 2.0;
      var y1 := target.y + d.ty + d.dy / 2.0;
      Some(Path(Point(x0, y0), Point(Lerp(x0, x1, curvature), y0),
                Point(Lerp(x0, x1, 1.0 - curvature), y1), Point(x1, y1)))
  }

  /** The interpolation starts at `a`, ends at `b`, and with `t` in [0, 1]
      stays between them. */
  lemma LerpBetween(a: real, b: real, t: real)
    ensures Lerp(a, b, 0.0) == a && Lerp(a, b, 1.0) == b
    ensures a <= b && 0.0 <= t <= 1.0 ==> a <= Lerp(a, b, t) <= b
  {
    if a <= b && 0.0 <= t <= 1.0 {
      ProductNonNegative(b - a, t);
      ProductNonNegative(b - a, 1.0 - t);
      assert (b - a) - (b - a) * t == (b - a) * (1.0 - t);
    }
  }

  lemma ProductNonNegative(x: real, y: real)
    requires x >= 0.0 && y >= 0.0
    ensures x * y >= 0.0
  {
  }

  /** Where the curve starts and ends: on the source node's right edge at the
      middle of the link's band there, and on the target node's left edge at
      the middle of its band there; with a non-negative thickness each end
      lies inside its band. The curve leaves and arrives horizontally (each
      control point at the height of its end), the two control points are
      placed symmetrically between the ends, at the midpoint with the
      default curvature, and with a curvature in [0, 1] they lie between the
      ends when the source is left of the target. */
  lemma PathShape(nodes: seq<Node>, links: seq<Link>, j: nat, curvature: real)
    requires ValidLinks(|nodes|, links) && j < |links|
    ensures var d := links[j];
      var source, target := nodes[d.source], nodes[d.target];
      var p := LinkPath(nodes, links, j, curvature);
      && (p.Some? <==> source.x.Some? && target.x.Some?)
      && (p.Some? ==>
        && p.value.start.x == source.x.value + source.dx
        && p.value.end.x == target.x.value
        && (d.dy >= 0.0 ==> source.y + d.sy <= p.value.start.y <= source.y + d.sy + d.dy)
        && (d.dy >= 0.0 ==> target.y + d.ty <= p.value.end.y <= target.y + d.ty + d.dy)
        && p.value.c1.y == p.value.start.y && p.value.c2.y == p.value.end.y
        && p.value.c1.x + p.value.c2.x == p.value.start.x + p.value.end.x
        && (curvature == DefaultCurvature ==> p.value.c1.x == p.value.c2.x)
        && (p.value.start.x <= p.value.end.x && 0.0 <= curvature <= 1.0 ==>
              && p.value.start.x <= p.value.c1.x <= p.value.end.x
              && p.value.start.x <= p.value.c2.x <= p.value.end.x))
  {
    var p := LinkPath(nodes, links, j, curvature);
    if p.Some? {
      var x0, x1 := p.value.start.x, p.value.end.x;
      LerpBetween(x0, x1, curvature);
      LerpBetween(x0, x1, 1.0 - curvature);
    }
  }
}
