/**
 * The boundary to the layered-layout library (`Dagre` from `@dagrejs/dagre`).
 * The library is not modelled: a layout graph is an abstract set of sized nodes
 * and of edges, and `Dagre.layout` followed by `graph.node(id)` is a function
 * from such a graph to node centres, passed in by the caller. Nodes are keyed by
 * task id: the source keys them by `id.toString()`, which is injective
 * (`Flow.IntToStringInjective`), so nothing is lost.
 */
module Layout {

  datatype Point = Point(x: real, y: real)

  datatype Size = Size(width: real, height: real)

  datatype LayoutGraph = LayoutGraph(nodes: map<int, Size>, edges: set<(int, int)>)

  /** The fixed node width of both layout engines. */
  const NodeWidth: real := 600.0

  /** A layout function that places every node of every graph it is given. */
  ghost predicate PlacesAllNodes(layout: LayoutGraph -> map<int, Point>) {
    forall g: LayoutGraph :: g.nodes.Keys <= layout(g).Keys
  }

  /**
   * The library's centre-anchored position turned into the renderer's top-left
   * anchored one.
   */
  function TopLeft(centre: Point, width: real, height: real): (p: Point)
    ensures p.x + width / 2.0 == centre.x && p.y + height / 2.0 == centre.y
  {
    Point(centre.x - width / 2.0, centre.y - height / 2.0)
  }
}
