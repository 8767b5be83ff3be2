/** The mesh entities that the graph builders read, and the output parameters
    that steer them. Vertices are identified by their (unique) vertex number;
    elements are shared, immutable objects, so two distinct elements stay
    distinct even when their numbers coincide. */
module Mesh {

  /** One edge of an element as the element reports it: the numbers of its two
      endpoints, in the element's own order. */
  datatype Edge = Edge(v0: int, v1: int)

  /** A mesh element (triangle, quadrangle, polygon or line segment): its
      number, its vertices in winding order and its edges. Nothing in the core
      changes an element; its identity is the object itself. */
  class MeshElement {
    const num: int
    const vertices: seq<int>
    const edges: seq<Edge>

    constructor (num: int, vertices: seq<int>, edges: seq<Edge>)
      ensures this.num == num && this.vertices == vertices && this.edges == edges
    {
      this.num := num;
      this.vertices := vertices;
      this.edges := edges;
    }
  }

  /** Which table is built: the vertex adjacency graph or the element outlines. */
  datatype GraphMode = Node | Element

  /** The parameters the builders read: the mode and the element-number filter
      (`only` switches it on, `onlyList` holds the numbers). */
  datatype Param = Param(graph: GraphMode, only: bool, onlyList: seq<int>)
}
