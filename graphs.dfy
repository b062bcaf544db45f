/**
 * The part of a `networkx.Graph` the topology code uses: an undirected simple
 * graph over string vertices with a `type` attribute on some vertices and
 * some edges. An edge is the set of its end points, so `{u, v}` and `{v, u}`
 * are one edge and the edge set cannot hold a multi-edge.
 */
module Graphs {
  import opened Wrappers

  type Edge = set<string>

  function EdgeOf(u: string, v: string): Edge {
    {u, v}
  }

  datatype Graph = Graph(
    vertices: set<string>,
    edges: set<Edge>,
    vertexType: map<string, string>,
    edgeType: map<Edge, string>)

  /** Attributes only on existing vertices and edges; every edge joins existing vertices. */
  predicate Valid(g: Graph) {
    && g.vertexType.Keys <= g.vertices
    && g.edgeType.Keys <= g.edges
    && forall e :: e in g.edges ==> e != {} && e <= g.vertices
  }

  /** Every vertex, edge, typed vertex and typed edge of `g` is still in `h`. */
  predicate Grows(g: Graph, h: Graph) {
    && g.vertices <= h.vertices
    && g.edges <= h.edges
    && g.vertexType.Keys <= h.vertexType.Keys
    && g.edgeType.Keys <= h.edgeType.Keys
  }

  function EmptyGraph(): (g: Graph)
    ensures Valid(g) && g.vertices == {} && g.edges == {}
  {
    Graph({}, {}, map[], map[])
  }

  /** `G.add_node(n, type=t)`: adds `n` if absent and sets its `type`; nothing else changes. */
  function AddNode(g: Graph, n: string, t: string): (r: Graph)
    requires Valid(g)
    ensures Valid(r) && Grows(g, r)
    ensures n in r.vertexType && r.vertexType[n] == t
    ensures r.vertices == g.vertices + {n} && r.edges == g.edges
    ensures r.vertexType == g.vertexType[n := t] && r.edgeType == g.edgeType
  {
    Graph(g.vertices + {n}, g.edges, g.vertexType[n := t], g.edgeType)
  }

  /**
   * `G.add_edge(u, v)` (`t` is `None`) or `G.add_edge(u, v, type=t)`: adds the
   * missing end points without attributes, adds the edge if absent, and sets
   * its `type` when one is given; nothing else changes.
   */
  function AddEdge(g: Graph, u: string, v: string, t: Option<string>): (r: Graph)
    requires Valid(g)
    ensures Valid(r) && Grows(g, r)
    ensures u in r.vertices && v in r.vertices && EdgeOf(u, v) in r.edges
    ensures r.vertices == g.vertices + {u, v} && r.edges == g.edges + {EdgeOf(u, v)}
    ensures r.vertexType == g.vertexType
    ensures r.edgeType == if t.Some? then g.edgeType[EdgeOf(u, v) := t.value] else g.edgeType
  {
    var e := EdgeOf(u, v);
    Graph(g.vertices + {u, v}, g.edges + {e}, g.vertexType,
          if t.Some? then g.edgeType[e := t.value] else g.edgeType)
  }

  /** Edges are undirected: adding `(u, v)` and adding `(v, u)` give the same graph. */
  lemma AddEdgeUndirected(g: Graph, u: string, v: string, t: Option<string>)
    requires Valid(g)
    ensures AddEdge(g, u, v, t) == AddEdge(g, v, u, t)
  {
    assert EdgeOf(u, v) == EdgeOf(v, u);
  }

  /** Re-adding an edge already present, in either orientation and with the type it already has, changes nothing. */
  lemma AddEdgeAgain(g: Graph, u: string, v: string, t: Option<string>)
    requires Valid(g) && EdgeOf(u, v) in g.edges
    requires t.Some? ==> EdgeOf(u, v) in g.edgeType && g.edgeType[EdgeOf(u, v)] == t.value
    ensures AddEdge(g, u, v, t) == g && AddEdge(g, v, u, t) == g
  {
    AddEdgeUndirected(g, u, v, t);
    assert {u, v} <= g.vertices;
    assert g.vertices + {u, v} == g.vertices;
    assert g.edges + {EdgeOf(u, v)} == g.edges;
  }
}
