/** The directed graph the builder fills and the engine reads (a networkx
    `DiGraph`), as a value. Nodes are kept in insertion order, each with an
    attribute dictionary; edges are kept in the order in which each
    (source, target) pair was first inserted, each with its own attribute
    dictionary. A node's successors are listed in that edge order. */
module Graphs {

  type NodeId = string

  /** A node's or an edge's attribute dictionary. Every attribute the core
      writes is a string. */
  type Attrs = map<string, string>

  datatype Edge = Edge(src: NodeId, dst: NodeId)

  datatype Graph = Graph(
    nodes: seq<NodeId>,
    attrs: map<NodeId, Attrs>,
    edges: seq<Edge>,
    edgeAttrs: map<Edge, Attrs>)

  /** `nx.DiGraph()`. */
  const Empty: Graph := Graph([], map[], [], map[])

  ghost predicate Distinct<T>(s: seq<T>)
  {
    forall i, j :: 0 <= i < j < |s| ==> s[i] != s[j]
  }

  /** What every networkx graph satisfies: each node listed once and with an
      attribute dictionary, each edge listed once and with an attribute
      dictionary, and both ends of every edge are nodes. */
  ghost predicate Valid(g: Graph)
  {
    && Distinct(g.nodes)
    && (forall n :: n in g.attrs <==> n in g.nodes)
    && Distinct(g.edges)
    && (forall e :: e in g.edgeAttrs <==> e in g.edges)
    && (forall e :: e in g.edgeAttrs ==> e.src in g.attrs && e.dst in g.attrs)
  }

  /** `g.add_node(n, **a)`: a new node goes to the end with attributes `a`; an
      existing node keeps its place and has `a` merged into its attributes. */
  function AddNode(g: Graph, n: NodeId, a: Attrs): (r: Graph)
    ensures Valid(g) ==> Valid(r)
    ensures n in r.attrs && r.attrs[n] == (if n in g.attrs then g.attrs[n] else map[]) + a
    ensures forall m :: m != n ==> (m in r.attrs <==> m in g.attrs)
    ensures forall m :: m != n && m in g.attrs ==> r.attrs[m] == g.attrs[m]
    ensures r.nodes == if n in g.attrs then g.nodes else g.nodes + [n]
    ensures r.edges == g.edges && r.edgeAttrs == g.edgeAttrs
  {
    if n in g.attrs then
      g.(attrs := g.attrs[n := g.attrs[n] + a])
    else
      g.(nodes := g.nodes + [n], attrs := g.attrs[n := a])
  }

  /** The node insertion `add_edge` performs for an absent endpoint. */
  function EnsureNode(g: Graph, n: NodeId): (r: Graph)
    ensures Valid(g) ==> Valid(r)
    ensures forall m :: m in r.attrs <==> m in g.attrs || m == n
    ensures forall m :: m in g.attrs ==> r.attrs[m] == g.attrs[m]
    ensures n !in g.attrs ==> r.attrs[n] == map[]
    ensures r.nodes == if n in g.attrs then g.nodes else g.nodes + [n]
    ensures r.edges == g.edges && r.edgeAttrs == g.edgeAttrs
  {
    if n in g.attrs then g else g.(nodes := g.nodes + [n], attrs := g.attrs[n := map[]])
  }

  /** `g.add_edge(u, v, **a)`: absent endpoints are added as nodes without
      attributes (first `u`, then `v`); a new edge goes to the end with
      attributes `a`; an existing edge keeps its place and has `a` merged in. */
  function AddEdge(g: Graph, u: NodeId, v: NodeId, a: Attrs): (r: Graph)
    ensures forall m :: m in r.attrs <==> m in g.attrs || m == u || m == v
    ensures forall m :: m in g.attrs ==> r.attrs[m] == g.attrs[m]
    ensures Edge(u, v) in r.edgeAttrs
    ensures r.edgeAttrs[Edge(u, v)] == (if Edge(u, v) in g.edgeAttrs then g.edgeAttrs[Edge(u, v)] else map[]) + a
    ensures forall e :: e in r.edgeAttrs <==> e in g.edgeAttrs || e == Edge(u, v)
    ensures forall e :: e != Edge(u, v) && e in g.edgeAttrs ==> r.edgeAttrs[e] == g.edgeAttrs[e]
    ensures r.edges == if Edge(u, v) in g.edgeAttrs then g.edges else g.edges + [Edge(u, v)]
    ensures u in g.attrs && v in g.attrs ==> r.nodes == g.nodes
  {
    var g2 := EnsureNode(EnsureNode(g, u), v);
    var e := Edge(u, v);
    if e in g2.edgeAttrs then
      g2.(edgeAttrs := g2.edgeAttrs[e := g2.edgeAttrs[e] + a])
    else
      g2.(edges := g2.edges + [e], edgeAttrs := g2.edgeAttrs[e := a])
  }

  /** The endpoints `add_edge` adds: an absent `u` and then an absent `v` go
      to the end of the node list, without attributes. */
  lemma AddEdgeEnds(g: Graph, u: NodeId, v: NodeId, a: Attrs)
    ensures var r := AddEdge(g, u, v, a);
      && (u !in g.attrs ==> r.attrs[u] == map[])
      && (v !in g.attrs ==> r.attrs[v] == map[])
      && r.nodes == g.nodes + (if u in g.attrs then [] else [u]) + (if v in g.attrs || v == u then [] else [v])
  {
    var g1 := EnsureNode(g, u);
    assert v in g1.attrs <==> v in g.attrs || v == u;
  }

  /** Adding an edge keeps a graph valid. */
  lemma AddEdgeValid(g: Graph, u: NodeId, v: NodeId, a: Attrs)
    requires Valid(g)
    ensures Valid(AddEdge(g, u, v, a))
  {
    var g2 := EnsureNode(EnsureNode(g, u), v);
    assert Valid(g2);
    var e := Edge(u, v);
    if e !in g2.edgeAttrs {
      var r := g2.(edges := g2.edges + [e], edgeAttrs := g2.edgeAttrs[e := a]);
      assert e !in g2.edges;
      assert Distinct(r.edges) by {
        forall i, j | 0 <= i < j < |r.edges| ensures r.edges[i] != r.edges[j] {
          if j == |g2.edges| { assert r.edges[i] == g2.edges[i]; assert g2.edges[i] in g2.edges; }
        }
      }
      assert Valid(r);
    }
  }

  /** `b` keeps the nodes and edges of `a` in place, and may add more at the end. */
  ghost predicate Grows(a: Graph, b: Graph)
  {
    && |a.nodes| <= |b.nodes| && b.nodes[..|a.nodes|] == a.nodes
    && |a.edges| <= |b.edges| && b.edges[..|a.edges|] == a.edges
    && (forall n :: n in a.attrs ==> n in b.attrs)
  }

  lemma GrowthTransitive(a: Graph, b: Graph, c: Graph)
    requires Grows(a, b) && Grows(b, c)
    ensures Grows(a, c)
  {
    assert c.nodes[..|a.nodes|] == c.nodes[..|b.nodes|][..|a.nodes|];
    assert c.edges[..|a.edges|] == c.edges[..|b.edges|][..|a.edges|];
  }

  lemma AddNodeGrows(g: Graph, n: NodeId, a: Attrs)
    ensures Grows(g, AddNode(g, n, a))
  {
  }

  lemma AddEdgeGrows(g: Graph, u: NodeId, v: NodeId, a: Attrs)
    ensures Grows(g, AddEdge(g, u, v, a))
  {
    var r := AddEdge(g, u, v, a);
    var g1 := EnsureNode(g, u);
    var g2 := EnsureNode(g1, v);
    assert Grows(g, g1) && Grows(g1, g2);
    GrowthTransitive(g, g1, g2);
    assert r.nodes == g2.nodes;
  }

  /** The targets of the edges of `edges` leaving `u`, in edge order. */
  function SuccessorsIn(edges: seq<Edge>, u: NodeId): seq<NodeId>
  {
    if edges == [] then []
    else (if edges[0].src == u then [edges[0].dst] else []) + SuccessorsIn(edges[1..], u)
  }

  /** `g.neighbors(u)` on a directed graph: the successors of `u`. */
  function Successors(g: Graph, u: NodeId): seq<NodeId>
  {
    SuccessorsIn(g.edges, u)
  }

  /** `v` is listed as a successor of `u` exactly when the edge `u -> v` exists. */
  lemma {:induction false} SuccessorsInIff(edges: seq<Edge>, u: NodeId, v: NodeId)
    ensures v in SuccessorsIn(edges, u) <==> Edge(u, v) in edges
  {
    if edges != [] {
      SuccessorsInIff(edges[1..], u, v);
      assert edges == [edges[0]] + edges[1..];
    }
  }

  lemma SuccessorsIff(g: Graph, u: NodeId, v: NodeId)
    ensures v in Successors(g, u) <==> Edge(u, v) in g.edges
  {
    SuccessorsInIff(g.edges, u, v);
  }

  /** In a graph whose edges are listed once, no successor is listed twice. */
  lemma {:induction false} SuccessorsInDistinct(edges: seq<Edge>, u: NodeId)
    requires Distinct(edges)
    ensures Distinct(SuccessorsIn(edges, u))
  {
    if edges != [] {
      var rest := SuccessorsIn(edges[1..], u);
      assert Distinct(edges[1..]) by {
        forall i, j | 0 <= i < j < |edges[1..]| ensures edges[1..][i] != edges[1..][j] {
          assert edges[1..][i] == edges[i + 1] && edges[1..][j] == edges[j + 1];
        }
      }
      SuccessorsInDistinct(edges[1..], u);
      if edges[0].src == u {
        SuccessorsInIff(edges[1..], u, edges[0].dst);
        assert Edge(u, edges[0].dst) == edges[0];
        assert edges[0] !in edges[1..] by {
          forall k | 0 <= k < |edges[1..]| ensures edges[1..][k] != edges[0] { assert edges[1..][k] == edges[k + 1]; }
        }
        var r := [edges[0].dst] + rest;
        forall i, j | 0 <= i < j < |r| ensures r[i] != r[j] {
          if i == 0 { assert r[j] == rest[j - 1]; assert rest[j - 1] in rest; } else { assert r[i] == rest[i - 1] && r[j] == rest[j - 1]; }
        }
      } else {
        assert SuccessorsIn(edges, u) == rest;
      }
    }
  }
}
