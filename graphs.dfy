/**
 * The directed graphs of cycle.py (networkx `DiGraph`s): nodes are students
 * at their current section pair, plus the two synthetic endpoints that
 * `shift_path` adds. A `Graph` is a snapshot value; `DiGraph` is the object
 * that `add_edge` updates in place.
 */
module Graphs {
  import opened Sections

  /**
   * A node: `(name, (rec, tut))` for a student, or one of the strings
   * "source_string" and "sink_string".
   */
  datatype Node = Student(name: string, sec: SectionPair) | Source | Sink

  /**
   * Python's `node[0]`: the name of a student node, and the first character
   * "s" of either synthetic endpoint.
   */
  function Head(n: Node): string {
    match n
    case Student(name, _) => name
    case Source => "s"
    case Sink => "s"
  }

  /** A snapshot of a directed graph: its nodes and its edges. */
  datatype Graph = Graph(nodes: set<Node>, edges: set<(Node, Node)>)

  /** Every edge joins two nodes of the graph. */
  predicate Valid(g: Graph) {
    forall e :: e in g.edges ==> e.0 in g.nodes && e.1 in g.nodes
  }

  const Empty: Graph := Graph({}, {})

  /** `G.add_edge(u, v)`: both endpoints become nodes. */
  function WithEdge(g: Graph, u: Node, v: Node): (r: Graph)
    ensures Valid(g) ==> Valid(r)
  {
    Graph(g.nodes + {u, v}, g.edges + {(u, v)})
  }

  /** The nodes a set of edges joins. */
  function Endpoints(edges: set<(Node, Node)>): set<Node> {
    (set e | e in edges :: e.0) + (set e | e in edges :: e.1)
  }

  /** `G.add_edge(u, v)` for every edge `(u, v)` of `added`: the edges and their endpoints join the graph. */
  function AddEdges(g: Graph, added: set<(Node, Node)>): (r: Graph)
    ensures Valid(g) ==> Valid(r)
  {
    var r := Graph(g.nodes + Endpoints(added), g.edges + added);
    assert forall e :: e in added ==> e.0 in Endpoints(added) && e.1 in Endpoints(added);
    r
  }

  lemma EndpointsUnion(a: set<(Node, Node)>, b: set<(Node, Node)>)
    ensures Endpoints(a + b) == Endpoints(a) + Endpoints(b)
  {
  }

  /** Adding no edge changes nothing. */
  lemma AddNothing(g: Graph)
    ensures AddEdges(g, {}) == g
  {
  }

  /** Adding two sets of edges in turn adds their union. */
  lemma AddEdgesUnion(g: Graph, a: set<(Node, Node)>, b: set<(Node, Node)>)
    ensures AddEdges(AddEdges(g, a), b) == AddEdges(g, a + b)
  {
    EndpointsUnion(a, b);
  }

  /** Adding one edge is `WithEdge`. */
  lemma AddEdgesOne(g: Graph, u: Node, v: Node)
    ensures WithEdge(g, u, v) == AddEdges(g, {(u, v)})
  {
    assert Endpoints({(u, v)}) == {u, v} by {
      assert (u, v).0 == u && (u, v).1 == v;
    }
  }

  /** `G.remove_nodes_from(removed)`: the nodes go, and every edge that touches one. */
  function RemoveNodes(g: Graph, removed: set<Node>): (r: Graph)
    ensures Valid(g) ==> Valid(r)
  {
    Graph(g.nodes - removed, set e | e in g.edges && e.0 !in removed && e.1 !in removed)
  }

  /** Removing nodes keeps exactly the rest: no other node or edge changes. */
  lemma RemoveNodesExact(g: Graph, removed: set<Node>, n: Node, e: (Node, Node))
    ensures n in RemoveNodes(g, removed).nodes <==> n in g.nodes && n !in removed
    ensures e in RemoveNodes(g, removed).edges <==> e in g.edges && e.0 !in removed && e.1 !in removed
  {
  }

  /** Removing a non-empty set of present nodes shrinks the graph. */
  lemma RemoveNodesShrinks(g: Graph, removed: set<Node>)
    requires removed != {} && removed <= g.nodes
    ensures |RemoveNodes(g, removed).nodes| < |g.nodes|
  {
    var n :| n in removed;
    assert RemoveNodes(g, removed).nodes <= g.nodes - {n};
    assert |g.nodes - {n}| == |g.nodes| - 1;
    SubsetCard(RemoveNodes(g, removed).nodes, g.nodes - {n});
  }

  lemma SubsetCard<T>(a: set<T>, b: set<T>)
    requires a <= b
    ensures |a| <= |b|
  {
    if a != {} {
      var x :| x in a;
      SubsetCard(a - {x}, b - {x});
    }
  }

  /** The nodes a sequence of nodes visits. */
  function NodesOf(c: seq<Node>): (r: set<Node>)
    ensures forall i :: 0 <= i < |c| ==> c[i] in r
    ensures forall n :: n in r ==> exists i :: 0 <= i < |c| && c[i] == n
  {
    set i | 0 <= i < |c| :: c[i]
  }

  /** No node occurs twice. */
  predicate Distinct(c: seq<Node>) {
    forall i, j :: 0 <= i < j < |c| ==> c[i] != c[j]
  }

  /**
   * A simple cycle in networkx's sense: a non-empty list of distinct nodes,
   * each with an edge to the next and the last with an edge back to the first.
   */
  predicate IsSimpleCycle(g: Graph, c: seq<Node>) {
    |c| >= 1 && Distinct(c)
    && (forall i :: 0 <= i < |c| - 1 ==> (c[i], c[i + 1]) in g.edges)
    && (c[|c| - 1], c[0]) in g.edges
  }

  /** A simple path from `s` to `t`: distinct nodes, consecutive ones joined by edges. */
  predicate IsSimplePath(g: Graph, p: seq<Node>, s: Node, t: Node) {
    |p| >= 2 && p[0] == s && p[|p| - 1] == t && Distinct(p)
    && forall i :: 0 <= i < |p| - 1 ==> (p[i], p[i + 1]) in g.edges
  }

  /** A cycle of a valid graph stays within its nodes. */
  lemma CycleNodesPresent(g: Graph, c: seq<Node>)
    requires Valid(g) && IsSimpleCycle(g, c)
    ensures NodesOf(c) <= g.nodes
  {
    forall n | n in NodesOf(c) ensures n in g.nodes {
      var i :| 0 <= i < |c| && c[i] == n;
      if i < |c| - 1 {
        assert (c[i], c[i + 1]) in g.edges;
      } else {
        assert (c[|c| - 1], c[0]) in g.edges;
      }
    }
  }

  /** A cycle whose nodes all survive a removal is still a cycle of what is left. */
  lemma CycleSurvives(g: Graph, removed: set<Node>, c: seq<Node>)
    requires IsSimpleCycle(g, c) && NodesOf(c) !! removed
    ensures IsSimpleCycle(RemoveNodes(g, removed), c)
  {
    var h := RemoveNodes(g, removed);
    forall i | 0 <= i < |c| - 1 ensures (c[i], c[i + 1]) in h.edges {
      assert c[i] in NodesOf(c) && c[i + 1] in NodesOf(c);
    }
    assert c[0] in NodesOf(c) && c[|c| - 1] in NodesOf(c);
  }

  /** A networkx `DiGraph` whose edges are added in place. */
  class DiGraph {
    var nodes: set<Node>
    var edges: set<(Node, Node)>

    /** The graph as it stands. */
    function Value(): Graph
      reads this
    {
      Graph(nodes, edges)
    }

    /** `nx.DiGraph()`: no nodes, no edges. */
    constructor ()
      ensures Value() == Empty
    {
      nodes := {};
      edges := {};
    }

    /** `G.add_edge(u, v)`, which adds the endpoints that are missing. */
    method AddEdge(u: Node, v: Node)
      modifies this
      ensures Value() == WithEdge(old(Value()), u, v)
    {
      nodes := nodes + {u, v};
      edges := edges + {(u, v)};
    }

    /** `n in set(G.nodes())`. */
    method HasNode(n: Node) returns (b: bool)
      ensures b <==> n in Value().nodes
    {
      b := n in nodes;
    }
  }
}
