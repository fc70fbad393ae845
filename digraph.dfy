/**
 * The part of a networkx `DiGraph` the script uses: nodes kept in insertion order,
 * a `title` attribute per node, and a simple set of directed edges.
 */
module DiGraphs {
  import opened Wrappers

  /** `ns` with `x` appended unless it is already there (how networkx adds a node). */
  function WithNode(ns: seq<string>, x: string): (r: seq<string>)
    ensures x in r && (forall y :: y in r <==> y in ns || y == x)
  {
    if x in ns then ns else ns + [x]
  }

  ghost predicate Distinct(ns: seq<string>) {
    forall i, j :: 0 <= i < j < |ns| ==> ns[i] != ns[j]
  }

  class DiGraph {
    var nodes: seq<string>
    var titles: map<string, string>
    var edges: set<(string, string)>

    /** Nodes are listed once each; titles and edge endpoints refer to nodes. */
    ghost predicate Valid()
      reads this
    {
      && Distinct(nodes)
      && (forall c :: c in titles ==> c in nodes)
      && (forall u, v :: (u, v) in edges ==> u in nodes && v in nodes)
    }

    /** The nodes as a set. */
    function NodeSet(): set<string>
      reads this
    {
      set c | c in nodes
    }

    /** `nx.DiGraph()`: the empty graph. */
    constructor ()
      ensures Valid()
      ensures nodes == [] && titles == map[] && edges == {}
    {
      nodes, titles, edges := [], map[], {};
    }

    /** `add_node(code, title=title)`: a new code is appended; an existing one keeps its place and gets the new title. */
    method AddNode(code: string, title: string)
      requires Valid()
      modifies this
      ensures Valid()
      ensures nodes == WithNode(old(nodes), code)
      ensures titles == old(titles)[code := title]
      ensures edges == old(edges)
    {
      nodes := WithNode(nodes, code);
      titles := titles[code := title];
    }

    /** `add_edge(u, v)`: missing endpoints are added first (without a title), then the edge. */
    method AddEdge(u: string, v: string)
      requires Valid()
      modifies this
      ensures Valid()
      ensures nodes == WithNode(WithNode(old(nodes), u), v)
      ensures titles == old(titles)
      ensures edges == old(edges) + {(u, v)}
    {
      nodes := WithNode(WithNode(nodes, u), v);
      edges := edges + {(u, v)};
    }

    /**
     * `successors(n)`: the heads of the edges leaving `n`, each once. networkx lists them in the
     * order the edges were added; this model leaves the order open. An unknown node is an error.
     */
    method Successors(n: string) returns (r: Option<seq<string>>)
      ensures r.None? <==> n !in nodes
      ensures r.Some? ==> Distinct(r.value) && forall w :: w in r.value <==> (n, w) in edges
    {
      if n !in nodes {
        return None;
      }
      var rest := set e | e in edges && e.0 == n :: e.1;
      var out := [];
      while rest != {}
        invariant Distinct(out)
        invariant forall w :: w in rest ==> w !in out
        invariant forall w :: (w in out || w in rest) <==> (n, w) in edges
        decreases |rest|
      {
        var w :| w in rest;
        out := out + [w];
        rest := rest - {w};
      }
      return Some(out);
    }
  }
}
