/**
 * `get_downstream`: an explicit-stack depth-first traversal with a visited set, proved to
 * return exactly the courses reachable from the start by one or more edges, minus the start.
 */
module Tracer {
  import opened Wrappers
  import opened DiGraphs
  import opened Paths

  datatype TraceError = UnknownNode(code: string)

  /**
   * What holds between two iterations of the traversal from `start` over nodes `N` and edges `E`:
   * everything on the stack or visited is a node reached from `start` (or `start` itself),
   * `start` has been visited or still waits, and every edge leaving a visited node ends in a
   * visited node or in one still on the stack.
   */
  ghost predicate Traversal(E: set<(string, string)>, N: set<string>, start: string, visited: set<string>, stack: seq<string>) {
    && visited <= N
    && (forall x :: x in stack ==> x in N)
    && (forall v :: v in visited ==> v == start || Reachable(E, start, v))
    && (forall x :: x in stack ==> x == start || Reachable(E, start, x))
    && (start in visited || start in stack)
    && (forall v, w :: v in visited && (v, w) in E ==> w in visited || w in stack)
  }

  /** Popping a node that was already visited keeps the invariant. */
  lemma SkipVisited(E: set<(string, string)>, N: set<string>, start: string, visited: set<string>, rest: seq<string>, node: string)
    requires Traversal(E, N, start, visited, rest + [node]) && node in visited
    ensures Traversal(E, N, start, visited, rest)
  {
    assert forall x :: x in rest + [node] <==> x in rest || x == node;
  }

  /** Visiting a popped node and pushing its successors keeps the invariant. */
  lemma VisitNode(E: set<(string, string)>, N: set<string>, start: string, visited: set<string>, rest: seq<string>,
                  node: string, next: seq<string>)
    requires Traversal(E, N, start, visited, rest + [node]) && node !in visited
    requires forall w :: w in next <==> (node, w) in E
    requires forall w :: w in next ==> w in N
    ensures Traversal(E, N, start, visited + {node}, rest + next)
  {
    assert forall x :: x in rest + [node] <==> x in rest || x == node;
    assert forall x :: x in rest + next <==> x in rest || x in next;
    forall w | w in next ensures w == start || Reachable(E, start, w) {
      if node == start {
        ReachableByEdge(E, start, w);
      } else {
        ReachableThenEdge(E, start, node, w);
      }
    }
  }

  /** With the stack empty, the visited nodes other than `start` are exactly its downstream set. */
  lemma TraversalDone(E: set<(string, string)>, N: set<string>, start: string, visited: set<string>)
    requires Traversal(E, N, start, visited, [])
    ensures visited - {start} == Downstream(E, start)
  {
    assert Closed(E, visited);
    forall t | t in Downstream(E, start) ensures t in visited {
      ClosedContainsReachable(E, visited, start, t);
    }
    forall t | t in visited - {start} ensures t in Downstream(E, start) {
      DownstreamMember(E, start, t);
    }
  }

  /**
   * Lines 46-55. Fails, as `graph.successors` does, when `start` is not a node.
   * Terminates on every graph, cycles included: a node enters `visited` at most once.
   */
  method GetDownstream(g: DiGraph, start: string) returns (r: Result<set<string>, TraceError>)
    requires g.Valid()
    ensures r.Failure? <==> start !in g.nodes
    ensures r.Failure? ==> r.error == UnknownNode(start)
    ensures r.Success? ==> r.value == Downstream(g.edges, start)
    ensures r.Success? ==> start !in r.value && r.value <= g.NodeSet()
  {
    var E, N := g.edges, g.NodeSet();
    assert forall c :: c in N <==> c in g.nodes;
    var visited: set<string> := {};
    var stack := [start];
    while stack != []
      invariant start !in N ==> visited == {} && stack == [start]
      invariant start in N ==> Traversal(E, N, start, visited, stack)
      decreases |N - visited|, |stack|
    {
      var node := stack[|stack| - 1];
      var rest := stack[..|stack| - 1];
      assert stack == rest + [node];
      if node in visited {
        SkipVisited(E, N, start, visited, rest, node);
        stack := rest;
      } else {
        var successors := g.Successors(node);
        if successors.None? {
          return Failure(UnknownNode(node));
        }
        var next := successors.value;
        VisitNode(E, N, start, visited, rest, node, next);
        assert N - (visited + {node}) == (N - visited) - {node};
        visited := visited + {node};
        stack := rest + next;
      }
    }
    TraversalDone(E, N, start, visited);
    return Success(visited - {start});
  }
}
