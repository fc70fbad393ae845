/**
 * Reachability in a directed graph given by its edge set: the reference definition
 * the downstream tracer is proved against.
 */
module Paths {

  /** Consecutive entries of `p` are joined by edges of `E`. */
  ghost predicate IsPath(E: set<(string, string)>, p: seq<string>) {
    forall k :: 0 <= k < |p| - 1 ==> (p[k], p[k + 1]) in E
  }

  /** `t` can be reached from `s` by following one or more edges. */
  ghost predicate Reachable(E: set<(string, string)>, s: string, t: string) {
    exists p: seq<string> :: |p| >= 2 && p[0] == s && p[|p| - 1] == t && IsPath(E, p)
  }

  /** The nodes at which some edge ends. */
  function Targets(E: set<(string, string)>): set<string> {
    set e | e in E :: e.1
  }

  /** The downstream set of `s`: every node reachable from `s` by one or more edges, except `s`. */
  ghost function Downstream(E: set<(string, string)>, s: string): set<string> {
    set t | t in Targets(E) && t != s && Reachable(E, s, t)
  }

  /** A node with a path of length one or more from `s` ends an edge. */
  lemma ReachableIsTarget(E: set<(string, string)>, s: string, t: string)
    requires Reachable(E, s, t)
    ensures t in Targets(E)
  {
    var p :| |p| >= 2 && p[0] == s && p[|p| - 1] == t && IsPath(E, p);
    assert (p[|p| - 2], p[|p| - 1]) in E;
  }

  /** Membership in the downstream set, both directions. */
  lemma DownstreamMember(E: set<(string, string)>, s: string, t: string)
    ensures t in Downstream(E, s) <==> t != s && Reachable(E, s, t)
  {
    if t != s && Reachable(E, s, t) {
      ReachableIsTarget(E, s, t);
    }
  }

  lemma ReachableByEdge(E: set<(string, string)>, s: string, t: string)
    requires (s, t) in E
    ensures Reachable(E, s, t)
  {
    assert IsPath(E, [s, t]);
  }

  lemma ReachableThenEdge(E: set<(string, string)>, s: string, u: string, t: string)
    requires Reachable(E, s, u) && (u, t) in E
    ensures Reachable(E, s, t)
  {
    var p :| |p| >= 2 && p[0] == s && p[|p| - 1] == u && IsPath(E, p);
    var q := p + [t];
    assert forall k :: 0 <= k < |q| - 1 ==> (q[k], q[k + 1]) in E by {
      forall k | 0 <= k < |q| - 1 ensures (q[k], q[k + 1]) in E {
        if k < |p| - 1 {
          assert q[k] == p[k] && q[k + 1] == p[k + 1];
        }
      }
    }
    assert IsPath(E, q);
  }

  /** `S` is closed under the edges: every edge leaving `S` ends in `S`. */
  ghost predicate Closed(E: set<(string, string)>, S: set<string>) {
    forall u, v :: (u, v) in E && u in S ==> v in S
  }

  /** A path that starts in a closed set stays in it. */
  lemma {:induction false} PathStaysInside(E: set<(string, string)>, S: set<string>, p: seq<string>)
    requires Closed(E, S) && IsPath(E, p) && |p| >= 1 && p[0] in S
    ensures p[|p| - 1] in S
    decreases |p|
  {
    if |p| > 1 {
      var q := p[..|p| - 1];
      assert IsPath(E, q) by {
        forall k | 0 <= k < |q| - 1 ensures (q[k], q[k + 1]) in E {
          assert q[k] == p[k] && q[k + 1] == p[k + 1];
        }
      }
      PathStaysInside(E, S, q);
      assert (p[|p| - 2], p[|p| - 1]) in E;
    }
  }

  /** Everything reachable from a member of a closed set lies in that set. */
  lemma ClosedContainsReachable(E: set<(string, string)>, S: set<string>, s: string, t: string)
    requires Closed(E, S) && s in S && Reachable(E, s, t)
    ensures t in S
  {
    var p :| |p| >= 2 && p[0] == s && p[|p| - 1] == t && IsPath(E, p);
    PathStaysInside(E, S, p);
  }

  /** A path of one or more edges from `s` starts with an edge out of `s`. */
  lemma FirstEdge(E: set<(string, string)>, s: string, t: string)
    requires Reachable(E, s, t)
    ensures exists u :: (s, u) in E
  {
    var p :| |p| >= 2 && p[0] == s && p[|p| - 1] == t && IsPath(E, p);
    assert (p[0], p[1]) in E;
  }

  /** A node without outgoing edges has an empty downstream set. */
  lemma NoSuccessorsNoDownstream(E: set<(string, string)>, s: string)
    requires forall u :: (s, u) !in E
    ensures Downstream(E, s) == {}
  {
    forall t | t in Downstream(E, s) ensures false {
      FirstEdge(E, s, t);
    }
  }

  /** On the cycle A -> B -> C -> A the downstream set of A is {B, C}: A itself is excluded. */
  lemma CycleDownstream(E: set<(string, string)>, a: string, b: string, c: string)
    requires a != b && b != c && c != a
    requires E == {(a, b), (b, c), (c, a)}
    ensures Downstream(E, a) == {b, c}
  {
    ReachableByEdge(E, a, b);
    ReachableThenEdge(E, a, b, c);
    DownstreamMember(E, a, b);
    DownstreamMember(E, a, c);
    assert Targets(E) == {b, c, a};
  }

  /** On the chain A -> B -> C the downstream set of A is {B, C} and that of C is empty. */
  lemma ChainDownstream(E: set<(string, string)>, a: string, b: string, c: string)
    requires a != b && b != c && c != a
    requires E == {(a, b), (b, c)}
    ensures Downstream(E, a) == {b, c}
    ensures Downstream(E, c) == {}
  {
    ReachableByEdge(E, a, b);
    ReachableThenEdge(E, a, b, c);
    DownstreamMember(E, a, b);
    DownstreamMember(E, a, c);
    assert Targets(E) == {b, c};
    NoSuccessorsNoDownstream(E, c);
  }
}
