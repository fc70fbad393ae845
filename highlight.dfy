/**
 * The colour loop of cae_map.py and the script as a whole: build the graph, trace the
 * selected course's downstream set, and give every node one label.
 */
module Highlight {
  import opened DiGraphs
  import opened Paths
  import opened Courses
  import opened Builder
  import opened Tracer

  /** The three node colours: orange, lightgreen and lightblue. */
  datatype Label = Selected | Connected | Unrelated

  /** Lines 61-68: one label per node, in node order. */
  method NodeColors(nodes: seq<string>, selected: string, downstream: set<string>) returns (colors: seq<Label>)
    ensures |colors| == |nodes|
    ensures forall i :: 0 <= i < |nodes| ==> (colors[i] == Selected <==> nodes[i] == selected)
    ensures forall i :: 0 <= i < |nodes| ==> (colors[i] == Connected <==> nodes[i] != selected && nodes[i] in downstream)
    ensures forall i :: 0 <= i < |nodes| ==> (colors[i] == Unrelated <==> nodes[i] != selected && nodes[i] !in downstream)
  {
    colors := [];
    for i := 0 to |nodes|
      invariant |colors| == i
      invariant forall k :: 0 <= k < i ==> (colors[k] == Selected <==> nodes[k] == selected)
      invariant forall k :: 0 <= k < i ==> (colors[k] == Connected <==> nodes[k] != selected && nodes[k] in downstream)
    {
      var node := nodes[i];
      if node == selected {
        colors := colors + [Selected];
      } else if node in downstream {
        colors := colors + [Connected];
      } else {
        colors := colors + [Unrelated];
      }
    }
  }

  /** How many entries of `colors` are `l`. */
  function CountLabel(colors: seq<Label>, l: Label): nat {
    if colors == [] then 0
    else CountLabel(colors[..|colors| - 1], l) + (if colors[|colors| - 1] == l then 1 else 0)
  }

  /** With distinct nodes and the selected course among them, exactly one label is `Selected`. */
  lemma {:induction false} CountOneSelected(nodes: seq<string>, colors: seq<Label>, selected: string, j: nat)
    requires |colors| == |nodes| && Distinct(nodes) && j < |nodes| && nodes[j] == selected
    requires forall i :: 0 <= i < |nodes| ==> (colors[i] == Selected <==> nodes[i] == selected)
    ensures CountLabel(colors, Selected) == 1
    decreases |nodes|
  {
    var n := |nodes| - 1;
    if j < n {
      var ns, cs := nodes[..n], colors[..n];
      assert Distinct(ns);
      assert forall i :: 0 <= i < |ns| ==> (cs[i] == Selected <==> ns[i] == selected);
      CountOneSelected(ns, cs, selected, j);
      assert nodes[n] != nodes[j];
    } else {
      NoneSelected(colors[..n]);
    }
  }

  /** No entry is `Selected`, so none is counted. */
  lemma {:induction false} NoneSelected(colors: seq<Label>)
    requires forall i :: 0 <= i < |colors| ==> colors[i] != Selected
    ensures CountLabel(colors, Selected) == 0
  {
    if colors != [] {
      NoneSelected(colors[..|colors| - 1]);
    }
  }

  /**
   * The script, lines 8-68 without the drawing: for a course picked from the table, every node
   * gets exactly one label; the selected course alone is orange, a node is green exactly when it
   * is reachable from the selection by one or more edges, and everything else is blue.
   */
  method CurriculumMap(table: seq<Course>, selected: string) returns (nodes: seq<string>, colors: seq<Label>)
    requires selected in Codes(table)
    ensures nodes == DistinctCodes(table) && |colors| == |nodes|
    ensures CountLabel(colors, Selected) == 1
    ensures forall i :: 0 <= i < |nodes| ==> (colors[i] == Selected <==> nodes[i] == selected)
    ensures forall i :: 0 <= i < |nodes| ==>
              (colors[i] == Connected <==> nodes[i] != selected && Reachable(GraphEdges(table), selected, nodes[i]))
    ensures forall i :: 0 <= i < |nodes| ==>
              (colors[i] == Unrelated <==> nodes[i] != selected && !Reachable(GraphEdges(table), selected, nodes[i]))
  {
    var g, positions, tracker := BuildGraph(table);
    var traced := GetDownstream(g, selected);
    var downstream := traced.value;
    nodes := g.nodes;
    colors := NodeColors(nodes, selected, downstream);
    forall i | 0 <= i < |nodes| ensures nodes[i] in downstream <==> nodes[i] != selected && Reachable(g.edges, selected, nodes[i]) {
      DownstreamMember(g.edges, selected, nodes[i]);
    }
    var j :| 0 <= j < |nodes| && nodes[j] == selected;
    CountOneSelected(nodes, colors, selected, j);
  }
}
