/** One record per table row, and the course codes a table holds. */
module Courses {
  import opened Wrappers
  import opened DiGraphs

  /** A row: `Course Code`, `Course Title`, `Semester`, and the two requirement cells (None = NaN). */
  datatype Course = Course(
    code: string,
    title: string,
    semester: int,
    prerequisites: Option<string>,
    corequisites: Option<string>)

  /** The values of the `Course Code` column: every row's code is one of them. */
  function Codes(t: seq<Course>): (r: set<string>)
    ensures forall k :: 0 <= k < |t| ==> t[k].code in r
  {
    if t == [] then {}
    else
      var r := Codes(t[..|t| - 1]) + {t[|t| - 1].code};
      assert forall k :: 0 <= k < |t| - 1 ==> t[k] == t[..|t| - 1][k];
      r
  }

  /** And only those: every code is the code of some row. */
  lemma {:induction false} CodesHaveRows(t: seq<Course>, c: string)
    requires c in Codes(t)
    ensures exists k :: 0 <= k < |t| && t[k].code == c
  {
    var n := |t| - 1;
    if c != t[n].code {
      CodesHaveRows(t[..n], c);
      var k :| 0 <= k < n && t[..n][k].code == c;
      assert t[k] == t[..n][k];
    }
  }

  /** The node list networkx keeps after adding every row's code in table order. */
  function DistinctCodes(t: seq<Course>): (r: seq<string>)
    ensures Distinct(r)
    ensures forall c :: c in r <==> c in Codes(t)
  {
    if t == [] then [] else WithNode(DistinctCodes(t[..|t| - 1]), t[|t| - 1].code)
  }

  /** Row `k` is the last of the first `n` rows with its code. */
  ghost predicate LastOf(t: seq<Course>, n: nat, k: nat)
    requires k < n <= |t|
  {
    forall j :: k < j < n ==> t[j].code != t[k].code
  }

  /** A row that is last among the first `i + 1` rows is last among the first `i`, and row `i` has another code. */
  lemma LastOfPrefix(t: seq<Course>, i: nat, k: nat)
    requires k < i < |t| && LastOf(t, i + 1, k)
    ensures LastOf(t, i, k) && t[k].code != t[i].code
  {
  }

  /** With pairwise distinct codes the nodes are the codes in table order. */
  lemma {:induction false} DistinctCodesInTableOrder(t: seq<Course>)
    requires forall i, j :: 0 <= i < j < |t| ==> t[i].code != t[j].code
    ensures DistinctCodes(t) == seq(|t|, k requires 0 <= k < |t| => t[k].code)
  {
    if t != [] {
      var p := t[..|t| - 1];
      DistinctCodesInTableOrder(p);
      assert t[|t| - 1].code !in Codes(p);
    }
  }
}
