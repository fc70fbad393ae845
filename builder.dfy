/**
 * The graph builder of cae_map.py: the first loop places every course on the grid and adds
 * it as a node, the second adds an edge requirement -> course for every prerequisite and
 * corequisite entry that names a course of the table.
 */
module Builder {
  import opened Wrappers
  import opened PyStr
  import opened DiGraphs
  import opened Courses
  import opened Layout

  /** The edges the pieces `ps` of `course`'s cell contribute: each stripped, non-empty piece that is a known code. */
  function PieceEdges(ps: seq<string>, course: string, codes: set<string>): set<(string, string)> {
    set q | q in ps && Strip(q) != [] && Strip(q) in codes :: (Strip(q), course)
  }

  /** One more piece adds its edge exactly when it strips to a non-empty known code. */
  lemma PieceEdgesStep(ps: seq<string>, k: nat, course: string, codes: set<string>)
    requires k < |ps|
    ensures var q := Strip(ps[k]);
            PieceEdges(ps[..k + 1], course, codes)
            == PieceEdges(ps[..k], course, codes) + (if q != [] && q in codes then {(q, course)} else {})
  {
    assert forall x :: x in ps[..k + 1] <==> x in ps[..k] || x == ps[k] by {
      assert ps[..k + 1] == ps[..k] + [ps[k]];
    }
  }

  /** The pieces of one cell: a NaN cell has none, any other is split on ",". */
  function CellPieces(cell: Option<string>): seq<string> {
    match cell
    case None => []
    case Some(s) => Split(s, ',')
  }

  /** The edges one row contributes, from its prerequisites and its corequisites alike. */
  function RowEdges(row: Course, codes: set<string>): set<(string, string)> {
    PieceEdges(CellPieces(row.prerequisites), row.code, codes)
      + PieceEdges(CellPieces(row.corequisites), row.code, codes)
  }

  /** The edges the rows contribute, references checked against `codes`. */
  function RequirementEdges(rows: seq<Course>, codes: set<string>): set<(string, string)> {
    if rows == [] then {}
    else RequirementEdges(rows[..|rows| - 1], codes) + RowEdges(rows[|rows| - 1], codes)
  }

  /** The edge set of the graph built from table `t`. */
  function GraphEdges(t: seq<Course>): set<(string, string)> {
    RequirementEdges(t, Codes(t))
  }

  /** The entries a cell names: its comma-separated pieces, stripped (a NaN cell names nothing). */
  function Entries(cell: Option<string>): set<string> {
    set q | q in CellPieces(cell) :: Strip(q)
  }

  /** The cell names `p`. */
  ghost predicate Lists(cell: Option<string>, p: string) {
    p in Entries(cell)
  }

  /** Lines 32-35 (or 36-39): add an edge `piece -> course` for each piece of `cell` that names a known code. */
  method AddCellEdges(g: DiGraph, cell: Option<string>, course: string, codes: set<string>)
    requires g.Valid() && course in g.nodes && codes <= g.NodeSet()
    modifies g
    ensures g.Valid()
    ensures g.nodes == old(g.nodes) && g.titles == old(g.titles)
    ensures g.edges == old(g.edges) + PieceEdges(CellPieces(cell), course, codes)
  {
    var pieces := if cell.Some? then Split(cell.value, ',') else [];
    for k := 0 to |pieces|
      invariant g.Valid()
      invariant g.nodes == old(g.nodes) && g.titles == old(g.titles)
      invariant g.edges == old(g.edges) + PieceEdges(pieces[..k], course, codes)
    {
      PieceEdgesStep(pieces, k, course, codes);
      var piece := Strip(pieces[k]);
      if piece != "" && piece in codes {
        g.AddEdge(piece, course);
      }
    }
    assert pieces[..|pieces|] == pieces;
  }

  /** `layout_tracker.get(semester, 0)`. */
  function RowsSoFar(tracker: map<int, nat>, semester: int): nat {
    if semester in tracker then tracker[semester] else 0
  }

  /** After the first `n` rows: each has a slot, and the last row of a code decides its slot. */
  ghost predicate PositionsAfter(table: seq<Course>, n: nat, positions: map<string, Slot>)
    requires n <= |table|
  {
    && positions.Keys <= Codes(table)
    && (forall k :: 0 <= k < n ==> table[k].code in positions)
    && (forall k :: 0 <= k < n && LastOf(table, n, k) ==>
          positions[table[k].code] == Slot(table[k].semester, RowNumber(table, k)))
  }

  /** After the first `n` rows: the counters count the rows of each semester that occurs. */
  ghost predicate CountsAfter(table: seq<Course>, n: nat, tracker: map<int, nat>)
    requires n <= |table|
  {
    && (forall s :: s in tracker <==> SemesterCount(table[..n], s) > 0)
    && (forall s :: s in tracker ==> tracker[s] == SemesterCount(table[..n], s))
  }

  ghost predicate SlotsAfter(table: seq<Course>, n: nat, positions: map<string, Slot>, tracker: map<int, nat>)
    requires n <= |table|
  {
    PositionsAfter(table, n, positions) && CountsAfter(table, n, tracker)
  }

  /** After the first `n` rows: each code has the title of its last row among them. */
  ghost predicate TitlesAfter(table: seq<Course>, n: nat, titles: map<string, string>)
    requires n <= |table|
  {
    && titles.Keys <= Codes(table)
    && (forall k :: 0 <= k < n ==> table[k].code in titles)
    && (forall k :: 0 <= k < n && LastOf(table, n, k) ==> titles[table[k].code] == table[k].title)
  }

  /** Lines 22 and 24 for row `i`: the counter is the row's row number, and it moves on by one. */
  lemma CountsStep(table: seq<Course>, i: nat, tracker: map<int, nat>)
    requires i < |table| && CountsAfter(table, i, tracker)
    ensures RowsSoFar(tracker, table[i].semester) == RowNumber(table, i)
    ensures CountsAfter(table, i + 1, tracker[table[i].semester := RowsSoFar(tracker, table[i].semester) + 1])
  {
    var sem := table[i].semester;
    var tracker' := tracker[sem := RowsSoFar(tracker, sem) + 1];
    forall s
      ensures s in tracker' <==> SemesterCount(table[..i + 1], s) > 0
      ensures s in tracker' ==> tracker'[s] == SemesterCount(table[..i + 1], s)
    {
      CountStep(table, i, s);
    }
  }

  /** Line 23 for row `i`: the row's code gets its slot, which replaces any earlier row's. */
  lemma PositionsStep(table: seq<Course>, i: nat, positions: map<string, Slot>)
    requires i < |table| && PositionsAfter(table, i, positions)
    ensures PositionsAfter(table, i + 1, positions[table[i].code := Slot(table[i].semester, RowNumber(table, i))])
  {
    var row := table[i];
    var positions' := positions[row.code := Slot(row.semester, RowNumber(table, i))];
    assert row.code in Codes(table);
    forall k | 0 <= k < i + 1 && LastOf(table, i + 1, k)
      ensures positions'[table[k].code] == Slot(table[k].semester, RowNumber(table, k))
    {
      if k < i {
        LastOfPrefix(table, i, k);
      }
    }
  }

  /** Lines 20-24 for row `i`: it takes the semester's next row number and the counter moves on. */
  lemma SlotsStep(table: seq<Course>, i: nat, positions: map<string, Slot>, tracker: map<int, nat>)
    requires i < |table| && SlotsAfter(table, i, positions, tracker)
    ensures var row := table[i];
            var n := RowsSoFar(tracker, row.semester);
            SlotsAfter(table, i + 1, positions[row.code := Slot(row.semester, n)], tracker[row.semester := n + 1])
  {
    CountsStep(table, i, tracker);
    PositionsStep(table, i, positions);
  }

  /** Line 25 for row `i`: `add_node` gives the code the row's title. */
  lemma TitlesStep(table: seq<Course>, i: nat, titles: map<string, string>)
    requires i < |table| && TitlesAfter(table, i, titles)
    ensures TitlesAfter(table, i + 1, titles[table[i].code := table[i].title])
  {
    var row := table[i];
    var titles' := titles[row.code := row.title];
    assert row.code in Codes(table);
    forall k | 0 <= k < i + 1 && LastOf(table, i + 1, k)
      ensures titles'[table[k].code] == table[k].title
    {
      if k < i {
        LastOfPrefix(table, i, k);
      }
    }
  }

  lemma SlotsComplete(table: seq<Course>, positions: map<string, Slot>, tracker: map<int, nat>)
    requires SlotsAfter(table, |table|, positions, tracker)
    ensures positions.Keys == Codes(table)
    ensures forall k :: 0 <= k < |table| && LastOf(table, |table|, k) ==>
              positions[table[k].code] == Slot(table[k].semester, RowNumber(table, k))
    ensures forall s :: s in tracker <==> SemesterCount(table, s) > 0
    ensures forall s :: s in tracker ==> tracker[s] == SemesterCount(table, s)
  {
    assert table[..|table|] == table;
    forall c | c in Codes(table) ensures c in positions {
      CodesHaveRows(table, c);
      var k :| 0 <= k < |table| && table[k].code == c;
    }
  }

  lemma TitlesComplete(table: seq<Course>, titles: map<string, string>)
    requires TitlesAfter(table, |table|, titles)
    ensures titles.Keys == Codes(table)
    ensures forall k :: 0 <= k < |table| && LastOf(table, |table|, k) ==> titles[table[k].code] == table[k].title
  {
    forall c | c in Codes(table) ensures c in titles {
      CodesHaveRows(table, c);
      var k :| 0 <= k < |table| && table[k].code == c;
    }
  }

  /**
   * Lines 18-25: place every course in the next free row of its semester and add it as a node.
   * Nodes come in table order, each code once; the title and the slot of a code are those of
   * its last row; the counter of a semester is its number of rows.
   */
  method PlaceCourses(table: seq<Course>, g: DiGraph) returns (positions: map<string, Slot>, tracker: map<int, nat>)
    requires g.Valid() && g.nodes == [] && g.titles == map[] && g.edges == {}
    modifies g
    ensures g.Valid() && g.edges == {}
    ensures g.nodes == DistinctCodes(table)
    ensures g.titles.Keys == Codes(table) && positions.Keys == Codes(table)
    ensures forall k :: 0 <= k < |table| && LastOf(table, |table|, k) ==>
              g.titles[table[k].code] == table[k].title
              && positions[table[k].code] == Slot(table[k].semester, RowNumber(table, k))
    ensures forall s :: s in tracker <==> SemesterCount(table, s) > 0
    ensures forall s :: s in tracker ==> tracker[s] == SemesterCount(table, s)
  {
    positions := map[];
    tracker := map[];
    for i := 0 to |table|
      invariant g.Valid() && g.edges == {}
      invariant g.nodes == DistinctCodes(table[..i])
      invariant SlotsAfter(table, i, positions, tracker)
      invariant TitlesAfter(table, i, g.titles)
    {
      var row := table[i];
      SlotsStep(table, i, positions, tracker);
      TitlesStep(table, i, g.titles);
      assert table[..i + 1][..i] == table[..i];
      var semester := row.semester;
      var rowNumber := RowsSoFar(tracker, semester);
      positions := positions[row.code := Slot(semester, rowNumber)];
      tracker := tracker[semester := rowNumber + 1];
      g.AddNode(row.code, row.title);
    }
    assert table[..|table|] == table;
    SlotsComplete(table, positions, tracker);
    TitlesComplete(table, g.titles);
  }

  /** Lines 28-39: add the edges of every row's two requirement cells; nodes and titles stay as they are. */
  method AddRequirementEdges(table: seq<Course>, g: DiGraph)
    requires g.Valid() && g.edges == {} && g.NodeSet() == Codes(table)
    modifies g
    ensures g.Valid()
    ensures g.nodes == old(g.nodes) && g.titles == old(g.titles)
    ensures g.edges == GraphEdges(table)
  {
    var codes := Codes(table);
    for i := 0 to |table|
      invariant g.Valid() && g.NodeSet() == codes
      invariant g.nodes == old(g.nodes) && g.titles == old(g.titles)
      invariant g.edges == RequirementEdges(table[..i], codes)
    {
      var row := table[i];
      assert table[..i + 1][..i] == table[..i];
      AddCellEdges(g, row.prerequisites, row.code, codes);
      AddCellEdges(g, row.corequisites, row.code, codes);
    }
    assert table[..|table|] == table;
  }

  /** Lines 11-39: the graph, the grid slots and the per-semester counters built from the table. */
  method BuildGraph(table: seq<Course>) returns (g: DiGraph, positions: map<string, Slot>, tracker: map<int, nat>)
    ensures fresh(g) && g.Valid()
    ensures g.nodes == DistinctCodes(table)
    ensures g.edges == GraphEdges(table)
    ensures g.titles.Keys == Codes(table) && positions.Keys == Codes(table)
    ensures forall k :: 0 <= k < |table| && LastOf(table, |table|, k) ==>
              g.titles[table[k].code] == table[k].title
              && positions[table[k].code] == Slot(table[k].semester, RowNumber(table, k))
    ensures forall s :: s in tracker <==> SemesterCount(table, s) > 0
    ensures forall s :: s in tracker ==> tracker[s] == SemesterCount(table, s)
  {
    g := new DiGraph();
    positions, tracker := PlaceCourses(table, g);
    AddRequirementEdges(table, g);
  }

  lemma PieceEdgesMember(ps: seq<string>, course: string, codes: set<string>, p: string, c: string)
    ensures (p, c) in PieceEdges(ps, course, codes)
            <==> c == course && p != [] && p in codes && exists q :: q in ps && Strip(q) == p
  {
    if c == course && p != [] && p in codes && exists q :: q in ps && Strip(q) == p {
      var q :| q in ps && Strip(q) == p;
      assert (Strip(q), course) in PieceEdges(ps, course, codes);
    }
  }

  /** A row adds `p -> c` exactly when `c` is the row's code and one of its two cells names the known code `p`. */
  lemma RowEdgesMember(row: Course, codes: set<string>, p: string, c: string)
    ensures (p, c) in RowEdges(row, codes)
            <==> c == row.code && p != [] && p in codes && (Lists(row.prerequisites, p) || Lists(row.corequisites, p))
  {
    PieceEdgesMember(CellPieces(row.prerequisites), row.code, codes, p, c);
    PieceEdgesMember(CellPieces(row.corequisites), row.code, codes, p, c);
  }

  /** Row `row` names `p` in its prerequisites or in its corequisites. */
  ghost predicate RowNames(row: Course, p: string) {
    Lists(row.prerequisites, p) || Lists(row.corequisites, p)
  }

  /** The test "a row with code `c` that names `p`", as a predicate on rows. */
  ghost function NamesWithCode(p: string, c: string): Course -> bool {
    (row: Course) => row.code == c && RowNames(row, p)
  }

  /** Some element of `xs` passes `test`. */
  ghost predicate Any<T>(xs: seq<T>, test: T -> bool) {
    exists k :: 0 <= k < |xs| && test(xs[k])
  }

  /** Splitting off the last element: some element passes iff an earlier one does or the last one does. */
  lemma AnySnoc<T>(xs: seq<T>, test: T -> bool)
    requires xs != []
    ensures var n := |xs| - 1;
            Any(xs, test) <==> Any(xs[..n], test) || test(xs[n])
  {
    var n := |xs| - 1;
    if Any(xs[..n], test) {
      var k :| 0 <= k < n && test(xs[..n][k]);
      assert xs[k] == xs[..n][k];
    }
    if Any(xs, test) {
      var k :| 0 <= k < |xs| && test(xs[k]);
      if k < n {
        assert xs[..n][k] == xs[k];
      }
    }
  }

  /** Some row with code `c` names `p`. */
  ghost predicate SomeRowNames(rows: seq<Course>, p: string, c: string) {
    Any(rows, NamesWithCode(p, c))
  }

  /** Splitting off the last row: some row names `p` iff an earlier one does or the last one does. */
  lemma SomeRowNamesSnoc(rows: seq<Course>, p: string, c: string)
    requires rows != []
    ensures var n := |rows| - 1;
            SomeRowNames(rows, p, c) <==> SomeRowNames(rows[..n], p, c) || (rows[n].code == c && RowNames(rows[n], p))
  {
    AnySnoc(rows, NamesWithCode(p, c));
  }

  lemma {:induction false} RequirementEdgesMember(rows: seq<Course>, codes: set<string>, p: string, c: string)
    ensures (p, c) in RequirementEdges(rows, codes) <==> p != [] && p in codes && SomeRowNames(rows, p, c)
  {
    if rows != [] {
      var n := |rows| - 1;
      var front := rows[..n];
      assert RequirementEdges(rows, codes) == RequirementEdges(front, codes) + RowEdges(rows[n], codes);
      RequirementEdgesMember(front, codes, p, c);
      RowEdgesMember(rows[n], codes, p, c);
      SomeRowNamesSnoc(rows, p, c);
    }
  }

  /**
   * The graph has the edge `p -> c` exactly when `p` is a non-empty code of the table and some row
   * with code `c` names `p` in its prerequisites or its corequisites; both kinds give the same edge.
   */
  lemma GraphEdgesMember(t: seq<Course>, p: string, c: string)
    ensures (p, c) in GraphEdges(t)
            <==> && p != [] && p in Codes(t)
                 && exists k :: 0 <= k < |t| && t[k].code == c && (Lists(t[k].prerequisites, p) || Lists(t[k].corequisites, p))
  {
    RequirementEdgesMember(t, Codes(t), p, c);
  }

  /** Every edge joins two courses of the table: no edge dangles. */
  lemma EdgesJoinCourses(t: seq<Course>, p: string, c: string)
    requires (p, c) in GraphEdges(t)
    ensures p in Codes(t) && c in Codes(t)
  {
    GraphEdgesMember(t, p, c);
  }

  lemma {:induction false} RequirementEdgesRowwise(t: seq<Course>, u: seq<Course>, codes: set<string>)
    requires |t| == |u|
    requires forall k :: 0 <= k < |t| ==> RowEdges(t[k], codes) == RowEdges(u[k], codes)
    ensures RequirementEdges(t, codes) == RequirementEdges(u, codes)
  {
    if t != [] {
      var n := |t| - 1;
      RequirementEdgesRowwise(t[..n], u[..n], codes);
    }
  }

  /** Two tables with the same codes row by row whose rows add the same edges build the same edge set. */
  lemma SameRowEdgesSameGraph(t: seq<Course>, u: seq<Course>)
    requires |t| == |u|
    requires forall k :: 0 <= k < |t| ==> t[k].code == u[k].code
    requires forall k :: 0 <= k < |t| ==> RowEdges(t[k], Codes(t)) == RowEdges(u[k], Codes(t))
    ensures GraphEdges(t) == GraphEdges(u)
  {
    forall c ensures c in Codes(t) <==> c in Codes(u) {
      if c in Codes(t) {
        CodesHaveRows(t, c);
        var k :| 0 <= k < |t| && t[k].code == c;
        assert u[k].code == c;
      }
      if c in Codes(u) {
        CodesHaveRows(u, c);
        var k :| 0 <= k < |u| && u[k].code == c;
        assert t[k].code == c;
      }
    }
    assert Codes(t) == Codes(u);
    RequirementEdgesRowwise(t, u, Codes(t));
  }

  /** A cell none of whose pieces names a course of the table adds no edge. */
  lemma UnknownPiecesAddNothing(ps: seq<string>, course: string, codes: set<string>)
    requires forall q :: q in ps ==> Strip(q) !in codes
    ensures PieceEdges(ps, course, codes) == {}
  {
  }

  /**
   * Dangling references are dropped: giving row `k` a prerequisite cell that names no course
   * of the table builds the same edges as leaving that cell NaN.
   */
  lemma UnknownPrerequisitesIgnored(t: seq<Course>, k: nat, cell: string)
    requires k < |t|
    requires forall q :: q in Split(cell, ',') ==> Strip(q) !in Codes(t)
    ensures GraphEdges(t[k := t[k].(prerequisites := Some(cell))]) == GraphEdges(t[k := t[k].(prerequisites := None)])
  {
    var u, v := t[k := t[k].(prerequisites := Some(cell))], t[k := t[k].(prerequisites := None)];
    SameCodes(t, k, u[k]);
    UnknownPiecesAddNothing(Split(cell, ','), t[k].code, Codes(t));
    assert RowEdges(u[k], Codes(u)) == RowEdges(v[k], Codes(u));
    SameRowEdgesSameGraph(u, v);
  }

  /** The same for a corequisite cell. */
  lemma UnknownCorequisitesIgnored(t: seq<Course>, k: nat, cell: string)
    requires k < |t|
    requires forall q :: q in Split(cell, ',') ==> Strip(q) !in Codes(t)
    ensures GraphEdges(t[k := t[k].(corequisites := Some(cell))]) == GraphEdges(t[k := t[k].(corequisites := None)])
  {
    var u, v := t[k := t[k].(corequisites := Some(cell))], t[k := t[k].(corequisites := None)];
    SameCodes(t, k, u[k]);
    UnknownPiecesAddNothing(Split(cell, ','), t[k].code, Codes(t));
    assert RowEdges(u[k], Codes(u)) == RowEdges(v[k], Codes(u));
    SameRowEdgesSameGraph(u, v);
  }

  /** Replacing a row by one with the same code keeps the code set. */
  lemma SameCodes(t: seq<Course>, k: nat, row: Course)
    requires k < |t| && row.code == t[k].code
    ensures Codes(t[k := row]) == Codes(t)
  {
    var u := t[k := row];
    forall c ensures c in Codes(t) <==> c in Codes(u) {
      if c in Codes(t) {
        CodesHaveRows(t, c);
        var j :| 0 <= j < |t| && t[j].code == c;
        assert u[j].code == c;
      }
      if c in Codes(u) {
        CodesHaveRows(u, c);
        var j :| 0 <= j < |u| && u[j].code == c;
        assert t[j].code == c;
      }
    }
  }

  /** A corequisite cell holding one bare code that names no course of the table leaves the graph as a NaN cell would. */
  lemma UnknownCorequisiteCode(t: seq<Course>, k: nat, code: string)
    requires k < |t| && code !in Codes(t)
    requires ',' !in code && (code == [] || (!IsSpace(code[0]) && !IsSpace(code[|code| - 1])))
    ensures GraphEdges(t[k := t[k].(corequisites := Some(code))]) == GraphEdges(t[k := t[k].(corequisites := None)])
  {
    UnknownBareCode(code, Codes(t));
    UnknownCorequisitesIgnored(t, k, code);
  }

  /** A cell holding one bare code that is not in `codes` names no known code. */
  lemma UnknownBareCode(code: string, codes: set<string>)
    requires code !in codes
    requires ',' !in code && (code == [] || (!IsSpace(code[0]) && !IsSpace(code[|code| - 1])))
    ensures forall q :: q in Split(code, ',') ==> Strip(q) !in codes
  {
    SinglePiece(code);
  }

  /** The corequisite entry "AERO999", naming no course of the table, leaves the graph as an empty cell would. */
  lemma UnknownCorequisiteExample(t: seq<Course>, k: nat)
    requires k < |t| && "AERO999" !in Codes(t)
    ensures GraphEdges(t[k := t[k].(corequisites := Some("AERO999"))]) == GraphEdges(t[k := t[k].(corequisites := None)])
  {
    UnknownCorequisiteCode(t, k, "AERO999");
  }

  /** A cell holding one bare code splits into that code alone, which strips to itself. */
  lemma SinglePiece(code: string)
    requires ',' !in code && (code == [] || (!IsSpace(code[0]) && !IsSpace(code[|code| - 1])))
    ensures Split(code, ',') == [code] && Strip(code) == code
  {
    SplitNoSep(code, ',');
    StripUnpadded(code);
  }
}
