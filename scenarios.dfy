/**
 * A three-course chain worked through the model: the rows (A, no requirements),
 * (B, prerequisite A) and (C, prerequisite B), instantiated with AERO101, AERO201 and AERO301.
 */
module Scenarios {
  import opened Wrappers
  import opened PyStr
  import opened Paths
  import opened Courses
  import opened Layout
  import opened Builder

  /** A bare course code: no comma inside and no whitespace at either end. */
  ghost predicate BareCode(code: string) {
    ',' !in code && code != [] && !IsSpace(code[0]) && !IsSpace(code[|code| - 1])
  }

  function ChainTable(a: string, b: string, c: string): seq<Course> {
    [ Course(a, "Intro", 1, None, None),
      Course(b, "Aerodynamics", 2, Some(a), None),
      Course(c, "Flight Mech", 3, Some(b), None) ]
  }

  function AeroTable(): seq<Course> {
    ChainTable("AERO101", "AERO201", "AERO301")
  }

  lemma ChainCodes(a: string, b: string, c: string)
    ensures Codes(ChainTable(a, b, c)) == {a, b, c}
  {
    var t := ChainTable(a, b, c);
    assert Codes(t[..1]) == {a};
    assert t[..2][..1] == t[..1];
    assert Codes(t[..2]) == {a, b};
    assert t[..3] == t && t[..3][..2] == t[..2];
  }

  lemma ChainRowEdges(a: string, b: string, c: string, codes: set<string>)
    requires BareCode(a) && BareCode(b) && codes == {a, b, c}
    ensures RowEdges(ChainTable(a, b, c)[0], codes) == {}
    ensures RowEdges(ChainTable(a, b, c)[1], codes) == {(a, b)}
    ensures RowEdges(ChainTable(a, b, c)[2], codes) == {(b, c)}
  {
    var t := ChainTable(a, b, c);
    NoRequirementsNoEdges(t[0], codes);
    OnePrerequisiteOneEdge(t[1], a, codes);
    OnePrerequisiteOneEdge(t[2], b, codes);
  }

  /** A row with two NaN cells adds no edge. */
  lemma NoRequirementsNoEdges(row: Course, codes: set<string>)
    requires row.prerequisites == None && row.corequisites == None
    ensures RowEdges(row, codes) == {}
  {
    assert PieceEdges([], row.code, codes) == {};
  }

  /** A row whose only requirement is the bare known code `code` adds the one edge `code -> row`. */
  lemma OnePrerequisiteOneEdge(row: Course, code: string, codes: set<string>)
    requires row.prerequisites == Some(code) && row.corequisites == None
    requires BareCode(code) && code in codes
    ensures RowEdges(row, codes) == {(code, row.code)}
  {
    SinglePiece(code);
    SinglePieceEdge(code, row.code, codes);
    assert PieceEdges([], row.code, codes) == {};
  }

  lemma SinglePieceEdge(code: string, course: string, codes: set<string>)
    requires Strip(code) == code && code != [] && code in codes
    ensures PieceEdges([code], course, codes) == {(code, course)}
  {
    PieceEdgesStep([code], 0, course, codes);
    assert [code][..1] == [code] && [code][..0] == [];
    assert PieceEdges([], course, codes) == {};
  }

  /** The chain table's graph has exactly the two edges A -> B and B -> C. */
  lemma ChainEdges(a: string, b: string, c: string)
    requires BareCode(a) && BareCode(b)
    ensures GraphEdges(ChainTable(a, b, c)) == {(a, b), (b, c)}
  {
    var t := ChainTable(a, b, c);
    var codes := {a, b, c};
    ChainCodes(a, b, c);
    ChainRowEdges(a, b, c, codes);
    assert t[..1] == [t[0]] && t[..2] == [t[0], t[1]] && t[..3] == t;
    assert t[..2][..1] == t[..1];
    assert RequirementEdges(t[..1], codes) == {};
    assert RequirementEdges(t[..2], codes) == {(a, b)};
  }

  /** The AERO table's graph is the chain AERO101 -> AERO201 -> AERO301. */
  lemma AeroEdges()
    ensures GraphEdges(AeroTable()) == {("AERO101", "AERO201"), ("AERO201", "AERO301")}
  {
    ChainEdges("AERO101", "AERO201", "AERO301");
  }

  /** AERO101's downstream set is {AERO201, AERO301}; AERO301 has none. */
  lemma AeroDownstream()
    ensures Downstream(GraphEdges(AeroTable()), "AERO101") == {"AERO201", "AERO301"}
    ensures Downstream(GraphEdges(AeroTable()), "AERO301") == {}
  {
    AeroEdges();
    ChainDownstream(GraphEdges(AeroTable()), "AERO101", "AERO201", "AERO301");
  }

  /** Each course is alone in its semester, so each sits in row 0. */
  lemma ChainSlots(a: string, b: string, c: string)
    ensures RowNumber(ChainTable(a, b, c), 0) == 0
    ensures RowNumber(ChainTable(a, b, c), 1) == 0
    ensures RowNumber(ChainTable(a, b, c), 2) == 0
    ensures SemesterCount(ChainTable(a, b, c), 1) == 1
    ensures SemesterCount(ChainTable(a, b, c), 2) == 1
    ensures SemesterCount(ChainTable(a, b, c), 3) == 1
  {
    var t := ChainTable(a, b, c);
    assert t[..0] == [] && t[..1] == [t[0]] && t[..2] == [t[0], t[1]] && t[..3] == t;
    assert t[..2][..1] == t[..1];
    assert t[..1][..0] == [];
    assert t[..|t| - 1] == t[..2];
    assert SemesterCount(t[..1], 1) == 1 && SemesterCount(t[..1], 2) == 0 && SemesterCount(t[..1], 3) == 0;
    assert SemesterCount(t[..2], 1) == 1 && SemesterCount(t[..2], 2) == 1 && SemesterCount(t[..2], 3) == 0;
  }
}
