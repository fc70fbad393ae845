# Curriculum map core, modelled in Dafny

`cae_map.py` draws an aerospace curriculum as a directed graph. Each course of the table is a
node. Each prerequisite or corequisite entry that names another course of the table is an edge
from the required course to the course that needs it. The user picks one course. That course is
drawn orange, every course that depends on it directly or transitively is drawn light green, and
all other courses are light blue. Each course also sits in a fixed grid slot: its semester is the
column, and its position among that semester's courses, in table order, is the row.

The model covers the script's four pieces of logic:

- **Graph builder** (`Builder`, over `Courses`, `Layout`, `PyStr` and the `DiGraphs.DiGraph` class).
  - The first loop gives every row the next row number of its semester, using a per-semester
    counter map, and adds the row's code as a node with its title.
  - The second loop splits each non-NaN requirement cell on `,`, strips each piece, and adds the
    edge `piece -> course` when the piece is non-empty and is a code of the table.
  - The graph is a `DiGraph` object with a node sequence (insertion order), a title map and an
    edge set. `AddNode` and `AddEdge` follow networkx's rules: re-adding a node keeps its place
    and replaces its title, and adding an edge first adds any missing endpoint.
- **Downstream tracer** (`Tracer.GetDownstream`). This is the explicit-stack depth-first search
  with a visited set. It is proved, for every graph including cyclic ones, to terminate and to
  return exactly the nodes reachable from the start by one or more edges, minus the start.
  `Paths` gives the reference definition of reachability, by paths.
- **Node classification** (`Highlight.NodeColors`). Each node gets one label out of
  `Selected` (orange), `Connected` (light green) and `Unrelated` (light blue).
  `Highlight.CurriculumMap` runs build, trace and colouring end to end.
- **Grid slots** (`Layout`): only the integer slot (semester, row number).

The table is a sequence of `Course` records. A NaN requirement cell is `None`. The semester is
already an integer.

Three facts about the script shape the model:

- The script traces downstream only.
- An unknown start node fails inside `graph.successors`. The model returns
  `Failure(UnknownNode(start))` for it.
- A semester that does not parse makes `int()` raise. This is not modelled.

## Model

| member | source | states |
|---|---|---|
| `PyStr.Split` | cae_map.py:30-31 | a cell splits on "," into at least one piece, and no piece contains "," |
| `PyStr.Join` | cae_map.py:30-31 | definition: `",".join(pieces)`, the inverse that `JoinSplit` and `SplitJoin` are stated against |
| `PyStr.JoinSplit` | cae_map.py:30-31 | splitting loses nothing: joining the pieces with "," gives back the cell text |
| `PyStr.SplitJoin` | cae_map.py:30-31 | pieces free of "," are recovered exactly by splitting their join |
| `PyStr.SplitNoSep` | cae_map.py:30-31 | a cell without "," is a single piece, the whole cell |
| `PyStr.IsSpace` | cae_map.py:33 | definition: the characters `str.isspace()` accepts, which `strip()` removes |
| `PyStr.Leading` | cae_map.py:33 | the index where stripping starts: everything before it is whitespace and the character at it is not |
| `PyStr.Trailing` | cae_map.py:33 | the number of characters stripping drops at the end: all of them are whitespace and the character before them is not |
| `PyStr.LStrip` | cae_map.py:33 | the result is a suffix of the input, everything removed is whitespace, and it does not start with whitespace |
| `PyStr.RStrip` | cae_map.py:33 | the result is a prefix of the input, everything removed is whitespace, and it does not end with whitespace |
| `PyStr.Strip` | cae_map.py:33 | neither end of a stripped piece is whitespace (Python's `str.isspace` set) |
| `PyStr.StripIsInfix` | cae_map.py:33 | a stripped piece is the input with only whitespace removed on each side |
| `PyStr.LeadingPadded` | cae_map.py:33 | whitespace followed by a piece that does not start with whitespace: stripping starts right after the whitespace |
| `PyStr.TrailingPadded` | cae_map.py:33 | a piece that does not end with whitespace followed by whitespace: stripping drops exactly that whitespace |
| `PyStr.LStripPadded` | cae_map.py:33 | removing leading whitespace from whitespace + r gives r when r does not start with whitespace |
| `PyStr.RStripPadded` | cae_map.py:33 | removing trailing whitespace from r + whitespace gives r when r does not end with whitespace |
| `PyStr.StripPadded` | cae_map.py:37 | stripping whitespace + r + whitespace gives exactly r when r has no whitespace at its ends |
| `PyStr.StripUnpadded` | cae_map.py:33 | a piece with no whitespace at either end strips to itself |
| `PyStr.StripIdempotent` | cae_map.py:37 | stripping twice is the same as stripping once |
| `DiGraphs.DiGraph.constructor` | cae_map.py:11 | a new graph has no nodes, titles or edges |
| `DiGraphs.WithNode` | cae_map.py:25 | networkx's node insertion: the code is in the result, which holds exactly the old nodes and the code |
| `DiGraphs.DiGraph.NodeSet` | cae_map.py:34-35 | definition: the set of `nodes` |
| `DiGraphs.DiGraph.AddNode` | cae_map.py:25 | a new code is appended and an existing one keeps its place; the code's title is replaced; edges are unchanged; the graph stays valid |
| `DiGraphs.DiGraph.AddEdge` | cae_map.py:35 | missing endpoints are appended, the edge is added once (simple digraph), and titles are unchanged |
| `DiGraphs.DiGraph.Successors` | cae_map.py:53 | for a node, each head of an edge leaving it, once each; for a code that is not a node, an error |
| `Courses.Codes` | cae_map.py:34 | the code of every row is among the values of the Course Code column |
| `Courses.CodesHaveRows` | cae_map.py:34 | and nothing else is: every value of the column is the code of some row |
| `Courses.DistinctCodes` | cae_map.py:19-25 | the node list has no repeats and holds exactly the table's codes |
| `Courses.DistinctCodesInTableOrder` | cae_map.py:19-25 | with unique codes, the nodes are the codes in table order |
| `Courses.LastOfPrefix` | cae_map.py:19-25 | a row that is last among the first i + 1 rows is last among the first i, and row i has another code |
| `Layout.SemesterCount` | cae_map.py:18-24 | definition: the number of rows with semester s; `Builder.PlaceCourses` proves `layout_tracker[s]` equal to it |
| `Layout.RowNumber` | cae_map.py:22 | definition: `row_number`, how many earlier rows share the row's semester |
| `Layout.CountStep` | cae_map.py:22-24 | one more row raises its semester's count by one and leaves every other count alone |
| `Layout.CountMonotone` | cae_map.py:22-24 | a semester's count over a longer prefix is never smaller |
| `Layout.RowNumbersIncrease` | cae_map.py:19-24 | a later row in the same semester gets a strictly larger row number, so no two rows of a semester share a slot |
| `Layout.RowNumberBelowCount` | cae_map.py:22-24 | every row number is below the number of rows in its semester |
| `Layout.RowNumbersCover` | cae_map.py:22-24 | every number from 0 up to the semester's count minus one is given to some row of that semester |
| `Builder.RowsSoFar` | cae_map.py:22 | definition: `layout_tracker.get(semester, 0)` |
| `Builder.CountsStep` | cae_map.py:22-24 | for row i the counter read on line 22 is its row number, and adding one keeps every counter equal to its semester's count |
| `Builder.PositionsStep` | cae_map.py:23 | giving row i its slot keeps "each code has the slot of its last row so far" |
| `Builder.SlotsStep` | cae_map.py:20-24 | one row takes the semester's current counter as its row number and advances the counter; every counter still equals its semester's row count |
| `Builder.TitlesStep` | cae_map.py:25 | after adding one row's node, each code carries the title of its last row so far |
| `Builder.SlotsComplete` | cae_map.py:18-24 | after the last row: the positions hold exactly the table's codes, each with the slot of its last row, and the counters are the semester counts |
| `Builder.TitlesComplete` | cae_map.py:25 | after the last row: the titles hold exactly the table's codes, each with the title of its last row |
| `Builder.PlaceCourses` | cae_map.py:18-25 | nodes are the distinct codes in table order; each code gets the title and the slot (semester, row number) of its last row; `layout_tracker[s]` is the number of rows with semester s, and only semesters that occur are keys |
| `Builder.AddCellEdges` | cae_map.py:32-39 | exactly the edges piece -> course for pieces that strip to a non-empty known code are added; nodes and titles are unchanged |
| `Builder.AddRequirementEdges` | cae_map.py:28-39 | after the second loop the edge set is the table's requirement edges; nodes and titles are unchanged |
| `Builder.BuildGraph` | cae_map.py:11-39 | the whole build: a valid fresh graph with the distinct codes as nodes, last-row titles and slots, the requirement edges, and per-semester counts |
| `Builder.CellPieces` | cae_map.py:30-31 | definition: a NaN cell has no pieces, any other cell is split on "," |
| `Builder.Entries` | cae_map.py:30-37 | definition: the stripped pieces of a cell |
| `Builder.Lists` | cae_map.py:30-37 | definition: the cell has a piece that strips to p |
| `Builder.PieceEdges` | cae_map.py:32-39 | definition: the edges piece -> course for the pieces that strip to a non-empty known code |
| `Builder.PieceEdgesStep` | cae_map.py:32-35 | one more piece adds its edge exactly when it strips to a non-empty known code |
| `Builder.RowEdges` | cae_map.py:30-39 | definition: the edges from a row's prerequisite cell and its corequisite cell |
| `Builder.RequirementEdges` | cae_map.py:28-39 | definition: the union of the rows' edges |
| `Builder.GraphEdges` | cae_map.py:28-39 | definition: the requirement edges checked against the table's own codes |
| `Builder.PieceEdgesMember` | cae_map.py:32-35 | unfolding lemma for `PieceEdges`: a piece list yields p -> c exactly when c is the course, p is non-empty and known, and some piece strips to p |
| `Builder.RowEdgesMember` | cae_map.py:30-39 | unfolding lemma for `RowEdges`: a row yields p -> c exactly when c is its code and its prerequisite or corequisite cell names the known, non-empty p |
| `Builder.RequirementEdgesMember` | cae_map.py:28-39 | the rows' edges are exactly the pairs named by some row, checked against the given codes |
| `Builder.SomeRowNamesSnoc` | cae_map.py:28-39 | some row names p iff an earlier row does or the last row does |
| `Builder.GraphEdgesMember` | cae_map.py:28-39 | p -> c is an edge exactly when p is a non-empty code of the table and a row with code c names p in either cell; both kinds give the same edge |
| `Builder.EdgesJoinCourses` | cae_map.py:34-39 | every edge endpoint is a course code of the table |
| `Builder.SameRowEdgesSameGraph` | cae_map.py:28-39 | tables whose rows have the same codes and yield the same edges build the same edge set |
| `Builder.RequirementEdgesRowwise` | cae_map.py:28-39 | tables whose rows yield the same edges row by row yield the same edge set |
| `Builder.UnknownPiecesAddNothing` | cae_map.py:34 | pieces that name no known code add no edge |
| `Builder.UnknownPrerequisitesIgnored` | cae_map.py:30-35 | a prerequisite cell that names no course of the table builds the same edges as a NaN cell |
| `Builder.UnknownCorequisitesIgnored` | cae_map.py:31-39 | a corequisite cell that names no course of the table builds the same edges as a NaN cell |
| `Builder.UnknownCorequisiteCode` | cae_map.py:31-39 | a corequisite cell holding one bare code that is not in the table builds the same edges as a NaN cell |
| `Builder.UnknownBareCode` | cae_map.py:30-38 | a cell holding one bare code that is not in the table has no piece naming a known code |
| `Builder.UnknownCorequisiteExample` | cae_map.py:36-39 | a corequisite entry "AERO999" that is not in the table leaves the edges as an empty cell would |
| `Builder.SameCodes` | cae_map.py:34 | replacing a row by one with the same code keeps the set of codes |
| `Builder.SinglePiece` | cae_map.py:30-33 | a cell holding one bare code splits into that code alone, which strips to itself |
| `Paths.Targets` | cae_map.py:53 | definition: the heads of the edges, the range of `Downstream`'s comprehension |
| `Paths.DownstreamMember` | cae_map.py:46-55 | t is downstream of s exactly when t differs from s and is reachable from s by one or more edges |
| `Paths.ReachableIsTarget` | cae_map.py:53 | a reachable node is the head of some edge |
| `Paths.ReachableByEdge` | cae_map.py:53 | a successor is reachable |
| `Paths.ReachableThenEdge` | cae_map.py:53 | a successor of a reachable node is reachable |
| `Paths.PathStaysInside` | cae_map.py:49-53 | a path that starts in an edge-closed set stays inside it |
| `Paths.ClosedContainsReachable` | cae_map.py:49-53 | an edge-closed set that contains s contains everything reachable from s |
| `Paths.FirstEdge` | cae_map.py:53 | a path from s begins with an edge out of s |
| `Paths.NoSuccessorsNoDownstream` | cae_map.py:49-54 | a node without successors has an empty downstream set |
| `Paths.CycleDownstream` | cae_map.py:49-54 | on the cycle A -> B -> C -> A the downstream set of A is exactly {B, C} |
| `Paths.ChainDownstream` | cae_map.py:49-54 | on the chain A -> B -> C the downstream set of A is {B, C} and that of C is empty |
| `Tracer.SkipVisited` | cae_map.py:50-51 | popping an already visited node keeps the traversal invariant |
| `Tracer.VisitNode` | cae_map.py:50-53 | marking a popped node visited and pushing its successors keeps the traversal invariant |
| `Tracer.TraversalDone` | cae_map.py:49-54 | when the stack is empty, the visited nodes minus the start are exactly the downstream set |
| `Tracer.GetDownstream` | cae_map.py:46-55 | terminates on every graph, cycles included; fails exactly when the start is not a node; otherwise returns exactly the nodes reachable from the start by one or more edges, never the start itself, all of them nodes |
| `Highlight.NodeColors` | cae_map.py:61-68 | one label per node in node order: Selected iff the node is the selected course, Connected iff it is another node in the downstream set, Unrelated otherwise |
| `Highlight.CountLabel` | cae_map.py:61-68 | definition: the number of labels equal to l, used to state that exactly one node is Selected |
| `Highlight.CountOneSelected` | cae_map.py:62-64 | with distinct nodes that include the selected course, exactly one label is Selected |
| `Highlight.NoneSelected` | cae_map.py:62-64 | a colour list without Selected counts zero Selected labels |
| `Highlight.CurriculumMap` | cae_map.py:19-68 | for a course chosen from the table, exactly one node is Selected (the chosen one); a node is Connected iff it is reachable from the chosen course and differs from it; every other node is Unrelated |
| `Scenarios.ChainCodes` | cae_map.py:34 | the three-row chain table has exactly its three codes |
| `Scenarios.ChainRowEdges` | cae_map.py:30-39 | in the chain table the first row adds no edge, and each other row adds the edge from the code in its prerequisite cell |
| `Scenarios.NoRequirementsNoEdges` | cae_map.py:30-31 | a row whose two cells are NaN adds no edge |
| `Scenarios.OnePrerequisiteOneEdge` | cae_map.py:30-35 | a row whose only requirement is one bare known code adds exactly the edge from that code to the row |
| `Scenarios.SinglePieceEdge` | cae_map.py:32-35 | a single known, already-stripped piece adds exactly its one edge |
| `Scenarios.ChainEdges` | cae_map.py:28-39 | rows (A), (B requires A), (C requires B) build exactly the edges A -> B and B -> C |
| `Scenarios.AeroEdges` | cae_map.py:28-39 | AERO101, AERO201 (requires AERO101) and AERO301 (requires AERO201) build the chain AERO101 -> AERO201 -> AERO301 |
| `Scenarios.AeroDownstream` | cae_map.py:46-57 | the downstream set of AERO101 is {AERO201, AERO301}, and that of AERO301 is empty |
| `Scenarios.ChainSlots` | cae_map.py:19-24 | semesters 1, 2 and 3 each hold exactly one chain course, and each course gets row 0 |

## Left out

- The Streamlit interface (lines 42-43 and 73-75) is UI presentation. The selection is a
  parameter that the dropdown guarantees to be a code of the table, which is the one requirement
  of `Highlight.CurriculumMap`; the model therefore covers a non-empty table. With an empty table
  the dropdown offers no code, that requirement cannot be met, and the script itself would fail
  at line 53 when it asks the graph for the successors of a node it does not have; this case is
  left out.
- Reading `aero_courses.csv` with pandas (line 8) is file I/O. The table is a given sequence of
  records.
- `int(row["Semester"])` (line 21) is not modelled as a parse. Semesters are integers already.
- `str(cell)` for a non-NaN cell that pandas read as a number is not modelled. Cells are strings
  or NaN.
- The float coordinates `semester * x_gap` and `-row_number * y_gap` (line 23) are floating
  point. The model keeps the integer slot `(semester, row_number)` they are computed from.
- The matplotlib figure and the networkx drawing (lines 60, 70-71) are foreign library calls.
- `DiGraphs.DiGraph.Successors`: it does not fix the order of the successors. networkx lists
  them in the order their edges were added. `Tracer.GetDownstream` is proved for every order,
  so its result is the same for networkx's order. The order in which nodes are visited is not
  modelled.
- The script has no upstream trace and draws every edge, so there is no other trace or edge
  filter to model.
