# Section-swap engine of the 6.1800 appeals tool, in Dafny

This project models the swap engine in `cycle.py` and proves properties of it.

Students file appeals to move between (recitation, tutorial) section pairs. Each appeal has one of two reasons:

- **Team preference**: the student names the sections they want.
- **Schedule conflict**: the student names the times they are free. These students are the priority students.

The engine has five parts:

1. It turns each appeal into the list of section pairs the student would accept (`generate_desired_sections`).
2. It builds a directed graph whose nodes are (stripped name, stripped current pair) for the students that are endpoints of some edge. An edge u -> v means that u would take v's pair (`df_to_graph`).
3. It lists the swap cycles of that graph (`find_cycles`).
4. It searches for the set of node-disjoint cycles that moves the most students or the most priority students (`optimal_removal`).
5. It reports in two ways:
   - `appeals_report` runs a single search. `sc_report` runs a priority search first, then a plain search on what is left.
   - `shift_path` looks for chains of moves between a synthetic source and sink when no cycle helps.

Modules, one per concern:

| module | covers |
|---|---|
| `Wrappers` | `Option` and `Result`. |
| `Text` | Python's `strip()`, `split(sep)`, `split(sep)[0]` and `join`. |
| `Sorting` | The stable `sorted(..., key, reverse=True)`. |
| `Sections` | The compatibility table, rows, and `generate_desired_sections`. |
| `Graphs` | The networkx `DiGraph`. `Graph` is a snapshot value. `DiGraph` is the object that `add_edge` updates in place. |
| `PreferenceGraph` | `df_to_graph`. |
| `Cycles` | `find_cycles` and `optimal_removal`. |
| `Reports` | The counting logic of `appeals_report` and `sc_report`. |
| `Shift` | `shift_path`. |

Where the Python code changes state step by step, the model is a method with loops. This covers:

- the nested loops of `generate_desired_sections`;
- the dictionary and `add_edge` loops of `df_to_graph`;
- the capped loop of `find_cycles`;
- the report loops;
- `shift_path`'s in-place growth of the caller's graph.

Each such method is proved equal to a specification function. The properties are proved about those functions.

`optimal_removal` recurses on copies of the graph. It is modelled as the function `Cycles.Optimal` and its loop `Cycles.Scan`. `Cycles.OptimalRemoval` is the method version.

Behaviour the model reproduces as the code has it:

- `sc_report` drops only the nodes of priority students fixed in phase 1 (cycle.py:267). Other phase-1 students can appear again in phase 2.
- When the source or sink is missing, `shift_path` returns from the whole call (cycle.py:345), not just from the current pair.
- `shift_path` adds its source and sink edges to the caller's graph and never removes them (cycle.py:327,335,340).
  - The edges pile up across pairs and remain after the call.
- `shift_path` builds its nodes from the unstripped name and current sections (cycle.py:322,324), while `df_to_graph` strips them.
- The table holds `"Katie Bruner,"` with a trailing comma (cycle.py:42).
- A team-preference entry without `" with "` raises at cycle.py:140.
- The docstring at cycle.py:119-124 swaps the two kinds of result. The model follows the code:
  - a team preference yields section pairs;
  - a schedule conflict yields time pairs.
- A node is `(name, (rec, tut))`, so a student with no edge is not in the graph. Two rows with the same stripped name and pair are the same node.
- `shift_path`'s synthetic nodes are the strings "source_string" and "sink_string". Python's `node[0]` on them is "s". `Graphs.Head` models this.

## Model

| member | source | states |
|---|---|---|
| Text.Strip | cycle.py:126 | `str.strip()`: the result neither starts nor ends with whitespace and is no longer than the input |
| Text.StripIsMiddle | cycle.py:126 | the stripped string is a contiguous middle of the input, and everything cut off on either side is whitespace |
| Text.StripIdempotent | cycle.py:159-164 | stripping an already stripped entry changes nothing |
| Text.Find | cycle.py:140 | the leftmost occurrence of the separator, or none exactly when the separator does not occur |
| Text.JoinSplit | cycle.py:129-133 | joining the pieces of `split(sep)` with `sep` gives back the string |
| Text.SplitPiecesFree | cycle.py:129-133 | no piece of a split contains the separator |
| Text.SplitSingle | cycle.py:140 | a split has a single piece (so `[1]` raises) exactly when the separator does not occur |
| Text.BeforeIsFirstPiece | cycle.py:185 | `s.split(" with ")[0]` is the prefix before the first separator; it is all of `s` exactly when there is no separator |
| Sections.Instructor | cycle.py:140 | the instructor part `split(" with ")[1].strip()` is trimmed |
| Sections.MarkDayPartners | cycle.py:38-49 | Mark Day pairs with "Katie Bruner," (with the comma) or Nicole Cunningham-Frisbey; a stripped "Katie Bruner" never matches |
| Sections.DesiredFails | cycle.py:126-141 | `generate_desired_sections` fails with an unknown reason exactly when the stripped reason is neither kind. It fails with a missing instructor exactly when the reason is a team preference and some desired entry lacks " with " |
| Sections.PreferenceDesired | cycle.py:128-142 | team preference: a pair is in the result iff it is the stripped (recitation, tutorial) of desired entries whose instructors the table pairs |
| Sections.ConflictDesired | cycle.py:131-144 | schedule conflict: never fails; the result has one entry per (recitation time, tutorial time), recitation-major, each stripped, unfiltered |
| Sections.DesiredTrimmed | cycle.py:142-144 | every returned pair is stripped on both sides |
| Sections.SelectProductMember | cycle.py:137-142 | an element is collected iff some (i, j) of the nested loops passes the filter and yields it |
| Sections.CrossRow | cycle.py:138-144 | the inner loop for one recitation: stops at an unusable entry, else returns the kept pairs in order |
| Sections.CrossSelect | cycle.py:136-145 | the nested loops fail iff both lists are non-empty and one holds an unusable entry; otherwise they return the kept pairs in recitation-major order |
| Sections.GenerateDesiredSections | cycle.py:115-145 | the method returns exactly what the specification function says, error cases included |
| Sorting.SortDescFacts | cycle.py:204 | `sorted(..., key, reverse=True)` is a permutation of its input in non-increasing key order |
| Sorting.SortDescStable | cycle.py:204 | the sort is stable: the elements of each key keep their input order |
| Sorting.SortDescUnique | cycle.py:204 | any non-increasing arrangement whose elements of each key keep their input order is the sort's result |
| Graphs.DiGraph.AddEdge | cycle.py:181 | `add_edge(u, v)`: the edge and both endpoints join the graph; nothing else changes |
| Graphs.DiGraph.HasNode | cycle.py:342-343 | membership in `set(G.nodes())` |
| Graphs.AddEdgesUnion | cycle.py:178-188 | adding two batches of edges one after the other is adding their union |
| Graphs.RemoveNodesExact | cycle.py:222-224 | `remove_node`: exactly the other nodes stay, and exactly the edges that avoid the removed nodes |
| Graphs.RemoveNodesShrinks | cycle.py:222-225 | removing the nodes of a cycle makes the graph strictly smaller (the recursion ends) |
| Graphs.CycleSurvives | cycle.py:222-225 | a simple cycle that avoids the removed nodes is still a simple cycle of the reduced graph |
| PreferenceGraph.BuildRoster | cycle.py:157-164 | the first loop builds `section_to_students`: each stripped name filed under its stripped current pair, in row order |
| PreferenceGraph.RosterMember | cycle.py:157-164 | a name is filed under a pair iff some row has that stripped name and current pair |
| PreferenceGraph.AddFan | cycle.py:180-181 | adds an edge from the student to everyone filed under one pair |
| PreferenceGraph.AddPreferenceEdges | cycle.py:177-181 | team preference: adds edges to everyone filed under a desired pair that is in the roster |
| PreferenceGraph.AddTimeEdges | cycle.py:184-188 | adds edges to everyone filed under a pair whose times equal one desired time pair |
| PreferenceGraph.AddConflictEdges | cycle.py:182-188 | schedule conflict: the above for every desired time pair |
| PreferenceGraph.AddRow | cycle.py:168-188 | one row of the second loop: it raises the row's error and adds nothing, or it adds exactly the row's edges |
| PreferenceGraph.DfToGraph | cycle.py:147-190 | `df_to_graph` returns the error of the first failing row, or the graph of all rows' edges |
| PreferenceGraph.FailingRowRaises | cycle.py:173-175 | any row whose reason is unknown or whose desired sections raise makes the whole call raise |
| PreferenceGraph.NoFailingRow | cycle.py:167-190 | without such a row a graph is returned |
| PreferenceGraph.FirstErrorNone | cycle.py:173-175 | there is no error iff every row's desired sections can be computed |
| PreferenceGraph.BuildEdges | cycle.py:177-188 | an edge (s, t) exists iff s wants t's current pair: the exact pair for a team preference, the pair's times for a schedule conflict |
| PreferenceGraph.GraphNodes | cycle.py:154-188 | the graph is well formed, and its nodes are exactly the endpoints of its edges (no isolated students) |
| PreferenceGraph.SelfLoop | cycle.py:178-181 | a team-preference student who lists their own pair gets a self-loop |
| Cycles.EnumerateMember | cycle.py:199 | the cycles enumerated on a reduced graph are exactly those of the original enumeration whose nodes remain |
| Cycles.FindCycles | cycle.py:192-204 | `find_cycles`: a counted loop that stops at 1000, then the sort by length |
| Cycles.FoundCyclesFacts | cycle.py:197-204 | at most 1000 cycles, exactly the first ones enumerated, by non-increasing length, with equal lengths in enumeration order |
| Cycles.FoundAll | cycle.py:199-203 | under the cap, every enumerated cycle is kept |
| Cycles.RemoveCycle | cycle.py:222-224 | `G_c = G.copy()` and `remove_node` for each node of the cycle removes exactly the cycle's nodes |
| Cycles.OptimalRemoval | cycle.py:206-230 | the recursive method returns exactly the specification's answer |
| Cycles.OptimalSound | cycle.py:215-230 | the returned cycles are pairwise node-disjoint and come from the enumeration; the count is the sum of their weights; nothing is selected iff the count is 0 |
| Cycles.OptimalChoice | cycle.py:219-229 | the count is at least every cycle's weight plus the best count without its nodes. The answer comes from the first cycle that reaches it, strictly above every earlier one |
| Cycles.OptimalIsMaximal | cycle.py:206-230 | under the cap, no node-disjoint selection of enumerated cycles weighs more than the count |
| Cycles.WeightBound | cycle.py:226 | a cycle's priority weight is at most its length, which is its plain weight |
| Cycles.PriorityAtMostPlain | cycle.py:215-229 | on any enumeration, with or without the 1000 cap, the best priority count is at most the best plain count |
| Cycles.OptimalCyclesOfGraph | cycle.py:215-230 | if the enumeration lists simple cycles of the graph, the answer is node-disjoint simple cycles of the graph |
| Cycles.PriorityCycleSecond | cycle.py:221-229 | on a graph of exactly four nodes holding two node-disjoint 2-cycles, where the one without a priority student is enumerated first and the other has one priority student: the priority search selects both, with count 1 (so a zero-weight cycle can be selected) |
| Cycles.ZeroWeightSelected | cycle.py:221-229 | a concrete instance: X-Y and P-Q cycles with only P a priority student yield ([P-Q, X-Y], 1) |
| Reports.FixedNamesMember | cycle.py:238-240 | `sc_students_fixed` holds a name iff it is a priority student on one of the reported cycles |
| Reports.FixedNamesBound | cycle.py:238-241 | no more priority students are fixed than the cycles' priority weights add up to, nor than students moved |
| Reports.AppealsReport | cycle.py:232-251 | the method returns exactly the specification's report |
| Reports.AppealsReportFacts | cycle.py:236-251 | fails (division by zero) iff there are no students or no priority students. Otherwise it reports disjoint cycles, the students they move, and `True` iff any were found |
| Reports.PhaseTwoExact | cycle.py:266-267 | the phase-2 graph keeps exactly the nodes and edges not involving a phase-1-fixed priority student |
| Reports.PhaseTwoAvoidsFixed | cycle.py:266-270 | no phase-2 cycle passes through a phase-1-fixed priority student |
| Reports.ScReport | cycle.py:253-289 | the method returns exactly the specification's report |
| Reports.ScReportFacts | cycle.py:258-289 | fails iff there are no students or no priority students. Otherwise: the chain is phase-1 cycles then phase-2 cycles; the appeals fixed are the chain's total length; `sc_fixed` <= number of priority students; `True` iff anything is found |
| Shift.AddSinkEdge | cycle.py:332-340 | adds the row's sink edge exactly when some desired pair shows the target on the axis |
| Shift.AddMoverEdges | cycle.py:321-340 | one row: its source edge, then either the error of `generate_desired_sections` or its sink edge |
| Shift.AddPairEdges | cycle.py:321-340 | the row loop for one pair of sections, stopping at the first row that raises |
| Shift.PairEdgesMember | cycle.py:326-340 | for one pair (u, v), the loop adds exactly two kinds of edge, from the rows it runs: source -> student for each student in u on the axis, and student -> sink for each student whose desired pair reaches v (exact for a team preference, time part for a schedule conflict) |
| Shift.PairEdgesError | cycle.py:329 | the row loop raises exactly the first failing row's error |
| Shift.FirstFailureFacts | cycle.py:329 | there is no error iff every row's desired sections can be computed; otherwise the error is that of the first failing row |
| Shift.PairEdgesShape | cycle.py:327-340 | every added edge runs from the source to a student or from a student to the sink |
| Shift.RankWell | cycle.py:353-357 | each ranking is the stable descending sort of the paths, by length and by the number of priority students |
| Shift.VisitFacts | cycle.py:342-359 | one pair only adds source and sink edges. It then raises the first row error, or returns with the source or sink missing, or ranks simple source-to-sink paths of the grown graph |
| Shift.ShiftPath | cycle.py:291-361 | the method leaves the caller's graph and its outcome exactly as the specification says |
| Shift.ShiftPathFacts | cycle.py:314-361 | the caller's graph only gains source/sink edges. Outcomes: an error is the first failing row's; an early return has the source or sink missing and follows a prefix of the pairs; otherwise every pair was ranked in order, and `found_some` iff some pair had a path |
| Shift.ShiftRaises | cycle.py:315-329 | with at least one pair of sections, a failing row makes the call raise |
| Shift.UnstrippedNode | cycle.py:322-324 | a row gets the same node here as in `df_to_graph` iff its name and current sections are already stripped |

## Left out

- `data_process` (cycle.py:68-112): CSV reading, timestamp parsing, the pandas de-duplication and column rewriting. The model takes the resulting rows and the priority set as inputs. The four desired- and available-section cells are the text Python's `str()` gives for them (cycle.py:129-133), so an empty answer there reads "nan".
- The name, reason and current-section cells are assumed to be present strings. `df_to_graph` and `generate_desired_sections` call `.strip()` on them directly (cycle.py:126, 159-162, 170-172). A blank cell there is a float NaN and raises AttributeError; that error is not modelled.
- Exception kinds are merged. An unknown reason raises `Exception` in `df_to_graph` (cycle.py:173-174). Inside `shift_path` it surfaces as UnboundLocalError from `generate_desired_sections` (cycle.py:137). The model reports both as `Sections.UnknownReason`, and it distinguishes only the conditions that raise, not the Python exception class.
- `validate_appeals` (cycle.py:51-65): a stub that checks nothing.
- `main` and every `print` (cycle.py:244-250, 282-288, 344, 351-361, 365-396):
  - the reports are returned as values (`Reports.Report`, `Shift.Status`, `Shift.Ranking`);
  - the printed text is not modelled.
- The percentages and `round(...)` (cycle.py:237, 242, 272, 276) use floating point and are left out.
  - The integer counts behind them are modelled.
  - So are the divisions by zero, for no students or no priority students, as an error result.
- `nx.simple_cycles` is not modelled. The simple cycles of the starting graph are an input, in the order networkx yields them.
  - The enumeration on a reduced graph is that list restricted to the cycles whose nodes all remain. This is exact while under the cap.
  - The nondeterminism of networkx's order is not modelled.
- `Cycles.OptimalIsMaximal`: maximality is proved only while the enumeration holds at most 1000 cycles. Above the cap, the search sees only the first 1000 cycles.
- `nx.all_simple_paths`: `Shift.ShiftPath` takes it as a function from graph to paths. The properties assume only that it yields simple source-to-sink paths of the graph it is given.
- Unicode: `Text.IsSpace` lists the characters Python's `str.isspace()` accepts. It assumes each cell is already decoded to characters.
- `Sections.Row` holds only the eight cells the engine reads. The kerb, timestamp and status columns are used only by `data_process`.
