# eulerian — a Dafny model of the Eulerian-trail solver

eulerian.c reads an undirected multigraph as a list of edges between integer
node ids. It checks that the graph can have an Eulerian trail: it is
non-empty, has zero or two nodes of odd degree, and is connected. It then
builds the trail by Hierholzer-style splicing:

- walk a first sub-circuit, from the first node for a circuit, or from the
  first odd node to the second otherwise;
- keep a list of candidate nodes that still have unused edges;
- walk a closed sub-circuit from each candidate in turn and splice it into
  the trail after the first occurrence of its root;
- stop once the trail holds `trail_nodes` elements, or when the list runs
  out.

The model follows the program's own structure.

- `GraphModel` (graph.dfy) holds the node arena and the graph-building
  operations. A node is a value `Node(id, deg, edeg, vst, adj)` in a
  sequence. An adjacency entry `Adj(nbr, used)` names its node by arena
  position.
- `Scan` (scan.dfy) holds the depth-first search, the connectivity verdict
  and the validation verdict.
- `Walk` (walk.dfy) holds edge marking, the candidate list and the
  sub-circuit walk.
- `Assembly` (assembly.dfy) holds splicing, the candidate loop and the
  driver.
- `Coverage` (coverage.dfy) proves what the trail covers on a graph
  without parallel edges or repeated self-loops. On such a graph the used
  flags record exactly the edges walked, so the trail crosses no edge
  twice. A trail that `et_is_trail` accepts crosses every edge exactly
  once.

These five modules are pure functions, with lemmas that state what each
operation means.

- `Eulerian` (eulerian.dfy) holds the program's mutable state. Class `Run`
  holds the global graph, `circuit` and `trail_nodes`. Class `Trail` is
  `et_trail_t`, which serves for a trail, a sub-circuit and the candidate
  list.

Each method of these classes updates its fields step by step, as the C
functions do. Each is proved to leave exactly the state that the matching
function describes. `Findings` (findings.dfy) follows the whole program on
one input, which exposes a defect in `et_set_edge_used`. It also proves the
corrected marking. `LoopFinding` (loop_finding.dfy) follows the whole
program on a second input, which exposes a defect in the candidate loop. It
also proves the intended loop.

The C code compares nodes by id and the model compares arena positions.
The two agree because ids are distinct in the arena: `DistinctIds` holds
after every `et_add_edge` (`GraphModel.AddEdgeIds`). Every method of `Run`
that touches the arena after it is built also keeps `Run.Valid()`, which
includes `DistinctIds`.

## Model

| member | source | states |
|---|---|---|
| Eulerian.Run.constructor | eulerian.c:150-160 | et_init_graph: no nodes, no edges, no odd nodes, `circuit` unset, `trail_nodes` zero; the ids are trivially distinct |
| Eulerian.Run.GetNode | eulerian.c:210-221 | the result is `Lookup(nodes, id)`: the first node with that id, or none exactly when no node has it |
| GraphModel.Lookup | eulerian.c:210-221 | a found position holds the id and no earlier node has it; nothing is found exactly when no node has the id |
| GraphModel.LookupAppend | eulerian.c:224-241 | appending a node keeps every earlier lookup and makes the new id findable at the end |
| Eulerian.Run.AddNode | eulerian.c:224-241 | the node is appended to the node list and the node count rises by one; nothing else changes |
| Eulerian.Run.AddAdj | eulerian.c:244-263 | node i gains an unused entry naming j at the end of its list, and its degree rises by one |
| Eulerian.Run.FindOrAdd | eulerian.c:271-334 | the id is looked up and created when missing; afterwards the lookup finds it and the arena invariant still holds |
| Eulerian.Run.AddEdge | eulerian.c:266-374 | the arena becomes `GraphModel.AddEdge` of the old one and stays valid: distinct ids, every entry names a node |
| Eulerian.Run.AddSelfLoop | eulerian.c:361-367 | node i gains one entry naming itself and its degree rises by two; nothing else changes |
| Eulerian.Run.AddPair | eulerian.c:368-372 | nodes i and j each gain one entry naming the other and one degree; nothing else changes |
| GraphModel.AddEdge | eulerian.c:266-374 | et_add_edge: create n1's node and then n2's when missing, then append one entry to each endpoint (a single self-entry and two degrees for a self-loop); its properties are stated by `AddEdgeEntries`, `AddEdgeIds`, `AddEdgeDegreeSum`, `AddEdgeKeeps` and `AddEdgeFresh` |
| GraphModel.AddEdgeEntries | eulerian.c:362-373 | a self-loop adds one self-entry and raises the degree by two; any other edge adds one entry on each side and one degree each; all other nodes are unchanged |
| GraphModel.AddEdgeIds | eulerian.c:271-334 | the ids are extended by n1 and then n2, each only when new, and stay distinct |
| GraphModel.AddEdgeDegreeSum | eulerian.c:362-373 | every edge, self-loops included, adds exactly two to the degree total |
| GraphModel.AddEdgeKeeps | eulerian.c:266-374 | every entry names an existing node, and at most two nodes are created |
| GraphModel.AddEdgeFresh | eulerian.c:293-299 | new entries are unused and new nodes unvisited with zero remaining degree |
| Eulerian.Run.BuildGraph | eulerian.c:400-436 | the arena is the graph built from the edges in input order, the edge count is their number, and the instance is solvable exactly when the declared node count is at most the number of distinct ids |
| GraphModel.Build | eulerian.c:400-414 | et_build_graph's loop: the edges added one by one in input order; its properties are stated by `BuildIds`, `BuildShape`, `NodeCount` and `BuiltOddCount` |
| GraphModel.BuildIds | eulerian.c:400-414 | the nodes appear in the order their ids first occur in the input, with distinct ids |
| GraphModel.BuildShape | eulerian.c:400-414 | the built graph is well formed, unused, unvisited, and its degrees sum to twice the number of edges |
| GraphModel.NodeCount | eulerian.c:430-436 | the node count equals the number of distinct ids among the endpoints |
| GraphModel.OddCountParity | eulerian.c:502-509 | the number of odd-degree nodes has the parity of the degree total |
| GraphModel.BuiltOddCount | eulerian.c:502-509 | a graph read from an edge list has an even number of odd-degree nodes, so never exactly one, and the `num_deg_odd == 1` rejection cannot fire |
| Scan.Visit | eulerian.c:440-481 | the search only marks unvisited nodes (visited, edeg reset to deg), never changes ids, degrees or lists, and leaves its entry node visited |
| Scan.VisitAdj | eulerian.c:474-480 | the loop over the adjacency list only marks unvisited nodes |
| Scan.VisitTally | eulerian.c:449-471 | the counter, the `trail_nodes` increment and the odd-node list match the nodes the search marked |
| Scan.VisitReach | eulerian.c:440-481 | every node the search newly marks is reachable from its entry node |
| Scan.VisitClosed | eulerian.c:474-480 | every node marked by the search has all of its neighbours visited |
| Scan.IsConnected | eulerian.c:484-492 | et_is_connected: search from the first node (nothing for an empty list), set `trail_nodes` to half of itself plus one, and report whether the counter reached the node count; `ConnectTheorem` states what this means |
| Scan.ConnectTheorem | eulerian.c:484-492 | on a fresh graph a node ends visited exactly when it is reachable from the first node; the verdict holds exactly when all nodes are reachable; `trail_nodes` becomes half the visited degree total plus one |
| Scan.ValidateGraph | eulerian.c:495-511 | et_validate_graph: reject an empty graph, count odd degrees, set `circuit` when there are none, reject one or more than two, else run the connectivity check; `ValidateVerdict` states what this means |
| Scan.ValidateVerdict | eulerian.c:495-511 | the graph is accepted exactly when it is non-empty, has zero or two odd nodes and is connected; `circuit` is set exactly when there is no odd node; on acceptance all nodes are reset and, for a trail, the odd list holds the two odd nodes |
| Eulerian.Run.Dfs | eulerian.c:440-481 | the state after the recursive search is exactly `Scan.Visit` of the old state; the arena invariant `Valid()` (distinct ids, entries in range) is kept |
| Eulerian.Run.MarkNode | eulerian.c:449-471 | marking a node is `Scan.Mark` of the old state: visited, remaining degree reset, counter, `trail_nodes` and odd list updated; fewer nodes stay unvisited; the arena invariant `Valid()` (distinct ids, entries in range) is kept |
| Eulerian.Run.VisitNeighbour | eulerian.c:474-480 | handling entry pos of v's list and then continuing from pos + 1 leaves the same state as `Scan.VisitAdj` from pos; v's list is untouched; the arena invariant `Valid()` (distinct ids, entries in range) is kept |
| Eulerian.Run.IsConnected | eulerian.c:484-492 | the search, the `trail_nodes` update and the verdict are exactly `Scan.IsConnected`; the arena invariant `Valid()` (distinct ids, entries in range) is kept |
| Eulerian.Run.ValidateGraph | eulerian.c:495-511 | the verdict, `circuit` and the state after the optional search are exactly `Scan.ValidateGraph`; the arena invariant `Valid()` (distinct ids, entries in range) is kept |
| Eulerian.Trail.constructor | eulerian.c:624-625 | a new trail is empty with count zero |
| Eulerian.Trail.AddElem | eulerian.c:514-541 | the node is appended and the count rises by one |
| Walk.FirstEntry | eulerian.c:551-562 | the position found names b and no earlier entry does; nothing is found exactly when no entry names b |
| Walk.MarkFirst | eulerian.c:551-562 | one search loop of et_set_edge_used: set `used` on the first entry naming b, whether or not it is already used; `MarkFirstMeaning` and `MarkFirstIdempotent` state what this means |
| Walk.SetUsed | eulerian.c:544-576 | et_set_edge_used: lower both remaining degrees, then mark the first entry naming b in a's list and the first naming a in b's; `SetUsedEffect` and `SetUsedEdegSum` state what this means |
| Walk.MarkFirstMeaning | eulerian.c:551-575 | an entry ends up used exactly when it was used or is the first entry naming b, whether or not that one was already used |
| Walk.MarkFirstIdempotent | eulerian.c:551-575 | marking the same node twice marks nothing new |
| Walk.SetUsedEffect | eulerian.c:544-576 | both remaining degrees drop by one (a self-loop's by two), both first entries are marked, and no other node changes |
| Walk.SetUsedEdegSum | eulerian.c:549-550 | every step removes exactly two from the remaining degree total |
| Walk.SetUsedBudget | eulerian.c:549-550 | a step onto a node with remaining degree lowers the total positive remaining degree, which is why the walk terminates |
| Walk.SetUsedStep | eulerian.c:632-641 | after a step the arena is still well formed with the same number of nodes, and the non-negative total budget has dropped |
| Eulerian.Run.MarkFirstEntry | eulerian.c:551-562 | node i's list becomes `MarkFirst` of itself and nothing else changes |
| Eulerian.Run.SetEdgeUsed | eulerian.c:544-576 | the arena becomes `Walk.SetUsed` of the old one; the arena invariant `Valid()` (distinct ids, entries in range) is kept |
| Walk.ListAdd | eulerian.c:579-597 | et_list_add_elem: append v when its remaining degree exceeds one and it is absent; `ListAddProps` states what this means |
| Walk.ListAddProps | eulerian.c:579-597 | the candidate list stays duplicate-free and in range; it changes exactly when the node's remaining degree exceeds one and the node is absent, and then only by appending that node |
| Eulerian.Run.ListAddElem | eulerian.c:579-597 | the list becomes `ListAdd` of the old one and its count follows its length; the arena invariant `Valid()` (distinct ids, entries in range) is kept |
| Walk.FirstEligible | eulerian.c:632-646 | the position found is the first entry from pos on that is unused and leads to a node with positive remaining degree; none is found exactly when no such entry remains |
| Walk.WalkLoop | eulerian.c:632-648 | the walk of et_sub_circuit: from entry pos of the current node, take the first unused entry leading to a node with positive remaining degree, append and mark it, register the node, stop at the end node, else continue from that node's first entry; fail on running off a list; its properties are stated by the `WalkLoop*` and `WalkTakesFirstEligible` lemmas |
| Walk.WalkTakesFirstEligible | eulerian.c:632-647 | the walk skips ineligible entries: it continues from the first eligible one, or fails when there is none |
| Walk.WalkLoopState | eulerian.c:632-648 | the walk keeps ids, degrees and lists' nodes, and each step it takes removes two from the remaining degree total |
| Walk.WalkLoopEnd | eulerian.c:639 | a successful walk ends at the end node after at least one step |
| Walk.WalkLoopFirstArrival | eulerian.c:632-648 | the walk stops at its first arrival at the end node: a successful walk meets it nowhere between, and a failed walk never meets it after the start |
| Walk.WalkLoopList | eulerian.c:638 | the walk only appends to the candidate list, keeps it duplicate-free, and every node it adds was visited by the walk |
| Walk.SubCircuit | eulerian.c:606-653 | et_sub_circuit: start the sub-circuit with start, register start when its remaining degree exceeds two, then walk from its first entry; `SubCircuitProps` states what this means |
| Walk.SubCircuitProps | eulerian.c:606-653 | the sub-circuit starts at start, follows edges of the graph and ends at end on success; the arena keeps its shape; the remaining degree total drops by two per step; the candidate list grows only with visited nodes |
| Walk.ListOkBound | eulerian.c:579-597 | a duplicate-free list of nodes is no longer than the node count |
| Eulerian.Run.SubCircuit | eulerian.c:606-653 | the arena, the candidate list and the returned sub-circuit (NULL exactly on failure) are exactly `Walk.SubCircuit`; the arena invariant `Valid()` (distinct ids, entries in range) is kept |
| Assembly.FirstIndex | eulerian.c:664-668 | the position found holds x and no earlier one does; nothing is found exactly when x is absent |
| Assembly.Splice | eulerian.c:656-678 | et_insert_sub_circuit: insert the sub-circuit without its root after the first occurrence of the root in the trail, or leave the trail alone when the root is absent; `SpliceProps` and `SpliceCounts` state what this means |
| Assembly.SpliceProps | eulerian.c:656-678 | splicing a closed sub-circuit keeps the trail a walk of the graph with the same first and last node |
| Assembly.SpliceCounts | eulerian.c:656-678 | with the root absent the trail is unchanged; otherwise its length rises by the sub-circuit's length less one and its steps are those of the trail plus those of the sub-circuit |
| Assembly.StepsConcat | eulerian.c:671-673 | joining two walks adds exactly the one step between them |
| Eulerian.Trail.InsertSubCircuit | eulerian.c:656-678 | the elements become `Splice` of the old ones; the count rises by the sub-circuit's count less one exactly when its root occurs |
| Assembly.CompletionMeansAllSteps | eulerian.c:681-684 | on a built graph, the trail is complete exactly when it has at least as many steps as there are edges |
| Eulerian.Run.IsTrail | eulerian.c:681-684 | with the count in step with the elements, the test holds exactly when the trail is `Complete` |
| Assembly.Assemble | eulerian.c:707-715 | the candidate loop from candidate k: stop when the trail is complete or the list is exhausted, else run one round and go on with k + 1; `AssembleProps` and `Coverage.AssembleAccounted` state what this means |
| Assembly.Round | eulerian.c:711-714 | one round: walk a sub-circuit from candidate k back to itself and splice it in when the walk succeeded; `RoundShape`, `RoundPath` and `Coverage.RoundAccounted` state what this means |
| Assembly.AssembleProps | eulerian.c:707-715 | the candidate loop keeps the arena's shape and the list's order, and keeps the trail a walk of the graph with the same ends that only grows |
| Assembly.AssembleShape | eulerian.c:707-715 | the candidate loop only flips used flags and remaining degrees, keeps the arena well formed, and only appends to the candidate list |
| Assembly.AssembleTrail | eulerian.c:707-715 | the candidate loop keeps the trail a walk of the graph with the same two ends that never shrinks |
| Assembly.RoundShape | eulerian.c:711-714 | one round of the loop only flips used flags and remaining degrees and only appends to the candidate list |
| Assembly.RoundPath | eulerian.c:711-714 | one round of the loop keeps the trail a walk of the graph with the same two ends that never shrinks |
| Assembly.RoundFacts | eulerian.c:707-715 | when the trail is not complete, the loop from k is one round followed by the loop from k + 1 |
| Assembly.FirstWalkProps | eulerian.c:700-701 | the first walk keeps the arena's shape and starts at the chosen start; on success it has a step and ends at the chosen end |
| Assembly.EulerianTrail | eulerian.c:687-718 | et_eulerian_trail: the first walk (a circuit from the first node, or from the first odd node to the second), then the candidate loop from an empty list; `EulerianTrailProps` and `Coverage.SimpleGraphTrail` state what this means |
| Assembly.EulerianTrailProps | eulerian.c:687-718 | the trail returned is a walk of the graph of at least two nodes, from the first node (circuit) or the first odd node, to the same node or the second odd node |
| Eulerian.Run.EulerianTrail | eulerian.c:687-718 | the arena, the candidate list and the trail returned are exactly `Assembly.EulerianTrail`, and the trail's count is its length; the arena invariant `Valid()` (distinct ids, entries in range) is kept |
| Eulerian.Run.ExtendTrail | eulerian.c:711-714 | one round of the loop updates the arena, the candidate list and the trail exactly as `Assembly.Round`, and never shortens the trail; the arena invariant `Valid()` (distinct ids, entries in range) is kept |
| Coverage.AddEdgeLinked | eulerian.c:362-373 | every entry added by et_add_edge is answered by an entry in the other endpoint's list, and each degree stays one per entry plus one more per self-entry |
| Coverage.BuildLinked | eulerian.c:400-414 | in the built graph every entry from i to j has an entry from j to i, and every degree counts its node's entries, self-entries twice |
| Coverage.ScannedSimple | eulerian.c:449-451 | once et_dfs has set every remaining degree to the degree, a built graph without parallel edges has the remaining degree of each node equal to what its list offers, and no edge is marked |
| Coverage.StepMarks | eulerian.c:544-576 | on a graph without parallel edges, marking the edge just walked from a to b marks exactly that edge, in both lists, and keeps flags and remaining degrees in step |
| Coverage.WalkLoopMarks | eulerian.c:632-648 | on such a graph, the edges the walk marks are exactly the steps it appends to the sub-circuit |
| Coverage.SubCircuitMarks | eulerian.c:606-653 | on such a graph, et_sub_circuit marks exactly the edges its sub-circuit crosses, whether or not it reaches its end |
| Coverage.FirstWalkAccounted | eulerian.c:700-701 | the first walk marks exactly the edges it crosses, and its remaining degree total plus two per step is the degree total |
| Coverage.RoundAccounted | eulerian.c:711-714 | a round never lets the trail cross an edge more often than it is marked; while no walk has been dropped the trail crosses exactly the marked edges |
| Coverage.AssembleAccounted | eulerian.c:707-715 | the same for the whole candidate loop |
| Coverage.CompleteCovers | eulerian.c:681-684 | a trail as long as the degree budget allows leaves every entry marked and crosses exactly the edges of the graph, each once |
| Coverage.SimpleGraphTrail | eulerian.c:687-718 | on a built and validated graph without parallel edges or repeated self-loops, the returned trail crosses no edge twice and nothing that is not an edge; once `et_is_trail` accepts it, it has one node more than there are edges and crosses every edge exactly once |
| Findings.ParallelEdgeReused | eulerian.c:551-575 | as written, edges 1-2, 1-2, 2-3, 3-1 are accepted but yield the trail 1 2 1 2: three steps for four edges, the pair 1-2 stepped three times, node 3 never reached |
| Findings.SecondStepCompared | eulerian.c:551-575 | in that run the second step over 1-2 marks nothing new while an unused entry of the pair remains, where the corrected search marks one on each side |
| Findings.MarkFirstMissesParallelEdge | eulerian.c:553-562 | with a used entry naming b ahead of an unused one, the search as written changes nothing, and the corrected one marks the second |
| Findings.MarkFirstUnusedCounts | eulerian.c:553-562 | the corrected search marks exactly one more entry naming b when one is unused and none otherwise; it keeps every entry's node and the other nodes' marks |
| Findings.SetUsedFixedConsumesOneEdge | eulerian.c:544-576 | with the corrected search, a step between two nodes uses exactly one more entry on each side and lowers both remaining degrees by one |
| Walk.WalkLoopBudget | eulerian.c:632-648 | every step of the walk spends at least one unit of the total positive remaining degree: a walk that appends n nodes lowers that total by at least n |
| Walk.SubCircuitBudget | eulerian.c:606-653 | a sub-circuit of n steps lowers the total positive remaining degree by at least n |
| LoopFinding.ValidateLoopExample | eulerian.c:484-511 | on edges 1-2, 2-3, 3-1, 1-4, 4-5, 5-1, 1-6, 6-7, 7-1 the built graph has no parallel edges and is accepted as a circuit, every node is left visited with its full degree remaining, and `trail_nodes` is 10 |
| LoopFinding.LoopAssembleExample | eulerian.c:708-715 | on that graph, after the first walk 1 2 3 1, the loop as written walks candidate 1 once, 1 4 5 1, splices it in, and stops with the list exhausted |
| LoopFinding.LoopStopsEarly | eulerian.c:687-718 | the whole run as written on that input returns 1 4 5 1 2 3 1: it fails the completion test, has six steps for nine edges, and never reaches nodes 6 and 7 |
| LoopFinding.AssembleFixedProps | eulerian.c:708-715 | the intended loop, which walks a candidate again while its walks succeed and it has edges left, keeps the graph's shape, only appends to the candidate list, and returns a walk of the graph between the same two ends that only grows |
| LoopFinding.EulerianTrailFixedProps | eulerian.c:687-718 | the driver with the intended loop returns a walk of the graph of at least two nodes, between the same ends as the driver as written |
| LoopFinding.FixedAssembleExample | eulerian.c:708-715 | on that graph the intended loop walks candidate 1 twice, 1 4 5 1 and then 1 6 7 1, and stops with the trail complete |
| LoopFinding.FixedLoopCompletes | eulerian.c:687-718 | the whole run with the intended loop on that input returns 1 6 7 1 4 5 1 2 3 1, which passes the completion test with one step per edge |

## Left out

- Reading the input file, and its format errors (eulerian.c:377-398): the edges arrive as a sequence of id pairs, and `BuildGraph` takes the declared node count as a parameter.
- Printing: the node lists, the trail, the memory report, and the `GRAPH` and `MEMCHECK` switches are left out.
- Running out of memory, where the program exits after `malloc` fails, is left out.
- Freeing memory is left out: `et_clean`, `et_clean_list` and the frees in `et_sub_circuit` and `et_insert_sub_circuit`.
- The `initialized` flag of `et_init_graph` is not modelled: the graph is set up once, by `Run`'s constructor.
- The NULL guards of `et_add_adj` (line 248), `et_dfs`, `et_trail_add_elem`, `et_set_edge_used` and `et_sub_circuit` are not modelled: every caller passes a real node. `et_insert_sub_circuit`'s NULL trail branch (line 661) is not modelled either, because it only assigns a parameter.
- Assembly.EulerianTrailProps does not promise that the trail uses every edge exactly once, because the program as written does not keep that promise. It can cross an edge twice on a graph with parallel edges: see the first row of Findings. It can also stop short on a graph without parallel edges: see the second row. `Coverage.SimpleGraphTrail` proves the part that does hold. On a graph without parallel edges or repeated self-loops, no edge is crossed twice, and a trail that `et_is_trail` accepts has one node more than there are edges and crosses every edge exactly once. Whether the trail is accepted depends on the input. On edges 1-2, 2-3, 3-1, 1-4, 4-5, 5-1, 1-6, 6-7, 7-1 the loop returns 1 4 5 1 2 3 1, which is 7 of the 10 nodes `trail_nodes` asks for (`LoopFinding.LoopStopsEarly`). The intended loop returns a complete trail on that input (`LoopFinding.FixedLoopCompletes`). That the intended loop completes on every valid graph is not proved.
- Eulerian.Run.EulerianTrail: the same gap. Its result is `Assembly.EulerianTrail`, so both `Coverage.SimpleGraphTrail` and the incomplete run of `LoopFinding.LoopStopsEarly` apply to it.
- Eulerian.Run.EulerianTrail requires the first walk to succeed. If it fails, `et_is_trail` dereferences NULL at line 707, and the model does not describe that crash.
- Eulerian.Trail.InsertSubCircuit requires a sub-circuit of at least two nodes. That is what `et_sub_circuit` returns on success; a one-node sub-circuit would cut the trail after its root.
- `et_trail_cur` is not modelled. Splicing at the last element leaves it stale, but nothing appends to a trail after splicing, so the effect cannot be observed.
- Integers are unbounded. The model assumes that no C `int` counter exceeds INT_MAX. `trail_nodes` sums the degrees, twice the number of edges, so it would overflow at about 1.07e9 edges; a node's `et_deg` would overflow at about 2.1e9 edge ends of that node.
- `Scan.Half` models C's truncating division by two. Where the sum is non-negative, which is always, it agrees with Dafny's division.
- `et_is_trail` tests `>=` where a complete trail has exactly `trail_nodes` elements. The model follows the code.
- Eulerian.Run.SubCircuit always allocates a fresh sub-circuit. The model does not distinguish the freed sub-circuit of a failed walk from one that was never allocated.

## Findings

| source | as written | input that shows it | evidently intended | confidence | as-written member | corrected member |
|---|---|---|---|---|---|---|
| eulerian.c:553-575 | `et_set_edge_used` marks the first entry naming the other endpoint, even when that entry is already used. With parallel edges the second entry is never marked, so a later walk takes the same edge again | edges `1 2`, `1 2`, `2 3`, `3 1`: the graph is accepted and the output is `1 2 1 2`, which steps over 1-2 three times and never uses 2-3 or 3-1 | mark the first entry naming the other endpoint that is still unused, so each step uses up exactly one edge | high (traced by proof, not executed) | Findings.ParallelEdgeReused | Findings.SetUsedFixedConsumesOneEdge |
| eulerian.c:708-715 | the candidate loop walks each listed node once and moves on. `et_list_add_elem` (eulerian.c:579-597) never appends a node that is already listed. A candidate that still has edges after its walk is never walked again, and the loop can end before the trail is complete, even without parallel edges | edges `1 2`, `2 3`, `3 1`, `1 4`, `4 5`, `5 1`, `1 6`, `6 7`, `7 1`: the graph is accepted as a circuit with `trail_nodes` 10, and the output is `1 4 5 1 2 3 1`, which never uses 1-6, 6-7 or 7-1 | walk a candidate again while its walks succeed and it has edges left, so that every edge ends up in the trail | high (traced by proof, not executed) | LoopFinding.LoopStopsEarly | LoopFinding.FixedLoopCompletes |

The main model keeps the marking as written, because it describes what the
program does. The corrected marking, `Findings.MarkFirstUnused` and
`Findings.SetUsedFixed`, is proved on its own. `Findings.SecondStepCompared`
sets it beside the original at the step where they part. A self-loop has a
single entry in its node's list, so the corrected search is stated for two
distinct nodes only.

The main model also keeps the candidate loop as written. The intended loop,
`LoopFinding.AssembleFixed`, walks candidate k again after a walk that
succeeded and left edges at it. Each such walk spends at least one unit of
the remaining degree, so the loop ends. `LoopFinding.AssembleFixedProps`
proves that it keeps what the loop as written keeps.
`LoopFinding.FixedLoopCompletes` follows it on the input above to the
complete trail `1 6 7 1 4 5 1 2 3 1`.
