/**
 * A defect of et_set_edge_used and its correction.
 *
 * et_set_edge_used (eulerian.c:551-575) marks the first entry naming the
 * other endpoint whether or not that entry is already used.  With a
 * parallel edge the second entry is never marked, so a later walk takes the
 * same edge again.  The lemmas below follow the whole program on the input
 * with edges 1-2, 1-2, 2-3, 3-1 (arena positions 0, 1, 2 for the ids 1, 2,
 * 3): the graph is accepted, yet the trail returned is 1 2 1 2, three steps
 * for four edges, using the pair 1-2 three times and never 2-3 or 3-1.
 * MarkFirstUnused is the intended marking, with the property the walk
 * relies on proved about it.
 */
module Findings {
  import opened Wrappers
  import opened GraphModel
  import opened Scan
  import opened Walk
  import opened Assembly

  /** The input: edges 1-2, 1-2, 2-3, 3-1. */
  const Edges: seq<(int, int)> := [(1, 2), (1, 2), (2, 3), (3, 1)]

  /** The arena after each of the four et_add_edge calls. */
  const G1: seq<Node> := [Node(1, 1, 0, false, [Adj(1, false)]), Node(2, 1, 0, false, [Adj(0, false)])]
  const G2: seq<Node> := [Node(1, 2, 0, false, [Adj(1, false), Adj(1, false)]),
                          Node(2, 2, 0, false, [Adj(0, false), Adj(0, false)])]
  const G3: seq<Node> := [Node(1, 2, 0, false, [Adj(1, false), Adj(1, false)]),
                          Node(2, 3, 0, false, [Adj(0, false), Adj(0, false), Adj(2, false)]),
                          Node(3, 1, 0, false, [Adj(1, false)])]
  const G4: seq<Node> := [Node(1, 3, 0, false, [Adj(1, false), Adj(1, false), Adj(2, false)]),
                          Node(2, 3, 0, false, [Adj(0, false), Adj(0, false), Adj(2, false)]),
                          Node(3, 2, 0, false, [Adj(1, false), Adj(0, false)])]

  /** The arena after et_validate_graph: every node visited, remaining degree reset to degree. */
  const Scanned: seq<Node> := [Node(1, 3, 3, true, [Adj(1, false), Adj(1, false), Adj(2, false)]),
                               Node(2, 3, 3, true, [Adj(0, false), Adj(0, false), Adj(2, false)]),
                               Node(3, 2, 2, true, [Adj(1, false), Adj(0, false)])]

  /** After the first walk 1 2: the first entries of the pair 1-2 are marked. */
  const Walked1: seq<Node> := [Node(1, 3, 2, true, [Adj(1, true), Adj(1, false), Adj(2, false)]),
                               Node(2, 3, 2, true, [Adj(0, true), Adj(0, false), Adj(2, false)]),
                               Node(3, 2, 2, true, [Adj(1, false), Adj(0, false)])]

  /** Halfway through the second walk, after its step 1 to 2: no new mark. */
  const Walked1a: seq<Node> := [Node(1, 3, 1, true, [Adj(1, true), Adj(1, false), Adj(2, false)]),
                                Node(2, 3, 1, true, [Adj(0, true), Adj(0, false), Adj(2, false)]),
                                Node(3, 2, 2, true, [Adj(1, false), Adj(0, false)])]

  /** After the second walk 1 2 1: both remaining degrees of the pair are spent, still no new mark. */
  const Walked2: seq<Node> := [Node(1, 3, 0, true, [Adj(1, true), Adj(1, false), Adj(2, false)]),
                               Node(2, 3, 0, true, [Adj(0, true), Adj(0, false), Adj(2, false)]),
                               Node(3, 2, 2, true, [Adj(1, false), Adj(0, false)])]

  /** After the third walk, which takes 2 to 3 and is stuck there. */
  const Walked3: seq<Node> := [Node(1, 3, 0, true, [Adj(1, true), Adj(1, false), Adj(2, false)]),
                               Node(2, 3, -1, true, [Adj(0, true), Adj(0, false), Adj(2, true)]),
                               Node(3, 2, 1, true, [Adj(1, true), Adj(0, false)])]

  /** Building the graph one edge further. */
  lemma BuildPrefix(edges: seq<(int, int)>, i: nat)
    requires i < |edges|
    ensures Build(edges[..i + 1]) == AddEdge(Build(edges[..i]), edges[i].0, edges[i].1)
  {
    assert edges[..i + 1][..i] == edges[..i];
  }

  /** One et_add_edge between two distinct ids, once both are known to sit at positions i and j. */
  lemma AddEdgeAt(ns: seq<Node>, n1: int, n2: int, grown: seq<Node>, i: nat, j: nat)
    requires Grown(ns, n1, n2) == grown && i < |grown| && j < |grown| && i != j && n1 != n2
    requires DistinctIds(grown) && grown[i].id == n1 && grown[j].id == n2
    ensures AddEdge(ns, n1, n2) == grown[i := AppendAdj(grown[i], j)][j := AppendAdj(grown[j], i)]
  {
    LookupDistinct(grown, i);
    LookupDistinct(grown, j);
  }

  /** The edge 1-2 on the empty arena creates both nodes. */
  lemma AddStep1()
    ensures AddEdge([], 1, 2) == G1
  {
    var b := [NewNode(1), NewNode(2)];
    assert EnsureNode([], 1) == [NewNode(1)];
    LookupIn([NewNode(1)], 2);
    assert Grown([], 1, 2) == b;
    AddEdgeAt([], 1, 2, b, 0, 1);
    assert AppendAdj(b[0], 1) == G1[0] && AppendAdj(b[1], 0) == G1[1];
    assert b[0 := G1[0]][1 := G1[1]] == G1;
  }

  /** The second edge 1-2 finds both nodes. */
  lemma AddStep2()
    ensures AddEdge(G1, 1, 2) == G2
  {
    LookupDistinct(G1, 0);
    LookupDistinct(G1, 1);
    assert Grown(G1, 1, 2) == G1;
    AddEdgeAt(G1, 1, 2, G1, 0, 1);
    assert AppendAdj(G1[0], 1) == G2[0] && AppendAdj(G1[1], 0) == G2[1];
    assert G1[0 := G2[0]][1 := G2[1]] == G2;
  }

  /** The edge 2-3 finds node 2 and creates node 3. */
  lemma AddStep3()
    ensures AddEdge(G2, 2, 3) == G3
  {
    var c := G2 + [NewNode(3)];
    LookupDistinct(G2, 1);
    LookupIn(G2, 3);
    assert Grown(G2, 2, 3) == c;
    AddEdgeAt(G2, 2, 3, c, 1, 2);
    assert AppendAdj(c[1], 2) == G3[1] && AppendAdj(c[2], 1) == G3[2];
    assert c[1 := G3[1]][2 := G3[2]] == G3;
  }

  /** The edge 3-1 finds both nodes. */
  lemma AddStep4()
    ensures AddEdge(G3, 3, 1) == G4
  {
    LookupDistinct(G3, 2);
    LookupDistinct(G3, 0);
    assert Grown(G3, 3, 1) == G3;
    AddEdgeAt(G3, 3, 1, G3, 2, 0);
    assert AppendAdj(G3[2], 0) == G4[2] && AppendAdj(G3[0], 2) == G4[0];
    assert G3[2 := G4[2]][0 := G4[0]] == G4;
  }

  lemma BuildStep1()
    ensures Build(Edges[..1]) == G1
  {
    assert Edges[..0] == [];
    BuildPrefix(Edges, 0);
    AddStep1();
  }

  lemma BuildStep2()
    ensures Build(Edges[..2]) == G2
  {
    BuildStep1();
    BuildPrefix(Edges, 1);
    AddStep2();
  }

  lemma BuildStep3()
    ensures Build(Edges[..3]) == G3
  {
    BuildStep2();
    BuildPrefix(Edges, 2);
    AddStep3();
  }

  /** et_build_graph on the input yields G4. */
  lemma BuildExample()
    ensures Build(Edges) == G4
  {
    BuildStep3();
    AddStep4();
  }

  /** The arena during et_dfs, after marking node 1 and after marking nodes 1 and 2. */
  const Marked1: seq<Node> := G4[0 := Scanned[0]]
  const Marked2: seq<Node> := Marked1[1 := Scanned[1]]

  /** et_dfs entered at node 3 once 1 and 2 are visited: marks it, and finds nothing more. */
  lemma DfsAtThree()
    ensures WellFormed(Marked2) &&
      Visit(ScanState(Marked2, 2, 6, [0, 1]), 2) == ScanState(Scanned, 3, 8, [0, 1])
  {
    var s2 := ScanState(Marked2, 2, 6, [0, 1]);
    var s3 := ScanState(Scanned, 3, 8, [0, 1]);
    assert Marked2[2 := Scanned[2]] == Scanned;
    assert Mark(s2, 2) == s3;
    assert WellFormed(Scanned);
    assert VisitAdj(s3, 2, 1) == VisitAdj(s3, 2, 2) == s3;
  }

  /** et_dfs entered at node 2 once 1 is visited: marks it, skips 1 twice and visits 3. */
  lemma DfsAtTwo()
    ensures WellFormed(Marked1) &&
      Visit(ScanState(Marked1, 1, 3, [0]), 1) == ScanState(Scanned, 3, 8, [0, 1])
  {
    var s1 := ScanState(Marked1, 1, 3, [0]);
    var s2 := ScanState(Marked2, 2, 6, [0, 1]);
    var s3 := ScanState(Scanned, 3, 8, [0, 1]);
    assert Mark(s1, 1) == s2;
    DfsAtThree();
    assert VisitAdj(s3, 1, 3) == s3;
    assert VisitAdj(s2, 1, 2) == VisitAdj(s3, 1, 3);
    assert VisitAdj(s2, 1, 0) == VisitAdj(s2, 1, 1) == VisitAdj(s2, 1, 2);
  }

  /** et_dfs from the first node visits 1, then 2, then 3, recording 1 and 2 as the odd nodes in that order. */
  lemma ScanExample()
    ensures IsConnected(G4, [], 0) == Connection(ScanState(Scanned, 3, 8, [0, 1]), true, 5)
  {
    var s0 := ScanState(G4, 0, 0, []);
    var s1 := ScanState(Marked1, 1, 3, [0]);
    var s3 := ScanState(Scanned, 3, 8, [0, 1]);
    assert WellFormed(G4);
    assert Mark(s0, 0) == s1;
    DfsAtTwo();
    assert VisitAdj(s3, 0, 1) == VisitAdj(s3, 0, 2) == VisitAdj(s3, 0, 3) == s3;
    assert VisitAdj(s1, 0, 0) == VisitAdj(s3, 0, 1);
    assert Visit(s0, 0) == s3;
    assert Half(8) == 4;
  }

  /** et_validate_graph accepts the graph: two odd nodes, not a circuit, connected. */
  lemma ValidateExample()
    ensures ValidateGraph(G4, false, [], 0) == Validation(true, false, Some(Connection(ScanState(Scanned, 3, 8, [0, 1]), true, 5)))
  {
    assert G4[..2][..1] == G4[..1] && G4[..1][..0] == [];
    assert G4[..3][..2] == G4[..2];
    assert Count(G4[..1], OddDegree) == 1;
    assert Count(G4[..2], OddDegree) == 2;
    assert Count(G4, OddDegree) == 2;
    ScanExample();
  }

  /** The step 1 to 2 of the first walk marks the first entries of the pair. */
  lemma MarkStep1()
    ensures SetUsed(Scanned, 0, 1) == Walked1
  {
    var low := [Walked1[0].(adj := Scanned[0].adj), Walked1[1].(adj := Scanned[1].adj), Walked1[2]];
    assert Lower(Scanned, 0, 1) == low;
    assert FirstEntry(low[0].adj, 1) == Some(0);
    assert MarkFirst(low[0].adj, 1) == Walked1[0].adj;
    var mid := low[0 := Walked1[0]];
    assert FirstEntry(mid[1].adj, 0) == Some(0);
    assert MarkFirst(mid[1].adj, 0) == Walked1[1].adj;
    assert mid[1 := Walked1[1]] == Walked1;
  }

  /** The step 1 to 2 of the second walk marks the already used first entries again: nothing changes but the degrees. */
  lemma MarkStep2()
    ensures SetUsed(Walked1, 0, 1) == Walked1a
  {
    assert Lower(Walked1, 0, 1) == Walked1a;
    assert FirstEntry(Walked1a[0].adj, 1) == Some(0);
    assert MarkFirst(Walked1a[0].adj, 1) == Walked1a[0].adj;
    assert FirstEntry(Walked1a[1].adj, 0) == Some(0);
    assert MarkFirst(Walked1a[1].adj, 0) == Walked1a[1].adj;
    assert MarkBoth(Walked1a, 0, 1) == Walked1a;
  }

  /** The step 2 back to 1 of the second walk: again only the degrees change. */
  lemma MarkStep3()
    ensures SetUsed(Walked1a, 1, 0) == Walked2
  {
    assert Lower(Walked1a, 1, 0) == Walked2;
    assert FirstEntry(Walked2[1].adj, 0) == Some(0);
    assert MarkFirst(Walked2[1].adj, 0) == Walked2[1].adj;
    assert FirstEntry(Walked2[0].adj, 1) == Some(0);
    assert MarkFirst(Walked2[0].adj, 1) == Walked2[0].adj;
    assert MarkBoth(Walked2, 1, 0) == Walked2;
  }

  /** The step 2 to 3 of the third walk. */
  lemma MarkStep4()
    ensures SetUsed(Walked2, 1, 2) == Walked3
  {
    var low := [Walked3[0], Walked3[1].(adj := Walked2[1].adj), Walked3[2].(adj := Walked2[2].adj)];
    assert Lower(Walked2, 1, 2) == low;
    assert FirstEntry(low[1].adj, 2) == Some(2);
    assert MarkFirst(low[1].adj, 2) == Walked3[1].adj;
    var mid := low[1 := Walked3[1]];
    assert FirstEntry(mid[2].adj, 1) == Some(0);
    assert MarkFirst(mid[2].adj, 1) == Walked3[2].adj;
    assert mid[2 := Walked3[2]] == Walked3;
  }

  /** The first walk, from the first odd node 1 to the second odd node 2, takes one edge. */
  lemma FirstWalk()
    ensures WellFormed(Scanned) && SubCircuit(Scanned, [], 0, 1) == WalkResult(Walked1, [0, 1], [0, 1], true)
  {
    assert WellFormed(Scanned);
    assert ListAdd(Scanned, [], 0) == [0];
    MarkStep1();
    assert ListAdd(Walked1, [0], 1) == [0, 1];
    assert WalkLoop(Scanned, [0], 0, 0, 1, [0]) == WalkResult(Walked1, [0, 1], [0, 1], true);
  }

  /** The walk from candidate 1 takes the second 1-2 entry out and, its mark missing, the same entry back. */
  lemma SecondWalk()
    ensures SubCircuit(Walked1, [0, 1], 0, 0) == WalkResult(Walked2, [0, 1], [0, 1, 0], true)
  {
    assert WellFormed(Walked1) && WellFormed(Walked1a);
    MarkStep2();
    MarkStep3();
    SetUsedShape(Walked1, 0, 1);
    assert ListAdd(Walked1a, [0, 1], 1) == [0, 1];
    assert ListAdd(Walked2, [0, 1], 0) == [0, 1];
    assert WalkLoop(Walked1a, [0, 1], 1, 1, 0, [0, 1]) == WalkResult(Walked2, [0, 1], [0, 1, 0], true);
    assert WalkLoop(Walked1a, [0, 1], 1, 0, 0, [0, 1]) == WalkLoop(Walked1a, [0, 1], 1, 1, 0, [0, 1]);
    assert WalkLoop(Walked1, [0, 1], 0, 1, 0, [0]) == WalkLoop(Walked1a, [0, 1], 1, 0, 0, [0, 1]);
    assert WalkLoop(Walked1, [0, 1], 0, 0, 0, [0]) == WalkLoop(Walked1, [0, 1], 0, 1, 0, [0]);
  }

  /** The walk from candidate 2 reaches 3 and is stuck there: it is discarded. */
  lemma ThirdWalk()
    ensures SubCircuit(Walked2, [0, 1], 1, 1) == WalkResult(Walked3, [0, 1], [1, 2], false)
  {
    assert WellFormed(Walked2) && WellFormed(Walked3);
    MarkStep4();
    assert ListAdd(Walked3, [0, 1], 2) == [0, 1];
    assert WalkLoop(Walked3, [0, 1], 2, 0, 1, [1, 2]) == WalkLoop(Walked3, [0, 1], 2, 1, 1, [1, 2])
      == WalkLoop(Walked3, [0, 1], 2, 2, 1, [1, 2]) == WalkResult(Walked3, [0, 1], [1, 2], false);
    assert WalkLoop(Walked2, [0, 1], 1, 2, 1, [1]) == WalkLoop(Walked3, [0, 1], 2, 0, 1, [1, 2]);
    assert WalkLoop(Walked2, [0, 1], 1, 0, 1, [1]) == WalkLoop(Walked2, [0, 1], 1, 1, 1, [1])
      == WalkLoop(Walked2, [0, 1], 1, 2, 1, [1]);
  }

  /** The candidate loop from its last candidate on: the walk from 2 is discarded and the list is exhausted. */
  lemma AssembleTail()
    ensures WellFormed(Walked2) && ListOk(3, [0, 1]) &&
      Assemble(Walked2, [0, 1], [0, 1, 0, 1], 5, 1) == Assembled(Walked3, [0, 1], [0, 1, 0, 1])
  {
    assert WellFormed(Walked2);
    AssembleDone();
    ThirdWalk();
  }

  /** Past the last candidate the loop stops. */
  lemma AssembleDone()
    ensures WellFormed(Walked3) && ListOk(3, [0, 1]) &&
      Assemble(Walked3, [0, 1], [0, 1, 0, 1], 5, 2) == Assembled(Walked3, [0, 1], [0, 1, 0, 1])
  {
    assert WellFormed(Walked3);
    assert ListOk(3, [0, 1]);
  }

  /** The sub-circuit 1 2 1 spliced into the trail 1 2 at its first 1. */
  lemma SpliceExample()
    ensures Splice([0, 1], [0, 1, 0]) == [0, 1, 0, 1]
  {
    assert FirstIndex([0, 1], 0) == Some(0);
  }

  /** The first round of the candidate loop: the walk from 1 is spliced in. */
  lemma FirstRound()
    ensures WellFormed(Walked1) && ListOk(3, [0, 1]) &&
      Round(Walked1, [0, 1], [0, 1], 0) == Assembled(Walked2, [0, 1], [0, 1, 0, 1])
  {
    assert WellFormed(Walked1);
    assert ListOk(3, [0, 1]);
    SecondWalk();
    SpliceExample();
  }

  /** The whole candidate loop: the walk from 1 is spliced in, the walk from 2 is discarded. */
  lemma AssembleExample()
    ensures WellFormed(Walked1) && ListOk(3, [0, 1]) &&
      Assemble(Walked1, [0, 1], [0, 1], 5, 0) == Assembled(Walked3, [0, 1], [0, 1, 0, 1])
  {
    FirstRound();
    AssembleTail();
    assert !Complete([0, 1], 5);
  }

  /** et_eulerian_trail on the validated graph returns 1 2 1 2. */
  lemma TrailExample()
    ensures DriverReady(Scanned, false, [0, 1]) && SubCircuit(Scanned, [], 0, 1).ok
    ensures EulerianTrail(Scanned, false, [0, 1], 5) == Assembled(Walked3, [0, 1], [0, 1, 0, 1])
  {
    FirstWalk();
    AssembleExample();
    assert DriverReady(Scanned, false, [0, 1]);
  }

  /**
   * The whole run as written: the graph is accepted with 1 and 2 as its odd
   * nodes and trail_nodes 5, and the trail returned is 1 2 1 2.  It is not
   * an Eulerian trail: three steps for four edges, the pair 1-2 stepped
   * three times although it has two edges, and node 3 never reached.
   */
  lemma ParallelEdgeReused()
    ensures Build(Edges) == G4 && WellFormed(G4)
    ensures var v := ValidateGraph(G4, false, [], 0);
      v.ok && !v.circuit && v.conn.Some? &&
      var c := v.conn.value;
      c.scan.odd == [0, 1] && c.trailNodes == 5 &&
      DriverReady(c.scan.nodes, false, c.scan.odd) &&
      SubCircuit(c.scan.nodes, [], 0, 1).ok &&
      var t := EulerianTrail(c.scan.nodes, false, c.scan.odd, c.trailNodes).trail;
      t == [0, 1, 0, 1] && |t| - 1 < |Edges| && !Complete(t, c.trailNodes) &&
      Steps(t) == multiset{(0, 1), (0, 1), (1, 0)} && 2 !in t
  {
    BuildExample();
    BuildShape(Edges);
    ValidateExample();
    WrongTrail();
  }

  /** What et_eulerian_trail returns on the validated graph falls short of an Eulerian trail. */
  lemma WrongTrail()
    ensures DriverReady(Scanned, false, [0, 1]) && SubCircuit(Scanned, [], 0, 1).ok
    ensures var t := EulerianTrail(Scanned, false, [0, 1], 5).trail;
      t == [0, 1, 0, 1] && |t| - 1 < |Edges| && !Complete(t, 5) &&
      Steps(t) == multiset{(0, 1), (0, 1), (1, 0)} && 2 !in t
  {
    TrailExample();
    StepsExample();
    assert !Complete([0, 1, 0, 1], 5);
  }

  /** The steps of 1 2 1 2. */
  lemma StepsExample()
    ensures Steps([0, 1, 0, 1]) == multiset{(0, 1), (0, 1), (1, 0)}
  {
    assert [0, 1, 0, 1][1..] == [1, 0, 1] && [1, 0, 1][1..] == [0, 1] && [0, 1][1..] == [1];
  }

  /** The number of used entries of a list that name b. */
  function UsedCount(adj: seq<Adj>, b: nat): nat
  {
    if adj == [] then 0 else (if adj[0].nbr == b && adj[0].used then 1 else 0) + UsedCount(adj[1..], b)
  }

  /** Whether some entry naming b is still unused. */
  predicate HasUnused(adj: seq<Adj>, b: nat)
  {
    exists k :: 0 <= k < |adj| && adj[k].nbr == b && !adj[k].used
  }

  /**
   * The intended search of et_set_edge_used: mark the first entry naming b
   * that is still unused (eulerian.c marks the first entry naming b).
   */
  function MarkFirstUnused(adj: seq<Adj>, b: nat): (r: seq<Adj>)
    ensures |r| == |adj|
  {
    if adj == [] then []
    else if adj[0].nbr == b && !adj[0].used then [adj[0].(used := true)] + adj[1..]
    else [adj[0]] + MarkFirstUnused(adj[1..], b)
  }

  /**
   * The corrected search consumes exactly one entry naming b when one is
   * left, and none otherwise; it keeps every entry's node and leaves the
   * used entries naming any other node as they were.
   */
  lemma {:induction false} MarkFirstUnusedCounts(adj: seq<Adj>, b: nat)
    ensures var r := MarkFirstUnused(adj, b);
      (forall k :: 0 <= k < |adj| ==> r[k].nbr == adj[k].nbr && (adj[k].used ==> r[k].used)) &&
      UsedCount(r, b) == UsedCount(adj, b) + (if HasUnused(adj, b) then 1 else 0) &&
      forall c :: c != b ==> UsedCount(r, c) == UsedCount(adj, c)
  {
    if adj != [] {
      var r := MarkFirstUnused(adj, b);
      if adj[0].nbr == b && !adj[0].used {
        assert r[1..] == adj[1..];
        assert HasUnused(adj, b);
      } else {
        MarkFirstUnusedCounts(adj[1..], b);
        assert r[1..] == MarkFirstUnused(adj[1..], b);
        assert HasUnused(adj, b) <==> HasUnused(adj[1..], b) by {
          if HasUnused(adj, b) {
            var k :| 0 <= k < |adj| && adj[k].nbr == b && !adj[k].used;
            assert k > 0 && adj[1..][k - 1] == adj[k];
          }
          if HasUnused(adj[1..], b) {
            var k :| 0 <= k < |adj[1..]| && adj[1..][k].nbr == b && !adj[1..][k].used;
            assert adj[k + 1] == adj[1..][k];
          }
        }
        forall k | 0 <= k < |adj|
          ensures r[k].nbr == adj[k].nbr && (adj[k].used ==> r[k].used)
        {
          if k > 0 { assert r[k] == r[1..][k - 1] && adj[k] == adj[1..][k - 1]; }
        }
      }
    }
  }

  /**
   * The search as written misses the parallel edge: with the first entry
   * naming node 2 used and the second one not, it marks nothing, while the
   * corrected search marks the second.
   */
  lemma MarkFirstMissesParallelEdge()
    ensures var adj := [Adj(1, true), Adj(1, false)];
      HasUnused(adj, 1) && MarkFirst(adj, 1) == adj && UsedCount(MarkFirst(adj, 1), 1) == 1 &&
      UsedCount(MarkFirstUnused(adj, 1), 1) == 2
  {
    var adj := [Adj(1, true), Adj(1, false)];
    assert adj[1].nbr == 1 && !adj[1].used;
    assert FirstEntry(adj, 1) == Some(0);
    assert adj[1..][1..] == [];
    assert UsedCount(adj, 1) == 1;
    assert MarkFirstUnused(adj, 1) == [Adj(1, true), Adj(1, true)];
    assert UsedCount([Adj(1, true), Adj(1, true)], 1) == 2;
  }

  /** et_set_edge_used with the intended search on both sides. */
  function SetUsedFixed(ns: seq<Node>, a: nat, b: nat): (r: seq<Node>)
    requires a < |ns| && b < |ns|
    ensures |r| == |ns|
  {
    var low := Lower(ns, a, b);
    var ns3 := low[a := low[a].(adj := MarkFirstUnused(low[a].adj, b))];
    ns3[b := ns3[b].(adj := MarkFirstUnused(ns3[b].adj, a))]
  }

  /**
   * With the intended search a step between two distinct nodes consumes
   * exactly one edge: one more used entry on each side, both remaining
   * degrees lowered by one, every other node untouched.
   */
  lemma SetUsedFixedConsumesOneEdge(ns: seq<Node>, a: nat, b: nat)
    requires a < |ns| && b < |ns| && a != b
    requires HasUnused(ns[a].adj, b) && HasUnused(ns[b].adj, a)
    ensures var r := SetUsedFixed(ns, a, b);
      UsedCount(r[a].adj, b) == UsedCount(ns[a].adj, b) + 1 &&
      UsedCount(r[b].adj, a) == UsedCount(ns[b].adj, a) + 1 &&
      r[a].edeg == ns[a].edeg - 1 && r[b].edeg == ns[b].edeg - 1 &&
      forall i :: 0 <= i < |ns| && i != a && i != b ==> r[i] == ns[i]
  {
    MarkFirstUnusedCounts(ns[a].adj, b);
    MarkFirstUnusedCounts(ns[b].adj, a);
  }

  /**
   * The second walk's first step, as written and as intended: both lists
   * still hold an unused entry of the pair 1-2, eulerian.c marks nothing
   * new, the intended search marks one entry on each side.
   */
  lemma SecondStepCompared()
    ensures HasUnused(Walked1[0].adj, 1) && HasUnused(Walked1[1].adj, 0)
    ensures var w := SetUsed(Walked1, 0, 1);
      UsedCount(w[0].adj, 1) == UsedCount(Walked1[0].adj, 1) &&
      UsedCount(w[1].adj, 0) == UsedCount(Walked1[1].adj, 0)
    ensures var f := SetUsedFixed(Walked1, 0, 1);
      UsedCount(f[0].adj, 1) == UsedCount(Walked1[0].adj, 1) + 1 &&
      UsedCount(f[1].adj, 0) == UsedCount(Walked1[1].adj, 0) + 1
  {
    assert Walked1[0].adj[1].nbr == 1 && !Walked1[0].adj[1].used;
    assert Walked1[1].adj[1].nbr == 0 && !Walked1[1].adj[1].used;
    MarkStep2();
    SetUsedFixedConsumesOneEdge(Walked1, 0, 1);
  }
}
