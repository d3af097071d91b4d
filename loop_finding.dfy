/**
 * A defect of the candidate loop of et_eulerian_trail and its correction.
 *
 * The loop (eulerian.c:708-715) walks each candidate once and moves on,
 * and et_list_add_elem (eulerian.c:579-597) never appends a node that is
 * already listed.  A candidate whose edges outlast one sub-circuit is
 * therefore never walked again, even on a graph without parallel edges.
 * The lemmas below follow the whole program on the input with edges 1-2,
 * 2-3, 3-1, 1-4, 4-5, 5-1, 1-6, 6-7, 7-1 (arena positions 0 to 6 for the
 * ids 1 to 7): the graph is accepted as a circuit, the first walk is
 * 1 2 3 1 and registers 1, the walk from 1 is 1 4 5 1, and the list is
 * then exhausted, so the trail returned is 1 4 5 1 2 3 1, seven of the ten
 * nodes trail_nodes asks for; the edges 1-6, 6-7 and 7-1 are never used.
 * AssembleFixed is the intended loop, which walks a candidate again while
 * its walks succeed and edges remain at it.
 */
module LoopFinding {
  import opened Wrappers
  import opened GraphModel
  import opened Scan
  import opened Walk
  import opened Assembly
  import opened Coverage
  import Findings

  /** The input: three triangles through node 1. */
  const LoopEdges: seq<(int, int)> := [(1, 2), (2, 3), (3, 1), (1, 4), (4, 5), (5, 1), (1, 6), (6, 7), (7, 1)]

  /** The arena after et_add_edge for 1-2. */
  const H1: seq<Node> := [Node(1, 1, 0, false, [Adj(1, false)]),
                          Node(2, 1, 0, false, [Adj(0, false)])]

  /** The arena after et_add_edge for 2-3. */
  const H2: seq<Node> := [Node(1, 1, 0, false, [Adj(1, false)]),
                          Node(2, 2, 0, false, [Adj(0, false), Adj(2, false)]),
                          Node(3, 1, 0, false, [Adj(1, false)])]

  /** The arena after et_add_edge for 3-1. */
  const H3: seq<Node> := [Node(1, 2, 0, false, [Adj(1, false), Adj(2, false)]),
                          Node(2, 2, 0, false, [Adj(0, false), Adj(2, false)]),
                          Node(3, 2, 0, false, [Adj(1, false), Adj(0, false)])]

  /** The arena after et_add_edge for 1-4. */
  const H4: seq<Node> := [Node(1, 3, 0, false, [Adj(1, false), Adj(2, false), Adj(3, false)]),
                          Node(2, 2, 0, false, [Adj(0, false), Adj(2, false)]),
                          Node(3, 2, 0, false, [Adj(1, false), Adj(0, false)]),
                          Node(4, 1, 0, false, [Adj(0, false)])]

  /** The arena after et_add_edge for 4-5. */
  const H5: seq<Node> := [Node(1, 3, 0, false, [Adj(1, false), Adj(2, false), Adj(3, false)]),
                          Node(2, 2, 0, false, [Adj(0, false), Adj(2, false)]),
                          Node(3, 2, 0, false, [Adj(1, false), Adj(0, false)]),
                          Node(4, 2, 0, false, [Adj(0, false), Adj(4, false)]),
                          Node(5, 1, 0, false, [Adj(3, false)])]

  /** The arena after et_add_edge for 5-1. */
  const H6: seq<Node> := [Node(1, 4, 0, false, [Adj(1, false), Adj(2, false), Adj(3, false), Adj(4, false)]),
                          Node(2, 2, 0, false, [Adj(0, false), Adj(2, false)]),
                          Node(3, 2, 0, false, [Adj(1, false), Adj(0, false)]),
                          Node(4, 2, 0, false, [Adj(0, false), Adj(4, false)]),
                          Node(5, 2, 0, false, [Adj(3, false), Adj(0, false)])]

  /** The arena after et_add_edge for 1-6. */
  const H7: seq<Node> := [Node(1, 5, 0, false, [Adj(1, false), Adj(2, false), Adj(3, false), Adj(4, false), Adj(5, false)]),
                          Node(2, 2, 0, false, [Adj(0, false), Adj(2, false)]),
                          Node(3, 2, 0, false, [Adj(1, false), Adj(0, false)]),
                          Node(4, 2, 0, false, [Adj(0, false), Adj(4, false)]),
                          Node(5, 2, 0, false, [Adj(3, false), Adj(0, false)]),
                          Node(6, 1, 0, false, [Adj(0, false)])]

  /** The arena after et_add_edge for 6-7. */
  const H8: seq<Node> := [Node(1, 5, 0, false, [Adj(1, false), Adj(2, false), Adj(3, false), Adj(4, false), Adj(5, false)]),
                          Node(2, 2, 0, false, [Adj(0, false), Adj(2, false)]),
                          Node(3, 2, 0, false, [Adj(1, false), Adj(0, false)]),
                          Node(4, 2, 0, false, [Adj(0, false), Adj(4, false)]),
                          Node(5, 2, 0, false, [Adj(3, false), Adj(0, false)]),
                          Node(6, 2, 0, false, [Adj(0, false), Adj(6, false)]),
                          Node(7, 1, 0, false, [Adj(5, false)])]

  /** The arena after et_add_edge for 7-1. */
  const H9: seq<Node> := [Node(1, 6, 0, false, [Adj(1, false), Adj(2, false), Adj(3, false), Adj(4, false), Adj(5, false), Adj(6, false)]),
                          Node(2, 2, 0, false, [Adj(0, false), Adj(2, false)]),
                          Node(3, 2, 0, false, [Adj(1, false), Adj(0, false)]),
                          Node(4, 2, 0, false, [Adj(0, false), Adj(4, false)]),
                          Node(5, 2, 0, false, [Adj(3, false), Adj(0, false)]),
                          Node(6, 2, 0, false, [Adj(0, false), Adj(6, false)]),
                          Node(7, 2, 0, false, [Adj(5, false), Adj(0, false)])]

  /** The arena after et_validate_graph: every node visited, remaining degree reset to degree. */
  const V0: seq<Node> := [Node(1, 6, 6, true, [Adj(1, false), Adj(2, false), Adj(3, false), Adj(4, false), Adj(5, false), Adj(6, false)]),
                          Node(2, 2, 2, true, [Adj(0, false), Adj(2, false)]),
                          Node(3, 2, 2, true, [Adj(1, false), Adj(0, false)]),
                          Node(4, 2, 2, true, [Adj(0, false), Adj(4, false)]),
                          Node(5, 2, 2, true, [Adj(3, false), Adj(0, false)]),
                          Node(6, 2, 2, true, [Adj(0, false), Adj(6, false)]),
                          Node(7, 2, 2, true, [Adj(5, false), Adj(0, false)])]

  /** The arena after the first walk's step 1 to 2. */
  const W1: seq<Node> := Take(V0, 0, 1, 0, 0)

  /** The arena after its step 2 to 3. */
  const W2: seq<Node> := Take(W1, 1, 2, 1, 0)

  /** The arena after its step 3 back to 1: the first walk 1 2 3 1 is done. */
  const W3: seq<Node> := Take(W2, 2, 0, 1, 1)

  /** The arena after the candidate walk's step 1 to 4. */
  const W4: seq<Node> := Take(W3, 0, 3, 2, 0)

  /** The arena after its step 4 to 5. */
  const W5: seq<Node> := Take(W4, 3, 4, 1, 0)

  /** The arena after its step 5 back to 1: the walk 1 4 5 1 is done. */
  const W6: seq<Node> := Take(W5, 4, 0, 1, 3)

  /** The arena after a further walk's step 1 to 6. */
  const W7: seq<Node> := Take(W6, 0, 5, 4, 0)

  /** The arena after its step 6 to 7. */
  const W8: seq<Node> := Take(W7, 5, 6, 1, 0)

  /** The arena after its step 7 back to 1: every entry is used. */
  const W9: seq<Node> := Take(W8, 6, 0, 1, 5)

  /*
   * The lemmas about the run take the arena as a parameter equal to the
   * named constant, one step at a time: stated on the constants themselves
   * they would have the verifier evaluate the whole run in one go.
   */

  /** A node after one of its entries is taken: remaining degree one lower, entry i marked used. */
  function Took(n: Node, i: nat): Node
    requires i < |n.adj|
  {
    n.(edeg := n.edeg - 1, adj := n.adj[i := n.adj[i].(used := true)])
  }

  /** The arena after the step from a to b that takes entry i of a's list and entry j of b's. */
  function Take(ns: seq<Node>, a: nat, b: nat, i: nat, j: nat): seq<Node>
    requires a < |ns| && b < |ns| && i < |ns[a].adj| && j < |ns[b].adj|
  {
    ns[a := Took(ns[a], i)][b := Took(ns[b], j)]
  }

  /** One et_set_edge_used between distinct nodes, once the first entries naming each other are known. */
  lemma SetUsedAt(ns: seq<Node>, a: nat, b: nat, i: nat, j: nat)
    requires a < |ns| && b < |ns| && a != b
    requires i < |ns[a].adj| && ns[a].adj[i].nbr == b && forall k :: 0 <= k < i ==> ns[a].adj[k].nbr != b
    requires j < |ns[b].adj| && ns[b].adj[j].nbr == a && forall k :: 0 <= k < j ==> ns[b].adj[k].nbr != a
    ensures SetUsed(ns, a, b) == Take(ns, a, b, i, j)
  {
    assert FirstEntry(ns[a].adj, b) == Some(i);
    assert FirstEntry(ns[b].adj, a) == Some(j);
  }

  /** One et_add_edge between two nodes already in the arena, at positions i and j. */
  lemma AddBetween(ns: seq<Node>, n1: int, n2: int, i: nat, j: nat)
    requires DistinctIds(ns) && i < |ns| && j < |ns| && i != j && ns[i].id == n1 && ns[j].id == n2
    ensures AddEdge(ns, n1, n2) == ns[i := AppendAdj(ns[i], j)][j := AppendAdj(ns[j], i)]
  {
    LookupDistinct(ns, i);
    LookupDistinct(ns, j);
    assert Grown(ns, n1, n2) == ns;
    Findings.AddEdgeAt(ns, n1, n2, ns, i, j);
  }

  /** One et_add_edge from a node at position i to a new node, which goes at the end. */
  lemma AddToNew(ns: seq<Node>, n1: int, n2: int, i: nat)
    requires DistinctIds(ns) && i < |ns| && ns[i].id == n1
    requires forall k :: 0 <= k < |ns| ==> ns[k].id != n2
    ensures var c := ns + [NewNode(n2)];
      AddEdge(ns, n1, n2) == c[i := AppendAdj(c[i], |ns|)][|ns| := AppendAdj(c[|ns|], i)]
  {
    var c := ns + [NewNode(n2)];
    LookupDistinct(ns, i);
    assert Lookup(ns, n2) == None;
    assert Grown(ns, n1, n2) == c;
    Findings.AddEdgeAt(ns, n1, n2, c, i, |ns|);
  }

  /** The walk passes over an entry already used. */
  lemma SkipUsed(ns: seq<Node>, list: seq<nat>, a: nat, p: nat, end: nat, sub: seq<nat>)
    requires WellFormed(ns) && a < |ns| && p < |ns[a].adj| && ns[a].adj[p].used
    ensures WalkLoop(ns, list, a, p, end, sub) == WalkLoop(ns, list, a, p + 1, end, sub)
  {
  }

  /** The walk takes an unused entry towards b, which has edges left: it stops if b is the end, and goes on from b otherwise. */
  lemma TakeEntry(ns: seq<Node>, list: seq<nat>, a: nat, p: nat, end: nat, sub: seq<nat>, b: nat)
    requires WellFormed(ns) && a < |ns| && b < |ns| && p < |ns[a].adj| && ns[a].adj[p] == Adj(b, false) && ns[b].edeg > 0
    ensures var m := SetUsed(ns, a, b);
      WellFormed(m) && |m| == |ns| &&
      WalkLoop(ns, list, a, p, end, sub) ==
        if b == end then WalkResult(m, ListAdd(m, list, b), sub + [b], true)
        else WalkLoop(m, ListAdd(m, list, b), b, 0, end, sub + [b])
  {
    SetUsedStep(ns, a, b);
  }

  /** One more edge of the input: the arena grows by that edge's et_add_edge. */
  lemma BuildStep(edges: seq<(int, int)>, k: nat, h: seq<Node>, a: int, b: int)
    requires k < |edges| && edges[k] == (a, b) && Build(edges[..k]) == h
    ensures Build(edges[..k + 1]) == AddEdge(h, a, b)
  {
    Findings.BuildPrefix(edges, k);
  }

  /** Ids that follow the positions, 1 at position 0 and so on, are distinct, and the next id is new. */
  lemma IdsByPosition(ns: seq<Node>)
    requires forall i :: 0 <= i < |ns| ==> ns[i].id == i + 1
    ensures DistinctIds(ns) && forall x :: 0 <= x < |ns| ==> ns[x].id != |ns| + 1
  {
  }

  /** et_add_edge for 1-2 on the empty arena creates both nodes. */
  lemma AddH1()
    ensures AddEdge([], 1, 2) == H1
  {
    var c := [NewNode(1), NewNode(2)];
    assert EnsureNode([], 1) == [NewNode(1)];
    LookupIn([NewNode(1)], 2);
    assert Grown([], 1, 2) == c;
    Findings.AddEdgeAt([], 1, 2, c, 0, 1);
    assert AppendAdj(c[0], 1) == H1[0];
    assert AppendAdj(c[1], 0) == H1[1];
    assert c[0 := H1[0]][1 := H1[1]] == H1;
  }

  /** The ids in H1, which et_add_edge for 2-3 looks up: distinct, and 3 is new. */
  lemma IdsH2()
    ensures DistinctIds(H1) && forall x :: 0 <= x < |H1| ==> H1[x].id != 3
  {
    assert |H1| == 2;
    assert H1[0].id == 1;
    assert H1[1].id == 2;
    forall i | 0 <= i < |H1| ensures H1[i].id == i + 1 {
      assert i == 0 || i == 1;
    }
    IdsByPosition(H1);
    assert |H1| + 1 == 3;
  }

  /** The two list appends of et_add_edge for 2-3 turn H1 plus the new node into H2. */
  lemma AppendH2()
    ensures var c := H1 + [NewNode(3)];
      c[1 := AppendAdj(c[1], 2)][2 := AppendAdj(c[2], 1)] == H2
  {
    var c := H1 + [NewNode(3)];
    assert AppendAdj(c[1], 2) == H2[1];
    assert AppendAdj(c[2], 1) == H2[2];
    assert c[1 := H2[1]][2 := H2[2]] == H2;
  }

  /** et_add_edge for 2-3 finds 2 and creates 3. */
  lemma AddH2(ns: seq<Node>)
    requires ns == H1
    ensures AddEdge(ns, 2, 3) == H2
  {
    IdsH2();
    AddToNew(ns, 2, 3, 1);
    AppendH2();
  }

  /** The ids in H2, which et_add_edge for 3-1 looks up: distinct. */
  lemma IdsH3()
    ensures DistinctIds(H2)
  {
    assert |H2| == 3;
    assert H2[0].id == 1;
    assert H2[1].id == 2;
    assert H2[2].id == 3;
    forall i | 0 <= i < |H2| ensures H2[i].id == i + 1 {
      assert i == 0 || i == 1 || i == 2;
    }
    IdsByPosition(H2);
  }

  /** The two list appends of et_add_edge for 3-1 turn H2 into H3. */
  lemma AppendH3()
    ensures var c := H2;
      c[2 := AppendAdj(c[2], 0)][0 := AppendAdj(c[0], 2)] == H3
  {
    var c := H2;
    assert AppendAdj(c[2], 0) == H3[2];
    assert AppendAdj(c[0], 2) == H3[0];
    assert c[2 := H3[2]][0 := H3[0]] == H3;
  }

  /** et_add_edge for 3-1 finds both endpoints. */
  lemma AddH3(ns: seq<Node>)
    requires ns == H2
    ensures AddEdge(ns, 3, 1) == H3
  {
    IdsH3();
    AddBetween(ns, 3, 1, 2, 0);
    AppendH3();
  }

  /** The ids in H3, which et_add_edge for 1-4 looks up: distinct, and 4 is new. */
  lemma IdsH4()
    ensures DistinctIds(H3) && forall x :: 0 <= x < |H3| ==> H3[x].id != 4
  {
    assert |H3| == 3;
    assert H3[0].id == 1;
    assert H3[1].id == 2;
    assert H3[2].id == 3;
    forall i | 0 <= i < |H3| ensures H3[i].id == i + 1 {
      assert i == 0 || i == 1 || i == 2;
    }
    IdsByPosition(H3);
    assert |H3| + 1 == 4;
  }

  /** The two list appends of et_add_edge for 1-4 turn H3 plus the new node into H4. */
  lemma AppendH4()
    ensures var c := H3 + [NewNode(4)];
      c[0 := AppendAdj(c[0], 3)][3 := AppendAdj(c[3], 0)] == H4
  {
    var c := H3 + [NewNode(4)];
    assert AppendAdj(c[0], 3) == H4[0];
    assert AppendAdj(c[3], 0) == H4[3];
    assert c[0 := H4[0]][3 := H4[3]] == H4;
  }

  /** et_add_edge for 1-4 finds 1 and creates 4. */
  lemma AddH4(ns: seq<Node>)
    requires ns == H3
    ensures AddEdge(ns, 1, 4) == H4
  {
    IdsH4();
    AddToNew(ns, 1, 4, 0);
    AppendH4();
  }

  /** The ids in H4, which et_add_edge for 4-5 looks up: distinct, and 5 is new. */
  lemma IdsH5()
    ensures DistinctIds(H4) && forall x :: 0 <= x < |H4| ==> H4[x].id != 5
  {
    assert |H4| == 4;
    assert H4[0].id == 1;
    assert H4[1].id == 2;
    assert H4[2].id == 3;
    assert H4[3].id == 4;
    forall i | 0 <= i < |H4| ensures H4[i].id == i + 1 {
      assert i == 0 || i == 1 || i == 2 || i == 3;
    }
    IdsByPosition(H4);
    assert |H4| + 1 == 5;
  }

  /** The two list appends of et_add_edge for 4-5 turn H4 plus the new node into H5. */
  lemma AppendH5()
    ensures var c := H4 + [NewNode(5)];
      c[3 := AppendAdj(c[3], 4)][4 := AppendAdj(c[4], 3)] == H5
  {
    var c := H4 + [NewNode(5)];
    assert AppendAdj(c[3], 4) == H5[3];
    assert AppendAdj(c[4], 3) == H5[4];
    assert c[3 := H5[3]][4 := H5[4]] == H5;
  }

  /** et_add_edge for 4-5 finds 4 and creates 5. */
  lemma AddH5(ns: seq<Node>)
    requires ns == H4
    ensures AddEdge(ns, 4, 5) == H5
  {
    IdsH5();
    AddToNew(ns, 4, 5, 3);
    AppendH5();
  }

  /** The ids in H5, which et_add_edge for 5-1 looks up: distinct. */
  lemma IdsH6()
    ensures DistinctIds(H5)
  {
    assert |H5| == 5;
    assert H5[0].id == 1;
    assert H5[1].id == 2;
    assert H5[2].id == 3;
    assert H5[3].id == 4;
    assert H5[4].id == 5;
    forall i | 0 <= i < |H5| ensures H5[i].id == i + 1 {
      assert i == 0 || i == 1 || i == 2 || i == 3 || i == 4;
    }
    IdsByPosition(H5);
  }

  /** The two list appends of et_add_edge for 5-1 turn H5 into H6. */
  lemma AppendH6()
    ensures var c := H5;
      c[4 := AppendAdj(c[4], 0)][0 := AppendAdj(c[0], 4)] == H6
  {
    var c := H5;
    assert AppendAdj(c[4], 0) == H6[4];
    assert AppendAdj(c[0], 4) == H6[0];
    assert c[4 := H6[4]][0 := H6[0]] == H6;
  }

  /** et_add_edge for 5-1 finds both endpoints. */
  lemma AddH6(ns: seq<Node>)
    requires ns == H5
    ensures AddEdge(ns, 5, 1) == H6
  {
    IdsH6();
    AddBetween(ns, 5, 1, 4, 0);
    AppendH6();
  }

  /** The ids in H6, which et_add_edge for 1-6 looks up: distinct, and 6 is new. */
  lemma IdsH7()
    ensures DistinctIds(H6) && forall x :: 0 <= x < |H6| ==> H6[x].id != 6
  {
    assert |H6| == 5;
    assert H6[0].id == 1;
    assert H6[1].id == 2;
    assert H6[2].id == 3;
    assert H6[3].id == 4;
    assert H6[4].id == 5;
    forall i | 0 <= i < |H6| ensures H6[i].id == i + 1 {
      assert i == 0 || i == 1 || i == 2 || i == 3 || i == 4;
    }
    IdsByPosition(H6);
    assert |H6| + 1 == 6;
  }

  /** The two list appends of et_add_edge for 1-6 turn H6 plus the new node into H7. */
  lemma AppendH7()
    ensures var c := H6 + [NewNode(6)];
      c[0 := AppendAdj(c[0], 5)][5 := AppendAdj(c[5], 0)] == H7
  {
    var c := H6 + [NewNode(6)];
    assert AppendAdj(c[0], 5) == H7[0];
    assert AppendAdj(c[5], 0) == H7[5];
    assert c[0 := H7[0]][5 := H7[5]] == H7;
  }

  /** et_add_edge for 1-6 finds 1 and creates 6. */
  lemma AddH7(ns: seq<Node>)
    requires ns == H6
    ensures AddEdge(ns, 1, 6) == H7
  {
    IdsH7();
    AddToNew(ns, 1, 6, 0);
    AppendH7();
  }

  /** The ids in H7, which et_add_edge for 6-7 looks up: distinct, and 7 is new. */
  lemma IdsH8()
    ensures DistinctIds(H7) && forall x :: 0 <= x < |H7| ==> H7[x].id != 7
  {
    assert |H7| == 6;
    assert H7[0].id == 1;
    assert H7[1].id == 2;
    assert H7[2].id == 3;
    assert H7[3].id == 4;
    assert H7[4].id == 5;
    assert H7[5].id == 6;
    forall i | 0 <= i < |H7| ensures H7[i].id == i + 1 {
      assert i == 0 || i == 1 || i == 2 || i == 3 || i == 4 || i == 5;
    }
    IdsByPosition(H7);
    assert |H7| + 1 == 7;
  }

  /** The two list appends of et_add_edge for 6-7 turn H7 plus the new node into H8. */
  lemma AppendH8()
    ensures var c := H7 + [NewNode(7)];
      c[5 := AppendAdj(c[5], 6)][6 := AppendAdj(c[6], 5)] == H8
  {
    var c := H7 + [NewNode(7)];
    assert AppendAdj(c[5], 6) == H8[5];
    assert AppendAdj(c[6], 5) == H8[6];
    assert c[5 := H8[5]][6 := H8[6]] == H8;
  }

  /** et_add_edge for 6-7 finds 6 and creates 7. */
  lemma AddH8(ns: seq<Node>)
    requires ns == H7
    ensures AddEdge(ns, 6, 7) == H8
  {
    IdsH8();
    AddToNew(ns, 6, 7, 5);
    AppendH8();
  }

  /** The ids in H8, which et_add_edge for 7-1 looks up: distinct. */
  lemma IdsH9()
    ensures DistinctIds(H8)
  {
    assert |H8| == 7;
    assert H8[0].id == 1;
    assert H8[1].id == 2;
    assert H8[2].id == 3;
    assert H8[3].id == 4;
    assert H8[4].id == 5;
    assert H8[5].id == 6;
    assert H8[6].id == 7;
    forall i | 0 <= i < |H8| ensures H8[i].id == i + 1 {
      assert i == 0 || i == 1 || i == 2 || i == 3 || i == 4 || i == 5 || i == 6;
    }
    IdsByPosition(H8);
  }

  /** The two list appends of et_add_edge for 7-1 turn H8 into H9. */
  lemma AppendH9()
    ensures var c := H8;
      c[6 := AppendAdj(c[6], 0)][0 := AppendAdj(c[0], 6)] == H9
  {
    var c := H8;
    assert AppendAdj(c[6], 0) == H9[6];
    assert AppendAdj(c[0], 6) == H9[0];
    assert c[6 := H9[6]][0 := H9[0]] == H9;
  }

  /** et_add_edge for 7-1 finds both endpoints. */
  lemma AddH9(ns: seq<Node>)
    requires ns == H8
    ensures AddEdge(ns, 7, 1) == H9
  {
    IdsH9();
    AddBetween(ns, 7, 1, 6, 0);
    AppendH9();
  }

  /** et_build_graph on the first edge of the input yields H1. */
  lemma BuildH1(edges: seq<(int, int)>)
    requires edges == LoopEdges
    ensures Build(edges[..1]) == H1
  {
    assert edges[..0] == [];
    Findings.BuildPrefix(edges, 0);
    AddH1();
  }

  /** et_build_graph on the first 2 edges of the input yields H2. */
  lemma BuildH2(edges: seq<(int, int)>)
    requires edges == LoopEdges
    ensures Build(edges[..2]) == H2
  {
    var h := Build(edges[..1]);
    BuildH1(edges);
    BuildStep(edges, 1, h, 2, 3);
    AddH2(h);
  }

  /** et_build_graph on the first 3 edges of the input yields H3. */
  lemma BuildH3(edges: seq<(int, int)>)
    requires edges == LoopEdges
    ensures Build(edges[..3]) == H3
  {
    var h := Build(edges[..2]);
    BuildH2(edges);
    BuildStep(edges, 2, h, 3, 1);
    AddH3(h);
  }

  /** et_build_graph on the first 4 edges of the input yields H4. */
  lemma BuildH4(edges: seq<(int, int)>)
    requires edges == LoopEdges
    ensures Build(edges[..4]) == H4
  {
    var h := Build(edges[..3]);
    BuildH3(edges);
    BuildStep(edges, 3, h, 1, 4);
    AddH4(h);
  }

  /** et_build_graph on the first 5 edges of the input yields H5. */
  lemma BuildH5(edges: seq<(int, int)>)
    requires edges == LoopEdges
    ensures Build(edges[..5]) == H5
  {
    var h := Build(edges[..4]);
    BuildH4(edges);
    BuildStep(edges, 4, h, 4, 5);
    AddH5(h);
  }

  /** et_build_graph on the first 6 edges of the input yields H6. */
  lemma BuildH6(edges: seq<(int, int)>)
    requires edges == LoopEdges
    ensures Build(edges[..6]) == H6
  {
    var h := Build(edges[..5]);
    BuildH5(edges);
    BuildStep(edges, 5, h, 5, 1);
    AddH6(h);
  }

  /** et_build_graph on the first 7 edges of the input yields H7. */
  lemma BuildH7(edges: seq<(int, int)>)
    requires edges == LoopEdges
    ensures Build(edges[..7]) == H7
  {
    var h := Build(edges[..6]);
    BuildH6(edges);
    BuildStep(edges, 6, h, 1, 6);
    AddH7(h);
  }

  /** et_build_graph on the first 8 edges of the input yields H8. */
  lemma BuildH8(edges: seq<(int, int)>)
    requires edges == LoopEdges
    ensures Build(edges[..8]) == H8
  {
    var h := Build(edges[..7]);
    BuildH7(edges);
    BuildStep(edges, 7, h, 6, 7);
    AddH8(h);
  }

  /** et_build_graph on the input yields H9. */
  lemma BuildH9(edges: seq<(int, int)>)
    requires edges == LoopEdges
    ensures Build(edges) == H9
  {
    var h := Build(edges[..8]);
    BuildH8(edges);
    BuildStep(edges, 8, h, 7, 1);
    AddH9(h);
    assert edges[..9] == edges;
  }

  /** The walk from node 1 on: 1 2 3 1. */
  lemma WalkFrom1(ns: seq<Node>)
    requires ns == V0 && WellFormed(ns)
    ensures WalkLoop(ns, [0], 0, 0, 0, [0]) == WalkResult(W3, [0], [0, 1, 2, 0], true)
  {
    SetUsedAt(ns, 0, 1, 0, 0);
    TakeEntry(ns, [0], 0, 0, 0, [0], 1);
    var m := SetUsed(ns, 0, 1);
    assert m == W1;
    assert ListAdd(m, [0], 1) == [0];
    assert [0] + [1] == [0, 1];
    WalkFrom2(m);
  }

  /** The walk from node 2 on: 2 3 1. */
  lemma WalkFrom2(ns: seq<Node>)
    requires ns == W1 && WellFormed(ns)
    ensures WalkLoop(ns, [0], 1, 0, 0, [0, 1]) == WalkResult(W3, [0], [0, 1, 2, 0], true)
  {
    SkipUsed(ns, [0], 1, 0, 0, [0, 1]);
    SetUsedAt(ns, 1, 2, 1, 0);
    TakeEntry(ns, [0], 1, 1, 0, [0, 1], 2);
    var m := SetUsed(ns, 1, 2);
    assert m == W2;
    assert ListAdd(m, [0], 2) == [0];
    assert [0, 1] + [2] == [0, 1, 2];
    WalkFrom3(m);
  }

  /** The walk from node 3 on: 3 1. */
  lemma WalkFrom3(ns: seq<Node>)
    requires ns == W2 && WellFormed(ns)
    ensures WalkLoop(ns, [0], 2, 0, 0, [0, 1, 2]) == WalkResult(W3, [0], [0, 1, 2, 0], true)
  {
    SkipUsed(ns, [0], 2, 0, 0, [0, 1, 2]);
    SetUsedAt(ns, 2, 0, 1, 1);
    TakeEntry(ns, [0], 2, 1, 0, [0, 1, 2], 0);
    var m := SetUsed(ns, 2, 0);
    assert m == W3;
    assert ListAdd(m, [0], 0) == [0];
    assert [0, 1, 2] + [0] == [0, 1, 2, 0];
  }

  /** The walk from node 1 on: 1 4 5 1. */
  lemma WalkFrom4(ns: seq<Node>)
    requires ns == W3 && WellFormed(ns)
    ensures WalkLoop(ns, [0], 0, 0, 0, [0]) == WalkResult(W6, [0], [0, 3, 4, 0], true)
  {
    SkipUsed(ns, [0], 0, 0, 0, [0]);
    SkipUsed(ns, [0], 0, 1, 0, [0]);
    SetUsedAt(ns, 0, 3, 2, 0);
    TakeEntry(ns, [0], 0, 2, 0, [0], 3);
    var m := SetUsed(ns, 0, 3);
    assert m == W4;
    assert ListAdd(m, [0], 3) == [0];
    assert [0] + [3] == [0, 3];
    WalkFrom5(m);
  }

  /** The walk from node 4 on: 4 5 1. */
  lemma WalkFrom5(ns: seq<Node>)
    requires ns == W4 && WellFormed(ns)
    ensures WalkLoop(ns, [0], 3, 0, 0, [0, 3]) == WalkResult(W6, [0], [0, 3, 4, 0], true)
  {
    SkipUsed(ns, [0], 3, 0, 0, [0, 3]);
    SetUsedAt(ns, 3, 4, 1, 0);
    TakeEntry(ns, [0], 3, 1, 0, [0, 3], 4);
    var m := SetUsed(ns, 3, 4);
    assert m == W5;
    assert ListAdd(m, [0], 4) == [0];
    assert [0, 3] + [4] == [0, 3, 4];
    WalkFrom6(m);
  }

  /** The walk from node 5 on: 5 1. */
  lemma WalkFrom6(ns: seq<Node>)
    requires ns == W5 && WellFormed(ns)
    ensures WalkLoop(ns, [0], 4, 0, 0, [0, 3, 4]) == WalkResult(W6, [0], [0, 3, 4, 0], true)
  {
    SkipUsed(ns, [0], 4, 0, 0, [0, 3, 4]);
    SetUsedAt(ns, 4, 0, 1, 3);
    TakeEntry(ns, [0], 4, 1, 0, [0, 3, 4], 0);
    var m := SetUsed(ns, 4, 0);
    assert m == W6;
    assert ListAdd(m, [0], 0) == [0];
    assert [0, 3, 4] + [0] == [0, 3, 4, 0];
  }

  /** The walk from node 1 on: 1 6 7 1. */
  lemma WalkFrom7(ns: seq<Node>)
    requires ns == W6 && WellFormed(ns)
    ensures WalkLoop(ns, [0], 0, 0, 0, [0]) == WalkResult(W9, [0], [0, 5, 6, 0], true)
  {
    SkipUsed(ns, [0], 0, 0, 0, [0]);
    SkipUsed(ns, [0], 0, 1, 0, [0]);
    SkipUsed(ns, [0], 0, 2, 0, [0]);
    SkipUsed(ns, [0], 0, 3, 0, [0]);
    SetUsedAt(ns, 0, 5, 4, 0);
    TakeEntry(ns, [0], 0, 4, 0, [0], 5);
    var m := SetUsed(ns, 0, 5);
    assert m == W7;
    assert ListAdd(m, [0], 5) == [0];
    assert [0] + [5] == [0, 5];
    WalkFrom8(m);
  }

  /** The walk from node 6 on: 6 7 1. */
  lemma WalkFrom8(ns: seq<Node>)
    requires ns == W7 && WellFormed(ns)
    ensures WalkLoop(ns, [0], 5, 0, 0, [0, 5]) == WalkResult(W9, [0], [0, 5, 6, 0], true)
  {
    SkipUsed(ns, [0], 5, 0, 0, [0, 5]);
    SetUsedAt(ns, 5, 6, 1, 0);
    TakeEntry(ns, [0], 5, 1, 0, [0, 5], 6);
    var m := SetUsed(ns, 5, 6);
    assert m == W8;
    assert ListAdd(m, [0], 6) == [0];
    assert [0, 5] + [6] == [0, 5, 6];
    WalkFrom9(m);
  }

  /** The walk from node 7 on: 7 1. */
  lemma WalkFrom9(ns: seq<Node>)
    requires ns == W8 && WellFormed(ns)
    ensures WalkLoop(ns, [0], 6, 0, 0, [0, 5, 6]) == WalkResult(W9, [0], [0, 5, 6, 0], true)
  {
    SkipUsed(ns, [0], 6, 0, 0, [0, 5, 6]);
    SetUsedAt(ns, 6, 0, 1, 5);
    TakeEntry(ns, [0], 6, 1, 0, [0, 5, 6], 0);
    var m := SetUsed(ns, 6, 0);
    assert m == W9;
    assert ListAdd(m, [0], 0) == [0];
    assert [0, 5, 6] + [0] == [0, 5, 6, 0];
  }

  /** A list whose i-th entry names node i + 1 names each node once. */
  lemma CountingDistinct(adj: seq<Adj>)
    requires forall j :: 0 <= j < |adj| ==> adj[j].nbr == j + 1
    ensures Distinct(adj)
  {
  }

  /** A two-entry list naming two different nodes names each node once. */
  lemma PairDistinct(adj: seq<Adj>)
    requires |adj| == 2 && adj[0].nbr != adj[1].nbr
    ensures Distinct(adj)
  {
  }

  /** Node 1 meets every other node once, and every other node has two different neighbours. */
  lemma H9NoParallel(g: seq<Node>)
    requires g == H9
    ensures NoParallel(g)
  {
    assert |g| == 7;
    CountingDistinct(g[0].adj);
    PairDistinct(g[1].adj);
    PairDistinct(g[2].adj);
    PairDistinct(g[3].adj);
    PairDistinct(g[4].adj);
    PairDistinct(g[5].adj);
    PairDistinct(g[6].adj);
    forall i | 0 <= i < |g| ensures Distinct(g[i].adj) {
      assert i == 0 || i == 1 || i == 2 || i == 3 || i == 4 || i == 5 || i == 6;
    }
  }

  /** No node of H9 has an odd degree. */
  lemma H9Even(g: seq<Node>)
    requires g == H9
    ensures Count(g, OddDegree) == 0
  {
    assert |g| == 7;
    assert g[0].deg == 6;
    assert g[1].deg == 2 && g[2].deg == 2 && g[3].deg == 2;
    assert g[4].deg == 2 && g[5].deg == 2 && g[6].deg == 2;
    forall i | 0 <= i < |g| ensures !OddDegree(g[i]) {
      assert i == 0 || i == 1 || i == 2 || i == 3 || i == 4 || i == 5 || i == 6;
    }
    CountNone(g, OddDegree);
  }

  /** A neighbour of a node is reachable from it. */
  lemma ReachNbr(g: seq<Node>, x: nat, u: nat)
    requires WellFormed(g) && x < |g| && u < |g| && u in Nbrs(g[x].adj)
    ensures Reachable(g, x, u)
  {
    assert IsPath(g, [x, u]);
  }

  /** Every node of H9 is reachable from node 1, which is adjacent to all others. */
  lemma H9Reach(g: seq<Node>)
    requires g == H9 && WellFormed(g)
    ensures forall u :: 0 <= u < |g| ==> Reachable(g, 0, u)
  {
    assert |g| == 7;
    assert Nbrs(g[0].adj) == [1, 2, 3, 4, 5, 6];
    forall u | 0 <= u < |g| ensures Reachable(g, 0, u) {
      if u == 0 {
        ReachSelf(g, 0);
      } else {
        assert Nbrs(g[0].adj)[u - 1] == u;
        ReachNbr(g, 0, u);
      }
    }
  }

  /** Marking every node of H9 visited with its full degree remaining gives V0. */
  lemma H9Scan(g: seq<Node>, r: seq<Node>)
    requires g == H9 && |r| == |g|
    requires forall i :: 0 <= i < |g| ==> r[i] == g[i].(vst := true, edeg := g[i].deg)
    ensures r == V0
  {
    assert r[0] == V0[0];
    assert r[1] == V0[1];
    assert r[2] == V0[2];
    assert r[3] == V0[3];
    assert r[4] == V0[4];
    assert r[5] == V0[5];
    assert r[6] == V0[6];
  }

  /** What et_build_graph yields on the input, with the facts validation starts from. */
  lemma LoopGraph(edges: seq<(int, int)>)
    requires edges == LoopEdges
    ensures var g := Build(edges);
      g == H9 && WellFormed(g) && NoneVisited(g) && NoParallel(g) && Sum(g, Degree) == 18
  {
    BuildH9(edges);
    BuildShape(edges);
    H9NoParallel(Build(edges));
  }

  /**
   * et_validate_graph accepts the graph as a circuit: no node has an odd
   * degree and node 1 is adjacent to all others.  It leaves V0 and sets
   * trail_nodes to ten.
   */
  lemma ValidateLoopExample(edges: seq<(int, int)>)
    requires edges == LoopEdges
    ensures var g := Build(edges);
      g == H9 && WellFormed(g) && NoParallel(g) &&
      var v := ValidateGraph(g, false, [], 0);
      v.ok && v.circuit && v.conn.Some? && v.conn.value.scan.nodes == V0 &&
      WellFormed(v.conn.value.scan.nodes) && v.conn.value.trailNodes == 10
  {
    var g := Build(edges);
    LoopGraph(edges);
    H9Even(g);
    H9Reach(g);
    ValidateVerdict(g);
    ConnectTheorem(g);
    var c := ValidateGraph(g, false, [], 0).conn.value;
    H9Scan(g, c.scan.nodes);
    assert Half(18) == 9;
  }

  /** The first walk of et_eulerian_trail, a circuit from node 1: 1 2 3 1, registering 1 as a candidate. */
  lemma FirstLoopWalk(ns: seq<Node>)
    requires ns == V0 && WellFormed(ns)
    ensures SubCircuit(ns, [], 0, 0) == WalkResult(W3, [0], [0, 1, 2, 0], true)
  {
    assert ListAdd(ns, [], 0) == [0];
    WalkFrom1(ns);
  }

  /** The walk from candidate 1 skips the two used entries and goes round 1 4 5 1. */
  lemma SecondLoopWalk(ns: seq<Node>)
    requires ns == W3 && WellFormed(ns)
    ensures SubCircuit(ns, [0], 0, 0) == WalkResult(W6, [0], [0, 3, 4, 0], true)
  {
    assert ListAdd(ns, [0], 0) == [0];
    WalkFrom4(ns);
  }

  /** A further walk from 1, which only the intended loop makes: 1 6 7 1. */
  lemma ThirdLoopWalk(ns: seq<Node>)
    requires ns == W6 && WellFormed(ns)
    ensures SubCircuit(ns, [0], 0, 0) == WalkResult(W9, [0], [0, 5, 6, 0], true)
  {
    WalkFrom7(ns);
  }

  /** A sub-circuit from the trail's first node goes in at the front: et_eulerian_trail splices it in at position 0. */
  lemma SpliceAtHead(t: seq<nat>, sub: seq<nat>)
    requires |t| > 0 && |sub| > 0 && t[0] == sub[0]
    ensures Splice(t, sub) == sub + t[1..]
  {
    assert FirstIndex(t, sub[0]) == Some(0);
    assert t[..1] + sub[1..] == sub;
  }

  /** A successful round from the candidate the trail starts at puts its walk at the trail's head. */
  lemma RoundAtHead(ns: seq<Node>, list: seq<nat>, trail: seq<nat>, k: nat, w: WalkResult)
    requires WellFormed(ns) && ListOk(|ns|, list) && k < |list|
    requires w == SubCircuit(ns, list, list[k], list[k]) && w.ok && |trail| > 0 && trail[0] == list[k]
    ensures Round(ns, list, trail, k) == Assembled(w.nodes, w.list, w.sub + trail[1..])
  {
    SubCircuitProps(ns, list, list[k], list[k]);
    SpliceAtHead(trail, w.sub);
  }

  /** The two trails the rounds build, each sub-circuit followed by the old trail less its first node. */
  lemma LoopJoins()
    ensures [0, 3, 4, 0] + [0, 1, 2, 0][1..] == [0, 3, 4, 0, 1, 2, 0]
    ensures [0, 5, 6, 0] + [0, 3, 4, 0, 1, 2, 0][1..] == [0, 5, 6, 0, 3, 4, 0, 1, 2, 0]
  {
    assert [0, 1, 2, 0][1..] == [1, 2, 0];
    assert [0, 3, 4, 0, 1, 2, 0][1..] == [3, 4, 0, 1, 2, 0];
  }

  /** The round for candidate 1 after the first walk: 1 4 5 1 goes in at the head. */
  lemma LoopRound1(ns: seq<Node>)
    requires ns == W3 && WellFormed(ns)
    ensures ListOk(|ns|, [0]) && Round(ns, [0], [0, 1, 2, 0], 0) == Assembled(W6, [0], [0, 3, 4, 0, 1, 2, 0])
  {
    assert ListOk(|ns|, [0]);
    SecondLoopWalk(ns);
    RoundAtHead(ns, [0], [0, 1, 2, 0], 0, SubCircuit(ns, [0], 0, 0));
    LoopJoins();
  }

  /** A second round for candidate 1, which only the intended loop makes: 1 6 7 1 goes in at the head. */
  lemma LoopRound2(ns: seq<Node>)
    requires ns == W6 && WellFormed(ns)
    ensures ListOk(|ns|, [0]) &&
      Round(ns, [0], [0, 3, 4, 0, 1, 2, 0], 0) == Assembled(W9, [0], [0, 5, 6, 0, 3, 4, 0, 1, 2, 0])
  {
    assert ListOk(|ns|, [0]);
    ThirdLoopWalk(ns);
    RoundAtHead(ns, [0], [0, 3, 4, 0, 1, 2, 0], 0, SubCircuit(ns, [0], 0, 0));
    LoopJoins();
  }

  /** The candidate loop as written: one round for candidate 1, then the list is exhausted. */
  lemma LoopAssembleExample(ns: seq<Node>)
    requires ns == W3 && WellFormed(ns)
    ensures ListOk(|ns|, [0]) &&
      Assemble(ns, [0], [0, 1, 2, 0], 10, 0) == Assembled(W6, [0], [0, 3, 4, 0, 1, 2, 0])
  {
    LoopRound1(ns);
    RoundShape(ns, [0], [0, 1, 2, 0], 0);
    assert Assemble(ns, [0], [0, 1, 2, 0], 10, 0) == Assemble(W6, [0], [0, 3, 4, 0, 1, 2, 0], 10, 1);
  }

  /** et_eulerian_trail on the validated graph, whatever the odd-node list: 1 4 5 1 2 3 1. */
  lemma LoopTrailExample(ns: seq<Node>, odd: seq<nat>)
    requires ns == V0 && WellFormed(ns)
    ensures DriverReady(ns, true, odd) && SubCircuit(ns, [], 0, 0).ok
    ensures EulerianTrail(ns, true, odd, 10) == Assembled(W6, [0], [0, 3, 4, 0, 1, 2, 0])
  {
    FirstLoopWalk(ns);
    SubCircuitProps(ns, [], 0, 0);
    LoopAssembleExample(SubCircuit(ns, [], 0, 0).nodes);
  }

  /** The trail the loop as written returns: seven positions, short of ten, missing nodes 6 and 7. */
  lemma ShortTrail(t: seq<nat>)
    requires t == [0, 3, 4, 0, 1, 2, 0]
    ensures !Complete(t, 10) && |t| - 1 < 9 && 5 !in t && 6 !in t
  {
    assert forall k :: 0 <= k < |t| ==> t[k] < 5;
  }

  /**
   * The whole run as written: the graph has no parallel edge, is accepted
   * as a circuit with trail_nodes 10, and the trail returned is
   * 1 4 5 1 2 3 1.  The completion test fails on it, six steps for nine
   * edges, and nodes 6 and 7 are never reached.
   */
  lemma LoopStopsEarly(edges: seq<(int, int)>)
    requires edges == LoopEdges
    ensures var g := Build(edges);
      g == H9 && WellFormed(g) && NoParallel(g) &&
      var v := ValidateGraph(g, false, [], 0);
      v.ok && v.circuit && v.conn.Some? &&
      var c := v.conn.value;
      c.trailNodes == 10 &&
      DriverReady(c.scan.nodes, true, c.scan.odd) && SubCircuit(c.scan.nodes, [], 0, 0).ok &&
      var t := EulerianTrail(c.scan.nodes, true, c.scan.odd, c.trailNodes).trail;
      t == [0, 3, 4, 0, 1, 2, 0] && !Complete(t, c.trailNodes) && |t| - 1 < |edges| &&
      5 !in t && 6 !in t
  {
    ValidateLoopExample(edges);
    var c := ValidateGraph(Build(edges), false, [], 0).conn.value;
    LoopTrailExample(c.scan.nodes, c.scan.odd);
    ShortTrail([0, 3, 4, 0, 1, 2, 0]);
  }

  /**
   * The intended candidate loop: as in et_eulerian_trail, but after a walk
   * from candidate k that succeeded and left edges at the candidate, walk
   * from the same candidate again before moving on.  Each repeat spends at
   * least one unit of the total budget, so the loop ends.
   */
  function AssembleFixed(ns: seq<Node>, list: seq<nat>, trail: seq<nat>, trailNodes: int, k: nat): Assembled
    requires WellFormed(ns) && ListOk(|ns|, list) && k <= |list|
    decreases Sum(ns, Budget), |ns| - k
  {
    ListOkBound(|ns|, list);
    if k == |list| || Complete(trail, trailNodes) then Assembled(ns, list, trail)
    else
      var w := SubCircuit(ns, list, list[k], list[k]);
      var s := Round(ns, list, trail, k);
      RoundShape(ns, list, trail, k);
      SubCircuitProps(ns, list, list[k], list[k]);
      SubCircuitBudget(ns, list, list[k], list[k]);
      BudgetNonneg(s.nodes);
      if w.ok && s.nodes[list[k]].edeg > 0 then AssembleFixed(s.nodes, s.list, s.trail, trailNodes, k)
      else AssembleFixed(s.nodes, s.list, s.trail, trailNodes, k + 1)
  }

  /** et_eulerian_trail with the intended candidate loop. */
  function EulerianTrailFixed(ns: seq<Node>, circuit: bool, odd: seq<nat>, trailNodes: int): Assembled
    requires DriverReady(ns, circuit, odd)
    requires SubCircuit(ns, [], FirstStart(circuit, odd), FirstEnd(circuit, odd)).ok
  {
    var w := SubCircuit(ns, [], FirstStart(circuit, odd), FirstEnd(circuit, odd));
    SubCircuitProps(ns, [], FirstStart(circuit, odd), FirstEnd(circuit, odd));
    AssembleFixed(w.nodes, w.list, w.sub, trailNodes, 0)
  }

  /**
   * The intended loop keeps what the loop as written keeps: the graph's
   * shape, the candidate list's order and uniqueness, and a trail that
   * stays a walk of the graph between the same two ends and only grows.
   */
  lemma {:induction false} AssembleFixedProps(ns: seq<Node>, list: seq<nat>, trail: seq<nat>, trailNodes: int, k: nat)
    requires WellFormed(ns) && ListOk(|ns|, list) && k <= |list| && IsPath(ns, trail)
    ensures var r := AssembleFixed(ns, list, trail, trailNodes, k);
      SameShape(ns, r.nodes) && WellFormed(r.nodes) && list <= r.list && ListOk(|ns|, r.list) &&
      Extends(ns, trail, r.trail)
    decreases Sum(ns, Budget), |ns| - k
  {
    ListOkBound(|ns|, list);
    if k < |list| && !Complete(trail, trailNodes) {
      var w := SubCircuit(ns, list, list[k], list[k]);
      var s := Round(ns, list, trail, k);
      RoundFacts(ns, list, trail, trailNodes, k);
      SubCircuitProps(ns, list, list[k], list[k]);
      SubCircuitBudget(ns, list, list[k], list[k]);
      BudgetNonneg(s.nodes);
      var k' := if w.ok && s.nodes[list[k]].edeg > 0 then k else k + 1;
      AssembleFixedProps(s.nodes, s.list, s.trail, trailNodes, k');
      var r := AssembleFixed(s.nodes, s.list, s.trail, trailNodes, k');
      assert AssembleFixed(ns, list, trail, trailNodes, k) == r;
      SameShapeTrans(ns, s.nodes, r.nodes);
      PathSameShape(s.nodes, ns, r.trail);
      ExtendsTrans(ns, trail, s.trail, r.trail);
    } else {
      assert AssembleFixed(ns, list, trail, trailNodes, k) == Assembled(ns, list, trail);
    }
  }

  /**
   * With the intended loop, et_eulerian_trail still returns a walk of the
   * graph from the first walk's start to its end, with at least one step.
   */
  lemma EulerianTrailFixedProps(ns: seq<Node>, circuit: bool, odd: seq<nat>, trailNodes: int)
    requires DriverReady(ns, circuit, odd)
    requires SubCircuit(ns, [], FirstStart(circuit, odd), FirstEnd(circuit, odd)).ok
    ensures var r := EulerianTrailFixed(ns, circuit, odd, trailNodes);
      IsPath(ns, r.trail) && |r.trail| >= 2 &&
      r.trail[0] == FirstStart(circuit, odd) && r.trail[|r.trail| - 1] == FirstEnd(circuit, odd) &&
      SameShape(ns, r.nodes) && ListOk(|ns|, r.list)
  {
    var w := SubCircuit(ns, [], FirstStart(circuit, odd), FirstEnd(circuit, odd));
    FirstWalkProps(ns, circuit, odd);
    var r := AssembleFixed(w.nodes, w.list, w.sub, trailNodes, 0);
    assert EulerianTrailFixed(ns, circuit, odd, trailNodes) == r;
    assert SameShape(w.nodes, r.nodes) && ListOk(|w.nodes|, r.list) && Extends(w.nodes, w.sub, r.trail) by {
      AssembleFixedProps(w.nodes, w.list, w.sub, trailNodes, 0);
    }
    SameShapeTrans(ns, w.nodes, r.nodes);
    assert IsPath(ns, r.trail) by {
      PathSameShape(w.nodes, ns, r.trail);
    }
  }

  /** After a successful walk that leaves edges at the candidate, the intended loop stays at the same candidate. */
  lemma FixedRepeat(ns: seq<Node>, list: seq<nat>, trail: seq<nat>, trailNodes: int, k: nat)
    requires WellFormed(ns) && ListOk(|ns|, list) && k < |list| && !Complete(trail, trailNodes)
    requires SubCircuit(ns, list, list[k], list[k]).ok
    ensures var s := Round(ns, list, trail, k);
      WellFormed(s.nodes) && ListOk(|s.nodes|, s.list) && k <= |s.list| && list[k] < |s.nodes| &&
      (s.nodes[list[k]].edeg > 0 ==> AssembleFixed(ns, list, trail, trailNodes, k) == AssembleFixed(s.nodes, s.list, s.trail, trailNodes, k))
  {
    ListOkBound(|ns|, list);
    RoundShape(ns, list, trail, k);
  }

  /** Node 1 has two edges left after the walks 1 2 3 1 and 1 4 5 1. */
  lemma W6Remaining(ns: seq<Node>)
    requires ns == W6
    ensures ns[0].edeg == 2
  {
  }

  /** The intended loop's first round on the example: 1 4 5 1 goes in, and candidate 1 still has edges, so it is walked again. */
  lemma FixedFirstRound(ns: seq<Node>)
    requires ns == W3 && WellFormed(ns)
    ensures ListOk(|ns|, [0]) && WellFormed(W6) &&
      AssembleFixed(ns, [0], [0, 1, 2, 0], 10, 0) == AssembleFixed(W6, [0], [0, 3, 4, 0, 1, 2, 0], 10, 0)
  {
    LoopRound1(ns);
    SecondLoopWalk(ns);
    RoundShape(ns, [0], [0, 1, 2, 0], 0);
    W6Remaining(W6);
    FixedRepeat(ns, [0], [0, 1, 2, 0], 10, 0);
  }

  /** The intended loop's second round: 1 6 7 1 goes in, the trail is complete, and the loop stops. */
  lemma FixedSecondRound(ns: seq<Node>)
    requires ns == W6 && WellFormed(ns)
    ensures ListOk(|ns|, [0]) &&
      AssembleFixed(ns, [0], [0, 3, 4, 0, 1, 2, 0], 10, 0) == Assembled(W9, [0], [0, 5, 6, 0, 3, 4, 0, 1, 2, 0])
  {
    LoopRound2(ns);
    RoundShape(ns, [0], [0, 3, 4, 0, 1, 2, 0], 0);
    assert AssembleFixed(ns, [0], [0, 3, 4, 0, 1, 2, 0], 10, 0) ==
      AssembleFixed(W9, [0], [0, 5, 6, 0, 3, 4, 0, 1, 2, 0], 10, 1);
  }

  /** The intended loop on the example: candidate 1 is walked twice, and the trail is complete. */
  lemma FixedAssembleExample(ns: seq<Node>)
    requires ns == W3 && WellFormed(ns)
    ensures ListOk(|ns|, [0]) &&
      AssembleFixed(ns, [0], [0, 1, 2, 0], 10, 0) == Assembled(W9, [0], [0, 5, 6, 0, 3, 4, 0, 1, 2, 0])
  {
    FixedFirstRound(ns);
    FixedSecondRound(W6);
  }

  /**
   * The whole run with the intended loop: on the same validated graph the
   * trail is 1 6 7 1 4 5 1 2 3 1, which passes the completion test with one
   * step per edge.
   */
  lemma FixedLoopCompletes(edges: seq<(int, int)>)
    requires edges == LoopEdges
    ensures var g := Build(edges);
      WellFormed(g) &&
      var v := ValidateGraph(g, false, [], 0);
      v.ok && v.circuit && v.conn.Some? &&
      var c := v.conn.value;
      DriverReady(c.scan.nodes, true, c.scan.odd) && SubCircuit(c.scan.nodes, [], 0, 0).ok &&
      var t := EulerianTrailFixed(c.scan.nodes, true, c.scan.odd, c.trailNodes).trail;
      t == [0, 5, 6, 0, 3, 4, 0, 1, 2, 0] && Complete(t, c.trailNodes) && |t| - 1 == |edges|
  {
    ValidateLoopExample(edges);
    var c := ValidateGraph(Build(edges), false, [], 0).conn.value;
    FirstLoopWalk(c.scan.nodes);
    SubCircuitProps(c.scan.nodes, [], 0, 0);
    FixedAssembleExample(SubCircuit(c.scan.nodes, [], 0, 0).nodes);
  }
}
