/**
 * The state of eulerian.c and the operations that update it in place.
 * `Trail` is et_trail_t (a trail, a sub-circuit or the candidate list) and
 * `Run` holds the global graph together with the `circuit` and
 * `trail_nodes` counters.  The node arena stands in for the linked node
 * list: a node is named by its position, and an adjacency entry by the
 * position of the node it points to.  Each method is proved to leave the
 * state that the matching function of GraphModel, Scan, Walk or Assembly
 * describes.
 */
module Eulerian {
  import opened Wrappers
  import opened GraphModel
  import opened Scan
  import opened Walk
  import opened Assembly

  /** et_trail_t: the nodes of a trail in order and the count et_trail_num. */
  class Trail {
    var elems: seq<nat>
    var num: int

    /** An empty trail, as a freshly allocated et_trail_t is set up. */
    constructor ()
      ensures elems == [] && num == 0
    {
      elems := [];
      num := 0;
    }

    /** et_trail_add_elem (eulerian.c:514-541): append a node and count it. */
    method AddElem(v: nat)
      modifies this
      ensures elems == old(elems) + [v] && num == old(num) + 1
    {
      elems := elems + [v];
      num := num + 1;
    }

    /**
     * et_insert_sub_circuit (eulerian.c:656-678): look for the first
     * element naming the sub-circuit's root; when there is one, link the
     * rest of the sub-circuit in after it and add the sub-circuit's count
     * less one; otherwise leave the trail alone.  A NULL sub-circuit
     * changes nothing.  A sub-circuit has at least two elements: linking
     * in a one-element one would cut the trail after the root.
     */
    method InsertSubCircuit(sub: Trail?)
      requires sub != null ==> sub != this && |sub.elems| >= 2
      modifies this
      ensures sub == null ==> elems == old(elems) && num == old(num)
      ensures sub != null ==> elems == Splice(old(elems), sub.elems)
      ensures sub != null ==> num == old(num) + (if sub.elems[0] in old(elems) then sub.num - 1 else 0)
    {
      if sub == null {
        return;
      }
      var i := 0;
      while i < |elems|
        invariant 0 <= i <= |elems|
        invariant forall k :: 0 <= k < i ==> elems[k] != sub.elems[0]
      {
        if elems[i] == sub.elems[0] {
          assert FirstIndex(elems, sub.elems[0]) == Some(i);
          elems := elems[..i + 1] + sub.elems[1..] + elems[i + 1..];
          num := num + (sub.num - 1);
          return;
        }
        i := i + 1;
      }
    }
  }

  class Run {
    var nodes: seq<Node>
    var nodeNum: int
    var edgeNum: int
    var oddNodes: seq<nat>
    var circuit: bool
    var trailNodes: int

    /** The node count matches the arena, ids are distinct and every entry names a node. */
    ghost predicate Valid()
      reads this
    {
      nodeNum == |nodes| && DistinctIds(nodes) && WellFormed(nodes)
    }

    /** et_init_graph (eulerian.c:150-160) together with the initial values of the counters. */
    constructor ()
      ensures Valid() && nodes == [] && edgeNum == 0 && oddNodes == [] && !circuit && trailNodes == 0
    {
      nodes := [];
      nodeNum := 0;
      edgeNum := 0;
      oddNodes := [];
      circuit := false;
      trailNodes := 0;
    }

    /** et_get_node (eulerian.c:210-221): the first node with the id, or nothing. */
    method GetNode(id: int) returns (r: Option<nat>)
      ensures r == Lookup(nodes, id)
    {
      var i := 0;
      while i < |nodes|
        invariant 0 <= i <= |nodes|
        invariant forall k :: 0 <= k < i ==> nodes[k].id != id
      {
        if nodes[i].id == id {
          return Some(i);
        }
        i := i + 1;
      }
      return None;
    }

    /** et_add_node (eulerian.c:224-241): append a node to the node list and count it. */
    method AddNode(n: Node)
      modifies this
      ensures nodes == old(nodes) + [n] && nodeNum == old(nodeNum) + 1
      ensures edgeNum == old(edgeNum) && oddNodes == old(oddNodes) && circuit == old(circuit) && trailNodes == old(trailNodes)
    {
      nodes := nodes + [n];
      nodeNum := nodeNum + 1;
    }

    /** et_add_adj (eulerian.c:244-263): append an unused entry naming j to node i's list and raise its degree. */
    method AddAdj(i: nat, j: nat)
      requires i < |nodes|
      modifies this
      ensures nodes == old(nodes)[i := AppendAdj(old(nodes)[i], j)]
      ensures nodeNum == old(nodeNum) && edgeNum == old(edgeNum) && oddNodes == old(oddNodes)
      ensures circuit == old(circuit) && trailNodes == old(trailNodes)
    {
      var n := nodes[i];
      nodes := nodes[i := n.(adj := n.adj + [Adj(j, false)], deg := n.deg + 1)];
    }

    /** The self-loop arm of et_add_edge (eulerian.c:361-367): one more degree, then one self-entry. */
    method AddSelfLoop(i: nat)
      requires i < |nodes|
      modifies this
      ensures nodes == old(nodes)[i := Extended(old(nodes)[i], i, 2)]
      ensures nodeNum == old(nodeNum) && edgeNum == old(edgeNum) && oddNodes == old(oddNodes)
      ensures circuit == old(circuit) && trailNodes == old(trailNodes)
    {
      nodes := nodes[i := nodes[i].(deg := nodes[i].deg + 1)];
      AddAdj(i, i);
    }

    /** The two-endpoint arm of et_add_edge (eulerian.c:368-372): an entry naming j for i, then one naming i for j. */
    method AddPair(i: nat, j: nat)
      requires i < |nodes| && j < |nodes| && i != j
      modifies this
      ensures nodes == old(nodes)[i := Extended(old(nodes)[i], j, 1)][j := Extended(old(nodes)[j], i, 1)]
      ensures nodeNum == old(nodeNum) && edgeNum == old(edgeNum) && oddNodes == old(oddNodes)
      ensures circuit == old(circuit) && trailNodes == old(trailNodes)
    {
      AddAdj(i, j);
      AddAdj(j, i);
    }

    /** The node with the given id, created at the end of the node list when missing (eulerian.c:271-297, 302-334). */
    method FindOrAdd(id: int) returns (i: nat)
      requires Valid()
      modifies this
      ensures Valid() && nodes == EnsureNode(old(nodes), id) && Lookup(nodes, id) == Some(i)
      ensures edgeNum == old(edgeNum) && oddNodes == old(oddNodes) && circuit == old(circuit) && trailNodes == old(trailNodes)
    {
      var f := GetNode(id);
      if f.None? {
        LookupAppend(nodes, NewNode(id), id);
        EnsureNodeIds(nodes, id);
        DistinctIdsNoDup(nodes);
        AddNode(NewNode(id));
        NoteNoDup(old(Ids(nodes)), id);
        DistinctIdsNoDup(nodes);
        i := |nodes| - 1;
      } else {
        i := f.value;
      }
    }

    /**
     * et_add_edge (eulerian.c:266-374): find or create n1, then n2 (the
     * same node for a self-loop); for a self-loop raise the degree once
     * more and append one self-entry, otherwise append an entry naming n2
     * to n1's list and one naming n1 to n2's list.
     */
    method AddEdge(n1: int, n2: int)
      requires Valid()
      modifies this
      ensures Valid() && nodes == GraphModel.AddEdge(old(nodes), n1, n2)
      ensures edgeNum == old(edgeNum) && oddNodes == old(oddNodes) && circuit == old(circuit) && trailNodes == old(trailNodes)
    {
      ghost var ns := nodes;
      var i := FindOrAdd(n1);
      var j := i;
      if n1 != n2 {
        j := FindOrAdd(n2);
        EnsureNodeFinds(EnsureNode(ns, n1), n2, n1);
      }
      assert nodes == Grown(ns, n1, n2) && Lookup(nodes, n1) == Some(i) && Lookup(nodes, n2) == Some(j);
      if n1 == n2 {
        AddSelfLoop(i);
        AddEdgeLoopEntry(ns, n1);
      } else {
        AddPair(i, j);
        AddEdgePairEntries(ns, n1, n2);
      }
      assert nodes == GraphModel.AddEdge(ns, n1, n2);
      AddEdgeIds(ns, n1, n2);
      AddEdgeKeeps(ns, n1, n2);
    }

    /**
     * The edge loop of et_build_graph (eulerian.c:400-415) and its final
     * node-count test (eulerian.c:430-436): add every edge in input order,
     * record the edge count, and report the instance unsolvable when the
     * declared node count exceeds the number of distinct ids read.
     */
    method BuildGraph(declared: int, edges: seq<(int, int)>) returns (solvable: bool)
      requires Valid() && nodes == []
      modifies this
      ensures Valid() && nodes == Build(edges) && edgeNum == |edges|
      ensures solvable <==> declared <= |set x | x in Endpoints(edges)|
      ensures oddNodes == old(oddNodes) && circuit == old(circuit) && trailNodes == old(trailNodes)
    {
      var i := 0;
      while i < |edges|
        invariant 0 <= i <= |edges|
        invariant Valid() && nodes == Build(edges[..i])
        invariant oddNodes == old(oddNodes) && circuit == old(circuit) && trailNodes == old(trailNodes)
      {
        assert edges[..i + 1][..i] == edges[..i];
        AddEdge(edges[i].0, edges[i].1);
        i := i + 1;
      }
      assert edges[..i] == edges;
      edgeNum := i;
      NodeCount(edges);
      solvable := !(declared > nodeNum);
    }

    /**
     * The visiting step of et_dfs (eulerian.c:449-471): mark v visited,
     * reset its remaining degree, add its degree to trail_nodes, record it
     * in the odd-node list when its degree is odd, and count it.
     */
    method MarkNode(v: nat, cnt: int) returns (cnt': int)
      requires Valid() && v < |nodes| && !nodes[v].vst
      modifies this
      ensures ScanState(nodes, cnt', trailNodes, oddNodes) == Mark(ScanState(old(nodes), cnt, old(trailNodes), old(oddNodes)), v)
      ensures Valid() && |nodes| == old(|nodes|) && Grows(old(nodes), nodes)
      ensures Count(nodes, Unvisited) < Count(old(nodes), Unvisited)
      ensures nodeNum == old(nodeNum) && edgeNum == old(edgeNum) && circuit == old(circuit)
    {
      ghost var s0 := ScanState(nodes, cnt, trailNodes, oddNodes);
      var n := nodes[v];
      nodes := nodes[v := n.(vst := true, edeg := n.deg)];
      trailNodes := trailNodes + n.deg;
      if n.deg % 2 != 0 {
        if oddNodes != [] {
          oddNodes := [oddNodes[0], v];
        } else {
          oddNodes := [v];
        }
      }
      cnt' := cnt + 1;
      MarkGrows(s0, v);
      GrowsKeeps(s0.nodes, nodes);
      KeepsDistinct(s0.nodes, nodes);
    }

    /**
     * et_dfs (eulerian.c:440-481) entered at node v with the counter cnt:
     * nothing if v is visited; otherwise mark it, reset its remaining
     * degree, add its degree to trail_nodes, record it in the odd-node list
     * when its degree is odd, count it, and recurse into every unvisited
     * neighbour in list order.
     */
    method Dfs(v: nat, cnt: int) returns (cnt': int)
      requires Valid() && v < |nodes|
      modifies this
      ensures Valid()
      ensures Visit(ScanState(old(nodes), cnt, old(trailNodes), old(oddNodes)), v) == ScanState(nodes, cnt', trailNodes, oddNodes)
      ensures nodeNum == old(nodeNum) && edgeNum == old(edgeNum) && circuit == old(circuit)
      decreases Count(nodes, Unvisited), 1
    {
      ghost var s0 := ScanState(nodes, cnt, trailNodes, oddNodes);
      ghost var target := Visit(s0, v);
      if nodes[v].vst {
        return cnt;
      }
      cnt' := MarkNode(v, cnt);
      var pos := 0;
      while pos < |nodes[v].adj|
        invariant Valid() && v < |nodes| && pos <= |nodes[v].adj|
        invariant VisitAdj(ScanState(nodes, cnt', trailNodes, oddNodes), v, pos) == target
        invariant Count(nodes, Unvisited) < Count(old(nodes), Unvisited)
        invariant nodeNum == old(nodeNum) && edgeNum == old(edgeNum) && circuit == old(circuit)
        decreases |nodes[v].adj| - pos
      {
        cnt' := VisitNeighbour(v, pos, cnt');
        pos := pos + 1;
      }
    }

    /** One pass of the loop of et_dfs (eulerian.c:476): recurse into the pos-th neighbour of v when it is unvisited. */
    method VisitNeighbour(v: nat, pos: nat, cnt: int) returns (cnt': int)
      requires Valid() && v < |nodes| && pos < |nodes[v].adj|
      modifies this
      ensures Valid() && |nodes| == old(|nodes|) && nodes[v].adj == old(nodes[v].adj)
      ensures VisitAdj(ScanState(old(nodes), cnt, old(trailNodes), old(oddNodes)), v, pos) ==
              VisitAdj(ScanState(nodes, cnt', trailNodes, oddNodes), v, pos + 1)
      ensures Count(nodes, Unvisited) <= Count(old(nodes), Unvisited)
      ensures nodeNum == old(nodeNum) && edgeNum == old(edgeNum) && circuit == old(circuit)
      decreases Count(nodes, Unvisited) + 1, 0
    {
      var w := nodes[v].adj[pos].nbr;
      cnt' := cnt;
      if !nodes[w].vst {
        ghost var before := nodes;
        cnt' := Dfs(w, cnt);
        GrowsKeeps(before, nodes);
      }
    }

    /**
     * et_is_connected (eulerian.c:484-492): search from the first node,
     * turn trail_nodes into half of itself plus one (C division), and
     * report whether the search counted every node.
     */
    method IsConnected() returns (connected: bool)
      requires Valid()
      modifies this
      ensures Valid()
      ensures var c := Scan.IsConnected(old(nodes), old(oddNodes), old(trailNodes));
        nodes == c.scan.nodes && oddNodes == c.scan.odd && trailNodes == c.trailNodes && connected == c.connected
      ensures nodeNum == old(nodeNum) && edgeNum == old(edgeNum) && circuit == old(circuit)
    {
      var cnt := 0;
      if |nodes| > 0 {
        cnt := Dfs(0, cnt);
      }
      trailNodes := Half(trailNodes) + 1;
      connected := cnt == nodeNum;
    }

    /**
     * et_validate_graph (eulerian.c:495-511): fail on an empty graph,
     * count the odd-degree nodes, set `circuit` when there are none, fail
     * on one or more than two, and otherwise run the connectivity check.
     */
    method ValidateGraph() returns (ok: bool)
      requires Valid()
      modifies this
      ensures Valid()
      ensures var v := Scan.ValidateGraph(old(nodes), old(circuit), old(oddNodes), old(trailNodes));
        ok == v.ok && circuit == v.circuit &&
        (v.conn.Some? ==> nodes == v.conn.value.scan.nodes && oddNodes == v.conn.value.scan.odd &&
                          trailNodes == v.conn.value.trailNodes) &&
        (v.conn.None? ==> nodes == old(nodes) && oddNodes == old(oddNodes) && trailNodes == old(trailNodes))
      ensures nodeNum == old(nodeNum) && edgeNum == old(edgeNum)
    {
      if |nodes| == 0 {
        return false;
      }
      var numOdd := 0;
      var i := 0;
      while i < |nodes|
        invariant 0 <= i <= |nodes|
        invariant numOdd == Count(nodes[..i], OddDegree)
        invariant unchanged(this)
      {
        CountAppend(nodes[..i], nodes[i], OddDegree);
        assert nodes[..i + 1] == nodes[..i] + [nodes[i]];
        if nodes[i].deg % 2 != 0 {
          numOdd := numOdd + 1;
        }
        i := i + 1;
      }
      assert nodes[..i] == nodes;
      if numOdd == 0 {
        circuit := true;
      }
      if numOdd == 1 || numOdd > 2 {
        return false;
      }
      ok := IsConnected();
    }

    /** One search loop of et_set_edge_used: mark the first entry of node i's list naming b. */
    method MarkFirstEntry(i: nat, b: nat)
      requires i < |nodes|
      modifies this
      ensures nodes == old(nodes)[i := old(nodes)[i].(adj := MarkFirst(old(nodes)[i].adj, b))]
      ensures nodeNum == old(nodeNum) && edgeNum == old(edgeNum) && oddNodes == old(oddNodes)
      ensures circuit == old(circuit) && trailNodes == old(trailNodes)
    {
      var k := 0;
      while k < |nodes[i].adj|
        invariant 0 <= k <= |nodes[i].adj|
        invariant forall j :: 0 <= j < k ==> nodes[i].adj[j].nbr != b
      {
        if nodes[i].adj[k].nbr == b {
          assert FirstEntry(nodes[i].adj, b) == Some(k);
          var n := nodes[i];
          nodes := nodes[i := n.(adj := n.adj[k := n.adj[k].(used := true)])];
          return;
        }
        k := k + 1;
      }
      assert nodes[i].(adj := nodes[i].adj) == nodes[i];
    }

    /**
     * et_set_edge_used (eulerian.c:544-576): lower the remaining degree of
     * a and of b, then mark the first entry naming b in a's list and the
     * first naming a in b's list.
     */
    method SetEdgeUsed(a: nat, b: nat)
      requires Valid() && a < |nodes| && b < |nodes|
      modifies this
      ensures Valid() && nodes == SetUsed(old(nodes), a, b)
      ensures nodeNum == old(nodeNum) && edgeNum == old(edgeNum) && oddNodes == old(oddNodes)
      ensures circuit == old(circuit) && trailNodes == old(trailNodes)
    {
      nodes := nodes[a := nodes[a].(edeg := nodes[a].edeg - 1)];
      nodes := nodes[b := nodes[b].(edeg := nodes[b].edeg - 1)];
      MarkFirstEntry(a, b);
      MarkFirstEntry(b, a);
      SetUsedShape(old(nodes), a, b);
      KeepsDistinct(old(nodes), nodes);
    }

    /**
     * et_list_add_elem (eulerian.c:579-597): when v's remaining degree
     * exceeds one, look for v in the candidate list and append it if absent.
     */
    method ListAddElem(list: Trail, v: nat)
      requires Valid() && v < |nodes|
      modifies list
      ensures Valid()
      ensures list.elems == ListAdd(nodes, old(list.elems), v)
      ensures list.num == old(list.num) + (|list.elems| - |old(list.elems)|)
    {
      if nodes[v].edeg > 1 {
        var fnd := false;
        var k := 0;
        while k < |list.elems|
          invariant 0 <= k <= |list.elems|
          invariant !fnd && forall j :: 0 <= j < k ==> list.elems[j] != v
        {
          if list.elems[k] == v {
            fnd := true;
            break;
          }
          k := k + 1;
        }
        if !fnd {
          list.AddElem(v);
        }
      }
    }

    /**
     * et_sub_circuit (eulerian.c:606-653) from `start` to `end` (to start
     * itself when `end` is absent): begin the sub-circuit with start,
     * register start as a candidate when its remaining degree exceeds two,
     * then walk: take an entry that is unused and leads to a node with
     * positive remaining degree (append the node, mark the edge used,
     * register the node, stop on reaching the end, else continue from the
     * node's first entry), skip any other entry; running off a list
     * discards the sub-circuit.  The marks and the candidates stay either
     * way.
     */
    method SubCircuit(start: nat, end: Option<nat>, list: Trail) returns (sub: Trail?)
      requires Valid() && start < |nodes|
      modifies this, list
      ensures Valid()
      ensures var r := Walk.SubCircuit(old(nodes), old(list.elems), start, if end.Some? then end.value else start);
        nodes == r.nodes && list.elems == r.list && (sub != null <==> r.ok) &&
        (sub != null ==> fresh(sub) && sub.elems == r.sub && sub.num == |r.sub|)
      ensures list.num == old(list.num) + (|list.elems| - |old(list.elems)|)
      ensures nodeNum == old(nodeNum) && edgeNum == old(edgeNum) && oddNodes == old(oddNodes)
      ensures circuit == old(circuit) && trailNodes == old(trailNodes)
    {
      var e := if end.Some? then end.value else start;
      var s := new Trail();
      s.AddElem(start);
      if nodes[start].edeg > 2 {
        ListAddElem(list, start);
      }
      ghost var target := WalkLoop(nodes, list.elems, start, 0, e, [start]);
      var prv: nat := start;
      var pos: nat := 0;
      assert s.elems == [start];
      while pos < |nodes[prv].adj|
        invariant Valid() && prv < |nodes| && pos <= |nodes[prv].adj|
        invariant WalkLoop(nodes, list.elems, prv, pos, e, s.elems) == target
        invariant fresh(s) && s.num == |s.elems|
        invariant list.num == old(list.num) + (|list.elems| - |old(list.elems)|)
        invariant nodeNum == old(nodeNum) && edgeNum == old(edgeNum) && oddNodes == old(oddNodes)
        invariant circuit == old(circuit) && trailNodes == old(trailNodes)
        decreases Sum(nodes, Budget), |nodes[prv].adj| - pos
      {
        var a := nodes[prv].adj[pos];
        if nodes[a.nbr].edeg > 0 && !a.used {
          ghost var ns := nodes;
          SetUsedShape(ns, prv, a.nbr);
          SetUsedBudget(ns, prv, a.nbr);
          BudgetNonneg(SetUsed(ns, prv, a.nbr));
          s.AddElem(a.nbr);
          SetEdgeUsed(prv, a.nbr);
          ListAddElem(list, a.nbr);
          if a.nbr == e {
            return s;
          }
          prv := a.nbr;
          pos := 0;
        } else {
          pos := pos + 1;
        }
      }
      return null;
    }

    /**
     * One pass of the candidate loop of et_eulerian_trail (eulerian.c:711-714):
     * walk a sub-circuit from the k-th candidate back to itself and splice
     * it into the trail when the walk succeeded.
     */
    method ExtendTrail(k: nat, trail: Trail, list: Trail)
      requires Valid() && ListOk(|nodes|, list.elems) && k < |list.elems|
      requires trail != list && trail.num == |trail.elems|
      modifies this, trail, list
      ensures Valid()
      ensures var s := Round(old(nodes), old(list.elems), old(trail.elems), k);
        nodes == s.nodes && list.elems == s.list && trail.elems == s.trail
      ensures trail.num == |trail.elems| && |trail.elems| >= old(|trail.elems|)
      ensures nodeNum == old(nodeNum) && edgeNum == old(edgeNum) && oddNodes == old(oddNodes)
      ensures circuit == old(circuit) && trailNodes == old(trailNodes)
    {
      var c := list.elems[k];
      SubCircuitProps(nodes, list.elems, c, c);
      var sub := SubCircuit(c, None, list);
      trail.InsertSubCircuit(sub);
      if sub != null {
        SpliceCounts(old(trail.elems), sub.elems);
      }
    }

    /** et_is_trail (eulerian.c:681-684): whether the trail's count has reached trail_nodes. */
    function IsTrail(t: Trail): (r: bool)
      reads this, t
      ensures t.num == |t.elems| ==> (r <==> Complete(t.elems, trailNodes))
    {
      t.num >= trailNodes
    }

    /**
     * et_eulerian_trail (eulerian.c:687-718): start an empty candidate
     * list, walk the first sub-circuit (a circuit from the first node, or
     * from the first odd node to the second), return it if it is already
     * complete, and otherwise go through the candidate list in order,
     * including entries appended on the way, stopping once the trail is
     * complete, and splice in the sub-circuit walked from each candidate
     * back to itself.
     */
    method EulerianTrail() returns (trail: Trail, list: Trail)
      requires Valid() && DriverReady(nodes, circuit, oddNodes)
      requires Walk.SubCircuit(nodes, [], FirstStart(circuit, oddNodes), FirstEnd(circuit, oddNodes)).ok
      modifies this
      ensures var r := Assembly.EulerianTrail(old(nodes), old(circuit), old(oddNodes), old(trailNodes));
        nodes == r.nodes && list.elems == r.list && trail.elems == r.trail && trail.num == |trail.elems|
      ensures Valid() && fresh(trail) && fresh(list) && trail != list
      ensures nodeNum == old(nodeNum) && edgeNum == old(edgeNum) && oddNodes == old(oddNodes)
      ensures circuit == old(circuit) && trailNodes == old(trailNodes)
    {
      ghost var ns := nodes;
      SubCircuitProps(ns, [], FirstStart(circuit, oddNodes), FirstEnd(circuit, oddNodes));
      list := new Trail();
      var first: Trail?;
      if circuit {
        first := SubCircuit(0, None, list);
      } else {
        first := SubCircuit(oddNodes[0], Some(oddNodes[1]), list);
      }
      trail := first;
      if IsTrail(trail) {
        return;
      }
      ghost var target := Assembly.EulerianTrail(ns, circuit, oddNodes, trailNodes);
      var k := 0;
      while k < |list.elems|
        invariant Valid() && |nodes| == |ns| && ListOk(|nodes|, list.elems) && k <= |list.elems|
        invariant Assemble(nodes, list.elems, trail.elems, trailNodes, k) == target
        invariant fresh(trail) && fresh(list) && trail != list
        invariant trail.num == |trail.elems| && |trail.elems| > 0
        invariant nodeNum == old(nodeNum) && edgeNum == old(edgeNum) && oddNodes == old(oddNodes)
        invariant circuit == old(circuit) && trailNodes == old(trailNodes)
        decreases |nodes| - k
      {
        ListOkBound(|nodes|, list.elems);
        if IsTrail(trail) {
          break;
        }
        ghost var s := Round(nodes, list.elems, trail.elems, k);
        RoundShape(nodes, list.elems, trail.elems, k);
        ListOkBound(|s.nodes|, s.list);
        assert Assemble(nodes, list.elems, trail.elems, trailNodes, k) == Assemble(s.nodes, s.list, s.trail, trailNodes, k + 1);
        ExtendTrail(k, trail, list);
        k := k + 1;
      }
    }
  }
}
