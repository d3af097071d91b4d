/**
 * The feasibility pass of eulerian.c: the recursive depth-first search
 * et_dfs, the connectivity test et_is_connected and the parity count of
 * et_validate_graph, as functions over the arena.
 */
module Scan {
  import opened Wrappers
  import opened GraphModel

  /** What et_dfs threads through the recursion: the arena, the visit counter `cnt`, the running degree total `trail_nodes` and the odd-node list. */
  datatype ScanState = ScanState(nodes: seq<Node>, cnt: int, total: int, odd: seq<nat>)

  function IsVisited(n: Node): bool { n.vst }
  function Unvisited(n: Node): bool { !n.vst }
  function VisitedDeg(n: Node): int { if n.vst then n.deg else 0 }
  function VisitedOdd(n: Node): bool { n.vst && n.deg % 2 != 0 }

  /**
   * The odd-node list update of et_dfs: the first odd node becomes the head
   * and every later one overwrites the head's successor.
   */
  function PushOdd(odd: seq<nat>, v: nat): seq<nat>
  {
    if odd == [] then [v] else [odd[0], v]
  }

  /** et_dfs marking a node it has not seen: vst set, edeg reset to deg, total and counter raised, odd degree recorded. */
  function Mark(s: ScanState, v: nat): ScanState
    requires v < |s.nodes|
  {
    var n := s.nodes[v];
    ScanState(s.nodes[v := n.(vst := true, edeg := n.deg)], s.cnt + 1, s.total + n.deg,
              if n.deg % 2 != 0 then PushOdd(s.odd, v) else s.odd)
  }

  /** `b` is `a` with some unvisited nodes marked visited and their edeg reset to deg; nothing else differs. */
  ghost predicate Grows(a: seq<Node>, b: seq<Node>)
  {
    |a| == |b| &&
    forall i :: 0 <= i < |a| ==> b[i] == a[i] || (!a[i].vst && b[i] == a[i].(vst := true, edeg := a[i].deg))
  }

  lemma GrowsTrans(a: seq<Node>, b: seq<Node>, c: seq<Node>)
    requires Grows(a, b) && Grows(b, c)
    ensures Grows(a, c)
  {
    forall i | 0 <= i < |a|
      ensures c[i] == a[i] || (!a[i].vst && c[i] == a[i].(vst := true, edeg := a[i].deg))
    {
      if b[i] != a[i] { assert c[i] == b[i]; }
    }
  }

  lemma MarkGrows(s: ScanState, v: nat)
    requires v < |s.nodes| && !s.nodes[v].vst
    ensures Grows(s.nodes, Mark(s, v).nodes)
    ensures Count(Mark(s, v).nodes, Unvisited) == Count(s.nodes, Unvisited) - 1
  {
    var n := s.nodes[v];
    CountUpdate(s.nodes, v, n.(vst := true, edeg := n.deg), Unvisited);
  }

  lemma GrowsKeeps(a: seq<Node>, b: seq<Node>)
    requires Grows(a, b)
    ensures forall i :: 0 <= i < |a| ==> b[i].adj == a[i].adj && b[i].deg == a[i].deg && b[i].id == a[i].id
    ensures forall i :: 0 <= i < |a| && a[i].vst ==> b[i].vst
    ensures WellFormed(a) ==> WellFormed(b)
    ensures Count(b, Unvisited) <= Count(a, Unvisited)
  {
    if a != [] {
      var last := |a| - 1;
      assert Grows(a[..last], b[..last]);
      GrowsKeeps(a[..last], b[..last]);
    }
  }

  /**
   * et_dfs (eulerian.c:440-481) entered at node v: nothing if v is already
   * visited, otherwise mark it and walk its adjacency list in order.
   */
  function Visit(s: ScanState, v: nat): (r: ScanState)
    requires WellFormed(s.nodes) && v < |s.nodes|
    ensures Grows(s.nodes, r.nodes) && r.nodes[v].vst
    decreases Count(s.nodes, Unvisited), 1
  {
    if s.nodes[v].vst then s
    else
      var s1 := Mark(s, v);
      MarkGrows(s, v);
      GrowsKeeps(s.nodes, s1.nodes);
      var r := VisitAdj(s1, v, 0);
      GrowsTrans(s.nodes, s1.nodes, r.nodes);
      r
  }

  /** The loop of et_dfs over v's adjacency list from position `pos`, recursing into unvisited neighbours. */
  function VisitAdj(s: ScanState, v: nat, pos: nat): (r: ScanState)
    requires WellFormed(s.nodes) && v < |s.nodes| && pos <= |s.nodes[v].adj|
    ensures Grows(s.nodes, r.nodes)
    decreases Count(s.nodes, Unvisited) + 1, 0, |s.nodes[v].adj| - pos
  {
    if pos == |s.nodes[v].adj| then s
    else
      var w := s.nodes[v].adj[pos].nbr;
      if s.nodes[w].vst then VisitAdj(s, v, pos + 1)
      else
        var s2 := Visit(s, w);
        GrowsKeeps(s.nodes, s2.nodes);
        var r := VisitAdj(s2, v, pos + 1);
        GrowsTrans(s.nodes, s2.nodes, r.nodes);
        r
  }

  /**
   * The odd-node list as et_dfs leaves it: as long as the number of visited
   * odd-degree nodes, but at most two long, holding distinct visited
   * odd-degree nodes.
   */
  ghost predicate OddListOk(ns: seq<Node>, odd: seq<nat>)
  {
    var c := Count(ns, VisitedOdd);
    |odd| == (if c < 2 then c else 2) &&
    (forall k :: 0 <= k < |odd| ==> odd[k] < |ns| && VisitedOdd(ns[odd[k]])) &&
    (|odd| == 2 ==> odd[0] != odd[1])
  }

  /** The counters agree with the arena: cnt counts visited nodes, total sums their degrees. */
  ghost predicate Tally(s: ScanState)
  {
    s.cnt == Count(s.nodes, IsVisited) && s.total == Sum(s.nodes, VisitedDeg) && OddListOk(s.nodes, s.odd)
  }

  lemma MarkTally(s: ScanState, v: nat)
    requires v < |s.nodes| && !s.nodes[v].vst && Tally(s)
    ensures Tally(Mark(s, v))
  {
    var n := s.nodes[v];
    var n' := n.(vst := true, edeg := n.deg);
    var r := Mark(s, v);
    CountUpdate(s.nodes, v, n', IsVisited);
    CountUpdate(s.nodes, v, n', VisitedOdd);
    SumUpdate(s.nodes, v, n', VisitedDeg);
    forall k | 0 <= k < |s.odd| ensures s.odd[k] != v && r.nodes[s.odd[k]] == s.nodes[s.odd[k]] {
      assert VisitedOdd(s.nodes[s.odd[k]]);
    }
  }

  /** Visiting keeps the counters in step with the arena (the accounting of eulerian.c:449-471). */
  lemma {:induction false} VisitTally(s: ScanState, v: nat)
    requires WellFormed(s.nodes) && v < |s.nodes| && Tally(s)
    ensures Tally(Visit(s, v))
    decreases Count(s.nodes, Unvisited), 1
  {
    if !s.nodes[v].vst {
      var s1 := Mark(s, v);
      MarkGrows(s, v);
      GrowsKeeps(s.nodes, s1.nodes);
      MarkTally(s, v);
      VisitAdjTally(s1, v, 0);
    }
  }

  lemma {:induction false} VisitAdjTally(s: ScanState, v: nat, pos: nat)
    requires WellFormed(s.nodes) && v < |s.nodes| && pos <= |s.nodes[v].adj| && Tally(s)
    ensures Tally(VisitAdj(s, v, pos))
    decreases Count(s.nodes, Unvisited) + 1, 0, |s.nodes[v].adj| - pos
  {
    if pos < |s.nodes[v].adj| {
      var w := s.nodes[v].adj[pos].nbr;
      if s.nodes[w].vst {
        VisitAdjTally(s, v, pos + 1);
      } else {
        var s2 := Visit(s, w);
        GrowsKeeps(s.nodes, s2.nodes);
        VisitTally(s, w);
        VisitAdjTally(s2, v, pos + 1);
      }
    }
  }

  /** Every neighbour of node u is visited. */
  ghost predicate NbrsVisited(ns: seq<Node>, u: nat)
    requires u < |ns|
  {
    forall k :: 0 <= k < |ns[u].adj| ==> ns[u].adj[k].nbr < |ns| && ns[ns[u].adj[k].nbr].vst
  }

  /** Every node the pass newly visited (between `a` and `b`) has all its neighbours visited. */
  ghost predicate NewlyClosed(a: seq<Node>, b: seq<Node>)
  {
    forall u :: 0 <= u < |a| && u < |b| && !a[u].vst && b[u].vst ==> NbrsVisited(b, u)
  }

  lemma NbrsVisitedGrows(a: seq<Node>, b: seq<Node>, u: nat)
    requires Grows(a, b) && WellFormed(a) && u < |a| && NbrsVisited(a, u)
    ensures WellFormed(b) && NbrsVisited(b, u)
  {
    GrowsKeeps(a, b);
  }

  lemma ClosedTrans(a: seq<Node>, b: seq<Node>, c: seq<Node>)
    requires WellFormed(a) && Grows(a, b) && Grows(b, c)
    requires NewlyClosed(a, b) && NewlyClosed(b, c)
    ensures NewlyClosed(a, c)
  {
    GrowsKeeps(a, b);
    forall u | 0 <= u < |a| && u < |c| && !a[u].vst && c[u].vst ensures NbrsVisited(c, u) {
      if b[u].vst {
        NbrsVisitedGrows(b, c, u);
      }
    }
  }

  /** After et_dfs(v) returns, v is visited and every node it newly visited has all neighbours visited. */
  lemma {:induction false} VisitClosed(s: ScanState, v: nat)
    requires WellFormed(s.nodes) && v < |s.nodes|
    ensures NewlyClosed(s.nodes, Visit(s, v).nodes)
    decreases Count(s.nodes, Unvisited), 1
  {
    var r := Visit(s, v);
    GrowsKeeps(s.nodes, r.nodes);
    if !s.nodes[v].vst {
      var s1 := Mark(s, v);
      MarkGrows(s, v);
      GrowsKeeps(s.nodes, s1.nodes);
      GrowsKeeps(s1.nodes, r.nodes);
      VisitAdjClosed(s1, v, 0);
    }
  }

  lemma {:induction false} VisitAdjClosed(s: ScanState, v: nat, pos: nat)
    requires WellFormed(s.nodes) && v < |s.nodes| && pos <= |s.nodes[v].adj|
    ensures NewlyClosed(s.nodes, VisitAdj(s, v, pos).nodes) &&
      forall k :: pos <= k < |s.nodes[v].adj| ==> VisitAdj(s, v, pos).nodes[s.nodes[v].adj[k].nbr].vst
    decreases Count(s.nodes, Unvisited) + 1, 0, |s.nodes[v].adj| - pos
  {
    var r := VisitAdj(s, v, pos);
    GrowsKeeps(s.nodes, r.nodes);
    if pos < |s.nodes[v].adj| {
      var w := s.nodes[v].adj[pos].nbr;
      if s.nodes[w].vst {
        VisitAdjClosed(s, v, pos + 1);
      } else {
        var s2 := Visit(s, w);
        GrowsKeeps(s.nodes, s2.nodes);
        GrowsKeeps(s2.nodes, r.nodes);
        VisitClosed(s, w);
        VisitAdjClosed(s2, v, pos + 1);
        ClosedTrans(s.nodes, s2.nodes, r.nodes);
      }
    }
  }

  /** Node t can be reached from node x along adjacency entries. */
  ghost predicate Reachable(ns: seq<Node>, x: nat, t: nat)
  {
    exists p :: IsPath(ns, p) && p[0] == x && p[|p| - 1] == t
  }

  lemma ReachSelf(ns: seq<Node>, x: nat)
    requires x < |ns|
    ensures Reachable(ns, x, x)
  {
    assert IsPath(ns, [x]);
  }

  lemma ReachPrepend(ns: seq<Node>, x: nat, w: nat, t: nat)
    requires x < |ns| && w in Nbrs(ns[x].adj) && Reachable(ns, w, t)
    ensures Reachable(ns, x, t)
  {
    var p :| IsPath(ns, p) && p[0] == w && p[|p| - 1] == t;
    var q := [x] + p;
    assert forall k :: 0 <= k < |p| ==> q[k + 1] == p[k];
    assert IsPath(ns, q);
  }

  lemma ReachSameAdj(a: seq<Node>, b: seq<Node>, x: nat, t: nat)
    requires |a| == |b| && (forall i :: 0 <= i < |a| ==> a[i].adj == b[i].adj) && Reachable(a, x, t)
    ensures Reachable(b, x, t)
  {
    var p :| IsPath(a, p) && p[0] == x && p[|p| - 1] == t;
    assert IsPath(b, p);
  }

  /** Every node et_dfs(v) newly visits is reachable from v. */
  lemma {:induction false} VisitReach(s: ScanState, v: nat)
    requires WellFormed(s.nodes) && v < |s.nodes|
    ensures forall u :: 0 <= u < |s.nodes| && !s.nodes[u].vst && Visit(s, v).nodes[u].vst ==> Reachable(s.nodes, v, u)
    decreases Count(s.nodes, Unvisited), 1
  {
    var r := Visit(s, v);
    if !s.nodes[v].vst {
      var s1 := Mark(s, v);
      MarkGrows(s, v);
      GrowsKeeps(s.nodes, s1.nodes);
      VisitAdjReach(s1, v, 0);
      forall u | 0 <= u < |s.nodes| && !s.nodes[u].vst && r.nodes[u].vst ensures Reachable(s.nodes, v, u) {
        if u == v {
          ReachSelf(s.nodes, v);
        } else {
          ReachSameAdj(s1.nodes, s.nodes, v, u);
        }
      }
    }
  }

  lemma {:induction false} VisitAdjReach(s: ScanState, v: nat, pos: nat)
    requires WellFormed(s.nodes) && v < |s.nodes| && pos <= |s.nodes[v].adj|
    ensures forall u :: 0 <= u < |s.nodes| && !s.nodes[u].vst && VisitAdj(s, v, pos).nodes[u].vst ==> Reachable(s.nodes, v, u)
    decreases Count(s.nodes, Unvisited) + 1, 0, |s.nodes[v].adj| - pos
  {
    var r := VisitAdj(s, v, pos);
    if pos < |s.nodes[v].adj| {
      var w := s.nodes[v].adj[pos].nbr;
      if s.nodes[w].vst {
        VisitAdjReach(s, v, pos + 1);
      } else {
        var s2 := Visit(s, w);
        GrowsKeeps(s.nodes, s2.nodes);
        VisitReach(s, w);
        VisitAdjReach(s2, v, pos + 1);
        assert w in Nbrs(s.nodes[v].adj) by { assert Nbrs(s.nodes[v].adj)[pos] == w; }
        forall u | 0 <= u < |s.nodes| && !s.nodes[u].vst && r.nodes[u].vst ensures Reachable(s.nodes, v, u) {
          if s2.nodes[u].vst {
            ReachPrepend(s.nodes, v, w, u);
          } else {
            ReachSameAdj(s2.nodes, s.nodes, v, u);
          }
        }
      }
    }
  }

  /** In an arena where every visited node has its neighbours visited, a path from a visited node ends at a visited node. */
  lemma {:induction false} PathStaysVisited(ns: seq<Node>, p: seq<nat>)
    requires IsPath(ns, p) && ns[p[0]].vst
    requires forall u :: 0 <= u < |ns| && ns[u].vst ==> NbrsVisited(ns, u)
    ensures ns[p[|p| - 1]].vst
  {
    if |p| > 1 {
      var q := p[1..];
      assert IsPath(ns, q) by {
        assert forall k :: 0 <= k < |q| ==> q[k] == p[k + 1];
      }
      assert p[1] in Nbrs(ns[p[0]].adj);
      var k :| 0 <= k < |Nbrs(ns[p[0]].adj)| && Nbrs(ns[p[0]].adj)[k] == p[1];
      assert ns[p[0]].adj[k].nbr == p[1];
      assert NbrsVisited(ns, p[0]);
      PathStaysVisited(ns, q);
    }
  }

  /** C's truncating division by two. */
  function Half(x: int): int
  {
    if x < 0 then -((-x) / 2) else x / 2
  }

  /** What et_is_connected yields: the state after the search, the verdict and the new trail_nodes. */
  datatype Connection = Connection(scan: ScanState, connected: bool, trailNodes: int)

  /**
   * et_is_connected (eulerian.c:484-492): search from the first node of the
   * node list (nothing when the list is empty), turn trail_nodes into half
   * the degree total plus one, and report whether every node was visited.
   */
  function IsConnected(ns: seq<Node>, odd: seq<nat>, trailNodes: int): Connection
    requires WellFormed(ns)
  {
    var s0 := ScanState(ns, 0, trailNodes, odd);
    var r := if |ns| == 0 then s0 else Visit(s0, 0);
    Connection(r, r.cnt == |ns|, Half(r.total) + 1)
  }

  /** No node is visited yet, as et_add_edge leaves the graph. */
  ghost predicate NoneVisited(ns: seq<Node>)
  {
    forall i :: 0 <= i < |ns| ==> !ns[i].vst
  }

  lemma FreshTally(ns: seq<Node>)
    requires NoneVisited(ns)
    ensures Tally(ScanState(ns, 0, 0, []))
  {
    CountNone(ns, IsVisited);
    CountNone(ns, VisitedOdd);
    SumZero(ns, VisitedDeg);
  }

  /**
   * After et_is_connected on a graph nothing has visited yet: exactly the
   * nodes reachable from the first node are visited, each with edeg reset
   * to deg and all others untouched; the verdict is "every node is
   * reachable"; trail_nodes is half the degree total of the visited nodes
   * plus one; the odd-node list holds up to two of the visited odd nodes.
   */
  lemma ConnectTheorem(ns: seq<Node>)
    requires WellFormed(ns) && NoneVisited(ns)
    ensures var c := IsConnected(ns, [], 0);
      var r := c.scan.nodes;
      Grows(ns, r) &&
      (forall u :: 0 <= u < |ns| ==> (r[u].vst <==> Reachable(ns, 0, u))) &&
      (c.connected <==> forall u :: 0 <= u < |ns| ==> Reachable(ns, 0, u)) &&
      c.trailNodes == Half(Sum(r, VisitedDeg)) + 1 &&
      OddListOk(r, c.scan.odd)
  {
    var s0 := ScanState(ns, 0, 0, []);
    var c := IsConnected(ns, [], 0);
    var r := c.scan.nodes;
    FreshTally(ns);
    if |ns| > 0 {
      VisitTally(s0, 0);
      VisitClosed(s0, 0);
      VisitReach(s0, 0);
      GrowsKeeps(ns, r);
      forall u | 0 <= u < |ns| && Reachable(ns, 0, u) ensures r[u].vst {
        ReachSameAdj(ns, r, 0, u);
        var p :| IsPath(r, p) && p[0] == 0 && p[|p| - 1] == u;
        PathStaysVisited(r, p);
      }
      CountAll(r, IsVisited);
    }
  }

  /** What et_validate_graph yields: the verdict, the new `circuit` flag and, when it ran, the connectivity pass. */
  datatype Validation = Validation(ok: bool, circuit: bool, conn: Option<Connection>)

  /**
   * et_validate_graph (eulerian.c:495-511): an empty graph fails; otherwise
   * count the odd-degree nodes, set `circuit` when there are none, fail on
   * one or more than two, and else return the connectivity verdict.
   */
  function ValidateGraph(ns: seq<Node>, circuit: bool, odd: seq<nat>, trailNodes: int): Validation
    requires WellFormed(ns)
  {
    if |ns| == 0 then Validation(false, circuit, None)
    else
      var numOdd := Count(ns, OddDegree);
      var circuit' := if numOdd == 0 then true else circuit;
      if numOdd == 1 || numOdd > 2 then Validation(false, circuit', None)
      else var c := IsConnected(ns, odd, trailNodes); Validation(c.connected, circuit', Some(c))
  }

  /**
   * The feasibility verdict on an unscanned graph: it holds exactly when
   * the graph is non-empty, has zero or two odd-degree nodes and every node
   * is reachable from the first; `circuit` is set exactly when the graph is
   * non-empty with no odd-degree node.  When it holds, every node is
   * visited with edeg reset to deg, trail_nodes is half the degree sum plus
   * one, and for a trail the odd-node list holds the two odd nodes.
   */
  lemma ValidateVerdict(ns: seq<Node>)
    requires WellFormed(ns) && NoneVisited(ns)
    ensures var v := ValidateGraph(ns, false, [], 0);
      var n := Count(ns, OddDegree);
      (v.ok <==> |ns| > 0 && (n == 0 || n == 2) && forall u :: 0 <= u < |ns| ==> Reachable(ns, 0, u)) &&
      (v.circuit <==> |ns| > 0 && n == 0) &&
      (v.ok ==> (v.conn.Some? &&
        var c := v.conn.value;
        (forall i :: 0 <= i < |ns| ==> c.scan.nodes[i] == ns[i].(vst := true, edeg := ns[i].deg)) &&
        c.trailNodes == Half(Sum(ns, Degree)) + 1 &&
        (!v.circuit ==> (|c.scan.odd| == 2 && c.scan.odd[0] != c.scan.odd[1] &&
          c.scan.odd[0] < |ns| && c.scan.odd[1] < |ns| &&
          OddDegree(ns[c.scan.odd[0]]) && OddDegree(ns[c.scan.odd[1]])))))
  {
    var v := ValidateGraph(ns, false, [], 0);
    var n := Count(ns, OddDegree);
    if |ns| > 0 && (n == 0 || n == 2) {
      ConnectTheorem(ns);
      var c := IsConnected(ns, [], 0);
      var r := c.scan.nodes;
      if c.connected {
        forall i | 0 <= i < |ns| ensures r[i] == ns[i].(vst := true, edeg := ns[i].deg) {
          ReachSelf(ns, 0);
          assert Reachable(ns, 0, i);
        }
        SumPointwise(r, ns, VisitedDeg, Degree);
        CountPointwise(r, ns, VisitedOdd, OddDegree);
      }
    }
  }
}
