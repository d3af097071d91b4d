/**
 * What the trail of eulerian.c covers on a graph in which no adjacency
 * list names the same node twice, that is, without parallel edges and
 * with at most one self-loop per node.  There every entry the walk takes
 * is the one et_set_edge_used marks, so the used flags record exactly the
 * edges walked so far: the trail never crosses an edge twice, and once
 * et_is_trail accepts it, it crosses every edge of the graph exactly once.
 */
module Coverage {
  import opened Wrappers
  import opened GraphModel
  import opened Scan
  import opened Walk
  import opened Assembly

  /** No two entries of the list name the same node. */
  ghost predicate Distinct(adj: seq<Adj>)
  {
    forall j, k :: 0 <= j < k < |adj| ==> adj[j].nbr != adj[k].nbr
  }

  /** No parallel edges and no repeated self-loop: every list names each node at most once. */
  ghost predicate NoParallel(ns: seq<Node>)
  {
    forall i :: 0 <= i < |ns| ==> Distinct(ns[i].adj)
  }

  /** Whether a list's entry for node b (its first one) is marked used. */
  function UsedIn(adj: seq<Adj>, b: nat): bool
  {
    match FirstEntry(adj, b)
    case None => false
    case Some(m) => adj[m].used
  }

  /** 1 when the edge from a to b is marked used in a's list, else 0. */
  function Taken(ns: seq<Node>, a: nat, b: nat): int
    requires a < |ns|
  {
    if UsedIn(ns[a].adj, b) then 1 else 0
  }

  /** How often a set of steps crosses the edge between a and b, in either direction. */
  function Crossings(m: multiset<(nat, nat)>, a: nat, b: nat): int
  {
    if a == b then m[(a, b)] else m[(a, b)] + m[(b, a)]
  }

  /** What node i's list still offers a walk: one per unused entry, two for an unused self-loop. */
  function Offer(adj: seq<Adj>, i: nat): int
  {
    if adj == [] then 0
    else (if adj[0].used then 0 else if adj[0].nbr == i then 2 else 1) + Offer(adj[1..], i)
  }

  /** Every entry from i to j has an entry from j to i, and the two carry the same flag. */
  ghost predicate Mirrored(ns: seq<Node>)
  {
    forall i, k :: 0 <= i < |ns| && 0 <= k < |ns[i].adj| ==>
      ns[i].adj[k].nbr < |ns| &&
      FirstEntry(ns[ns[i].adj[k].nbr].adj, i).Some? &&
      UsedIn(ns[ns[i].adj[k].nbr].adj, i) == ns[i].adj[k].used
  }

  /** Every remaining degree is what the node's list still offers. */
  ghost predicate Balanced(ns: seq<Node>)
  {
    forall i :: 0 <= i < |ns| ==> ns[i].edeg == Offer(ns[i].adj, i)
  }

  /** The state of a graph without parallel edges between walks. */
  ghost predicate Simple(ns: seq<Node>)
  {
    WellFormed(ns) && NoParallel(ns) && Mirrored(ns) && Balanced(ns)
  }

  /** In a list without repeats, the entry found for a node is the only one naming it. */
  lemma DistinctFirst(adj: seq<Adj>, k: nat)
    requires Distinct(adj) && k < |adj|
    ensures FirstEntry(adj, adj[k].nbr) == Some(k)
    ensures UsedIn(adj, adj[k].nbr) == adj[k].used
  {
  }

  /** Two lists naming the same nodes in the same order find the same entries. */
  lemma {:induction false} FirstEntrySameNbrs(a: seq<Adj>, b: seq<Adj>, y: nat)
    requires Nbrs(a) == Nbrs(b)
    ensures FirstEntry(a, y) == FirstEntry(b, y)
  {
    assert |a| == |Nbrs(a)| == |Nbrs(b)| == |b|;
    if a != [] {
      assert a[0].nbr == Nbrs(a)[0] == Nbrs(b)[0] == b[0].nbr;
      assert Nbrs(a[1..]) == Nbrs(b[1..]) by {
        forall k | 0 <= k < |a| - 1 ensures Nbrs(a[1..])[k] == Nbrs(b[1..])[k] {
          assert Nbrs(a[1..])[k] == Nbrs(a)[k + 1];
          assert Nbrs(b[1..])[k] == Nbrs(b)[k + 1];
        }
      }
      FirstEntrySameNbrs(a[1..], b[1..], y);
    }
  }

  /** Marking the entry for c turns on the flag found for c and leaves every other node's flag alone. */
  lemma MarkFirstUsedIn(adj: seq<Adj>, c: nat, y: nat)
    ensures UsedIn(MarkFirst(adj, c), y) == (UsedIn(adj, y) || (y == c && FirstEntry(adj, c).Some?))
  {
    MarkFirstNbrs(adj, c);
    FirstEntrySameNbrs(MarkFirst(adj, c), adj, y);
    var f, g := FirstEntry(adj, c), FirstEntry(adj, y);
    if f.Some? && g.Some? && f.value != g.value {
      assert adj[f.value].nbr == c && adj[g.value].nbr == y;
    }
  }

  /** Marking an unused entry takes its share from what the list offers. */
  lemma {:induction false} OfferMark(adj: seq<Adj>, i: nat, m: nat)
    requires m < |adj| && !adj[m].used
    ensures Offer(adj[m := adj[m].(used := true)], i) == Offer(adj, i) - (if adj[m].nbr == i then 2 else 1)
  {
    var r := adj[m := adj[m].(used := true)];
    if m == 0 {
      assert r[1..] == adj[1..];
    } else {
      assert r[1..] == adj[1..][m - 1 := adj[m].(used := true)];
      OfferMark(adj[1..], i, m - 1);
    }
  }

  /** An appended unused entry adds its share to what the list offers. */
  lemma {:induction false} OfferAppend(adj: seq<Adj>, i: nat, j: nat)
    ensures Offer(adj + [Adj(j, false)], i) == Offer(adj, i) + (if j == i then 2 else 1)
  {
    if adj != [] {
      assert (adj + [Adj(j, false)])[1..] == adj[1..] + [Adj(j, false)];
      OfferAppend(adj[1..], i, j);
    }
  }

  /** A list offers nothing only when every entry is used. */
  lemma {:induction false} OfferZero(adj: seq<Adj>, i: nat)
    ensures Offer(adj, i) >= 0
    ensures Offer(adj, i) == 0 ==> forall k :: 0 <= k < |adj| ==> adj[k].used
  {
    if adj != [] {
      OfferZero(adj[1..], i);
      if Offer(adj, i) == 0 {
        forall k | 0 <= k < |adj| ensures adj[k].used {
          if k > 0 { assert adj[k] == adj[1..][k - 1]; }
        }
      }
    }
  }

  /** A total of non-negative weights is non-negative, and zero only when every weight is. */
  lemma {:induction false} SumNonneg(ns: seq<Node>, f: Node -> int)
    requires forall i :: 0 <= i < |ns| ==> f(ns[i]) >= 0
    ensures Sum(ns, f) >= 0
    ensures Sum(ns, f) == 0 ==> forall i :: 0 <= i < |ns| ==> f(ns[i]) == 0
  {
    if ns != [] {
      var last := |ns| - 1;
      SumNonneg(ns[..last], f);
      if Sum(ns, f) == 0 {
        forall i | 0 <= i < |ns| ensures f(ns[i]) == 0 {
          if i < last { assert ns[i] == ns[..last][i]; }
        }
      }
    }
  }

  /**
   * One step of the walk on a graph without parallel edges: taking the
   * unused entry at position pos of a's list, towards b, marks exactly the
   * edge between a and b, which was unused on both sides, and keeps the
   * invariant.
   */
  lemma StepMarks(ns: seq<Node>, a: nat, pos: nat)
    requires Simple(ns) && a < |ns| && pos < |ns[a].adj| && !ns[a].adj[pos].used
    ensures var b := ns[a].adj[pos].nbr; var r := SetUsed(ns, a, b);
      !UsedIn(ns[a].adj, b) && !UsedIn(ns[b].adj, a) &&
      Simple(r) && SameShape(ns, r) &&
      forall x, y :: 0 <= x < |ns| ==>
        UsedIn(r[x].adj, y) == (UsedIn(ns[x].adj, y) || (x == a && y == b) || (x == b && y == a))
  {
    var b := ns[a].adj[pos].nbr;
    var r := SetUsed(ns, a, b);
    DistinctFirst(ns[a].adj, pos);
    SetUsedShape(ns, a, b);
    SetUsedEffect(ns, a, b);
    assert FirstEntry(ns[b].adj, a).Some?;
    forall x, y | 0 <= x < |ns|
      ensures UsedIn(r[x].adj, y) == (UsedIn(ns[x].adj, y) || (x == a && y == b) || (x == b && y == a))
    {
      if x == a {
        MarkFirstUsedIn(ns[a].adj, b, y);
      }
      if x == b {
        MarkFirstUsedIn(ns[b].adj, a, y);
      }
    }
    StepMirrored(ns, r, a, b);
    StepBalanced(ns, a, pos);
  }

  /** The flags after a step are still mirrored. */
  lemma StepMirrored(ns: seq<Node>, r: seq<Node>, a: nat, b: nat)
    requires WellFormed(ns) && NoParallel(ns) && Mirrored(ns) && SameShape(ns, r) && a < |ns| && b < |ns|
    requires forall x, y :: 0 <= x < |ns| ==>
      UsedIn(r[x].adj, y) == (UsedIn(ns[x].adj, y) || (x == a && y == b) || (x == b && y == a))
    ensures NoParallel(r) && Mirrored(r)
  {
    forall i | 0 <= i < |r| ensures Distinct(r[i].adj) {
      forall j, k | 0 <= j < k < |r[i].adj| ensures r[i].adj[j].nbr != r[i].adj[k].nbr {
        assert r[i].adj[j].nbr == Nbrs(r[i].adj)[j] == Nbrs(ns[i].adj)[j] == ns[i].adj[j].nbr;
        assert r[i].adj[k].nbr == Nbrs(r[i].adj)[k] == Nbrs(ns[i].adj)[k] == ns[i].adj[k].nbr;
      }
    }
    forall i, k | 0 <= i < |r| && 0 <= k < |r[i].adj|
      ensures r[i].adj[k].nbr < |r|
      ensures FirstEntry(r[r[i].adj[k].nbr].adj, i).Some?
      ensures UsedIn(r[r[i].adj[k].nbr].adj, i) == r[i].adj[k].used
    {
      var j := r[i].adj[k].nbr;
      assert j == Nbrs(r[i].adj)[k] == Nbrs(ns[i].adj)[k] == ns[i].adj[k].nbr;
      FirstEntrySameNbrs(r[j].adj, ns[j].adj, i);
      DistinctFirst(ns[i].adj, k);
      DistinctFirst(r[i].adj, k);
    }
  }

  /** The remaining degrees after a step still equal what the lists offer. */
  lemma StepBalanced(ns: seq<Node>, a: nat, pos: nat)
    requires WellFormed(ns) && NoParallel(ns) && Mirrored(ns) && Balanced(ns)
    requires a < |ns| && pos < |ns[a].adj| && !ns[a].adj[pos].used
    ensures Balanced(SetUsed(ns, a, ns[a].adj[pos].nbr))
  {
    var b := ns[a].adj[pos].nbr;
    var r := SetUsed(ns, a, b);
    SetUsedEffect(ns, a, b);
    DistinctFirst(ns[a].adj, pos);
    var ra := ns[a].adj[pos := ns[a].adj[pos].(used := true)];
    assert MarkFirst(ns[a].adj, b) == ra;
    OfferMark(ns[a].adj, a, pos);
    if a != b {
      var m := FirstEntry(ns[b].adj, a).value;
      var rb := ns[b].adj[m := ns[b].adj[m].(used := true)];
      assert MarkFirst(ns[b].adj, a) == rb;
      OfferMark(ns[b].adj, b, m);
      assert r[b].edeg == Offer(r[b].adj, b);
    }
    assert r[a].edeg == Offer(r[a].adj, a);
    forall i | 0 <= i < |r| ensures r[i].edeg == Offer(r[i].adj, i) {
      if i != a && i != b {
        assert r[i] == ns[i];
      }
    }
  }

  /** Adding one step from a to b adds one crossing of the edge between a and b and of no other. */
  lemma CrossingsAdd(m: multiset<(nat, nat)>, a: nat, b: nat, x: nat, y: nat)
    ensures Crossings(m + multiset{(a, b)}, x, y) ==
      Crossings(m, x, y) + (if (x == a && y == b) || (x == b && y == a) then 1 else 0)
  {
  }

  /**
   * The walk of et_sub_circuit on a graph without parallel edges marks
   * exactly the edges it crosses: each edge's flag goes from unused to
   * used once for every crossing, so no edge is crossed twice, and the
   * invariant holds afterwards.
   */
  lemma {:induction false} WalkLoopMarks(ns: seq<Node>, list: seq<nat>, prv: nat, pos: nat, end: nat, sub: seq<nat>)
    requires Simple(ns) && prv < |ns| && pos <= |ns[prv].adj| && |sub| > 0 && sub[|sub| - 1] == prv
    ensures var r := WalkLoop(ns, list, prv, pos, end, sub);
      Simple(r.nodes) && |r.nodes| == |ns| &&
      forall x, y :: 0 <= x < |ns| ==>
        Taken(r.nodes, x, y) == Taken(ns, x, y) + Crossings(Steps(r.sub), x, y) - Crossings(Steps(sub), x, y)
    decreases Sum(ns, Budget), |ns[prv].adj| - pos
  {
    if pos < |ns[prv].adj| {
      var e := ns[prv].adj[pos];
      if Eligible(ns, e) {
        var ns' := SetUsed(ns, prv, e.nbr);
        SetUsedStep(ns, prv, e.nbr);
        WalkStepMarks(ns, prv, pos, sub);
        var list' := ListAdd(ns', list, e.nbr);
        var sub' := sub + [e.nbr];
        if e.nbr != end {
          WalkLoopMarks(ns', list', e.nbr, 0, end, sub');
          var r := WalkLoop(ns', list', e.nbr, 0, end, sub');
          assert WalkLoop(ns, list, prv, pos, end, sub) == r;
          forall x, y | 0 <= x < |ns|
            ensures Taken(r.nodes, x, y) == Taken(ns, x, y) + Crossings(Steps(r.sub), x, y) - Crossings(Steps(sub), x, y)
          {
            assert Taken(r.nodes, x, y) == Taken(ns', x, y) + Crossings(Steps(r.sub), x, y) - Crossings(Steps(sub'), x, y);
          }
        } else {
          assert WalkLoop(ns, list, prv, pos, end, sub) == WalkResult(ns', list', sub', true);
        }
      } else {
        WalkLoopMarks(ns, list, prv, pos + 1, end, sub);
        assert WalkLoop(ns, list, prv, pos, end, sub) == WalkLoop(ns, list, prv, pos + 1, end, sub);
      }
    }
  }

  /** One step of the walk adds one crossing of the edge it takes and marks that edge. */
  lemma WalkStepMarks(ns: seq<Node>, prv: nat, pos: nat, sub: seq<nat>)
    requires Simple(ns) && prv < |ns| && pos < |ns[prv].adj| && !ns[prv].adj[pos].used
    requires |sub| > 0 && sub[|sub| - 1] == prv
    ensures var b := ns[prv].adj[pos].nbr; var ns' := SetUsed(ns, prv, b);
      Simple(ns') && |ns'| == |ns| &&
      forall x, y :: 0 <= x < |ns| ==>
        Taken(ns', x, y) == Taken(ns, x, y) + Crossings(Steps(sub + [b]), x, y) - Crossings(Steps(sub), x, y)
  {
    var b := ns[prv].adj[pos].nbr;
    var ns' := SetUsed(ns, prv, b);
    StepMarks(ns, prv, pos);
    StepsSnoc(sub, b);
    forall x, y | 0 <= x < |ns|
      ensures Taken(ns', x, y) == Taken(ns, x, y) + Crossings(Steps(sub + [b]), x, y) - Crossings(Steps(sub), x, y)
    {
      CrossingsAdd(Steps(sub), prv, b, x, y);
      assert UsedIn(ns'[x].adj, y) == (UsedIn(ns[x].adj, y) || (x == prv && y == b) || (x == b && y == prv));
    }
  }

  /** Extending a walk by one node adds the one step onto it. */
  lemma StepsSnoc(p: seq<nat>, b: nat)
    requires |p| > 0
    ensures Steps(p + [b]) == Steps(p) + multiset{(p[|p| - 1], b)}
  {
    StepsConcat(p, [b]);
    assert Steps([b]) == multiset{};
  }

  /** et_sub_circuit on a graph without parallel edges: the edges newly marked are exactly those its result crosses, each once. */
  lemma SubCircuitMarks(ns: seq<Node>, list: seq<nat>, start: nat, end: nat)
    requires Simple(ns) && start < |ns|
    ensures var r := SubCircuit(ns, list, start, end);
      Simple(r.nodes) && |r.nodes| == |ns| &&
      forall x, y :: 0 <= x < |ns| ==> Taken(r.nodes, x, y) == Taken(ns, x, y) + Crossings(Steps(r.sub), x, y)
  {
    var list' := if ns[start].edeg > 2 then ListAdd(ns, list, start) else list;
    assert SubCircuit(ns, list, start, end) == WalkLoop(ns, list', start, 0, end, [start]);
    assert Steps([start]) == multiset{};
    WalkLoopMarks(ns, list', start, 0, end, [start]);
  }

  /**
   * The bookkeeping of the candidate loop against a budget `total` of edge
   * ends.  The remaining degrees plus two ends for every step of the trail
   * stay within the budget; the trail crosses no edge more often than the
   * edge is marked used; and while no walk has been left out of the trail,
   * the trail crosses exactly the edges marked used.
   */
  ghost predicate Accounted(ns: seq<Node>, trail: seq<nat>, total: int)
  {
    |trail| > 0 &&
    Sum(ns, Edeg) + 2 * (|trail| - 1) <= total &&
    (forall x, y :: 0 <= x < |ns| ==> Crossings(Steps(trail), x, y) <= Taken(ns, x, y)) &&
    (Sum(ns, Edeg) + 2 * (|trail| - 1) == total ==>
       forall x, y :: 0 <= x < |ns| ==> Crossings(Steps(trail), x, y) == Taken(ns, x, y))
  }

  /** A closed walk spliced into the trail brings its crossings and its marks together. */
  lemma AccountSplice(ns: seq<Node>, trail: seq<nat>, total: int, ns2: seq<Node>, sub: seq<nat>)
    requires Accounted(ns, trail, total) && |ns2| == |ns|
    requires |sub| > 0 && sub[|sub| - 1] == sub[0] && sub[0] in trail
    requires Sum(ns2, Edeg) == Sum(ns, Edeg) - 2 * (|sub| - 1)
    requires forall x, y :: 0 <= x < |ns| ==> Taken(ns2, x, y) == Taken(ns, x, y) + Crossings(Steps(sub), x, y)
    ensures Accounted(ns2, Splice(trail, sub), total)
  {
    var t := Splice(trail, sub);
    SpliceCounts(trail, sub);
    assert Sum(ns2, Edeg) + 2 * (|t| - 1) == Sum(ns, Edeg) + 2 * (|trail| - 1);
    forall x, y | 0 <= x < |ns|
      ensures Crossings(Steps(t), x, y) == Crossings(Steps(trail), x, y) + Crossings(Steps(sub), x, y)
    {
    }
  }

  /**
   * A walk left out of the trail only adds marks; once it took a step, the
   * budget is no longer met exactly.
   */
  lemma AccountDrop(ns: seq<Node>, trail: seq<nat>, total: int, ns2: seq<Node>, sub: seq<nat>)
    requires Accounted(ns, trail, total) && |ns2| == |ns| && |sub| > 0
    requires Sum(ns2, Edeg) == Sum(ns, Edeg) - 2 * (|sub| - 1)
    requires forall x, y :: 0 <= x < |ns| ==> Taken(ns2, x, y) == Taken(ns, x, y) + Crossings(Steps(sub), x, y)
    ensures Accounted(ns2, trail, total)
  {
    if |sub| == 1 {
      assert Steps(sub) == multiset{};
    } else {
      forall x, y | 0 <= x < |ns|
        ensures Crossings(Steps(sub), x, y) >= 0
      {
      }
    }
  }

  /** One round of the candidate loop keeps the bookkeeping. */
  lemma RoundAccounted(ns: seq<Node>, list: seq<nat>, trail: seq<nat>, k: nat, total: int)
    requires Simple(ns) && ListOk(|ns|, list) && k < |list| && Accounted(ns, trail, total)
    ensures var s := Round(ns, list, trail, k);
      Simple(s.nodes) && |s.nodes| == |ns| && Accounted(s.nodes, s.trail, total)
  {
    var c := list[k];
    var w := SubCircuit(ns, list, c, c);
    SubCircuitProps(ns, list, c, c);
    SubCircuitMarks(ns, list, c, c);
    if w.ok && c in trail {
      AccountSplice(ns, trail, total, w.nodes, w.sub);
    } else {
      if w.ok {
        SpliceCounts(trail, w.sub);
      }
      AccountDrop(ns, trail, total, w.nodes, w.sub);
    }
  }

  /** The whole candidate loop keeps the bookkeeping. */
  lemma {:induction false} AssembleAccounted(ns: seq<Node>, list: seq<nat>, trail: seq<nat>, trailNodes: int, k: nat, total: int)
    requires Simple(ns) && ListOk(|ns|, list) && k <= |list| && Accounted(ns, trail, total)
    ensures var r := Assemble(ns, list, trail, trailNodes, k);
      Simple(r.nodes) && |r.nodes| == |ns| && Accounted(r.nodes, r.trail, total)
    decreases |ns| - k, 1
  {
    ListOkBound(|ns|, list);
    if k < |list| && !Complete(trail, trailNodes) {
      AssembleAccountedRound(ns, list, trail, trailNodes, k, total);
    } else {
      assert Assemble(ns, list, trail, trailNodes, k) == Assembled(ns, list, trail);
    }
  }

  /** AssembleAccounted when the loop goes round once more. */
  lemma {:induction false} AssembleAccountedRound(ns: seq<Node>, list: seq<nat>, trail: seq<nat>, trailNodes: int, k: nat, total: int)
    requires Simple(ns) && ListOk(|ns|, list) && k < |list| && Accounted(ns, trail, total)
    requires !Complete(trail, trailNodes)
    ensures var r := Assemble(ns, list, trail, trailNodes, k);
      Simple(r.nodes) && |r.nodes| == |ns| && Accounted(r.nodes, r.trail, total)
    decreases |ns| - k, 0
  {
    var s := Round(ns, list, trail, k);
    AssembleUnfold(ns, list, trail, trailNodes, k);
    RoundAccounted(ns, list, trail, k, total);
    AssembleAccounted(s.nodes, s.list, s.trail, trailNodes, k + 1, total);
  }

  /** While the trail is incomplete, the loop from k is one round followed by the loop from k + 1. */
  lemma AssembleUnfold(ns: seq<Node>, list: seq<nat>, trail: seq<nat>, trailNodes: int, k: nat)
    requires WellFormed(ns) && ListOk(|ns|, list) && k < |list| && !Complete(trail, trailNodes)
    ensures var s := Round(ns, list, trail, k);
      WellFormed(s.nodes) && ListOk(|s.nodes|, s.list) && k < |s.list| <= |s.nodes| == |ns| &&
      Assemble(ns, list, trail, trailNodes, k) == Assemble(s.nodes, s.list, s.trail, trailNodes, k + 1)
  {
    ListOkBound(|ns|, list);
    var s := Round(ns, list, trail, k);
    RoundShape(ns, list, trail, k);
    ListOkBound(|s.nodes|, s.list);
  }


  /** Every entry from i to j is answered by an entry from j to i. */
  ghost predicate Linked(ns: seq<Node>)
  {
    forall i, k :: 0 <= i < |ns| && 0 <= k < |ns[i].adj| ==>
      ns[i].adj[k].nbr < |ns| && FirstEntry(ns[ns[i].adj[k].nbr].adj, i).Some?
  }

  /** Every degree is what the node's list offers: one per entry, two per self-entry, while none is used. */
  ghost predicate Offered(ns: seq<Node>)
  {
    forall i :: 0 <= i < |ns| ==> ns[i].deg == Offer(ns[i].adj, i)
  }

  /** Appending an entry keeps the entry found for every node and finds the new one's node. */
  lemma FirstEntryExtend(adj: seq<Adj>, e: Adj, y: nat)
    ensures FirstEntry(adj, y).Some? ==> FirstEntry(adj + [e], y) == FirstEntry(adj, y)
    ensures e.nbr == y ==> FirstEntry(adj + [e], y).Some?
  {
    var r := adj + [e];
    assert r[|adj|] == e;
    if FirstEntry(adj, y).Some? {
      var m := FirstEntry(adj, y).value;
      assert r[m].nbr == y;
    }
  }

  /** Creating the endpoints of an edge adds only nodes without entries. */
  lemma GrownLinked(ns: seq<Node>, n1: int, n2: int)
    requires Linked(ns) && Offered(ns)
    ensures Linked(Grown(ns, n1, n2)) && Offered(Grown(ns, n1, n2))
  {
    var ns2 := Grown(ns, n1, n2);
    GrownFinds(ns, n1, n2);
    forall z | 0 <= z < |ns2|
      ensures z < |ns| ==> ns2[z] == ns[z]
      ensures z >= |ns| ==> ns2[z].adj == [] && ns2[z].deg == 0
    {
    }
  }

  /** et_add_edge keeps every entry answered and every degree offered. */
  lemma AddEdgeLinked(ns: seq<Node>, n1: int, n2: int)
    requires Linked(ns) && Offered(ns)
    ensures Linked(AddEdge(ns, n1, n2)) && Offered(AddEdge(ns, n1, n2))
  {
    var ns2 := Grown(ns, n1, n2);
    GrownLinked(ns, n1, n2);
    if n1 == n2 {
      AddEdgeLoopEntry(ns, n1);
      var i := Lookup(ns2, n1).value;
      ExtendLoopLinked(ns2, i);
    } else {
      AddEdgePairEntries(ns, n1, n2);
      var i, j := Lookup(ns2, n1).value, Lookup(ns2, n2).value;
      ExtendPairLinked(ns2, i, j);
    }
  }

  /** A self-entry appended at node i, with the degree up by two. */
  lemma ExtendLoopLinked(ns: seq<Node>, i: nat)
    requires Linked(ns) && Offered(ns) && i < |ns|
    ensures Linked(ns[i := Extended(ns[i], i, 2)]) && Offered(ns[i := Extended(ns[i], i, 2)])
  {
    var r := ns[i := Extended(ns[i], i, 2)];
    OfferAppend(ns[i].adj, i, i);
    forall z, k | 0 <= z < |r| && 0 <= k < |r[z].adj|
      ensures r[z].adj[k].nbr < |r| && FirstEntry(r[r[z].adj[k].nbr].adj, z).Some?
    {
      if z == i && k == |ns[i].adj| {
        FirstEntryExtend(ns[i].adj, Adj(i, false), i);
      } else {
        assert r[z].adj[k] == ns[z].adj[k];
        var y := ns[z].adj[k].nbr;
        FirstEntryExtend(ns[y].adj, Adj(i, false), z);
      }
    }
  }

  /** The list of each node after an entry naming j is appended at i and one naming i at j. */
  function PairAdj(ns: seq<Node>, i: nat, j: nat, z: nat): seq<Adj>
    requires i < |ns| && j < |ns| && z < |ns|
  {
    if z == i then ns[i].adj + [Adj(j, false)] else if z == j then ns[j].adj + [Adj(i, false)] else ns[z].adj
  }

  /** An entry naming j appended at i and one naming i appended at j, each degree up by one. */
  lemma ExtendPairLinked(ns: seq<Node>, i: nat, j: nat)
    requires Linked(ns) && Offered(ns) && i < |ns| && j < |ns| && i != j
    ensures var r := ns[i := Extended(ns[i], j, 1)][j := Extended(ns[j], i, 1)];
      Linked(r) && Offered(r)
  {
    var r := ns[i := Extended(ns[i], j, 1)][j := Extended(ns[j], i, 1)];
    OfferAppend(ns[i].adj, i, j);
    OfferAppend(ns[j].adj, j, i);
    assert forall z :: 0 <= z < |r| ==> r[z].adj == PairAdj(ns, i, j, z);
    PairLinked(ns, r, i, j);
  }

  /** The answering half of ExtendPairLinked, over the lists alone. */
  lemma PairLinked(ns: seq<Node>, r: seq<Node>, i: nat, j: nat)
    requires Linked(ns) && i < |ns| && j < |ns| && i != j && |r| == |ns|
    requires forall z :: 0 <= z < |r| ==> r[z].adj == PairAdj(ns, i, j, z)
    ensures Linked(r)
  {
    forall z, k | 0 <= z < |r| && 0 <= k < |r[z].adj|
      ensures r[z].adj[k].nbr < |r| && FirstEntry(r[r[z].adj[k].nbr].adj, z).Some?
    {
      PairEntryLinked(ns, r, i, j, z, k);
    }
  }

  /** One entry of PairLinked: a new entry is answered by the other new one, an old one by its old answer. */
  lemma PairEntryLinked(ns: seq<Node>, r: seq<Node>, i: nat, j: nat, z: nat, k: nat)
    requires Linked(ns) && i < |ns| && j < |ns| && i != j && |r| == |ns|
    requires forall z :: 0 <= z < |r| ==> r[z].adj == PairAdj(ns, i, j, z)
    requires z < |r| && k < |r[z].adj|
    ensures r[z].adj[k].nbr < |r| && FirstEntry(r[r[z].adj[k].nbr].adj, z).Some?
  {
    assert r[z].adj == PairAdj(ns, i, j, z);
    if z == i && k == |ns[i].adj| {
      assert r[j].adj == ns[j].adj + [Adj(i, false)];
      FirstEntryExtend(ns[j].adj, Adj(i, false), i);
    } else if z == j && k == |ns[j].adj| {
      assert r[i].adj == ns[i].adj + [Adj(j, false)];
      FirstEntryExtend(ns[i].adj, Adj(j, false), j);
    } else {
      assert r[z].adj[k] == ns[z].adj[k];
      var y := ns[z].adj[k].nbr;
      assert FirstEntry(ns[y].adj, z).Some?;
      assert r[y].adj == PairAdj(ns, i, j, y);
      if y == i {
        FirstEntryExtend(ns[i].adj, Adj(j, false), z);
      } else if y == j {
        FirstEntryExtend(ns[j].adj, Adj(i, false), z);
      }
    }
  }

  /** The graph built from an edge list answers every entry and offers every degree. */
  lemma {:induction false} BuildLinked(edges: seq<(int, int)>)
    ensures Linked(Build(edges)) && Offered(Build(edges))
  {
    if edges != [] {
      var pre := edges[..|edges| - 1];
      var e := edges[|edges| - 1];
      BuildLinked(pre);
      AddEdgeLinked(Build(pre), e.0, e.1);
    }
  }

  /**
   * The graph as et_eulerian_trail receives it from et_validate_graph:
   * every node visited and its remaining degree set to its degree.  With
   * no entry used yet, every entry is answered and every degree offered.
   */
  lemma ScannedSimple(g: seq<Node>, ns: seq<Node>)
    requires WellFormed(g) && NoneUsed(g) && NoParallel(g) && Linked(g) && Offered(g)
    requires |ns| == |g| && forall i :: 0 <= i < |g| ==> ns[i] == g[i].(vst := true, edeg := g[i].deg)
    ensures Simple(ns)
    ensures forall x, y :: 0 <= x < |ns| ==> Taken(ns, x, y) == 0
  {
    assert forall i :: 0 <= i < |ns| ==> ns[i].adj == g[i].adj;
    forall x, y | 0 <= x < |ns| ensures !UsedIn(ns[x].adj, y) {
      match FirstEntry(ns[x].adj, y)
      case None =>
      case Some(m) => assert !g[x].adj[m].used;
    }
  }

  /**
   * On a graph without parallel edges or repeated self-loops, read from an
   * edge list and validated by et_validate_graph, the trail
   * et_eulerian_trail returns after a successful first walk crosses every
   * edge at most once and crosses nothing that is not an edge; and when
   * et_is_trail accepts it, it has one node more than there are edges and
   * crosses every edge exactly once.
   */
  lemma SimpleGraphTrail(edges: seq<(int, int)>, ns: seq<Node>, circuit: bool, odd: seq<nat>, trailNodes: int)
    requires NoParallel(Build(edges))
    requires |ns| == |Build(edges)|
    requires forall i :: 0 <= i < |ns| ==> ns[i] == Build(edges)[i].(vst := true, edeg := Build(edges)[i].deg)
    requires trailNodes == Half(Sum(Build(edges), Degree)) + 1
    requires DriverReady(ns, circuit, odd)
    requires SubCircuit(ns, [], FirstStart(circuit, odd), FirstEnd(circuit, odd)).ok
    ensures var t := EulerianTrail(ns, circuit, odd, trailNodes).trail;
      (forall x, y :: 0 <= x < |ns| ==>
        Crossings(Steps(t), x, y) <= 1 && (Crossings(Steps(t), x, y) > 0 ==> y in Nbrs(ns[x].adj))) &&
      (Complete(t, trailNodes) ==>
        |t| == |edges| + 1 &&
        forall x, y :: 0 <= x < |ns| ==> (Crossings(Steps(t), x, y) == 1 <==> y in Nbrs(ns[x].adj)))
  {
    var g := Build(edges);
    assert Simple(ns) && forall x, y :: 0 <= x < |ns| ==> Taken(ns, x, y) == 0 by {
      BuildShape(edges);
      BuildLinked(edges);
      ScannedSimple(g, ns);
    }
    assert Sum(ns, Edeg) == 2 * |edges| by {
      BuildShape(edges);
      SumPointwise(ns, g, Edeg, Degree);
    }
    assert Half(Sum(g, Degree)) == |edges| by {
      BuildShape(edges);
    }
    TrailAccounted(ns, circuit, odd, trailNodes);
    var r := EulerianTrail(ns, circuit, odd, trailNodes);
    TakenNbrs(ns, r.nodes);
    if Complete(r.trail, trailNodes) {
      CompleteCovers(ns, r.nodes, r.trail, Sum(ns, Edeg));
    }
  }

  /** The bookkeeping holds of what et_eulerian_trail leaves behind, with the degree total as budget. */
  lemma TrailAccounted(ns: seq<Node>, circuit: bool, odd: seq<nat>, trailNodes: int)
    requires Simple(ns) && forall x, y :: 0 <= x < |ns| ==> Taken(ns, x, y) == 0
    requires DriverReady(ns, circuit, odd)
    requires SubCircuit(ns, [], FirstStart(circuit, odd), FirstEnd(circuit, odd)).ok
    ensures var r := EulerianTrail(ns, circuit, odd, trailNodes);
      SameShape(ns, r.nodes) && Simple(r.nodes) && Accounted(r.nodes, r.trail, Sum(ns, Edeg))
  {
    FirstWalkAccounted(ns, circuit, odd);
    var w := SubCircuit(ns, [], FirstStart(circuit, odd), FirstEnd(circuit, odd));
    AssembleAccounted(w.nodes, w.list, w.sub, trailNodes, 0, Sum(ns, Edeg));
    assert EulerianTrail(ns, circuit, odd, trailNodes) == Assemble(w.nodes, w.list, w.sub, trailNodes, 0);
    EulerianTrailProps(ns, circuit, odd, trailNodes);
  }

  /** The first walk starts the bookkeeping with the whole degree total as its budget, met exactly. */
  lemma FirstWalkAccounted(ns: seq<Node>, circuit: bool, odd: seq<nat>)
    requires Simple(ns) && DriverReady(ns, circuit, odd)
    requires forall x, y :: 0 <= x < |ns| ==> Taken(ns, x, y) == 0
    ensures var w := SubCircuit(ns, [], FirstStart(circuit, odd), FirstEnd(circuit, odd));
      Simple(w.nodes) && |w.nodes| == |ns| && ListOk(|w.nodes|, w.list) && Accounted(w.nodes, w.sub, Sum(ns, Edeg))
  {
    var s, e := FirstStart(circuit, odd), FirstEnd(circuit, odd);
    var w := SubCircuit(ns, [], s, e);
    SubCircuitProps(ns, [], s, e);
    SubCircuitMarks(ns, [], s, e);
    FirstWalkProps(ns, circuit, odd);
    AccountStart(ns, w.nodes, w.sub);
  }

  /** A walk over a graph with nothing marked starts the bookkeeping, with the degree total as budget. */
  lemma AccountStart(ns: seq<Node>, ns2: seq<Node>, sub: seq<nat>)
    requires |ns2| == |ns| && |sub| > 0
    requires forall x, y :: 0 <= x < |ns| ==> Taken(ns, x, y) == 0
    requires Sum(ns2, Edeg) == Sum(ns, Edeg) - 2 * (|sub| - 1)
    requires forall x, y :: 0 <= x < |ns| ==> Taken(ns2, x, y) == Taken(ns, x, y) + Crossings(Steps(sub), x, y)
    ensures Accounted(ns2, sub, Sum(ns, Edeg))
  {
  }

  /** A used entry of a later state is an entry of the graph. */
  lemma TakenNbrs(ns: seq<Node>, rs: seq<Node>)
    requires SameShape(ns, rs)
    ensures forall x, y :: 0 <= x < |ns| ==> Taken(rs, x, y) <= 1 && (Taken(rs, x, y) > 0 ==> y in Nbrs(ns[x].adj))
  {
    forall x, y | 0 <= x < |ns| && Taken(rs, x, y) > 0 ensures y in Nbrs(ns[x].adj) {
      var m := FirstEntry(rs[x].adj, y).value;
      assert Nbrs(rs[x].adj)[m] == y;
    }
  }

  /**
   * A trail that used up the whole budget leaves no remaining degree, so
   * every entry is used and the trail crosses each of them exactly once.
   */
  lemma CompleteCovers(ns: seq<Node>, rs: seq<Node>, trail: seq<nat>, total: int)
    requires SameShape(ns, rs) && Simple(rs) && Accounted(rs, trail, total)
    requires 2 * (|trail| - 1) >= total
    ensures 2 * (|trail| - 1) == total
    ensures forall x, y :: 0 <= x < |ns| ==> (Crossings(Steps(trail), x, y) == 1 <==> y in Nbrs(ns[x].adj))
  {
    forall i | 0 <= i < |rs| ensures Edeg(rs[i]) >= 0 {
      OfferZero(rs[i].adj, i);
    }
    SumNonneg(rs, Edeg);
    assert Sum(rs, Edeg) == 0;
    forall i | 0 <= i < |rs| ensures forall k :: 0 <= k < |rs[i].adj| ==> rs[i].adj[k].used {
      assert Edeg(rs[i]) == 0;
      OfferZero(rs[i].adj, i);
    }
    AllUsedTaken(ns, rs);
  }

  /** With every entry used, the edge from x to y is marked exactly when x's list names y. */
  lemma AllUsedTaken(ns: seq<Node>, rs: seq<Node>)
    requires SameShape(ns, rs)
    requires forall i, k :: 0 <= i < |rs| && 0 <= k < |rs[i].adj| ==> rs[i].adj[k].used
    ensures forall x, y :: 0 <= x < |ns| ==> (Taken(rs, x, y) == 1 <==> y in Nbrs(ns[x].adj))
  {
    forall x, y | 0 <= x < |ns| ensures Taken(rs, x, y) == 1 <==> y in Nbrs(ns[x].adj) {
      if y in Nbrs(ns[x].adj) {
        var m :| 0 <= m < |ns[x].adj| && Nbrs(ns[x].adj)[m] == y;
        assert Nbrs(rs[x].adj)[m] == y;
      } else {
        forall k | 0 <= k < |rs[x].adj| ensures rs[x].adj[k].nbr != y {
          assert Nbrs(rs[x].adj)[k] == rs[x].adj[k].nbr;
        }
      }
    }
  }
}
