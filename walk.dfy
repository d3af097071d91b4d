/**
 * The sub-circuit constructor of eulerian.c: marking an edge used
 * (et_set_edge_used), registering candidate nodes (et_list_add_elem) and
 * the greedy walk of et_sub_circuit, as functions over the arena.
 */
module Walk {
  import opened Wrappers
  import opened GraphModel

  /** The first position of an adjacency list whose entry names node b, used or not. */
  function FirstEntry(adj: seq<Adj>, b: nat): (r: Option<nat>)
    ensures r.Some? ==> r.value < |adj| && adj[r.value].nbr == b
    ensures r.Some? ==> forall k :: 0 <= k < r.value ==> adj[k].nbr != b
    ensures r.None? <==> forall k :: 0 <= k < |adj| ==> adj[k].nbr != b
  {
    if adj == [] then None
    else if adj[0].nbr == b then Some(0)
    else match FirstEntry(adj[1..], b)
      case None => None
      case Some(k) => Some(k + 1)
  }

  /** One search loop of et_set_edge_used: set `used` on the first entry naming b. */
  function MarkFirst(adj: seq<Adj>, b: nat): seq<Adj>
  {
    match FirstEntry(adj, b)
    case None => adj
    case Some(k) => adj[k := adj[k].(used := true)]
  }

  function Edeg(n: Node): int { n.edeg }

  /** The positive part of a remaining degree: what the walk can still consume at a node. */
  function Budget(n: Node): int { if n.edeg > 0 then n.edeg else 0 }

  /**
   * et_set_edge_used (eulerian.c:544-576): lower the remaining degree of
   * both endpoints by one (the same node twice for a self-loop), then mark
   * the first entry naming b in a's list and the first naming a in b's.
   */
  function SetUsed(ns: seq<Node>, a: nat, b: nat): seq<Node>
    requires a < |ns| && b < |ns|
  {
    MarkBoth(Lower(ns, a, b), a, b)
  }

  /** The two decrements of et_set_edge_used (eulerian.c:549-550). */
  function Lower(ns: seq<Node>, a: nat, b: nat): seq<Node>
    requires a < |ns| && b < |ns|
  {
    Dec(Dec(ns, a), b)
  }

  /** One remaining degree lowered by one. */
  function Dec(ns: seq<Node>, a: nat): seq<Node>
    requires a < |ns|
  {
    ns[a := ns[a].(edeg := ns[a].edeg - 1)]
  }

  lemma DecEdeg(ns: seq<Node>, a: nat)
    requires a < |ns|
    ensures Sum(Dec(ns, a), Edeg) == Sum(ns, Edeg) - 1
  {
    SumUpdate(ns, a, ns[a].(edeg := ns[a].edeg - 1), Edeg);
  }

  /** The two search loops of et_set_edge_used (eulerian.c:551-575). */
  function MarkBoth(ns: seq<Node>, a: nat, b: nat): seq<Node>
    requires a < |ns| && b < |ns|
  {
    var ns3 := ns[a := ns[a].(adj := MarkFirst(ns[a].adj, b))];
    ns3[b := ns3[b].(adj := MarkFirst(ns3[b].adj, a))]
  }

  /** Marking entries leaves every remaining degree as it was. */
  lemma MarkBothEdeg(ns: seq<Node>, a: nat, b: nat)
    requires a < |ns| && b < |ns|
    ensures |MarkBoth(ns, a, b)| == |ns|
    ensures forall i :: 0 <= i < |ns| ==> MarkBoth(ns, a, b)[i].edeg == ns[i].edeg
    ensures Sum(MarkBoth(ns, a, b), Edeg) == Sum(ns, Edeg)
    ensures Sum(MarkBoth(ns, a, b), Budget) == Sum(ns, Budget)
  {
    var r := MarkBoth(ns, a, b);
    SumPointwise(r, ns, Edeg, Edeg);
    SumPointwise(r, ns, Budget, Budget);
  }

  /**
   * et_list_add_elem (eulerian.c:579-597): append v to the candidate list
   * when its remaining degree exceeds one and it is not there yet.
   */
  function ListAdd(ns: seq<Node>, list: seq<nat>, v: nat): seq<nat>
    requires v < |ns|
  {
    if ns[v].edeg > 1 && v !in list then list + [v] else list
  }

  /** What et_sub_circuit leaves behind: the arena, the candidate list, the walk so far, and whether it reached its end node. */
  datatype WalkResult = WalkResult(nodes: seq<Node>, list: seq<nat>, sub: seq<nat>, ok: bool)

  /** An entry the walk may take: unused, towards a node with positive remaining degree. */
  predicate Eligible(ns: seq<Node>, e: Adj)
    requires e.nbr < |ns|
  {
    ns[e.nbr].edeg > 0 && !e.used
  }

  lemma SetUsedShape(ns: seq<Node>, a: nat, b: nat)
    requires a < |ns| && b < |ns|
    ensures SameShape(ns, SetUsed(ns, a, b))
    ensures forall i :: 0 <= i < |ns| ==> |SetUsed(ns, a, b)[i].adj| == |ns[i].adj|
    ensures WellFormed(ns) ==> WellFormed(SetUsed(ns, a, b))
  {
    var r := SetUsed(ns, a, b);
    forall i | 0 <= i < |ns| ensures Nbrs(r[i].adj) == Nbrs(ns[i].adj) {
      MarkFirstNbrs(ns[i].adj, a);
      MarkFirstNbrs(ns[i].adj, b);
      MarkFirstNbrs(MarkFirst(ns[i].adj, b), a);
    }
    if WellFormed(ns) {
      forall i, k | 0 <= i < |r| && 0 <= k < |r[i].adj| ensures r[i].adj[k].nbr < |r| {
        assert Nbrs(r[i].adj)[k] == Nbrs(ns[i].adj)[k];
      }
    }
  }

  lemma MarkFirstNbrs(adj: seq<Adj>, b: nat)
    ensures Nbrs(MarkFirst(adj, b)) == Nbrs(adj)
  {
  }

  /** Taking an entry towards a node with positive remaining degree strictly lowers the total budget. */
  lemma SetUsedBudget(ns: seq<Node>, a: nat, b: nat)
    requires a < |ns| && b < |ns| && ns[b].edeg > 0
    ensures Sum(SetUsed(ns, a, b), Budget) < Sum(ns, Budget)
  {
    DecBudget(ns, a);
    DecBudget(Dec(ns, a), b);
    MarkBothEdeg(Lower(ns, a, b), a, b);
  }

  lemma DecBudget(ns: seq<Node>, a: nat)
    requires a < |ns|
    ensures Sum(Dec(ns, a), Budget) <= Sum(ns, Budget)
    ensures ns[a].edeg > 0 ==> Sum(Dec(ns, a), Budget) < Sum(ns, Budget)
  {
    SumUpdate(ns, a, ns[a].(edeg := ns[a].edeg - 1), Budget);
  }

  lemma {:induction false} BudgetNonneg(ns: seq<Node>)
    ensures Sum(ns, Budget) >= 0
  {
    if ns != [] {
      BudgetNonneg(ns[..|ns| - 1]);
    }
  }

  /**
   * The loop of et_sub_circuit (eulerian.c:632-652) with the walk standing
   * at `prv` and its cursor at position `pos` of prv's adjacency list: take
   * the entry if it is eligible (append, mark used, register candidate,
   * stop on reaching `end`, else restart at the new node's list), otherwise
   * advance; running off the list is failure.
   */
  function WalkLoop(ns: seq<Node>, list: seq<nat>, prv: nat, pos: nat, end: nat, sub: seq<nat>): WalkResult
    requires WellFormed(ns) && prv < |ns| && pos <= |ns[prv].adj|
    decreases Sum(ns, Budget), |ns[prv].adj| - pos
  {
    if pos == |ns[prv].adj| then WalkResult(ns, list, sub, false)
    else
      var e := ns[prv].adj[pos];
      if Eligible(ns, e) then
        var ns' := SetUsed(ns, prv, e.nbr);
        SetUsedStep(ns, prv, e.nbr);
        var list' := ListAdd(ns', list, e.nbr);
        if e.nbr == end then WalkResult(ns', list', sub + [e.nbr], true)
        else WalkLoop(ns', list', e.nbr, 0, end, sub + [e.nbr])
      else WalkLoop(ns, list, prv, pos + 1, end, sub)
  }

  /** What one step of the walk needs to go on: the arena stays well formed and the total budget drops. */
  lemma SetUsedStep(ns: seq<Node>, a: nat, b: nat)
    requires WellFormed(ns) && a < |ns| && b < |ns| && ns[b].edeg > 0
    ensures var r := SetUsed(ns, a, b);
      WellFormed(r) && |r| == |ns| && 0 <= Sum(r, Budget) < Sum(ns, Budget)
  {
    SetUsedShape(ns, a, b);
    SetUsedBudget(ns, a, b);
    BudgetNonneg(SetUsed(ns, a, b));
  }

  /**
   * et_sub_circuit (eulerian.c:606-653) from `start` to `end`: the walk
   * begins as [start], start is registered as a candidate when its remaining
   * degree exceeds two, and the loop runs from start's first entry.
   */
  function SubCircuit(ns: seq<Node>, list: seq<nat>, start: nat, end: nat): WalkResult
    requires WellFormed(ns) && start < |ns|
  {
    var list' := if ns[start].edeg > 2 then ListAdd(ns, list, start) else list;
    WalkLoop(ns, list', start, 0, end, [start])
  }

  /**
   * The entry et_set_edge_used marks: an entry ends up used exactly when it
   * was used already or it is the first entry naming b, whether or not that
   * one was used before.
   */
  lemma {:induction false} MarkFirstMeaning(adj: seq<Adj>, b: nat)
    ensures var r := MarkFirst(adj, b);
      |r| == |adj| &&
      forall k :: 0 <= k < |adj| ==>
        r[k].nbr == adj[k].nbr &&
        (r[k].used <==> adj[k].used || (adj[k].nbr == b && forall j :: 0 <= j < k ==> adj[j].nbr != b))
  {
    var f := FirstEntry(adj, b);
    var r := MarkFirst(adj, b);
    forall k | 0 <= k < |adj|
      ensures r[k].nbr == adj[k].nbr
      ensures r[k].used <==> adj[k].used || (adj[k].nbr == b && forall j :: 0 <= j < k ==> adj[j].nbr != b)
    {
      if f.Some? && k > f.value {
        assert adj[f.value].nbr == b;
      }
    }
  }

  /**
   * et_set_edge_used on a and b: both remaining degrees drop by one (the
   * same node by two for a self-loop), a's list has its first entry naming
   * b marked, b's its first naming a, and no other node changes.
   */
  lemma SetUsedEffect(ns: seq<Node>, a: nat, b: nat)
    requires a < |ns| && b < |ns|
    ensures var r := SetUsed(ns, a, b);
      |r| == |ns| &&
      (forall i :: 0 <= i < |ns| && i != a && i != b ==> r[i] == ns[i]) &&
      r[a].id == ns[a].id && r[a].deg == ns[a].deg && r[a].vst == ns[a].vst &&
      r[b].id == ns[b].id && r[b].deg == ns[b].deg && r[b].vst == ns[b].vst &&
      (a != b ==> r[a].edeg == ns[a].edeg - 1 && r[b].edeg == ns[b].edeg - 1 &&
                  r[a].adj == MarkFirst(ns[a].adj, b) && r[b].adj == MarkFirst(ns[b].adj, a)) &&
      (a == b ==> r[a].edeg == ns[a].edeg - 2 && r[a].adj == MarkFirst(ns[a].adj, a))
  {
    if a == b {
      MarkFirstIdempotent(ns[a].adj, a);
    }
  }

  lemma MarkFirstIdempotent(adj: seq<Adj>, b: nat)
    ensures MarkFirst(MarkFirst(adj, b), b) == MarkFirst(adj, b)
  {
    MarkFirstMeaning(adj, b);
    var r := MarkFirst(adj, b);
    var f := FirstEntry(adj, b);
    if f.Some? {
      assert forall k :: 0 <= k < |r| ==> r[k].nbr == adj[k].nbr;
      assert FirstEntry(r, b) == f by {
        var g := FirstEntry(r, b);
        assert r[f.value].nbr == b;
      }
    } else {
      assert r == adj;
    }
  }

  /** Each edge marked used takes exactly two from the total remaining degree. */
  lemma SetUsedEdegSum(ns: seq<Node>, a: nat, b: nat)
    requires a < |ns| && b < |ns|
    ensures Sum(SetUsed(ns, a, b), Edeg) == Sum(ns, Edeg) - 2
  {
    DecEdeg(ns, a);
    DecEdeg(Dec(ns, a), b);
    MarkBothEdeg(Lower(ns, a, b), a, b);
  }

  /** A candidate list without duplicates whose entries name nodes of the arena. */
  ghost predicate ListOk(n: nat, list: seq<nat>)
  {
    (forall k :: 0 <= k < |list| ==> list[k] < n) &&
    forall j, k :: 0 <= j < k < |list| ==> list[j] != list[k]
  }

  /**
   * et_list_add_elem changes the list only when v's remaining degree
   * exceeds one and v is absent; then it appends v at the end.  The list
   * never gains a duplicate.
   */
  lemma ListAddProps(ns: seq<Node>, list: seq<nat>, v: nat)
    requires v < |ns| && ListOk(|ns|, list)
    ensures var r := ListAdd(ns, list, v);
      ListOk(|ns|, r) &&
      (r != list <==> ns[v].edeg > 1 && v !in list) &&
      (r != list ==> r == list + [v])
  {
  }

  /**
   * The walk keeps the shape of the graph, and every step takes exactly two
   * from the total remaining degree (eulerian.c:636-637).
   */
  lemma {:induction false} WalkLoopState(ns: seq<Node>, list: seq<nat>, prv: nat, pos: nat, end: nat, sub: seq<nat>)
    requires WellFormed(ns) && prv < |ns| && pos <= |ns[prv].adj|
    ensures var r := WalkLoop(ns, list, prv, pos, end, sub);
      SameShape(ns, r.nodes) && WellFormed(r.nodes) && sub <= r.sub &&
      Sum(r.nodes, Edeg) == Sum(ns, Edeg) - 2 * (|r.sub| - |sub|)
    decreases Sum(ns, Budget), |ns[prv].adj| - pos
  {
    if pos < |ns[prv].adj| {
      var e := ns[prv].adj[pos];
      if Eligible(ns, e) {
        var ns' := SetUsed(ns, prv, e.nbr);
        SetUsedShape(ns, prv, e.nbr);
        SetUsedBudget(ns, prv, e.nbr);
        SetUsedEdegSum(ns, prv, e.nbr);
        BudgetNonneg(ns');
        var list' := ListAdd(ns', list, e.nbr);
        if e.nbr != end {
          WalkLoopState(ns', list', e.nbr, 0, end, sub + [e.nbr]);
          SameShapeTrans(ns, ns', WalkLoop(ns', list', e.nbr, 0, end, sub + [e.nbr]).nodes);
        }
      } else {
        WalkLoopState(ns, list, prv, pos + 1, end, sub);
      }
    }
  }

  /**
   * Every step of the walk spends at least one unit of the total budget
   * (the positive remaining degrees), so a walk of n steps leaves at most
   * the budget it started with less n.
   */
  lemma {:induction false} WalkLoopBudget(ns: seq<Node>, list: seq<nat>, prv: nat, pos: nat, end: nat, sub: seq<nat>)
    requires WellFormed(ns) && prv < |ns| && pos <= |ns[prv].adj|
    ensures var r := WalkLoop(ns, list, prv, pos, end, sub);
      |sub| <= |r.sub| && Sum(r.nodes, Budget) <= Sum(ns, Budget) - (|r.sub| - |sub|)
    decreases Sum(ns, Budget), |ns[prv].adj| - pos
  {
    if pos < |ns[prv].adj| {
      var e := ns[prv].adj[pos];
      if Eligible(ns, e) {
        var ns' := SetUsed(ns, prv, e.nbr);
        SetUsedStep(ns, prv, e.nbr);
        var list' := ListAdd(ns', list, e.nbr);
        if e.nbr != end {
          WalkLoopBudget(ns', list', e.nbr, 0, end, sub + [e.nbr]);
        }
      } else {
        WalkLoopBudget(ns, list, prv, pos + 1, end, sub);
      }
    }
  }

  /** A sub-circuit of n steps spends at least n of the total budget. */
  lemma SubCircuitBudget(ns: seq<Node>, list: seq<nat>, start: nat, end: nat)
    requires WellFormed(ns) && start < |ns|
    ensures var r := SubCircuit(ns, list, start, end);
      Sum(r.nodes, Budget) <= Sum(ns, Budget) - (|r.sub| - 1)
  {
    var list' := if ns[start].edeg > 2 then ListAdd(ns, list, start) else list;
    WalkLoopBudget(ns, list', start, 0, end, [start]);
  }

  /** The walk follows adjacency entries of the graph (eulerian.c:643: each step moves to the entry's node). */
  lemma {:induction false} WalkLoopPath(ns: seq<Node>, list: seq<nat>, prv: nat, pos: nat, end: nat, sub: seq<nat>)
    requires WellFormed(ns) && prv < |ns| && pos <= |ns[prv].adj|
    requires IsPath(ns, sub) && sub[|sub| - 1] == prv
    ensures IsPath(ns, WalkLoop(ns, list, prv, pos, end, sub).sub)
    decreases Sum(ns, Budget), |ns[prv].adj| - pos
  {
    if pos < |ns[prv].adj| {
      var e := ns[prv].adj[pos];
      if Eligible(ns, e) {
        var ns' := SetUsed(ns, prv, e.nbr);
        SetUsedShape(ns, prv, e.nbr);
        SetUsedBudget(ns, prv, e.nbr);
        BudgetNonneg(ns');
        var list' := ListAdd(ns', list, e.nbr);
        var sub' := sub + [e.nbr];
        assert e.nbr in Nbrs(ns[prv].adj) by { assert Nbrs(ns[prv].adj)[pos] == e.nbr; }
        PathExtend(ns, sub, e.nbr);
        if e.nbr != end {
          PathSameShape(ns, ns', sub');
          WalkLoopPath(ns', list', e.nbr, 0, end, sub');
          var r := WalkLoop(ns', list', e.nbr, 0, end, sub');
          assert WalkLoop(ns, list, prv, pos, end, sub) == r;
          PathSameShape(ns', ns, r.sub);
        }
      } else {
        WalkLoopPath(ns, list, prv, pos + 1, end, sub);
      }
    }
  }

  /** A successful walk ends on `end` (eulerian.c:639). */
  lemma {:induction false} WalkLoopEnd(ns: seq<Node>, list: seq<nat>, prv: nat, pos: nat, end: nat, sub: seq<nat>)
    requires WellFormed(ns) && prv < |ns| && pos <= |ns[prv].adj|
    ensures var r := WalkLoop(ns, list, prv, pos, end, sub);
      r.ok ==> |r.sub| > |sub| && r.sub[|r.sub| - 1] == end
    decreases Sum(ns, Budget), |ns[prv].adj| - pos
  {
    if pos < |ns[prv].adj| {
      var e := ns[prv].adj[pos];
      if Eligible(ns, e) {
        var ns' := SetUsed(ns, prv, e.nbr);
        SetUsedShape(ns, prv, e.nbr);
        SetUsedBudget(ns, prv, e.nbr);
        BudgetNonneg(ns');
        var list' := ListAdd(ns', list, e.nbr);
        var sub' := sub + [e.nbr];
        if e.nbr != end {
          WalkLoopEnd(ns', list', e.nbr, 0, end, sub');
          assert WalkLoop(ns, list, prv, pos, end, sub) == WalkLoop(ns', list', e.nbr, 0, end, sub');
        } else {
          assert WalkLoop(ns, list, prv, pos, end, sub) == WalkResult(ns', list', sub', true);
        }
      } else {
        WalkLoopEnd(ns, list, prv, pos + 1, end, sub);
        assert WalkLoop(ns, list, prv, pos, end, sub) == WalkLoop(ns, list, prv, pos + 1, end, sub);
      }
    }
  }

  /**
   * The walk stops at its first arrival at `end` (eulerian.c:639): no node
   * after the start and before the last is `end`, and a failed walk never
   * reached it.
   */
  lemma {:induction false} WalkLoopFirstArrival(ns: seq<Node>, list: seq<nat>, prv: nat, pos: nat, end: nat, sub: seq<nat>)
    requires WellFormed(ns) && prv < |ns| && pos <= |ns[prv].adj|
    requires forall k :: 1 <= k < |sub| ==> sub[k] != end
    ensures var r := WalkLoop(ns, list, prv, pos, end, sub);
      (forall k :: 1 <= k < |r.sub| - 1 ==> r.sub[k] != end) &&
      (!r.ok ==> forall k :: 1 <= k < |r.sub| ==> r.sub[k] != end)
    decreases Sum(ns, Budget), |ns[prv].adj| - pos
  {
    if pos < |ns[prv].adj| {
      var e := ns[prv].adj[pos];
      if Eligible(ns, e) {
        var ns' := SetUsed(ns, prv, e.nbr);
        SetUsedShape(ns, prv, e.nbr);
        SetUsedBudget(ns, prv, e.nbr);
        BudgetNonneg(ns');
        var list' := ListAdd(ns', list, e.nbr);
        var sub' := sub + [e.nbr];
        if e.nbr != end {
          assert forall k :: 1 <= k < |sub'| ==> sub'[k] != end;
          WalkLoopFirstArrival(ns', list', e.nbr, 0, end, sub');
          assert WalkLoop(ns, list, prv, pos, end, sub) == WalkLoop(ns', list', e.nbr, 0, end, sub');
        } else {
          assert WalkLoop(ns, list, prv, pos, end, sub) == WalkResult(ns', list', sub', true);
        }
      } else {
        WalkLoopFirstArrival(ns, list, prv, pos + 1, end, sub);
        assert WalkLoop(ns, list, prv, pos, end, sub) == WalkLoop(ns, list, prv, pos + 1, end, sub);
      }
    }
  }

  /**
   * The candidate list only grows, keeps no duplicates, and gains only
   * nodes the walk passed through (eulerian.c:627, 638).
   */
  lemma {:induction false} WalkLoopList(ns: seq<Node>, list: seq<nat>, prv: nat, pos: nat, end: nat, sub: seq<nat>)
    requires WellFormed(ns) && prv < |ns| && pos <= |ns[prv].adj| && ListOk(|ns|, list)
    ensures var r := WalkLoop(ns, list, prv, pos, end, sub);
      list <= r.list && ListOk(|ns|, r.list) &&
      forall k :: |list| <= k < |r.list| ==> r.list[k] in r.sub
    decreases Sum(ns, Budget), |ns[prv].adj| - pos
  {
    if pos < |ns[prv].adj| {
      var e := ns[prv].adj[pos];
      if Eligible(ns, e) {
        var ns' := SetUsed(ns, prv, e.nbr);
        SetUsedShape(ns, prv, e.nbr);
        SetUsedBudget(ns, prv, e.nbr);
        BudgetNonneg(ns');
        var list' := ListAdd(ns', list, e.nbr);
        ListAddProps(ns', list, e.nbr);
        var sub' := sub + [e.nbr];
        assert e.nbr in sub';
        if e.nbr != end {
          WalkLoopList(ns', list', e.nbr, 0, end, sub');
          WalkLoopState(ns', list', e.nbr, 0, end, sub');
          var r := WalkLoop(ns', list', e.nbr, 0, end, sub');
          assert WalkLoop(ns, list, prv, pos, end, sub) == r;
          forall k | |list| <= k < |r.list| ensures r.list[k] in r.sub {
            if k < |list'| {
              assert r.list[k] == list'[k] == e.nbr;
              assert sub' <= r.sub;
            }
          }
        }
      } else {
        WalkLoopList(ns, list, prv, pos + 1, end, sub);
      }
    }
  }

  /** The first position from `pos` on whose entry the walk may take, if any. */
  function FirstEligible(ns: seq<Node>, prv: nat, pos: nat): (r: Option<nat>)
    requires WellFormed(ns) && prv < |ns| && pos <= |ns[prv].adj|
    ensures r.Some? ==> pos <= r.value < |ns[prv].adj| && Eligible(ns, ns[prv].adj[r.value])
    ensures r.Some? ==> forall k :: pos <= k < r.value ==> !Eligible(ns, ns[prv].adj[k])
    ensures r.None? <==> forall k :: pos <= k < |ns[prv].adj| ==> !Eligible(ns, ns[prv].adj[k])
    decreases |ns[prv].adj| - pos
  {
    if pos == |ns[prv].adj| then None
    else if Eligible(ns, ns[prv].adj[pos]) then Some(pos)
    else FirstEligible(ns, prv, pos + 1)
  }

  /**
   * The cursor of et_sub_circuit skips ineligible entries without touching
   * anything: the walk moves on along the first eligible entry in list
   * order, and is stuck, leaving everything as it was, when there is none.
   */
  lemma {:induction false} WalkTakesFirstEligible(ns: seq<Node>, list: seq<nat>, prv: nat, pos: nat, end: nat, sub: seq<nat>)
    requires WellFormed(ns) && prv < |ns| && pos <= |ns[prv].adj|
    ensures match FirstEligible(ns, prv, pos)
      case None => WalkLoop(ns, list, prv, pos, end, sub) == WalkResult(ns, list, sub, false)
      case Some(k) => WalkLoop(ns, list, prv, pos, end, sub) == WalkLoop(ns, list, prv, k, end, sub)
    decreases |ns[prv].adj| - pos
  {
    if pos < |ns[prv].adj| && !Eligible(ns, ns[prv].adj[pos]) {
      WalkTakesFirstEligible(ns, list, prv, pos + 1, end, sub);
    }
  }

  /**
   * et_sub_circuit(start, end): the result begins at start and follows
   * adjacency entries of the graph; when it succeeds it has at least one
   * step and stops at its first arrival at end, and when it is stuck it
   * never reached end.  The graph keeps its shape, every step takes two
   * from the total remaining degree, and the candidate list only gains
   * nodes the walk passed through, never a duplicate.
   */
  lemma SubCircuitProps(ns: seq<Node>, list: seq<nat>, start: nat, end: nat)
    requires WellFormed(ns) && start < |ns| && ListOk(|ns|, list)
    ensures var r := SubCircuit(ns, list, start, end);
      |r.sub| >= 1 && r.sub[0] == start && IsPath(ns, r.sub) &&
      (r.ok ==> |r.sub| >= 2 && r.sub[|r.sub| - 1] == end) &&
      (forall k :: 1 <= k < |r.sub| - 1 ==> r.sub[k] != end) &&
      (!r.ok ==> forall k :: 1 <= k < |r.sub| ==> r.sub[k] != end) &&
      SameShape(ns, r.nodes) && WellFormed(r.nodes) &&
      Sum(r.nodes, Edeg) == Sum(ns, Edeg) - 2 * (|r.sub| - 1) &&
      list <= r.list && ListOk(|ns|, r.list) &&
      (forall k :: |list| <= k < |r.list| ==> r.list[k] in r.sub)
  {
    var list' := if ns[start].edeg > 2 then ListAdd(ns, list, start) else list;
    if ns[start].edeg > 2 {
      ListAddProps(ns, list, start);
    }
    var r := SubCircuit(ns, list, start, end);
    assert r == WalkLoop(ns, list', start, 0, end, [start]);
    assert IsPath(ns, [start]);
    WalkLoopState(ns, list', start, 0, end, [start]);
    WalkLoopPath(ns, list', start, 0, end, [start]);
    WalkLoopEnd(ns, list', start, 0, end, [start]);
    WalkLoopFirstArrival(ns, list', start, 0, end, [start]);
    WalkLoopList(ns, list', start, 0, end, [start]);
    assert [start] <= r.sub;
    forall k | |list| <= k < |r.list| ensures r.list[k] in r.sub {
      if k < |list'| {
        assert r.list[k] == start == r.sub[0];
      }
    }
  }

  /** A candidate list without duplicates over n nodes holds at most n entries. */
  lemma ListOkBound(n: nat, list: seq<nat>)
    requires ListOk(n, list)
    ensures |list| <= n
  {
    var xs: seq<int> := list;
    var all: seq<int> := seq(n, i => i);
    assert NoDup(xs) && NoDup(all);
    NoDupCard(xs);
    NoDupCard(all);
    forall x | x in xs ensures x in all {
      assert all[x] == x;
    }
    var small := set x | x in xs;
    var big := set x | x in all;
    assert small <= big;
    assert big == small + (big - small);
    assert |big| == |small| + |big - small|;
  }
}
