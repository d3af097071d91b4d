/**
 * The trail assembler of eulerian.c: splicing a sub-circuit into the trail
 * (et_insert_sub_circuit), the completion test (et_is_trail) and the driver
 * loop over the candidate list (et_eulerian_trail), as functions over the
 * arena and the node sequences.
 */
module Assembly {
  import opened Wrappers
  import opened GraphModel
  import opened Scan
  import opened Walk

  /** The first position of node x in a trail, if any. */
  function FirstIndex(t: seq<nat>, x: nat): (r: Option<nat>)
    ensures r.Some? ==> r.value < |t| && t[r.value] == x
    ensures r.Some? ==> forall k :: 0 <= k < r.value ==> t[k] != x
    ensures r.None? <==> x !in t
  {
    if t == [] then None
    else if t[0] == x then Some(0)
    else match FirstIndex(t[1..], x)
      case None => None
      case Some(k) => Some(k + 1)
  }

  /**
   * et_insert_sub_circuit (eulerian.c:656-678): find the first occurrence
   * of the sub-circuit's root in the trail and put the rest of the
   * sub-circuit right after it; a root that does not occur leaves the trail
   * as it was.
   */
  function Splice(trail: seq<nat>, sub: seq<nat>): seq<nat>
    requires |sub| > 0
  {
    match FirstIndex(trail, sub[0])
    case None => trail
    case Some(i) => trail[..i + 1] + sub[1..] + trail[i + 1..]
  }

  /** The steps of a walk, each as the ordered pair of nodes it joins. */
  function Steps(p: seq<nat>): multiset<(nat, nat)>
  {
    if |p| < 2 then multiset{} else multiset{(p[0], p[1])} + Steps(p[1..])
  }

  /** Joining two walks adds the one step between them. */
  lemma {:induction false} StepsConcat(a: seq<nat>, b: seq<nat>)
    requires |a| > 0 && |b| > 0
    ensures Steps(a + b) == Steps(a) + multiset{(a[|a| - 1], b[0])} + Steps(b)
  {
    if |a| == 1 {
      assert (a + b)[1..] == b;
    } else {
      assert (a + b)[1..] == a[1..] + b;
      StepsConcat(a[1..], b);
    }
  }

  /**
   * Splicing a closed sub-circuit whose root occurs in the trail: the
   * trail grows by the sub-circuit's length less its root and traverses
   * exactly the steps of both.  A root that does not occur leaves the trail
   * unchanged.
   */
  lemma SpliceCounts(trail: seq<nat>, sub: seq<nat>)
    requires |sub| > 0 && sub[|sub| - 1] == sub[0]
    ensures var r := Splice(trail, sub);
      (sub[0] !in trail ==> r == trail) &&
      (sub[0] in trail ==> |r| == |trail| + |sub| - 1 && Steps(r) == Steps(trail) + Steps(sub))
  {
    match FirstIndex(trail, sub[0])
    case None =>
    case Some(i) =>
      if |sub| == 1 {
        SpliceRootOnly(trail, sub, i);
        assert Steps(sub) == multiset{};
      } else {
        SpliceSteps(trail, sub, i);
      }
  }

  /**
   * Splicing a closed sub-circuit keeps the trail a walk of the graph with
   * the same first and last node.
   */
  lemma SpliceProps(ns: seq<Node>, trail: seq<nat>, sub: seq<nat>)
    requires IsPath(ns, trail) && IsPath(ns, sub) && sub[|sub| - 1] == sub[0]
    ensures var r := Splice(trail, sub);
      IsPath(ns, r) && r[0] == trail[0] && r[|r| - 1] == trail[|trail| - 1]
  {
    match FirstIndex(trail, sub[0])
    case None =>
    case Some(i) =>
      if |sub| == 1 {
        SpliceRootOnly(trail, sub, i);
      } else {
        SpliceEnds(trail, sub, i);
        SplicePath(ns, trail, sub, i);
      }
  }

  /** A splice in the middle keeps the trail's first and last node. */
  lemma SpliceEnds(trail: seq<nat>, sub: seq<nat>, i: nat)
    requires |sub| > 1 && sub[|sub| - 1] == sub[0] && i < |trail| && trail[i] == sub[0]
    ensures var r := trail[..i + 1] + sub[1..] + trail[i + 1..];
      r[0] == trail[0] && r[|r| - 1] == trail[|trail| - 1]
  {
    var a, s, b := trail[..i + 1], sub[1..], trail[i + 1..];
    assert (a + s + b)[0] == a[0] == trail[0];
    if |b| > 0 {
      assert (a + s + b)[|a + s + b| - 1] == b[|b| - 1] == trail[|trail| - 1];
    } else {
      assert (a + s + b)[|a + s + b| - 1] == s[|s| - 1];
      assert a == trail;
      assert (a + s + b)[|a + s + b| - 1] == trail[|trail| - 1] by {
        assert s[|s| - 1] == sub[|sub| - 1];
      }
    }
  }

  /** Splicing a sub-circuit that is its root alone changes nothing. */
  lemma SpliceRootOnly(trail: seq<nat>, sub: seq<nat>, i: nat)
    requires |sub| == 1 && i < |trail|
    ensures trail[..i + 1] + sub[1..] + trail[i + 1..] == trail
  {
    assert sub[1..] == [];
  }

  /** The steps of a splice at position i are those of the trail and of the sub-circuit. */
  lemma SpliceSteps(trail: seq<nat>, sub: seq<nat>, i: nat)
    requires |sub| > 1 && sub[|sub| - 1] == sub[0] && i < |trail| && trail[i] == sub[0]
    ensures var r := trail[..i + 1] + sub[1..] + trail[i + 1..];
      |r| == |trail| + |sub| - 1 && Steps(r) == Steps(trail) + Steps(sub)
  {
    var a, s, b := trail[..i + 1], sub[1..], trail[i + 1..];
    assert trail == a + b;
    assert sub == [sub[0]] + s;
    StepsConcat([sub[0]], s);
    InsertSteps(a, s, b);
  }

  /** Inserting s after a, where s returns to a's last node, adds its steps. */
  lemma InsertSteps(a: seq<nat>, s: seq<nat>, b: seq<nat>)
    requires |a| > 0 && |s| > 0 && s[|s| - 1] == a[|a| - 1]
    ensures Steps(a + s + b) == Steps(a + b) + (multiset{(a[|a| - 1], s[0])} + Steps(s))
  {
    var x := a[|a| - 1];
    StepsConcat(a, s);
    if |b| > 0 {
      StepsConcat(a, b);
      assert (a + s)[|a + s| - 1] == x;
      StepsConcat(a + s, b);
      Shuffle(Steps(a), Steps(s), Steps(b), multiset{(x, s[0])}, multiset{(x, b[0])});
    } else {
      assert a + s + b == a + s && a + b == a;
    }
  }

  lemma Shuffle<T>(a: multiset<T>, s: multiset<T>, b: multiset<T>, p: multiset<T>, q: multiset<T>)
    ensures (a + p + s) + q + b == (a + q + b) + (p + s)
  {
  }

  /** The walk condition of a splice at position i, one junction at a time. */
  lemma SplicePath(ns: seq<Node>, trail: seq<nat>, sub: seq<nat>, i: nat)
    requires IsPath(ns, trail) && IsPath(ns, sub) && |sub| > 1 && sub[|sub| - 1] == sub[0]
    requires i < |trail| && trail[i] == sub[0]
    ensures IsPath(ns, trail[..i + 1] + sub[1..] + trail[i + 1..])
  {
    var r := trail[..i + 1] + sub[1..] + trail[i + 1..];
    var m := |sub| - 1;
    assert forall k :: 0 <= k <= i ==> r[k] == trail[k];
    assert forall k :: i < k <= i + m ==> r[k] == sub[k - i];
    assert forall k :: i + m < k < |r| ==> r[k] == trail[k - m];
    forall k | 0 <= k < |r| - 1 ensures r[k + 1] in Nbrs(ns[r[k]].adj) {
      if k < i {
        assert r[k] == trail[k] && r[k + 1] == trail[k + 1];
      } else if k < i + m {
        assert r[k] == sub[k - i] && r[k + 1] == sub[k + 1 - i];
      } else if k == i + m {
        assert r[k] == sub[m] == trail[i];
        assert r[k + 1] == trail[i + 1];
      } else {
        assert r[k] == trail[k - m] && r[k + 1] == trail[k + 1 - m];
      }
    }
  }

  /**
   * et_is_trail (eulerian.c:681-684): the trail is taken as complete once
   * its count reaches trail_nodes.
   */
  predicate Complete(trail: seq<nat>, trailNodes: int)
  {
    |trail| >= trailNodes
  }

  /**
   * With trail_nodes as et_is_connected sets it on a fully visited graph
   * read from an edge list, the completion test holds exactly when the
   * trail has at least as many steps as there are edges.
   */
  lemma CompletionMeansAllSteps(edges: seq<(int, int)>, trail: seq<nat>)
    ensures Complete(trail, Half(Sum(Build(edges), Degree)) + 1) <==> |trail| - 1 >= |edges|
  {
    BuildShape(edges);
    var total := Sum(Build(edges), Degree);
    assert total == 2 * |edges|;
    assert Half(total) == |edges|;
  }

  /** What et_eulerian_trail leaves behind: the arena, the candidate list and the trail. */
  datatype Assembled = Assembled(nodes: seq<Node>, list: seq<nat>, trail: seq<nat>)

  /**
   * The loop of et_eulerian_trail (eulerian.c:708-715) at candidate k:
   * stop once the trail is complete or the list is exhausted; otherwise
   * walk a sub-circuit from the candidate back to itself, splice it in when
   * the walk succeeded, and go on with the next candidate, including those
   * the walks have appended to the list meanwhile.
   */
  function Assemble(ns: seq<Node>, list: seq<nat>, trail: seq<nat>, trailNodes: int, k: nat): Assembled
    requires WellFormed(ns) && ListOk(|ns|, list) && k <= |list|
    decreases |ns| - k
  {
    ListOkBound(|ns|, list);
    if k == |list| || Complete(trail, trailNodes) then Assembled(ns, list, trail)
    else
      var s := Round(ns, list, trail, k);
      RoundShape(ns, list, trail, k);
      Assemble(s.nodes, s.list, s.trail, trailNodes, k + 1)
  }

  /**
   * One round of the candidate loop (eulerian.c:711-714): walk a
   * sub-circuit from candidate k back to itself and splice it in when the
   * walk succeeded.  The walk only flips used flags and remaining degrees,
   * and the candidate list only grows.
   */
  function Round(ns: seq<Node>, list: seq<nat>, trail: seq<nat>, k: nat): Assembled
    requires WellFormed(ns) && ListOk(|ns|, list) && k < |list|
  {
    var w := SubCircuit(ns, list, list[k], list[k]);
    SubCircuitProps(ns, list, list[k], list[k]);
    Assembled(w.nodes, w.list, if w.ok then Splice(trail, w.sub) else trail)
  }

  /** A round only flips used flags and remaining degrees, and only appends to the candidate list. */
  lemma RoundShape(ns: seq<Node>, list: seq<nat>, trail: seq<nat>, k: nat)
    requires WellFormed(ns) && ListOk(|ns|, list) && k < |list|
    ensures var r := Round(ns, list, trail, k);
      SameShape(ns, r.nodes) && WellFormed(r.nodes) && list <= r.list && ListOk(|r.nodes|, r.list)
  {
    SubCircuitProps(ns, list, list[k], list[k]);
  }

  /** The node the first walk starts from: the first node for a circuit, else the first odd node. */
  function FirstStart(circuit: bool, odd: seq<nat>): nat
    requires circuit || |odd| >= 2
  {
    if circuit then 0 else odd[0]
  }

  /** The node the first walk must reach: its start for a circuit, else the second odd node. */
  function FirstEnd(circuit: bool, odd: seq<nat>): nat
    requires circuit || |odd| >= 2
  {
    if circuit then 0 else odd[1]
  }

  /** The caller's side of et_eulerian_trail: a validated, non-empty graph with two odd nodes unless it is a circuit. */
  ghost predicate DriverReady(ns: seq<Node>, circuit: bool, odd: seq<nat>)
  {
    WellFormed(ns) && |ns| > 0 && (circuit || (|odd| >= 2 && odd[0] < |ns| && odd[1] < |ns|))
  }

  /**
   * et_eulerian_trail (eulerian.c:687-718) with an empty candidate list:
   * the first walk (a circuit from the first node, or a trail from the
   * first odd node to the second), then the candidate loop; the early
   * return on a complete first walk is the loop's own first test.
   */
  function EulerianTrail(ns: seq<Node>, circuit: bool, odd: seq<nat>, trailNodes: int): Assembled
    requires DriverReady(ns, circuit, odd)
    requires SubCircuit(ns, [], FirstStart(circuit, odd), FirstEnd(circuit, odd)).ok
  {
    var w := SubCircuit(ns, [], FirstStart(circuit, odd), FirstEnd(circuit, odd));
    SubCircuitProps(ns, [], FirstStart(circuit, odd), FirstEnd(circuit, odd));
    Assemble(w.nodes, w.list, w.sub, trailNodes, 0)
  }

  /**
   * The candidate loop keeps the graph's shape and the candidate list's
   * order and uniqueness; the trail stays a walk of the graph with the
   * same first and last node and only grows.
   */
  lemma AssembleProps(ns: seq<Node>, list: seq<nat>, trail: seq<nat>, trailNodes: int, k: nat)
    requires WellFormed(ns) && ListOk(|ns|, list) && k <= |list| && IsPath(ns, trail)
    ensures var r := Assemble(ns, list, trail, trailNodes, k);
      SameShape(ns, r.nodes) && WellFormed(r.nodes) && list <= r.list && ListOk(|ns|, r.list) &&
      IsPath(ns, r.trail) && r.trail[0] == trail[0] && r.trail[|r.trail| - 1] == trail[|trail| - 1] &&
      |r.trail| >= |trail|
  {
    AssembleShape(ns, list, trail, trailNodes, k);
    AssembleTrail(ns, list, trail, trailNodes, k);
  }

  /** The graph and candidate-list half of AssembleProps. */
  lemma {:induction false} AssembleShape(ns: seq<Node>, list: seq<nat>, trail: seq<nat>, trailNodes: int, k: nat)
    requires WellFormed(ns) && ListOk(|ns|, list) && k <= |list|
    ensures var r := Assemble(ns, list, trail, trailNodes, k);
      SameShape(ns, r.nodes) && WellFormed(r.nodes) && list <= r.list && ListOk(|ns|, r.list)
    decreases |ns| - k
  {
    ListOkBound(|ns|, list);
    if k < |list| && !Complete(trail, trailNodes) {
      var s := Round(ns, list, trail, k);
      RoundShape(ns, list, trail, k);
      AssembleShape(s.nodes, s.list, s.trail, trailNodes, k + 1);
      var r := Assemble(s.nodes, s.list, s.trail, trailNodes, k + 1);
      assert Assemble(ns, list, trail, trailNodes, k) == r;
      SameShapeTrans(ns, s.nodes, r.nodes);
    } else {
      assert Assemble(ns, list, trail, trailNodes, k) == Assembled(ns, list, trail);
    }
  }

  /** `t` is a walk of the graph from `trail`'s first node to its last, at least as long as `trail`. */
  ghost predicate Extends(ns: seq<Node>, trail: seq<nat>, t: seq<nat>)
  {
    IsPath(ns, t) && |trail| > 0 && t[0] == trail[0] && t[|t| - 1] == trail[|trail| - 1] && |t| >= |trail|
  }

  lemma ExtendsTrans(ns: seq<Node>, a: seq<nat>, b: seq<nat>, c: seq<nat>)
    requires Extends(ns, a, b) && Extends(ns, b, c)
    ensures Extends(ns, a, c)
  {
  }

  /** The trail half of AssembleProps. */
  lemma {:induction false} AssembleTrail(ns: seq<Node>, list: seq<nat>, trail: seq<nat>, trailNodes: int, k: nat)
    requires WellFormed(ns) && ListOk(|ns|, list) && k <= |list| && IsPath(ns, trail)
    ensures Extends(ns, trail, Assemble(ns, list, trail, trailNodes, k).trail)
    decreases |ns| - k, 1
  {
    ListOkBound(|ns|, list);
    if k < |list| && !Complete(trail, trailNodes) {
      AssembleTrailRound(ns, list, trail, trailNodes, k);
    } else {
      assert Assemble(ns, list, trail, trailNodes, k) == Assembled(ns, list, trail);
    }
  }

  /** AssembleTrail when the loop goes round once more. */
  lemma {:induction false} AssembleTrailRound(ns: seq<Node>, list: seq<nat>, trail: seq<nat>, trailNodes: int, k: nat)
    requires WellFormed(ns) && ListOk(|ns|, list) && k < |list| && IsPath(ns, trail)
    requires !Complete(trail, trailNodes)
    ensures Extends(ns, trail, Assemble(ns, list, trail, trailNodes, k).trail)
    decreases |ns| - k, 0
  {
    var s := Round(ns, list, trail, k);
    RoundFacts(ns, list, trail, trailNodes, k);
    ListOkBound(|s.nodes|, s.list);
    var r := Assemble(s.nodes, s.list, s.trail, trailNodes, k + 1);
    AssembleShape(s.nodes, s.list, s.trail, trailNodes, k + 1);
    AssembleTrail(s.nodes, s.list, s.trail, trailNodes, k + 1);
    PathSameShape(s.nodes, ns, r.trail);
    ExtendsTrans(ns, trail, s.trail, r.trail);
  }

  /** What the round lemmas say about one go of the loop, in the form the induction uses. */
  lemma RoundFacts(ns: seq<Node>, list: seq<nat>, trail: seq<nat>, trailNodes: int, k: nat)
    requires WellFormed(ns) && ListOk(|ns|, list) && k < |list| && IsPath(ns, trail)
    requires !Complete(trail, trailNodes)
    ensures var s := Round(ns, list, trail, k);
      SameShape(ns, s.nodes) && WellFormed(s.nodes) && ListOk(|s.nodes|, s.list) && k < |s.list| &&
      IsPath(s.nodes, s.trail) && Extends(ns, trail, s.trail) &&
      Assemble(ns, list, trail, trailNodes, k) == Assemble(s.nodes, s.list, s.trail, trailNodes, k + 1)
  {
    var s := Round(ns, list, trail, k);
    RoundShape(ns, list, trail, k);
    RoundPath(ns, list, trail, k);
    PathSameShape(s.nodes, ns, s.trail);
  }

  /** A round keeps the trail a walk of the graph with the same two ends, and never shortens it. */
  lemma RoundPath(ns: seq<Node>, list: seq<nat>, trail: seq<nat>, k: nat)
    requires WellFormed(ns) && ListOk(|ns|, list) && k < |list| && IsPath(ns, trail)
    ensures Extends(Round(ns, list, trail, k).nodes, trail, Round(ns, list, trail, k).trail)
  {
    var w := SubCircuit(ns, list, list[k], list[k]);
    SubCircuitProps(ns, list, list[k], list[k]);
    PathSameShape(ns, w.nodes, trail);
    if w.ok {
      PathSameShape(ns, w.nodes, w.sub);
      SpliceProps(w.nodes, trail, w.sub);
      SpliceCounts(trail, w.sub);
    }
  }

  /**
   * What et_eulerian_trail returns when its first walk succeeds: a walk of
   * the graph with at least one step, from the first node back to it for a
   * circuit, or from the first odd node to the second; the graph keeps its
   * shape.
   */
  lemma EulerianTrailProps(ns: seq<Node>, circuit: bool, odd: seq<nat>, trailNodes: int)
    requires DriverReady(ns, circuit, odd)
    requires SubCircuit(ns, [], FirstStart(circuit, odd), FirstEnd(circuit, odd)).ok
    ensures var r := EulerianTrail(ns, circuit, odd, trailNodes);
      IsPath(ns, r.trail) && |r.trail| >= 2 &&
      r.trail[0] == FirstStart(circuit, odd) && r.trail[|r.trail| - 1] == FirstEnd(circuit, odd) &&
      SameShape(ns, r.nodes) && ListOk(|ns|, r.list)
  {
    var w := SubCircuit(ns, [], FirstStart(circuit, odd), FirstEnd(circuit, odd));
    FirstWalkProps(ns, circuit, odd);
    var r := Assemble(w.nodes, w.list, w.sub, trailNodes, 0);
    assert EulerianTrail(ns, circuit, odd, trailNodes) == r;
    AssembleShape(w.nodes, w.list, w.sub, trailNodes, 0);
    SameShapeTrans(ns, w.nodes, r.nodes);
    assert Extends(ns, w.sub, r.trail) by {
      AssembleTrail(w.nodes, w.list, w.sub, trailNodes, 0);
      PathSameShape(w.nodes, ns, r.trail);
    }
  }

  /** The first walk of et_eulerian_trail, when it succeeds, is a walk between the two chosen ends. */
  lemma FirstWalkProps(ns: seq<Node>, circuit: bool, odd: seq<nat>)
    requires DriverReady(ns, circuit, odd)
    ensures var w := SubCircuit(ns, [], FirstStart(circuit, odd), FirstEnd(circuit, odd));
      SameShape(ns, w.nodes) && WellFormed(w.nodes) && ListOk(|w.nodes|, w.list) &&
      IsPath(w.nodes, w.sub) && w.sub[0] == FirstStart(circuit, odd) &&
      (w.ok ==> |w.sub| >= 2 && w.sub[|w.sub| - 1] == FirstEnd(circuit, odd))
  {
    var w := SubCircuit(ns, [], FirstStart(circuit, odd), FirstEnd(circuit, odd));
    SubCircuitProps(ns, [], FirstStart(circuit, odd), FirstEnd(circuit, odd));
    PathSameShape(ns, w.nodes, w.sub);
  }
}
