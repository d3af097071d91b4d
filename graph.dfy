/**
 * The graph of eulerian.c: an arena of nodes in order of first appearance,
 * each with its degree, its remaining degree, its visited flag and its
 * ordered adjacency list.  Pointers to nodes become arena indices.
 */
module GraphModel {
  import opened Wrappers

  /** An adjacency entry: the arena index of the neighbour and the "used" flag. */
  datatype Adj = Adj(nbr: nat, used: bool)

  /** A node: caller-supplied id, degree, remaining (unused) degree, visited flag, adjacency list. */
  datatype Node = Node(id: int, deg: int, edeg: int, vst: bool, adj: seq<Adj>)

  /** A node as et_add_edge creates it. */
  function NewNode(id: int): Node
  {
    Node(id, 0, 0, false, [])
  }

  /** The ids of the node list, in node-list order. */
  function Ids(ns: seq<Node>): seq<int>
  {
    seq(|ns|, i requires 0 <= i < |ns| => ns[i].id)
  }

  /** The neighbour indices of an adjacency list, in list order. */
  function Nbrs(adj: seq<Adj>): seq<nat>
  {
    seq(|adj|, k requires 0 <= k < |adj| => adj[k].nbr)
  }

  /** No two nodes share an id. */
  ghost predicate DistinctIds(ns: seq<Node>)
  {
    forall i, j :: 0 <= i < |ns| && 0 <= j < |ns| && i != j ==> ns[i].id != ns[j].id
  }

  /** Every adjacency entry names a node of the arena. */
  ghost predicate WellFormed(ns: seq<Node>)
  {
    forall i, k :: 0 <= i < |ns| && 0 <= k < |ns[i].adj| ==> ns[i].adj[k].nbr < |ns|
  }

  /** No adjacency entry is marked used. */
  ghost predicate NoneUsed(ns: seq<Node>)
  {
    forall i, k :: 0 <= i < |ns| && 0 <= k < |ns[i].adj| ==> !ns[i].adj[k].used
  }

  /** Two arenas with the same ids, degrees, visited flags and neighbour lists (used flags and remaining degrees may differ). */
  ghost predicate SameShape(a: seq<Node>, b: seq<Node>)
  {
    |a| == |b| &&
    forall i :: 0 <= i < |a| ==>
      a[i].id == b[i].id && a[i].deg == b[i].deg && a[i].vst == b[i].vst && Nbrs(a[i].adj) == Nbrs(b[i].adj)
  }

  /** Sum of a weight over the arena. */
  function Sum(ns: seq<Node>, f: Node -> int): int
  {
    if ns == [] then 0 else Sum(ns[..|ns| - 1], f) + f(ns[|ns| - 1])
  }

  /** Number of nodes satisfying a property. */
  function Count(ns: seq<Node>, p: Node -> bool): nat
  {
    if ns == [] then 0 else Count(ns[..|ns| - 1], p) + (if p(ns[|ns| - 1]) then 1 else 0)
  }

  lemma {:induction false} SumUpdate(ns: seq<Node>, i: nat, n: Node, f: Node -> int)
    requires i < |ns|
    ensures Sum(ns[i := n], f) == Sum(ns, f) - f(ns[i]) + f(n)
  {
    var last := |ns| - 1;
    if i < last {
      assert ns[i := n][..last] == ns[..last][i := n];
      SumUpdate(ns[..last], i, n, f);
    } else {
      assert ns[i := n][..last] == ns[..last];
    }
  }

  lemma {:induction false} CountUpdate(ns: seq<Node>, i: nat, n: Node, p: Node -> bool)
    requires i < |ns|
    ensures Count(ns[i := n], p) == Count(ns, p) - (if p(ns[i]) then 1 else 0) + (if p(n) then 1 else 0)
  {
    var last := |ns| - 1;
    if i < last {
      assert ns[i := n][..last] == ns[..last][i := n];
      CountUpdate(ns[..last], i, n, p);
    } else {
      assert ns[i := n][..last] == ns[..last];
    }
  }

  lemma SumAppend(ns: seq<Node>, n: Node, f: Node -> int)
    ensures Sum(ns + [n], f) == Sum(ns, f) + f(n)
  {
    assert (ns + [n])[..|ns|] == ns;
  }

  lemma CountAppend(ns: seq<Node>, n: Node, p: Node -> bool)
    ensures Count(ns + [n], p) == Count(ns, p) + (if p(n) then 1 else 0)
  {
    assert (ns + [n])[..|ns|] == ns;
  }

  /** A count is the number of arena positions whose node satisfies the property. */
  lemma {:induction false} CountAll(ns: seq<Node>, p: Node -> bool)
    ensures Count(ns, p) == |ns| <==> forall i :: 0 <= i < |ns| ==> p(ns[i])
  {
    if ns != [] {
      var last := |ns| - 1;
      CountAll(ns[..last], p);
      assert Count(ns[..last], p) <= last by { CountBound(ns[..last], p); }
      if forall i :: 0 <= i < |ns| ==> p(ns[i]) {
        assert forall i :: 0 <= i < last ==> p(ns[..last][i]);
      }
    }
  }

  lemma {:induction false} CountBound(ns: seq<Node>, p: Node -> bool)
    ensures Count(ns, p) <= |ns|
  {
    if ns != [] {
      CountBound(ns[..|ns| - 1], p);
    }
  }

  /**
   * et_get_node (eulerian.c:210-221): the first node in list order
   * whose id is `id`, or None.
   */
  function Lookup(ns: seq<Node>, id: int): (r: Option<nat>)
    ensures r.Some? ==> r.value < |ns| && ns[r.value].id == id
    ensures r.Some? ==> forall k :: 0 <= k < r.value ==> ns[k].id != id
    ensures r.None? <==> forall k :: 0 <= k < |ns| ==> ns[k].id != id
  {
    if ns == [] then None
    else if ns[0].id == id then Some(0)
    else match Lookup(ns[1..], id)
      case None => None
      case Some(k) => Some(k + 1)
  }

  /** Looking a present id up in a longer arena finds the same node. */
  lemma LookupAppend(ns: seq<Node>, n: Node, id: int)
    ensures Lookup(ns + [n], id) ==
      if Lookup(ns, id).Some? then Lookup(ns, id)
      else if n.id == id then Some(|ns|) else None
  {
    var r := Lookup(ns + [n], id);
    var s := Lookup(ns, id);
    if s.Some? {
      assert (ns + [n])[s.value].id == id;
    } else if n.id == id {
      assert (ns + [n])[|ns|].id == id;
    } else {
      assert forall k :: 0 <= k < |ns| + 1 ==> (ns + [n])[k].id != id by {
        forall k | 0 <= k < |ns| + 1 ensures (ns + [n])[k].id != id {
          if k < |ns| { assert (ns + [n])[k] == ns[k]; }
        }
      }
    }
  }

  /** In an arena with distinct ids, a node's own id finds it. */
  lemma LookupDistinct(ns: seq<Node>, i: nat)
    requires DistinctIds(ns) && i < |ns|
    ensures Lookup(ns, ns[i].id) == Some(i)
  {
    var r := Lookup(ns, ns[i].id);
    assert ns[i].id == ns[i].id;
  }

  /** The node-creation step of et_add_edge: create a node for `id` unless one exists. */
  function EnsureNode(ns: seq<Node>, id: int): seq<Node>
  {
    if Lookup(ns, id).None? then ns + [NewNode(id)] else ns
  }

  /** et_add_adj (eulerian.c:244-263): append an unused entry naming `j` and raise the degree by one. */
  function AppendAdj(n: Node, j: nat): Node
  {
    n.(adj := n.adj + [Adj(j, false)], deg := n.deg + 1)
  }

  /**
   * et_add_edge (eulerian.c:266-374): create missing endpoints (n1 first),
   * then append one entry to each endpoint, or a single self-entry and a
   * degree rise of two for a self-loop.
   */
  function AddEdge(ns: seq<Node>, n1: int, n2: int): seq<Node>
  {
    var ns2 := Grown(ns, n1, n2);
    GrownFinds(ns, n1, n2);
    var i := Lookup(ns2, n1).value;
    var j := Lookup(ns2, n2).value;
    if n1 == n2 then ns2[i := AppendAdj(ns2[i].(deg := ns2[i].deg + 1), i)]
    else ns2[i := AppendAdj(ns2[i], j)][j := AppendAdj(ns2[j], i)]
  }

  /** The arena after et_add_edge has created its missing endpoints. */
  function Grown(ns: seq<Node>, n1: int, n2: int): seq<Node>
  {
    var ns1 := EnsureNode(ns, n1);
    if n1 == n2 then ns1 else EnsureNode(ns1, n2)
  }

  lemma GrownFinds(ns: seq<Node>, n1: int, n2: int)
    ensures var ns2 := Grown(ns, n1, n2);
      Lookup(ns2, n1).Some? && Lookup(ns2, n2).Some? && ns <= ns2 && |ns2| <= |ns| + 2 &&
      forall k :: |ns| <= k < |ns2| ==> ns2[k] == NewNode(ns2[k].id)
  {
    var ns1 := EnsureNode(ns, n1);
    EnsureNodeFinds(ns, n1, n1);
    if n1 != n2 {
      EnsureNodeFinds(ns1, n2, n2);
      EnsureNodeFinds(ns1, n2, n1);
      var ns2 := EnsureNode(ns1, n2);
      forall k | |ns| <= k < |ns2| ensures ns2[k] == NewNode(ns2[k].id) {
        if k < |ns1| { assert ns2[k] == ns1[k]; }
      }
    }
  }

  /** EnsureNode finds `id` afterwards, keeps what `other` found, and appends at most a fresh node. */
  lemma EnsureNodeFinds(ns: seq<Node>, id: int, other: int)
    ensures var r := EnsureNode(ns, id);
      Lookup(r, id).Some? && (Lookup(ns, other).Some? ==> Lookup(r, other) == Lookup(ns, other)) &&
      ns <= r && |r| <= |ns| + 1 && forall k :: |ns| <= k < |r| ==> r[k] == NewNode(r[k].id)
  {
    if Lookup(ns, id).None? {
      LookupAppend(ns, NewNode(id), id);
      LookupAppend(ns, NewNode(id), other);
    }
  }

  lemma AddEdgeIdsKept(ns: seq<Node>, n1: int, n2: int)
    ensures Ids(AddEdge(ns, n1, n2)) == Ids(Grown(ns, n1, n2))
  {
    var r, ns2 := AddEdge(ns, n1, n2), Grown(ns, n1, n2);
    GrownFinds(ns, n1, n2);
    assert |r| == |ns2|;
    forall k | 0 <= k < |r| ensures Ids(r)[k] == Ids(ns2)[k] {
      assert r[k].id == ns2[k].id;
    }
  }

  /** The graph et_build_graph builds from its edge list, edge by edge. */
  function Build(edges: seq<(int, int)>): seq<Node>
  {
    if edges == [] then []
    else AddEdge(Build(edges[..|edges| - 1]), edges[|edges| - 1].0, edges[|edges| - 1].1)
  }

  /** A node is unvisited with no remaining degree recorded, as et_add_edge leaves every node. */
  ghost predicate Unscanned(ns: seq<Node>)
  {
    forall i :: 0 <= i < |ns| ==> !ns[i].vst && ns[i].edeg == 0
  }

  /** The node a position of `r` held in `ns`, or a new node if `r` created it. */
  function Prior(ns: seq<Node>, r: seq<Node>, k: nat): Node
    requires k < |r|
  {
    if k < |ns| then ns[k] else NewNode(r[k].id)
  }

  function Degree(n: Node): int { n.deg }

  /** Record `x` in an id list unless already present: the order of first appearance. */
  function Note(ids: seq<int>, x: int): seq<int>
  {
    if x in ids then ids else ids + [x]
  }

  lemma LookupIds(x: seq<Node>, y: seq<Node>, id: int)
    requires Ids(x) == Ids(y)
    ensures Lookup(x, id) == Lookup(y, id)
  {
    assert |x| == |Ids(x)| == |Ids(y)| == |y|;
    assert forall k :: 0 <= k < |x| ==> x[k].id == Ids(x)[k] == Ids(y)[k] == y[k].id;
  }

  lemma LookupIn(ns: seq<Node>, id: int)
    ensures Lookup(ns, id).None? <==> id !in Ids(ns)
  {
    if id in Ids(ns) {
      var k :| 0 <= k < |Ids(ns)| && Ids(ns)[k] == id;
      assert ns[k].id == id;
    } else {
      forall k | 0 <= k < |ns| ensures ns[k].id != id { assert Ids(ns)[k] == ns[k].id; }
    }
  }

  lemma EnsureNodeIds(ns: seq<Node>, id: int)
    ensures Ids(EnsureNode(ns, id)) == Note(Ids(ns), id)
  {
    LookupIn(ns, id);
    if id !in Ids(ns) {
      assert Ids(ns + [NewNode(id)]) == Ids(ns) + [id];
    }
  }

  /** No id occurs twice in an id list. */
  ghost predicate NoDup(s: seq<int>)
  {
    forall i, j :: 0 <= i < j < |s| ==> s[i] != s[j]
  }

  lemma DistinctIdsNoDup(ns: seq<Node>)
    ensures DistinctIds(ns) <==> NoDup(Ids(ns))
  {
    var ids := Ids(ns);
    if NoDup(ids) {
      forall i, j | 0 <= i < |ns| && 0 <= j < |ns| && i != j ensures ns[i].id != ns[j].id {
        if i < j { assert ids[i] != ids[j]; } else { assert ids[j] != ids[i]; }
      }
    }
    if DistinctIds(ns) {
      forall i, j | 0 <= i < j < |ids| ensures ids[i] != ids[j] {
        assert ns[i].id != ns[j].id;
      }
    }
  }

  lemma NoteNoDup(ids: seq<int>, x: int)
    requires NoDup(ids)
    ensures NoDup(Note(ids, x)) && x in Note(ids, x)
  {
  }

  /**
   * Node creation is idempotent by id: et_add_edge adds n1, then n2, to the
   * node list exactly when no node has that id yet, so the ids stay distinct
   * and keep their order of first appearance.
   */
  lemma {:induction false} AddEdgeIds(ns: seq<Node>, n1: int, n2: int)
    requires DistinctIds(ns)
    ensures Ids(AddEdge(ns, n1, n2)) == Note(Note(Ids(ns), n1), n2)
    ensures DistinctIds(AddEdge(ns, n1, n2))
  {
    var ns1 := EnsureNode(ns, n1);
    EnsureNodeIds(ns, n1);
    EnsureNodeIds(ns1, n2);
    AddEdgeIdsKept(ns, n1, n2);
    var once := Note(Ids(ns), n1);
    DistinctIdsNoDup(ns);
    NoteNoDup(Ids(ns), n1);
    NoteNoDup(once, n2);
    assert Note(once, n1) == once;
    DistinctIdsNoDup(AddEdge(ns, n1, n2));
  }

  /**
   * The entries et_add_edge appends: for n1 != n2 one entry naming n2 at
   * the end of n1's list and one naming n1 at the end of n2's list, each
   * degree up by one; for a self-loop a single self-entry and the degree
   * up by two.  No new entry is used and every other node is unchanged.
   */
  lemma AddEdgeEntries(ns: seq<Node>, n1: int, n2: int)
    ensures var r := AddEdge(ns, n1, n2);
      Lookup(r, n1).Some? && Lookup(r, n2).Some? &&
      var i, j := Lookup(r, n1).value, Lookup(r, n2).value;
      (n1 == n2 <==> i == j) &&
      (forall k :: 0 <= k < |r| && k != i && k != j ==> r[k] == Prior(ns, r, k)) &&
      (n1 != n2 ==>
        r[i] == Prior(ns, r, i).(adj := Prior(ns, r, i).adj + [Adj(j, false)], deg := Prior(ns, r, i).deg + 1) &&
        r[j] == Prior(ns, r, j).(adj := Prior(ns, r, j).adj + [Adj(i, false)], deg := Prior(ns, r, j).deg + 1)) &&
      (n1 == n2 ==>
        r[i] == Prior(ns, r, i).(adj := Prior(ns, r, i).adj + [Adj(i, false)], deg := Prior(ns, r, i).deg + 2))
  {
    var ns2, r := Grown(ns, n1, n2), AddEdge(ns, n1, n2);
    AddEdgeLookups(ns, n1, n2);
    GrownPrior(ns, n1, n2);
    if n1 == n2 {
      AddEdgeLoopEntry(ns, n1);
      var i := Lookup(ns2, n1).value;
      PriorExtended(ns, ns2, r, i, i, i, 2);
    } else {
      AddEdgePairEntries(ns, n1, n2);
      var i, j := Lookup(ns2, n1).value, Lookup(ns2, n2).value;
      PriorExtended(ns, ns2, r, i, j, j, 1);
      PriorExtended(ns, ns2, r, j, i, i, 1);
    }
  }

  /** Node `n` with one more unused entry naming `j` and its degree raised by `d`. */
  function Extended(n: Node, j: nat, d: int): Node
  {
    n.(adj := n.adj + [Adj(j, false)], deg := n.deg + d)
  }

  /** Reading a position of `r` that holds an extended node in terms of its prior node. */
  lemma PriorExtended(ns: seq<Node>, ns2: seq<Node>, r: seq<Node>, i: nat, j: nat, other: nat, d: int)
    requires |r| == |ns2| && i < |r| && forall k :: 0 <= k < |r| ==> Prior(ns, r, k) == ns2[k]
    requires r[i] == Extended(ns2[i], j, d)
    ensures r[i] == Prior(ns, r, i).(adj := Prior(ns, r, i).adj + [Adj(j, false)], deg := Prior(ns, r, i).deg + d)
  {
  }

  /** The endpoints are found at the same positions before and after the entries are appended. */
  lemma AddEdgeLookups(ns: seq<Node>, n1: int, n2: int)
    ensures var r, ns2 := AddEdge(ns, n1, n2), Grown(ns, n1, n2);
      Lookup(ns2, n1).Some? && Lookup(ns2, n2).Some? &&
      Lookup(r, n1) == Lookup(ns2, n1) && Lookup(r, n2) == Lookup(ns2, n2)
  {
    var ns2 := Grown(ns, n1, n2);
    var r := AddEdge(ns, n1, n2);
    GrownFinds(ns, n1, n2);
    AddEdgeIdsKept(ns, n1, n2);
    LookupIds(r, ns2, n1);
    LookupIds(r, ns2, n2);
  }

  lemma AddEdgeLoopEntry(ns: seq<Node>, n: int)
    ensures var ns2 := Grown(ns, n, n);
      Lookup(ns2, n).Some? &&
      var i := Lookup(ns2, n).value;
      AddEdge(ns, n, n) == ns2[i := Extended(ns2[i], i, 2)]
  {
    GrownFinds(ns, n, n);
    var ns2 := Grown(ns, n, n);
    var i := Lookup(ns2, n).value;
    assert AppendAdj(ns2[i].(deg := ns2[i].deg + 1), i) == Extended(ns2[i], i, 2);
  }

  lemma AddEdgePairEntries(ns: seq<Node>, n1: int, n2: int)
    requires n1 != n2
    ensures var ns2 := Grown(ns, n1, n2);
      Lookup(ns2, n1).Some? && Lookup(ns2, n2).Some? &&
      var i, j := Lookup(ns2, n1).value, Lookup(ns2, n2).value;
      i != j &&
      AddEdge(ns, n1, n2) == ns2[i := Extended(ns2[i], j, 1)][j := Extended(ns2[j], i, 1)]
  {
    GrownFinds(ns, n1, n2);
  }

  /** Before the entries are appended, each position of the result holds its prior node. */
  lemma GrownPrior(ns: seq<Node>, n1: int, n2: int)
    ensures var r, ns2 := AddEdge(ns, n1, n2), Grown(ns, n1, n2);
      |r| == |ns2| && forall k :: 0 <= k < |r| ==> Prior(ns, r, k) == ns2[k]
  {
    var r, ns2 := AddEdge(ns, n1, n2), Grown(ns, n1, n2);
    GrownFinds(ns, n1, n2);
    AddEdgeIdsKept(ns, n1, n2);
    assert |r| == |Ids(r)| == |Ids(ns2)| == |ns2|;
    forall k | 0 <= k < |r| ensures Prior(ns, r, k) == ns2[k] {
      if k >= |ns| {
        assert r[k].id == Ids(r)[k] == Ids(ns2)[k] == ns2[k].id;
      }
    }
  }

  /** Each edge adds two to the sum of the degrees (the handshake count). */
  lemma AddEdgeDegreeSum(ns: seq<Node>, n1: int, n2: int)
    ensures Sum(AddEdge(ns, n1, n2), Degree) == Sum(ns, Degree) + 2
  {
    var ns2 := Grown(ns, n1, n2);
    GrownDegreeSum(ns, n1, n2);
    if n1 == n2 {
      AddEdgeLoopEntry(ns, n1);
      var i := Lookup(ns2, n1).value;
      SumUpdate(ns2, i, Extended(ns2[i], i, 2), Degree);
    } else {
      AddEdgePairEntries(ns, n1, n2);
      var i, j := Lookup(ns2, n1).value, Lookup(ns2, n2).value;
      var m := ns2[i := Extended(ns2[i], j, 1)];
      SumUpdate(ns2, i, Extended(ns2[i], j, 1), Degree);
      SumUpdate(m, j, Extended(ns2[j], i, 1), Degree);
    }
  }

  /** Creating the endpoints adds only nodes of degree zero. */
  lemma GrownDegreeSum(ns: seq<Node>, n1: int, n2: int)
    ensures Sum(Grown(ns, n1, n2), Degree) == Sum(ns, Degree)
  {
    var ns1 := EnsureNode(ns, n1);
    SumAppend(ns, NewNode(n1), Degree);
    assert Sum(ns1, Degree) == Sum(ns, Degree);
    SumAppend(ns1, NewNode(n2), Degree);
  }

  /** et_add_edge keeps every entry in range and adds at most two nodes. */
  lemma AddEdgeKeeps(ns: seq<Node>, n1: int, n2: int)
    requires WellFormed(ns)
    ensures var r := AddEdge(ns, n1, n2);
      WellFormed(r) && |ns| <= |r| <= |ns| + 2
  {
    var ns2 := Grown(ns, n1, n2);
    GrownFinds(ns, n1, n2);
    assert WellFormed(ns2) by {
      forall k, m | 0 <= k < |ns2| && 0 <= m < |ns2[k].adj| ensures ns2[k].adj[m].nbr < |ns2| {
        assert k < |ns| && ns2[k] == ns[k];
      }
    }
    if n1 == n2 {
      AddEdgeLoopEntry(ns, n1);
      var i := Lookup(ns2, n1).value;
      ExtendedWellFormed(ns2, i, i, 2);
    } else {
      AddEdgePairEntries(ns, n1, n2);
      var i, j := Lookup(ns2, n1).value, Lookup(ns2, n2).value;
      ExtendedWellFormed(ns2, i, j, 1);
      ExtendedWellFormed(ns2[i := Extended(ns2[i], j, 1)], j, i, 1);
    }
  }

  lemma ExtendedWellFormed(ns: seq<Node>, i: nat, j: nat, d: int)
    requires WellFormed(ns) && i < |ns| && j < |ns|
    ensures WellFormed(ns[i := Extended(ns[i], j, d)])
  {
    var r := ns[i := Extended(ns[i], j, d)];
    forall k, m | 0 <= k < |r| && 0 <= m < |r[k].adj| ensures r[k].adj[m].nbr < |r| {
      if k == i && m < |ns[i].adj| {
        assert r[k].adj[m] == ns[i].adj[m];
      }
    }
  }

  /** et_add_edge leaves no entry used and no node scanned when it found none. */
  lemma AddEdgeFresh(ns: seq<Node>, n1: int, n2: int)
    requires NoneUsed(ns) && Unscanned(ns)
    ensures var r := AddEdge(ns, n1, n2);
      NoneUsed(r) && Unscanned(r)
  {
    var ns2 := Grown(ns, n1, n2);
    GrownFinds(ns, n1, n2);
    assert NoneUsed(ns2) by {
      forall k, m | 0 <= k < |ns2| && 0 <= m < |ns2[k].adj| ensures !ns2[k].adj[m].used {
        assert k < |ns| && ns2[k] == ns[k];
      }
    }
    assert Unscanned(ns2) by {
      forall k | 0 <= k < |ns2| ensures !ns2[k].vst && ns2[k].edeg == 0 {
        if k < |ns| { assert ns2[k] == ns[k]; }
      }
    }
    if n1 == n2 {
      AddEdgeLoopEntry(ns, n1);
      var i := Lookup(ns2, n1).value;
      ExtendedFresh(ns2, i, i, 2);
    } else {
      AddEdgePairEntries(ns, n1, n2);
      var i, j := Lookup(ns2, n1).value, Lookup(ns2, n2).value;
      ExtendedFresh(ns2, i, j, 1);
      ExtendedFresh(ns2[i := Extended(ns2[i], j, 1)], j, i, 1);
    }
  }

  lemma ExtendedFresh(ns: seq<Node>, i: nat, j: nat, d: int)
    requires NoneUsed(ns) && Unscanned(ns) && i < |ns|
    ensures NoneUsed(ns[i := Extended(ns[i], j, d)]) && Unscanned(ns[i := Extended(ns[i], j, d)])
  {
    var r := ns[i := Extended(ns[i], j, d)];
    forall k, m | 0 <= k < |r| && 0 <= m < |r[k].adj| ensures !r[k].adj[m].used {
      if k == i && m < |ns[i].adj| {
        assert r[k].adj[m] == ns[i].adj[m];
      }
    }
  }

  /** The node ids named by an edge list, endpoint by endpoint, in reading order. */
  function Endpoints(edges: seq<(int, int)>): seq<int>
  {
    if edges == [] then [] else Endpoints(edges[..|edges| - 1]) + [edges[|edges| - 1].0, edges[|edges| - 1].1]
  }

  /** The distinct ids of a list in order of first appearance. */
  function FirstAppearance(xs: seq<int>): seq<int>
  {
    if xs == [] then [] else Note(FirstAppearance(xs[..|xs| - 1]), xs[|xs| - 1])
  }

  /** A first-appearance list holds every id once, and nothing else. */
  lemma {:induction false} FirstAppearanceProps(xs: seq<int>)
    ensures NoDup(FirstAppearance(xs))
    ensures forall x :: x in FirstAppearance(xs) <==> x in xs
  {
    if xs != [] {
      var pre := xs[..|xs| - 1];
      FirstAppearanceProps(pre);
      NoteNoDup(FirstAppearance(pre), xs[|xs| - 1]);
      assert xs == pre + [xs[|xs| - 1]];
    }
  }

  /** A list without duplicates is as long as its set of elements is large. */
  lemma {:induction false} NoDupCard(xs: seq<int>)
    requires NoDup(xs)
    ensures |set x | x in xs| == |xs|
  {
    if xs != [] {
      var pre := xs[..|xs| - 1];
      NoDupCard(pre);
      assert xs == pre + [xs[|xs| - 1]];
      assert (set x | x in xs) == (set x | x in pre) + {xs[|xs| - 1]};
    }
  }

  /**
   * The graph built from an edge list has one node per distinct id, in order
   * of first appearance.
   */
  lemma {:induction false} BuildIds(edges: seq<(int, int)>)
    ensures Ids(Build(edges)) == FirstAppearance(Endpoints(edges)) && DistinctIds(Build(edges))
  {
    if edges != [] {
      var pre := edges[..|edges| - 1];
      var e := edges[|edges| - 1];
      BuildIds(pre);
      assert Build(edges) == AddEdge(Build(pre), e.0, e.1);
      AddEdgeIds(Build(pre), e.0, e.1);
      FirstAppearanceStep(Endpoints(pre), e.0, e.1);
      assert Endpoints(edges) == Endpoints(pre) + [e.0, e.1];
    }
  }

  lemma FirstAppearanceStep(ys: seq<int>, a: int, b: int)
    ensures FirstAppearance(ys + [a, b]) == Note(Note(FirstAppearance(ys), a), b)
  {
    assert (ys + [a, b])[..|ys| + 1] == ys + [a];
    assert (ys + [a])[..|ys|] == ys;
  }

  /**
   * The built graph has its entries in range and unused, is unscanned, and
   * its degrees sum to twice the number of edges.
   */
  lemma {:induction false} BuildShape(edges: seq<(int, int)>)
    ensures var g := Build(edges);
      WellFormed(g) && NoneUsed(g) && Unscanned(g) && Sum(g, Degree) == 2 * |edges|
  {
    if edges != [] {
      var pre := edges[..|edges| - 1];
      var e := edges[|edges| - 1];
      BuildShape(pre);
      AddEdgeKeeps(Build(pre), e.0, e.1);
      AddEdgeFresh(Build(pre), e.0, e.1);
      AddEdgeDegreeSum(Build(pre), e.0, e.1);
    }
  }

  lemma FirstAppearanceCard(xs: seq<int>)
    ensures |FirstAppearance(xs)| == |set x | x in xs|
  {
    FirstAppearanceProps(xs);
    var fa := FirstAppearance(xs);
    NoDupCard(fa);
    assert (set x | x in fa) == (set x | x in xs);
  }

  /** et_node_num after reading an edge list is the number of distinct ids in it. */
  lemma NodeCount(edges: seq<(int, int)>)
    ensures |Build(edges)| == |set x | x in Endpoints(edges)|
  {
    BuildIds(edges);
    FirstAppearanceCard(Endpoints(edges));
    assert |Build(edges)| == |Ids(Build(edges))|;
  }

  /** Counts over two arenas agree when the properties agree position by position. */
  lemma {:induction false} CountPointwise(a: seq<Node>, b: seq<Node>, p: Node -> bool, q: Node -> bool)
    requires |a| == |b| && forall i :: 0 <= i < |a| ==> p(a[i]) == q(b[i])
    ensures Count(a, p) == Count(b, q)
  {
    if a != [] {
      var last := |a| - 1;
      CountPointwise(a[..last], b[..last], p, q);
    }
  }

  /** Sums over two arenas agree when the weights agree position by position. */
  lemma {:induction false} SumPointwise(a: seq<Node>, b: seq<Node>, f: Node -> int, g: Node -> int)
    requires |a| == |b| && forall i :: 0 <= i < |a| ==> f(a[i]) == g(b[i])
    ensures Sum(a, f) == Sum(b, g)
  {
    if a != [] {
      var last := |a| - 1;
      SumPointwise(a[..last], b[..last], f, g);
    }
  }

  function OddDegree(n: Node): bool { n.deg % 2 != 0 }

  /**
   * The handshake parity: the number of odd-degree nodes has the parity of
   * the degree sum, so with the sum even (as et_add_edge keeps it) exactly
   * one odd-degree node cannot occur.
   */
  lemma {:induction false} OddCountParity(ns: seq<Node>)
    ensures Count(ns, OddDegree) % 2 == Sum(ns, Degree) % 2
  {
    if ns != [] {
      OddCountParity(ns[..|ns| - 1]);
    }
  }

  /** A graph read from an edge list never has exactly one odd-degree node. */
  lemma BuiltOddCount(edges: seq<(int, int)>)
    ensures Count(Build(edges), OddDegree) % 2 == 0
    ensures Count(Build(edges), OddDegree) != 1
  {
    var g := Build(edges);
    assert Sum(g, Degree) == 2 * |edges| by { BuildShape(edges); }
    EvenDegreeTotal(g);
  }

  /** With an even degree total, the number of odd-degree nodes is even. */
  lemma EvenDegreeTotal(ns: seq<Node>)
    requires Sum(ns, Degree) % 2 == 0
    ensures Count(ns, OddDegree) % 2 == 0 && Count(ns, OddDegree) != 1
  {
    OddCountParity(ns);
  }

  lemma {:induction false} CountNone(ns: seq<Node>, p: Node -> bool)
    requires forall i :: 0 <= i < |ns| ==> !p(ns[i])
    ensures Count(ns, p) == 0
  {
    if ns != [] {
      CountNone(ns[..|ns| - 1], p);
    }
  }

  lemma {:induction false} SumZero(ns: seq<Node>, f: Node -> int)
    requires forall i :: 0 <= i < |ns| ==> f(ns[i]) == 0
    ensures Sum(ns, f) == 0
  {
    if ns != [] {
      SumZero(ns[..|ns| - 1], f);
    }
  }

  /** A path: a non-empty list of nodes each adjacent to the next. */
  ghost predicate IsPath(ns: seq<Node>, p: seq<nat>)
  {
    |p| > 0 && (forall k :: 0 <= k < |p| ==> p[k] < |ns|) &&
    forall j, k {:trigger p[j], p[k]} :: 0 <= j && k == j + 1 && k < |p| ==> p[k] in Nbrs(ns[p[j]].adj)
  }

  lemma PathSameShape(a: seq<Node>, b: seq<Node>, p: seq<nat>)
    requires SameShape(a, b) && IsPath(a, p)
    ensures IsPath(b, p)
  {
  }

  lemma PathExtend(ns: seq<Node>, p: seq<nat>, x: nat)
    requires IsPath(ns, p) && x < |ns| && x in Nbrs(ns[p[|p| - 1]].adj)
    ensures IsPath(ns, p + [x])
  {
    var q := p + [x];
    assert forall k :: 0 <= k < |p| ==> q[k] == p[k];
  }

  /** Ids that stay put stay distinct. */
  lemma KeepsDistinct(a: seq<Node>, b: seq<Node>)
    requires DistinctIds(a) && |a| == |b| && forall i :: 0 <= i < |a| ==> b[i].id == a[i].id
    ensures DistinctIds(b)
  {
    forall i, j | 0 <= i < |b| && 0 <= j < |b| && i != j ensures b[i].id != b[j].id {
      assert a[i].id != a[j].id;
    }
  }

  lemma SameShapeTrans(a: seq<Node>, b: seq<Node>, c: seq<Node>)
    requires SameShape(a, b) && SameShape(b, c)
    ensures SameShape(a, c)
  {
  }
}
