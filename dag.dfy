/** The include graph of src/dag.cxx and include/dag.hxx. Nodes are the indices
    0..n-1 of the dag's `nodes` vector; a node's `children` are the indices of
    the nodes it points to, so an edge runs from an including file to an
    included file. */
module Dag {
  import opened FsModel

  /** Node kinds: only sources and headers are graph nodes, never objects. */
  datatype FileType = Source | Header

  /** The children lists of all nodes, indexed by node. */
  type Adj = seq<seq<nat>>

  /** Every child is one of the graph's nodes. */
  predicate WellFormed(adj: Adj) {
    forall u, i :: 0 <= u < |adj| && 0 <= i < |adj[u]| ==> adj[u][i] < |adj|
  }

  predicate InRange(s: seq<nat>, n: nat) {
    forall i :: 0 <= i < |s| ==> s[i] < n
  }

  /** No node occurs twice. */
  predicate Distinct(s: seq<nat>) {
    forall i, j :: 0 <= i < j < |s| ==> s[i] != s[j]
  }

  /** A closed walk along edges: c[0] -> c[1] -> ... -> c[|c|-1] == c[0]. */
  predicate IsCycle(adj: Adj, c: seq<nat>) {
    && |c| >= 2
    && c[0] == c[|c| - 1]
    && (forall k :: 0 <= k < |c| ==> c[k] < |adj|)
    && (forall k :: 0 <= k < |c| - 1 ==> c[k + 1] in adj[c[k]])
  }

  ghost predicate Acyclic(adj: Adj) {
    forall c :: !IsCycle(adj, c)
  }

  /** Every parent of an emitted node was emitted before it. */
  predicate ParentsFirst(adj: Adj, order: seq<nat>) {
    forall i, w :: 0 <= i < |order| && 0 <= w < |adj| && order[i] in adj[w] ==> w in order[..i]
  }

  /** The number of edges into `v` from the nodes below `k` that are not in
      `removed`, counting a child listed twice twice (the `indegree` map). */
  function InDeg(adj: Adj, removed: seq<nat>, v: nat, k: nat): nat
    requires k <= |adj|
  {
    if k == 0 then 0
    else InDeg(adj, removed, v, k - 1) + (if k - 1 in removed then 0 else multiset(adj[k - 1])[v])
  }

  /** Removing a node takes its out-edges away from every in-degree. */
  lemma {:induction false} InDegRemove(adj: Adj, removed: seq<nat>, u: nat, v: nat, k: nat)
    requires k <= |adj| && u !in removed
    ensures InDeg(adj, removed + [u], v, k)
         == InDeg(adj, removed, v, k) - (if u < k then multiset(adj[u])[v] else 0)
  {
    if k > 0 {
      InDegRemove(adj, removed, u, v, k - 1);
      InDegAtLeast(adj, removed, u, v, k);
    }
  }

  /** A present node contributes its edges into `v`. */
  lemma {:induction false} InDegAtLeast(adj: Adj, removed: seq<nat>, u: nat, v: nat, k: nat)
    requires k <= |adj| && u !in removed
    ensures u < k ==> InDeg(adj, removed, v, k) >= multiset(adj[u])[v]
  {
    if k > 0 && u < k - 1 {
      InDegAtLeast(adj, removed, u, v, k - 1);
    }
  }

  /** In-degree zero means no present node has an edge into `v`. */
  lemma {:induction false} InDegZero(adj: Adj, removed: seq<nat>, v: nat, k: nat)
    requires k <= |adj|
    ensures InDeg(adj, removed, v, k) == 0 <==>
            forall w :: 0 <= w < k && w !in removed ==> v !in adj[w]
  {
    if k > 0 {
      InDegZero(adj, removed, v, k - 1);
    }
  }

  /** The zero-in-degree nodes below `k`, in index order: the initial queue. */
  function SeedsUpTo(adj: Adj, k: nat): (r: seq<nat>)
    requires k <= |adj|
    ensures forall v: nat :: v in r <==> v < k && InDeg(adj, [], v, |adj|) == 0
    ensures Distinct(r) && InRange(r, k)
  {
    if k == 0 then []
    else SeedsUpTo(adj, k - 1) + (if InDeg(adj, [], k - 1, |adj|) == 0 then [k - 1] else [])
  }

  function Seeds(adj: Adj): seq<nat> {
    SeedsUpTo(adj, |adj|)
  }

  function SetOf(s: seq<nat>): set<nat> {
    set x | x in s
  }

  function Range(n: nat): (r: set<nat>)
    ensures forall x: nat :: x in r <==> x < n
  {
    if n == 0 then {} else Range(n - 1) + {n - 1}
  }

  lemma {:induction false} SetOfDistinct(s: seq<nat>)
    requires Distinct(s)
    ensures |SetOf(s)| == |s|
  {
    if s != [] {
      var t := s[..|s| - 1];
      SetOfDistinct(t);
      assert SetOf(s) == SetOf(t) + {s[|s| - 1]};
      assert s[|s| - 1] !in SetOf(t);
    }
  }

  lemma {:induction false} RangeCard(n: nat)
    ensures |Range(n)| == n
  {
    if n > 0 {
      RangeCard(n - 1);
      var r := Range(n - 1);
      assert n - 1 !in r;
      assert Range(n) == r + {n - 1};
      assert |r + {n - 1}| == |r| + 1;
    }
  }

  lemma SubsetCard(a: set<nat>, b: set<nat>)
    requires a <= b
    ensures |a| <= |b|
    ensures a != b ==> |a| < |b|
  {
    assert b == a + (b - a);
    if a != b {
      var x :| x in b && x !in a;
      assert x in b - a;
    }
  }

  /** Pigeonhole: distinct nodes below n number at most n, and exactly n
      when every node is among them. */
  lemma DistinctBound(s: seq<nat>, n: nat)
    requires Distinct(s) && InRange(s, n)
    ensures |s| <= n
    ensures |s| == n <==> forall v :: 0 <= v < n ==> v in s
  {
    SetOfDistinct(s);
    RangeCard(n);
    SubsetCard(SetOf(s), Range(n));
    if forall v :: 0 <= v < n ==> v in s {
      assert SetOf(s) == Range(n);
    } else {
      var v :| 0 <= v < n && v !in s;
      assert v in Range(n) && v !in SetOf(s);
    }
  }

  /** Parent edges read backwards: p[k] is a child of p[k + 1]. */
  predicate BackwardWalk(adj: Adj, p: seq<nat>) {
    && InRange(p, |adj|)
    && forall k :: 0 <= k < |p| - 1 ==> p[k] in adj[p[k + 1]]
  }

  /** If every node outside `removed` still has a parent outside `removed`,
      parents can be followed backwards from one of them for n steps. */
  lemma ParentWalk(adj: Adj, removed: seq<nat>, v0: nat) returns (p: seq<nat>)
    requires v0 < |adj| && v0 !in removed
    requires forall v :: 0 <= v < |adj| && v !in removed ==> InDeg(adj, removed, v, |adj|) > 0
    ensures |p| == |adj| + 1 && BackwardWalk(adj, p)
  {
    var n := |adj|;
    p := [v0];
    while |p| <= n
      invariant 1 <= |p| <= n + 1
      invariant BackwardWalk(adj, p)
      invariant forall k :: 0 <= k < |p| ==> p[k] !in removed
      decreases n + 1 - |p|
    {
      var last := p[|p| - 1];
      InDegZero(adj, removed, last, n);
      var w :| 0 <= w < n && w !in removed && last in adj[w];
      p := p + [w];
    }
  }

  /** A backward walk that repeats a node, read forwards, is a cycle. */
  lemma WalkCycle(adj: Adj, p: seq<nat>, i: nat, j: nat) returns (c: seq<nat>)
    requires BackwardWalk(adj, p) && i < j < |p| && p[i] == p[j]
    ensures IsCycle(adj, c)
  {
    c := seq(j - i + 1, k requires 0 <= k < j - i + 1 => p[j - k]);
    forall k | 0 <= k < |c| - 1
      ensures c[k + 1] in adj[c[k]]
    {
      assert c[k + 1] == p[j - k - 1] && c[k] == p[j - k];
    }
  }

  /** If every node outside `removed` still has a parent outside `removed`,
      the graph has a cycle. */
  lemma CycleFromNoSource(adj: Adj, removed: seq<nat>, v0: nat) returns (c: seq<nat>)
    requires v0 < |adj| && v0 !in removed
    requires forall v :: 0 <= v < |adj| && v !in removed ==> InDeg(adj, removed, v, |adj|) > 0
    ensures IsCycle(adj, c)
  {
    var p := ParentWalk(adj, removed, v0);
    if Distinct(p) {
      DistinctBound(p, |adj|);
      assert false;
    }
    var i, j :| 0 <= i < j < |p| && p[i] == p[j];
    c := WalkCycle(adj, p, i, j);
  }

  /** Following edges backwards from an emitted node moves to strictly
      earlier positions of the order. */
  lemma {:induction false} Backward(adj: Adj, order: seq<nat>, c: seq<nat>, k: nat, i: nat) returns (i0: nat)
    requires ParentsFirst(adj, order) && IsCycle(adj, c)
    requires k < |c| && i < |order| && order[i] == c[k]
    ensures i0 + k <= i && order[i0] == c[0]
    decreases k
  {
    if k == 0 {
      i0 := i;
    } else {
      assert c[k] in adj[c[k - 1]];
      assert c[k - 1] in order[..i];
      var i' :| 0 <= i' < i && order[i'] == c[k - 1];
      i0 := Backward(adj, order, c, k - 1, i');
    }
  }

  /** No node of a cycle is ever emitted by an order that puts parents first. */
  lemma CycleNotOrdered(adj: Adj, order: seq<nat>, c: seq<nat>)
    requires ParentsFirst(adj, order) && Distinct(order) && IsCycle(adj, c)
    ensures forall k :: 0 <= k < |c| ==> c[k] !in order
  {
    forall k | 0 <= k < |c|
      ensures c[k] !in order
    {
      if c[k] in order {
        var i :| 0 <= i < |order| && order[i] == c[k];
        var i0 := Backward(adj, order, c, k, i);
        var i1 := Backward(adj, order, c, |c| - 1, i0);
        assert false;
      }
    }
  }

  lemma DistinctSplit(a: seq<nat>, b: seq<nat>)
    requires Distinct(a + b)
    ensures forall j :: 0 <= j < |b| ==> b[j] !in a
  {
    forall i, j | 0 <= i < |a| && 0 <= j < |b|
      ensures a[i] != b[j]
    {
      assert a[i] == (a + b)[i] && b[j] == (a + b)[|a| + j];
    }
  }

  lemma ParentsFirstAppend(adj: Adj, order: seq<nat>, u: nat)
    requires ParentsFirst(adj, order)
    requires forall w :: 0 <= w < |adj| && u in adj[w] ==> w in order
    ensures ParentsFirst(adj, order + [u])
  {
    var o := order + [u];
    forall i, w | 0 <= i < |o| && 0 <= w < |adj| && o[i] in adj[w]
      ensures w in o[..i]
    {
      if i < |order| {
        assert o[..i] == order[..i];
      } else {
        assert o[..i] == order;
      }
    }
  }

  /** A graph without cycles and with at least one node has a seed. */
  lemma AcyclicHasSeed(adj: Adj)
    requires Acyclic(adj) && |adj| > 0
    ensures |Seeds(adj)| > 0
  {
    if forall v :: 0 <= v < |adj| ==> InDeg(adj, [], v, |adj|) > 0 {
      var c := CycleFromNoSource(adj, [], 0);
      assert false;
    }
  }

  /** dag::topological_sort with nodes 0..n-1 in `nodes` order: in-degrees are
      counted over all children lists, the zero-in-degree nodes are queued in
      index order, and the FIFO queue is drained, queuing a child the moment
      its remaining in-degree drops to 0. `valid` is false exactly when one of
      the two assertions of the source (a non-empty initial queue, an output
      as long as `nodes`) fails; the order computed so far is returned either way. */
  method Kahn(adj: Adj) returns (order: seq<nat>, valid: bool)
    requires WellFormed(adj)
    ensures Distinct(order) && InRange(order, |adj|)
    ensures ParentsFirst(adj, order)
    ensures Seeds(adj) <= order
    ensures Acyclic(adj) <==> |order| == |adj|
    ensures Acyclic(adj) <==> forall v :: 0 <= v < |adj| ==> v in order
    ensures forall c, k :: IsCycle(adj, c) && 0 <= k < |c| ==> c[k] !in order
    ensures valid <==> |adj| > 0 && Acyclic(adj)
  {
    var n := |adj|;
    var indegree := new int[n](_ => 0);
    CountInDegrees(adj, indegree);

    var queue := SeedQueue(adj, indegree);
    var seeded := queue != [];

    order := [];
    DrainStart(adj, indegree[..]);
    while queue != []
      invariant Draining(adj, indegree[..], order, queue)
      decreases n - |order|
    {
      order, queue := Emit(adj, indegree, order, queue);
    }
    DrainEnd(adj, indegree[..], order);
    if n > 0 && Acyclic(adj) {
      AcyclicHasSeed(adj);
    }
    valid := seeded && |order| == n;
  }

  /** The drain loop starts from the counted in-degrees with the seeds queued. */
  lemma DrainStart(adj: Adj, deg: seq<int>)
    requires |deg| == |adj| && forall v :: 0 <= v < |adj| ==> deg[v] == InDeg(adj, [], v, |adj|)
    ensures Draining(adj, deg, [], Seeds(adj))
  {
    var q := Seeds(adj);
    assert [] + q == q;
    forall k | 0 <= k < |q|
      ensures deg[q[k]] == 0
    {
      assert q[k] in q;
    }
  }

  /** When the drain loop stops, the output has the properties of a Kahn
      order. */
  lemma DrainEnd(adj: Adj, deg: seq<int>, order: seq<nat>)
    requires Draining(adj, deg, order, [])
    ensures Distinct(order) && InRange(order, |adj|)
    ensures ParentsFirst(adj, order)
    ensures Seeds(adj) <= order
    ensures Acyclic(adj) <==> |order| == |adj|
    ensures Acyclic(adj) <==> forall v :: 0 <= v < |adj| ==> v in order
    ensures forall c, k :: IsCycle(adj, c) && 0 <= k < |c| ==> c[k] !in order
  {
    var n := |adj|;
    assert order + [] == order;
    forall v | 0 <= v < n && v !in order
      ensures InDeg(adj, order, v, n) > 0
    {
      assert deg[v] == InDeg(adj, order, v, n);
    }
    Drained(adj, order);
  }

  /** The state of the drain loop of topological_sort: `deg` holds the
      in-degrees counted over the nodes not yet emitted, emitted and queued
      nodes are distinct and have in-degree 0, every other node of in-degree 0
      is queued, parents were emitted first, and the seeds lead the sequence. */
  ghost predicate Draining(adj: Adj, deg: seq<int>, order: seq<nat>, queue: seq<nat>) {
    var n := |adj|;
    && |deg| == n
    && InRange(order + queue, n) && Distinct(order + queue)
    && (forall v :: 0 <= v < n ==> deg[v] == InDeg(adj, order, v, n))
    && (forall k :: 0 <= k < |order + queue| ==> deg[(order + queue)[k]] == 0)
    && (forall v :: 0 <= v < n && v !in order && deg[v] == 0 ==> v in queue)
    && ParentsFirst(adj, order)
    && Seeds(adj) <= order + queue
  }

  /** One round of the drain loop: pop the front of the queue, emit it, and
      release its children. */
  method Emit(adj: Adj, indegree: array<int>, order0: seq<nat>, queue0: seq<nat>)
    returns (order: seq<nat>, queue: seq<nat>)
    requires WellFormed(adj) && indegree.Length == |adj|
    requires Draining(adj, indegree[..], order0, queue0) && queue0 != []
    modifies indegree
    ensures Draining(adj, indegree[..], order, queue)
    ensures order == order0 + [queue0[0]] && |order| <= |adj|
  {
    var n := |adj|;
    DistinctBound(order0 + queue0, n);
    var u := queue0[0];
    queue := queue0[1..];
    order := order0 + [u];
    assert queue0 == [u] + queue;
    assert order + queue == order0 + queue0;
    DistinctSplit(order0, queue0);
    assert (order0 + queue0)[|order0|] == u;
    assert indegree[u] == 0;
    InDegZero(adj, order0, u, n);
    ParentsFirstAppend(adj, order0, u);
    ghost var rest := queue;
    queue := Release(adj, indegree, order0, u, queue0, queue);
    assert Seeds(adj) <= order + queue by {
      assert order + rest <= order + queue;
    }
    forall v | 0 <= v < n
      ensures indegree[v] == InDeg(adj, order, v, n)
    {
      InDegRemove(adj, order0, u, v, n);
    }
  }

  /** Once the queue is empty, every node left out still has a parent left
      out: the output is complete exactly when the graph has no cycle. */
  lemma Drained(adj: Adj, order: seq<nat>)
    requires InRange(order, |adj|) && Distinct(order) && ParentsFirst(adj, order)
    requires forall v :: 0 <= v < |adj| && v !in order ==> InDeg(adj, order, v, |adj|) > 0
    ensures Acyclic(adj) <==> |order| == |adj|
    ensures Acyclic(adj) <==> forall v :: 0 <= v < |adj| ==> v in order
    ensures forall c, k :: IsCycle(adj, c) && 0 <= k < |c| ==> c[k] !in order
  {
    var n := |adj|;
    DistinctBound(order, n);
    forall c | IsCycle(adj, c)
      ensures forall k :: 0 <= k < |c| ==> c[k] !in order
    {
      CycleNotOrdered(adj, order, c);
    }
    if |order| == n && !Acyclic(adj) {
      assert false;
    } else if |order| < n {
      var v0 :| 0 <= v0 < n && v0 !in order;
      var c := CycleFromNoSource(adj, order, v0);
    }
  }

  /** The second loop of topological_sort: every node of in-degree 0, in
      `nodes` order. */
  method SeedQueue(adj: Adj, indegree: array<int>) returns (queue: seq<nat>)
    requires indegree.Length == |adj|
    requires forall v :: 0 <= v < |adj| ==> indegree[v] == InDeg(adj, [], v, |adj|)
    ensures queue == Seeds(adj)
  {
    queue := [];
    var u := 0;
    while u < |adj|
      invariant 0 <= u <= |adj|
      invariant queue == SeedsUpTo(adj, u)
    {
      if indegree[u] == 0 {
        queue := queue + [u];
      }
      u := u + 1;
    }
  }

  /** The first loop of topological_sort: `indegree[v]++` for every child. */
  method CountInDegrees(adj: Adj, indegree: array<int>)
    requires WellFormed(adj) && indegree.Length == |adj|
    requires forall v :: 0 <= v < |adj| ==> indegree[v] == 0
    modifies indegree
    ensures forall v :: 0 <= v < |adj| ==> indegree[v] == InDeg(adj, [], v, |adj|)
  {
    var n := |adj|;
    var u := 0;
    while u < n
      invariant 0 <= u <= n
      invariant forall v :: 0 <= v < n ==> indegree[v] == InDeg(adj, [], v, u)
    {
      CountChildren(adj, indegree, u);
      u := u + 1;
    }
  }

  /** The inner loop of the first loop: one more for each child of `u`, once
      per listing. */
  method CountChildren(adj: Adj, indegree: array<int>, u: nat)
    requires WellFormed(adj) && indegree.Length == |adj| && u < |adj|
    modifies indegree
    ensures forall v :: 0 <= v < |adj| ==> indegree[v] == old(indegree[v]) + multiset(adj[u])[v]
  {
    ghost var init := indegree[..];
    var j := 0;
    while j < |adj[u]|
      invariant 0 <= j <= |adj[u]|
      invariant forall v :: 0 <= v < |adj| ==> indegree[v] == init[v] + multiset(adj[u][..j])[v]
    {
      var v := adj[u][j];
      assert adj[u][..j + 1] == adj[u][..j] + [v];
      indegree[v] := indegree[v] + 1;
      j := j + 1;
    }
    assert adj[u][..j] == adj[u];
  }

  /** The inner loop of topological_sort after `u` is emitted: every child's
      remaining in-degree is decremented, and a child whose count reaches 0 is
      queued. Each queued child is a node that no emitted or queued node
      duplicates. */
  method Release(adj: Adj, indegree: array<int>, ghost prev: seq<nat>, u: nat,
                 ghost before: seq<nat>, queue0: seq<nat>)
    returns (queue: seq<nat>)
    requires WellFormed(adj) && indegree.Length == |adj|
    requires u < |adj| && u !in prev && before == [u] + queue0
    requires InRange(prev + before, |adj|) && Distinct(prev + before)
    requires forall v :: 0 <= v < |adj| ==> indegree[v] == InDeg(adj, prev, v, |adj|)
    requires forall k :: 0 <= k < |prev + before| ==> indegree[(prev + before)[k]] == 0
    requires forall v :: 0 <= v < |adj| && v !in prev && indegree[v] == 0 ==> v in before
    modifies indegree
    ensures queue0 <= queue
    ensures InRange(prev + [u] + queue, |adj|) && Distinct(prev + [u] + queue)
    ensures forall v :: 0 <= v < |adj| ==> indegree[v] == InDeg(adj, prev, v, |adj|) - multiset(adj[u])[v]
    ensures forall k :: 0 <= k < |prev + [u] + queue| ==> indegree[(prev + [u] + queue)[k]] == 0
    ensures forall v :: 0 <= v < |adj| && v !in prev + [u] && indegree[v] == 0 ==> v in queue
  {
    queue := queue0;
    assert prev + [u] + queue == prev + before;
    assert adj[u][..0] == [];
    var j := 0;
    while j < |adj[u]|
      invariant 0 <= j <= |adj[u]|
      invariant Releasing(adj, prev, u, queue0, queue, indegree[..], j)
    {
      var v := adj[u][j];
      ghost var d := indegree[..];
      ReleaseStep(adj, prev, u, queue0, queue, d, j);
      indegree[v] := indegree[v] - 1;
      assert indegree[..] == d[v := d[v] - 1];
      if indegree[v] == 0 {
        queue := queue + [v];
      }
      j := j + 1;
    }
    assert adj[u][..j] == adj[u];
  }

  /** The state of the inner loop after `j` children of `u`: `d` is the
      in-degree array, lowered once per child listing seen so far. */
  ghost predicate Releasing(adj: Adj, prev: seq<nat>, u: nat, queue0: seq<nat>, queue: seq<nat>,
                            d: seq<int>, j: nat)
  {
    var n := |adj|;
    && WellFormed(adj) && u < n && u !in prev && |d| == n && j <= |adj[u]|
    && queue0 <= queue
    && InRange(prev + [u] + queue, n) && Distinct(prev + [u] + queue)
    && (forall v :: 0 <= v < n ==> d[v] == InDeg(adj, prev, v, n) - multiset(adj[u][..j])[v])
    && (forall k :: 0 <= k < |prev + [u] + queue| ==> d[(prev + [u] + queue)[k]] == 0)
    && (forall v :: 0 <= v < n && v !in prev + [u] && d[v] == 0 ==> v in queue)
  }

  /** One child: its count is positive before the decrement, and the child
      is queued exactly when the count reaches 0. */
  lemma ReleaseStep(adj: Adj, prev: seq<nat>, u: nat, queue0: seq<nat>, queue: seq<nat>,
                    d: seq<int>, j: nat)
    requires Releasing(adj, prev, u, queue0, queue, d, j) && j < |adj[u]|
    ensures adj[u][j] < |adj| && d[adj[u][j]] >= 1
    ensures var v := adj[u][j];
            var d' := d[v := d[v] - 1];
            Releasing(adj, prev, u, queue0, if d'[v] == 0 then queue + [v] else queue, d', j + 1)
  {
    var n := |adj|;
    var v := adj[u][j];
    var seen := prev + [u] + queue;
    assert adj[u][..j + 1] == adj[u][..j] + [v];
    assert adj[u] == adj[u][..j + 1] + adj[u][j + 1..];
    InDegAtLeast(adj, prev, u, v, n);
    assert v < n && d[v] >= 1;
    assert v !in seen;
    var d' := d[v := d[v] - 1];
    forall w | 0 <= w < n
      ensures d'[w] == InDeg(adj, prev, w, n) - multiset(adj[u][..j + 1])[w]
    {
      assert multiset(adj[u][..j + 1])[w] == multiset(adj[u][..j])[w] + (if w == v then 1 else 0);
    }
    forall k | 0 <= k < |seen|
      ensures d'[seen[k]] == 0
    {
      assert seen[k] != v;
    }
    if d'[v] == 0 {
      DistinctAppend(seen, v, n);
      assert prev + [u] + (queue + [v]) == seen + [v];
    }
  }

  lemma DistinctAppend(s: seq<nat>, v: nat, n: nat)
    requires InRange(s, n) && Distinct(s) && v < n && v !in s
    ensures InRange(s + [v], n) && Distinct(s + [v])
  {
  }

  lemma WellFormedAddEdge(adj: Adj, parent: nat, child: nat)
    requires WellFormed(adj) && parent < |adj| && child < |adj|
    ensures WellFormed(adj[parent := adj[parent] + [child]])
  {
    var a := adj[parent := adj[parent] + [child]];
    forall u, i | 0 <= u < |a| && 0 <= i < |a[u]|
      ensures a[u][i] < |a|
    {
      if u == parent && i == |adj[parent]| {
        assert a[u][i] == child;
      } else {
        assert a[u][i] == adj[u][i];
      }
    }
  }

  lemma WellFormedAddNode(adj: Adj, parent: nat)
    requires WellFormed(adj) && parent < |adj|
    ensures WellFormed(adj[parent := adj[parent] + [|adj|]] + [[]])
  {
    var a := adj[parent := adj[parent] + [|adj|]] + [[]];
    forall u, i | 0 <= u < |a| && 0 <= i < |a[u]|
      ensures a[u][i] < |a|
    {
      if u == parent && i == |adj[parent]| {
        assert a[u][i] == |adj|;
      } else {
        assert u < |adj| && a[u][i] == adj[u][i];
      }
    }
  }

  /** struct node: a file kind and path, and the indices of its children. */
  class Node {
    const kind: FileType
    const path: Path
    var children: seq<nat>

    /** The node constructor of include/dag.hxx asserts that the path exists. */
    constructor (kind: FileType, path: Path, fs: Snapshot)
      requires path in fs
      ensures this.kind == kind && this.path == path && children == []
    {
      this.kind := kind;
      this.path := path;
      children := [];
    }

    /** node::insert(node*): the child goes to the end, one more out-edge,
        earlier children and the kind and path untouched. */
    method Insert(child: nat)
      modifies this
      ensures children == old(children) + [child]
      ensures |children| == |old(children)| + 1 && old(children) <= children
    {
      children := children + [child];
    }
  }

  /** class dag: the vector of all nodes; children refer to it by index. */
  class Graph {
    var nodes: seq<Node>

    constructor (nodes: seq<Node>)
      ensures this.nodes == nodes
    {
      this.nodes := nodes;
    }

    /** Distinct node objects whose children are all nodes of the graph. */
    ghost predicate Valid()
      reads this, nodes
    {
      && (forall i, j :: 0 <= i < j < |nodes| ==> nodes[i] != nodes[j])
      && WellFormed(Adjacency())
    }

    function Adjacency(): Adj
      reads this, nodes
    {
      seq(|nodes|, i reads this, nodes requires 0 <= i < |nodes| => nodes[i].children)
    }

    /** node::insert(node*) on the node at index `parent`: one edge more,
        every other node untouched. */
    method AddEdge(parent: nat, child: nat)
      requires Valid() && parent < |nodes| && child < |nodes|
      modifies nodes[parent]
      ensures Valid()
      ensures Adjacency() == old(Adjacency())[parent := old(Adjacency())[parent] + [child]]
    {
      ghost var adj := Adjacency();
      nodes[parent].Insert(child);
      assert Adjacency() == adj[parent := adj[parent] + [child]];
      WellFormedAddEdge(adj, parent, child);
    }

    /** node::insert(file_type, path): a new node for `path` becomes the last
        child of `parent`. The new node is registered as the last node of the
        graph so that its index names it. */
    method InsertNew(parent: nat, kind: FileType, path: Path, fs: Snapshot) returns (child: nat)
      requires Valid() && parent < |nodes| && path in fs
      modifies this, nodes[parent]
      ensures Valid()
      ensures child == old(|nodes|) && |nodes| == child + 1 && nodes[..child] == old(nodes)
      ensures fresh(nodes[child]) && nodes[child].kind == kind && nodes[child].path == path
      ensures Adjacency() == old(Adjacency())[parent := old(Adjacency())[parent] + [child]] + [[]]
    {
      ghost var adj := Adjacency();
      var node := new Node(kind, path, fs);
      child := |nodes|;
      nodes[parent].Insert(child);
      nodes := nodes + [node];
      assert Adjacency() == adj[parent := adj[parent] + [child]] + [[]];
      WellFormedAddNode(adj, parent);
    }

    /** The paths of the listed nodes, in the listed order. */
    method PathsOf(order: seq<nat>) returns (paths: seq<Path>)
      requires InRange(order, |nodes|)
      ensures |paths| == |order| && forall i :: 0 <= i < |order| ==> paths[i] == nodes[order[i]].path
    {
      paths := [];
      var i := 0;
      while i < |order|
        invariant 0 <= i <= |order| && |paths| == i
        invariant forall k :: 0 <= k < i ==> paths[k] == nodes[order[k]].path
      {
        paths := paths + [nodes[order[i]].path];
        i := i + 1;
      }
    }

    /** dag::topological_sort: the paths of the nodes in Kahn order. */
    method TopologicalSort() returns (order: seq<nat>, paths: seq<Path>, valid: bool)
      requires Valid()
      ensures Distinct(order) && InRange(order, |nodes|)
      ensures ParentsFirst(Adjacency(), order) && Seeds(Adjacency()) <= order
      ensures Acyclic(Adjacency()) <==> |order| == |nodes|
      ensures |paths| == |order| && forall i :: 0 <= i < |order| ==> paths[i] == nodes[order[i]].path
      ensures valid <==> |nodes| > 0 && Acyclic(Adjacency())
    {
      var adj := Adjacency();
      order, valid := Kahn(adj);
      paths := PathsOf(order);
    }
  }
}
