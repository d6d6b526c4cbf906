/** Kahn's algorithm as `topo_sort` in backends/common/ove_audio_graph.c runs it. */
module TopoSort {

  /** OVE_AUDIO_GRAPH_MAX_NODES */
  const MAX_NODES: nat := 16

  datatype Edge = Edge(from: nat, to: nat)

  predicate InRange(n: nat, es: seq<Edge>)
  {
    forall e :: e in es ==> e.from < n && e.to < n
  }

  // -------------------------------------------------------------- the question

  /** A closed walk along the edges. */
  predicate IsCycle(es: seq<Edge>, c: seq<nat>)
  {
    |c| >= 2 && c[0] == c[|c| - 1] && IsWalk(es, c)
  }

  predicate IsWalk(es: seq<Edge>, c: seq<nat>)
  {
    forall i :: 0 <= i < |c| - 1 ==> Edge(c[i], c[i + 1]) in es
  }

  ghost predicate Acyclic(es: seq<Edge>)
  {
    forall c :: !IsCycle(es, c)
  }

  predicate Distinct(s: seq<nat>)
  {
    forall i, j :: 0 <= i < j < |s| ==> s[i] != s[j]
  }

  predicate Below(s: seq<nat>, n: nat)
  {
    forall i :: 0 <= i < |s| ==> s[i] < n
  }

  /** Everything that feeds an element of s stands before it in s. */
  predicate FedFromEarlier(es: seq<Edge>, s: seq<nat>)
  {
    forall j, e :: 0 <= j < |s| && e in es && e.to == s[j] ==> e.from in s[..j]
  }

  /** A permutation of the nodes in which every edge goes forward. */
  predicate Topological(n: nat, es: seq<Edge>, order: seq<nat>)
  {
    |order| == n && Distinct(order) && Below(order, n) && FedFromEarlier(es, order)
  }

  // ------------------------------------------------------------------ counting

  /** Number of edges into v whose source is not in done. */
  function Pending(es: seq<Edge>, done: set<nat>, v: nat): nat
  {
    if es == [] then 0
    else
      var e := es[|es| - 1];
      Pending(es[..|es| - 1], done, v) + if e.to == v && e.from !in done then 1 else 0
  }

  /** Number of edges from u to v. */
  function Between(es: seq<Edge>, u: nat, v: nat): nat
  {
    if es == [] then 0
    else Between(es[..|es| - 1], u, v) + if es[|es| - 1] == Edge(u, v) then 1 else 0
  }

  lemma {:induction false} FinishNode(es: seq<Edge>, done: set<nat>, u: nat, v: nat)
    requires u !in done
    ensures Pending(es, done, v) == Pending(es, done + {u}, v) + Between(es, u, v)
  {
    if es == [] {
    } else {
      FinishNode(es[..|es| - 1], done, u, v);
    }
  }

  lemma {:induction false} NothingPending(es: seq<Edge>, done: set<nat>, v: nat)
    ensures Pending(es, done, v) == 0 <==> forall e :: e in es && e.to == v ==> e.from in done
  {
    if es == [] {
    } else {
      NothingPending(es[..|es| - 1], done, v);
      assert es == es[..|es| - 1] + [es[|es| - 1]];
    }
  }

  lemma {:induction false} BetweenPrefix(es: seq<Edge>, i: nat, u: nat, v: nat)
    requires i <= |es|
    ensures Between(es[..i], u, v) <= Between(es, u, v)
  {
    if i < |es| {
      BetweenPrefix(es[..|es| - 1], i, u, v);
      assert es[..|es| - 1][..i] == es[..i];
    } else {
      assert es[..i] == es;
    }
  }

  lemma BetweenStep(es: seq<Edge>, i: nat, u: nat, v: nat)
    requires i < |es|
    ensures Between(es[..i + 1], u, v) == Between(es[..i], u, v) + if es[i] == Edge(u, v) then 1 else 0
  {
    assert es[..i + 1][..i] == es[..i];
  }

  lemma PendingStep(es: seq<Edge>, i: nat, v: nat)
    requires i < |es|
    ensures Pending(es[..i + 1], {}, v) == Pending(es[..i], {}, v) + if es[i].to == v then 1 else 0
  {
    assert es[..i + 1][..i] == es[..i];
  }

  // ------------------------------------------------------------------ pigeonhole

  lemma {:induction false} DistinctFits(s: seq<nat>, n: nat)
    requires Distinct(s) && Below(s, n)
    ensures |s| <= n
    ensures |s| == n ==> forall v :: 0 <= v < n ==> v in s
  {
    assert |s| > 0 ==> s[0] < n;
    if n == 0 {
    } else if n - 1 in s {
      var k :| 0 <= k < |s| && s[k] == n - 1;
      var r := s[..k] + s[k + 1..];
      forall i | 0 <= i < |r| ensures r[i] < n - 1 {
        assert r[i] == s[if i < k then i else i + 1];
      }
      DistinctFits(r, n - 1);
      forall v | |s| == n && 0 <= v < n ensures v in s {
        if v < n - 1 { assert v in r; }
      }
    } else {
      forall i | 0 <= i < |s| ensures s[i] < n - 1 {
        assert s[i] in s;
      }
      DistinctFits(s, n - 1);
    }
  }

  // ------------------------------------------------------ what success excludes

  /** Along a walk, positions in a topological order strictly increase. */
  lemma {:induction false} WalkGoesForward(n: nat, es: seq<Edge>, order: seq<nat>, c: seq<nat>)
    requires Topological(n, es, order) && InRange(n, es) && IsWalk(es, c) && |c| >= 2
    ensures exists i, j :: 0 <= i < j < |order| && order[i] == c[0] && order[j] == c[|c| - 1]
  {
    hide Topological, IsWalk, InRange;
    var e := Edge(c[|c| - 2], c[|c| - 1]);
    assert e in es by { LastEdge(es, c); }
    var i, j := EdgeGoesForward(n, es, order, e);
    if |c| == 2 {
    } else {
      var d := c[..|c| - 1];
      assert IsWalk(es, d) by { LastEdge(es, c); }
      WalkGoesForward(n, es, order, d);
      var a, b :| 0 <= a < b < |order| && order[a] == d[0] && order[b] == d[|d| - 1];
      assert b == i by { SamePlace(n, es, order, b, i); }
    }
  }

  lemma LastEdge(es: seq<Edge>, c: seq<nat>)
    requires IsWalk(es, c) && |c| >= 2
    ensures Edge(c[|c| - 2], c[|c| - 1]) in es && IsWalk(es, c[..|c| - 1])
  {
    var i := |c| - 2;
    assert Edge(c[i], c[i + 1]) in es;
  }

  lemma SamePlace(n: nat, es: seq<Edge>, order: seq<nat>, i: nat, j: nat)
    requires Topological(n, es, order) && i < |order| && j < |order| && order[i] == order[j]
    ensures i == j
  {
    hide FedFromEarlier, Below;
  }

  /** Both ends of an edge have a place in the order, the start before the end. */
  lemma EdgeGoesForward(n: nat, es: seq<Edge>, order: seq<nat>, e: Edge) returns (i: nat, j: nat)
    requires Topological(n, es, order) && InRange(n, es) && e in es
    ensures i < j < |order| && order[i] == e.from && order[j] == e.to
  {
    DistinctFits(order, n);
    assert e.to in order;
    j :| 0 <= j < |order| && order[j] == e.to;
    assert e.from in order[..j];
    i :| 0 <= i < j && order[i] == e.from;
  }

  lemma TopologicalIsAcyclic(n: nat, es: seq<Edge>, order: seq<nat>)
    requires Topological(n, es, order) && InRange(n, es)
    ensures Acyclic(es)
  {
    forall c ensures !IsCycle(es, c) {
      if IsCycle(es, c) {
        WalkGoesForward(n, es, order, c);
      }
    }
  }

  // --------------------------------------------------- what failure establishes

  /** Every member of the set is fed by a member of the set. */
  ghost predicate Stuck(es: seq<Edge>, r: set<nat>)
  {
    forall v :: v in r ==> HasFeeder(es, r, v)
  }

  ghost predicate HasFeeder(es: seq<Edge>, r: set<nat>, v: nat)
  {
    exists u :: u in r && Edge(u, v) in es
  }

  lemma Feeder(es: seq<Edge>, r: set<nat>, v: nat) returns (u: nat)
    requires HasFeeder(es, r, v)
    ensures u in r && Edge(u, v) in es
  {
    u :| u in r && Edge(u, v) in es;
  }

  /** Walking backwards inside a stuck set goes on for as long as we like. */
  lemma {:induction false} WalkInside(es: seq<Edge>, r: set<nat>, v: nat, len: nat) returns (c: seq<nat>)
    requires Stuck(es, r) && v in r && len > 0
    ensures |c| == len && IsWalk(es, c) && forall i :: 0 <= i < |c| ==> c[i] in r
  {
    hide HasFeeder;
    if len == 1 {
      c := [v];
    } else {
      var d := WalkInside(es, r, v, len - 1);
      var u := Feeder(es, r, d[0]);
      c := [u] + d;
      forall i | 0 <= i < |c| - 1 ensures Edge(c[i], c[i + 1]) in es {
        if i > 0 { assert Edge(d[i - 1], d[i - 1 + 1]) in es; }
      }
    }
  }

  lemma Repeats(s: seq<nat>, n: nat) returns (i: nat, j: nat)
    requires Below(s, n) && |s| > n
    ensures i < j < |s| && s[i] == s[j]
  {
    if Distinct(s) {
      DistinctFits(s, n);
      assert false;
    }
    i, j :| 0 <= i < j < |s| && s[i] == s[j];
  }

  /** A non-empty stuck set of nodes contains a real cycle. */
  lemma StuckHasCycle(n: nat, es: seq<Edge>, r: set<nat>)
    requires Stuck(es, r) && r != {} && forall v :: v in r ==> v < n
    ensures !Acyclic(es)
  {
    hide Stuck, HasFeeder;
    var v :| v in r;
    var c := WalkInside(es, r, v, n + 1);
    var i, j := Repeats(c, n);
    var cycle := c[i..j + 1];
    forall k | 0 <= k < |cycle| - 1 ensures Edge(cycle[k], cycle[k + 1]) in es {
      assert Edge(c[i + k], c[i + k + 1]) in es;
    }
    assert IsCycle(es, cycle);
  }

  /** The nodes left over when the queue runs dry are stuck. */
  lemma LeftoverStuck(n: nat, es: seq<Edge>, order: seq<nat>)
    requires InRange(n, es)
    requires forall v: nat :: v < n && v !in order ==> Pending(es, Set(order), v) > 0
    ensures Stuck(es, set v: nat | v < n && v !in order)
  {
    var r := set v: nat | v < n && v !in order;
    forall v | v in r ensures HasFeeder(es, r, v) {
      NothingPending(es, Set(order), v);
      var e :| e in es && e.to == v && e.from !in Set(order);
      assert Edge(e.from, v) == e;
    }
  }

  function Set(s: seq<nat>): set<nat> { set v | v in s }

  // -------------------------------------------------------------- the algorithm

  /** deg[v] counts the edges into v from nodes not yet executed. */
  ghost predicate DegreesAre(n: nat, es: seq<Edge>, deg: seq<nat>, done: set<nat>)
  {
    n <= |deg| && forall v :: 0 <= v < n ==> deg[v] == Pending(es, done, v)
  }

  /** Exactly the nodes of degree zero have been queued, each once and after all that feed it. */
  ghost predicate QueueIs(n: nat, es: seq<Edge>, deg: seq<nat>, q: seq<nat>)
  {
    && n <= |deg| && Distinct(q) && Below(q, n) && FedFromEarlier(es, q)
    && forall v :: 0 <= v < n ==> (v in q <==> deg[v] == 0)
  }

  method CountDegrees(n: nat, es: seq<Edge>, deg: array<nat>)
    requires InRange(n, es) && n <= deg.Length
    requires forall v :: 0 <= v < n ==> deg[v] == 0
    modifies deg
    ensures DegreesAre(n, es, deg[..], {})
  {
    for i := 0 to |es|
      invariant forall v :: 0 <= v < n ==> deg[v] == Pending(es[..i], {}, v)
    {
      assert es[i] in es;
      forall v | 0 <= v < n
        ensures Pending(es[..i + 1], {}, v) == Pending(es[..i], {}, v) + if es[i].to == v then 1 else 0
      {
        PendingStep(es, i, v);
      }
      deg[es[i].to] := deg[es[i].to] + 1;
    }
    assert es[..|es|] == es;
  }

  method SeedQueue(n: nat, es: seq<Edge>, deg: array<nat>, queue: array<nat>) returns (tail: nat)
    requires DegreesAre(n, es, deg[..], {}) && n <= queue.Length && queue != deg
    modifies queue
    ensures tail <= n && QueueIs(n, es, deg[..], queue[..tail])
  {
    tail := 0;
    for i := 0 to n
      invariant tail <= i
      invariant Distinct(queue[..tail]) && Below(queue[..tail], i)
      invariant forall v :: 0 <= v < i ==> (v in queue[..tail] <==> deg[v] == 0)
      invariant deg[..] == old(deg[..])
    {
      if deg[i] == 0 {
        queue[tail] := i;
        tail := tail + 1;
        assert queue[..tail] == queue[..tail - 1] + [i];
      }
    }
    var q := queue[..tail];
    forall j | 0 <= j < |q| ensures forall e :: e in es ==> e.to != q[j] {
      assert q[j] in q;
      NoEdgeInto(es, q[j]);
    }
  }

  lemma NoEdgeInto(es: seq<Edge>, v: nat)
    requires Pending(es, {}, v) == 0
    ensures forall e :: e in es ==> e.to != v
  {
    NothingPending(es, {}, v);
  }

  /** A node whose last outstanding edge is released may be queued. */
  lemma MayQueue(n: nat, es: seq<Edge>, q: seq<nat>, done: set<nat>, node: nat, i: nat, dest: nat)
    requires i <= |es| && node !in done && Pending(es, done, dest) == Between(es[..i], node, dest)
    requires (forall v :: v in done + {node} ==> v in q) && FedFromEarlier(es, q)
    ensures FedFromEarlier(es, q + [dest])
  {
    BetweenPrefix(es, i, node, dest);
    FinishNode(es, done, node, dest);
    NothingPending(es, done + {node}, dest);
    var r := q + [dest];
    forall j, e | 0 <= j < |r| && e in es && e.to == r[j] ensures e.from in r[..j] {
      if j < |q| {
        assert r[..j] == q[..j];
      } else {
        assert r[..j] == q;
      }
    }
  }

  /** An edge about to be released is still counted, so no in-degree goes below zero. */
  lemma StillCounted(es: seq<Edge>, done: set<nat>, node: nat, i: nat)
    requires i < |es| && node !in done && es[i].from == node
    ensures Between(es[..i], node, es[i].to) < Pending(es, done, es[i].to)
  {
    var v := es[i].to;
    BetweenStep(es, i, node, v);
    BetweenPrefix(es, i + 1, node, v);
    FinishNode(es, done, node, v);
  }

  /** The inner loop: take the edges leaving `node` out of the in-degrees. */
  method Release(n: nat, es: seq<Edge>, deg: array<nat>, queue: array<nat>, tail0: nat, node: nat, ghost done: set<nat>)
    returns (tail: nat)
    requires InRange(n, es) && tail0 <= n <= queue.Length && queue != deg
    requires DegreesAre(n, es, deg[..], done) && QueueIs(n, es, deg[..], queue[..tail0])
    requires node !in done && forall v :: v in done + {node} ==> v in queue[..tail0]
    modifies deg, queue
    ensures tail0 <= tail <= n && queue[..tail0] == old(queue[..tail0])
    ensures DegreesAre(n, es, deg[..], done + {node}) && QueueIs(n, es, deg[..], queue[..tail])
  {
    tail := tail0;
    for i := 0 to |es|
      invariant tail0 <= tail <= n
      invariant queue[..tail0] == old(queue[..tail0])
      invariant forall v :: 0 <= v < n ==> deg[v] + Between(es[..i], node, v) == Pending(es, done, v)
      invariant QueueIs(n, es, deg[..], queue[..tail])
      invariant forall v :: v in done + {node} ==> v in queue[..tail]
    {
      tail := ReleaseEdge(n, es, deg, queue, tail, node, done, i);
    }
    assert es[..|es|] == es;
    forall v | 0 <= v < n ensures deg[v] == Pending(es, done + {node}, v) {
      FinishNode(es, done, node, v);
    }
  }

  /** One edge of the inner loop. */
  method ReleaseEdge(n: nat, es: seq<Edge>, deg: array<nat>, queue: array<nat>, tail0: nat, node: nat,
      ghost done: set<nat>, i: nat)
    returns (tail: nat)
    requires InRange(n, es) && tail0 <= n <= queue.Length && queue != deg && i < |es| && n <= deg.Length
    requires forall v :: 0 <= v < n ==> deg[v] + Between(es[..i], node, v) == Pending(es, done, v)
    requires QueueIs(n, es, deg[..], queue[..tail0])
    requires node !in done && forall v :: v in done + {node} ==> v in queue[..tail0]
    modifies deg, queue
    ensures tail0 <= tail <= n && queue[..tail0] == old(queue[..tail0])
    ensures forall v :: 0 <= v < n ==> deg[v] + Between(es[..i + 1], node, v) == Pending(es, done, v)
    ensures QueueIs(n, es, deg[..], queue[..tail])
    ensures forall v :: v in done + {node} ==> v in queue[..tail]
  {
    tail := tail0;
    forall v | 0 <= v < n
      ensures Between(es[..i + 1], node, v)
              == Between(es[..i], node, v) + if es[i] == Edge(node, v) then 1 else 0
    {
      BetweenStep(es, i, node, v);
    }
    if es[i].from == node {
      assert es[i] in es;
      StillCounted(es, done, node, i);
      var dest := es[i].to;
      deg[dest] := deg[dest] - 1;
      if deg[dest] == 0 {
        ghost var q := queue[..tail];
        assert Distinct(q + [dest]) && Below(q + [dest], n);
        DistinctFits(q + [dest], n);
        MayQueue(n, es, q, done, node, i + 1, dest);
        queue[tail] := dest;
        tail := tail + 1;
        assert queue[..tail] == q + [dest];
      }
    }
  }

  /**
   * `topo_sort`: succeeds exactly when the edges have no cycle, and then returns
   * every node once, each after the nodes that feed it.
   */
  method Sort(n: nat, es: seq<Edge>) returns (order: seq<nat>, ok: bool)
    requires n <= MAX_NODES && InRange(n, es)
    ensures ok <==> Acyclic(es)
    ensures ok ==> Topological(n, es, order)
    ensures |order| <= n && Distinct(order) && Below(order, n)
  {
    var deg := new nat[MAX_NODES](_ => 0);
    var queue := new nat[MAX_NODES];
    CountDegrees(n, es, deg);
    var head := 0;
    var tail := SeedQueue(n, es, deg, queue);
    order := [];
    assert Set(order) == {};
    while head < tail
      invariant head <= tail <= n
      invariant order == queue[..head]
      invariant DegreesAre(n, es, deg[..], Set(order)) && QueueIs(n, es, deg[..], queue[..tail])
      decreases n - head
    {
      var node := queue[head];
      ghost var q := queue[..tail];
      assert q[head] == node && order == q[..head];
      head := head + 1;
      tail := Release(n, es, deg, queue, tail, node, Set(order));
      assert queue[..head] == q[..head];
      assert Set(order + [node]) == Set(order) + {node};
      order := order + [node];
    }
    ok := |order| == n;
    assert queue[..tail] == order;
    if ok {
      TopologicalIsAcyclic(n, es, order);
    } else {
      LeftoverStuck(n, es, order);
      SomeLeft(n, order);
      StuckHasCycle(n, es, set v: nat | v < n && v !in order);
    }
  }

  lemma SomeLeft(n: nat, order: seq<nat>)
    requires Distinct(order) && Below(order, n) && |order| != n
    ensures |order| < n
    ensures (set v: nat | v < n && v !in order) != {}
  {
    DistinctFits(order, n);
    if (set v: nat | v < n && v !in order) == {} {
      var r := set v: nat | v < n && v !in order;
      forall v: nat | v < n ensures v in order {
        assert v !in r;
      }
      AllFit(n, order);
    }
  }

  lemma {:induction false} AllFit(n: nat, s: seq<nat>)
    requires forall v: nat :: v < n ==> v in s
    ensures |s| >= n
  {
    if n == 0 {
    } else {
      var last: nat := n - 1;
      assert last in s;
      var k :| 0 <= k < |s| && s[k] == last;
      var r := s[..k] + s[k + 1..];
      forall v: nat | v < n - 1 ensures v in r {
        assert v in s;
        var i :| 0 <= i < |s| && s[i] == v;
        assert r[if i < k then i else i - 1] == v;
      }
      AllFit(n - 1, r);
    }
  }
}
