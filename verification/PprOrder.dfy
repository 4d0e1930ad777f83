/** The order in which nodes, edges and seeds are listed does not matter over the reals, and
    neither do repeated node ids. */
module PprOrder {
  import opened Bags
  import opened Numbers
  import opened PprSpec
  import opened Sums
  import opened PprReal
  import opened PprTheorems

  // ----- sums over lists, up to order

  function Total<T>(s: seq<T>, f: T -> real): real {
    if s == [] then 0.0 else Total(s[..|s| - 1], f) + f(s[|s| - 1])
  }

  lemma {:induction false} TotalWithout<T>(s: seq<T>, i: nat, f: T -> real)
    requires i < |s|
    ensures Total(s, f) == Total(Without(s, i), f) + f(s[i])
  {
    var t, n := Without(s, i), |s| - 1;
    if i == n {
      assert t == s[..n];
    } else {
      TotalWithout(s[..n], i, f);
      assert t[..n - 1] == Without(s[..n], i);
    }
  }

  lemma {:induction false} TotalPermutes<T>(s: seq<T>, t: seq<T>, f: T -> real)
    requires multiset(s) == multiset(t)
    ensures Total(s, f) == Total(t, f)
    decreases |s|
  {
    SameBagSameSize(s, t);
    if s != [] {
      var n := |s| - 1;
      assert s[n] in multiset(t);
      var i :| 0 <= i < |t| && t[i] == s[n];
      WithoutOne(s, n);
      WithoutOne(t, i);
      TotalWithout(s, n, f);
      TotalWithout(t, i, f);
      hide Without, Total;
      TotalPermutes(Without(s, n), Without(t, i), f);
    }
  }

  // ----- sums over slots, by node id

  ghost function SumVals(m: map<NodeId, real>): real {
    if m == map[] then 0.0
    else
      var k :| k in m;
      m[k] + SumVals(m - {k})
  }

  lemma {:induction false} SumValsRemove(m: map<NodeId, real>, x: NodeId)
    requires x in m
    ensures SumVals(m) == m[x] + SumVals(m - {x})
    decreases |m|
  {
    var k :| k in m && SumVals(m) == m[k] + SumVals(m - {k});
    if k != x {
      SumValsRemove(m - {k}, x);
      SumValsRemove(m - {x}, k);
      assert m - {k} - {x} == m - {x} - {k};
    }
  }

  lemma SumValsSet(m: map<NodeId, real>, x: NodeId, y: real)
    ensures SumVals(m[x := y]) == SumVals(m) - (if x in m then m[x] else 0.0) + y
  {
    SumValsRemove(m[x := y], x);
    assert m[x := y] - {x} == m - {x};
    if x in m {
      SumValsRemove(m, x);
    } else {
      assert m - {x} == m;
    }
  }

  /** The values at the live slots, by node id. */
  function ById(nodes: seq<NodeId>, a: seq<real>): (m: map<NodeId, real>)
    requires |a| == |nodes|
    ensures forall id :: id in m <==> id in nodes
  {
    map id | id in IdToIdx(nodes) :: a[IdToIdx(nodes)[id]]
  }

  ghost predicate DeadZero(nodes: seq<NodeId>, a: seq<real>)
    requires |a| == |nodes|
  {
    forall i :: 0 <= i < |nodes| && IdToIdx(nodes)[nodes[i]] != i ==> a[i] == 0.0
  }

  lemma IdxSnoc(nodes: seq<NodeId>, x: NodeId)
    ensures IdToIdx(nodes + [x]) == IdToIdx(nodes)[x := |nodes|]
  {
    assert (nodes + [x])[..|nodes|] == nodes;
  }

  lemma ByIdSnoc(nodes: seq<NodeId>, x: NodeId, a: seq<real>, y: real)
    requires |a| == |nodes|
    ensures ById(nodes + [x], a + [y]) == ById(nodes, a)[x := y]
  {
    IdxSnoc(nodes, x);
    hide IdToIdx;
    var m, m' := ById(nodes, a), ById(nodes + [x], a + [y]);
    forall id | id in m' ensures id in m[x := y] && m'[id] == m[x := y][id] {
      assert id in nodes + [x];
    }
    forall id | id in m[x := y] ensures id in m' {
      assert id in nodes + [x];
    }
  }

  /** Adding a slot kills the slot that carried the same id before, and no other. */
  lemma DeadSnoc(nodes: seq<NodeId>, x: NodeId, a: seq<real>, y: real)
    requires |a| == |nodes| && DeadZero(nodes + [x], a + [y])
    ensures DeadZero(nodes, a)
    ensures x in nodes ==> ById(nodes, a)[x] == 0.0
  {
    IdxSnoc(nodes, x);
    hide IdToIdx;
    var ns, b := nodes + [x], a + [y];
    var idx := IdToIdx(nodes);
    forall i | 0 <= i < |nodes| && (idx[nodes[i]] != i || nodes[i] == x) ensures a[i] == 0.0 {
      assert ns[i] == nodes[i] && b[i] == a[i];
      assert IdToIdx(ns)[ns[i]] != i;
    }
    if x in nodes {
      assert nodes[idx[x]] == x;
    }
  }

  lemma SlotSumSnoc(nodes: seq<NodeId>, x: NodeId, a: seq<real>, y: real)
    requires |a| == |nodes| && DeadZero(nodes + [x], a + [y])
    requires Sum(a) == SumVals(ById(nodes, a))
    ensures Sum(a + [y]) == SumVals(ById(nodes + [x], a + [y]))
  {
    hide IdToIdx, DeadZero, Sum, SumVals;
    DeadSnoc(nodes, x, a, y);
    ByIdSnoc(nodes, x, a, y);
    SumValsSet(ById(nodes, a), x, y);
    SumSnoc(a, y);
  }

  /** The dead slots hold nothing, so a sum over slots is the sum over node ids. */
  lemma {:induction false} SlotSum(nodes: seq<NodeId>, a: seq<real>)
    requires |a| == |nodes| && DeadZero(nodes, a)
    ensures Sum(a) == SumVals(ById(nodes, a))
  {
    hide DeadZero, ById;
    if nodes == [] {
      assert ById(nodes, a).Keys == {};
    } else {
      hide IdToIdx, Sum, SumVals;
      var n := |nodes| - 1;
      var ns, x, b, y := nodes[..n], nodes[n], a[..n], a[n];
      assert nodes == ns + [x];
      assert a == b + [y];
      DeadSnoc(ns, x, b, y);
      SlotSum(ns, b);
      SlotSumSnoc(ns, x, b, y);
    }
  }

  lemma SameSlotSum(nodes: seq<NodeId>, a: seq<real>, nodes': seq<NodeId>, a': seq<real>)
    requires |a| == |nodes| && |a'| == |nodes'| && DeadZero(nodes, a) && DeadZero(nodes', a')
    requires ById(nodes, a) == ById(nodes', a')
    ensures Sum(a) == Sum(a')
  {
    SlotSum(nodes, a);
    SlotSum(nodes', a');
  }

  // ----- weights and flows, by node id

  /** What `e` adds to the weight leaving `a`. */
  function EdgeOut(A: Arith<real>, c: Config<real>, live: set<NodeId>, e: Edge, a: NodeId): real {
    var w := WeightOf(A, c, e.category);
    if A.le(w, A.zero) || e.from !in live || e.to !in live then 0.0
    else
      var f := if e.from == a then w else 0.0;
      var t := if e.to == a then w else 0.0;
      match c.direction
      case Forward => f
      case Backward => t
      case Undirected => f + t
  }

  /** What `e` sends to `b` when each source has the coefficient `m` gives it. */
  function EdgePush(A: Arith<real>, c: Config<real>, m: map<NodeId, real>, e: Edge, b: NodeId): real {
    var w := WeightOf(A, c, e.category);
    if A.le(w, A.zero) || e.from !in m || e.to !in m then 0.0
    else
      var f := if e.to == b then Prod(m[e.from], w) else 0.0;
      var t := if e.from == b then Prod(m[e.to], w) else 0.0;
      match c.direction
      case Forward => f
      case Backward => t
      case Undirected => f + t
  }

  lemma OutSnoc(evs: seq<Event<real>>, e: Event<real>, n: nat)
    requires EventsIn(evs, n) && e.source < n && e.target < n
    ensures EventsIn(evs + [e], n)
    ensures forall j :: 0 <= j < n ==> Out(evs + [e], n)[j] == Out(evs, n)[j] + (if j == e.source then e.w else 0.0)
  {
    assert (evs + [e])[..|evs|] == evs;
  }

  lemma PushSnoc(evs: seq<Event<real>>, e: Event<real>, n: nat, c: seq<real>)
    requires EventsIn(evs, n) && e.source < n && e.target < n && |c| == n
    ensures EventsIn(evs + [e], n)
    ensures forall j :: 0 <= j < n ==>
      Push(evs + [e], n, c)[j] == Push(evs, n, c)[j] + (if j == e.target then Prod(c[e.source], e.w) else 0.0)
  {
    assert (evs + [e])[..|evs|] == evs;
  }

  lemma EdgeOutAdds(A: Arith<real>, c: Config<real>, idx: map<NodeId, nat>, n: nat, evs: seq<Event<real>>, e: Edge,
                    a: NodeId)
    requires Injective(idx, n) && EventsIn(evs, n) && a in idx
    ensures EventsIn(evs + EdgeEvents(A, c, idx, e), n)
    ensures Out(evs + EdgeEvents(A, c, idx, e), n)[idx[a]] == Out(evs, n)[idx[a]] + EdgeOut(A, c, idx.Keys, e, a)
  {
    hide Out;
    var w := WeightOf(A, c, e.category);
    if A.le(w, A.zero) || e.from !in idx || e.to !in idx {
      assert evs + EdgeEvents(A, c, idx, e) == evs;
    } else {
      var ft, tf := Event(idx[e.to], idx[e.from], w), Event(idx[e.from], idx[e.to], w);
      OutSnoc(evs, ft, n);
      OutSnoc(evs, tf, n);
      OutSnoc(evs + [ft], tf, n);
      assert evs + [ft, tf] == evs + [ft] + [tf];
    }
  }

  lemma EdgePushAdds(A: Arith<real>, c: Config<real>, idx: map<NodeId, nat>, n: nat, evs: seq<Event<real>>,
                     cs: seq<real>, m: map<NodeId, real>, e: Edge, b: NodeId)
    requires Injective(idx, n) && EventsIn(evs, n) && b in idx && |cs| == n
    requires m.Keys == idx.Keys && forall id :: id in idx ==> m[id] == cs[idx[id]]
    ensures EventsIn(evs + EdgeEvents(A, c, idx, e), n)
    ensures Push(evs + EdgeEvents(A, c, idx, e), n, cs)[idx[b]] == Push(evs, n, cs)[idx[b]] + EdgePush(A, c, m, e, b)
  {
    hide Push, Prod;
    var w := WeightOf(A, c, e.category);
    assert forall id :: id in m <==> id in idx;
    if A.le(w, A.zero) || e.from !in idx || e.to !in idx {
      assert evs + EdgeEvents(A, c, idx, e) == evs;
    } else {
      var ft, tf := Event(idx[e.to], idx[e.from], w), Event(idx[e.from], idx[e.to], w);
      PushSnoc(evs, ft, n, cs);
      PushSnoc(evs, tf, n, cs);
      PushSnoc(evs + [ft], tf, n, cs);
      assert evs + [ft, tf] == evs + [ft] + [tf];
    }
  }

  lemma {:induction false} OutIsTotal(A: Arith<real>, c: Config<real>, idx: map<NodeId, nat>, n: nat, edges: seq<Edge>,
                                      a: NodeId, f: Edge -> real)
    requires Injective(idx, n) && a in idx
    requires forall e {:trigger f(e)} :: f(e) == EdgeOut(A, c, idx.Keys, e, a)
    ensures EventsIn(Events(A, c, idx, edges), n)
    ensures Out(Events(A, c, idx, edges), n)[idx[a]] == Total(edges, f)
  {
    if edges == [] {
    } else {
      OutIsTotal(A, c, idx, n, edges[..|edges| - 1], a, f);
      hide Out, EdgeEvents;
      EdgeOutAdds(A, c, idx, n, Events(A, c, idx, edges[..|edges| - 1]), edges[|edges| - 1], a);
    }
  }

  lemma {:induction false} PushIsTotal(A: Arith<real>, c: Config<real>, idx: map<NodeId, nat>, n: nat,
                                       edges: seq<Edge>, cs: seq<real>, m: map<NodeId, real>, b: NodeId,
                                       f: Edge -> real)
    requires Injective(idx, n) && b in idx && |cs| == n
    requires m.Keys == idx.Keys && forall id :: id in idx ==> m[id] == cs[idx[id]]
    requires forall e {:trigger f(e)} :: f(e) == EdgePush(A, c, m, e, b)
    ensures EventsIn(Events(A, c, idx, edges), n)
    ensures Push(Events(A, c, idx, edges), n, cs)[idx[b]] == Total(edges, f)
  {
    if edges == [] {
    } else {
      PushIsTotal(A, c, idx, n, edges[..|edges| - 1], cs, m, b, f);
      hide Push, EdgeEvents;
      EdgePushAdds(A, c, idx, n, Events(A, c, idx, edges[..|edges| - 1]), cs, m, edges[|edges| - 1], b);
    }
  }
}
