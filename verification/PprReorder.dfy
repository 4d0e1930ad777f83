/** Two listings of one graph and one seed list run alike: same rounds, same score per node. */
module PprReorder {
  import opened Bags
  import opened Numbers
  import opened PprSpec
  import opened Sums
  import opened PprReal
  import opened PprTheorems
  import opened PprSupport
  import opened PprOrder

  /** The same node ids (in any order, repeated or not) and the same edges in any order. */
  ghost predicate SameGraph(nodes: seq<NodeId>, edges: seq<Edge>, nodes': seq<NodeId>, edges': seq<Edge>) {
    && (forall id :: id in nodes <==> id in nodes')
    && multiset(edges) == multiset(edges')
  }

  /** Two vectors give every node id the same value, and nothing to a dead slot. */
  ghost predicate Alike(nodes: seq<NodeId>, v: seq<real>, nodes': seq<NodeId>, v': seq<real>) {
    && |v| == |nodes| && |v'| == |nodes'|
    && ById(nodes, v) == ById(nodes', v')
    && DeadZero(nodes, v) && DeadZero(nodes', v')
  }

  lemma SameKeys(nodes: seq<NodeId>, nodes': seq<NodeId>)
    requires forall id :: id in nodes <==> id in nodes'
    ensures IdToIdx(nodes).Keys == IdToIdx(nodes').Keys
  {
  }

  // ----- the seeds

  lemma {:induction false} HitsIsTotal(idx: map<NodeId, nat>, seeds: seq<NodeId>, f: NodeId -> real)
    requires forall s {:trigger f(s)} :: f(s) == if s in idx then 1.0 else 0.0
    ensures Hits(idx, seeds) as real == Total(seeds, f)
  {
    if seeds == [] {
    } else {
      HitsIsTotal(idx, seeds[..|seeds| - 1], f);
    }
  }

  lemma HitsSame(nodes: seq<NodeId>, seeds: seq<NodeId>, nodes': seq<NodeId>, seeds': seq<NodeId>)
    requires forall id :: id in nodes <==> id in nodes'
    requires multiset(seeds) == multiset(seeds')
    ensures Hits(IdToIdx(nodes), seeds) == Hits(IdToIdx(nodes'), seeds')
  {
    var idx, idx' := IdToIdx(nodes), IdToIdx(nodes');
    var f: NodeId -> real := s => if s in idx then 1.0 else 0.0;
    HitsIsTotal(idx, seeds, f);
    HitsIsTotal(idx', seeds', f);
    TotalPermutes(seeds, seeds', f);
  }

  lemma SeedVectorAt(nodes: seq<NodeId>, seeds: seq<NodeId>)
    requires Hits(IdToIdx(nodes), seeds) > 0
    ensures var idx, p := IdToIdx(nodes), SeedVector(nodes, seeds);
      && (forall id :: id in nodes ==> p[idx[id]] == if id in seeds then 1.0 / Hits(idx, seeds) as real else 0.0)
      && DeadZero(nodes, p)
  {
    var idx, weight := IdToIdx(nodes), 1.0 / Hits(IdToIdx(nodes), seeds) as real;
    SlotsInjective(nodes);
    hide Personalize;
    forall id | id in nodes
      ensures SeedVector(nodes, seeds)[idx[id]] == if id in seeds then weight else 0.0
    {
      PersonalizeAt(weight, idx, |nodes|, seeds, id);
    }
    forall i | 0 <= i < |nodes| && idx[nodes[i]] != i ensures SeedVector(nodes, seeds)[i] == 0.0 {
      PersonalizeElsewhere(weight, idx, |nodes|, seeds, i);
    }
  }

  lemma SeedVectorsAlike(nodes: seq<NodeId>, seeds: seq<NodeId>, nodes': seq<NodeId>, seeds': seq<NodeId>)
    requires forall id :: id in nodes <==> id in nodes'
    requires multiset(seeds) == multiset(seeds')
    requires Hits(IdToIdx(nodes), seeds) > 0 && Hits(IdToIdx(nodes'), seeds') > 0
    ensures Alike(nodes, SeedVector(nodes, seeds), nodes', SeedVector(nodes', seeds'))
  {
    HitsSame(nodes, seeds, nodes', seeds');
    SameBagSameMembers(seeds, seeds');
    SeedVectorAt(nodes, seeds);
    SeedVectorAt(nodes', seeds');
    hide IdToIdx, SeedVector, Hits;
    AlikeAt(nodes, SeedVector(nodes, seeds), nodes', SeedVector(nodes', seeds'));
  }

  lemma AlikeAt(nodes: seq<NodeId>, v: seq<real>, nodes': seq<NodeId>, v': seq<real>)
    requires forall id :: id in nodes <==> id in nodes'
    requires |v| == |nodes| && |v'| == |nodes'|
    requires forall id :: id in nodes ==> v[IdToIdx(nodes)[id]] == v'[IdToIdx(nodes')[id]]
    ensures ById(nodes, v) == ById(nodes', v')
  {
    hide IdToIdx;
  }

  lemma AtAlike(nodes: seq<NodeId>, v: seq<real>, nodes': seq<NodeId>, v': seq<real>, id: NodeId)
    requires |v| == |nodes| && |v'| == |nodes'| && ById(nodes, v) == ById(nodes', v')
    requires id in nodes && id in nodes'
    ensures v[IdToIdx(nodes)[id]] == v'[IdToIdx(nodes')[id]]
  {
    hide IdToIdx;
    assert ById(nodes, v)[id] == ById(nodes', v')[id];
  }

  // ----- one round

  lemma OutsAlike(A: Arith<real>, c: Config<real>, nodes: seq<NodeId>, edges: seq<Edge>, nodes': seq<NodeId>,
                  edges': seq<Edge>)
    requires SameGraph(nodes, edges, nodes', edges')
    ensures EventsIn(Events(A, c, IdToIdx(nodes), edges), |nodes|)
    ensures EventsIn(Events(A, c, IdToIdx(nodes'), edges'), |nodes'|)
    ensures ById(nodes, Out(Events(A, c, IdToIdx(nodes), edges), |nodes|))
         == ById(nodes', Out(Events(A, c, IdToIdx(nodes'), edges'), |nodes'|))
  {
    var idx, idx' := IdToIdx(nodes), IdToIdx(nodes');
    SlotsInjective(nodes);
    SlotsInjective(nodes');
    SameKeys(nodes, nodes');
    EventsInRange(A, c, idx, |nodes|, edges);
    EventsInRange(A, c, idx', |nodes'|, edges');
    hide IdToIdx, Events, Out;
    forall a | a in nodes
      ensures Out(Events(A, c, idx, edges), |nodes|)[idx[a]] == Out(Events(A, c, idx', edges'), |nodes'|)[idx'[a]]
    {
      var f: Edge -> real := e => EdgeOut(A, c, idx.Keys, e, a);
      OutIsTotal(A, c, idx, |nodes|, edges, a, f);
      OutIsTotal(A, c, idx', |nodes'|, edges', a, f);
      TotalPermutes(edges, edges', f);
    }
    AlikeAt(nodes, Out(Events(A, c, idx, edges), |nodes|), nodes', Out(Events(A, c, idx', edges'), |nodes'|));
  }

  lemma PushesAlike(A: Arith<real>, c: Config<real>, nodes: seq<NodeId>, edges: seq<Edge>, cs: seq<real>,
                    nodes': seq<NodeId>, edges': seq<Edge>, cs': seq<real>)
    requires SameGraph(nodes, edges, nodes', edges')
    requires |cs| == |nodes| && |cs'| == |nodes'| && ById(nodes, cs) == ById(nodes', cs')
    ensures EventsIn(Events(A, c, IdToIdx(nodes), edges), |nodes|)
    ensures EventsIn(Events(A, c, IdToIdx(nodes'), edges'), |nodes'|)
    ensures ById(nodes, Push(Events(A, c, IdToIdx(nodes), edges), |nodes|, cs))
         == ById(nodes', Push(Events(A, c, IdToIdx(nodes'), edges'), |nodes'|, cs'))
  {
    var idx, idx' := IdToIdx(nodes), IdToIdx(nodes');
    var m := ById(nodes, cs);
    SlotsInjective(nodes);
    SlotsInjective(nodes');
    SameKeys(nodes, nodes');
    EventsInRange(A, c, idx, |nodes|, edges);
    EventsInRange(A, c, idx', |nodes'|, edges');
    hide IdToIdx, Events, Push;
    assert m.Keys == idx.Keys;
    forall id | id in idx ensures m[id] == cs[idx[id]] && m[id] == cs'[idx'[id]] {
      AtAlike(nodes, cs, nodes', cs', id);
    }
    forall b | b in nodes
      ensures Push(Events(A, c, idx, edges), |nodes|, cs)[idx[b]] ==
        Push(Events(A, c, idx', edges'), |nodes'|, cs')[idx'[b]]
    {
      var f: Edge -> real := e => EdgePush(A, c, m, e, b);
      PushIsTotal(A, c, idx, |nodes|, edges, cs, m, b, f);
      PushIsTotal(A, c, idx', |nodes'|, edges', cs', m, b, f);
      TotalPermutes(edges, edges', f);
    }
    AlikeAt(nodes, Push(Events(A, c, idx, edges), |nodes|, cs),
            nodes', Push(Events(A, c, idx', edges'), |nodes'|, cs'));
  }

  lemma CoefsAlike(nodes: seq<NodeId>, o: seq<real>, v: seq<real>, nodes': seq<NodeId>, o': seq<real>, v': seq<real>)
    requires forall id :: id in nodes <==> id in nodes'
    requires |o| == |v| == |nodes| && |o'| == |v'| == |nodes'|
    requires ById(nodes, o) == ById(nodes', o') && Alike(nodes, v, nodes', v')
    ensures ById(nodes, Coefs(o, v)) == ById(nodes', Coefs(o', v'))
    ensures Sum(DanglingPart(o, v)) == Sum(DanglingPart(o', v'))
  {
    hide IdToIdx, Sum;
    forall id | id in nodes
      ensures Coefs(o, v)[IdToIdx(nodes)[id]] == Coefs(o', v')[IdToIdx(nodes')[id]]
      ensures DanglingPart(o, v)[IdToIdx(nodes)[id]] == DanglingPart(o', v')[IdToIdx(nodes')[id]]
    {
      AtAlike(nodes, o, nodes', o', id);
      AtAlike(nodes, v, nodes', v', id);
    }
    AlikeAt(nodes, Coefs(o, v), nodes', Coefs(o', v'));
    AlikeAt(nodes, DanglingPart(o, v), nodes', DanglingPart(o', v'));
    SameSlotSum(nodes, DanglingPart(o, v), nodes', DanglingPart(o', v'));
  }

  lemma StepsAlike(A: Arith<real>, c: Config<real>, nodes: seq<NodeId>, edges: seq<Edge>, p: seq<real>, v: seq<real>,
                   nodes': seq<NodeId>, edges': seq<Edge>, p': seq<real>, v': seq<real>)
    requires SameGraph(nodes, edges, nodes', edges') && Alike(nodes, p, nodes', p') && Alike(nodes, v, nodes', v')
    requires WalkOf(A, nodes, edges, c, p).Ok() && WalkOf(A, nodes', edges', c, p').Ok()
    ensures ById(nodes, Step(WalkOf(A, nodes, edges, c, p), v)) ==
      ById(nodes', Step(WalkOf(A, nodes', edges', c, p'), v'))
  {
    var w, w' := WalkOf(A, nodes, edges, c, p), WalkOf(A, nodes', edges', c, p');
    OutsAlike(A, c, nodes, edges, nodes', edges');
    var o, o' := Out(w.evs, |nodes|), Out(w'.evs, |nodes'|);
    CoefsAlike(nodes, o, v, nodes', o', v');
    var cs, cs' := Coefs(o, v), Coefs(o', v');
    PushesAlike(A, c, nodes, edges, cs, nodes', edges', cs');
    hide IdToIdx, Events, Out, Push, Coefs, DanglingPart, Sum;
    forall id | id in nodes ensures Step(w, v)[IdToIdx(nodes)[id]] == Step(w', v')[IdToIdx(nodes')[id]] {
      AtAlike(nodes, Push(w.evs, |nodes|, cs), nodes', Push(w'.evs, |nodes'|, cs'), id);
      AtAlike(nodes, p, nodes', p', id);
      SlotInRange(nodes, id);
      SlotInRange(nodes', id);
      StepAt(w, v, IdToIdx(nodes)[id]);
      StepAt(w', v', IdToIdx(nodes')[id]);
    }
    AlikeAt(nodes, Step(w, v), nodes', Step(w', v'));
  }

  lemma SlotInRange(nodes: seq<NodeId>, id: NodeId)
    requires id in nodes
    ensures id in IdToIdx(nodes) && IdToIdx(nodes)[id] < |nodes|
  {
  }

  lemma StepAt(w: Walk, v: seq<real>, i: nat)
    requires w.Ok() && |v| == |w.p| && i < |v|
    ensures var o := Out(w.evs, |v|);
      Step(w, v)[i] == Blend(w.d, w.p[i], Received(Push(w.evs, |v|, Coefs(o, v))[i], Sum(DanglingPart(o, v)), w.p[i]))
  {
    LinAt(w, v, i);
    hide Lin, Received, Blend;
  }

  lemma LinAt(w: Walk, v: seq<real>, i: nat)
    requires w.Ok() && |v| == |w.p| && i < |v|
    ensures var o := Out(w.evs, |v|);
      Lin(w, v)[i] == Received(Push(w.evs, |v|, Coefs(o, v))[i], Sum(DanglingPart(o, v)), w.p[i])
  {
    hide Out, Push, Coefs, DanglingPart, Sum, Received;
  }

  // ----- the whole run

  lemma {:induction false} AfterAlike(A: Arith<real>, c: Config<real>, nodes: seq<NodeId>, edges: seq<Edge>,
                                      seeds: seq<NodeId>, w: Walk,
                                      nodes': seq<NodeId>, edges': seq<Edge>, seeds': seq<NodeId>, w': Walk, k: nat)
    requires IsReal(A) && SameGraph(nodes, edges, nodes', edges') && multiset(seeds) == multiset(seeds')
    requires Hits(IdToIdx(nodes), seeds) > 0 && Hits(IdToIdx(nodes'), seeds') > 0
    requires w == WalkOf(A, nodes, edges, c, SeedVector(nodes, seeds)) && w.Ok() && w.Prior()
    requires w' == WalkOf(A, nodes', edges', c, SeedVector(nodes', seeds')) && w'.Ok() && w'.Prior()
    ensures Alike(nodes, After(w, k), nodes', After(w', k))
    decreases k
  {
    hide *;
    SameGraphSameNodes(nodes, edges, nodes', edges');
    SeedVectorsAlike(nodes, seeds, nodes', seeds');
    WalkStarts(A, c, nodes, edges, SeedVector(nodes, seeds));
    WalkStarts(A, c, nodes', edges', SeedVector(nodes', seeds'));
    if k > 0 {
      AfterDeadZero(A, nodes, edges, seeds, c, w, k);
      AfterDeadZero(A, nodes', edges', seeds', c, w', k);
      AfterAlike(A, c, nodes, edges, seeds, w, nodes', edges', seeds', w', k - 1);
      NextAlike(A, c, nodes, edges, w, nodes', edges', w', k);
    }
  }

  lemma SameGraphSameNodes(nodes: seq<NodeId>, edges: seq<Edge>, nodes': seq<NodeId>, edges': seq<Edge>)
    requires SameGraph(nodes, edges, nodes', edges')
    ensures forall id :: id in nodes <==> id in nodes'
  {
  }

  lemma WalkStarts(A: Arith<real>, c: Config<real>, nodes: seq<NodeId>, edges: seq<Edge>, p: seq<real>)
    ensures var w := WalkOf(A, nodes, edges, c, p);
      w.p == p && (w.Ok() ==> After(w, 0) == p)
  {
  }

  lemma NextAlike(A: Arith<real>, c: Config<real>, nodes: seq<NodeId>, edges: seq<Edge>, w: Walk,
                  nodes': seq<NodeId>, edges': seq<Edge>, w': Walk, k: nat)
    requires k > 0 && SameGraph(nodes, edges, nodes', edges') && w.Ok() && w'.Ok()
    requires w == WalkOf(A, nodes, edges, c, w.p) && w' == WalkOf(A, nodes', edges', c, w'.p)
    requires Alike(nodes, w.p, nodes', w'.p) && Alike(nodes, After(w, k - 1), nodes', After(w', k - 1))
    requires |After(w, k)| == |nodes| && DeadZero(nodes, After(w, k))
    requires |After(w', k)| == |nodes'| && DeadZero(nodes', After(w', k))
    ensures Alike(nodes, After(w, k), nodes', After(w', k))
  {
    hide IdToIdx, ById, DeadZero, Step, Events, WalkOf;
    StepsAlike(A, c, nodes, edges, w.p, After(w, k - 1), nodes', edges', w'.p, After(w', k - 1));
  }

  lemma AfterDeadZero(A: Arith<real>, nodes: seq<NodeId>, edges: seq<Edge>, seeds: seq<NodeId>, c: Config<real>,
                      w: Walk, k: nat)
    requires IsReal(A) && Hits(IdToIdx(nodes), seeds) > 0
    requires w == WalkOf(A, nodes, edges, c, SeedVector(nodes, seeds)) && w.Ok() && w.Prior()
    ensures |After(w, k)| == |nodes| && DeadZero(nodes, After(w, k))
  {
    hide IdToIdx, After;
    forall i | 0 <= i < |nodes| && IdToIdx(nodes)[nodes[i]] != i ensures After(w, k)[i] == 0.0 {
      DeadSlot(A, nodes, edges, seeds, c, w, k, i);
    }
  }

  lemma NormsAlike(nodes: seq<NodeId>, u: seq<real>, v: seq<real>, nodes': seq<NodeId>, u': seq<real>, v': seq<real>)
    requires forall id :: id in nodes <==> id in nodes'
    requires Alike(nodes, u, nodes', u') && Alike(nodes, v, nodes', v')
    ensures Norm(Minus(u, v)) == Norm(Minus(u', v'))
  {
    hide IdToIdx, Sum;
    var a, a' := AbsAll(Minus(u, v)), AbsAll(Minus(u', v'));
    forall id | id in nodes ensures a[IdToIdx(nodes)[id]] == a'[IdToIdx(nodes')[id]] {
      AtAlike(nodes, u, nodes', u', id);
      AtAlike(nodes, v, nodes', v', id);
    }
    AlikeAt(nodes, a, nodes', a');
    SameSlotSum(nodes, a, nodes', a');
  }

  /** The changes decide when a run stops. */
  lemma StopUnique(w: Walk, w': Walk, epsilon: real, cap: nat, m: nat, m': nat)
    requires w.Ok() && w'.Ok() && StopsAfter(w, epsilon, cap, m) && StopsAfter(w', epsilon, cap, m')
    requires forall k: nat :: k > 0 ==> ChangeAt(w, k) == ChangeAt(w', k)
    ensures m == m'
  {
    hide ChangeAt;
    assert m > 0 ==> ChangeAt(w, m) == ChangeAt(w', m);
    assert m' > 0 ==> ChangeAt(w, m') == ChangeAt(w', m');
  }

  /** Reordering nodes, edges and seeds, and repeating node ids, leaves the round count and
      every node's score unchanged. */
  lemma OrderIndependent(A: Arith<real>, c: Config<real>, nodes: seq<NodeId>, edges: seq<Edge>, seeds: seq<NodeId>,
                         nodes': seq<NodeId>, edges': seq<Edge>, seeds': seq<NodeId>)
    requires IsReal(A) && SameGraph(nodes, edges, nodes', edges') && multiset(seeds) == multiset(seeds')
    ensures var (v, m) := HeadVector(A, nodes, edges, seeds, c);
      var (v', m') := HeadVector(A, nodes', edges', seeds', c);
      && m == m'
      && (v == [] <==> v' == [])
      && (v != [] ==> Alike(nodes, v, nodes', v'))
  {
    HitsSame(nodes, seeds, nodes', seeds');
    if Hits(IdToIdx(nodes), seeds) > 0 {
      var w, m := HeadIsWalk(A, nodes, edges, seeds, c);
      var w', m' := HeadIsWalk(A, nodes', edges', seeds', c);
      forall k: nat ensures Alike(nodes, After(w, k), nodes', After(w', k)) {
        AfterAlike(A, c, nodes, edges, seeds, w, nodes', edges', seeds', w', k);
      }
      hide HeadVector, WalkOf, SeedVector, StopsAfter, Alike, After, IdToIdx;
      forall k: nat | k > 0 ensures ChangeAt(w, k) == ChangeAt(w', k) {
        NormsAlike(nodes, After(w, k - 1), After(w, k), nodes', After(w', k - 1), After(w', k));
      }
      StopUnique(w, w', c.epsilon, c.maxIterations, m, m');
      BothEmpty(nodes, After(w, m), nodes', After(w', m));
    }
  }

  lemma BothEmpty(nodes: seq<NodeId>, v: seq<real>, nodes': seq<NodeId>, v': seq<real>)
    requires forall id :: id in nodes <==> id in nodes'
    requires Alike(nodes, v, nodes', v')
    ensures v == [] <==> v' == []
  {
    if v != [] {
      assert nodes[0] in nodes';
    }
    if v' != [] {
      assert nodes'[0] in nodes;
    }
  }
}
